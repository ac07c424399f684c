# Threaded AVL tree (tlp.udonavltree) in Dafny

This project models the core of the UdonSharp package `tlp.udonavltree`: a sorted
container of records kept in an AVL tree whose cells are *threaded* (a side without
a real child holds a "wire" to the in-order predecessor or successor) and whose cells
cache the size (`count`) and height of their subtree, so that the k-th element can be
selected by rank.

The model has two layers.

- `TreeNode.AVLTreeNode` (tree_node.dfy) is the cell as a class with the source's fields
  (`parent`, `payload`, `left`, `right`, `leftIsWire`, `rightIsWire`, `count`, `height`).
  It holds the per-cell operations: the real-child tests, `Balance`, `UpdateValues`,
  `GetFirst`/`GetLast`, `ConnectLeftWire`/`ConnectRightWire`, the wire-following
  in-order walk of `ToStringWithChildren` and the pool reset. A ghost shape (module
  Shapes) describes which cells form the tree. `LinkedIn` states the threaded-tree link
  invariant: parent back-links, real children where the shape has them, and wires to
  the in-order neighbours elsewhere. Three kinds of reference stores are proved to
  re-establish it:
  - the stores of a single rotation, by the two-state lemmas `RotLLinked`/`RotRLinked`;
  - `Add`'s splice of a new leaf, by the method `AttachNewNode`;
  - `RemoveLeafNode`'s hand-off of the leaf's wire to its parent, by the method
    `UnlinkLeaf`.
- `Tree.AVLTree` (tree.dfy) is the container, with `root` and `size`. Its operations
  (`FindNode`, `Contains`, `Add`, `Remove` with its removal helpers, `Balance`, `Get`,
  `IsEmpty`) work on the value image of the cells (module Cells): each cell keeps its
  payload and its cached count and height. A cell reached through parent references in
  the source is a position (`Locus`): the subtree it roots and the path up to the root.
  The two layers meet in `TreeNode.Image`, the value image of a cached heap tree.
  `ImageFacts`, `UpdateImage` and `BalanceImage` show that the cells' own `CachedIn`,
  `UpdateValues` and `Balance` agree with `Cells.Cached`, `Cells.Update` and
  `Cells.Balance` on it.
  The container operations assume that the wires and parent links are the ones the
  shape determines (`Shapes.Exp`, the links `LinkedIn` asks for). This is proved at the
  level of reference stores only for the three kinds of stores listed above, and not
  for the rewiring done by the other removal helpers.

The comparer is integer comparison on payloads. A payload is `Option<int>`, and `None`
stands for an invalid record, on which every comparison fails.

The tree invariant `Valid()` has four parts:
- every cached count and height is right;
- the tree is AVL-balanced;
- the payloads in order are sorted;
- `size` is the number of cells.

The proved properties include:
- **Add** reports failure exactly when a comparison fails. It inserts after the
  elements equal to the new one and before the greater ones.
- **Remove** succeeds exactly when the element is present. It removes one occurrence in
  place.
- Both keep `Valid()`.
- **Balance** turns a tree that is out of balance only along one path into a balanced,
  consistently cached tree with the same payloads in order.
- **Get** returns the element at the given rank.
- **The threaded walk** yields every payload in order.

When the removed cell has two subtrees of equal height, `Remove` replaces it by its
in-order *predecessor*: AVLTree.cs lines 228-235 take the successor only when
`Balance < 0`. The model's `RemoveCell` and `RemoveRootNodeOfLeftHeavyTree` do the same.

## Model

| member | source | states |
|---|---|---|
| Cells.Update | Packages/tlp.udonavltree/Runtime/AVLTreeNode.cs:39-43 | refreshing a cell keeps its children and payload, and makes the cell's cached count and height right whenever its children's are |
| Cells.Rotate | Packages/tlp.udonavltree/Runtime/AVLTreeNode.cs:77-208 | a rotation whose balance is outside [-2,-1] (left) or [1,2] (right) changes nothing; otherwise the heavy-side child becomes the root with the old root as its child and the crossing subtree moved across; the in-order payloads are unchanged and the cached values stay right |
| Cells.RotateKeepsCount | Packages/tlp.udonavltree/Runtime/AVLTreeNode.cs:188-192 | after an accepted rotation the new root caches the count the old root had |
| Cells.Fix | Packages/tlp.udonavltree/Runtime/AVLTree.cs:935-961 | one pass of the balancing loop (update, then the LL/LR/RR/RL rotation) keeps the in-order payloads |
| Cells.FixFacts | Packages/tlp.udonavltree/Runtime/AVLTree.cs:935-961 | a cell whose subtrees are balanced and cached and at most one of them changed height by one comes out of the pass balanced, cached, and within one of its previous height |
| Cells.FixLeftHeavy | Packages/tlp.udonavltree/Runtime/AVLTree.cs:938-949 | on a cell two higher on the left, the single (left-left) or double (left-right) rotation yields a balanced, cached tree as high as the left side or one more |
| Cells.FixRightHeavy | Packages/tlp.udonavltree/Runtime/AVLTree.cs:950-961 | the same for the right-right and right-left cases |
| Heights.RotateLL | Packages/tlp.udonavltree/Runtime/AVLTree.cs:938-942 | a right rotation of a cell two higher on the left whose left child does not lean right is balanced |
| Heights.RotateLR | Packages/tlp.udonavltree/Runtime/AVLTree.cs:943-949 | when the left child leans right it leans by exactly one; rotating it left keeps its height and leaves its parts balanced, and then rotating the cell right gives a balanced tree exactly as high as the left side |
| Heights.RotateRR | Packages/tlp.udonavltree/Runtime/AVLTree.cs:950-954 | mirror of RotateLL |
| Heights.RotateRL | Packages/tlp.udonavltree/Runtime/AVLTree.cs:955-961 | mirror of RotateLR |
| Heights.HeightBound | Packages/tlp.udonavltree/Runtime/AVLTreeNode.cs:229-264 | a balanced tree with at most int.MaxValue cells is at most 63 high |
| Heights.GuardNeverFires | Packages/tlp.udonavltree/Runtime/AVLTreeNode.cs:229-264 | in a balanced non-empty tree with at most int.MaxValue cells, the left and right spines that GetFirst and GetLast follow have at most 1001 edges, so their guard never fires |
| Tree.Compare | Packages/tlp.udonavltree/Runtime/AVLTree.cs:434-449 | the comparison fails exactly when a payload is invalid, and otherwise yields -1, 0 or 1 as the first payload is below, equal to or above the second |
| Tree.InvalidStops | Packages/tlp.udonavltree/Runtime/AVLTree.cs:434-441 | a failed comparison with a cell's payload in a sorted tree means the sought valid element is not in that subtree |
| Tree.FindNode | Packages/tlp.udonavltree/Runtime/AVLTree.cs:414-458 | a found cell holds the (valid) sought payload and sits where the returned path says; in a sorted tree a cell is found exactly when the element is valid and present |
| Tree.AVLTree.Contains | Packages/tlp.udonavltree/Runtime/AVLTree.cs:401-411 | yields the element exactly when it is valid and stored, and None otherwise |
| Tree.StepLeft | Packages/tlp.udonavltree/Runtime/AVLTree.cs:123-149 | going left past a cell the new element compares below keeps every payload before the hole at most the element and every payload after it greater |
| Tree.StepRight | Packages/tlp.udonavltree/Runtime/AVLTree.cs:150-176 | going right past a cell the element compares equal to or above keeps the same split, so equal elements go right |
| Tree.SortedInsert | Packages/tlp.udonavltree/Runtime/AVLTree.cs:123-176 | putting the element between the payloads at most it and those greater keeps the order sorted |
| Tree.AVLTree.Attach | Packages/tlp.udonavltree/Runtime/AVLTree.cs:123-185 | hanging a fresh cell in the empty place the descent reached and balancing from it gives a balanced, cached tree whose payloads are those before the place, the new one, then those after |
| Tree.AVLTree.Add | Packages/tlp.udonavltree/Runtime/AVLTree.cs:80-200 | keeps Valid; succeeds exactly when the tree was empty or the element is valid and the tree holds no invalid payload; on success size grows by one and the element is inserted after the payloads at most it and before the greater ones; on failure root and size are unchanged |
| Tree.WalkHeights | Packages/tlp.udonavltree/Runtime/AVLTree.cs:933-961 | one step of the balancing loop up the parent links leaves the visited subtree balanced and cached, and the next cell pending |
| Tree.WalkKeys | Packages/tlp.udonavltree/Runtime/AVLTree.cs:933-961 | one step of the balancing loop keeps the payloads of the whole tree in order |
| Tree.AVLTree.Balance | Packages/tlp.udonavltree/Runtime/AVLTree.cs:931-962 | from a start cell pending rebalancing, walking up to the root gives a balanced tree with right cached values and the same payloads in order |
| Tree.RemoveLeafNode | Packages/tlp.udonavltree/Runtime/AVLTree.cs:461-484 | removing a leaf empties its place; balancing starts at its parent, and there is no start (the tree becomes empty) exactly when the leaf was the root |
| Tree.ReplaceRootWithLeftChild | Packages/tlp.udonavltree/Runtime/AVLTree.cs:689-725 | when the left child has no right subtree, the result is rooted at that child and holds the payloads of both subtrees of the removed cell, in order |
| Tree.ReplaceRootWithRightChild | Packages/tlp.udonavltree/Runtime/AVLTree.cs:728-764 | mirror of ReplaceRootWithLeftChild |
| Tree.LastLeaf | Packages/tlp.udonavltree/Runtime/AVLTree.cs:777-783 | in a balanced subtree the last cell's left child, if any, is a leaf and the last cell leans left by one, so the source's right rotation of it is accepted |
| Tree.FirstLeaf | Packages/tlp.udonavltree/Runtime/AVLTree.cs:832-838 | mirror of LastLeaf |
| Tree.DetachLast | Packages/tlp.udonavltree/Runtime/AVLTree.cs:777-808 | taking the last cell out of a subtree leaves a non-empty start position whose tree holds the subtree's other payloads in order, the taken payload being the last one |
| Tree.DetachFirst | Packages/tlp.udonavltree/Runtime/AVLTree.cs:832-863 | mirror of DetachLast |
| Tree.ReplaceRootWithLeftTreeLeftHeavy | Packages/tlp.udonavltree/Runtime/AVLTree.cs:775-827 | the in-order predecessor deep in the left subtree replaces the removed cell: the new subtree's root holds the last payload of the left subtree and keeps the removed cell's right subtree, and the payloads are those of both subtrees in order |
| Tree.ReplaceRootWithRightTreeRightHeavy | Packages/tlp.udonavltree/Runtime/AVLTree.cs:830-882 | mirror: the new root holds the first payload of the right subtree and keeps the removed cell's left subtree |
| Tree.RemoveRootNodeOfLeftHeavyTree | Packages/tlp.udonavltree/Runtime/AVLTree.cs:885-906 | whenever Remove's choice is allowed (predecessor side when not right-heavy, successor side when right-heavy), the replacing cell is the in-order predecessor (the last payload of the left subtree, keeping the right subtree) or the in-order successor (the first payload of the right subtree, keeping the left subtree), and the new subtree holds the payloads of both subtrees of the removed cell, in order |
| Tree.LeafReady | Packages/tlp.udonavltree/Runtime/AVLTree.cs:224-226 | after removing a leaf below a parent, the balancing walk starts from a pending cell |
| Tree.DetachLastReady | Packages/tlp.udonavltree/Runtime/AVLTree.cs:777-808 | after taking the last cell out, the walk starts from a pending cell along siblings that are balanced and cached, and the path rises to the subtree's former height |
| Tree.DetachFirstReady | Packages/tlp.udonavltree/Runtime/AVLTree.cs:832-863 | mirror of DetachLastReady |
| Tree.DeepLeftReady | Packages/tlp.udonavltree/Runtime/AVLTree.cs:775-827 | after the deep predecessor replaces the removed cell, the balancing walk starts from a pending cell along balanced, cached siblings |
| Tree.DeepRightReady | Packages/tlp.udonavltree/Runtime/AVLTree.cs:830-882 | mirror of DeepLeftReady with the deep successor |
| Tree.RemoveRootReady | Packages/tlp.udonavltree/Runtime/AVLTree.cs:228-239 | in a balanced tree, whichever replacement Remove chooses leaves the balancing walk a pending start cell |
| Tree.RemovedKeys | Packages/tlp.udonavltree/Runtime/AVLTree.cs:220-244 | replacing the removed cell's subtree by one holding the payloads of its two subtrees removes exactly that cell's payload, in place |
| Tree.SortedDelete | Packages/tlp.udonavltree/Runtime/AVLTree.cs:202-249 | removing one payload from a sorted order keeps it sorted |
| Tree.AVLTree.RemoveCell | Packages/tlp.udonavltree/Runtime/AVLTree.cs:220-244 | removing any cell of a balanced, cached tree and rebalancing gives a balanced, cached tree whose payloads are the old ones with exactly that cell's payload taken out of its place |
| Tree.AVLTree.Remove | Packages/tlp.udonavltree/Runtime/AVLTree.cs:202-249 | keeps Valid; succeeds exactly when the element is valid and stored; on success size drops by one and one occurrence is removed in place; otherwise root and size are unchanged |
| Tree.AVLTree.Get | Packages/tlp.udonavltree/Runtime/AVLTree.cs:1073-1098 | an index outside [0, size) gives None; otherwise the element at that rank in order |
| Tree.AVLTree.IsEmpty | Packages/tlp.udonavltree/Runtime/AVLTree.cs:1101-1104 | holds exactly when the tree holds no element |
| TreeNode.BalanceIsHeightDifference | Packages/tlp.udonavltree/Runtime/AVLTreeNode.cs:27-62 | in a linked tree with cached subtrees, the real-child tests agree with the shape, HasChildren holds exactly when a real child exists, and Balance is the left height minus the right height, a wire side counting as 0 |
| TreeNode.AVLTreeNode.UpdateValues | Packages/tlp.udonavltree/Runtime/AVLTreeNode.cs:39-43 | count becomes the real children's counts plus one and height the larger real child's height plus one, wires counting as 0 |
| TreeNode.UpdateImage | Packages/tlp.udonavltree/Runtime/AVLTreeNode.cs:39-43 | after UpdateValues on a cell whose subtrees cache their values, the whole subtree does, and its value image is Cells.Update of the image before the refresh |
| TreeNode.ImageFacts | Packages/tlp.udonavltree/Runtime/AVLTreeNode.cs:39-43 | the value image of a heap tree whose cells cache their size and height is a cached value tree of the same size, height and balance, whose in-order keys are the cells' payloads |
| TreeNode.BalanceImage | Packages/tlp.udonavltree/Runtime/AVLTreeNode.cs:27 | a linked, cached cell's Balance equals Cells.Balance of its value image |
| TreeNode.ImageElements | Packages/tlp.udonavltree/Runtime/AVLTreeNode.cs:267-315 | when a container's root is the image of a heap tree, the cells in order carry the container's elements; in a valid container these are sorted and there are size of them |
| TreeNode.GettersSucceed | Packages/tlp.udonavltree/Runtime/AVLTreeNode.cs:229-264 | in a linked heap tree whose image is a valid non-empty container of at most int.MaxValue elements, the real-child chains GetFirst and GetLast follow are the shape's spines and are at most 1001 edges long |
| TreeNode.AVLTreeNode.GetLast | Packages/tlp.udonavltree/Runtime/AVLTreeNode.cs:229-245 | follows real right children only; null exactly when the right spine has more than 1001 edges, otherwise the last cell of the subtree, which has no real right child |
| TreeNode.AVLTreeNode.GetFirst | Packages/tlp.udonavltree/Runtime/AVLTreeNode.cs:248-264 | mirror of GetLast on the left |
| TreeNode.AVLTreeNode.ConnectRightWire | Packages/tlp.udonavltree/Runtime/AVLTreeNode.cs:211-217 | the last cell of the subtree gets a right wire to the given cell, and nothing else changes |
| TreeNode.AVLTreeNode.ConnectLeftWire | Packages/tlp.udonavltree/Runtime/AVLTreeNode.cs:220-226 | mirror on the first cell's left side |
| TreeNode.EdgeWires | Packages/tlp.udonavltree/Runtime/AVLTreeNode.cs:211-226 | in a linked subtree the first cell's left side and the last cell's right side are wires to the subtree's outer in-order neighbours |
| TreeNode.WalkLinks | Packages/tlp.udonavltree/Runtime/AVLTreeNode.cs:297-311 | in a linked tree a cell's real-child tests agree with the shape, and its right reference is the real right child or else a wire to the in-order successor (null after the last cell) |
| TreeNode.Leftmost | Packages/tlp.udonavltree/Runtime/AVLTreeNode.cs:272-275 | the left descent ends at the first cell of the subtree, which has no real left child |
| TreeNode.FollowWires | Packages/tlp.udonavltree/Runtime/AVLTreeNode.cs:304-311 | each followed wire leads to the next cell in order, whose payload is taken; the run stops at a real right child or at null |
| TreeNode.AVLTreeNode.ToStringWithChildren | Packages/tlp.udonavltree/Runtime/AVLTreeNode.cs:267-315 | the walk from the root of a linked tree yields the payloads of all its cells in order |
| TreeNode.AVLTreeNode.OnPrepareForReturnToPool | Packages/tlp.udonavltree/Runtime/AVLTreeNode.cs:335-345 | clears both references and wire flags, the counters and the payload, and leaves the parent link as it was |
| TreeNode.RotLLinked | Packages/tlp.udonavltree/Runtime/AVLTreeNode.cs:85-186 | the stores of a left rotation (c into a's place, a below c, the crossing subtree or a wire to c on a's right, parents updated) re-establish the threaded link invariant for the rotated shape |
| TreeNode.RotRLinked | Packages/tlp.udonavltree/Runtime/AVLTreeNode.cs:85-186 | mirror for a right rotation |
| TreeNode.AttachNewNode | Packages/tlp.udonavltree/Runtime/AVLTree.cs:123-176 | hanging the new cell on the empty side of the cell the descent stopped at (parent set, the parent's wire taken over, a wire back to the parent, the parent's side made real) turns a linked tree into a linked tree holding the new cell as a leaf there |
| TreeNode.UnlinkLeaf | Packages/tlp.udonavltree/Runtime/AVLTree.cs:461-484 | returns the leaf's parent (null exactly for a lone root); handing the leaf's wire and wire flag to the parent's side that held it leaves a linked tree without the leaf |

## Left out

- Pool and factory plumbing (`Start`, the node pool's `Get`/`Return`, the tree's own pool reset, and `Add`'s early failures when the pool or a pooled node is missing) are engine object lifecycle, not tree logic. A new cell is a fresh value or `new AVLTreeNode()`.
- Unity transform mirroring (`ownTransform.parent`, `SetParent`, `TreeNodes`) only copies the shape into the scene hierarchy.
- Logging, the `Get` frame counters (`m_LastFrame`, `m_GetCallCount`) and the editor-only checks (`Verify*`, `CheckForCyclicParentRelations`, `Display`, `LogList`) have no effect on results. The tree invariants are stated as predicates instead (`Valid`, `LinkedIn`, `CachedIn`).
- String building (`ToString`, `PayloadToString`, the comma-joined text of `ToStringWithChildren`) is left out. `ToStringWithChildren` yields the sequence of payloads it would print.
- The comparer and the example element classes are fixed to integer comparison on `Option<int>` payloads, failing on an invalid payload.
- Integers are unbounded. `count`, `height`, `Size` and the `Get` index are `int` in C#. They cannot overflow for trees below int.MaxValue cells (`Heights.HeightBound`), and the model does not track wrap-around beyond that.
- The heap `Rotate`/`RotateLeft`/`RotateRight` method is not a class method of the model. Its effect on values is `Cells.Rotate`. `TreeNode.RotLLinked`/`RotRLinked` specify the net effect of its reference stores and prove that this effect re-links the tree. The `ConnectLeftWire`/`ConnectRightWire` calls of the rotation appear there only as links left unchanged. In a linked tree those calls rewrite a wire to the value it already holds (`TreeNode.EdgeWires`), but no lemma connects the two. The rotation's redirection of the old parent's child reference is part of `Plug` in the value model.
- Tree.AVLTree.Add: the container method works on values. The splice's reference stores are proved separately (`TreeNode.AttachNewNode`) and are not called from it. On an empty tree the source does not write the new cell's `parent` (AVLTree.cs lines 179-182). `Balance` then climbs whatever parent a reused pooled cell still carries. The model's empty-tree `Add` always starts from a cell without a parent, so it does not capture that walk.
- Tree.AVLTree.Remove: the container method works on values. Only `RemoveLeafNode`'s stores are proved at the level of references (`TreeNode.UnlinkLeaf`). The rewiring of `ReplaceRootWithLeftChild`, `ReplaceRootWithRightChild`, `ReplaceRootWithLeftTreeLeftHeavy`, `ReplaceRootWithRightTreeRightHeavy` and `RemoveRootNodeOfLeftHeavyTree` (AVLTree.cs lines 689-906) is modelled by the shapes those helpers produce. That the links afterwards are the ones the new shape determines is assumed, not proved.
- Records are identified with their keys. A payload is an `int`, so two records that compare equal are the same value. In the source, `FindNode`, `Contains` and `Remove` accept any record that compares equal. `Contains` returns the stored record, not the argument, and `Remove` takes out the first equal record the descent meets. The model cannot tell which of several equal records is returned or removed.
- Tree.AVLTree.Balance: the walk is a loop over the path from the start cell up to the root (the source follows parent links). `RootNode` is the walk's final cell, which is what the method returns.
- `RemoveNodeWithValidLeftChild`, `RemoveNodeWithValidRightChild`, `RemoveNodeWithValidChildren` and `RemoveRootNodeOfRightHeavyTree` (AVLTree.cs lines 487-680) are not modelled, because `Remove` never calls them.
- The pool reset `OnPrepareForReturnToPool` leaves `parent` stale. `Add` overwrites it only when it splices the cell below an existing one (AVLTree.cs lines 129 and 156). On an empty tree the reused cell keeps its old parent, and the balancing walk climbs to it. The model allocates fresh cells, so this reuse is not modelled.
- `GetFirst`/`GetLast` inside the removal helpers and rotations are modelled as the first/last cell of the subtree. Their 1000-step guard cannot fire on a balanced tree of at most int.MaxValue cells (`Heights.GuardNeverFires`, `TreeNode.GettersSucceed`).
