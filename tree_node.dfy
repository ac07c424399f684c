/** AVLTreeNode: one cell of the threaded AVL tree.  Each side holds a reference and a
    wire flag; when the flag is set (or the reference is null) the side has no real
    child and the reference, if any, is a wire to the in-order neighbour.  The cell
    also caches the size (count) and height of the subtree below it. */
module TreeNode {
  import opened Wrappers
  import opened Shapes
  import opened Heights
  import Cells
  import Tree

  class AVLTreeNode {
    var parent: AVLTreeNode?
    /** The stored element; None stands for a missing or invalid payload object. */
    var payload: Option<int>
    var left: AVLTreeNode?
    var right: AVLTreeNode?
    var leftIsWire: bool
    var rightIsWire: bool
    var count: int
    var height: int

    /** A cell as the pool hands it out: no links, no payload, zero counters. */
    constructor ()
      ensures parent == null && payload == None && left == null && right == null
      ensures !leftIsWire && !rightIsWire && count == 0 && height == 0
    {
      parent := null;
      payload := None;
      left := null;
      right := null;
      leftIsWire := false;
      rightIsWire := false;
      count := 0;
      height := 0;
    }

    predicate IsLeftValidNode()
      reads this`left, this`leftIsWire
    {
      !leftIsWire && left != null
    }

    predicate IsRightValidNode()
      reads this`right, this`rightIsWire
    {
      !rightIsWire && right != null
    }

    predicate HasChildren()
      reads this`left, this`leftIsWire, this`right, this`rightIsWire
    {
      IsLeftValidNode() || IsRightValidNode()
    }

    /** Left height minus right height, a side without a real child counting as 0. */
    function Balance(): int
      reads this, left, right
    {
      (if IsLeftValidNode() then left.height else 0) - (if IsRightValidNode() then right.height else 0)
    }

    method UpdateValues()
      modifies this`count, this`height
      ensures count == (if IsLeftValidNode() then old(left.count) else 0) + (if IsRightValidNode() then old(right.count) else 0) + 1
      ensures height == Max(if IsLeftValidNode() then old(left.height) else 0, if IsRightValidNode() then old(right.height) else 0) + 1
    {
      count := (if IsLeftValidNode() then left.count else 0) + (if IsRightValidNode() then right.count else 0) + 1;
      height := Max(if IsLeftValidNode() then left.height else 0, if IsRightValidNode() then right.height else 0) + 1;
    }

    /** Walks real right children from d; gives up with null once more than 1000 steps
        have been taken, which happens exactly when the right spine of d's subtree has
        more than 1001 edges. */
    method GetLast(d: AVLTreeNode, ghost s: Shape<AVLTreeNode>) returns (r: AVLTreeNode?)
      requires s.Br? && s.n == d && RightSpineLinked(s)
      ensures r == null <==> RightSpine(s) > 1001
      ensures r != null ==> r == Last(s) && !r.IsRightValidNode()
    {
      var dLeft := d;
      var cnt := 0;
      ghost var cur := s;
      while dLeft.IsRightValidNode()
        invariant cur.Br? && cur.n == dLeft && RightSpineLinked(cur)
        invariant Last(cur) == Last(s) && RightSpine(s) == RightSpine(cur) + cnt && 0 <= cnt <= 1001
        decreases RightSpine(cur)
      {
        if cnt > 1000 {
          return null;
        }
        cnt := cnt + 1;
        dLeft := dLeft.right;
        cur := cur.r;
      }
      return dLeft;
    }

    method GetFirst(d: AVLTreeNode, ghost s: Shape<AVLTreeNode>) returns (r: AVLTreeNode?)
      requires s.Br? && s.n == d && LeftSpineLinked(s)
      ensures r == null <==> LeftSpine(s) > 1001
      ensures r != null ==> r == First(s) && !r.IsLeftValidNode()
    {
      var dLeft := d;
      var cnt := 0;
      ghost var cur := s;
      while dLeft.IsLeftValidNode()
        invariant cur.Br? && cur.n == dLeft && LeftSpineLinked(cur)
        invariant First(cur) == First(s) && LeftSpine(s) == LeftSpine(cur) + cnt && 0 <= cnt <= 1001
        decreases LeftSpine(cur)
      {
        if cnt > 1000 {
          return null;
        }
        cnt := cnt + 1;
        dLeft := dLeft.left;
        cur := cur.l;
      }
      return dLeft;
    }

    /** Makes the right side of the last cell of firstNode's subtree a wire to
        nextNodeInParents. */
    method ConnectRightWire(firstNode: AVLTreeNode, nextNodeInParents: AVLTreeNode, ghost s: Shape<AVLTreeNode>)
      requires s.Br? && s.n == firstNode && RightSpineLinked(s) && RightSpine(s) <= 1001
      modifies Last(s)`right, Last(s)`rightIsWire
      ensures Last(s).right == nextNodeInParents && Last(s).rightIsWire
    {
      var bRight := GetLast(firstNode, s);
      bRight.right := nextNodeInParents;
      bRight.rightIsWire := true;
    }

    method ConnectLeftWire(firstNode: AVLTreeNode, nextNodeInParents: AVLTreeNode, ghost s: Shape<AVLTreeNode>)
      requires s.Br? && s.n == firstNode && LeftSpineLinked(s) && LeftSpine(s) <= 1001
      modifies First(s)`left, First(s)`leftIsWire
      ensures First(s).left == nextNodeInParents && First(s).leftIsWire
    {
      var bLeft := GetFirst(firstNode, s);
      bLeft.left := nextNodeInParents;
      bLeft.leftIsWire := true;
    }

    /** The in-order walk behind ToStringWithChildren, started at the root of a whole
        linked tree s: go down real left children to the first cell, then repeatedly
        take the cell, follow right wires while they lead somewhere, and after a real
        right child go down its left children again, until the right reference is null.
        Yields the payloads of all cells of s in in-order. */
    method ToStringWithChildren(ghost s: Shape<AVLTreeNode>) returns (result: seq<Option<int>>)
      requires s.Br? && s.n == this && Distinct(s) && LinkedIn(s, None, None, None)
      ensures result == Payloads(Inorder(s))
    {
      ghost var ctx: seq<Frame<AVLTreeNode>>, sub;
      var start;
      start, ctx, sub := Leftmost(this, s, [], s);
      PlugInorder(ctx, sub);
      result := [];
      var current := start;
      ghost var rest := Inorder(sub) + CtxPost(ctx);
      ghost var visited: seq<AVLTreeNode> := [];
      assert rest == Inorder(s);
      while true
        invariant Plug(ctx, sub) == s && sub.Br? && current == sub.n
        invariant rest == Inorder(sub) + CtxPost(ctx)
        invariant visited + rest == Inorder(s)
        invariant |result| == |visited| && forall i :: 0 <= i < |visited| ==> result[i] == visited[i].payload
        invariant LinkedIn(s, None, None, None)
        decreases |Inorder(s)| - |visited|
      {
        current, ctx, sub := Leftmost(current, s, ctx, sub);
        assert sub.l.Nil? && visited + rest == (visited + [current]) + (Inorder(sub.r) + CtxPost(ctx)) by {
          WalkLinks(ctx, sub, s);
          RootFirst(ctx, sub);
          Regroup(visited, current, Inorder(sub.r), CtxPost(ctx));
        }
        ghost var before := result;
        visited := visited + [current];
        result := result + [current.payload];
        assert forall i :: 0 <= i < |visited| - 1 ==> result[i] == before[i];
        var previous;
        previous, current, result, ctx, sub, visited := FollowWires(s, current, result, ctx, sub, visited);
        rest := Inorder(sub.r) + CtxPost(ctx);
        if current == null {
          assert rest == [] by {
            WalkLinks(ctx, sub, s);
            SuccOfPost(ctx, None);
          }
          assert visited == Inorder(s);
          PayloadsOf(result, visited);
          break;
        }
        assert sub.r.Br? && current == sub.r.n && rest == Inorder(sub.r) + CtxPost([Frame(false, sub.n, sub.l)] + ctx) by {
          WalkLinks(ctx, sub, s);
          PostRight(ctx, sub);
        }
        ctx := [Frame(false, sub.n, sub.l)] + ctx;
        sub := sub.r;
      }
    }

    /** Reset performed when the cell goes back to the pool.  The parent link is left as
        it was. */
    method OnPrepareForReturnToPool()
      modifies this
      ensures left == null && right == null && !leftIsWire && !rightIsWire
      ensures count == 0 && height == 0 && payload == None && parent == old(parent)
    {
      left := null;
      right := null;
      leftIsWire := false;
      rightIsWire := false;
      count := 0;
      height := 0;
      payload := None;
    }
  }

  function Ref(o: Option<AVLTreeNode>): AVLTreeNode? {
    if o.Some? then o.value else null
  }

  /** A subtree together with the parent it hangs below and its in-order neighbours:
      the arguments of LinkedIn, bundled for the two-state lemmas. */
  datatype Placed = Placed(s: Shape<AVLTreeNode>, par: Option<AVLTreeNode>,
                           pred: Option<AVLTreeNode>, succ: Option<AVLTreeNode>)

  // ---------------------------------------------------------------------------
  // The two inner loops of ToStringWithChildren

  /** The run along right wires that ToStringWithChildren makes after taking a cell:
      from the cell previous0 at the hole of ctx0, each wire leads to the next cell in
      in-order, which is taken in turn; it stops at a real right child or at null. */
  method FollowWires(ghost s: Shape<AVLTreeNode>, previous0: AVLTreeNode, result0: seq<Option<int>>,
                     ghost ctx0: seq<Frame<AVLTreeNode>>, ghost sub0: Shape<AVLTreeNode>,
                     ghost visited0: seq<AVLTreeNode>)
    returns (previous: AVLTreeNode, current: AVLTreeNode?, result: seq<Option<int>>,
             ghost ctx: seq<Frame<AVLTreeNode>>, ghost sub: Shape<AVLTreeNode>, ghost visited: seq<AVLTreeNode>)
    requires Distinct(s) && LinkedIn(s, None, None, None)
    requires Plug(ctx0, sub0) == s && sub0.Br? && previous0 == sub0.n
    requires visited0 + (Inorder(sub0.r) + CtxPost(ctx0)) == Inorder(s)
    requires |result0| == |visited0| && forall i :: 0 <= i < |visited0| ==> result0[i] == visited0[i].payload
    ensures LinkedIn(s, None, None, None)
    ensures Plug(ctx, sub) == s && sub.Br? && previous == sub.n && current == previous.right
    ensures !previous.rightIsWire || current == null
    ensures visited + (Inorder(sub.r) + CtxPost(ctx)) == Inorder(s) && |visited| >= |visited0|
    ensures |result| == |visited| && forall i :: 0 <= i < |visited| ==> result[i] == visited[i].payload
  {
    previous, result, ctx, sub, visited := previous0, result0, ctx0, sub0, visited0;
    ghost var rest := Inorder(sub.r) + CtxPost(ctx);
    current := previous.right;
    while previous.rightIsWire && current != null
      invariant Plug(ctx, sub) == s && sub.Br? && previous == sub.n && current == previous.right
      invariant rest == Inorder(sub.r) + CtxPost(ctx)
      invariant visited + rest == Inorder(s) && |visited| >= |visited0|
      invariant |result| == |visited| && forall i :: 0 <= i < |visited| ==> result[i] == visited[i].payload
      decreases |rest|
    {
      assert rest == CtxPost(ctx) && rest != [] && current == rest[0] by {
        WalkLinks(ctx, sub, s);
        SuccOfPost(ctx, None);
      }
      ghost var next := SuccAt(ctx, sub);
      ghost var rest' := Inorder(next.1.r) + CtxPost(next.0);
      assert visited + rest == (visited + [current]) + rest' by {
        Regroup(visited, current, Inorder(next.1.r), CtxPost(next.0));
      }
      ctx, sub := next.0, next.1;
      ghost var before := result;
      visited := visited + [current];
      result := result + [current.payload];
      assert forall i :: 0 <= i < |visited| - 1 ==> result[i] == before[i];
      rest := rest';
      previous := current;
      current := current.right;
    }
  }

  /** The descent along left children that ToStringWithChildren starts each round with:
      from the cell node at the hole of ctx0 down to the first cell of its subtree. */
  method Leftmost(node: AVLTreeNode, ghost s: Shape<AVLTreeNode>,
                  ghost ctx0: seq<Frame<AVLTreeNode>>, ghost sub0: Shape<AVLTreeNode>)
    returns (first: AVLTreeNode, ghost ctx: seq<Frame<AVLTreeNode>>, ghost sub: Shape<AVLTreeNode>)
    requires Distinct(s) && LinkedIn(s, None, None, None)
    requires Plug(ctx0, sub0) == s && sub0.Br? && node == sub0.n
    ensures LinkedIn(s, None, None, None)
    ensures Plug(ctx, sub) == s && sub.Br? && sub.l.Nil? && first == sub.n
    ensures first == First(sub0)
    ensures CtxPre(ctx) == CtxPre(ctx0)
    ensures Inorder(sub) + CtxPost(ctx) == Inorder(sub0) + CtxPost(ctx0)
  {
    ctx, sub, first := ctx0, sub0, node;
    while first.IsLeftValidNode()
      invariant Plug(ctx, sub) == s && sub.Br? && first == sub.n
      invariant CtxPre(ctx) == CtxPre(ctx0)
      invariant Inorder(sub) + CtxPost(ctx) == Inorder(sub0) + CtxPost(ctx0)
      invariant First(sub) == First(sub0)
      decreases Size(sub)
    {
      assert sub.l.Br? && first.left == sub.l.n by {
        WalkLinks(ctx, sub, s);
      }
      assert Inorder(sub) + CtxPost(ctx) == Inorder(sub.l) + CtxPost([Frame(true, sub.n, sub.r)] + ctx) &&
             CtxPre([Frame(true, sub.n, sub.r)] + ctx) == CtxPre(ctx) by {
        PostLeft(ctx, sub);
        assert ([Frame(true, sub.n, sub.r)] + ctx)[1..] == ctx;
      }
      ctx := [Frame(true, sub.n, sub.r)] + ctx;
      sub := sub.l;
      first := first.left;
    }
    assert sub.l.Nil? by {
      WalkLinks(ctx, sub, s);
    }
  }

  // ---------------------------------------------------------------------------
  // Hanging a new cell in and taking a leaf out (the reference stores of AVLTree.Add
  // and AVLTree.RemoveLeafNode)

  /** The splice with which AVLTree.Add hangs newNode below current once the descent
      finds no real child on the chosen side (goLeft): newNode takes over current's wire
      on that side, wires back to current on the other, and becomes current's real child.
      The tree stays linked, now with newNode in the empty place. */
  method AttachNewNode(newNode: AVLTreeNode, current: AVLTreeNode, goLeft: bool, ghost ctx: seq<Frame<AVLTreeNode>>)
    requires ctx != [] && ctx[0].n == current && ctx[0].isLeft == goLeft
    requires Distinct(Plug(ctx, Br(Nil, newNode, Nil))) && LinkedIn(Plug(ctx, Nil), None, None, None)
    modifies newNode`parent, newNode`left, newNode`leftIsWire, newNode`right, newNode`rightIsWire
    modifies current`left, current`leftIsWire, current`right, current`rightIsWire
    ensures LinkedIn(Plug(ctx, Br(Nil, newNode, Nil)), None, None, None)
  {
    ghost var before, after := Plug(ctx, Nil), Plug(ctx, Br(Nil, newNode, Nil));
    LeafLinks(ctx, newNode);
    ghost var ec, en := Exp(after, None, None, None, current), Exp(after, None, None, None, newNode);
    assert Conform(current, Exp(before, None, None, None, current));
    newNode.parent := current;
    if goLeft {
      newNode.left := current.left;
      newNode.leftIsWire := current.leftIsWire;
      newNode.right := current;
      newNode.rightIsWire := true;
      current.left := newNode;
      current.leftIsWire := false;
      assert Conform(current, ec) && Conform(newNode, en);
    } else {
      newNode.right := current.right;
      newNode.rightIsWire := current.rightIsWire;
      newNode.left := current;
      newNode.leftIsWire := true;
      current.right := newNode;
      current.rightIsWire := false;
      assert Conform(current, ec) && Conform(newNode, en);
    }
    forall x | x in Nodes(after) ensures Conform(x, Exp(after, None, None, None, x)) {
      if x != newNode && x != current {
        LeafExp(ctx, newNode, x);
        AllocNodes(before);
        assert old(Conform(x, Exp(before, None, None, None, x)));
      }
    }
  }

  /** The cell above the hole of ctx, if any. */
  ghost function Above(ctx: seq<Frame<AVLTreeNode>>): set<AVLTreeNode> {
    if ctx == [] then {} else {ctx[0].n}
  }

  /** The reference stores of AVLTree.RemoveLeafNode: the parent of the leaf (the cell
      balancing starts from) takes over the leaf's wire on the side the leaf hung, and
      the tree stays linked with that place empty.  Without a parent the leaf was the
      whole tree, and null is returned. */
  method UnlinkLeaf(nodeToDelete: AVLTreeNode, ghost ctx: seq<Frame<AVLTreeNode>>) returns (successor: AVLTreeNode?)
    requires Distinct(Plug(ctx, Br(Nil, nodeToDelete, Nil)))
    requires LinkedIn(Plug(ctx, Br(Nil, nodeToDelete, Nil)), None, None, None)
    modifies Above(ctx)`left, Above(ctx)`leftIsWire, Above(ctx)`right, Above(ctx)`rightIsWire
    ensures successor == if ctx == [] then null else ctx[0].n
    ensures ctx != [] ==> LinkedIn(Plug(ctx, Nil), None, None, None)
  {
    ghost var before, after := Plug(ctx, Br(Nil, nodeToDelete, Nil)), Plug(ctx, Nil);
    PlugNodes(ctx, Br(Nil, nodeToDelete, Nil));
    PlugNodes(ctx, Nil);
    AllocNodes(before);
    if ctx == [] {
      assert Conform(nodeToDelete, Exp(before, None, None, None, nodeToDelete));
    } else {
      LeafLinks(ctx, nodeToDelete);
      assert Conform(nodeToDelete, Exp(before, None, None, None, nodeToDelete));
      assert Conform(ctx[0].n, Exp(before, None, None, None, ctx[0].n));
    }
    successor := nodeToDelete.parent;
    if successor != null {
      if successor.left == nodeToDelete {
        successor.left := nodeToDelete.left;
        successor.leftIsWire := nodeToDelete.leftIsWire;
      } else {
        successor.right := nodeToDelete.right;
        successor.rightIsWire := nodeToDelete.rightIsWire;
      }
      forall x | x in Nodes(after) ensures Conform(x, Exp(after, None, None, None, x)) {
        if x != successor {
          LeafExp(ctx, nodeToDelete, x);
          assert old(Conform(x, Exp(before, None, None, None, x)));
        }
      }
    }
  }

  // ---------------------------------------------------------------------------
  // Link and cache invariants

  /** Cell x holds the links e: parent, the left and right references, and a real child
      on exactly the sides where e has one. */
  ghost predicate Conform(x: AVLTreeNode, e: Expect<AVLTreeNode>)
    reads x`parent, x`left, x`leftIsWire, x`right, x`rightIsWire
  {
    x.parent == Ref(e.parent) &&
    x.left == Ref(e.left) && x.IsLeftValidNode() == e.leftReal &&
    x.right == Ref(e.right) && x.IsRightValidNode() == e.rightReal
  }

  /** Cell n has real children exactly where l and r are non-empty, and they are the
      roots of l and r. */
  ghost predicate HoldsChildren(n: AVLTreeNode, l: Shape<AVLTreeNode>, r: Shape<AVLTreeNode>)
    reads n`left, n`leftIsWire, n`right, n`rightIsWire
  {
    n.IsLeftValidNode() == l.Br? && (l.Br? ==> n.left == l.n) &&
    n.IsRightValidNode() == r.Br? && (r.Br? ==> n.right == r.n)
  }

  /** Every cell of s holds the links of a threaded tree hanging below par, between the
      in-order neighbours pred and succ. */
  ghost predicate LinkedIn(s: Shape<AVLTreeNode>, par: Option<AVLTreeNode>,
                           pred: Option<AVLTreeNode>, succ: Option<AVLTreeNode>)
    reads Nodes(s)`parent, Nodes(s)`left, Nodes(s)`leftIsWire, Nodes(s)`right, Nodes(s)`rightIsWire
  {
    forall x :: x in Nodes(s) ==> Conform(x, Exp(s, par, pred, succ, x))
  }

  /** Every cell of s caches the size and the height of its subtree. */
  ghost predicate CachedIn(s: Shape<AVLTreeNode>)
    reads Nodes(s)`count, Nodes(s)`height
  {
    match s
    case Nil => true
    case Br(l, n, r) => CachedIn(l) && CachedIn(r) && n.count == Size(s) && n.height == H(s)
  }

  /** The real right children from the root of s are where s has them. */
  ghost predicate RightSpineLinked(s: Shape<AVLTreeNode>)
    reads Nodes(s)`right, Nodes(s)`rightIsWire
  {
    s.Br? ==> s.n.IsRightValidNode() == s.r.Br? && (s.r.Br? ==> s.n.right == s.r.n && RightSpineLinked(s.r))
  }

  ghost predicate LeftSpineLinked(s: Shape<AVLTreeNode>)
    reads Nodes(s)`left, Nodes(s)`leftIsWire
  {
    s.Br? ==> s.n.IsLeftValidNode() == s.l.Br? && (s.l.Br? ==> s.n.left == s.l.n && LeftSpineLinked(s.l))
  }

  /** The payloads of a sequence of cells. */
  ghost function Payloads(ns: seq<AVLTreeNode>): seq<Option<int>>
    reads (set x | x in ns)`payload
  {
    if ns == [] then [] else [ns[0].payload] + Payloads(ns[1..])
  }

  // ---------------------------------------------------------------------------
  // Facts about linked trees

  lemma Regroup(visited: seq<AVLTreeNode>, x: AVLTreeNode, a: seq<AVLTreeNode>, b: seq<AVLTreeNode>)
    ensures visited + ([x] + a + b) == (visited + [x]) + (a + b)
  {
  }

  /** A sequence that holds the payloads of ns one by one is Payloads(ns). */
  lemma {:induction false} PayloadsOf(result: seq<Option<int>>, ns: seq<AVLTreeNode>)
    requires |result| == |ns| && forall i :: 0 <= i < |ns| ==> result[i] == ns[i].payload
    ensures result == Payloads(ns)
    decreases |ns|
  {
    if ns != [] {
      PayloadsOf(result[1..], ns[1..]);
    }
  }

  /** The two subtrees of a linked tree are linked below its root. */
  lemma LinkedChildren(s: Shape<AVLTreeNode>, par: Option<AVLTreeNode>, pred: Option<AVLTreeNode>, succ: Option<AVLTreeNode>)
    requires s.Br? && Distinct(s) && LinkedIn(s, par, pred, succ)
    ensures LinkedIn(s.l, Some(s.n), pred, Some(s.n)) && LinkedIn(s.r, Some(s.n), Some(s.n), succ)
    ensures Conform(s.n, Exp(s, par, pred, succ, s.n))
    ensures s.n.parent == Ref(par) && HoldsChildren(s.n, s.l, s.r)
  {
    forall x | x in Nodes(s.l) ensures Conform(x, Exp(s.l, Some(s.n), pred, Some(s.n), x)) {
      assert x in Nodes(s);
    }
    forall x | x in Nodes(s.r) ensures Conform(x, Exp(s.r, Some(s.n), Some(s.n), succ, x)) {
      assert x in Nodes(s);
    }
  }

  lemma {:induction false} LinkedSpines(s: Shape<AVLTreeNode>, par: Option<AVLTreeNode>, pred: Option<AVLTreeNode>, succ: Option<AVLTreeNode>)
    requires Distinct(s) && LinkedIn(s, par, pred, succ)
    ensures LeftSpineLinked(s) && RightSpineLinked(s)
    decreases s
  {
    if s.Br? {
      LinkedChildren(s, par, pred, succ);
      LinkedSpines(s.l, Some(s.n), pred, Some(s.n));
      LinkedSpines(s.r, Some(s.n), Some(s.n), succ);
    }
  }

  /** The links of the root of a subtree sitting in the hole of ctx, in a whole linked
      tree s: real children where the subtree has them, otherwise a wire to the
      in-order neighbour just outside the subtree (null at the ends of s). */
  lemma WalkLinks(ctx: seq<Frame<AVLTreeNode>>, sub: Shape<AVLTreeNode>, s: Shape<AVLTreeNode>)
    requires sub.Br? && Plug(ctx, sub) == s && Distinct(s) && LinkedIn(s, None, None, None)
    ensures sub.n.IsLeftValidNode() == sub.l.Br? && (sub.l.Br? ==> sub.n.left == sub.l.n)
    ensures sub.n.IsRightValidNode() == sub.r.Br?
    ensures sub.n.right == if sub.r.Br? then sub.r.n else Ref(SuccOf(ctx, None))
  {
    ExpInPlug(ctx, sub, None, None, None, sub.n);
    assert Conform(sub.n, Exp(s, None, None, None, sub.n));
  }

  /** In a linked tree whose subtrees cache their heights, the real-child tests of the
      root tell whether it has children, and its Balance is the height difference of
      its subtrees. */
  lemma BalanceIsHeightDifference(s: Shape<AVLTreeNode>, par: Option<AVLTreeNode>, pred: Option<AVLTreeNode>, succ: Option<AVLTreeNode>)
    requires s.Br? && Distinct(s) && LinkedIn(s, par, pred, succ) && CachedIn(s.l) && CachedIn(s.r)
    ensures s.n.IsLeftValidNode() <==> s.l.Br?
    ensures s.n.IsRightValidNode() <==> s.r.Br?
    ensures s.n.HasChildren() <==> s.l.Br? || s.r.Br?
    ensures s.n.Balance() == H(s.l) - H(s.r)
  {
    LinkedChildren(s, par, pred, succ);
  }

  /** In a linked tree the first cell's left side is a wire to the predecessor bound and
      the last cell's right side a wire to the successor bound. */
  lemma EdgeWires(s: Shape<AVLTreeNode>, par: Option<AVLTreeNode>, pred: Option<AVLTreeNode>, succ: Option<AVLTreeNode>)
    requires s.Br? && Distinct(s) && LinkedIn(s, par, pred, succ)
    ensures First(s).left == Ref(pred) && !First(s).IsLeftValidNode()
    ensures Last(s).right == Ref(succ) && !Last(s).IsRightValidNode()
  {
    FirstLastIn(s);
    ExpFirstLast(s, par, pred, succ);
  }

  /** A left rotation re-links the tree as RotL(s) when a now sits below c with the
      crossing subtree (or a wire to c) on its right, c sits in a's old place, the root of
      the crossing subtree has a as parent, and every other cell keeps its links. */
  twostate lemma RotLLinked(h: Placed)
    requires h.s.Br? && h.s.r.Br? && Distinct(h.s) && old(LinkedIn(h.s, h.par, h.pred, h.succ))
    requires forall x :: x in Nodes(h.s) && x != h.s.n && x != h.s.r.n && old(allocated(x)) ==>
               x.left == old(x.left) && x.right == old(x.right) &&
               x.IsLeftValidNode() == old(x.IsLeftValidNode()) && x.IsRightValidNode() == old(x.IsRightValidNode()) &&
               x.parent == (if h.s.r.l.Br? && x == h.s.r.l.n then h.s.n else old(x.parent))
    requires h.s.n.parent == h.s.r.n && h.s.n.left == old(h.s.n.left) && h.s.n.IsLeftValidNode() == old(h.s.n.IsLeftValidNode())
    requires h.s.n.right == (if h.s.r.l.Br? then h.s.r.l.n else h.s.r.n) && h.s.n.IsRightValidNode() == h.s.r.l.Br?
    requires h.s.r.n.parent == Ref(h.par) && h.s.r.n.left == h.s.n && h.s.r.n.IsLeftValidNode()
    requires h.s.r.n.right == old(h.s.r.n.right) && h.s.r.n.IsRightValidNode() == old(h.s.r.n.IsRightValidNode())
    ensures LinkedIn(RotL(h.s), h.par, h.pred, h.succ)
  {
    var Placed(s, par, pred, succ) := h;
    AllocNodes(s);
    RotLFacts(s);
    var Br(A, a, Br(B, c, D)) := s;
    forall x | x in Nodes(RotL(s)) ensures Conform(x, Exp(RotL(s), par, pred, succ, x)) {
      assert old(Conform(x, Exp(s, par, pred, succ, x)));
      if x == a {
        assert Exp(RotL(s), par, pred, succ, x) == Exp(Br(A, a, B), Some(c), pred, Some(c), x);
      } else if x == c {
        assert Exp(s, par, pred, succ, x) == Exp(s.r, Some(a), Some(a), succ, x);
      } else {
        ExpRotL(s, par, pred, succ, x);
      }
    }
  }

  twostate lemma RotRLinked(h: Placed)
    requires h.s.Br? && h.s.l.Br? && Distinct(h.s) && old(LinkedIn(h.s, h.par, h.pred, h.succ))
    requires forall x :: x in Nodes(h.s) && x != h.s.n && x != h.s.l.n && old(allocated(x)) ==>
               x.left == old(x.left) && x.right == old(x.right) &&
               x.IsLeftValidNode() == old(x.IsLeftValidNode()) && x.IsRightValidNode() == old(x.IsRightValidNode()) &&
               x.parent == (if h.s.l.r.Br? && x == h.s.l.r.n then h.s.n else old(x.parent))
    requires h.s.n.parent == h.s.l.n && h.s.n.right == old(h.s.n.right) && h.s.n.IsRightValidNode() == old(h.s.n.IsRightValidNode())
    requires h.s.n.left == (if h.s.l.r.Br? then h.s.l.r.n else h.s.l.n) && h.s.n.IsLeftValidNode() == h.s.l.r.Br?
    requires h.s.l.n.parent == Ref(h.par) && h.s.l.n.right == h.s.n && h.s.l.n.IsRightValidNode()
    requires h.s.l.n.left == old(h.s.l.n.left) && h.s.l.n.IsLeftValidNode() == old(h.s.l.n.IsLeftValidNode())
    ensures LinkedIn(RotR(h.s), h.par, h.pred, h.succ)
  {
    var Placed(s, par, pred, succ) := h;
    AllocNodes(s);
    RotRFacts(s);
    var Br(Br(D, c, B), a, A) := s;
    forall x | x in Nodes(RotR(s)) ensures Conform(x, Exp(RotR(s), par, pred, succ, x)) {
      assert old(Conform(x, Exp(s, par, pred, succ, x)));
      if x == a {
        assert Exp(RotR(s), par, pred, succ, x) == Exp(Br(B, a, A), Some(c), Some(c), succ, x);
      } else if x == c {
        assert Exp(s, par, pred, succ, x) == Exp(s.l, Some(a), pred, Some(a), x);
      } else {
        ExpRotR(s, par, pred, succ, x);
      }
    }
  }

  // ---------------------------------------------------------------------------
  // The value image: the cells' payloads and cached counters in the shape of their
  // real children, which is what the tree operations (module Tree) work on

  ghost function Image(s: Shape<AVLTreeNode>): Cells.Tree
    requires CachedIn(s)
    reads Nodes(s)`payload, Nodes(s)`count, Nodes(s)`height
  {
    match s
    case Nil => Nil
    case Br(l, n, r) => Br(Image(l), Cells.Cell(n.payload, n.count, n.height), Image(r))
  }

  lemma {:induction false} PayloadsConcat(a: seq<AVLTreeNode>, b: seq<AVLTreeNode>)
    ensures Payloads(a + b) == Payloads(a) + Payloads(b)
    decreases |a|
  {
    if a != [] {
      calc {
        Payloads(a + b);
        [(a + b)[0].payload] + Payloads((a + b)[1..]);
        { assert (a + b)[0] == a[0] && (a + b)[1..] == a[1..] + b; }
        [a[0].payload] + Payloads(a[1..] + b);
        { PayloadsConcat(a[1..], b); }
        [a[0].payload] + Payloads(a[1..]) + Payloads(b);
      }
    } else {
      assert a + b == b;
    }
  }

  /** The image has the shape of the heap tree: the same size, height and balance. */
  lemma {:induction false} ImageShape(s: Shape<AVLTreeNode>)
    requires CachedIn(s)
    ensures Size(Image(s)) == Size(s) && H(Image(s)) == H(s) && AVL(Image(s)) == AVL(s)
    decreases s
  {
    if s.Br? {
      ImageShape(s.l);
      ImageShape(s.r);
    }
  }

  lemma {:induction false} ImageCached(s: Shape<AVLTreeNode>)
    requires CachedIn(s)
    ensures Cells.Cached(Image(s))
    decreases s
  {
    if s.Br? {
      ImageCached(s.l);
      ImageCached(s.r);
      ImageShape(s.l);
      ImageShape(s.r);
    }
  }

  lemma {:induction false} ImageKeys(s: Shape<AVLTreeNode>)
    requires CachedIn(s)
    ensures Cells.Keys(Image(s)) == Payloads(Inorder(s))
    decreases s
  {
    if s.Br? {
      var Br(l, n, r) := s;
      ImageKeys(l);
      ImageKeys(r);
      PayloadsConcat(Inorder(l), [n]);
      PayloadsConcat(Inorder(l) + [n], Inorder(r));
      assert Payloads([n]) == [n.payload];
      assert Cells.Keys(Image(s)) == Cells.Keys(Image(l)) + [n.payload] + Cells.Keys(Image(r));
    }
  }

  /** A cached heap tree's image is a cached value tree of the same shape whose in-order
      keys are the cells' payloads. */
  lemma ImageFacts(s: Shape<AVLTreeNode>)
    requires CachedIn(s)
    ensures Cells.Cached(Image(s)) && Cells.Keys(Image(s)) == Payloads(Inorder(s))
    ensures Size(Image(s)) == Size(s) && H(Image(s)) == H(s) && AVL(Image(s)) == AVL(s)
  {
    ImageShape(s);
    ImageCached(s);
    ImageKeys(s);
  }

  /** UpdateValues on a cell holding its children, whose subtrees are cached, makes the
      whole subtree cached, and its image is Cells.Update of the image with the stale
      counters. */
  lemma UpdateImage(s: Shape<AVLTreeNode>, stale: Cells.Cell)
    requires s.Br? && HoldsChildren(s.n, s.l, s.r) && CachedIn(s.l) && CachedIn(s.r)
    requires s.n !in Nodes(s.l) && s.n !in Nodes(s.r)
    requires s.n.count == (if s.n.IsLeftValidNode() then s.n.left.count else 0) + (if s.n.IsRightValidNode() then s.n.right.count else 0) + 1
    requires s.n.height == Max(if s.n.IsLeftValidNode() then s.n.left.height else 0, if s.n.IsRightValidNode() then s.n.right.height else 0) + 1
    requires stale.payload == s.n.payload
    ensures CachedIn(s) && Image(s) == Cells.Update(Br(Image(s.l), stale, Image(s.r)))
  {
    var Br(l, n, r) := s;
    var il, ir := Image(l), Image(r);
    assert Cells.Cnt(il) == Size(l) && Cells.Ht(il) == H(l);
    assert Cells.Cnt(ir) == Size(r) && Cells.Ht(ir) == H(r);
    assert n.count == Cells.Cnt(il) + Cells.Cnt(ir) + 1;
    assert n.height == Max(Cells.Ht(il), Cells.Ht(ir)) + 1;
    assert CachedIn(s);
    var c := Cells.Cell(n.payload, n.count, n.height);
    assert Image(s) == Br(il, c, ir);
    var u := Cells.Update(Br(il, stale, ir));
    assert u.n == Cells.Cell(stale.payload, Cells.Cnt(il) + Cells.Cnt(ir) + 1, Max(Cells.Ht(il), Cells.Ht(ir)) + 1);
    assert u.n == c;
  }

  /** AVLTreeNode.Balance of a linked, cached cell is Cells.Balance of its image. */
  lemma BalanceImage(s: Shape<AVLTreeNode>, par: Option<AVLTreeNode>, pred: Option<AVLTreeNode>, succ: Option<AVLTreeNode>)
    requires s.Br? && Distinct(s) && LinkedIn(s, par, pred, succ) && CachedIn(s)
    ensures s.n.Balance() == Cells.Balance(Image(s))
  {
    BalanceIsHeightDifference(s, par, pred, succ);
  }

  /** When a container's root is the image of a heap tree, the cells in in-order (what
      ToStringWithChildren lists) carry the container's elements; in a valid container
      they are sorted and there are Size of them. */
  lemma ImageElements(s: Shape<AVLTreeNode>, t: Tree.AVLTree)
    requires CachedIn(s) && t.root == Image(s)
    ensures Payloads(Inorder(s)) == t.Elements()
    ensures t.Valid() ==> Tree.Sorted(Payloads(Inorder(s))) && |Payloads(Inorder(s))| == t.size
  {
    ImageFacts(s);
    Cells.KeysSize(t.root);
  }

  /** In a linked heap tree whose image is valid and holds at most int.MaxValue cells,
      GetFirst and GetLast walk exactly the spines of the shape and stop before their
      step guard. */
  lemma GettersSucceed(s: Shape<AVLTreeNode>, t: Tree.AVLTree)
    requires Distinct(s) && LinkedIn(s, None, None, None) && CachedIn(s)
    requires t.root == Image(s) && t.Valid() && s.Br? && t.size <= 0x7FFF_FFFF
    ensures LeftSpineLinked(s) && RightSpineLinked(s)
    ensures LeftSpine(s) <= 1001 && RightSpine(s) <= 1001
  {
    LinkedSpines(s, None, None, None);
    ImageFacts(s);
    GuardNeverFires(s);
  }

  // ---------------------------------------------------------------------------
  // Framing: the invariants survive changes to fields they do not look at

  twostate lemma {:induction false} AllocNodes(s: Shape<AVLTreeNode>)
    ensures forall x :: x in Nodes(s) ==> old(allocated(x))
    decreases s
  {
    if s.Br? {
      AllocNodes(s.l);
      AllocNodes(s.r);
    }
  }
}
