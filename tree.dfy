/** AVLTree: the sorted container over the threaded AVL tree, on the value image of
    its cells (module Cells).  The tree keeps its root and its Size; a position in the
    tree, which the source holds as a reference to a cell and reaches through parent
    references, is a Locus: the subtree rooted at that cell and the path from it up to
    the root. */
module Tree {
  import opened Wrappers
  import opened Shapes
  import opened Heights
  import opened Cells

  // ---------------------------------------------------------------------------
  // Comparing payloads

  /** Comparer.Compare over integer payloads: fails (None) when either side is an
      invalid reference, otherwise yields -1, 0 or 1. */
  function Compare(a: Option<int>, b: Option<int>): (r: Option<int>)
    ensures r.Some? <==> a.Some? && b.Some?
    ensures r.Some? ==> (r.value == -1 <==> a.value < b.value) && (r.value == 0 <==> a.value == b.value) &&
                        (r.value == 1 <==> a.value > b.value)
  {
    if a.None? || b.None? then None
    else if a.value < b.value then Some(-1)
    else if a.value == b.value then Some(0)
    else Some(1)
  }

  predicate Le(a: Option<int>, b: Option<int>) {
    a.Some? && b.Some? && a.value <= b.value
  }

  predicate Lt(a: Option<int>, b: Option<int>) {
    a.Some? && b.Some? && a.value < b.value
  }

  /** Non-decreasing, and every payload that is compared with another one is valid; a
      lone invalid payload is allowed (Add puts any element into an empty tree without
      comparing it). */
  ghost predicate Sorted(s: seq<Option<int>>) {
    forall i, j :: 0 <= i < j < |s| ==> Le(s[i], s[j])
  }

  lemma SortedSplit(a: seq<Option<int>>, b: seq<Option<int>>)
    requires Sorted(a + b)
    ensures Sorted(a) && Sorted(b)
    ensures forall y, z :: y in a && z in b ==> Le(y, z)
  {
    forall y, z | y in a && z in b ensures Le(y, z) {
      var i :| 0 <= i < |a| && a[i] == y;
      var j :| 0 <= j < |b| && b[j] == z;
      assert (a + b)[i] == y && (a + b)[|a| + j] == z;
    }
    forall i, j | 0 <= i < j < |b| ensures Le(b[i], b[j]) {
      assert (a + b)[|a| + i] == b[i] && (a + b)[|a| + j] == b[j];
    }
    forall i, j | 0 <= i < j < |a| ensures Le(a[i], a[j]) {
      assert (a + b)[i] == a[i] && (a + b)[j] == a[j];
    }
  }

  /** The three parts of a sorted cell: the left keys, the cell's key, the right keys. */
  lemma SortedCell(t: Tree)
    requires t.Br? && Sorted(Keys(t))
    ensures Sorted(Keys(t.l)) && Sorted(Keys(t.r))
    ensures forall y :: y in Keys(t.l) ==> Le(y, t.n.payload)
    ensures forall y :: y in Keys(t.r) ==> Le(t.n.payload, y)
  {
    SortedSplit(Keys(t.l) + [t.n.payload], Keys(t.r));
    SortedSplit(Keys(t.l), [t.n.payload]);
  }

  /** Once there are two payloads, all of them are valid. */
  lemma SortedValid(s: seq<Option<int>>)
    ensures Sorted(s) && |s| >= 2 ==> None !in s
  {
    if Sorted(s) && |s| >= 2 {
      forall i | 0 <= i < |s| ensures s[i].Some? {
        if i == 0 {
          assert Le(s[0], s[1]);
        } else {
          assert Le(s[0], s[i]);
        }
      }
    }
  }

  /** An invalid payload in a sorted tree is its only one, so no valid element is
      found past it. */
  lemma InvalidStops(t: Tree, x: Option<int>)
    requires t.Br?
    ensures Sorted(Keys(t)) && t.n.payload.None? && x.Some? ==> x !in Keys(t)
  {
    SortedValid(Keys(t));
    assert t.n.payload in Keys(t);
  }

  lemma SortedInsert(p: seq<Option<int>>, x: Option<int>, q: seq<Option<int>>)
    requires Sorted(p + q)
    requires forall y :: y in p ==> Le(y, x)
    requires forall y :: y in q ==> Lt(x, y)
    ensures Sorted(p + [x] + q)
  {
    SortedSplit(p, q);
    var s := p + [x] + q;
    forall i, j | 0 <= i < j < |s| ensures Le(s[i], s[j]) {
      if j < |p| {
        assert s[i] == p[i] && s[j] == p[j];
      } else if i < |p| && j == |p| {
        assert s[i] in p;
      } else if i < |p| {
        assert s[i] == p[i] && s[j] == q[j - |p| - 1];
      } else if i == |p| {
        assert s[j] in q;
      } else {
        assert s[i] == q[i - |p| - 1] && s[j] == q[j - |p| - 1];
      }
    }
  }

  lemma SortedDelete(p: seq<Option<int>>, x: Option<int>, q: seq<Option<int>>)
    requires Sorted(p + [x] + q)
    ensures Sorted(p + q)
  {
    var s := p + [x] + q;
    var s' := p + q;
    forall i, j | 0 <= i < j < |s'| ensures Le(s'[i], s'[j]) {
      var i' := if i < |p| then i else i + 1;
      var j' := if j < |p| then j else j + 1;
      assert s[i'] == s'[i] && s[j'] == s'[j];
    }
  }

  // ---------------------------------------------------------------------------
  // Positions

  /** A cell of the tree, given by the subtree it roots (sub) and the path from it up to
      the root (ctx, innermost frame first); Plug(ctx, sub) is the whole tree. */
  datatype Locus = Locus(ctx: seq<Frame<Cell>>, sub: Tree)

  /** AVLTree.FindNode from the root t: descend left while the element compares below a
      cell's payload and right while it compares above, and stop at a cell it compares
      equal to, at a missing child, or at a failed comparison. */
  method FindNode(x: Option<int>, t: Tree) returns (r: Option<Locus>)
    ensures r.Some? ==> x.Some? && r.value.sub.Br? && r.value.sub.n.payload == x &&
                        Plug(r.value.ctx, r.value.sub) == t
    ensures Sorted(Keys(t)) ==> (r.Some? <==> x.Some? && x in Keys(t))
  {
    var ctx: seq<Frame<Cell>> := [];
    var cur := t;
    while true
      invariant Plug(ctx, cur) == t
      invariant Sorted(Keys(t)) ==> Sorted(Keys(cur))
      invariant Sorted(Keys(t)) && x.Some? && x in Keys(t) ==> x in Keys(cur)
      decreases Size(cur)
    {
      if cur.Nil? {
        return None;
      }
      var c := Compare(x, cur.n.payload);
      if c.None? {
        InvalidStops(cur, x);
        return None;
      }
      if c.value == 0 {
        PlugKeys(ctx, cur);
        return Some(Locus(ctx, cur));
      }
      if Sorted(Keys(t)) {
        SortedCell(cur);
      }
      if c.value < 0 {
        ctx := [Frame(true, cur.n, cur.r)] + ctx;
        cur := cur.l;
      } else {
        ctx := [Frame(false, cur.n, cur.l)] + ctx;
        cur := cur.r;
      }
    }
  }

  /** An invalid root payload is alone, so a valid root payload means every payload is
      valid. */
  lemma RootValid(t: Tree)
    requires t.Br?
    ensures Sorted(Keys(t)) && t.n.payload.Some? ==> None !in Keys(t)
  {
    SortedValid(Keys(t));
    KeysSize(t.l);
    KeysSize(t.r);
  }

  // ---------------------------------------------------------------------------
  // The descent of Add

  /** The hole of ctx is where Add puts x: every payload before it is at most x and every
      payload after it is greater, so x goes after the elements equal to it. */
  ghost predicate Splits(ctx: seq<Frame<Cell>>, x: Option<int>) {
    (forall y :: y in PreKeys(ctx) ==> Le(y, x)) && (forall y :: y in PostKeys(ctx) ==> Lt(x, y))
  }

  lemma StepLeft(ctx: seq<Frame<Cell>>, t: Tree, x: Option<int>)
    requires t.Br? && Sorted(Keys(t)) && Splits(ctx, x) && Lt(x, t.n.payload)
    ensures Splits([Frame(true, t.n, t.r)] + ctx, x)
  {
    SortedCell(t);
    assert ([Frame(true, t.n, t.r)] + ctx)[1..] == ctx;
  }

  lemma StepRight(ctx: seq<Frame<Cell>>, t: Tree, x: Option<int>)
    requires t.Br? && Sorted(Keys(t)) && Splits(ctx, x) && Le(t.n.payload, x)
    ensures Splits([Frame(false, t.n, t.l)] + ctx, x)
  {
    SortedCell(t);
    assert ([Frame(false, t.n, t.l)] + ctx)[1..] == ctx;
  }

  // ---------------------------------------------------------------------------
  // The upward walk of Balance

  /** What the walk of AVLTree.Balance needs at its first cell begin, which sits in the
      hole of ctx: begin's subtrees are balanced with valid cached values; begin is
      pending (Heights.Pending) against the heights h0, hl0, hr0 its position and its
      subtrees had in the last valid tree; the siblings along the path have valid
      cached values and are balanced around h0. */
  ghost predicate WalkReady(ctx: seq<Frame<Cell>>, begin: Tree, h0: int, hl0: int, hr0: int) {
    begin.Br? && Cached(begin.l) && Cached(begin.r) && AVL(begin.l) && AVL(begin.r) &&
    Pending(H(begin.l), H(begin.r), h0, hl0, hr0) && CtxCached(ctx) && CtxAVL(ctx, h0)
  }

  lemma CtxCachedConcat(c1: seq<Frame<Cell>>, c2: seq<Frame<Cell>>)
    requires CtxCached(c1) && CtxCached(c2)
    ensures CtxCached(c1 + c2)
  {
    forall i | 0 <= i < |c1 + c2| ensures Cached((c1 + c2)[i].other) {
      if i < |c1| {
        assert (c1 + c2)[i] == c1[i];
      } else {
        assert (c1 + c2)[i] == c2[i - |c1|];
      }
    }
  }

  /** One pass of the walk keeps it ready for the next: the refreshed and rebalanced
      parent is balanced with valid cached values and within one of its old height, and
      the rest of the path is balanced around that old height. */
  lemma WalkHeights(f: Frame<Cell>, rest: seq<Frame<Cell>>, cur: Tree, hc: int) returns (hc': int)
    requires Cached(f.other) && Cached(cur) && AVL(cur) && -1 <= H(cur) - hc <= 1
    requires CtxAVL([f] + rest, hc)
    ensures Cached(Fix(Up(f, cur))) && AVL(Fix(Up(f, cur)))
    ensures -1 <= H(Fix(Up(f, cur))) - hc' <= 1 && CtxAVL(rest, hc')
  {
    CtxAVLHead(f, rest, hc);
    var hs := H(f.other);
    hc' := 1 + Max(hc, hs);
    var t := Up(f, cur);
    if f.isLeft {
      assert t.l == cur && t.r == f.other;
      FixFacts(t, hc', hc, hs);
    } else {
      assert t.l == f.other && t.r == cur;
      FixFacts(t, hc', hs, hc);
    }
  }

  lemma CtxAVLHead(f: Frame<Cell>, rest: seq<Frame<Cell>>, h: int)
    requires CtxAVL([f] + rest, h)
    ensures AVL(f.other) && -1 <= h - H(f.other) <= 1 && CtxAVL(rest, 1 + Max(h, H(f.other)))
  {
    assert ([f] + rest)[0] == f && ([f] + rest)[1..] == rest;
  }

  /** ... and the payloads keep their order. */
  lemma WalkKeys(f: Frame<Cell>, rest: seq<Frame<Cell>>, cur: Tree)
    ensures Keys(Plug(rest, Fix(Up(f, cur)))) == Keys(Plug([f] + rest, cur))
  {
    assert ([f] + rest)[0] == f && ([f] + rest)[1..] == rest;
    PlugKeys(rest, Up(f, cur));
    PlugKeys(rest, Fix(Up(f, cur)));
  }

  // ---------------------------------------------------------------------------
  // The removal helpers

  /** AVLTree.RemoveLeafNode for the leaf at the bottom of ctx: the parent takes over the
      leaf's wire, so the leaf's place becomes empty, and balancing starts at the parent;
      when the leaf was the root the tree becomes empty and nothing is balanced. */
  function RemoveLeafNode(ctx: seq<Frame<Cell>>): (r: Option<Locus>)
    ensures r.None? <==> ctx == []
    ensures r.Some? ==> r.value.sub.Br? && r.value.sub.n == ctx[0].n &&
                        Plug(r.value.ctx, r.value.sub) == Plug(ctx, Nil)
  {
    if ctx == [] then None else Some(Locus(ctx[1..], Up(ctx[0], Nil)))
  }

  /** AVLTree.ReplaceRootWithLeftChild: the left child, which has no right child, takes
      the removed cell's place and adopts its right subtree; balancing starts there. */
  function ReplaceRootWithLeftChild(sub: Tree): (r: Tree)
    requires sub.Br? && sub.l.Br? && sub.l.r.Nil?
    ensures r.Br? && r.n == sub.l.n && Keys(r) == Keys(sub.l) + Keys(sub.r)
  {
    Br(sub.l.l, sub.l.n, sub.r)
  }

  function ReplaceRootWithRightChild(sub: Tree): (r: Tree)
    requires sub.Br? && sub.r.Br? && sub.r.l.Nil?
    ensures r.Br? && r.n == sub.r.n && Keys(r) == Keys(sub.l) + Keys(sub.r)
  {
    Br(sub.l, sub.r.n, sub.r.r)
  }

  /** In a balanced subtree whose root has no right child, the left child is a leaf,
      so the root leans left by exactly one. */
  lemma LastLeaf(m: Tree)
    requires m.Br? && m.l.Br? && m.r.Nil? && AVL(m) && Cached(m)
    ensures m.l.l.Nil? && m.l.r.Nil? && Balance(m) == 1
  {
    CachedMeans(m.l);
  }

  lemma FirstLeaf(m: Tree)
    requires m.Br? && m.r.Br? && m.l.Nil? && AVL(m) && Cached(m)
    ensures m.r.l.Nil? && m.r.r.Nil? && Balance(m) == -1
  {
    CachedMeans(m.r);
  }

  /** The last (or first) cell of a subtree taken out of it, the walk's starting cell
      start, and the path from start up to the subtree's root. */
  datatype Detached = Detached(path: seq<Frame<Cell>>, start: Tree, taken: Cell)

  /** The first half of AVLTree.ReplaceRootWithLeftTreeLeftHeavy on the left subtree L
      of the removed cell: the last cell m of L (reached through real right children)
      leaves L.  When m has a left child x, m is first rotated right, so that x takes
      m's place with m as its right child, and x's right side then becomes a wire; the
      walk starts at x.  Otherwise the parent's right side becomes a wire and the walk
      starts at the parent. */
  function DetachLast(L: Tree): (d: Detached)
    requires L.Br? && L.r.Br? && AVL(L) && Cached(L)
    ensures d.start.Br? && Keys(Plug(d.path, d.start)) + [d.taken.payload] == Keys(L)
    decreases L
  {
    if L.r.r.Br? then
      var d := DetachLast(L.r);
      PlugConcat(d.path, [Frame(false, L.n, L.l)], d.start);
      Detached(d.path + [Frame(false, L.n, L.l)], d.start, d.taken)
    else if L.r.l.Br? then
      LastLeaf(L.r);
      var x := Rotate(false, L.r);
      var f := Frame(false, L.n, L.l);
      assert [f][1..] == [] && Plug([f], Br(x.l, x.n, Nil)) == Br(L.l, L.n, Br(x.l, x.n, Nil));
      assert Keys(L.r) == [x.n.payload, x.r.n.payload];
      Detached([f], Br(x.l, x.n, Nil), x.r.n)
    else
      Detached([], Br(L.l, L.n, Nil), L.r.n)
  }

  function DetachFirst(R: Tree): (d: Detached)
    requires R.Br? && R.l.Br? && AVL(R) && Cached(R)
    ensures d.start.Br? && [d.taken.payload] + Keys(Plug(d.path, d.start)) == Keys(R)
    decreases R
  {
    if R.l.l.Br? then
      var d := DetachFirst(R.l);
      PlugConcat(d.path, [Frame(true, R.n, R.r)], d.start);
      Detached(d.path + [Frame(true, R.n, R.r)], d.start, d.taken)
    else if R.l.r.Br? then
      FirstLeaf(R.l);
      var x := Rotate(true, R.l);
      var f := Frame(true, R.n, R.r);
      assert [f][1..] == [] && Plug([f], Br(Nil, x.n, x.r)) == Br(Br(Nil, x.n, x.r), R.n, R.r);
      assert Keys(R.l) == [x.l.n.payload, x.n.payload];
      Detached([f], Br(Nil, x.n, x.r), x.l.n)
    else
      Detached([], Br(Nil, R.n, R.r), R.l.n)
  }

  /** AVLTree.ReplaceRootWithLeftTreeLeftHeavy: the last cell of the left subtree takes
      the removed cell's place, over the shortened left subtree and the right subtree. */
  function ReplaceRootWithLeftTreeLeftHeavy(sub: Tree): (r: Locus)
    requires sub.Br? && sub.l.Br? && sub.l.r.Br? && sub.r.Br? && AVL(sub.l) && Cached(sub.l)
    ensures r.sub.Br? && Keys(Plug(r.ctx, r.sub)) == Keys(sub.l) + Keys(sub.r)
    ensures var t := Plug(r.ctx, r.sub);
            t.Br? && t.n.payload == Keys(sub.l)[|Keys(sub.l)| - 1] && t.r == sub.r
  {
    var d := DetachLast(sub.l);
    PlugConcat(d.path, [Frame(true, d.taken, sub.r)], d.start);
    Locus(d.path + [Frame(true, d.taken, sub.r)], d.start)
  }

  function ReplaceRootWithRightTreeRightHeavy(sub: Tree): (r: Locus)
    requires sub.Br? && sub.r.Br? && sub.r.l.Br? && sub.l.Br? && AVL(sub.r) && Cached(sub.r)
    ensures r.sub.Br? && Keys(Plug(r.ctx, r.sub)) == Keys(sub.l) + Keys(sub.r)
    ensures var t := Plug(r.ctx, r.sub);
            t.Br? && t.n.payload == Keys(sub.r)[0] && t.l == sub.l
  {
    var d := DetachFirst(sub.r);
    PlugConcat(d.path, [Frame(false, d.taken, sub.l)], d.start);
    Locus(d.path + [Frame(false, d.taken, sub.l)], d.start)
  }

  /** AVLTree.RemoveRootNodeOfLeftHeavyTree: the removed cell sub has a child; its
      in-order predecessor (isLeft) or successor replaces it, through the one-child
      replacement when that neighbour is sub's own child and through the subtree
      replacement otherwise.  Returns where balancing starts, as a path inside the new
      subtree. */
  function RemoveRootNodeOfLeftHeavyTree(sub: Tree, isLeft: bool): (r: Locus)
    requires sub.Br? && AVL(sub) && Cached(sub)
    requires if isLeft then sub.l.Br? && Balance(sub) >= 0 else Balance(sub) < 0
    ensures r.sub.Br? && Keys(Plug(r.ctx, r.sub)) == Keys(sub.l) + Keys(sub.r)
    ensures isLeft ==> var t := Plug(r.ctx, r.sub);
              t.Br? && t.n.payload == Keys(sub.l)[|Keys(sub.l)| - 1] && t.r == sub.r
    ensures !isLeft ==> var t := Plug(r.ctx, r.sub);
              sub.r.Br? && t.Br? && t.n.payload == Keys(sub.r)[0] && t.l == sub.l
  {
    CachedMeans(sub.l);
    CachedMeans(sub.r);
    if isLeft then
      if sub.l.r.Nil? then Locus([], ReplaceRootWithLeftChild(sub))
      else ReplaceRootWithLeftTreeLeftHeavy(sub)
    else
      if sub.r.l.Nil? then Locus([], ReplaceRootWithRightChild(sub))
      else ReplaceRootWithRightTreeRightHeavy(sub)
  }

  // ---------------------------------------------------------------------------
  // Where the walk starts after a removal

  lemma LeafReady(ctx: seq<Frame<Cell>>, leaf: Tree) returns (h0: int, hl0: int, hr0: int)
    requires ctx != [] && leaf.Br? && leaf.l.Nil? && leaf.r.Nil?
    requires Cached(Plug(ctx, leaf)) && AVL(Plug(ctx, leaf))
    ensures WalkReady(ctx[1..], Up(ctx[0], Nil), h0, hl0, hr0)
  {
    PlugAVL(ctx, leaf);
    PlugCached(ctx, leaf);
    var f := ctx[0];
    h0 := 1 + Max(1, H(f.other));
    if f.isLeft {
      hl0, hr0 := 1, H(f.other);
    } else {
      hl0, hr0 := H(f.other), 1;
    }
    assert Cached(ctx[0].other);
  }

  lemma AttachReady(ctx: seq<Frame<Cell>>, leaf: Tree)
    requires leaf.Br? && leaf.l.Nil? && leaf.r.Nil?
    requires Cached(Plug(ctx, Nil)) && AVL(Plug(ctx, Nil))
    ensures WalkReady(ctx, leaf, 0, 0, 0)
  {
    PlugAVL(ctx, Nil);
    PlugCached(ctx, Nil);
  }

  lemma AttachKeys(ctx: seq<Frame<Cell>>, leaf: Tree)
    requires leaf.Br? && leaf.l.Nil? && leaf.r.Nil?
    ensures Keys(Plug(ctx, Nil)) == PreKeys(ctx) + PostKeys(ctx)
    ensures Keys(Plug(ctx, leaf)) == PreKeys(ctx) + [leaf.n.payload] + PostKeys(ctx)
  {
    PlugKeys(ctx, Nil);
    PlugKeys(ctx, leaf);
  }

  lemma {:induction false} DetachLastReady(L: Tree) returns (h0: int, hl0: int, hr0: int)
    requires L.Br? && L.r.Br? && AVL(L) && Cached(L)
    ensures WalkReady(DetachLast(L).path, DetachLast(L).start, h0, hl0, hr0)
    ensures CtxH(DetachLast(L).path, h0) == H(L)
    decreases L
  {
    var f := Frame(false, L.n, L.l);
    if L.r.r.Br? {
      h0, hl0, hr0 := DetachLastReady(L.r);
      var d := DetachLast(L.r);
      assert DetachLast(L).path == d.path + [f];
      CtxAVLConcat(d.path, [f], h0);
      CtxHConcat(d.path, [f], h0);
      CtxCachedConcat(d.path, [f]);
    } else if L.r.l.Br? {
      CachedMeans(L.r.l);
      h0, hl0, hr0 := 2, 1, 0;
    } else {
      h0, hl0, hr0 := H(L), H(L.l), 1;
    }
  }

  lemma {:induction false} DetachFirstReady(R: Tree) returns (h0: int, hl0: int, hr0: int)
    requires R.Br? && R.l.Br? && AVL(R) && Cached(R)
    ensures WalkReady(DetachFirst(R).path, DetachFirst(R).start, h0, hl0, hr0)
    ensures CtxH(DetachFirst(R).path, h0) == H(R)
    decreases R
  {
    var f := Frame(true, R.n, R.r);
    if R.l.l.Br? {
      h0, hl0, hr0 := DetachFirstReady(R.l);
      var d := DetachFirst(R.l);
      assert DetachFirst(R).path == d.path + [f];
      CtxAVLConcat(d.path, [f], h0);
      CtxHConcat(d.path, [f], h0);
      CtxCachedConcat(d.path, [f]);
    } else if R.l.r.Br? {
      CachedMeans(R.l.r);
      h0, hl0, hr0 := 2, 0, 1;
    } else {
      h0, hl0, hr0 := H(R), 1, H(R.r);
    }
  }

  /** A walk that is ready along path stays ready when the path is extended by a path
      that is ready for the height at path's top. */
  lemma ConcatReady(path: seq<Frame<Cell>>, begin: Tree, above: seq<Frame<Cell>>, h0: int, hl0: int, hr0: int)
    requires WalkReady(path, begin, h0, hl0, hr0) && CtxAVL(above, CtxH(path, h0)) && CtxCached(above)
    ensures WalkReady(path + above, begin, h0, hl0, hr0)
  {
    CtxAVLConcat(path, above, h0);
    CtxCachedConcat(path, above);
  }

  /** A frame whose sibling is balanced, has valid cached values and is within one of
      the height h in the hole, over a path that is ready for the parent's height. */
  lemma FrameReady(f: Frame<Cell>, ctx: seq<Frame<Cell>>, h: int, hp: int)
    requires AVL(f.other) && Cached(f.other) && -1 <= h - H(f.other) <= 1
    requires hp == 1 + Max(h, H(f.other)) && CtxCached(ctx) && CtxAVL(ctx, hp)
    ensures CtxAVL([f] + ctx, h) && CtxCached([f] + ctx)
  {
    assert ([f] + ctx)[1..] == ctx;
    CtxCachedConcat([f], ctx);
  }

  /** After the last cell of the left subtree replaces the removed cell, the walk can
      start at the cell DetachLast reports. */
  lemma DeepLeftReady(ctx: seq<Frame<Cell>>, sub: Tree) returns (h0: int, hl0: int, hr0: int)
    requires sub.Br? && sub.l.Br? && sub.l.r.Br? && sub.r.Br? && AVL(sub) && Cached(sub)
    requires CtxCached(ctx) && CtxAVL(ctx, H(sub))
    ensures WalkReady(ReplaceRootWithLeftTreeLeftHeavy(sub).ctx + ctx,
                      ReplaceRootWithLeftTreeLeftHeavy(sub).sub, h0, hl0, hr0)
  {
    var d := DetachLast(sub.l);
    h0, hl0, hr0 := DetachLastReady(sub.l);
    var f := Frame(true, d.taken, sub.r);
    var above := [f] + ctx;
    assert H(sub) == 1 + Max(H(sub.l), H(f.other));
    FrameReady(f, ctx, H(sub.l), H(sub));
    ConcatReady(d.path, d.start, above, h0, hl0, hr0);
    var r := ReplaceRootWithLeftTreeLeftHeavy(sub);
    assert r.ctx == d.path + [f] && r.sub == d.start;
    Assoc(d.path, [f], ctx);
  }

  lemma DeepRightReady(ctx: seq<Frame<Cell>>, sub: Tree) returns (h0: int, hl0: int, hr0: int)
    requires sub.Br? && sub.r.Br? && sub.r.l.Br? && sub.l.Br? && AVL(sub) && Cached(sub)
    requires CtxCached(ctx) && CtxAVL(ctx, H(sub))
    ensures WalkReady(ReplaceRootWithRightTreeRightHeavy(sub).ctx + ctx,
                      ReplaceRootWithRightTreeRightHeavy(sub).sub, h0, hl0, hr0)
  {
    var d := DetachFirst(sub.r);
    h0, hl0, hr0 := DetachFirstReady(sub.r);
    var f := Frame(false, d.taken, sub.l);
    var above := [f] + ctx;
    assert H(sub) == 1 + Max(H(sub.r), H(f.other));
    FrameReady(f, ctx, H(sub.r), H(sub));
    ConcatReady(d.path, d.start, above, h0, hl0, hr0);
    var r := ReplaceRootWithRightTreeRightHeavy(sub);
    assert r.ctx == d.path + [f] && r.sub == d.start;
    Assoc(d.path, [f], ctx);
  }

  lemma RemoveRootReady(ctx: seq<Frame<Cell>>, sub: Tree, isLeft: bool) returns (h0: int, hl0: int, hr0: int)
    requires sub.Br? && AVL(sub) && Cached(sub)
    requires if isLeft then sub.l.Br? && Balance(sub) >= 0 else Balance(sub) < 0
    requires CtxCached(ctx) && CtxAVL(ctx, H(sub))
    ensures WalkReady(RemoveRootNodeOfLeftHeavyTree(sub, isLeft).ctx + ctx,
                      RemoveRootNodeOfLeftHeavyTree(sub, isLeft).sub, h0, hl0, hr0)
  {
    CachedMeans(sub.l);
    CachedMeans(sub.r);
    if isLeft && sub.l.r.Nil? {
      h0, hl0, hr0 := H(sub), H(sub.l), H(sub.r);
      assert RemoveRootNodeOfLeftHeavyTree(sub, isLeft).ctx + ctx == ctx;
    } else if !isLeft && sub.r.l.Nil? {
      h0, hl0, hr0 := H(sub), H(sub.l), H(sub.r);
      assert RemoveRootNodeOfLeftHeavyTree(sub, isLeft).ctx + ctx == ctx;
    } else if isLeft {
      h0, hl0, hr0 := DeepLeftReady(ctx, sub);
    } else {
      h0, hl0, hr0 := DeepRightReady(ctx, sub);
    }
  }

  /** Putting in place of the removed cell sub a subtree with the payloads of sub's two
      subtrees removes exactly sub's payload, at its place. */
  lemma RemovedKeys(ctx: seq<Frame<Cell>>, sub: Tree, replaced: Tree)
    requires sub.Br? && Keys(replaced) == Keys(sub.l) + Keys(sub.r)
    ensures var p, q := PreKeys(ctx) + Keys(sub.l), Keys(sub.r) + PostKeys(ctx);
            Keys(Plug(ctx, sub)) == p + [sub.n.payload] + q && Keys(Plug(ctx, replaced)) == p + q
  {
    var a, b, c, d := PreKeys(ctx), Keys(sub.l), Keys(sub.r), PostKeys(ctx);
    PlugKeys(ctx, sub);
    PlugKeys(ctx, replaced);
    Regroup5(a, b, [sub.n.payload], c, d);
    Regroup4(a, b, c, d);
  }

  // ---------------------------------------------------------------------------
  // The container

  class AVLTree {
    /** RootNode; Nil when the tree is empty. */
    var root: Tree
    /** Size */
    var size: int

    /** The tree invariant: valid cached counts and heights, AVL balance, the payloads
        sorted in in-order, and Size the number of cells. */
    ghost predicate Valid()
      reads this
    {
      Cached(root) && AVL(root) && Sorted(Keys(root)) && size == Size(root)
    }

    /** The elements in order. */
    ghost function Elements(): seq<Option<int>>
      reads this
    {
      Keys(root)
    }

    constructor()
      ensures Valid() && Elements() == []
    {
      root := Nil;
      size := 0;
    }

    /** AVLTree.IsEmpty */
    function IsEmpty(): (r: bool)
      reads this
      ensures Valid() ==> (r <==> Elements() == [])
    {
      KeysSize(root);
      size < 1
    }

    /** AVLTree.Balance: from begin, in the hole of ctx, up to the root, refresh every
        cell and rotate where one is two out of balance; the last cell visited is the
        new root. */
    static method Balance(ctx: seq<Frame<Cell>>, begin: Tree, ghost h0: int, ghost hl0: int, ghost hr0: int)
      returns (t: Tree)
      requires WalkReady(ctx, begin, h0, hl0, hr0)
      ensures Cached(t) && AVL(t) && Keys(t) == Keys(Plug(ctx, begin))
    {
      FixFacts(begin, h0, hl0, hr0);
      var current := Fix(begin);
      PlugKeys(ctx, begin);
      PlugKeys(ctx, current);
      ghost var hc := h0;
      assert ctx[0..] == ctx;
      var i := 0;
      while i < |ctx|
        invariant 0 <= i <= |ctx|
        invariant Cached(current) && AVL(current) && -1 <= H(current) - hc <= 1
        invariant CtxAVL(ctx[i..], hc)
        invariant Keys(Plug(ctx[i..], current)) == Keys(Plug(ctx, begin))
      {
        assert ctx[i..] == [ctx[i]] + ctx[i + 1..];
        hc := WalkHeights(ctx[i], ctx[i + 1..], current, hc);
        WalkKeys(ctx[i], ctx[i + 1..], current);
        current := Fix(Up(ctx[i], current));
        i := i + 1;
      }
      t := current;
    }

    /** The part of AVLTree.Add after the descent: a fresh cell holding x is hung in the
        empty place at the hole of ctx and the tree is balanced from it. */
    static method Attach(ctx: seq<Frame<Cell>>, x: Option<int>) returns (t: Tree)
      requires Cached(Plug(ctx, Nil)) && AVL(Plug(ctx, Nil))
      ensures Cached(t) && AVL(t)
      ensures Keys(Plug(ctx, Nil)) == PreKeys(ctx) + PostKeys(ctx)
      ensures Keys(t) == PreKeys(ctx) + [x] + PostKeys(ctx)
    {
      var newNode := Br(Nil, Cell(x, 0, 0), Nil);
      AttachReady(ctx, newNode);
      t := Balance(ctx, newNode, 0, 0, 0);
      AttachKeys(ctx, newNode);
    }

    /** AVLTree.Add: descend from the root, left when x compares below a cell and right
        otherwise (so x goes after the elements equal to it), hang a fresh cell in the
        empty place found, and balance from it.  A failed comparison leaves the tree as
        it was; an empty tree takes any element without comparing it. */
    method Add(x: Option<int>) returns (ok: bool)
      requires Valid()
      modifies this
      ensures Valid()
      ensures ok <==> old(Elements()) == [] || (x.Some? && None !in old(Elements()))
      ensures ok ==> size == old(size) + 1 &&
                     exists p, q :: old(Elements()) == p + q && Elements() == p + [x] + q &&
                                    (forall y :: y in p ==> Le(y, x)) && (forall y :: y in q ==> Lt(x, y))
      ensures !ok ==> root == old(root) && size == old(size)
    {
      var current := root;
      var ctx: seq<Frame<Cell>> := [];
      while current.Br?
        invariant Plug(ctx, current) == root
        invariant Sorted(Keys(current)) && Splits(ctx, x)
        invariant ctx != [] ==> x.Some? && root.Br? && root.n.payload.Some?
        invariant root == old(root) && size == old(size)
        decreases Size(current)
      {
        var c := Compare(x, current.n.payload);
        if c.None? {
          PlugKeys(ctx, current);
          assert current.n.payload in Keys(current);
          return false;
        }
        if c.value == -1 {
          StepLeft(ctx, current, x);
          SortedCell(current);
          ctx := [Frame(true, current.n, current.r)] + ctx;
          current := current.l;
        } else {
          StepRight(ctx, current, x);
          SortedCell(current);
          ctx := [Frame(false, current.n, current.l)] + ctx;
          current := current.r;
        }
      }
      ghost var oldRoot := root;
      if ctx != [] {
        RootValid(root);
      }
      root := Attach(ctx, x);
      SortedInsert(PreKeys(ctx), x, PostKeys(ctx));
      KeysSize(oldRoot);
      KeysSize(root);
      size := size + 1;
      ok := true;
      assert Keys(oldRoot) == PreKeys(ctx) + PostKeys(ctx) && Keys(root) == PreKeys(ctx) + [x] + PostKeys(ctx);
    }

    /** The part of AVLTree.Remove after FindNode, for the cell nodeToDelete in the hole
        of ctx: a leaf goes directly; a cell with children is replaced by its in-order
        predecessor when it does not lean right and by its successor when it does; the
        tree is then balanced from where its structure changed.  Returns the new root:
        balanced, with valid cached values, holding the payloads in order without the
        removed one. */
    static method RemoveCell(ctx: seq<Frame<Cell>>, nodeToDelete: Tree) returns (t: Tree)
      requires nodeToDelete.Br? && Cached(Plug(ctx, nodeToDelete)) && AVL(Plug(ctx, nodeToDelete))
      ensures Cached(t) && AVL(t)
      ensures var p, q := PreKeys(ctx) + Keys(nodeToDelete.l), Keys(nodeToDelete.r) + PostKeys(ctx);
              Keys(Plug(ctx, nodeToDelete)) == p + [nodeToDelete.n.payload] + q && Keys(t) == p + q
    {
      PlugAVL(ctx, nodeToDelete);
      PlugCached(ctx, nodeToDelete);
      // the subtree that takes nodeToDelete's place, before balancing
      ghost var replaced: Tree;
      var leftValid := nodeToDelete.l.Br?;
      var rightValid := nodeToDelete.r.Br?;
      if !rightValid && !leftValid {
        replaced := Nil;
        var balanceStart := RemoveLeafNode(ctx);
        if balanceStart.Some? {
          ghost var h0, hl0, hr0 := LeafReady(ctx, nodeToDelete);
          t := Balance(balanceStart.value.ctx, balanceStart.value.sub, h0, hl0, hr0);
        } else {
          t := Nil;
        }
      } else {
        CachedMeans(nodeToDelete.l);
        CachedMeans(nodeToDelete.r);
        var isLeft := !(Cells.Balance(nodeToDelete) < 0);
        var start := RemoveRootNodeOfLeftHeavyTree(nodeToDelete, isLeft);
        ghost var h0, hl0, hr0 := RemoveRootReady(ctx, nodeToDelete, isLeft);
        t := Balance(start.ctx + ctx, start.sub, h0, hl0, hr0);
        replaced := Plug(start.ctx, start.sub);
        PlugConcat(start.ctx, ctx, start.sub);
      }
      RemovedKeys(ctx, nodeToDelete, replaced);
    }

    /** AVLTree.Remove: an invalid element is refused; otherwise the cell FindNode
        reaches is removed (a leaf directly; a cell with children is replaced by its
        in-order predecessor when it is not right-heavy, by its successor when it is)
        and the tree is balanced from where the structure changed. */
    method Remove(x: Option<int>) returns (ok: bool)
      requires Valid()
      modifies this
      ensures Valid()
      ensures ok <==> x.Some? && x in old(Elements())
      ensures ok ==> size == old(size) - 1 &&
                     exists p, q :: old(Elements()) == p + [x] + q && Elements() == p + q
      ensures !ok ==> root == old(root) && size == old(size)
    {
      if x.None? {
        return false;
      }
      var found := FindNode(x, root);
      if found.None? {
        return false;
      }
      var ctx, nodeToDelete := found.value.ctx, found.value.sub;
      ghost var oldRoot := root;
      root := RemoveCell(ctx, nodeToDelete);
      ghost var p, q := PreKeys(ctx) + Keys(nodeToDelete.l), Keys(nodeToDelete.r) + PostKeys(ctx);
      SortedDelete(p, x, q);
      KeysSize(oldRoot);
      KeysSize(root);
      size := size - 1;
      ok := true;
    }

    /** AVLTree.Contains: the stored payload equal to x, or None. */
    method Contains(x: Option<int>) returns (r: Option<int>)
      requires Valid()
      ensures r.Some? ==> r == x
      ensures r.Some? <==> x.Some? && x in Elements()
    {
      var found := FindNode(x, root);
      if found.Some? {
        return found.value.sub.n.payload;
      }
      return None;
    }

    /** AVLTree.Get: the payload at position index in order, or None when index is out
        of range.  The descent steers by the cached counts of left subtrees. */
    method Get(index: int) returns (r: Option<int>)
      requires Valid()
      ensures r == if 0 <= index < |Elements()| then Elements()[index] else None
    {
      KeysSize(root);
      if index < 0 || index >= size {
        return None;
      }
      var cur := root;
      var i := index;
      KeysSize(cur);
      CachedMeans(cur.l);
      var left := Cnt(cur.l);
      while left != i
        invariant cur.Br? && Cached(cur) && 0 <= i < Size(cur) && |Keys(cur)| == Size(cur)
        invariant Keys(cur)[i] == Keys(root)[index]
        invariant left == Size(cur.l)
        decreases Size(cur)
      {
        KeysSize(cur.l);
        if left < i {
          i := i - (left + 1);
          cur := cur.r;
        } else {
          cur := cur.l;
        }
        KeysSize(cur);
        CachedMeans(cur.l);
        left := Cnt(cur.l);
      }
      KeysSize(cur.l);
      return cur.n.payload;
    }
  }
}
