/** The value image of a subtree of AVLTreeNode cells, which the tree operations work
    on: each cell keeps its payload and its cached count and height, and the real
    children are the branches of the shape.  The wires and parent references of the
    threaded tree are not stored here; for a tree of distinct cells they are fixed by
    the shape (Shapes.Exp).  This module holds the node operations the tree operations
    call: the cached-value refresh, the balance, the single rotation, and one step of
    the upward rebalancing walk. */
module Cells {
  import opened Wrappers
  import opened Shapes
  import opened Heights

  /** payload None stands for an invalid (destroyed or null) element reference. */
  datatype Cell = Cell(payload: Option<int>, count: nat, height: nat)

  type Tree = Shape<Cell>

  /** The cached height a parent reads from a child: 0 when there is no real child. */
  function Ht(t: Tree): nat {
    if t.Br? then t.n.height else 0
  }

  function Cnt(t: Tree): nat {
    if t.Br? then t.n.count else 0
  }

  /** Every cell's count and height agree with its children's. */
  ghost predicate Cached(t: Tree) {
    t.Nil? ||
    (Cached(t.l) && Cached(t.r) &&
     t.n.count == Cnt(t.l) + Cnt(t.r) + 1 && t.n.height == Max(Ht(t.l), Ht(t.r)) + 1)
  }

  /** The payloads in in-order. */
  ghost function Keys(t: Tree): seq<Option<int>> {
    match t
    case Nil => []
    case Br(l, c, r) => Keys(l) + [c.payload] + Keys(r)
  }

  /** The payloads of Plug(ctx, _) before and after the hole. */
  ghost function PreKeys(ctx: seq<Frame<Cell>>): seq<Option<int>>
    decreases |ctx|
  {
    if ctx == [] then []
    else if ctx[0].isLeft then PreKeys(ctx[1..])
    else PreKeys(ctx[1..]) + Keys(ctx[0].other) + [ctx[0].n.payload]
  }

  ghost function PostKeys(ctx: seq<Frame<Cell>>): seq<Option<int>>
    decreases |ctx|
  {
    if ctx == [] then []
    else if ctx[0].isLeft then [ctx[0].n.payload] + Keys(ctx[0].other) + PostKeys(ctx[1..])
    else PostKeys(ctx[1..])
  }

  /** Every sibling hanging off the path has valid cached values. */
  ghost predicate CtxCached(ctx: seq<Frame<Cell>>) {
    forall i :: 0 <= i < |ctx| ==> Cached(ctx[i].other)
  }

  /** The cached values are what they claim to be: the number of cells and the height. */
  lemma {:induction false} CachedMeans(t: Tree)
    requires Cached(t)
    ensures Cnt(t) == Size(t) && Ht(t) == H(t)
  {
    if t.Br? {
      CachedMeans(t.l);
      CachedMeans(t.r);
    }
  }

  lemma {:induction false} KeysSize(t: Tree)
    ensures |Keys(t)| == Size(t)
  {
    if t.Br? {
      KeysSize(t.l);
      KeysSize(t.r);
    }
  }

  lemma {:induction false} PlugKeys(ctx: seq<Frame<Cell>>, s: Tree)
    ensures Keys(Plug(ctx, s)) == PreKeys(ctx) + Keys(s) + PostKeys(ctx)
    decreases |ctx|
  {
    if ctx != [] {
      var f, rest := ctx[0], ctx[1..];
      PlugKeys(rest, Up(f, s));
      if f.isLeft {
        HoleLeft(PreKeys(rest), Keys(s), [f.n.payload], Keys(f.other), PostKeys(rest));
      } else {
        HoleRight(PreKeys(rest), Keys(f.other), [f.n.payload], Keys(s), PostKeys(rest));
      }
    }
  }

  lemma {:induction false} PlugCached(ctx: seq<Frame<Cell>>, s: Tree)
    requires Cached(Plug(ctx, s))
    ensures Cached(s) && CtxCached(ctx)
    decreases |ctx|
  {
    if ctx != [] {
      PlugCached(ctx[1..], Up(ctx[0], s));
    }
  }

  /** AVLTreeNode.Balance: left height minus right height, read from the cache. */
  function Balance(t: Tree): int
    requires t.Br?
  {
    Ht(t.l) - Ht(t.r)
  }

  /** AVLTreeNode.UpdateValues: recompute count and height from the children. */
  function Update(t: Tree): (r: Tree)
    requires t.Br?
    ensures r.Br? && r.l == t.l && r.r == t.r && r.n.payload == t.n.payload
    ensures Cached(t.l) && Cached(t.r) ==> Cached(r)
  {
    Br(t.l, Cell(t.n.payload, Cnt(t.l) + Cnt(t.r) + 1, Max(Ht(t.l), Ht(t.r)) + 1), t.r)
  }

  /** Whether AVLTreeNode.Rotate goes ahead: a left rotation needs a balance of -1 or
      -2, a right rotation 1 or 2. */
  predicate RotationAccepted(rotateLeft: bool, balance: int) {
    if rotateLeft then -2 <= balance <= -1 else 1 <= balance <= 2
  }

  /** AVLTreeNode.Rotate on the value image.  When the balance does not allow the
      rotation, nothing changes.  Otherwise the child c on the heavy side becomes the
      root, the old root a becomes c's child, c's inner subtree moves across to a, and a
      then c refresh their cached values. */
  function Rotate(rotateLeft: bool, t: Tree): (r: Tree)
    requires t.Br?
    ensures !RotationAccepted(rotateLeft, Balance(t)) ==> r == t
    ensures RotationAccepted(rotateLeft, Balance(t)) && rotateLeft ==>
              t.r.Br? && r.Br? && r.l.Br? && r.l.l == t.l && r.l.r == t.r.l && r.r == t.r.r &&
              r.l.n.payload == t.n.payload && r.n.payload == t.r.n.payload
    ensures RotationAccepted(rotateLeft, Balance(t)) && !rotateLeft ==>
              t.l.Br? && r.Br? && r.r.Br? && r.r.r == t.r && r.r.l == t.l.r && r.l == t.l.l &&
              r.r.n.payload == t.n.payload && r.n.payload == t.l.n.payload
    ensures Keys(r) == Keys(t)
    ensures RotationAccepted(rotateLeft, Balance(t)) && Cached(t.l) && Cached(t.r) ==> Cached(r)
  {
    if !RotationAccepted(rotateLeft, Balance(t)) then t
    else if rotateLeft then
      var a := Update(Br(t.l, t.n, t.r.l));
      Update(Br(a, t.r.n, t.r.r))
    else
      var a := Update(Br(t.l.r, t.n, t.r));
      Update(Br(t.l.l, t.l.n, a))
  }

  /** The new root of a rotation caches the count the old root had: the subtree holds
      the same cells. */
  lemma RotateKeepsCount(rotateLeft: bool, t: Tree)
    requires t.Br? && Cached(t) && RotationAccepted(rotateLeft, Balance(t))
    ensures Cnt(Rotate(rotateLeft, t)) == Cnt(t)
  {
    var r := Rotate(rotateLeft, t);
    CachedMeans(t);
    CachedMeans(r);
    KeysSize(t);
    KeysSize(r);
  }

  /** A rotated value tree has the shape of the rotated shape. */
  lemma RotLShape(t: Tree, r: Tree)
    requires t.Br? && t.r.Br? && r.Br? && r.l.Br? && r.l.l == t.l && r.l.r == t.r.l && r.r == t.r.r
    ensures Like(r, RotL(t)) && H(r) == H(RotL(t)) && AVL(r) == AVL(RotL(t))
  {
    LikeRefl(t.l);
    LikeRefl(t.r.l);
    LikeRefl(t.r.r);
    LikeAVL(r, RotL(t));
  }

  lemma RotRShape(t: Tree, r: Tree)
    requires t.Br? && t.l.Br? && r.Br? && r.r.Br? && r.r.r == t.r && r.r.l == t.l.r && r.l == t.l.l
    ensures Like(r, RotR(t)) && H(r) == H(RotR(t)) && AVL(r) == AVL(RotR(t))
  {
    LikeRefl(t.r);
    LikeRefl(t.l.r);
    LikeRefl(t.l.l);
    LikeAVL(r, RotR(t));
  }

  /** One pass of the loop in AVLTree.Balance at the cell t: refresh its cached values;
      when it is two higher on the left, rotate right (first rotating the left child
      left when that child leans right), and symmetrically on the right. */
  function Fix(t: Tree): (r: Tree)
    requires t.Br?
    ensures Keys(r) == Keys(t)
  {
    var u := Update(t);
    if Balance(u) >= 2 && Balance(u.l) >= 0 then Rotate(false, u)
    else if Balance(u) >= 2 then Rotate(false, Br(Rotate(true, u.l), u.n, u.r))
    else if Balance(u) <= -2 && Balance(u.r) <= 0 then Rotate(true, u)
    else if Balance(u) <= -2 then Rotate(true, Br(u.l, u.n, Rotate(false, u.r)))
    else u
  }

  /** A pending cell (see Heights.Pending) comes out of Fix balanced, with valid cached
      values and a height within one of the height its position had before. */
  lemma FixFacts(t: Tree, h0: int, hl0: int, hr0: int)
    requires t.Br? && Cached(t.l) && Cached(t.r) && AVL(t.l) && AVL(t.r)
    requires Pending(H(t.l), H(t.r), h0, hl0, hr0)
    ensures Cached(Fix(t)) && AVL(Fix(t)) && -1 <= H(Fix(t)) - h0 <= 1
  {
    var u := Update(t);
    CachedMeans(t.l);
    CachedMeans(t.r);
    PendingBalance(H(t.l), H(t.r), h0, hl0, hr0);
    assert Balance(u) == H(t.l) - H(t.r);
    if Balance(u) >= 2 {
      FixLeftHeavy(u);
      PendingStep(H(t.l), H(t.r), h0, hl0, hr0, H(Fix(t)));
    } else if Balance(u) <= -2 {
      FixRightHeavy(u);
      PendingStep(H(t.l), H(t.r), h0, hl0, hr0, H(Fix(t)));
    } else {
      assert Fix(t) == u;
      PendingStep(H(t.l), H(t.r), h0, hl0, hr0, H(u));
    }
  }

  lemma FixLeftHeavy(u: Tree)
    requires u.Br? && Cached(u.l) && Cached(u.r) && AVL(u.l) && AVL(u.r) && H(u.l) == H(u.r) + 2
    requires Ht(u.l) == H(u.l) && Ht(u.r) == H(u.r)
    ensures u.l.Br?
    ensures var r := if Balance(u.l) >= 0 then Rotate(false, u) else Rotate(false, Br(Rotate(true, u.l), u.n, u.r));
            Cached(r) && AVL(r) && H(u.l) <= H(r) <= H(u.l) + 1
  {
    assert u.l.Br?;
    var l := u.l;
    CachedMeans(l.l);
    CachedMeans(l.r);
    assert Balance(u) == 2;
    if Balance(l) >= 0 {
      RotateLL(l, u.n, u.r);
      RotRShape(u, Rotate(false, u));
    } else {
      RotateLR(l, u.n, u.r);
      var v := Rotate(true, l);
      RotLShape(l, v);
      CachedMeans(v);
      var w := Br(v, u.n, u.r);
      assert Balance(w) == 2;
      var x := Rotate(false, w);
      RotRShape(w, x);
      LikeRefl(u.r);
      assert Like(RotR(w), RotR(Br(RotL(l), u.n, u.r)));
      LikeAVL(RotR(w), RotR(Br(RotL(l), u.n, u.r)));
    }
  }

  lemma FixRightHeavy(u: Tree)
    requires u.Br? && Cached(u.l) && Cached(u.r) && AVL(u.l) && AVL(u.r) && H(u.r) == H(u.l) + 2
    requires Ht(u.l) == H(u.l) && Ht(u.r) == H(u.r)
    ensures u.r.Br?
    ensures var r := if Balance(u.r) <= 0 then Rotate(true, u) else Rotate(true, Br(u.l, u.n, Rotate(false, u.r)));
            Cached(r) && AVL(r) && H(u.r) <= H(r) <= H(u.r) + 1
  {
    assert u.r.Br?;
    var r := u.r;
    CachedMeans(r.l);
    CachedMeans(r.r);
    assert Balance(u) == -2;
    if Balance(r) <= 0 {
      RotateRR(u.l, u.n, r);
      RotLShape(u, Rotate(true, u));
    } else {
      RotateRL(u.l, u.n, r);
      var v := Rotate(false, r);
      RotRShape(r, v);
      CachedMeans(v);
      var w := Br(u.l, u.n, v);
      assert Balance(w) == -2;
      var x := Rotate(true, w);
      RotLShape(w, x);
      LikeRefl(u.l);
      assert Like(RotL(w), RotL(Br(u.l, u.n, RotR(r))));
      LikeAVL(RotL(w), RotL(Br(u.l, u.n, RotR(r))));
    }
  }
}
