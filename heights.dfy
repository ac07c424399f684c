/** Heights and AVL balance of tree shapes: the balance invariant, the bound it puts on
    the height of a tree with at most int.MaxValue cells, the four rebalancing
    rotations, and the bookkeeping the upward rebalancing walk needs. */
module Heights {
  import opened Shapes

  /** Every cell's subtrees differ in height by at most one. */
  ghost predicate AVL<N>(s: Shape<N>) {
    match s
    case Nil => true
    case Br(l, _, r) => AVL(l) && AVL(r) && -1 <= H(l) - H(r) <= 1
  }

  /** The balance invariant along a path: each sibling is balanced and differs by at most
      one from the height of the side holding the hole, h at the innermost frame. */
  ghost predicate CtxAVL<N>(ctx: seq<Frame<N>>, h: int)
    decreases |ctx|
  {
    ctx == [] ||
    (AVL(ctx[0].other) && -1 <= h - H(ctx[0].other) <= 1 &&
     CtxAVL(ctx[1..], 1 + Max(h, H(ctx[0].other))))
  }

  lemma {:induction false} PlugAVL<N>(ctx: seq<Frame<N>>, s: Shape<N>)
    requires AVL(Plug(ctx, s))
    ensures AVL(s) && CtxAVL(ctx, H(s))
    decreases |ctx|
  {
    if ctx != [] {
      PlugAVL(ctx[1..], Up(ctx[0], s));
    }
  }

  /** Height and balance depend on the shape alone. */
  lemma {:induction false} LikeAVL<N>(s: Shape<N>, s': Shape<N>)
    requires Like(s, s')
    ensures H(s) == H(s') && AVL(s) == AVL(s')
  {
    if s.Br? {
      LikeAVL(s.l, s'.l);
      LikeAVL(s.r, s'.r);
    }
  }

  // ---------------------------------------------------------------------------
  // Height bound

  function Pow2(k: nat): nat {
    if k == 0 then 1 else 2 * Pow2(k - 1)
  }

  lemma {:induction false} Pow2Add(a: nat, b: nat)
    ensures Pow2(a + b) == Pow2(a) * Pow2(b)
  {
    if a > 0 {
      calc {
        Pow2(a + b);
        2 * Pow2((a - 1) + b);
        { Pow2Add(a - 1, b); }
        2 * (Pow2(a - 1) * Pow2(b));
        (2 * Pow2(a - 1)) * Pow2(b);
      }
    }
  }

  lemma Pow2At32()
    ensures Pow2(32) == 0x1_0000_0000
  {
    assert Pow2(4) == 16;
    Pow2Add(4, 4);
    assert Pow2(8) == 256;
    Pow2Add(8, 8);
    assert Pow2(16) == 0x1_0000;
    Pow2Add(16, 16);
  }

  lemma {:induction false} Pow2Mono(a: nat, b: nat)
    requires a <= b
    ensures Pow2(a) <= Pow2(b)
  {
    if a < b {
      Pow2Mono(a, b - 1);
    }
  }

  /** An AVL tree of height h holds at least 2^(h/2) - 1 cells. */
  lemma {:induction false} AVLSize<N>(s: Shape<N>)
    requires AVL(s)
    ensures Pow2(H(s) / 2) <= Size(s) + 1
  {
    if s.Br? {
      AVLSize(s.l);
      AVLSize(s.r);
      var h := H(s);
      if h >= 2 {
        var k := (h - 2) / 2;
        assert h / 2 == k + 1;
        Pow2Mono(k, H(s.l) / 2);
        Pow2Mono(k, H(s.r) / 2);
      }
    }
  }

  /** A balanced tree with no more than int.MaxValue cells is at most 63 high. */
  lemma HeightBound<N>(s: Shape<N>)
    requires AVL(s) && Size(s) <= 0x7FFF_FFFF
    ensures H(s) <= 63
  {
    AVLSize(s);
    if H(s) > 63 {
      Pow2Mono(32, H(s) / 2);
      Pow2At32();
    }
  }

  /** GetFirst and GetLast give up after following more than 1001 real children; on a
      balanced tree of at most int.MaxValue cells both spines are far shorter. */
  lemma GuardNeverFires<N>(s: Shape<N>)
    requires s.Br? && AVL(s) && Size(s) <= 0x7FFF_FFFF
    ensures LeftSpine(s) <= 1001 && RightSpine(s) <= 1001
  {
    HeightBound(s);
    SpineBelowHeight(s);
  }

  // ---------------------------------------------------------------------------
  // Rebalancing rotations on a cell whose left side is two higher than its right

  /** Single right rotation (left-left case): the left child leans left or not at all. */
  lemma RotateLL<N>(l: Shape<N>, n: N, r: Shape<N>)
    requires l.Br? && AVL(l) && AVL(r) && H(l) == H(r) + 2 && H(l.l) >= H(l.r)
    ensures AVL(RotR(Br(l, n, r))) && H(l) <= H(RotR(Br(l, n, r))) <= H(l) + 1
  {
  }

  /** Double rotation (left-right case): the left child leans right, so it is rotated
      left first (its balance is -1, which that rotation accepts) and the cell is then
      rotated right (its balance is then 2, which that rotation accepts). */
  lemma RotateLR<N>(l: Shape<N>, n: N, r: Shape<N>)
    requires l.Br? && AVL(l) && AVL(r) && H(l) == H(r) + 2 && H(l.l) < H(l.r)
    ensures l.r.Br? && H(l.l) - H(l.r) == -1
    ensures RotL(l).Br? && H(RotL(l)) == H(l) && RotL(l).l.Br?
    ensures AVL(RotL(l).l) && AVL(RotL(l).r) && H(RotL(l).l) == H(l) - 1 && H(RotL(l).r) <= H(l) - 2
    ensures AVL(RotR(Br(RotL(l), n, r))) && H(RotR(Br(RotL(l), n, r))) == H(l)
  {
  }

  lemma RotateRR<N>(l: Shape<N>, n: N, r: Shape<N>)
    requires r.Br? && AVL(l) && AVL(r) && H(r) == H(l) + 2 && H(r.r) >= H(r.l)
    ensures AVL(RotL(Br(l, n, r))) && H(r) <= H(RotL(Br(l, n, r))) <= H(r) + 1
  {
  }

  lemma RotateRL<N>(l: Shape<N>, n: N, r: Shape<N>)
    requires r.Br? && AVL(l) && AVL(r) && H(r) == H(l) + 2 && H(r.r) < H(r.l)
    ensures r.l.Br? && H(r.l) - H(r.r) == 1
    ensures RotR(r).Br? && H(RotR(r)) == H(r) && RotR(r).r.Br?
    ensures AVL(RotR(r).r) && AVL(RotR(r).l) && H(RotR(r).r) == H(r) - 1 && H(RotR(r).l) <= H(r) - 2
    ensures AVL(RotL(Br(l, n, RotR(r)))) && H(RotL(Br(l, n, RotR(r)))) == H(r)
  {
  }

  // ---------------------------------------------------------------------------
  // The upward walk

  /** The state of a cell the rebalancing walk is about to visit: its subtrees now have
      heights hl and hr, while before the update its subtrees had heights hl0 and hr0
      (balanced, giving the cell height h0) and at most one side changed, by at most one.
      A freshly added leaf, which had no height before, is the first alternative. */
  ghost predicate Pending(hl: int, hr: int, h0: int, hl0: int, hr0: int) {
    (hl == 0 && hr == 0 && h0 == 0) ||
    (-1 <= hl0 - hr0 <= 1 && h0 == 1 + Max(hl0, hr0) &&
     -1 <= hl - hl0 <= 1 && -1 <= hr - hr0 <= 1 && (hl == hl0 || hr == hr0))
  }

  /** A pending cell is at most two out of balance. */
  lemma PendingBalance(hl: int, hr: int, h0: int, hl0: int, hr0: int)
    requires Pending(hl, hr, h0, hl0, hr0)
    ensures -2 <= hl - hr <= 2
  {
  }

  /** Whatever the walk does at a pending cell (nothing, or a rotation when the balance
      is two) leaves a subtree whose height is within one of the old height h0, so the
      parent is pending in its turn. */
  lemma {:induction false} PendingStep(hl: int, hr: int, h0: int, hl0: int, hr0: int, h': int)
    requires Pending(hl, hr, h0, hl0, hr0) && hl >= 0 && hr >= 0
    requires -1 <= hl - hr <= 1 ==> h' == 1 + Max(hl, hr)
    requires hl - hr == 2 ==> hl <= h' <= hl + 1
    requires hr - hl == 2 ==> hr <= h' <= hr + 1
    ensures -1 <= h' - h0 <= 1
  {
  }

  // ---------------------------------------------------------------------------
  // Heights along a path

  /** The height of Plug(ctx, s) for any s of height h. */
  ghost function CtxH<N>(ctx: seq<Frame<N>>, h: int): int
    decreases |ctx|
  {
    if ctx == [] then h else CtxH(ctx[1..], 1 + Max(h, H(ctx[0].other)))
  }

  /** A path cut in two is balanced exactly when its lower part is, and its upper part
      is for the height the lower part builds up. */
  lemma {:induction false} CtxAVLConcat<N>(c1: seq<Frame<N>>, c2: seq<Frame<N>>, h: int)
    ensures CtxAVL(c1 + c2, h) <==> CtxAVL(c1, h) && CtxAVL(c2, CtxH(c1, h))
    decreases |c1|
  {
    if c1 == [] {
      assert c1 + c2 == c2;
    } else {
      assert (c1 + c2)[0] == c1[0] && (c1 + c2)[1..] == c1[1..] + c2;
      CtxAVLConcat(c1[1..], c2, 1 + Max(h, H(c1[0].other)));
    }
  }

  lemma {:induction false} CtxHConcat<N>(c1: seq<Frame<N>>, c2: seq<Frame<N>>, h: int)
    ensures CtxH(c1 + c2, h) == CtxH(c2, CtxH(c1, h))
    decreases |c1|
  {
    if c1 == [] {
      assert c1 + c2 == c2;
    } else {
      assert (c1 + c2)[0] == c1[0] && (c1 + c2)[1..] == c1[1..] + c2;
      CtxHConcat(c1[1..], c2, 1 + Max(h, H(c1[0].other)));
    }
  }
}
