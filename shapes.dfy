/** The shape of a binary tree whose cells are identified by values of type N
    (in the model: references to AVLTreeNode), together with a zipper that cuts a
    tree into a hole and the path above it, and the link layout that a threaded
    tree must have: which parent, which left and right reference each cell holds,
    and whether each side is a real child or a wire to the in-order neighbour. */
module Shapes {
  import opened Wrappers

  datatype Shape<N> = Nil | Br(l: Shape<N>, n: N, r: Shape<N>)

  function Max(a: int, b: int): int {
    if a < b then b else a
  }

  ghost function Nodes<N>(s: Shape<N>): set<N> {
    match s
    case Nil => {}
    case Br(l, n, r) => Nodes(l) + {n} + Nodes(r)
  }

  ghost function Inorder<N>(s: Shape<N>): seq<N> {
    match s
    case Nil => []
    case Br(l, n, r) => Inorder(l) + [n] + Inorder(r)
  }

  ghost function Size<N>(s: Shape<N>): nat {
    match s
    case Nil => 0
    case Br(l, _, r) => Size(l) + Size(r) + 1
  }

  /** Height as the source counts it: an absent child has height 0, a leaf height 1. */
  ghost function H<N>(s: Shape<N>): nat {
    match s
    case Nil => 0
    case Br(l, _, r) => Max(H(l), H(r)) + 1
  }

  /** No cell occurs twice. */
  ghost predicate Distinct<N>(s: Shape<N>) {
    match s
    case Nil => true
    case Br(l, n, r) =>
      Distinct(l) && Distinct(r) && n !in Nodes(l) && n !in Nodes(r) && Nodes(l) !! Nodes(r)
  }

  ghost function Root<N>(s: Shape<N>): Option<N> {
    if s.Nil? then None else Some(s.n)
  }

  /** The cell reached by following real left children from the root. */
  ghost function First<N>(s: Shape<N>): N
    requires s.Br?
  {
    if s.l.Nil? then s.n else First(s.l)
  }

  ghost function Last<N>(s: Shape<N>): N
    requires s.Br?
  {
    if s.r.Nil? then s.n else Last(s.r)
  }

  /** Number of real left edges from the root to First(s). */
  ghost function LeftSpine<N>(s: Shape<N>): nat
    requires s.Br?
  {
    if s.l.Nil? then 0 else 1 + LeftSpine(s.l)
  }

  ghost function RightSpine<N>(s: Shape<N>): nat
    requires s.Br?
  {
    if s.r.Nil? then 0 else 1 + RightSpine(s.r)
  }

  /** s and s' have the same shape, whatever cells they hold. */
  ghost predicate Like<N>(s: Shape<N>, s': Shape<N>) {
    match s
    case Nil => s'.Nil?
    case Br(l, _, r) => s'.Br? && Like(l, s'.l) && Like(r, s'.r)
  }

  lemma {:induction false} LikeRefl<N>(s: Shape<N>)
    ensures Like(s, s)
  {
    if s.Br? {
      LikeRefl(s.l);
      LikeRefl(s.r);
    }
  }

  /** Left rotation: the right child c of a becomes the root, a its left child, and
      c's former left subtree moves under a. */
  ghost function RotL<N>(s: Shape<N>): Shape<N>
    requires s.Br? && s.r.Br?
  {
    Br(Br(s.l, s.n, s.r.l), s.r.n, s.r.r)
  }

  ghost function RotR<N>(s: Shape<N>): Shape<N>
    requires s.Br? && s.l.Br?
  {
    Br(s.l.l, s.l.n, Br(s.l.r, s.n, s.r))
  }

  /** One step of the path from a hole up to the root: the hole is the left child of n
      when isLeft holds, and other is n's child on the far side. */
  datatype Frame<N> = Frame(isLeft: bool, n: N, other: Shape<N>)

  function Up<N>(f: Frame<N>, s: Shape<N>): Shape<N> {
    if f.isLeft then Br(s, f.n, f.other) else Br(f.other, f.n, s)
  }

  /** Fills the hole of ctx (innermost frame first) with s. */
  function Plug<N>(ctx: seq<Frame<N>>, s: Shape<N>): Shape<N>
    decreases |ctx|
  {
    if ctx == [] then s else Plug(ctx[1..], Up(ctx[0], s))
  }

  ghost function CtxNodes<N>(ctx: seq<Frame<N>>): set<N>
    decreases |ctx|
  {
    if ctx == [] then {} else {ctx[0].n} + Nodes(ctx[0].other) + CtxNodes(ctx[1..])
  }

  /** The cells of Plug(ctx, _) that come before the hole in in-order. */
  ghost function CtxPre<N>(ctx: seq<Frame<N>>): seq<N>
    decreases |ctx|
  {
    if ctx == [] then []
    else if ctx[0].isLeft then CtxPre(ctx[1..])
    else CtxPre(ctx[1..]) + Inorder(ctx[0].other) + [ctx[0].n]
  }

  /** The cells of Plug(ctx, _) that come after the hole in in-order. */
  ghost function CtxPost<N>(ctx: seq<Frame<N>>): seq<N>
    decreases |ctx|
  {
    if ctx == [] then []
    else if ctx[0].isLeft then [ctx[0].n] + Inorder(ctx[0].other) + CtxPost(ctx[1..])
    else CtxPost(ctx[1..])
  }

  ghost predicate CtxDistinct<N>(ctx: seq<Frame<N>>)
    decreases |ctx|
  {
    ctx == [] ||
    (Distinct(ctx[0].other) && ctx[0].n !in Nodes(ctx[0].other) &&
     ctx[0].n !in CtxNodes(ctx[1..]) && Nodes(ctx[0].other) !! CtxNodes(ctx[1..]) &&
     CtxDistinct(ctx[1..]))
  }

  /** The parent, in-order predecessor and in-order successor that a subtree sitting in
      the hole of ctx sees, given those seen by the whole of Plug(ctx, _). */
  ghost function ParentOf<N>(ctx: seq<Frame<N>>, par: Option<N>): Option<N> {
    if ctx == [] then par else Some(ctx[0].n)
  }

  ghost function PredOf<N>(ctx: seq<Frame<N>>, pred: Option<N>): Option<N>
    decreases |ctx|
  {
    if ctx == [] then pred
    else if ctx[0].isLeft then PredOf(ctx[1..], pred)
    else Some(ctx[0].n)
  }

  ghost function SuccOf<N>(ctx: seq<Frame<N>>, succ: Option<N>): Option<N>
    decreases |ctx|
  {
    if ctx == [] then succ
    else if ctx[0].isLeft then Some(ctx[0].n)
    else SuccOf(ctx[1..], succ)
  }

  /** The links one cell of a threaded tree must hold: its parent, its left reference
      and whether that is a real child (otherwise a wire to the in-order predecessor,
      or nothing), and the same on the right. */
  datatype Expect<N> = Expect(parent: Option<N>, left: Option<N>, leftReal: bool,
                              right: Option<N>, rightReal: bool)

  /** The links cell x of s must hold when s hangs below par and sits between the
      in-order neighbours pred and succ. */
  ghost function Exp<N>(s: Shape<N>, par: Option<N>, pred: Option<N>, succ: Option<N>, x: N): Expect<N>
    requires x in Nodes(s)
  {
    var Br(l, n, r) := s;
    if x == n then
      Expect(par, if l.Nil? then pred else Some(l.n), l.Br?,
                  if r.Nil? then succ else Some(r.n), r.Br?)
    else if x in Nodes(l) then Exp(l, Some(n), pred, Some(n), x)
    else Exp(r, Some(n), Some(n), succ, x)
  }

  // ---------------------------------------------------------------------------
  // Basic facts

  lemma {:induction false} FirstLastIn<N>(s: Shape<N>)
    requires s.Br?
    ensures First(s) in Nodes(s) && Last(s) in Nodes(s)
    ensures s.l.Br? ==> First(s) in Nodes(s.l)
    ensures s.r.Br? ==> Last(s) in Nodes(s.r)
    ensures Inorder(s)[0] == First(s) && Inorder(s)[|Inorder(s)| - 1] == Last(s)
  {
    if s.l.Br? {
      FirstLastIn(s.l);
    }
    if s.r.Br? {
      FirstLastIn(s.r);
    }
  }

  lemma {:induction false} SpineBelowHeight<N>(s: Shape<N>)
    requires s.Br?
    ensures LeftSpine(s) < H(s) && RightSpine(s) < H(s)
  {
    if s.l.Br? {
      SpineBelowHeight(s.l);
    }
    if s.r.Br? {
      SpineBelowHeight(s.r);
    }
  }

  lemma RotLFacts<N>(s: Shape<N>)
    requires s.Br? && s.r.Br?
    ensures Nodes(RotL(s)) == Nodes(s) && Inorder(RotL(s)) == Inorder(s) && Size(RotL(s)) == Size(s)
    ensures Distinct(s) ==> Distinct(RotL(s))
  {
    var A, a, B, c, D := s.l, s.n, s.r.l, s.r.n, s.r.r;
    assert s == Br(A, a, Br(B, c, D)) && RotL(s) == Br(Br(A, a, B), c, D);
    RotNodes(A, a, B, c, D);
    RotInorder(A, a, B, c, D);
    if Distinct(s) {
      DistinctBr(A, a, B);
      DistinctBr(Br(A, a, B), c, D);
    }
  }

  lemma RotRFacts<N>(s: Shape<N>)
    requires s.Br? && s.l.Br?
    ensures Nodes(RotR(s)) == Nodes(s) && Inorder(RotR(s)) == Inorder(s) && Size(RotR(s)) == Size(s)
    ensures Distinct(s) ==> Distinct(RotR(s))
  {
    var A, c, B, a, D := s.l.l, s.l.n, s.l.r, s.n, s.r;
    assert s == Br(Br(A, c, B), a, D) && RotR(s) == Br(A, c, Br(B, a, D));
    RotNodes(A, c, B, a, D);
    RotInorder(A, c, B, a, D);
    if Distinct(s) {
      assert Distinct(Br(A, c, B)) && a !in Nodes(Br(A, c, B)) && Nodes(Br(A, c, B)) !! Nodes(D);
      DistinctBr(B, a, D);
      assert Nodes(Br(B, a, D)) == Nodes(B) + {a} + Nodes(D);
      DistinctBr(A, c, Br(B, a, D));
    }
  }

  lemma RotNodes<N>(A: Shape<N>, a: N, B: Shape<N>, c: N, D: Shape<N>)
    ensures Nodes(Br(Br(A, a, B), c, D)) == Nodes(Br(A, a, Br(B, c, D)))
    ensures Size(Br(Br(A, a, B), c, D)) == Size(Br(A, a, Br(B, c, D)))
  {
  }

  lemma RotInorder<N>(A: Shape<N>, a: N, B: Shape<N>, c: N, D: Shape<N>)
    ensures Inorder(Br(Br(A, a, B), c, D)) == Inorder(Br(A, a, Br(B, c, D)))
  {
    assert Inorder(Br(Br(A, a, B), c, D)) == Inorder(A) + [a] + Inorder(B) + [c] + Inorder(D);
  }

  lemma DistinctBr<N>(l: Shape<N>, n: N, r: Shape<N>)
    requires Distinct(l) && Distinct(r) && n !in Nodes(l) && n !in Nodes(r) && Nodes(l) !! Nodes(r)
    ensures Distinct(Br(l, n, r))
  {
  }

  // ---------------------------------------------------------------------------
  // The zipper

  lemma {:induction false} PlugNodes<N>(ctx: seq<Frame<N>>, s: Shape<N>)
    ensures Nodes(Plug(ctx, s)) == Nodes(s) + CtxNodes(ctx)
    decreases |ctx|
  {
    if ctx != [] {
      PlugNodes(ctx[1..], Up(ctx[0], s));
    }
  }

  /** Regrouping of sequence concatenations, kept apart so that the proofs using them
      stay small. */
  lemma Assoc<T>(a: seq<T>, b: seq<T>, c: seq<T>)
    ensures (a + b) + c == a + (b + c)
  {
  }

  lemma Regroup5<T>(a: seq<T>, b: seq<T>, m: seq<T>, c: seq<T>, d: seq<T>)
    ensures a + (b + m + c) + d == (a + b) + m + (c + d)
  {
  }

  lemma Regroup4<T>(a: seq<T>, b: seq<T>, c: seq<T>, d: seq<T>)
    ensures a + (b + c) + d == (a + b) + (c + d)
  {
  }

  lemma HoleLeft<T>(a: seq<T>, b: seq<T>, m: seq<T>, c: seq<T>, d: seq<T>)
    ensures a + (b + m + c) + d == a + b + (m + c + d)
  {
  }

  lemma HoleRight<T>(a: seq<T>, c: seq<T>, m: seq<T>, b: seq<T>, d: seq<T>)
    ensures a + (c + m + b) + d == (a + c + m) + b + d
  {
  }

  lemma {:induction false} PlugInorder<N>(ctx: seq<Frame<N>>, s: Shape<N>)
    ensures Inorder(Plug(ctx, s)) == CtxPre(ctx) + Inorder(s) + CtxPost(ctx)
    decreases |ctx|
  {
    if ctx != [] {
      var f, rest := ctx[0], ctx[1..];
      PlugInorder(rest, Up(f, s));
      if f.isLeft {
        HoleLeft(CtxPre(rest), Inorder(s), [f.n], Inorder(f.other), CtxPost(rest));
      } else {
        HoleRight(CtxPre(rest), Inorder(f.other), [f.n], Inorder(s), CtxPost(rest));
      }
    }
  }

  lemma {:induction false} PlugDistinct<N>(ctx: seq<Frame<N>>, s: Shape<N>)
    ensures Distinct(Plug(ctx, s)) <==> Distinct(s) && CtxDistinct(ctx) && Nodes(s) !! CtxNodes(ctx)
    decreases |ctx|
  {
    if ctx != [] {
      PlugDistinct(ctx[1..], Up(ctx[0], s));
    }
  }

  lemma {:induction false} PlugConcat<N>(c1: seq<Frame<N>>, c2: seq<Frame<N>>, s: Shape<N>)
    ensures Plug(c1 + c2, s) == Plug(c2, Plug(c1, s))
    decreases |c1|
  {
    if c1 != [] {
      assert (c1 + c2)[0] == c1[0] && (c1 + c2)[1..] == c1[1..] + c2;
      PlugConcat(c1[1..], c2, Up(c1[0], s));
    } else {
      assert c1 + c2 == c2;
    }
  }

  lemma {:induction false} SuccOfPost<N>(ctx: seq<Frame<N>>, succ: Option<N>)
    ensures SuccOf(ctx, succ) == if CtxPost(ctx) == [] then succ else Some(CtxPost(ctx)[0])
    decreases |ctx|
  {
    if ctx != [] {
      SuccOfPost(ctx[1..], succ);
    }
  }

  /** Moving the hole down into a left subtree keeps the cells from the hole on. */
  lemma PostLeft<N>(ctx: seq<Frame<N>>, s: Shape<N>)
    requires s.Br?
    ensures Inorder(s) + CtxPost(ctx) == Inorder(s.l) + CtxPost([Frame(true, s.n, s.r)] + ctx)
  {
    assert ([Frame(true, s.n, s.r)] + ctx)[1..] == ctx;
  }

  /** Moving the hole down into a right subtree leaves the cells after the hole as they are. */
  lemma PostRight<N>(ctx: seq<Frame<N>>, s: Shape<N>)
    requires s.Br?
    ensures CtxPost([Frame(false, s.n, s.l)] + ctx) == CtxPost(ctx)
  {
    assert ([Frame(false, s.n, s.l)] + ctx)[1..] == ctx;
  }

  /** A subtree without a left subtree starts with its root. */
  lemma RootFirst<N>(ctx: seq<Frame<N>>, s: Shape<N>)
    requires s.Br? && s.l.Nil?
    ensures Inorder(s) + CtxPost(ctx) == [s.n] + (Inorder(s.r) + CtxPost(ctx))
  {
  }

  /** The first cell after the hole of ctx is the root of a subtree of the same tree
      whose left part holds the hole, so the cells after the hole are that cell, its
      right subtree, and the cells after it. */
  ghost function SuccAt<N>(ctx: seq<Frame<N>>, s: Shape<N>): (r: (seq<Frame<N>>, Shape<N>))
    requires CtxPost(ctx) != []
    ensures r.1.Br? && Plug(r.0, r.1) == Plug(ctx, s) && r.1.n == CtxPost(ctx)[0]
    ensures CtxPost(ctx) == [r.1.n] + Inorder(r.1.r) + CtxPost(r.0)
    decreases |ctx|
  {
    if ctx[0].isLeft then (ctx[1..], Up(ctx[0], s)) else SuccAt(ctx[1..], Up(ctx[0], s))
  }

  /** A cell inside the hole sees the links the hole's boundary gives it. */
  lemma {:induction false} ExpInPlug<N>(ctx: seq<Frame<N>>, s: Shape<N>, par: Option<N>, pred: Option<N>, succ: Option<N>, x: N)
    requires Distinct(Plug(ctx, s)) && x in Nodes(s)
    ensures x in Nodes(Plug(ctx, s))
    ensures Exp(Plug(ctx, s), par, pred, succ, x)
         == Exp(s, ParentOf(ctx, par), PredOf(ctx, pred), SuccOf(ctx, succ), x)
    decreases |ctx|
  {
    PlugNodes(ctx, s);
    if ctx != [] {
      var u := Up(ctx[0], s);
      PlugDistinct(ctx[1..], u);
      ExpInPlug(ctx[1..], u, par, pred, succ, x);
    }
  }

  /** A cell outside the hole sees the same links whatever fills the hole, except that
      the cell just above the hole also needs the hole's root to stay the same. */
  lemma {:induction false} ExpOutside<N>(ctx: seq<Frame<N>>, s: Shape<N>, s': Shape<N>,
                      par: Option<N>, pred: Option<N>, succ: Option<N>, x: N)
    requires Distinct(Plug(ctx, s)) && Distinct(Plug(ctx, s'))
    requires x in CtxNodes(ctx)
    requires ctx != [] && x == ctx[0].n ==> Root(s) == Root(s')
    ensures x in Nodes(Plug(ctx, s)) && x in Nodes(Plug(ctx, s'))
    ensures Exp(Plug(ctx, s), par, pred, succ, x) == Exp(Plug(ctx, s'), par, pred, succ, x)
    decreases |ctx|
  {
    PlugNodes(ctx, s);
    PlugNodes(ctx, s');
    var u, u' := Up(ctx[0], s), Up(ctx[0], s');
    PlugDistinct(ctx, s);
    PlugDistinct(ctx, s');
    PlugDistinct(ctx[1..], u);
    PlugDistinct(ctx[1..], u');
    if x in Nodes(u) {
      ExpInPlug(ctx[1..], u, par, pred, succ, x);
      ExpInPlug(ctx[1..], u', par, pred, succ, x);
    } else {
      ExpOutside(ctx[1..], u, u', par, pred, succ, x);
    }
  }

  /** Changing the boundary of s changes only the parent of its root, the left link of
      First(s) and the right link of Last(s). */
  lemma ExpBounds<N>(s: Shape<N>, par: Option<N>, pred: Option<N>, succ: Option<N>,
                     par': Option<N>, pred': Option<N>, succ': Option<N>, x: N)
    requires Distinct(s) && x in Nodes(s)
    ensures Exp(s, par', pred', succ', x)
         == Exp(s, par, pred, succ, x).(
              parent := if x == s.n then par' else Exp(s, par, pred, succ, x).parent,
              left := if x == First(s) then pred' else Exp(s, par, pred, succ, x).left,
              right := if x == Last(s) then succ' else Exp(s, par, pred, succ, x).right)
  {
    ExpParent(s, par, pred, succ, par', x);
    ExpPred(s, par', pred, succ, pred', x);
    ExpSucc(s, par', pred', succ, succ', x);
  }

  lemma ExpParent<N>(s: Shape<N>, par: Option<N>, pred: Option<N>, succ: Option<N>, par': Option<N>, x: N)
    requires Distinct(s) && x in Nodes(s)
    ensures Exp(s, par', pred, succ, x)
         == Exp(s, par, pred, succ, x).(parent := if x == s.n then par' else Exp(s, par, pred, succ, x).parent)
  {
  }

  lemma {:induction false} ExpPred<N>(s: Shape<N>, par: Option<N>, pred: Option<N>, succ: Option<N>, pred': Option<N>, x: N)
    requires Distinct(s) && x in Nodes(s)
    ensures Exp(s, par, pred', succ, x)
         == Exp(s, par, pred, succ, x).(left := if x == First(s) then pred' else Exp(s, par, pred, succ, x).left)
  {
    var Br(l, n, r) := s;
    FirstLastIn(s);
    if x != n && x in Nodes(l) {
      ExpPred(l, Some(n), pred, Some(n), pred', x);
    }
  }

  lemma {:induction false} ExpSucc<N>(s: Shape<N>, par: Option<N>, pred: Option<N>, succ: Option<N>, succ': Option<N>, x: N)
    requires Distinct(s) && x in Nodes(s)
    ensures Exp(s, par, pred, succ', x)
         == Exp(s, par, pred, succ, x).(right := if x == Last(s) then succ' else Exp(s, par, pred, succ, x).right)
  {
    var Br(l, n, r) := s;
    FirstLastIn(s);
    if x != n && x !in Nodes(l) {
      ExpSucc(r, Some(n), Some(n), succ, succ', x);
    }
  }

  /** A left rotation keeps the links of every cell other than the two rotated ones,
      except that the root of the crossing subtree gets a new parent. */
  lemma ExpRotL<N>(s: Shape<N>, par: Option<N>, pred: Option<N>, succ: Option<N>, x: N)
    requires s.Br? && s.r.Br? && Distinct(s) && x in Nodes(s) && x != s.n && x != s.r.n
    ensures x in Nodes(RotL(s))
    ensures Exp(RotL(s), par, pred, succ, x)
         == if s.r.l.Br? && x == s.r.l.n then Exp(s, par, pred, succ, x).(parent := Some(s.n))
            else Exp(s, par, pred, succ, x)
  {
    var Br(A, a, Br(B, c, D)) := s;
    if x in Nodes(B) {
      ExpBounds(B, Some(c), Some(a), Some(c), Some(a), Some(a), Some(c), x);
    }
  }

  lemma ExpRotR<N>(s: Shape<N>, par: Option<N>, pred: Option<N>, succ: Option<N>, x: N)
    requires s.Br? && s.l.Br? && Distinct(s) && x in Nodes(s) && x != s.n && x != s.l.n
    ensures x in Nodes(RotR(s))
    ensures Exp(RotR(s), par, pred, succ, x)
         == if s.l.r.Br? && x == s.l.r.n then Exp(s, par, pred, succ, x).(parent := Some(s.n))
            else Exp(s, par, pred, succ, x)
  {
    var Br(Br(A, c, B), a, D) := s;
    if x in Nodes(B) {
      ExpBounds(B, Some(c), Some(c), Some(a), Some(a), Some(c), Some(a), x);
    }
  }

  /** Every link Exp gives a cell of s is a bound of s or a cell of s. */
  lemma {:induction false} ExpLinksIn<N>(s: Shape<N>, par: Option<N>, pred: Option<N>, succ: Option<N>, x: N)
    requires x in Nodes(s)
    ensures var e := Exp(s, par, pred, succ, x);
            (e.left == pred || (e.left.Some? && e.left.value in Nodes(s))) &&
            (e.right == succ || (e.right.Some? && e.right.value in Nodes(s)))
    decreases s
  {
    var Br(l, n, r) := s;
    if x != n {
      if x in Nodes(l) {
        ExpLinksIn(l, Some(n), pred, Some(n), x);
      } else {
        ExpLinksIn(r, Some(n), Some(n), succ, x);
      }
    }
  }

  /** Hanging a leaf n in the empty place of ctx changes the links of two cells: the
      cell p above the place gets n as its real child on that side, and n gets p as its
      parent, the wire p had on that side, and a wire back to p on the other. */
  lemma LeafLinks<N>(ctx: seq<Frame<N>>, n: N)
    requires ctx != [] && Distinct(Plug(ctx, Br(Nil, n, Nil)))
    ensures Distinct(Plug(ctx, Nil)) && n !in Nodes(Plug(ctx, Nil)) && ctx[0].n != n
    ensures Nodes(Plug(ctx, Br(Nil, n, Nil))) == Nodes(Plug(ctx, Nil)) + {n}
    ensures ctx[0].n in Nodes(Plug(ctx, Nil))
    ensures var p, e := ctx[0].n, Exp(Plug(ctx, Nil), None, None, None, ctx[0].n);
            e.left != Some(n) && e.right != Some(n) && (if ctx[0].isLeft then !e.leftReal else !e.rightReal) &&
            Exp(Plug(ctx, Br(Nil, n, Nil)), None, None, None, p)
              == (if ctx[0].isLeft then e.(left := Some(n), leftReal := true) else e.(right := Some(n), rightReal := true)) &&
            Exp(Plug(ctx, Br(Nil, n, Nil)), None, None, None, n)
              == Expect(Some(p), if ctx[0].isLeft then e.left else Some(p), false,
                                 if ctx[0].isLeft then Some(p) else e.right, false)
  {
    var leaf: Shape<N> := Br(Nil, n, Nil);
    var f, above := ctx[0], ctx[1..];
    var u, v := Up(f, Nil), Up(f, leaf);
    PlugDistinct(ctx, leaf);
    PlugDistinct(ctx, Nil);
    PlugNodes(ctx, leaf);
    PlugNodes(ctx, Nil);
    PlugDistinct(above, u);
    PlugDistinct(above, v);
    ExpLinksIn(Plug(ctx, Nil), None, None, None, f.n);
    ExpInPlug(above, u, None, None, None, f.n);
    ExpInPlug(above, v, None, None, None, f.n);
    ExpInPlug(above, v, None, None, None, n);
  }

  /** The links of every other cell stay as they were when a leaf is hung in. */
  lemma LeafExp<N>(ctx: seq<Frame<N>>, n: N, x: N)
    requires ctx != [] && Distinct(Plug(ctx, Br(Nil, n, Nil))) && x in Nodes(Plug(ctx, Nil))
    requires x != n && x != ctx[0].n
    ensures x in Nodes(Plug(ctx, Br(Nil, n, Nil)))
    ensures Exp(Plug(ctx, Br(Nil, n, Nil)), None, None, None, x) == Exp(Plug(ctx, Nil), None, None, None, x)
  {
    var leaf: Shape<N> := Br(Nil, n, Nil);
    var f, above := ctx[0], ctx[1..];
    var u, v := Up(f, Nil), Up(f, leaf);
    PlugDistinct(ctx, leaf);
    PlugDistinct(ctx, Nil);
    PlugNodes(ctx, leaf);
    PlugNodes(ctx, Nil);
    PlugDistinct(above, u);
    PlugDistinct(above, v);
    if x in Nodes(f.other) {
      ExpInPlug(above, u, None, None, None, x);
      ExpInPlug(above, v, None, None, None, x);
    } else {
      ExpOutside(above, u, v, None, None, None, x);
    }
  }

  /** The first cell of a threaded tree has a wire to the lower bound on its left, the
      last cell a wire to the upper bound on its right. */
  lemma {:induction false} ExpFirstLast<N>(s: Shape<N>, par: Option<N>, pred: Option<N>, succ: Option<N>)
    requires s.Br? && Distinct(s)
    ensures First(s) in Nodes(s) && Last(s) in Nodes(s)
    ensures Exp(s, par, pred, succ, First(s)).left == pred && !Exp(s, par, pred, succ, First(s)).leftReal
    ensures Exp(s, par, pred, succ, Last(s)).right == succ && !Exp(s, par, pred, succ, Last(s)).rightReal
    decreases s
  {
    FirstLastIn(s);
    if s.l.Br? {
      ExpFirstLast(s.l, Some(s.n), pred, Some(s.n));
      assert First(s) != s.n && First(s) in Nodes(s.l);
    }
    if s.r.Br? {
      ExpFirstLast(s.r, Some(s.n), Some(s.n), succ);
      assert Last(s) != s.n && Last(s) in Nodes(s.r);
      assert Last(s) !in Nodes(s.l);
    }
  }
}
