/** The inverse transform undoes the forward one up to the number of coefficients. */
module NttInverse {
  import opened Congruence
  import opened Montgomery
  import opened BitReversal
  import opened NttReference
  import opened Tables
  import NttTheory

  // ---------- the order of the inverse roots ----------

  lemma {:induction false} PaintPrefix(e: nat, h: nat)
    requires h <= e
    ensures BackwardPaint(e, h) <= BackwardPaint(e, e)
    decreases e - h
  {
    if h < e {
      PaintPrefix(e, h + 1);
    }
  }

  /** intt meets the nodes of height h with exactly the inverse roots that ntt used for them. */
  lemma PaintAt(e: nat, h: nat, b: nat)
    requires 0 < h <= e && b < Pow2(e - h)
    ensures RootStart(e, h) + b < |BackwardPaint(e, e)| == Pow2(e) - 1
    ensures BackwardPaint(e, e)[RootStart(e, h) + b] == Pow2(e - h) + b
  {
    assert Pow2(0) == 1;
    PaintPrefix(e, h);
    Pow2Double(e - h);
    hide Pow2;
    var before := BackwardPaint(e, h - 1);
    assert |before| == RootStart(e, h);
    assert BackwardPaint(e, h) == before + seq(Pow2(e - h), i => Pow2(e - h) + i);
    assert BackwardPaint(e, h)[|before| + b] == Pow2(e - h) + b;
  }

  /** The two weights of a node are inverse to each other. */
  ghost predicate InversePair(w: int, v: int, q: int) {
    && 0 <= w < 2 * q && 0 <= v < 2 * q
    && exists x, y :: Carries(w, x, q) && Carries(v, y, q) && Cong(x * y, 1, q)
  }

  /** w stands for x in the Montgomery domain. */
  ghost predicate Carries(w: int, x: int, q: int) {
    Cong(w, x * R, q)
  }

  lemma WeightsInverse(t: Derived, psi: int, psiInverse: int, h: nat, b: nat)
    requires Valid(t, psi, psiInverse) && 0 < h <= t.e && b < Pow2(t.e - h)
    ensures InversePair(Weight(t.root, Pow2(t.e - h) + b), Weight(t.rootInverse, RootStart(t.e, h) + b + 1), t.q)
  {
    hide *;
    PaintAt(t.e, h, b);
    NodeBelow(t.e, h, b);
    NodePair(t, psi, psiInverse, Pow2(t.e - h) + b, RootStart(t.e, h) + b);
  }

  lemma NodePair(t: Derived, psi: int, psiInverse: int, n: nat, p: nat)
    requires Valid(t, psi, psiInverse) && 0 < n < Pow2(t.e) && p < |BackwardPaint(t.e, t.e)| && BackwardPaint(t.e, t.e)[p] == n
    ensures InversePair(Weight(t.root, n), Weight(t.rootInverse, p + 1), t.q)
  {
    hide *;
    ValidRoots(t, psi, psiInverse);
    NttTheory.RootAt(t.root, psi, t.e, t.q, n);
    WeightAt(t, psi, psiInverse, p, n);
    InversePowers(psi, psiInverse, Rev(t.e, n), t.q);
    PairFrom(Weight(t.root, n), Weight(t.rootInverse, p + 1), Pow(psi, Rev(t.e, n)), Pow(psiInverse, Rev(t.e, n)), t.q);
  }

  lemma InversePowers(a: int, b: int, x: nat, q: int)
    requires Cong(a * b, 1, q)
    ensures Cong(Pow(a, x) * Pow(b, x), 1, q)
  {
    hide *;
    PowProduct(a, b, x);
    PowCong(a * b, 1, x, q);
    PowOne(x);
  }

  lemma WeightAt(t: Derived, psi: int, psiInverse: int, p: nat, n: nat)
    requires Valid(t, psi, psiInverse) && p < |BackwardPaint(t.e, t.e)| && BackwardPaint(t.e, t.e)[p] == n
    ensures var w := Weight(t.rootInverse, p + 1); 0 <= w < 2 * t.q && Cong(w, Pow(psiInverse, Rev(t.e, n)) * R, t.q)
  {
    hide Rev, Pow, Cong, Pow2, NegacyclicRoot, RootTable, MontModulus;
  }

  lemma PairFrom(w: int, v: int, x: int, y: int, q: int)
    requires 0 <= w < 2 * q && 0 <= v < 2 * q && Cong(w, x * R, q) && Cong(v, y * R, q) && Cong(x * y, 1, q)
    ensures InversePair(w, v, q)
  {
    assert Carries(w, x, q) && Carries(v, y, q);
  }

  lemma NodeBelow(e: nat, h: nat, b: nat)
    requires 0 < h <= e && b < Pow2(e - h)
    ensures 0 < Pow2(e - h) + b < Pow2(e)
  {
    Pow2Double(e - h);
    Pow2Monotone(e - h + 1, e);
  }

  // ---------- one butterfly ----------

  /** A backward butterfly on multiples of a forward butterfly's outputs returns twice the inputs. */
  lemma ButterflyUndo(x: int, y: int, w: int, v: int, u0: int, u1: int, c: int, q: int, k: int)
    requires MontModulus(q, k) && InversePair(w, v, q)
    requires 0 <= x < 2 * q && 0 <= y < 2 * q && 0 <= u0 < 2 * q && 0 <= u1 < 2 * q
    requires Cong(u0, c * LowerValue(Forward, x, y, w, q, k), q) && Cong(u1, c * UpperValue(Forward, x, y, w, q, k), q)
    ensures 0 <= LowerValue(Backward, u0, u1, v, q, k) < 2 * q && 0 <= UpperValue(Backward, u0, u1, v, q, k) < 2 * q
    ensures Cong(LowerValue(Backward, u0, u1, v, q, k), (2 * c) * x, q)
    ensures Cong(UpperValue(Backward, u0, u1, v, q, k), (2 * c) * y, q)
  {
    var a, b :| Carries(w, a, q) && Carries(v, b, q) && Cong(a * b, 1, q);
    hide Cong;
    NttTheory.ForwardButterfly(x, y, w, a, q, k);
    NttTheory.SumGuard(u0, u1, u1, q);
    var difference := SubGuard(u0, u1, 2 * q);
    MontLazy(v, difference, q, k);
    MontMeaning(MontMultScalar(v, difference, q, k), v, difference, q, k, b);
    UndoSum(x, y, a, u0, u1, LowerValue(Forward, x, y, w, q, k), UpperValue(Forward, x, y, w, q, k), c, q);
    UndoDifference(y, a, b, difference, u0 - u1, c, q);
    Trans(UpperValue(Backward, u0, u1, v, q, k), b * difference, (2 * c) * y, q);
    Trans(LowerValue(Backward, u0, u1, v, q, k), u0 + u1, (2 * c) * x, q);
  }

  lemma UndoSum(x: int, y: int, a: int, u0: int, u1: int, f0: int, f1: int, c: int, q: int)
    requires q > 0 && Cong(u0, c * f0, q) && Cong(u1, c * f1, q)
    requires Cong(f0, x + a * y, q) && Cong(f1, x + (-a) * y, q)
    ensures Cong(u0 + u1, (2 * c) * x, q) && Cong(u0 - u1, (2 * c) * (a * y), q)
  {
    hide *;
    Scale(c, f0, x + a * y, q);
    Scale(c, f1, x + (-a) * y, q);
    Trans(u0, c * f0, c * (x + a * y), q);
    Trans(u1, c * f1, c * (x + (-a) * y), q);
    Add(u0, c * (x + a * y), u1, c * (x + (-a) * y), q);
    Sub(u0, c * (x + a * y), u1, c * (x + (-a) * y), q);
    TwoTerms(c, x, a, y);
  }

  lemma TwoTerms(c: int, x: int, a: int, y: int)
    ensures c * (x + a * y) + c * (x + (-a) * y) == (2 * c) * x
    ensures c * (x + a * y) - c * (x + (-a) * y) == (2 * c) * (a * y)
  {
    var p := a * y;
    assert (-a) * y == -p;
    assert c * (x + p) == c * x + c * p && c * (x - p) == c * x - c * p;
  }

  lemma UndoDifference(y: int, a: int, b: int, difference: int, d: int, c: int, q: int)
    requires Cong(difference, d, q) && Cong(d, (2 * c) * (a * y), q) && Cong(a * b, 1, q)
    ensures Cong(b * difference, (2 * c) * y, q)
  {
    hide *;
    Trans(difference, d, (2 * c) * (a * y), q);
    Scale(b, difference, (2 * c) * (a * y), q);
    MulRight(a * b, 1, (2 * c) * y, q);
    Regroup(a, b, 2 * c, y);
    Trans(b * difference, b * ((2 * c) * (a * y)), (2 * c) * y, q);
  }

  lemma Regroup(a: int, b: int, c: int, y: int)
    ensures b * (c * (a * y)) == (a * b) * (c * y)
  {
    assert c * (a * y) == a * (c * y);
    assert b * (a * (c * y)) == (b * a) * (c * y);
  }

  // ---------- one level ----------

  /** Lazily reduced entries that are c times those of s modulo q. */
  ghost predicate Multiple(u: seq<int>, c: int, s: seq<int>, q: int) {
    InRange(u, 0, 2 * q) && CongSeq(u, c, s, q)
  }

  ghost function SplitBlock(s: seq<int>, w: int, q: int, k: int): (f: seq<int>)
    ensures |f| == 2 * (|s| / 2)
  {
    Half(Forward, s, false, w, q, k) + Half(Forward, s, true, w, q, k)
  }

  ghost function JoinBlock(u: seq<int>, v: int, q: int, k: int): (f: seq<int>)
    ensures |f| == 2 * (|u| / 2)
  {
    Half(Backward, u, false, v, q, k) + Half(Backward, u, true, v, q, k)
  }

  lemma BlockAt(kind: Kind, s: seq<int>, w: int, q: int, k: int, m: nat, j: nat)
    requires |s| == 2 * m && j < m
    ensures var f := if kind.Forward? then SplitBlock(s, w, q, k) else JoinBlock(s, w, q, k);
      f[j] == LowerValue(kind, s[j], s[m + j], w, q, k) && f[m + j] == UpperValue(kind, s[j], s[m + j], w, q, k)
  {
    hide LowerValue, UpperValue;
  }

  lemma BlockUndo(s: seq<int>, u: seq<int>, m: nat, w: int, v: int, c: int, q: int, k: int)
    requires MontModulus(q, k) && InversePair(w, v, q) && |s| == 2 * m && InRange(s, 0, 2 * q)
    requires Multiple(u, c, SplitBlock(s, w, q, k), q)
    ensures Multiple(JoinBlock(u, v, q, k), 2 * c, s, q)
  {
    hide LowerValue, UpperValue, Cong, MontModulus, InversePair, SplitBlock, JoinBlock;
    var f, y := SplitBlock(s, w, q, k), JoinBlock(u, v, q, k);
    forall i | 0 <= i < |y| ensures 0 <= y[i] < 2 * q && Cong(y[i], (2 * c) * s[i], q) {
      var j := if i < m then i else i - m;
      BlockAt(Forward, s, w, q, k, m, j);
      BlockAt(Backward, u, v, q, k, m, j);
      ButterflyUndo(s[j], s[m + j], w, v, u[j], u[m + j], c, q, k);
    }
  }

  lemma MultipleConcat(u1: seq<int>, u2: seq<int>, c: int, s1: seq<int>, s2: seq<int>, q: int)
    requires |u1| == |s1|
    ensures Multiple(u1 + u2, c, s1 + s2, q) <==> Multiple(u1, c, s1, q) && Multiple(u2, c, s2, q)
  {
    hide Cong;
    if Multiple(u1 + u2, c, s1 + s2, q) {
      forall i | 0 <= i < |u1| ensures 0 <= u1[i] < 2 * q && Cong(u1[i], c * s1[i], q) {
        assert (u1 + u2)[i] == u1[i] && (s1 + s2)[i] == s1[i];
      }
      forall i | 0 <= i < |u2| ensures 0 <= u2[i] < 2 * q && Cong(u2[i], c * s2[i], q) {
        assert (u1 + u2)[|u1| + i] == u2[i] && (s1 + s2)[|u1| + i] == s2[i];
      }
    }
  }

  lemma LevelCut(kind: Kind, s: seq<int>, count: nat, h: nat, n: nat, root: seq<int>, q: int, k: int)
    requires h > 0 && count > 0 && |s| == Times(count, Pow2(h))
    ensures |s| >= Pow2(h) == 2 * Pow2(h - 1) && |s[Pow2(h)..]| == Times(count - 1, Pow2(h))
    ensures s == s[..Pow2(h)] + s[Pow2(h)..]
    ensures var block := s[..Pow2(h)];
      Level(kind, s, h, n, root, q, k)
      == (Half(kind, block, false, Weight(root, n), q, k) + Half(kind, block, true, Weight(root, n), q, k))
         + Level(kind, s[Pow2(h)..], h, n + 1, root, q, k)
  {
    Pow2Double(h - 1);
    var block, rest := s[..Pow2(h)], s[Pow2(h)..];
    hide Half, Level, Weight;
    assert s == block + rest;
    LevelBlock(kind, block, rest, h, n, root, q, k);
    AssociateSeq(Half(kind, block, false, Weight(root, n), q, k), Half(kind, block, true, Weight(root, n), q, k),
              Level(kind, rest, h, n + 1, root, q, k));
  }

  /** One level of intt undoes the matching level of ntt, up to a factor of two. */
  lemma {:induction false} LevelUndo(t: Derived, psi: int, psiInverse: int, s: seq<int>, u: seq<int>, count: nat,
                                     h: nat, b: nat, c: int)
    requires Valid(t, psi, psiInverse) && 0 < h <= t.e && InRange(s, 0, 2 * t.q)
    requires |s| == |u| == Times(count, Pow2(h)) && b + count <= Pow2(t.e - h)
    ensures Multiple(u, c, Level(Forward, s, h, Pow2(t.e - h) + b, t.root, t.q, t.k), t.q)
      ==> Multiple(Level(Backward, u, h, RootStart(t.e, h) + b + 1, t.rootInverse, t.q, t.k), 2 * c, s, t.q)
    decreases count
  {
    hide *;
    var n, p := Pow2(t.e - h) + b, RootStart(t.e, h) + b + 1;
    if Multiple(u, c, Level(Forward, s, h, n, t.root, t.q, t.k), t.q) {
      if count == 0 {
        TimesNone(Pow2(h));
        LevelNone(Backward, u, s, h, p, t.rootInverse, t.q, t.k, 2 * c);
      } else {
        ValidModulus(t, psi, psiInverse);
        var size := Pow2(h);
        LevelCut(Forward, s, count, h, n, t.root, t.q, t.k);
        LevelCut(Backward, u, count, h, p, t.rootInverse, t.q, t.k);
        var w, v := Weight(t.root, n), Weight(t.rootInverse, p);
        RangeCut(s, size, 2 * t.q);
        MultipleConcat(u[..size], u[size..], c, SplitBlock(s[..size], w, t.q, t.k),
                       Level(Forward, s[size..], h, n + 1, t.root, t.q, t.k), t.q);
        BlockNames(s[..size], u[..size], w, v, t.q, t.k);
        WeightsInverse(t, psi, psiInverse, h, b);
        BlockUndo(s[..size], u[..size], Pow2(h - 1), w, v, c, t.q, t.k);
        LevelUndo(t, psi, psiInverse, s[size..], u[size..], count - 1, h, b + 1, c);
        MultipleConcat(JoinBlock(u[..size], v, t.q, t.k), Level(Backward, u[size..], h, p + 1, t.rootInverse, t.q, t.k),
                       2 * c, s[..size], s[size..], t.q);
      }
    }
  }

  lemma BlockNames(s: seq<int>, u: seq<int>, w: int, v: int, q: int, k: int)
    ensures SplitBlock(s, w, q, k) == Half(Forward, s, false, w, q, k) + Half(Forward, s, true, w, q, k)
    ensures JoinBlock(u, v, q, k) == Half(Backward, u, false, v, q, k) + Half(Backward, u, true, v, q, k)
  {
  }

  lemma RangeCut(s: seq<int>, i: nat, high: int)
    requires i <= |s| && InRange(s, 0, high)
    ensures InRange(s[..i], 0, high) && InRange(s[i..], 0, high)
  {
  }

  lemma LevelNone(kind: Kind, u: seq<int>, s: seq<int>, h: nat, n: nat, root: seq<int>, q: int, k: int, c: int)
    requires h > 0 && u == s == []
    ensures Multiple(Level(kind, u, h, n, root, q, k), c, s, q)
  {
  }

  // ---------- all levels ----------

  lemma {:induction false} LevelInRange(t: Derived, psi: int, psiInverse: int, s: seq<int>, count: nat, h: nat, b: nat)
    requires Valid(t, psi, psiInverse) && 0 < h <= t.e && InRange(s, 0, 2 * t.q)
    requires |s| == Times(count, Pow2(h)) && b + count <= Pow2(t.e - h)
    ensures InRange(Level(Forward, s, h, Pow2(t.e - h) + b, t.root, t.q, t.k), 0, 2 * t.q)
    decreases count
  {
    hide *;
    var n := Pow2(t.e - h) + b;
    if count == 0 {
      TimesNone(Pow2(h));
      LevelEmpty(Forward, s, h, n, t.root, t.q, t.k);
    } else {
      ValidModulus(t, psi, psiInverse);
      LevelCut(Forward, s, count, h, n, t.root, t.q, t.k);
      RangeCut(s, Pow2(h), 2 * t.q);
      NodeBelow(t.e, h, b);
      BlockInRange(t, psi, psiInverse, s[..Pow2(h)], Pow2(h - 1), n);
      LevelInRange(t, psi, psiInverse, s[Pow2(h)..], count - 1, h, b + 1);
      RangeConcat(Half(Forward, s[..Pow2(h)], false, Weight(t.root, n), t.q, t.k)
                  + Half(Forward, s[..Pow2(h)], true, Weight(t.root, n), t.q, t.k),
                  Level(Forward, s[Pow2(h)..], h, n + 1, t.root, t.q, t.k), 2 * t.q);
    }
  }

  lemma LevelEmpty(kind: Kind, s: seq<int>, h: nat, n: nat, root: seq<int>, q: int, k: int)
    requires h > 0 && s == []
    ensures InRange(Level(kind, s, h, n, root, q, k), 0, 2 * q)
  {
  }

  lemma BlockInRange(t: Derived, psi: int, psiInverse: int, s: seq<int>, m: nat, n: nat)
    requires Valid(t, psi, psiInverse) && |s| == 2 * m && InRange(s, 0, 2 * t.q) && 0 < n < Pow2(t.e)
    ensures InRange(Half(Forward, s, false, Weight(t.root, n), t.q, t.k)
                    + Half(Forward, s, true, Weight(t.root, n), t.q, t.k), 0, 2 * t.q)
  {
    NttTheory.RootAt(t.root, psi, t.e, t.q, n);
    hide Half, Weight, Pow2, Pow, Rev, Cong, RootTable, InverseTable;
    NttTheory.ForwardHalf(s, m, false, Weight(t.root, n), Pow(psi, Rev(t.e, n)), t.q, t.k);
    NttTheory.ForwardHalf(s, m, true, Weight(t.root, n), Pow(psi, Rev(t.e, n)), t.q, t.k);
  }

  lemma RangeConcat(a: seq<int>, b: seq<int>, high: int)
    requires InRange(a, 0, high) && InRange(b, 0, high)
    ensures InRange(a + b, 0, high)
  {
  }

  lemma {:induction false} SplitInRange(t: Derived, psi: int, psiInverse: int, s: seq<int>, h: nat)
    requires Valid(t, psi, psiInverse) && h <= t.e && |s| == Pow2(t.e) && InRange(s, 0, 2 * t.q)
    ensures InRange(Split(s, t.e, h, t.root, t.q, t.k), 0, 2 * t.q)
    decreases t.e - h
  {
    hide *;
    SplitStep(t, s, h);
    if h < t.e {
      SplitInRange(t, psi, psiInverse, s, h + 1);
      TimesPow2(t.e - h - 1, h + 1);
      LevelInRange(t, psi, psiInverse, Split(s, t.e, h + 1, t.root, t.q, t.k), Pow2(t.e - h - 1), h + 1, 0);
    }
  }

  lemma SplitStep(t: Derived, s: seq<int>, h: nat)
    requires h <= t.e
    ensures h == t.e ==> Split(s, t.e, h, t.root, t.q, t.k) == s
    ensures h < t.e ==>
      Split(s, t.e, h, t.root, t.q, t.k)
      == Level(Forward, Split(s, t.e, h + 1, t.root, t.q, t.k), h + 1, Pow2(t.e - h - 1), t.root, t.q, t.k)
  {
  }

  lemma JoinStep(t: Derived, u: seq<int>, h: nat)
    requires h <= t.e
    ensures h == 0 ==> Joined(u, t.e, h, t.rootInverse, t.q, t.k) == u
    ensures h > 0 ==>
      Joined(u, t.e, h, t.rootInverse, t.q, t.k)
      == Level(Backward, Joined(u, t.e, h - 1, t.rootInverse, t.q, t.k), h, RootStart(t.e, h) + 1, t.rootInverse, t.q, t.k)
  {
  }

  /** Joining up to height h from multiples of the transform leaves multiples of the buffer that ntt
      had at that height, each level contributing a factor of two. */
  lemma {:induction false} JoinedUndo(t: Derived, psi: int, psiInverse: int, s: seq<int>, u: seq<int>, c: int, h: nat)
    requires Valid(t, psi, psiInverse) && h <= t.e && |s| == |u| == Pow2(t.e) && InRange(s, 0, 2 * t.q)
    ensures Multiple(u, c, Tree(s, t.e, 1, t.root, t.q, t.k), t.q)
      ==> Multiple(Joined(u, t.e, h, t.rootInverse, t.q, t.k), c * Pow2(h), Split(s, t.e, h, t.root, t.q, t.k), t.q)
    decreases h
  {
    hide *;
    JoinStep(t, u, h);
    if h == 0 {
      SplitAll(s, t.e, t.root, t.q, t.k);
      Pow2Double(0);
    } else if Multiple(u, c, Tree(s, t.e, 1, t.root, t.q, t.k), t.q) {
      JoinedUndo(t, psi, psiInverse, s, u, c, h - 1);
      SplitStep(t, s, h - 1);
      SplitInRange(t, psi, psiInverse, s, h);
      TimesPow2(t.e - h, h);
      LevelUndo(t, psi, psiInverse, Split(s, t.e, h, t.root, t.q, t.k), Joined(u, t.e, h - 1, t.rootInverse, t.q, t.k),
                Pow2(t.e - h), h, 0, c * Pow2(h - 1));
      DoubleFactor(c, h);
    }
  }

  lemma DoubleFactor(c: int, h: nat)
    requires h > 0
    ensures 2 * (c * Pow2(h - 1)) == c * Pow2(h)
  {
    Pow2Double(h - 1);
  }

  /** intt after ntt multiplies by the number of coefficients, for any representatives of any
      multiple of the transform. */
  lemma RoundTrip(t: Derived, psi: int, psiInverse: int, s: seq<int>, u: seq<int>, c: int)
    requires Valid(t, psi, psiInverse) && |s| == |u| == Pow2(t.e) && InRange(s, 0, 2 * t.q)
    requires Multiple(u, c, Tree(s, t.e, 1, t.root, t.q, t.k), t.q)
    ensures Multiple(Joined(u, t.e, t.e, t.rootInverse, t.q, t.k), c * Pow2(t.e), s, t.q)
  {
    hide *;
    JoinedUndo(t, psi, psiInverse, s, u, c, t.e);
    SplitStep(t, s, t.e);
  }
}
