/** What the transforms compute: values at the odd powers of psi, and back.

    A node of the remainder tree is followed from the root down: its polynomial has the same value as
    its parent's at every point below it. */
module NttTheory {
  import opened Congruence
  import opened Montgomery
  import opened BitReversal
  import opened Polynomial
  import opened NttReference
  import opened Tables

  /** The point whose value ends up in slot j. */
  function Point(psi: int, e: nat, j: nat): int {
    Pow(psi, 2 * Rev(e, j) + 1)
  }

  lemma RootAt(root: seq<int>, psi: int, e: nat, q: int, n: nat)
    requires RootTable(root, psi, e, q) && 0 < n < Pow2(e)
    ensures 0 <= Weight(root, n) < 2 * q && Cong(Weight(root, n), Pow(psi, Rev(e, n)) * R, q)
  {
    assert Weight(root, n) == root[n - 1];
  }

  // ---------- one butterfly ----------

  /** One forward butterfly multiplies by the plain root and stays in [0, 2q) without wrapping. */
  lemma ForwardButterfly(x: int, y: int, w: int, root: int, q: int, k: int)
    requires MontModulus(q, k) && 0 <= x < 2 * q && 0 <= y < 2 * q
    requires 0 <= w < 2 * q && Cong(w, root * R, q)
    ensures 0 <= LowerValue(Forward, x, y, w, q, k) < 2 * q && 0 <= UpperValue(Forward, x, y, w, q, k) < 2 * q
    ensures Cong(LowerValue(Forward, x, y, w, q, k), x + root * y, q)
    ensures Cong(UpperValue(Forward, x, y, w, q, k), x + (-root) * y, q)
  {
    var p := MontMultScalar(w, y, q, k);
    MontLazy(w, y, q, k);
    MontMeaning(p, w, y, q, k, root);
    SumGuard(x, p, root * y, q);
    assert (-root) * y == -(root * y);
  }

  /** Lazily reduced sums and differences. */
  lemma SumGuard(x: int, p: int, v: int, q: int)
    requires 0 < q && 4 * q <= R && 0 <= x < 2 * q && 0 <= p < 2 * q && Cong(p, v, q)
    ensures 0 <= AddGuard(x, p, 2 * q) < 2 * q && Cong(AddGuard(x, p, 2 * q), x + v, q)
    ensures 0 <= SubGuard(x, p, 2 * q) < 2 * q && Cong(SubGuard(x, p, 2 * q), x - v, q)
  {
    hide Cong;
    Refl(x, q);
    Add(x, x, p, v, q);
    Sub(x, x, p, v, q);
    FromQuotient(x + p - 2 * q, x + p, q, -2);
    FromQuotient(x + 2 * q - p, x - p, q, 2);
    Trans(x + p - 2 * q, x + p, x + v, q);
    Trans(x + 2 * q - p, x - p, x - v, q);
  }

  lemma ForwardHalf(s: seq<int>, m: nat, upper: bool, w: int, root: int, q: int, k: int)
    requires MontModulus(q, k) && |s| == 2 * m && InRange(s, 0, 2 * q)
    requires 0 <= w < 2 * q && Cong(w, root * R, q)
    ensures InRange(Half(Forward, s, upper, w, q, k), 0, 2 * q)
    ensures forall i :: 0 <= i < m ==>
      Cong(Half(Forward, s, upper, w, q, k)[i], s[..m][i] + (if upper then -root else root) * s[m..][i], q)
  {
    hide LowerValue, UpperValue, Cong, MontModulus;
    forall i | 0 <= i < m
      ensures var v := Half(Forward, s, upper, w, q, k)[i];
        0 <= v < 2 * q && Cong(v, s[..m][i] + (if upper then -root else root) * s[m..][i], q)
    {
      ForwardButterfly(s[i], s[m + i], w, root, q, k);
    }
  }

  // ---------- the evaluation theorem ----------

  lemma {:induction false} PowMinusOne(c: nat, s: nat)
    requires c <= 1
    ensures Pow(-1, c + 2 * s) == if c == 0 then 1 else -1
  {
    if s > 0 {
      PowMinusOne(c, s - 1);
      assert Pow(-1, c + 2 * s) == -1 * Pow(-1, c + 2 * s - 1) == Pow(-1, c + 2 * (s - 1));
    } else {
      assert Pow(-1, 0) == 1;
    }
  }

  lemma ExponentSplit(m: nat, p: nat, r: nat, c: nat, s: nat)
    ensures (2 * (c * p + r + (2 * p) * s) + 1) * m == m * (2 * r + 1) + ((2 * p) * m) * (c + 2 * s)
  {
    assert (2 * ((2 * p) * s)) * m == ((2 * p) * m) * (2 * s);
    assert (2 * (c * p)) * m == ((2 * p) * m) * c;
  }

  /** The first of the 2^h slots below node number b of its level. */
  ghost predicate FirstSlot(base: nat, b: nat, h: nat) {
    base == b * Pow2(h)
  }

  lemma ChildSlot(base: nat, b: nat, c: nat, h: nat)
    requires h > 0 && c <= 1
    ensures FirstSlot(base, b, h) ==> FirstSlot(if c == 0 then base else base + Pow2(h - 1), 2 * b + c, h - 1)
  {
    Pow2Double(h - 1);
    assert (2 * b + c) * Pow2(h - 1) == b * (2 * Pow2(h - 1)) + c * Pow2(h - 1);
  }

  lemma RevBelow(e: nat, i: nat, high: nat, base: nat, o: nat)
    requires i <= e && o < Pow2(i)
    ensures FirstSlot(base, high, i) ==> Rev(e, base + o) == Rev(e - i, high) + Pow2(e - i) * Rev(i, o)
  {
    RevSplit(e, i, high, o);
  }

  /** The point's exponent, multiplied by the size of a half, in terms of the node above the slot. */
  lemma PointExponent(e: nat, level: nat, b: nat, c: nat, base: nat, o: nat)
    requires level < e && b < Pow2(level) && c <= 1 && o < Pow2(e - level - 1)
    ensures FirstSlot(base, 2 * b + c, e - level - 1) ==>
      (2 * Rev(e, base + o) + 1) * Pow2(e - level - 1)
      == Rev(e, Pow2(level) + b) + Pow2(e) * (c + 2 * Rev(e - level - 1, o))
  {
    hide *;
    RevBelow(e, e - level - 1, 2 * b + c, base, o);
    RevStep(level + 1, 2 * b + c);
    OneOrNothing(c, Pow2(level));
    DoubleSize(level, e - level - 1);
    RevNode(e, level, b);
    ExponentSplit(Pow2(e - level - 1), Pow2(level), Rev(level, b), c, Rev(e - level - 1, o));
  }

  /** Below the node with heap index 2^level + b, raising a slot's point to the size of a half gives
      the node's root, with the sign of the half. */
  lemma PointAtNode(psi: int, e: nat, q: int, h: nat, b: nat, c: nat, base: nat, o: nat)
    requires Cong(Pow(psi, Pow2(e)), -1, q) && 0 < h <= e && b < Pow2(e - h) && c <= 1 && o < Pow2(h - 1)
    ensures FirstSlot(base, 2 * b + c, h - 1) ==>
      Cong(Pow(Point(psi, e, base + o), Pow2(h - 1)),
           if c == 0 then Pow(psi, Rev(e, Pow2(e - h) + b)) else -Pow(psi, Rev(e, Pow2(e - h) + b)), q)
  {
    hide *;
    var s := Rev(h - 1, o);
    PointExponent(e, e - h, b, c, base, o);
    PointIs(psi, e, base + o);
    PowMul(psi, 2 * Rev(e, base + o) + 1, Pow2(h - 1));
    SignedPower(psi, e, q, Rev(e, Pow2(e - h) + b), c, s);
  }

  lemma SignedPower(psi: int, e: nat, q: int, x: nat, c: nat, s: nat)
    requires Cong(Pow(psi, Pow2(e)), -1, q) && c <= 1
    ensures Pow2(e) * (c + 2 * s) >= 0
    ensures Cong(Pow(psi, x + Pow2(e) * (c + 2 * s)), if c == 0 then Pow(psi, x) else -Pow(psi, x), q)
  {
    hide *;
    PowMul(psi, Pow2(e), c + 2 * s);
    PowAdd(psi, x, Pow2(e) * (c + 2 * s));
    NegacyclicSign(psi, e, q, c, s);
    Scale(Pow(psi, x), Pow(Pow(psi, Pow2(e)), c + 2 * s), if c == 0 then 1 else -1, q);
  }

  lemma PointIs(psi: int, e: nat, j: nat)
    ensures Point(psi, e, j) == Pow(psi, 2 * Rev(e, j) + 1)
  {
  }

  lemma DoubleSize(level: nat, i: nat)
    ensures Pow2(level + 1) == 2 * Pow2(level) && (2 * Pow2(level)) * Pow2(i) == Pow2(level + 1 + i)
  {
    Pow2Add(level + 1, i);
  }

  lemma NegacyclicSign(psi: int, e: nat, q: int, c: nat, s: nat)
    requires Cong(Pow(psi, Pow2(e)), -1, q) && c <= 1
    ensures Cong(Pow(Pow(psi, Pow2(e)), c + 2 * s), if c == 0 then 1 else -1, q)
  {
    PowCong(Pow(psi, Pow2(e)), -1, c + 2 * s, q);
    PowMinusOne(c, s);
  }

  /** Splitting a polynomial at a point whose m-th power is known. */
  lemma EvalSplit(s: seq<int>, half: seq<int>, m: nat, w: int, z: int, q: int)
    requires q > 0 && |s| == 2 * m && |half| == m && Cong(Pow(z, m), w, q)
    requires forall i :: 0 <= i < m ==> Cong(half[i], s[..m][i] + w * s[m..][i], q)
    ensures Cong(Eval(half, z), Eval(s, z), q)
  {
    var a, b := s[..m], s[m..];
    assert s == a + b;
    EvalLinear(half, a, w, b, z, q);
    hide *;
    EvalConcat(a, b, z);
    MulRight(Pow(z, m), w, Eval(b, z), q);
    Refl(Eval(a, z), q);
    Add(Eval(a, z), Eval(a, z), Pow(z, m) * Eval(b, z), w * Eval(b, z), q);
    Sym(Eval(s, z), Eval(a, z) + w * Eval(b, z), q);
    Trans(Eval(half, z), Eval(a, z) + w * Eval(b, z), Eval(s, z), q);
  }

  /** What a node of the tree hands to its lower (c == 0) or upper child. */
  ghost function Child(t: Derived, s: seq<int>, n: nat, c: nat): (child: seq<int>)
    ensures |child| == |s| / 2
  {
    Half(Forward, s, c == 1, Weight(t.root, n), t.q, t.k)
  }

  lemma ChildMeaning(t: Derived, psi: int, psiInverse: int, s: seq<int>, m: nat, n: nat, c: nat)
    requires Valid(t, psi, psiInverse) && |s| == 2 * m && InRange(s, 0, 2 * t.q) && 0 < n < Pow2(t.e) && c <= 1
    ensures InRange(Child(t, s, n, c), 0, 2 * t.q)
    ensures var w := if c == 0 then Pow(psi, Rev(t.e, n)) else -Pow(psi, Rev(t.e, n));
      forall i :: 0 <= i < m ==> Cong(Child(t, s, n, c)[i], s[..m][i] + w * s[m..][i], t.q)
  {
    hide Rev, Pow, Pow2, Weight, Half, MontModulus, RootTable, InverseTable, Cong, InRange;
    RootAt(t.root, psi, t.e, t.q, n);
    ForwardHalf(s, m, c == 1, Weight(t.root, n), Pow(psi, Rev(t.e, n)), t.q, t.k);
  }

  lemma TreeAt(t: Derived, s: seq<int>, h: nat, n: nat, c: nat, o: nat)
    requires h > 0 && |s| == Pow2(h) == 2 * Pow2(h - 1) && c <= 1 && o < Pow2(h - 1)
    ensures Tree(s, h, n, t.root, t.q, t.k)[if c == 0 then o else Pow2(h - 1) + o]
         == Tree(Child(t, s, n, c), h - 1, 2 * n + c, t.root, t.q, t.k)[o]
  {
    hide Half, Weight, Pow2;
  }

  /** Node number b of the nodes of height h, with heap index n and coefficients s. */
  ghost predicate Node(t: Derived, s: seq<int>, h: nat, n: nat, b: nat) {
    h <= t.e && |s| == Pow2(h) && b < Pow2(t.e - h) && n == Pow2(t.e - h) + b && InRange(s, 0, 2 * t.q)
  }

  lemma NodeSizes(t: Derived, s: seq<int>, h: nat, n: nat, b: nat)
    requires Node(t, s, h, n, b) && h > 0
    ensures 0 < n < Pow2(t.e) && |s| == Pow2(h) == 2 * Pow2(h - 1) && h <= t.e
    ensures Pow2(t.e - (h - 1)) == 2 * Pow2(t.e - h) && 2 * b + 1 < Pow2(t.e - (h - 1))
    ensures n == Pow2(t.e - h) + b && b < Pow2(t.e - h) && InRange(s, 0, 2 * t.q)
  {
    Pow2Double(h - 1);
    Pow2Double(t.e - h);
    hide Pow2;
    Pow2Monotone(t.e - h + 1, t.e);
  }

  /** A child is a node again, and its polynomial has the node's value at the child's points. */
  lemma NodeStep(t: Derived, psi: int, psiInverse: int, s: seq<int>, h: nat, n: nat, b: nat, c: nat, base: nat, o: nat)
    requires Valid(t, psi, psiInverse) && Node(t, s, h, n, b) && h > 0
    requires c <= 1 && o < Pow2(h - 1) && FirstSlot(base, 2 * b + c, h - 1)
    ensures |s| == 2 * Pow2(h - 1) && Node(t, Child(t, s, n, c), h - 1, 2 * n + c, 2 * b + c)
    ensures Cong(Eval(Child(t, s, n, c), Point(psi, t.e, base + o)), Eval(s, Point(psi, t.e, base + o)), t.q)
  {
    hide *;
    ValidRoots(t, psi, psiInverse);
    NodeSizes(t, s, h, n, b);
    PointAtNode(psi, t.e, t.q, h, b, c, base, o);
    ChildAtPoint(t, psi, psiInverse, s, Pow2(h - 1), n, c, Point(psi, t.e, base + o));
    ChildNode(t, s, h, n, b, c);
  }

  lemma ChildAtPoint(t: Derived, psi: int, psiInverse: int, s: seq<int>, m: nat, n: nat, c: nat, z: int)
    requires Valid(t, psi, psiInverse) && |s| == 2 * m && InRange(s, 0, 2 * t.q) && 0 < n < Pow2(t.e) && c <= 1
    requires Cong(Pow(z, m), if c == 0 then Pow(psi, Rev(t.e, n)) else -Pow(psi, Rev(t.e, n)), t.q)
    ensures InRange(Child(t, s, n, c), 0, 2 * t.q) && Cong(Eval(Child(t, s, n, c), z), Eval(s, z), t.q)
  {
    hide *;
    ValidModulus(t, psi, psiInverse);
    ChildMeaning(t, psi, psiInverse, s, m, n, c);
    var w := Pow(psi, Rev(t.e, n));
    EvalSplit(s, Child(t, s, n, c), m, if c == 0 then w else -w, z, t.q);
  }

  lemma ChildNode(t: Derived, s: seq<int>, h: nat, n: nat, b: nat, c: nat)
    requires Node(t, s, h, n, b) && h > 0 && c <= 1 && InRange(Child(t, s, n, c), 0, 2 * t.q)
    ensures Node(t, Child(t, s, n, c), h - 1, 2 * n + c, 2 * b + c)
  {
    NodeSizes(t, s, h, n, b);
    hide Child, InRange, Pow2;
  }

  /** Entry j of the node's subtree holds the node's polynomial at the point of slot `slot`. */
  ghost predicate SlotValue(t: Derived, psi: int, s: seq<int>, h: nat, n: nat, j: nat, slot: nat) {
    && |s| == Pow2(h) && j < Pow2(h)
    && 0 <= Tree(s, h, n, t.root, t.q, t.k)[j] < 2 * t.q
    && Cong(Tree(s, h, n, t.root, t.q, t.k)[j], Eval(s, Point(psi, t.e, slot)), t.q)
  }

  lemma SlotLift(t: Derived, psi: int, s: seq<int>, h: nat, n: nat, c: nat, o: nat, slot: nat)
    requires h > 0 && |s| == Pow2(h) == 2 * Pow2(h - 1) && c <= 1 && o < Pow2(h - 1)
    requires SlotValue(t, psi, Child(t, s, n, c), h - 1, 2 * n + c, o, slot)
    requires Cong(Eval(Child(t, s, n, c), Point(psi, t.e, slot)), Eval(s, Point(psi, t.e, slot)), t.q)
    ensures SlotValue(t, psi, s, h, n, if c == 0 then o else Pow2(h - 1) + o, slot)
  {
    TreeAt(t, s, h, n, c, o);
    hide Tree, Eval, Point, Child, Pow2, Cong;
    var z := Point(psi, t.e, slot);
    Trans(Tree(Child(t, s, n, c), h - 1, 2 * n + c, t.root, t.q, t.k)[o], Eval(Child(t, s, n, c), z), Eval(s, z), t.q);
  }

  /** Every value of a subtree is the node's polynomial at the slot's point. */
  lemma {:induction false} TreeValues(t: Derived, psi: int, psiInverse: int, s: seq<int>, h: nat, n: nat, b: nat,
                                      base: nat, j: nat)
    requires Valid(t, psi, psiInverse) && Node(t, s, h, n, b) && j < Pow2(h)
    ensures FirstSlot(base, b, h) ==> SlotValue(t, psi, s, h, n, j, base + j)
    decreases h
  {
    if h == 0 {
      TreeLeaf(t, psi, s, n, base);
    } else {
      hide *;
      NodeSizes(t, s, h, n, b);
      if j < Pow2(h - 1) {
        TreeBelow(t, psi, psiInverse, s, h, n, b, base, 0, j);
      } else {
        TreeBelow(t, psi, psiInverse, s, h, n, b, base, 1, j - Pow2(h - 1));
      }
    }
  }

  lemma {:induction false} TreeBelow(t: Derived, psi: int, psiInverse: int, s: seq<int>, h: nat, n: nat, b: nat,
                                     base: nat, c: nat, o: nat)
    requires Valid(t, psi, psiInverse) && Node(t, s, h, n, b)
    requires h > 0 && c <= 1 && o < Pow2(h - 1)
    ensures FirstSlot(base, b, h) ==>
      var j := if c == 0 then o else Pow2(h - 1) + o; SlotValue(t, psi, s, h, n, j, base + j)
    decreases h, 0
  {
    hide *;
    if FirstSlot(base, b, h) {
      NodeSizes(t, s, h, n, b);
      ChildSlot(base, b, c, h);
      var childBase := if c == 0 then base else base + Pow2(h - 1);
      NodeStep(t, psi, psiInverse, s, h, n, b, c, childBase, o);
      TreeValues(t, psi, psiInverse, Child(t, s, n, c), h - 1, 2 * n + c, 2 * b + c, childBase, o);
      SlotLift(t, psi, s, h, n, c, o, childBase + o);
    }
  }

  lemma TreeLeaf(t: Derived, psi: int, s: seq<int>, n: nat, slot: nat)
    requires |s| == Pow2(0) && t.q > 0 && InRange(s, 0, 2 * t.q)
    ensures SlotValue(t, psi, s, 0, n, 0, slot)
  {
    assert s[1..] == [] && Eval(s, Point(psi, t.e, slot)) == s[0];
  }

  /** The evaluation theorem: slot j of the transform holds the polynomial at psi^(2 rev(j) + 1), and
      every output stays in [0, 2q). */
  lemma Evaluation(t: Derived, psi: int, psiInverse: int, s: seq<int>, j: nat)
    requires Valid(t, psi, psiInverse) && |s| == Pow2(t.e) && InRange(s, 0, 2 * t.q) && j < |s|
    ensures var y := Tree(s, t.e, 1, t.root, t.q, t.k);
      0 <= y[j] < 2 * t.q && Cong(y[j], Eval(s, Point(psi, t.e, j)), t.q)
  {
    assert Pow2(0) == 1;
    TreeValues(t, psi, psiInverse, s, t.e, 1, 0, 0, j);
  }

  /** Every slot's point is a root of X^N + 1. */
  lemma PointPower(t: Derived, psi: int, psiInverse: int, j: nat)
    requires Valid(t, psi, psiInverse)
    ensures Cong(Pow(Point(psi, t.e, j), Pow2(t.e)), -1, t.q)
  {
    hide *;
    var n, x := Pow2(t.e), Rev(t.e, j);
    RootPower(t, psi, psiInverse);
    PointIs(psi, t.e, j);
    PowMul(psi, 2 * x + 1, n);
    assert (2 * x + 1) * n == n * (1 + 2 * x);
    PowMul(psi, n, 1 + 2 * x);
    PowCong(Pow(psi, n), -1, 1 + 2 * x, t.q);
    PowMinusOne(1, x);
    Trans(Pow(Pow(psi, n), 1 + 2 * x), Pow(-1, 1 + 2 * x), -1, t.q);
  }

  lemma RootPower(t: Derived, psi: int, psiInverse: int)
    requires Valid(t, psi, psiInverse)
    ensures Cong(Pow(psi, Pow2(t.e)), -1, t.q)
  {
  }
}
