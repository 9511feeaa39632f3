/** Slots and coefficients determine each other: every slot vector is the transform of a polynomial, and
    polynomials with the same values in all slots are congruent.

    With this, what holds in every slot before mod_down holds for the coefficients after to_intt_. */
module Interpolation {
  import opened Congruence
  import opened Montgomery
  import opened BitReversal
  import opened Polynomial
  import opened Tables
  import opened NttTheory
  import NttReference
  import NttInverse
  import Transform

  // ---------- every slot vector is a transform ----------

  /** The two halves of the polynomial that splits into a and b at w and -w. */
  function Joined(a: seq<int>, b: seq<int>, half: int, v: int): (s: seq<int>)
    requires |a| == |b|
    ensures |s| == 2 * |a|
  {
    seq(2 * |a|, i requires 0 <= i < 2 * |a| =>
      if i < |a| then half * (a[i] + b[i]) else half * v * (a[i - |a|] - b[i - |a|]))
  }

  lemma JoinAlgebra(x: int, y: int, half: int, w: int, v: int, q: int)
    requires Cong(2 * half, 1, q) && Cong(w * v, 1, q)
    ensures Cong(x, half * (x + y) + w * (half * v * (x - y)), q)
    ensures Cong(y, half * (x + y) + (-w) * (half * v * (x - y)), q)
  {
    hide *;
    var d := half * (x - y);
    MulRight(w * v, 1, d, q);
    assert (w * v) * d == w * (half * v * (x - y));
    assert (-w) * (half * v * (x - y)) == -(w * (half * v * (x - y)));
    Refl(half * (x + y), q);
    Add(half * (x + y), half * (x + y), (w * v) * d, 1 * d, q);
    Sub(half * (x + y), half * (x + y), (w * v) * d, 1 * d, q);
    assert half * (x + y) + d == (2 * half) * x && half * (x + y) - d == (2 * half) * y;
    MulRight(2 * half, 1, x, q);
    MulRight(2 * half, 1, y, q);
    Trans(half * (x + y) + w * (half * v * (x - y)), (2 * half) * x, x, q);
    Trans(half * (x + y) + (-w) * (half * v * (x - y)), (2 * half) * y, y, q);
    Sym(half * (x + y) + w * (half * v * (x - y)), x, q);
    Sym(half * (x + y) + (-w) * (half * v * (x - y)), y, q);
  }

  lemma JoinedAt(a: seq<int>, b: seq<int>, half: int, w: int, v: int, c: nat, i: nat, q: int)
    requires |a| == |b| && Cong(2 * half, 1, q) && Cong(w * v, 1, q) && c <= 1 && i < |a|
    ensures var s := Joined(a, b, half, v);
      Cong((if c == 0 then a else b)[i], s[..|a|][i] + (if c == 0 then w else -w) * s[|a|..][i], q)
  {
    hide Cong;
    JoinAlgebra(a[i], b[i], half, w, v, q);
  }

  lemma JoinedSplits(a: seq<int>, b: seq<int>, half: int, w: int, v: int, z: int, c: nat, q: int)
    requires |a| == |b| && Cong(2 * half, 1, q) && Cong(w * v, 1, q) && c <= 1 && Cong(Pow(z, |a|), if c == 0 then w else -w, q)
    ensures Cong(Eval(Joined(a, b, half, v), z), Eval(if c == 0 then a else b, z), q)
  {
    assert q > 0;
    hide Cong, Eval, Pow;
    var s, child := Joined(a, b, half, v), if c == 0 then a else b;
    forall i | 0 <= i < |a| ensures Cong(child[i], s[..|a|][i] + (if c == 0 then w else -w) * s[|a|..][i], q) {
      JoinedAt(a, b, half, w, v, c, i, q);
    }
    hide *;
    EvalSplit(s, child, |a|, if c == 0 then w else -w, z, q);
    Sym(Eval(child, z), Eval(s, z), q);
  }

  /** What interpolation needs of a modulus. */
  ghost predicate Ring(psi: int, psiInverse: int, e: nat, half: int, q: int) {
    Cong(Pow(psi, Pow2(e)), -1, q) && Cong(psi * psiInverse, 1, q) && Cong(2 * half, 1, q)
  }

  ghost predicate Interpolates(s: seq<int>, psi: int, e: nat, base: nat, values: seq<int>, q: int) {
    |s| == |values| && forall j :: 0 <= j < |values| ==> SlotIs(s, psi, e, base + j, values[j], q)
  }

  ghost predicate SlotIs(s: seq<int>, psi: int, e: nat, slot: nat, value: int, q: int) {
    Cong(Eval(s, Point(psi, e, slot)), value, q)
  }

  /** A polynomial with given values at the points below a node, from the leaves up. */
  lemma {:induction false} Interpolate(psi: int, psiInverse: int, e: nat, half: int, h: nat, b: nat, base: nat, values: seq<int>, q: int)
    returns (s: seq<int>)
    requires Ring(psi, psiInverse, e, half, q) && h <= e && b < Pow2(e - h) && FirstSlot(base, b, h) && |values| == Pow2(h)
    ensures Interpolates(s, psi, e, base, values, q)
    decreases h
  {
    hide *;
    RingMeans(psi, psiInverse, e, half, q);
    if h == 0 {
      s := values;
      LeafValue(values, psi, e, base, q);
    } else {
      Pow2Double(h - 1);
      var m := Pow2(h - 1);
      NodeBelow(e, h, b);
      ChildSlot(base, b, 0, h);
      ChildSlot(base, b, 1, h);
      var lower := Interpolate(psi, psiInverse, e, half, h - 1, 2 * b, base, values[..m], q);
      var upper := Interpolate(psi, psiInverse, e, half, h - 1, 2 * b + 1, base + m, values[m..], q);
      var x := Rev(e, Pow2(e - h) + b);
      PowProduct(psi, psiInverse, x);
      PowCong(psi * psiInverse, 1, x, q);
      PowOne(x);
      var w, v := Pow(psi, x), Pow(psiInverse, x);
      InterpolatesSize(lower, psi, e, base, values[..m], q);
      InterpolatesSize(upper, psi, e, base + m, values[m..], q);
      s := Joined(lower, upper, half, v);
      forall j | 0 <= j < |values| ensures SlotIs(s, psi, e, base + j, values[j], q) {
        if j < m {
          PointAtNode(psi, e, q, h, b, 0, base, j);
          JoinedSplits(lower, upper, half, w, v, Point(psi, e, base + j), 0, q);
          SlotOf(lower, psi, e, base, values[..m], q, j);
          Trans(Eval(s, Point(psi, e, base + j)), Eval(lower, Point(psi, e, base + j)), values[j], q);
        } else {
          PointAtNode(psi, e, q, h, b, 1, base + m, j - m);
          JoinedSplits(lower, upper, half, w, v, Point(psi, e, base + j), 1, q);
          SlotOf(upper, psi, e, base + m, values[m..], q, j - m);
          Trans(Eval(s, Point(psi, e, base + j)), Eval(upper, Point(psi, e, base + j)), values[j], q);
        }
        SlotFrom(s, psi, e, base + j, values[j], q);
      }
      InterpolatesFrom(s, psi, e, base, values, q);
    }
  }

  lemma RingMeans(psi: int, psiInverse: int, e: nat, half: int, q: int)
    requires Ring(psi, psiInverse, e, half, q)
    ensures Cong(Pow(psi, Pow2(e)), -1, q) && Cong(psi * psiInverse, 1, q) && Cong(2 * half, 1, q)
  {
  }

  lemma LeafValue(values: seq<int>, psi: int, e: nat, base: nat, q: int)
    requires |values| == Pow2(0) && q > 0
    ensures Interpolates(values, psi, e, base, values, q)
  {
    assert values[1..] == [];
    assert Eval(values, Point(psi, e, base)) == values[0];
  }

  lemma NodeBelow(e: nat, h: nat, b: nat)
    requires 0 < h <= e && b < Pow2(e - h)
    ensures 2 * b + 1 < Pow2(e - (h - 1))
  {
    Pow2Double(e - h);
  }

  lemma InterpolatesSize(s: seq<int>, psi: int, e: nat, base: nat, values: seq<int>, q: int)
    requires Interpolates(s, psi, e, base, values, q)
    ensures |s| == |values|
  {
  }

  lemma SlotOf(s: seq<int>, psi: int, e: nat, base: nat, values: seq<int>, q: int, j: nat)
    requires Interpolates(s, psi, e, base, values, q) && j < |values|
    ensures Cong(Eval(s, Point(psi, e, base + j)), values[j], q)
  {
    assert SlotIs(s, psi, e, base + j, values[j], q);
  }

  lemma SlotFrom(s: seq<int>, psi: int, e: nat, slot: nat, value: int, q: int)
    requires Cong(Eval(s, Point(psi, e, slot)), value, q)
    ensures SlotIs(s, psi, e, slot, value, q)
  {
  }

  lemma InterpolatesFrom(s: seq<int>, psi: int, e: nat, base: nat, values: seq<int>, q: int)
    requires |s| == |values| && forall j :: 0 <= j < |values| ==> SlotIs(s, psi, e, base + j, values[j], q)
    ensures Interpolates(s, psi, e, base, values, q)
  {
  }

  // ---------- through the transforms ----------

  lemma HalfOf(q: int, k: int) returns (half: int)
    requires MontModulus(q, k)
    ensures Cong(2 * half, 1, q)
  {
    var j := RadixInverse(q, k);
    half := R / 2 * j;
    EvenRadix(j, half);
  }

  lemma EvenRadix(j: int, half: int)
    requires half == R / 2 * j
    ensures 2 * half == R * j
  {
  }

  /** Reduced representatives. */
  function Reduced(s: seq<int>, q: int): (r: seq<int>)
    requires q > 0
    ensures |r| == |s|
  {
    seq(|s|, i requires 0 <= i < |s| => s[i] % q)
  }

  lemma ReducedMeans(s: seq<int>, q: int)
    requires q > 0
    ensures InRange(Reduced(s, q), 0, 2 * q) && CongSeq(Reduced(s, q), 1, s, q)
  {
    forall i | 0 <= i < |s| ensures 0 <= s[i] % q < 2 * q && Cong(s[i] % q, 1 * s[i], q) { Residue(s[i], q); }
  }

  /** Polynomials with the same values in all slots have congruent coefficients. */
  lemma SlotsDetermine(t: Derived, psi: int, psiInverse: int, a: seq<int>, b: seq<int>, c: nat)
    requires Valid(t, psi, psiInverse) && |a| == |b| == Pow2(t.e) && c < |a|
    requires forall j :: 0 <= j < |a| ==> SameSlot(t, psi, a, b, j)
    ensures Cong(a[c], b[c], t.q)
  {
    hide *;
    ValidModulus(t, psi, psiInverse);
    var q := t.q;
    var x, y := Reduced(a, q), Reduced(b, q);
    ReducedMeans(a, q);
    ReducedMeans(b, q);
    var u := NttReference.Tree(x, t.e, 1, t.root, q, t.k);
    Transform.MultipleSelf(t, psi, psiInverse, x);
    forall j | 0 <= j < |u| ensures Cong(u[j], 1 * NttReference.Tree(y, t.e, 1, t.root, q, t.k)[j], q) && 0 <= u[j] < 2 * q {
      SameSlotMeans(t, psi, a, b, j);
      var z := Point(psi, t.e, j);
      Evaluation(t, psi, psiInverse, x, j);
      Evaluation(t, psi, psiInverse, y, j);
      EvalScaled(x, 1, a, z, q);
      EvalScaled(y, 1, b, z, q);
      SlotChain(u[j], NttReference.Tree(y, t.e, 1, t.root, q, t.k)[j], Eval(x, z), Eval(y, z), Eval(a, z), Eval(b, z), q);
    }
    MultipleFrom(u, NttReference.Tree(y, t.e, 1, t.root, q, t.k), q);
    Transform.CoeffFormMeaning(t, psi, psiInverse, x, u, 1, c);
    Transform.CoeffFormMeaning(t, psi, psiInverse, y, u, 1, c);
    var j := RadixInverse(q, t.k);
    CongSeqAt(x, a, q, c);
    CongSeqAt(y, b, q, c);
    SameCoefficient(Transform.CoeffForm(t, u)[c] * R, x[c], y[c], a[c], b[c], q);
  }

  ghost predicate SameSlot(t: Derived, psi: int, a: seq<int>, b: seq<int>, j: nat) {
    Cong(Eval(a, Point(psi, t.e, j)), Eval(b, Point(psi, t.e, j)), t.q)
  }

  lemma SameSlotMeans(t: Derived, psi: int, a: seq<int>, b: seq<int>, j: nat)
    requires SameSlot(t, psi, a, b, j)
    ensures Cong(Eval(a, Point(psi, t.e, j)), Eval(b, Point(psi, t.e, j)), t.q)
  {
  }

  lemma SlotChain(u: int, v: int, x: int, y: int, a: int, b: int, q: int)
    requires Cong(u, x, q) && Cong(v, y, q) && Cong(x, 1 * a, q) && Cong(y, 1 * b, q) && Cong(a, b, q)
    ensures Cong(u, 1 * v, q)
  {
    hide *;
    Trans(u, x, a, q);
    Trans(u, a, b, q);
    Trans(v, y, b, q);
    Sym(v, b, q);
    Trans(u, b, v, q);
  }

  lemma MultipleFrom(u: seq<int>, v: seq<int>, q: int)
    requires |u| == |v| && forall j :: 0 <= j < |u| ==> Cong(u[j], 1 * v[j], q) && 0 <= u[j] < 2 * q
    ensures NttInverse.Multiple(u, 1, v, q)
  {
    hide Cong;
  }

  lemma CongSeqAt(x: seq<int>, a: seq<int>, q: int, c: nat)
    requires CongSeq(x, 1, a, q) && c < |a|
    ensures |x| == |a| && Cong(x[c], a[c], q)
  {
    assert 1 * a[c] == a[c];
  }

  lemma SameCoefficient(r: int, x: int, y: int, a: int, b: int, q: int)
    requires Cong(r, 1 * x, q) && Cong(r, 1 * y, q) && Cong(x, a, q) && Cong(y, b, q)
    ensures Cong(a, b, q)
  {
    hide *;
    Trans(r, x, a, q);
    Trans(r, y, b, q);
    Sym(r, a, q);
    Trans(a, r, b, q);
  }

  /** to_intt_ of any lazily reduced slots u: the polynomial it leaves has, in every slot, the value that
      the slot stands for in the Montgomery domain. */
  lemma CoeffFormValue(t: Derived, psi: int, psiInverse: int, u: seq<int>, j: nat)
    requires Valid(t, psi, psiInverse) && |u| == Pow2(t.e) && InRange(u, 0, 2 * t.q) && j < |u|
    ensures Cong(u[j], R * Eval(Transform.CoeffForm(t, u), Point(psi, t.e, j)), t.q)
    ensures 0 <= Transform.CoeffForm(t, u)[j] <= t.q
  {
    hide *;
    ValidModulus(t, psi, psiInverse);
    ValidRoots(t, psi, psiInverse);
    var q := t.q;
    var half := HalfOf(q, t.k);
    RingFrom(psi, psiInverse, t.e, half, q);
    RootNode(t.e);
    var s := Interpolate(psi, psiInverse, t.e, half, t.e, 0, 0, u, q);
    InterpolatesSize(s, psi, t.e, 0, u, q);
    var x := Reduced(s, q);
    ReducedMeans(s, q);
    var tree := NttReference.Tree(x, t.e, 1, t.root, q, t.k);
    forall i | 0 <= i < |u| ensures Cong(u[i], 1 * tree[i], q) && 0 <= u[i] < 2 * q {
      var z := Point(psi, t.e, i);
      Evaluation(t, psi, psiInverse, x, i);
      EvalScaled(x, 1, s, z, q);
      SlotOf(s, psi, t.e, 0, u, q, i);
      TreeSlot(u[i], tree[i], Eval(x, z), Eval(s, z), q);
      RangeAt(u, q, i);
    }
    MultipleFrom(u, tree, q);
    var form := Transform.CoeffForm(t, u);
    forall c | 0 <= c < |x| ensures Cong(x[c], R * form[c], q) {
      Transform.CoeffFormMeaning(t, psi, psiInverse, x, u, 1, c);
      FlipScale(form[c], x[c], q);
    }
    Transform.CoeffFormMeaning(t, psi, psiInverse, x, u, 1, j);
    var z := Point(psi, t.e, j);
    CongSeqFrom(x, form, q);
    EvalScaled(x, R, form, z, q);
    EvalScaled(x, 1, s, z, q);
    SlotOf(s, psi, t.e, 0, u, q, j);
    LastChain(u[j], Eval(s, z), Eval(x, z), R * Eval(form, z), q);
  }

  lemma RingFrom(psi: int, psiInverse: int, e: nat, half: int, q: int)
    requires Cong(Pow(psi, Pow2(e)), -1, q) && Cong(psi * psiInverse, 1, q) && Cong(2 * half, 1, q)
    ensures Ring(psi, psiInverse, e, half, q)
  {
  }

  lemma RootNode(e: nat)
    ensures 0 < Pow2(e - e) && FirstSlot(0, 0, e)
  {
    assert 0 * Pow2(e) == 0;
  }

  lemma RangeAt(u: seq<int>, q: int, i: nat)
    requires InRange(u, 0, 2 * q) && i < |u|
    ensures 0 <= u[i] < 2 * q
  {
  }

  lemma TreeSlot(u: int, v: int, x: int, s: int, q: int)
    requires Cong(v, x, q) && Cong(x, 1 * s, q) && Cong(s, u, q)
    ensures Cong(u, 1 * v, q)
  {
    hide *;
    Trans(v, x, s, q);
    Trans(v, s, u, q);
    Sym(v, u, q);
  }

  lemma FlipScale(f: int, x: int, q: int)
    requires Cong(f * R, 1 * x, q)
    ensures Cong(x, R * f, q)
  {
    TimesCommute(f, R);
    hide *;
    Sym(f * R, x, q);
  }

  lemma CongSeqFrom(x: seq<int>, form: seq<int>, q: int)
    requires |x| == |form| && forall c :: 0 <= c < |x| ==> Cong(x[c], R * form[c], q)
    ensures CongSeq(x, R, form, q)
  {
  }

  lemma LastChain(u: int, s: int, x: int, f: int, q: int)
    requires Cong(s, u, q) && Cong(x, 1 * s, q) && Cong(x, f, q)
    ensures Cong(u, f, q)
  {
    hide *;
    Trans(x, s, u, q);
    Sym(x, u, q);
    Trans(u, x, f, q);
  }
}
