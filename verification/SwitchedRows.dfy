/** Key switching at one modulus of the extended base, from slots to coefficients: the rows that to_intt_
    leaves before the division satisfy the key switching identity as polynomials modulo X^N + 1. */
module SwitchedRows {
  import opened Congruence
  import opened Montgomery
  import opened ResidueBase
  import opened BaseExtension
  import opened Polynomial
  import opened Tables
  import opened KeySwitching
  import NttTheory
  import NegacyclicProduct
  import Transform
  import Interpolation

  // ---------- polynomials ----------

  /** a * b modulo X^N + 1. */
  function Times(a: seq<int>, b: seq<int>): (p: seq<int>)
    requires |a| == |b|
    ensures |p| == |b|
  {
    NegacyclicProduct.Product(a, b, |a|)
  }

  /** a + w * b. */
  function Plus(a: seq<int>, w: int, b: seq<int>): (p: seq<int>)
    requires |a| == |b|
    ensures |p| == |a|
  {
    seq(|a|, i requires 0 <= i < |a| => a[i] + w * b[i])
  }

  /** The sum of the first n products. */
  ghost function SumOfProducts(d: seq<seq<int>>, e: seq<seq<int>>, n: nat, size: nat): (p: seq<int>)
    requires n <= |d| && n <= |e| && forall i :: 0 <= i < n ==> |d[i]| == |e[i]| == size
    ensures |p| == size
  {
    if n == 0 then seq(size, i => 0) else Plus(SumOfProducts(d, e, n - 1, size), 1, Times(d[n - 1], e[n - 1]))
  }

  lemma TimesValue(a: seq<int>, b: seq<int>, z: int, q: int)
    requires q > 0 && |a| == |b| && Cong(Pow(z, |b|), -1, q)
    ensures Cong(Eval(Times(a, b), z), Eval(a, z) * Eval(b, z), q)
  {
    NegacyclicProduct.ProductValue(a, b, z, q);
  }

  lemma PlusValue(a: seq<int>, w: int, b: seq<int>, z: int, q: int)
    requires q > 0 && |a| == |b|
    ensures Cong(Eval(Plus(a, w, b), z), Eval(a, z) + w * Eval(b, z), q)
  {
    forall i | 0 <= i < |a| ensures Cong(Plus(a, w, b)[i], a[i] + w * b[i], q) { Refl(a[i] + w * b[i], q); }
    EvalLinear(Plus(a, w, b), a, w, b, z, q);
  }

  lemma {:induction false} SumValue(d: seq<seq<int>>, e: seq<seq<int>>, n: nat, size: nat, z: int, q: int)
    requires n <= |d| == |e| && forall i :: 0 <= i < n ==> |d[i]| == |e[i]| == size
    requires q > 0 && Cong(Pow(z, size), -1, q)
    ensures Cong(Eval(SumOfProducts(d, e, n, size), z), Dot(Values(d, z), Values(e, z), n), q)
  {
    hide Cong, Eval, Pow, Times, Plus;
    if n == 0 {
      EvalZeros(size, z);
      Refl(0, q);
    } else {
      var before, last := SumOfProducts(d, e, n - 1, size), Times(d[n - 1], e[n - 1]);
      SumValue(d, e, n - 1, size, z, q);
      TimesValue(d[n - 1], e[n - 1], z, q);
      PlusValue(before, 1, last, z, q);
      DotStep(Values(d, z), Values(e, z), n - 1);
      Add(Eval(before, z), Dot(Values(d, z), Values(e, z), n - 1), Eval(last, z), Eval(d[n - 1], z) * Eval(e[n - 1], z), q);
      Trans(Eval(Plus(before, 1, last), z), Eval(before, z) + 1 * Eval(last, z),
            Dot(Values(d, z), Values(e, z), n - 1) + Eval(d[n - 1], z) * Eval(e[n - 1], z), q);
    }
  }

  // ---------- one modulus ----------

  /** The accumulated row: all partitions' extended words times the selected key rows. */
  ghost function AccumulatedRow(t: Derived, words: seq<seq<int>>, key: seq<seq<int>>): (row: seq<int>)
    requires |words| == |key| >= 1 && (forall p :: 0 <= p < |words| ==> |words[p]| == |key[p]| == Pow2(t.e))
    ensures |row| == Pow2(t.e)
  {
    seq(Pow2(t.e), j requires 0 <= j < Pow2(t.e) =>
      Accumulated(Slot(t, words, j), Column(key, j), |words|, Modulus(t.q, t.k)))
  }

  /** What to_intt_ makes of it, at the start of mod_down. */
  ghost function BeforeDown(t: Derived, words: seq<seq<int>>, key: seq<seq<int>>): (row: seq<int>)
    requires |words| == |key| >= 1 && (forall p :: 0 <= p < |words| ==> |words[p]| == |key[p]| == Pow2(t.e))
    ensures |row| == Pow2(t.e)
  {
    Transform.CoeffForm(t, AccumulatedRow(t, words, key))
  }

  ghost predicate Rectangle(rows: seq<seq<int>>, count: nat, size: nat) {
    |rows| == count && forall p :: 0 <= p < count ==> |rows[p]| == size
  }

  /** The rows of a switch at one modulus, with what its words stand for: extended words for the lifted
      integers d, key rows a and b that hide the errors, and the owner's pair the old secret f. */
  ghost predicate RowData(t: Derived, psi: int, words: seq<seq<int>>, d: seq<seq<int>>, a: seq<seq<int>>, b: seq<seq<int>>, e: seq<seq<int>>,
                          s: seq<int>, from: seq<int>, errors: seq<seq<int>>, secret: seq<int>, f: seq<int>, product: int, owner: int) {
    var n, size := |words|, Pow2(t.e);
    && n >= 1 && Rectangle(words, n, size) && Rectangle(a, n, size) && Rectangle(b, n, size) && Rectangle(e, n, size)
    && Rectangle(d, n, size) && Rectangle(errors, n, size) && |s| == |from| == |secret| == |f| == size
    && LiftedRows(words, d, size, t.q)
    && forall j :: 0 <= j < size ==> SlotData(t, psi, a, b, e, s, from, errors, secret, f, product, owner, n, j)
  }

  ghost predicate SlotData(t: Derived, psi: int, a: seq<seq<int>>, b: seq<seq<int>>, e: seq<seq<int>>, s: seq<int>, from: seq<int>,
                           errors: seq<seq<int>>, secret: seq<int>, f: seq<int>, product: int, owner: int, n: nat, j: nat) {
    var z := NttTheory.Point(psi, t.e, j);
    && Rectangle(a, n, Pow2(t.e)) && Rectangle(b, n, Pow2(t.e)) && Rectangle(e, n, Pow2(t.e)) && j < |s| && j < |from| && j < Pow2(t.e)
    && Lazy(Column(a, j), t.q) && Lazy(Column(b, j), t.q)
    && KeyPairs(Column(a, j), Column(b, j), Column(e, j), s[j], from[j], owner, t.q)
    && Stand(Column(e, j), Values(errors, z), t.q) && Cong(s[j], Eval(secret, z) * R, t.q)
    && Cong(from[j], (product * Eval(f, z)) * R, t.q)
  }

  /** A chain has an owner, whose lifted integers have its residues x; a special prime divides the product
      of the special primes. */
  ghost predicate OwnerData(t: Derived, d: seq<seq<int>>, x: seq<int>, product: int, owner: int) {
    |x| == Pow2(t.e) &&
    if 0 <= owner < |d| then |d[owner]| == |x| && forall c :: 0 <= c < |x| ==> Cong(d[owner][c], x[c], t.q) else Cong(product, 0, t.q)
  }

  /** In every slot. */
  lemma SlotIdentity(t: Derived, psi: int, psiInverse: int, words: seq<seq<int>>, d: seq<seq<int>>, a: seq<seq<int>>, b: seq<seq<int>>, e: seq<seq<int>>,
                     s: seq<int>, from: seq<int>, errors: seq<seq<int>>, secret: seq<int>, f: seq<int>, product: int, owner: int, x: seq<int>, j: nat)
    requires Valid(t, psi, psiInverse) && RowData(t, psi, words, d, a, b, e, s, from, errors, secret, f, product, owner)
    requires OwnerData(t, d, x, product, owner) && j < Pow2(t.e)
    requires |words| == |a| == |b| >= 1 && (forall p :: 0 <= p < |words| ==> |words[p]| == |a[p]| == |b[p]| == Pow2(t.e))
    ensures var z := NttTheory.Point(psi, t.e, j);
      Cong(Eval(BeforeDown(t, words, b), z) + Eval(BeforeDown(t, words, a), z) * Eval(secret, z),
           Dot(Values(d, z), Values(errors, z), |words|) + (product * Eval(x, z)) * Eval(f, z), t.q)
  {
    hide *;
    ValidModulus(t, psi, psiInverse);
    DataAt(t, psi, words, d, a, b, e, s, from, errors, secret, f, product, owner, j);
    var z, m := NttTheory.Point(psi, t.e, j), Modulus(t.q, t.k);
    LazyAccumulated(t, psi, psiInverse, words, d, b, a, j);
    LazyRow(t, psi, psiInverse, words, d, a, b, e, s, from, errors, secret, f, product, owner);
    var u0, u1 := AccumulatedRow(t, words, b), AccumulatedRow(t, words, a);
    Interpolation.CoeffFormValue(t, psi, psiInverse, u0, j);
    Interpolation.CoeffFormValue(t, psi, psiInverse, u1, j);
    RowEntry(t, words, b, j);
    RowEntry(t, words, a, j);
    TimesCommute(R, Eval(BeforeDown(t, words, b), z));
    TimesCommute(R, Eval(BeforeDown(t, words, a), z));
    OwnerMeans(t, d, x, product, owner);
    KeySwitchingIdentity(t, psi, psiInverse, words, d, x, owner, Column(a, j), Column(b, j), Column(e, j), s[j], from[j],
                         Values(errors, z), Eval(secret, z), product, Eval(f, z),
                         Eval(BeforeDown(t, words, b), z), Eval(BeforeDown(t, words, a), z), j);
  }

  lemma DataAt(t: Derived, psi: int, words: seq<seq<int>>, d: seq<seq<int>>, a: seq<seq<int>>, b: seq<seq<int>>, e: seq<seq<int>>,
               s: seq<int>, from: seq<int>, errors: seq<seq<int>>, secret: seq<int>, f: seq<int>, product: int, owner: int, j: nat)
    requires RowData(t, psi, words, d, a, b, e, s, from, errors, secret, f, product, owner) && j < Pow2(t.e)
    ensures |words| == |a| == |b| == |e| == |d| == |errors| >= 1 && LiftedRows(words, d, Pow2(t.e), t.q) && j < |s| && j < |from|
    ensures forall p :: 0 <= p < |words| ==> |words[p]| == |a[p]| == |b[p]| == |e[p]| == Pow2(t.e)
    ensures var z := NttTheory.Point(psi, t.e, j);
      && |Column(a, j)| == |words| && Lazy(Column(a, j), t.q) && Lazy(Column(b, j), t.q)
      && KeyPairs(Column(a, j), Column(b, j), Column(e, j), s[j], from[j], owner, t.q)
      && Stand(Column(e, j), Values(errors, z), t.q) && Cong(s[j], Eval(secret, z) * R, t.q)
      && Cong(from[j], (product * Eval(f, z)) * R, t.q)
  {
    hide Cong, Pow2, LiftedRows, KeyPairs, Stand, Lazy, Eval, NttTheory.Point;
    assert SlotData(t, psi, a, b, e, s, from, errors, secret, f, product, owner, |words|, j);
  }

  lemma OwnerMeans(t: Derived, d: seq<seq<int>>, x: seq<int>, product: int, owner: int)
    requires OwnerData(t, d, x, product, owner)
    ensures if 0 <= owner < |d| then |d[owner]| == |x| && forall c :: 0 <= c < |x| ==> Cong(d[owner][c], x[c], t.q) else Cong(product, 0, t.q)
  {
  }

  lemma RowEntry(t: Derived, words: seq<seq<int>>, key: seq<seq<int>>, j: nat)
    requires |words| == |key| >= 1 && (forall p :: 0 <= p < |words| ==> |words[p]| == |key[p]| == Pow2(t.e)) && j < Pow2(t.e)
    ensures AccumulatedRow(t, words, key)[j] == Accumulated(Slot(t, words, j), Column(key, j), |words|, Modulus(t.q, t.k))
    ensures BeforeDown(t, words, key) == Transform.CoeffForm(t, AccumulatedRow(t, words, key)) && |Slot(t, words, j)| == |words|
  {
    hide Accumulated, Transform.CoeffForm;
  }

  lemma LazyAccumulated(t: Derived, psi: int, psiInverse: int, words: seq<seq<int>>, d: seq<seq<int>>, b: seq<seq<int>>, a: seq<seq<int>>, j: nat)
    requires Valid(t, psi, psiInverse) && LiftedRows(words, d, Pow2(t.e), t.q) && j < Pow2(t.e) && |words| == |a| == |b| >= 1
    requires forall p :: 0 <= p < |words| ==> |words[p]| == |a[p]| == |b[p]| == Pow2(t.e)
    requires Lazy(Column(a, j), t.q) && Lazy(Column(b, j), t.q)
    ensures var m := Modulus(t.q, t.k);
      && 0 <= Accumulated(Slot(t, words, j), Column(b, j), |words|, m) < 2 * t.q
      && 0 <= Accumulated(Slot(t, words, j), Column(a, j), |words|, m) < 2 * t.q
  {
    hide *;
    ValidModulus(t, psi, psiInverse);
    SlotsStand(t, psi, psiInverse, words, d, j);
    SlotSize(t, words, j);
    AccumulatedMeaning(Slot(t, words, j), Column(b, j), |words|, Modulus(t.q, t.k));
    AccumulatedMeaning(Slot(t, words, j), Column(a, j), |words|, Modulus(t.q, t.k));
  }

  lemma SlotSize(t: Derived, words: seq<seq<int>>, j: nat)
    requires forall p :: 0 <= p < |words| ==> j < |words[p]| == Pow2(t.e)
    ensures |Slot(t, words, j)| == |words|
  {
  }

  lemma LazyRow(t: Derived, psi: int, psiInverse: int, words: seq<seq<int>>, d: seq<seq<int>>, a: seq<seq<int>>, b: seq<seq<int>>, e: seq<seq<int>>,
                s: seq<int>, from: seq<int>, errors: seq<seq<int>>, secret: seq<int>, f: seq<int>, product: int, owner: int)
    requires Valid(t, psi, psiInverse) && RowData(t, psi, words, d, a, b, e, s, from, errors, secret, f, product, owner)
    requires |words| == |a| == |b| >= 1 && (forall p :: 0 <= p < |words| ==> |words[p]| == |a[p]| == |b[p]| == Pow2(t.e))
    ensures InRange(AccumulatedRow(t, words, b), 0, 2 * t.q) && InRange(AccumulatedRow(t, words, a), 0, 2 * t.q)
  {
    hide Valid, RowData, Accumulated, Slot, Column, Pow2;
    forall j | 0 <= j < Pow2(t.e)
      ensures 0 <= AccumulatedRow(t, words, b)[j] < 2 * t.q && 0 <= AccumulatedRow(t, words, a)[j] < 2 * t.q
    {
      DataAt(t, psi, words, d, a, b, e, s, from, errors, secret, f, product, owner, j);
      LazyAccumulated(t, psi, psiInverse, words, d, b, a, j);
    }
  }

  /** The identity for coefficients: modulo X^N + 1 and q, with X0 and X1 the rows before the division,
      X0 + X1 * S = sum of D_p * E_p + P * x * F. */
  lemma RowIdentity(t: Derived, psi: int, psiInverse: int, words: seq<seq<int>>, d: seq<seq<int>>, a: seq<seq<int>>, b: seq<seq<int>>, e: seq<seq<int>>,
                    s: seq<int>, from: seq<int>, errors: seq<seq<int>>, secret: seq<int>, f: seq<int>, product: int, owner: int, x: seq<int>, c: nat)
    requires Valid(t, psi, psiInverse) && RowData(t, psi, words, d, a, b, e, s, from, errors, secret, f, product, owner)
    requires OwnerData(t, d, x, product, owner) && c < Pow2(t.e)
    requires |words| == |a| == |b| == |d| == |errors| >= 1 && (forall p :: 0 <= p < |words| ==> |words[p]| == |a[p]| == |b[p]| == Pow2(t.e))
    requires (forall p :: 0 <= p < |words| ==> |d[p]| == |errors[p]| == Pow2(t.e)) && |secret| == |f| == |x| == Pow2(t.e)
    ensures Cong(Plus(BeforeDown(t, words, b), 1, Times(BeforeDown(t, words, a), secret))[c],
                 Plus(SumOfProducts(d, errors, |words|, Pow2(t.e)), product, Times(x, f))[c], t.q)
  {
    hide *;
    ValidModulus(t, psi, psiInverse);
    var left := Plus(BeforeDown(t, words, b), 1, Times(BeforeDown(t, words, a), secret));
    var right := Plus(SumOfProducts(d, errors, |words|, Pow2(t.e)), product, Times(x, f));
    forall j | 0 <= j < |left| ensures Interpolation.SameSlot(t, psi, left, right, j) {
      SlotIdentity(t, psi, psiInverse, words, d, a, b, e, s, from, errors, secret, f, product, owner, x, j);
      NttTheory.PointPower(t, psi, psiInverse, j);
      var z := NttTheory.Point(psi, t.e, j);
      TimesValue(BeforeDown(t, words, a), secret, z, t.q);
      PlusValue(BeforeDown(t, words, b), 1, Times(BeforeDown(t, words, a), secret), z, t.q);
      SumValue(d, errors, |words|, Pow2(t.e), z, t.q);
      TimesValue(x, f, z, t.q);
      PlusValue(SumOfProducts(d, errors, |words|, Pow2(t.e)), product, Times(x, f), z, t.q);
      ValueChain(Eval(left, z), Eval(BeforeDown(t, words, b), z), Eval(Times(BeforeDown(t, words, a), secret), z),
                 Eval(BeforeDown(t, words, a), z), Eval(secret, z), Eval(right, z), Eval(SumOfProducts(d, errors, |words|, Pow2(t.e)), z),
                 Dot(Values(d, z), Values(errors, z), |words|), product, Eval(Times(x, f), z), Eval(x, z), Eval(f, z), t.q);
      SameFrom(t, psi, left, right, j);
    }
    Interpolation.SlotsDetermine(t, psi, psiInverse, left, right, c);
  }

  lemma SameFrom(t: Derived, psi: int, a: seq<int>, b: seq<int>, j: nat)
    requires Cong(Eval(a, NttTheory.Point(psi, t.e, j)), Eval(b, NttTheory.Point(psi, t.e, j)), t.q)
    ensures Interpolation.SameSlot(t, psi, a, b, j)
  {
  }

  lemma ValueChain(left: int, x0: int, x1s: int, x1: int, s: int, right: int, sum: int, dot: int, p: int, xf: int, x: int, f: int, q: int)
    requires Cong(left, x0 + 1 * x1s, q) && Cong(x1s, x1 * s, q) && Cong(right, sum + p * xf, q) && Cong(sum, dot, q) && Cong(xf, x * f, q)
    requires Cong(x0 + x1 * s, dot + (p * x) * f, q)
    ensures Cong(left, right, q)
  {
    hide *;
    Refl2(x0, q, left, x0 + 1 * x1s);
    Add(x0, x0, x1s, x1 * s, q);
    Trans(left, x0 + x1s, x0 + x1 * s, q);
    Scale(p, xf, x * f, q);
    Add(sum, dot, p * xf, p * (x * f), q);
    Associate(p, x, f);
    Trans(right, sum + p * xf, dot + (p * x) * f, q);
    Sym(right, dot + (p * x) * f, q);
    Trans(left, x0 + x1 * s, dot + (p * x) * f, q);
    Trans(left, dot + (p * x) * f, right, q);
  }

  lemma Refl2(x: int, q: int, a: int, b: int)
    requires Cong(a, b, q)
    ensures Cong(x, x, q)
  {
  }
}
