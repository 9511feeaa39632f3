/** Root search (src/arithmetic/arithmetic.cpp) and the construction of the per-modulus tables
    (src/ckks/derived_parameters.cpp, src/ckks/precomputed.cpp). */
module DerivedParameters {
  import opened Congruence
  import opened Montgomery
  import opened NumberTheory
  import opened Arithmetic
  import opened BitReversal
  import opened Tables
  import opened Kernels

  // ---------- find_root ----------

  /** No base below the bound has been found yet. */
  ghost predicate NoneBelow(bound: int, unit: nat, n: nat, q: int) {
    forall a :: 1 <= a < bound ==> Cong(Pow(Pow(a, unit), n), 1, q)
  }

  lemma NoneBelowStep(bound: int, unit: nat, n: nat, q: int)
    requires q > 1 && bound >= 1
    ensures NoneBelow(1, unit, n, q)
    ensures NoneBelow(bound, unit, n, q) && Cong(Pow(Pow(bound, unit), n), 1, q) ==> NoneBelow(bound + 1, unit, n, q)
  {
  }

  lemma NoneBelowOne(unit: nat, n: nat, q: int)
    requires q > 1
    ensures NoneBelow(2, unit, n, q)
  {
    hide *;
    PowOne(unit);
    PowOne(n);
    Refl(1, q);
    NoneBelowStep(1, unit, n, q);
  }

  /** The search cannot run off the end. */
  lemma SomeBelow(unit: nat, n: nat, q: int)
    requires Prime(q) && n >= 1 && q - 1 == unit * (2 * n)
    ensures !NoneBelow(q, unit, n, q)
  {
    HalfOrder(unit, n, q);
    var a := PowerNotOne(unit * n, q);
    PowMul(a, unit, n);
  }

  lemma HalfOrder(unit: nat, n: nat, q: int)
    requires q > 1 && n >= 1 && q - 1 == unit * (2 * n)
    ensures 0 < unit * n < q - 1 && q - 1 == unit * n + unit * n && unit >= 1
  {
    assert unit * (2 * n) == 2 * (unit * n);
  }

  /** A power that is not one although its base is a residue is a root of -1. */
  lemma HalfPower(a: int, unit: nat, n: nat, q: int)
    requires Prime(q) && n >= 1 && q - 1 == unit * (2 * n) && 1 < a < q
    requires !Cong(Pow(Pow(a, unit), n), 1, q)
    ensures Cong(Pow(Pow(a, unit), n), -1, q)
  {
    hide *;
    Positive(q);
    HalfOrder(unit, n, q);
    ReducedNotZero(a, q);
    Fermat(a, q);
    PowMul(a, unit, n);
    PowAdd(a, unit * n, unit * n);
    SquareRootOfOne(Pow(Pow(a, unit), n), q);
  }

  /** For every prime q with 2n dividing q - 1 the search ends with an n-th root of -1. */
  method FindRoot(q: int, n: nat) returns (expUnit: int)
    requires Prime(q) && n >= 1 && (q - 1) % (2 * n) == 0
    ensures 0 < expUnit < q && Cong(Pow(expUnit, n), -1, q)
  {
    hide *;
    Positive(q);
    var unitPower := (q - 1) / (2 * n);
    Divide(q - 1, 2 * n);
    expUnit := 0;
    var index := 2;
    NoneBelowOne(unitPower, n, q);
    SignedWords();
    while index < q
      invariant 2 <= index <= q && NoneBelow(index, unitPower, n, q)
    {
      expUnit := ModulusPower(index, unitPower, q, false);
      var power := ModulusPower(expUnit, n, q, false);
      RootCandidate(index, unitPower, n, q, expUnit, power);
      if power != 1 {
        break;
      }
      NoneBelowStep(index, unitPower, n, q);
      index := index + 1;
    }
    if index == q { SomeBelow(unitPower, n, q); }
  }

  lemma RootCandidate(a: int, unit: nat, n: nat, q: int, expUnit: int, power: int)
    requires Prime(q) && n >= 1 && q - 1 == unit * (2 * n) && 1 < a < q
    requires Cong(expUnit, Pow(a, unit), q) && 0 <= expUnit < q
    requires Cong(power, Pow(expUnit, n), q) && 0 <= power < q
    ensures power == 1 ==> Cong(Pow(Pow(a, unit), n), 1, q)
    ensures power != 1 ==> expUnit != 0 && Cong(Pow(expUnit, n), -1, q)
  {
    hide *;
    Positive(q);
    PowCong(expUnit, Pow(a, unit), n, q);
    Trans(power, Pow(expUnit, n), Pow(Pow(a, unit), n), q);
    if power == 1 {
      Sym(1, Pow(Pow(a, unit), n), q);
    } else {
      if Cong(Pow(Pow(a, unit), n), 1, q) {
        Trans(power, Pow(Pow(a, unit), n), 1, q);
        Unique(power, 1, 0, q);
      }
      HalfPower(a, unit, n, q);
      Trans(Pow(expUnit, n), Pow(Pow(a, unit), n), -1, q);
      if expUnit == 0 { ZeroPower(n, q); }
    }
  }

  lemma ZeroPower(n: nat, q: int)
    requires q > 1 && n >= 1
    ensures Pow(0, n) == 0 && !Cong(0, -1, q)
  {
    assert Pow(0, n) == 0 * Pow(0, n - 1);
    if Cong(0, -1, q) {
      Add(0, -1, 1, 1, q);
      OneIsNotZero(q);
    }
  }

  // ---------- the order of the inverse roots ----------

  /** get_backward_paint: one run of consecutive indices per level. */
  method GetBackwardPaint(e: nat) returns (output: seq<nat>)
    ensures output == BackwardPaint(e, e)
  {
    output := [];
    for h := 0 to e
      invariant output == BackwardPaint(e, h)
    {
      var groupCount := Pow2(e - h - 1);
      var before := output;
      for groupIndex := 0 to groupCount
        invariant output == before + seq(groupIndex, i => groupCount + i)
      {
        output := output + [groupCount + groupIndex];
      }
    }
  }

  lemma {:induction false} PaintBounds(e: nat, h: nat)
    requires h <= e
    ensures forall i :: 0 <= i < |BackwardPaint(e, h)| ==> 0 < BackwardPaint(e, h)[i] < Pow2(e)
  {
    if h > 0 {
      PaintBounds(e, h - 1);
      Pow2Double(e - h);
      Pow2Monotone(e - h + 1, e);
    }
  }

  // ---------- the tables ----------

  lemma RootInvertible(psi: int, q: int)
    requires Prime(q) && 0 < psi < q
    ensures Invertible(psi, q)
  {
    ReducedNotZero(psi, q);
    var y := PrimeInverse(psi, q);
    Invert(psi, y, q);
  }

  /** coeff_count_inverse_ is R / N. */
  lemma CountInverse(n: int, inverse: int, c: int, q: int)
    requires Cong(n * inverse, 1, q) && Cong(c, inverse * R, q)
    ensures Cong(c * n, R, q)
  {
    hide *;
    MulRight(c, inverse * R, n, q);
    MulRight(n * inverse, 1, R, q);
    assert (inverse * R) * n == (n * inverse) * R;
    Trans(c * n, (n * inverse) * R, R, q);
  }

  /** What the power series, the shuffle and mont_enter leave at one place. */
  ghost predicate Entered(word: int, b: int, exponent: nat, q: int) {
    0 <= word < 2 * q && Cong(word, Pow(b, exponent) * R, q)
  }

  lemma EnterPower(x: int, b: int, exponent: nat, rSquared: int, q: int, k: int)
    requires MontModulus(q, k) && 0 <= rSquared < q && Cong(rSquared, R * R, q)
    requires 0 <= x < q && Cong(x, Pow(b, exponent), q)
    ensures Entered(Scalar(MontEnter(rSquared), x, x, x, q, k), b, exponent, q)
  {
    hide Cong, Pow, MontMultScalar, MontModulus;
    Enter(x, rSquared, q, k);
    Scale(R, x, Pow(b, exponent), q);
    Trans(MontMultScalar(x, rSquared, q, k), R * x, R * Pow(b, exponent), q);
    assert R * Pow(b, exponent) == Pow(b, exponent) * R;
  }

  /** Powers of b, bit-reversed and entered, picked out by a list of indices. */
  method Table(b: int, e: nat, paint: seq<nat>, rSquared: int, q: int, k: int) returns (table: seq<int>)
    requires e >= 1 && q > 1 && b >= 0
    requires forall i :: 0 <= i < |paint| ==> 0 < paint[i] < Pow2(e)
    ensures |table| == |paint|
    ensures MontModulus(q, k) && 0 <= rSquared < q && Cong(rSquared, R * R, q) ==>
      forall i :: 0 <= i < |paint| ==> Entered(table[i], b, Rev(e, paint[i]), q)
  {
    hide Cong, MontModulus, Entered, Scalar, Rev, Pow, Pow2;
    var series := PowerSeries(b, q, Pow2(e));
    var shuffled := BitReverseOrder(series, e);
    var words := new int[|paint|](i requires 0 <= i < |paint| => shuffled[paint[i]]);
    Run(MontEnter(rSquared), words, words, words, q, k);
    table := words[..];
    if MontModulus(q, k) && 0 <= rSquared < q && Cong(rSquared, R * R, q) {
      forall i | 0 <= i < |paint| ensures Entered(table[i], b, Rev(e, paint[i]), q) {
        EnterPower(shuffled[paint[i]], b, Rev(e, paint[i]), rSquared, q, k);
      }
    }
  }

  lemma TablesValid(t: Derived, psi: int, psiInverse: int, paint: seq<nat>)
    requires t.e >= 1 && MontModulus(t.q, t.k) && NegacyclicRoot(psi, psiInverse, t.e, t.q)
    requires 0 <= t.rSquared < t.q && Cong(t.rSquared, R * R, t.q)
    requires 0 <= t.coeffCountInverse < t.q && Cong(t.coeffCountInverse * Pow2(t.e), R, t.q)
    requires |t.root| == Pow2(t.e) - 1 && |t.rootInverse| == |paint| && paint == BackwardPaint(t.e, t.e)
    requires forall i :: 0 <= i < |t.root| ==> Entered(t.root[i], psi, Rev(t.e, i + 1), t.q)
    requires forall i :: 0 <= i < |paint| ==> Entered(t.rootInverse[i], psiInverse, Rev(t.e, paint[i]), t.q)
    ensures Valid(t, psi, psiInverse)
  {
    hide Cong, MontModulus, NegacyclicRoot, Rev, Pow, BackwardPaint;
    assert Pow2(0) == 1;
  }

  /** For every prime q with 2^(e+1) dividing q - 1 and 4q below the radix, the constructor finds a
      negacyclic root and fills every table as the transforms need it. */
  method Derive(q: int, e: nat) returns (t: Derived, psi: int, psiInverse: int)
    requires e >= 1 && Prime(q) && (q - 1) % Pow2(e + 1) == 0 && 4 * q <= R
    ensures t.q == q && t.e == e && Valid(t, psi, psiInverse)
  {
    OddModulus(q, e);
    hide *;
    var rSquared := ModulusMultiply(R, R, q);
    var k := CalculateK(q);
    Pow2Invertible(e, q);
    var countInverse := ModulusInvert(Pow2(e), q);
    var coeffCountInverse := ModulusMultiply(countInverse, R, q);
    CountInverse(Pow2(e), countInverse, coeffCountInverse, q);
    psi := FindRoot(q, Pow2(e));
    RootInvertible(psi, q);
    psiInverse := ModulusInvert(psi, q);
    var root := Table(psi, e, seq(Pow2(e) - 1, i requires 0 <= i => i + 1), rSquared, q, k);
    var paint := GetBackwardPaint(e);
    PaintBounds(e, e);
    var rootInverse := Table(psiInverse, e, paint, rSquared, q, k);
    t := Derived(e, q, k, rSquared, coeffCountInverse, root, rootInverse);
    NegacyclicRootIs(psi, psiInverse, e, q);
    TablesValid(t, psi, psiInverse, paint);
  }

  lemma NegacyclicRootIs(psi: int, psiInverse: int, e: nat, q: int)
    requires Cong(Pow(psi, Pow2(e)), -1, q) && Cong(psi * psiInverse, 1, q)
    ensures NegacyclicRoot(psi, psiInverse, e, q)
  {
  }

  lemma OddModulus(q: int, e: nat)
    requires q > 1 && e >= 1 && (q - 1) % Pow2(e + 1) == 0
    ensures q % 2 == 1 && (q - 1) % (2 * Pow2(e)) == 0
  {
    Pow2Double(e);
    hide *;
    Divide(q - 1, 2 * Pow2(e));
    Odd(q, Pow2(e), (q - 1) / (2 * Pow2(e)));
  }

  lemma Odd(q: int, n: int, k: int)
    requires q - 1 == k * (2 * n)
    ensures q % 2 == 1
  {
    assert k * (2 * n) == 2 * (k * n);
  }
}
