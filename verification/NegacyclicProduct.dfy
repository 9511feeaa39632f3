/** Multiplication in Z[X]/(X^N + 1), by coefficients and by values. */
module NegacyclicProduct {
  import opened Congruence
  import opened Polynomial

  /** Coefficient i of a polynomial extended to negative indices with X^N = -1. */
  function Wrapped(b: seq<int>, i: int): int
    requires -|b| <= i < |b|
  {
    if i >= 0 then b[i] else -b[i + |b|]
  }

  /** The part of coefficient i that the first m coefficients of a contribute. */
  function Coefficient(a: seq<int>, b: seq<int>, i: nat, m: nat): int
    requires m <= |a| == |b| && i < |b|
  {
    if m == 0 then 0 else Coefficient(a, b, i, m - 1) + a[m - 1] * Wrapped(b, i - (m - 1))
  }

  function Product(a: seq<int>, b: seq<int>, m: nat): (p: seq<int>)
    requires m <= |a| == |b|
    ensures |p| == |b|
  {
    seq(|b|, i requires 0 <= i < |b| => Coefficient(a, b, i, m))
  }

  /** b * X^m. */
  function Shifted(b: seq<int>, m: nat): (p: seq<int>)
    requires m <= |b|
    ensures |p| == |b|
  {
    seq(|b|, i requires 0 <= i < |b| => Wrapped(b, i - m))
  }

  function Negated(s: seq<int>): (n: seq<int>)
    ensures |n| == |s|
  {
    seq(|s|, i requires 0 <= i < |s| => -s[i])
  }

  lemma ShiftedParts(b: seq<int>, m: nat)
    requires m <= |b|
    ensures Shifted(b, m) == Negated(b[|b| - m..]) + b[..|b| - m]
    ensures b == b[..|b| - m] + b[|b| - m..]
  {
    forall i | 0 <= i < |b| ensures Shifted(b, m)[i] == (Negated(b[|b| - m..]) + b[..|b| - m])[i] {
      if i < m {
        assert Wrapped(b, i - m) == -b[|b| - m..][i];
      } else {
        assert Wrapped(b, i - m) == b[..|b| - m][i - m];
      }
    }
  }

  lemma ShiftedEval(b: seq<int>, m: nat, z: int, q: int)
    requires q > 0 && m <= |b| && Cong(Pow(z, |b|), -1, q)
    ensures Cong(Eval(Shifted(b, m), z), Pow(z, m) * Eval(b, z), q)
  {
    var low, high := b[..|b| - m], b[|b| - m..];
    var negated := Negated(high);
    hide *;
    ShiftedParts(b, m);
    EvalNegated(high, z);
    EvalConcat(negated, low, z);
    EvalConcat(low, high, z);
    PowAdd(z, m, |b| - m);
    MulRight(Pow(z, |b|), -1, Eval(high, z), q);
    ShiftAlgebra(Pow(z, m), Pow(z, |b| - m), Pow(z, |b|), Eval(low, z), Eval(high, z), q);
  }

  lemma ShiftAlgebra(p: int, r: int, n: int, low: int, high: int, q: int)
    requires n == p * r && Cong(n * high, -1 * high, q)
    ensures Cong(-high + p * low, p * (low + r * high), q)
  {
    hide *;
    assert p * (low + r * high) == p * low + n * high;
    Refl(p * low, q) by { Positive(n * high, -1 * high, q); }
    Add(p * low, p * low, n * high, -1 * high, q);
    Sym(p * low + n * high, p * low + -1 * high, q);
  }

  lemma Positive(a: int, b: int, q: int)
    requires Cong(a, b, q)
    ensures q > 0
  {
  }

  lemma {:induction false} EvalNegated(s: seq<int>, z: int)
    ensures Eval(Negated(s), z) == -Eval(s, z)
  {
    if s != [] {
      EvalNegated(s[1..], z);
      assert Negated(s)[1..] == Negated(s[1..]);
      assert z * -Eval(s[1..], z) == -(z * Eval(s[1..], z));
    }
  }

  lemma {:induction false} ProductEval(a: seq<int>, b: seq<int>, m: nat, z: int, q: int)
    requires q > 0 && m <= |a| == |b| && Cong(Pow(z, |b|), -1, q)
    ensures Cong(Eval(Product(a, b, m), z), Eval(a[..m], z) * Eval(b, z), q)
  {
    if m == 0 {
      EvalZeros(|b|, z);
      assert Product(a, b, 0) == seq(|b|, i => 0);
    } else {
      ProductEval(a, b, m - 1, z, q);
      ShiftedEval(b, m - 1, z, q);
      var sum, shifted := Product(a, b, m - 1), Shifted(b, m - 1);
      EvalLinear(Product(a, b, m), sum, a[m - 1], shifted, z, q);
      assert a[..m] == a[..m - 1] + [a[m - 1]];
      EvalConcat(a[..m - 1], [a[m - 1]], z);
      assert Eval([a[m - 1]], z) == a[m - 1];
      hide *;
      ProductAlgebra(Eval(Product(a, b, m), z), Eval(sum, z), Eval(shifted, z), a[m - 1], Eval(a[..m - 1], z),
                     Eval(b, z), Pow(z, m - 1), q);
    }
  }

  lemma ProductAlgebra(p: int, sum: int, shifted: int, c: int, e: int, f: int, power: int, q: int)
    requires Cong(p, sum + c * shifted, q) && Cong(sum, e * f, q) && Cong(shifted, power * f, q)
    ensures Cong(p, (e + power * c) * f, q)
  {
    hide *;
    Scale(c, shifted, power * f, q);
    Add(sum, e * f, c * shifted, c * (power * f), q);
    Trans(p, sum + c * shifted, e * f + c * (power * f), q);
    assert (e + power * c) * f == e * f + c * (power * f);
  }

  /** The value of the product is the product of the values at every point with z^N = -1. */
  lemma ProductValue(a: seq<int>, b: seq<int>, z: int, q: int)
    requires q > 0 && |a| == |b| && Cong(Pow(z, |b|), -1, q)
    ensures Cong(Eval(Product(a, b, |a|), z), Eval(a, z) * Eval(b, z), q)
  {
    assert a[..|a|] == a;
    ProductEval(a, b, |a|, z, q);
  }
}
