/** The integer loops of src/arithmetic/arithmetic.cpp. */
module Arithmetic {
  import opened Congruence
  import opened Montgomery

  // ---------- modulus_invert ----------

  /** Invertible residues. */
  ghost predicate Invertible(x: int, modulus: int) {
    exists y :: Cong(x * y, 1, modulus)
  }

  function Abs(x: int): nat {
    if x >= 0 then x else -x
  }

  ghost predicate OppositeSigns(s: int, r: int) {
    (s >= 0 && r <= 0) || (s <= 0 && r >= 0)
  }

  ghost predicate Weights(a: int, b: int, s: nat, r: nat, modulus: int) {
    s * b + r * a == modulus
  }

  /** What every round of the Euclidean loop keeps: the Bezout congruences, and the size of the
      coefficients. The coefficients have opposite signs and, with the remainders as weights, always
      add up to the modulus, which bounds every word of the computation by the modulus. */
  ghost predicate Euclid(x: int, modulus: int, a: int, b: int, s: int, r: int) {
    && a >= 0 && b >= 0
    && Cong(a, x * s, modulus) && Cong(b, x * r, modulus)
    && OppositeSigns(s, r) && Weights(a, b, Abs(s), Abs(r), modulus)
    && ((s == 1 && r == 0) || (a > b && Abs(s) <= Abs(r)))
  }

  lemma EuclidStep(x: int, modulus: int, a: int, b: int, s: int, r: int, d: int, c: int)
    requires Euclid(x, modulus, a, b, s, r) && d >= 0 && 0 <= c < b && a == d * b + c
    ensures Euclid(x, modulus, b, c, r, s - d * r)
  {
    hide Cong, Weights, Abs, OppositeSigns;
    EuclidCong(x, modulus, a, b, s, r, d, c);
    SignStep(s, r, d);
    WeightStep(a, b, Abs(s), Abs(r), modulus, d, c);
    if a > b { QuotientPositive(a, b, d, c); }
    if d >= 1 { AtLeast(d, Abs(r)); }
    AbsZero(r);
  }

  lemma AbsZero(r: int)
    ensures Abs(0) == 0 && Abs(1) == 1 && Abs(r) >= 0
  {
  }

  lemma QuotientPositive(a: int, b: int, d: int, c: int)
    requires d >= 0 && c < b < a && a == d * b + c
    ensures d >= 1
  {
  }

  lemma EuclidCong(x: int, modulus: int, a: int, b: int, s: int, r: int, d: int, c: int)
    requires Cong(a, x * s, modulus) && Cong(b, x * r, modulus) && a == d * b + c
    ensures Cong(c, x * (s - d * r), modulus)
  {
    hide *;
    Scale(d, b, x * r, modulus);
    Sub(a, x * s, d * b, d * (x * r), modulus);
    assert x * (s - d * r) == x * s - d * (x * r);
  }

  lemma WeightStep(a: int, b: int, s: nat, r: nat, modulus: int, d: nat, c: int)
    requires Weights(a, b, s, r, modulus) && a == d * b + c
    ensures d * r >= 0 && Weights(b, c, r, s + d * r, modulus)
  {
    assert r * (d * b) == (d * r) * b;
  }

  lemma SignStep(s: int, r: int, d: nat)
    requires OppositeSigns(s, r)
    ensures OppositeSigns(r, s - d * r) && d * Abs(r) >= 0 && Abs(s - d * r) == Abs(s) + d * Abs(r)
  {
    if r >= 0 { assert d * r >= 0; } else { assert d * -r >= 0 && d * r == -(d * -r); }
  }

  /** The last remainder divides both inputs, so an input with an inverse has last remainder 1. */
  lemma LastRemainder(x: int, modulus: int, a: int, u: int, w: int)
    requires a > 0 && x == u * a && modulus == w * a && Invertible(x, modulus)
    ensures a == 1
  {
    var y :| Cong(x * y, 1, modulus);
    var k := Quotient(x * y, 1, modulus);
    UnitFactor(a, u, y, k, w);
  }

  lemma AtMost(f: int, a: int)
    requires f <= 0 && a > 0
    ensures f * a <= 0
  {
  }

  lemma UnitFactor(a: int, u: int, y: int, k: int, w: int)
    requires a > 0 && (u * a) * y == 1 + k * (w * a)
    ensures a == 1
  {
    var f := u * y - k * w;
    assert f * a == 1 by {
      assert (u * a) * y == (u * y) * a && k * (w * a) == (k * w) * a;
    }
    if f >= 1 { AtLeast(f, a); } else { AtMost(f, a); }
  }

  /** The coefficient found is an inverse, and after one correction it is reduced. */
  lemma InverseFound(x: int, modulus: int, s: int, r: int)
    requires Euclid(x, modulus, 1, 0, s, r) && modulus > 1
    ensures var y := if s >= 0 then s else s + modulus; 0 < y < modulus && Cong(x * y, 1, modulus)
  {
    var y := if s >= 0 then s else s + modulus;
    Sym(1, x * s, modulus);
    assert Abs(s) <= modulus;
    if s < 0 {
      FromQuotient(x * y, x * s, modulus, x);
      Trans(x * y, x * s, 1, modulus);
    }
    if y == 0 || y == modulus { NoUnit(x, modulus, y); }
  }

  lemma NoUnit(x: int, modulus: int, y: int)
    requires modulus > 1 && (y == 0 || y == modulus)
    ensures !Cong(x * y, 1, modulus)
  {
    OneIsNotZero(modulus);
    FromQuotient(x * y, 0, modulus, if y == 0 then 0 else x);
  }

  lemma Divide(a: int, b: int)
    requires a >= 0 && b > 0
    ensures a == (a / b) * b + a % b && 0 <= a % b < b && a / b >= 0
  {
  }

  lemma Combine(x: int, u: int, v: int, a: int, b: int, d: int, c: int)
    requires x == u * a + v * b && a == d * b + c
    ensures x == (u * d + v) * b + u * c
  {
    assert u * (d * b) == (u * d) * b;
  }

  lemma EuclidStart(x: int, modulus: int)
    requires modulus > 0 && x >= 0
    ensures Euclid(x, modulus, x, modulus, 1, 0)
  {
    Refl(x, modulus);
    FromQuotient(modulus, 0, modulus, 1);
  }

  lemma EuclidEnd(x: int, modulus: int, a: int, s: int, r: int)
    requires modulus > 0 && Euclid(x, modulus, a, 0, s, r)
    ensures a > 0
  {
  }

  lemma WeightBound(a: int, b: int, s: nat, r: nat, modulus: int)
    requires a > 0 && b >= 0 && Weights(a, b, s, r, modulus)
    ensures r <= modulus
  {
    AtLeast(a, r);
    assert s * b >= 0;
  }

  lemma AbsBound(x: int, bound: int)
    ensures Abs(x) <= bound <==> -bound <= x <= bound
    ensures Abs(0) == 0 && Abs(1) == 1
  {
  }

  /** No word of the computation leaves the window of the modulus. */
  lemma EuclidBounded(x: int, modulus: int, a: int, b: int, s: int, r: int)
    requires modulus > 0 && Euclid(x, modulus, a, b, s, r)
    ensures -modulus <= s <= modulus && -modulus <= r <= modulus
  {
    hide Cong, Weights, Abs, OppositeSigns;
    if a > 0 {
      WeightBound(a, b, Abs(s), Abs(r), modulus);
    }
    AbsBound(s, modulus);
    AbsBound(r, modulus);
  }

  lemma Invert(x: int, y: int, modulus: int)
    requires Cong(x * y, 1, modulus)
    ensures Invertible(x, modulus)
  {
  }

  /** Division and remainder of C, which truncate toward zero. */
  function Truncated(a: int, b: int): int
    requires b > 0
  {
    if a >= 0 then a / b else -(-a / b)
  }

  function Remainder(a: int, b: int): int
    requires b > 0
  {
    if a >= 0 then a % b else -(-a % b)
  }

  /** One round from a negative start already ends the loop. */
  lemma TruncatedDivision(a: int, b: int)
    requires b > 0
    ensures a - Truncated(a, b) * b == Remainder(a, b) && Cong(Remainder(a, b), a, b)
    ensures a >= 0 ==> Truncated(a, b) >= 0 && 0 <= Remainder(a, b) < b
    ensures a < 0 ==> -b < Remainder(a, b) <= 0
  {
    Divide(Abs(a), b);
    var d := Abs(a) / b;
    FromQuotient(Remainder(a, b), a, b, if a >= 0 then -d else d);
  }

  /** Zero stands for "no inverse", which is also the answer to every negative input. */
  method ModulusInvert(x: int, modulus: int) returns (inverse: int)
    requires modulus > 0
    ensures x < 0 ==> inverse == 0
    ensures x >= 0 && modulus > 1 ==> (inverse != 0 <==> Invertible(x, modulus))
    ensures modulus > 1 && inverse != 0 ==> 0 < inverse < modulus && Cong(x * inverse, 1, modulus)
  {
    hide *;
    var dividend, divisor := x, modulus;
    var dividendReverse, divisorReverse := 1, 0;
    ghost var u, v, w, z := 1, 0, 0, 1;
    if x >= 0 { EuclidStart(x, modulus); }
    while divisor > 0
      invariant x < 0 ==> (dividend == x && divisor == modulus && divisorReverse == 0) || (divisor <= 0 && dividend == modulus && dividendReverse == 0)
      invariant x >= 0 ==> Euclid(x, modulus, dividend, divisor, dividendReverse, divisorReverse)
      invariant x >= 0 ==> dividend >= 0 && divisor >= 0
      invariant x >= 0 ==> -modulus <= dividendReverse <= modulus && -modulus <= divisorReverse <= modulus
      invariant x >= 0 ==> x == u * dividend + v * divisor && modulus == w * dividend + z * divisor
    {
      var quotient := Truncated(dividend, divisor);
      ghost var a, b, s, r := dividend, divisor, dividendReverse, divisorReverse;
      TruncatedDivision(a, b);
      dividend, divisor := divisor, dividend;
      divisor := divisor - quotient * dividend;
      dividendReverse, divisorReverse := divisorReverse, dividendReverse;
      divisorReverse := divisorReverse - quotient * dividendReverse;
      if x >= 0 {
        EuclidStep(x, modulus, a, b, s, r, quotient, divisor);
        EuclidBounded(x, modulus, dividend, divisor, dividendReverse, divisorReverse);
        Combine(x, u, v, a, b, quotient, divisor);
        Combine(modulus, w, z, a, b, quotient, divisor);
        u, v, w, z := u * quotient + v, u, w * quotient + z, w;
      }
    }
    if x >= 0 && modulus > 1 {
      EuclidEnd(x, modulus, dividend, dividendReverse, divisorReverse);
      if dividend == 1 {
        InverseFound(x, modulus, dividendReverse, divisorReverse);
        Invert(x, if dividendReverse >= 0 then dividendReverse else dividendReverse + modulus, modulus);
      } else if Invertible(x, modulus) {
        LastRemainder(x, modulus, dividend, u, w);
      }
    }
    if dividend != 1 {
      return 0;
    }
    return if dividendReverse >= 0 then dividendReverse else dividendReverse + modulus;
  }

  /** positive_modulo: the C remainder moved into [0, modulus). */
  function PositiveModulo(x: int, modulus: int): (r: int)
    requires modulus > 0
    ensures 0 <= r < modulus && Cong(r, x, modulus)
  {
    var c := Remainder(x, modulus);
    TruncatedDivision(x, modulus);
    Residue(modulus + c, modulus);
    FromQuotient(modulus + c, c, modulus, 1);
    (modulus + c) % modulus
  }

  // ---------- modular products and powers ----------

  /** The operands are signed 64-bit words, and so is the result: it is smaller than the modulus. A
      negative modulus acts as its absolute value. */
  function ModulusMultiply(x1: int, x2: int, modulus: int): (r: int)
    requires modulus != 0
    ensures Cong(r, x1 * x2, if modulus > 0 then modulus else -modulus)
    ensures modulus > 0 ==> -modulus < r < modulus && (x1 >= 0 && x2 >= 0 ==> 0 <= r)
    ensures modulus < 0 ==> modulus < r < -modulus && (x1 >= 0 && x2 >= 0 ==> 0 <= r)
  {
    var m := if modulus > 0 then modulus else -modulus;
    TruncatedDivision(x1 * x2, m);
    if x1 >= 0 && x2 >= 0 then NatProduct(x1, x2); Remainder(x1 * x2, m)
    else Remainder(x1 * x2, m)
  }

  lemma NatProduct(x1: int, x2: int)
    requires x1 >= 0 && x2 >= 0
    ensures x1 * x2 >= 0
  {
  }

  /** modulus_power is instantiated for signed and for unsigned words, but modulus_multiply takes and
      returns signed ones: an unsigned 64-bit word is reinterpreted on the way in and on the way out.
      The signed and the 32-bit instance pass their words unchanged. */
  function Passed(x: int, unsigned: bool): int {
    if unsigned then ToInt64(x) else x
  }

  function Returned(x: int, unsigned: bool): int {
    if unsigned then x % TWO64 else x
  }

  /** The modulus that the products are really reduced by. */
  function Narrowed(modulus: int, unsigned: bool): int {
    if unsigned && modulus >= TWO63 then TWO64 - modulus else modulus
  }

  predicate IsWord(x: int, unsigned: bool) {
    unsigned ==> 0 <= x < TWO64
  }

  lemma PassedReturned(x: int, unsigned: bool)
    requires unsigned ==> -TWO63 <= x < TWO63
    ensures Passed(Returned(x, unsigned), unsigned) == x && (x >= 0 ==> Returned(x, unsigned) == x)
    ensures IsWord(Returned(x, unsigned), unsigned)
  {
  }

  lemma PassedWord(x: int, unsigned: bool)
    requires IsWord(x, unsigned)
    ensures Passed(x, unsigned) == if unsigned && x >= TWO63 then x - TWO64 else x
  {
  }

  lemma PassedModulus(modulus: int, unsigned: bool)
    requires modulus > 0 && IsWord(modulus, unsigned)
    ensures var p, m := Passed(modulus, unsigned), Narrowed(modulus, unsigned);
      p != 0 && m > 0 && m == (if p > 0 then p else -p) && (unsigned ==> m <= TWO63) && m <= modulus
  {
  }

  lemma SignedWords()
    ensures forall x :: IsWord(x, false)
  {
  }

  lemma PassedOne(unsigned: bool)
    ensures Passed(1, unsigned) == 1
  {
  }

  /** Right-to-left binary exponentiation: current * base^exponent never changes modulo the modulus that
      is in force. */
  method ModulusPower(b: int, e: int, modulus: int, unsigned: bool) returns (current: int)
    requires modulus > 0 && IsWord(b, unsigned) && IsWord(e, unsigned) && IsWord(modulus, unsigned)
    ensures e <= 0 ==> current == 1
    ensures e >= 0 ==> Cong(Passed(current, unsigned), Pow(Passed(b, unsigned), e), Narrowed(modulus, unsigned))
    ensures Passed(b, unsigned) >= 0 && (Narrowed(modulus, unsigned) > 1 || e > 0) ==> 0 <= current < Narrowed(modulus, unsigned)
    ensures Passed(b, unsigned) >= 0 ==> Passed(current, unsigned) == current
    ensures !unsigned && e >= 0 ==> Cong(current, Pow(b, e), modulus)
    ensures !unsigned && b >= 0 && modulus > 1 ==> 0 <= current < modulus
  {
    hide *;
    var base, exponent := b, e;
    var p := Passed(modulus, unsigned);
    ghost var m := Narrowed(modulus, unsigned);
    PassedModulus(modulus, unsigned);
    PassedOne(unsigned);
    current := 1;
    if e >= 0 { PowerStart(Passed(b, unsigned), e, m); }
    while exponent > 0
      invariant e <= 0 ==> current == 1 && exponent == e
      invariant e >= 0 ==> exponent >= 0 && Cong(Passed(current, unsigned) * Pow(Passed(base, unsigned), exponent), Pow(Passed(b, unsigned), e), m)
      invariant Passed(b, unsigned) >= 0 ==> Passed(base, unsigned) >= 0 && current >= 0 && Passed(current, unsigned) == current
      invariant Passed(b, unsigned) >= 0 && (m > 1 || (e > 0 && exponent == 0)) ==> current < m
    {
      ghost var c := Passed(current, unsigned);
      if exponent % 2 == 1 {
        var multiplied := ModulusMultiply(Passed(current, unsigned), Passed(base, unsigned), p);
        PassedReturned(multiplied, unsigned);
        current := Returned(multiplied, unsigned);
      }
      var squared := ModulusMultiply(Passed(base, unsigned), Passed(base, unsigned), p);
      PassedReturned(squared, unsigned);
      PowerRound(c, Passed(base, unsigned), exponent, Passed(current, unsigned), squared, m);
      Trans(Passed(current, unsigned) * Pow(squared, exponent / 2), c * Pow(Passed(base, unsigned), exponent), Pow(Passed(b, unsigned), e), m);
      base := Returned(squared, unsigned);
      exponent := exponent / 2;
    }
    if e >= 0 { PowerEnd(Passed(current, unsigned), Passed(base, unsigned)); }
    if !unsigned { SignedInstance(current, b, modulus); }
  }

  lemma SignedInstance(current: int, b: int, modulus: int)
    ensures Passed(current, false) == current && Passed(b, false) == b && Narrowed(modulus, false) == modulus
  {
  }

  lemma PowerStart(b: int, e: nat, modulus: int)
    requires modulus > 0
    ensures Cong(1 * Pow(b, e), Pow(b, e), modulus)
  {
  }

  lemma PowerEnd(c: int, b: int)
    ensures c * Pow(b, 0) == c
  {
  }

  lemma PowHalf(b: int, e: nat)
    ensures Pow(b, e) == (if e % 2 == 1 then b else 1) * Pow(b * b, e / 2)
  {
    PowProduct(b, b, e / 2);
    PowAdd(b, e / 2, e / 2);
    if e % 2 == 1 { assert Pow(b, e) == b * Pow(b, e - 1); }
  }

  lemma PowerRound(c: int, b: int, e: nat, c': int, b': int, modulus: int)
    requires e > 0 && Cong(b', b * b, modulus)
    requires if e % 2 == 1 then Cong(c', c * b, modulus) else c' == c && modulus > 0
    ensures Cong(c' * Pow(b', e / 2), c * Pow(b, e), modulus)
  {
    hide *;
    PowHalf(b, e);
    PowCong(b', b * b, e / 2, modulus);
    if e % 2 == 1 {
      Mul(c', c * b, Pow(b', e / 2), Pow(b * b, e / 2), modulus);
      Associate(c, b, Pow(b * b, e / 2));
    } else {
      Scale(c, Pow(b', e / 2), Pow(b * b, e / 2), modulus);
    }
  }

  /** The powers of the root in order, reduced; at least one entry. */
  method PowerSeries(root: int, modulus: int, count: int) returns (series: seq<int>)
    requires modulus > 1 && root >= 0
    ensures |series| == if count >= 1 then count else 1
    ensures forall i :: 0 <= i < |series| ==> 0 <= series[i] < modulus && Cong(series[i], Pow(root, i), modulus)
  {
    hide *;
    series := [1];
    var product := 1;
    PowerZero(root, modulus);
    for index := 1 to if count >= 1 then count else 1
      invariant |series| == index && product == series[index - 1]
      invariant forall i :: 0 <= i < index ==> 0 <= series[i] < modulus && Cong(series[i], Pow(root, i), modulus)
    {
      PowerNext(root, index, product, ModulusMultiply(product, root, modulus), modulus);
      product := ModulusMultiply(product, root, modulus);
      series := series + [product];
    }
  }

  lemma PowerZero(root: int, modulus: int)
    requires modulus > 0
    ensures Cong(1, Pow(root, 0), modulus)
  {
  }

  lemma PowerNext(root: int, i: nat, p: int, p': int, modulus: int)
    requires i > 0 && Cong(p, Pow(root, i - 1), modulus) && Cong(p', p * root, modulus)
    ensures Cong(p', Pow(root, i), modulus)
  {
    hide Cong;
    MulRight(p, Pow(root, i - 1), root, modulus);
    Trans(p', p * root, Pow(root, i - 1) * root, modulus);
    assert Pow(root, i) == Pow(root, i - 1) * root;
  }

  // ---------- the Montgomery constant ----------

  lemma RadixPower()
    ensures R == Pow2(62)
  {
    hide Pow2;
    Pow2Four();
    Pow2Add(4, 4);
    Pow2Add(8, 8);
    Pow2Add(16, 16);
    Pow2Add(32, 28);
    Pow2Add(16, 12);
    Pow2Add(8, 4);
    Pow2Double(60);
    Pow2Double(61);
  }

  lemma Pow2Four()
    ensures Pow2(4) == 16
  {
  }

  /** Powers of two are invertible modulo every odd modulus. */
  lemma Pow2Invertible(e: nat, q: int)
    requires q > 1 && q % 2 == 1
    ensures Invertible(Pow2(e), q)
  {
    var half := (q + 1) / 2;
    FromQuotient(2 * half, 1, q, 1);
    hide *;
    PowCong(2 * half, 1, e, q);
    PowOne(e);
    PowProduct(2, half, e);
    Pow2IsPow(e);
    Invert(Pow2(e), Pow(half, e), q);
  }

  lemma RadixInvertible(q: int)
    requires q > 1 && q % 2 == 1
    ensures Invertible(R, q)
  {
    RadixPower();
    Pow2Invertible(62, q);
  }

  /** calculate_k: the k that every kernel expects. */
  method CalculateK(q: int) returns (k: int)
    requires q > 1 && q % 2 == 1 && 4 * q <= R
    ensures MontModulus(q, k)
  {
    hide *;
    var inverse := ModulusInvert(R, q);
    RadixInvertible(q);
    KMeaning(inverse, q);
    k := Truncated(R * inverse - 1, q);
  }

  lemma KMeaning(inverse: int, q: int)
    requires 0 < inverse < q && 4 * q <= R && Cong(R * inverse, 1, q)
    ensures MontModulus(q, Truncated(R * inverse - 1, q))
  {
    var k := Quotient(R * inverse, 1, q);
    DivModUnique(R * inverse - 1, k, 0, q);
    FromQuotient(k * q, -1, R, inverse);
    if k >= R { AtLeast(k - R + 1, q); }
    if k < 0 { AtLeast(-k, q); }
  }
}
