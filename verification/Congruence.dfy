/** Congruence modulo a positive integer, powers, and sequences of residues.

    The lemmas here keep division out of every other proof: a congruence is taken apart with
    Quotient and put together with FromQuotient, and what lies between is ring algebra. */
module Congruence {

  ghost predicate Cong(a: int, b: int, q: int) {
    q > 0 && a % q == b % q
  }

  // ---------- division with remainder ----------

  lemma DivModUnique(x: int, d: int, r: int, q: int)
    requires 0 <= r < q && x == d * q + r
    ensures x / q == d && x % q == r
  {
    var d', r' := x / q, x % q;
    assert (d - d') * q == r' - r by { assert x == d' * q + r'; }
    if d > d' {
      AtLeast(d - d', q);
    } else if d < d' {
      AtLeast(d' - d, q);
    }
  }

  lemma AtLeast(a: int, q: int)
    requires a >= 1 && q >= 0
    ensures a * q >= q
  {
  }

  lemma FromQuotient(a: int, b: int, q: int, k: int)
    requires q > 0 && a == b + k * q
    ensures Cong(a, b, q)
  {
    var d, r := b / q, b % q;
    assert a == (d + k) * q + r by { assert b == d * q + r; }
    DivModUnique(a, d + k, r, q);
  }

  lemma Quotient(a: int, b: int, q: int) returns (k: int)
    requires Cong(a, b, q)
    ensures a == b + k * q
  {
    k := a / q - b / q;
    assert a == (a / q) * q + a % q && b == (b / q) * q + b % q;
  }

  lemma Residue(a: int, q: int)
    requires q > 0
    ensures 0 <= a % q < q && Cong(a % q, a, q) && Cong(a, a % q, q)
  {
    FromQuotient(a, a % q, q, a / q);
  }

  // ---------- the ring of residues ----------

  lemma Refl(a: int, q: int)
    requires q > 0
    ensures Cong(a, a, q)
  {
  }

  lemma Sym(a: int, b: int, q: int)
    requires Cong(a, b, q)
    ensures Cong(b, a, q)
  {
  }

  lemma Trans(a: int, b: int, c: int, q: int)
    requires Cong(a, b, q) && Cong(b, c, q)
    ensures Cong(a, c, q)
  {
  }

  lemma Add(a: int, b: int, c: int, d: int, q: int)
    requires Cong(a, b, q) && Cong(c, d, q)
    ensures Cong(a + c, b + d, q)
  {
    var k := Quotient(a, b, q);
    var l := Quotient(c, d, q);
    FromQuotient(a + c, b + d, q, k + l);
  }

  lemma Sub(a: int, b: int, c: int, d: int, q: int)
    requires Cong(a, b, q) && Cong(c, d, q)
    ensures Cong(a - c, b - d, q)
  {
    var k := Quotient(a, b, q);
    var l := Quotient(c, d, q);
    FromQuotient(a - c, b - d, q, k - l);
  }

  lemma MulRight(a: int, b: int, c: int, q: int)
    requires Cong(a, b, q)
    ensures Cong(a * c, b * c, q)
  {
    var k := Quotient(a, b, q);
    assert a * c == b * c + (k * c) * q;
    FromQuotient(a * c, b * c, q, k * c);
  }

  lemma Mul(a: int, b: int, c: int, d: int, q: int)
    requires Cong(a, b, q) && Cong(c, d, q)
    ensures Cong(a * c, b * d, q)
  {
    hide *;
    MulRight(a, b, c, q);
    MulRight(c, d, b, q);
    assert c * b == b * c && d * b == b * d;
    Trans(a * c, b * c, b * d, q);
  }

  lemma Scale(c: int, a: int, b: int, q: int)
    requires Cong(a, b, q)
    ensures Cong(c * a, c * b, q)
  {
    Refl(c, q);
    Mul(c, c, a, b, q);
  }

  lemma SwapLast(a: int, b: int, c: int)
    ensures (a * b) * c == (a * c) * b
  {
  }

  /** A factor with an inverse can be cancelled. */
  lemma Cancel(c: int, inverse: int, a: int, b: int, q: int)
    requires Cong(c * inverse, 1, q) && Cong(c * a, c * b, q)
    ensures Cong(a, b, q)
  {
    hide *;
    MulRight(c * inverse, 1, a, q);
    MulRight(c * inverse, 1, b, q);
    MulRight(c * a, c * b, inverse, q);
    SwapLast(c, inverse, a);
    SwapLast(c, inverse, b);
    Sym((c * a) * inverse, 1 * a, q);
    Trans(a, (c * a) * inverse, (c * b) * inverse, q);
    Trans(a, (c * b) * inverse, b, q);
  }

  /** Two representatives in the same window of width q are equal. */
  lemma Unique(a: int, b: int, low: int, q: int)
    requires Cong(a, b, q) && low <= a < low + q && low <= b < low + q
    ensures a == b
  {
    var k := Quotient(a, b, q);
    if k >= 1 { AtLeast(k, q); }
    if k <= -1 { AtLeast(-k, q); }
  }

  lemma OneIsNotZero(q: int)
    requires q > 1
    ensures !Cong(1, 0, q)
  {
  }

  lemma ReducedNotZero(k: int, q: int)
    requires 0 < k < q
    ensures !Cong(k, 0, q)
  {
  }

  /** A congruence modulo a product holds modulo each factor. */
  lemma Factor(a: int, b: int, p: int, q: int)
    requires p > 0 && q > 0 && Cong(a, b, p * q)
    ensures Cong(a, b, q)
  {
    var k := Quotient(a, b, p * q);
    assert k * (p * q) == (k * p) * q;
    FromQuotient(a, b, q, k * p);
  }

  // ---------- powers ----------

  function Pow(b: int, e: nat): int {
    if e == 0 then 1 else b * Pow(b, e - 1)
  }

  lemma Associate(a: int, b: int, c: int)
    ensures a * (b * c) == (a * b) * c
  {
  }

  lemma {:induction false} PowAdd(b: int, e: nat, f: nat)
    ensures Pow(b, e + f) == Pow(b, e) * Pow(b, f)
  {
    if e > 0 {
      PowAdd(b, e - 1, f);
      Associate(b, Pow(b, e - 1), Pow(b, f));
    }
  }

  lemma {:induction false} PowMul(b: int, e: nat, f: nat)
    ensures e * f >= 0 && Pow(b, e * f) == Pow(Pow(b, e), f)
  {
    if f > 0 {
      PowMul(b, e, f - 1);
      assert e * f == e + e * (f - 1);
      PowAdd(b, e, e * (f - 1));
    }
  }

  lemma Exchange(a: int, b: int, s: int, t: int)
    ensures (a * b) * (s * t) == (a * s) * (b * t)
  {
    assert b * (s * t) == s * (b * t);
  }

  lemma {:induction false} PowProduct(a: int, b: int, e: nat)
    ensures Pow(a * b, e) == Pow(a, e) * Pow(b, e)
  {
    if e > 0 {
      PowProduct(a, b, e - 1);
      Exchange(a, b, Pow(a, e - 1), Pow(b, e - 1));
    }
  }

  lemma {:induction false} PowOne(e: nat)
    ensures Pow(1, e) == 1
  {
    if e > 0 { PowOne(e - 1); }
  }

  lemma {:induction false} OddPowerOfMinusOne(e: nat)
    requires e % 2 == 1
    ensures Pow(-1, e) == -1
    decreases e
  {
    if e > 1 {
      OddPowerOfMinusOne(e - 2);
      assert Pow(-1, e) == -1 * Pow(-1, e - 1) && Pow(-1, e - 1) == -1 * Pow(-1, e - 2);
    } else {
      assert Pow(-1, 1) == -1 * Pow(-1, 0);
    }
  }

  lemma NotMinusOne(q: int)
    requires q > 2
    ensures !Cong(1, -1, q)
  {
    assert 1 % q == 1;
    DivModUnique(-1, -1, q - 1, q);
  }

  lemma {:induction false} PowCong(a: int, b: int, e: nat, q: int)
    requires Cong(a, b, q)
    ensures Cong(Pow(a, e), Pow(b, e), q)
  {
    if e > 0 {
      PowCong(a, b, e - 1, q);
      Mul(a, b, Pow(a, e - 1), Pow(b, e - 1), q);
    }
  }

  function Pow2(e: nat): (p: nat)
    ensures p >= 1
  {
    if e == 0 then 1 else 2 * Pow2(e - 1)
  }

  lemma {:induction false} Pow2Add(e: nat, f: nat)
    ensures Pow2(e + f) == Pow2(e) * Pow2(f)
  {
    if e > 0 {
      Pow2Add(e - 1, f);
      Associate(2, Pow2(e - 1), Pow2(f));
    }
  }

  lemma Pow2Double(e: nat)
    ensures Pow2(e + 1) == 2 * Pow2(e) && Pow2(0) == 1
  {
  }

  lemma {:induction false} Pow2Monotone(e: nat, f: nat)
    requires e <= f
    ensures Pow2(e) <= Pow2(f)
  {
    if e < f { Pow2Monotone(e, f - 1); }
  }

  lemma {:induction false} Pow2IsPow(e: nat)
    ensures Pow2(e) == Pow(2, e)
  {
    if e > 0 { Pow2IsPow(e - 1); }
  }

  function Log2(k: nat): nat {
    if k <= 1 then 0 else 1 + Log2(k / 2)
  }

  // ---------- products ----------

  lemma TimesCommute(a: int, b: int)
    ensures a * b == b * a
  {
  }

  lemma TimesNegated(a: int, b: int)
    ensures (-a) * b == -(a * b)
  {
  }

  lemma TimesMonotone(a: int, b: int, c: int)
    requires a <= b && c >= 0
    ensures a * c <= b * c
  {
  }

  // ---------- sequences of residues ----------

  /** Pointwise s = c * t modulo q. */
  ghost predicate CongSeq(s: seq<int>, c: int, t: seq<int>, q: int) {
    |s| == |t| && forall i :: 0 <= i < |s| ==> Cong(s[i], c * t[i], q)
  }

  ghost predicate InRange(s: seq<int>, low: int, high: int) {
    forall i :: 0 <= i < |s| ==> low <= s[i] < high
  }
}
