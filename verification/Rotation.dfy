/** Rotations (src/ckks/encode.cpp): the signed coefficient permutation, the slot permutation, and why
    they agree. Sizes are N = 2^e coefficients; exponents live modulo 2N. */
module Rotation {
  import opened Congruence
  import opened Montgomery
  import opened Arithmetic
  import opened BitReversal
  import opened Polynomial
  import opened Tables
  import NttTheory
  import Transform
  import Primality

  const TWO32: int := 0x1_0000_0000

  // ---------- powers of five ----------

  lemma SquareOne(a: int, m: int)
    requires m > 0 && m % 2 == 0 && Cong(a, 1, m)
    ensures Cong(a * a, 1, 2 * m)
  {
    var c := Quotient(a, 1, m);
    var h := m / 2;
    SquareExpand(a, c, h, m);
    FromQuotient(a * a, 1, 2 * m, c + (c * c) * h);
  }

  lemma SquareExpand(a: int, c: int, h: int, m: int)
    requires a == 1 + c * m && m == 2 * h
    ensures a * a == 1 + (c + (c * c) * h) * (2 * m)
  {
    var d := c * m;
    assert d * d == ((c * c) * h) * (2 * m) by {
      Exchange(c, m, c, m);
      assert m * m == h * (2 * m);
      Associate(c * c, h, 2 * m);
    }
    assert a * a == 1 + 2 * d + d * d;
    assert (c + (c * c) * h) * (2 * m) == c * (2 * m) + ((c * c) * h) * (2 * m);
  }

  /** 5^(2^k) = 1 modulo 2^(k + 2). */
  lemma {:induction false} FiveOrder(k: nat)
    ensures Cong(Pow(5, Pow2(k)), 1, Pow2(k + 2))
  {
    if k == 0 {
      assert Pow(5, 1) == 5 && Pow2(2) == 4;
    } else {
      FiveOrder(k - 1);
      Pow2Double(k);
      Pow2Double(k + 1);
      hide *;
      Pow2Double(k - 1);
      PowAdd(5, Pow2(k - 1), Pow2(k - 1));
      SquareOne(Pow(5, Pow2(k - 1)), Pow2(k + 1)) by { Pow2Even(k); }
    }
  }

  lemma Pow2Even(k: nat)
    ensures Pow2(k + 1) % 2 == 0
  {
  }

  /** 5^(2N * c) = 1 modulo 2N. */
  lemma FivePeriod(e: nat, c: nat)
    ensures Pow2(e) * c >= 0 && Cong(Pow(5, Pow2(e) * c), 1, Pow2(e))
  {
    FiveOrder(e);
    Pow2Add(2, e);
    assert Pow2(2) == 4;
    hide *;
    Factor(Pow(5, Pow2(e)), 1, 4, Pow2(e));
    PowMul(5, Pow2(e), c);
    PowCong(Pow(5, Pow2(e)), 1, c, Pow2(e));
    PowOne(c);
  }

  // ---------- the jump ----------

  /** get_jump: the power of five that moves slots by `shift`, or -1 for conjugation. The mask with
      2N - 1 is the remainder modulo 2N. */
  method GetJump(shift: nat, doubleSize: nat) returns (jump: int)
    requires 0 < doubleSize && shift < doubleSize
    ensures shift == doubleSize - 1 ==> jump == shift
    ensures shift != doubleSize - 1 ==> 0 <= jump < doubleSize && Cong(jump, Pow(5, doubleSize - shift), doubleSize)
  {
    hide *;
    if shift == doubleSize - 1 {
      return shift;
    }
    jump := 1;
    PowerZero(5, doubleSize);
    for power := 0 to doubleSize - shift
      invariant 0 <= jump && (power > 0 ==> jump < doubleSize)
      invariant Cong(jump, Pow(5, power), doubleSize)
    {
      PowerNext(5, power + 1, jump, jump * 5 % doubleSize, doubleSize) by { Residue(jump * 5, doubleSize); }
      Residue(jump * 5, doubleSize);
      jump := jump * 5;
      jump := jump % doubleSize;
    }
  }

  // ---------- the signed coefficient permutation ----------

  /** Truncation to 32 bits. */
  function ToInt32(v: int): int {
    var low := v % TWO32;
    if low < TWO32 / 2 then low else low - TWO32
  }

  /** The exponent that coefficient i moves to: the product is formed in 32 bits, then widened to an
      unsigned 64-bit word. */
  function Target(jump: int, i: int, doubleSize: int): (t: int)
    requires doubleSize > 0
    ensures 0 <= t < doubleSize
  {
    (ToInt32(jump * i) % TWO64) % doubleSize
  }

  /** The wrap-around does no harm because 2N divides 2^32. */
  lemma TargetExact(jump: int, i: int, doubleSize: int)
    requires doubleSize > 0 && TWO32 % doubleSize == 0
    ensures Cong(Target(jump, i, doubleSize), jump * i, doubleSize)
  {
    var v := jump * i;
    var k := TWO32 / doubleSize;
    assert TWO32 == k * doubleSize;
    var w := ToInt32(v);
    var c := (w - v) / TWO32;
    assert w == v + c * TWO32;
    var d := w / TWO64;
    assert w % TWO64 == w - d * TWO64;
    hide *;
    FromQuotient(w, v, doubleSize, c * k) by { Associate(c, k, doubleSize); }
    FromQuotient(w % TWO64, w, doubleSize, -(d * TWO32) * k) by { Associate(-(d * TWO32), k, doubleSize); assert TWO64 == TWO32 * TWO32; }
    Residue(w % TWO64, doubleSize);
    Trans(w % TWO64, w, v, doubleSize);
    Trans((w % TWO64) % doubleSize, w % TWO64, v, doubleSize);
  }

  /** Where coefficient i goes, and with which sign: X^N = -1. */
  function Place(jump: int, i: int, n: int): (p: int)
    requires n > 0
    ensures 0 <= p < n
  {
    Target(jump, i, 2 * n) % n
  }

  function Sign(jump: int, i: int, n: int): int
    requires n > 0
  {
    if (Target(jump, i, 2 * n) / n) % 2 == 1 then -1 else 1
  }

  /** 2N divides 2^32, and the jump is invertible modulo 2N. */
  ghost predicate Jumps(jump: int, inverse: int, n: int) {
    n >= 1 && TWO32 % (2 * n) == 0 && 0 <= jump < 2 * n && 0 <= inverse && Cong(jump * inverse, 1, 2 * n)
  }

  lemma TargetParts(jump: int, inverse: int, i: int, n: int)
    requires Jumps(jump, inverse, n)
    ensures var t, p := Target(jump, i, 2 * n), Place(jump, i, n);
      && Cong(t, jump * i, 2 * n) && 0 <= t < 2 * n
      && t == p + (if Sign(jump, i, n) == -1 then n else 0) && (Sign(jump, i, n) == 1 || Sign(jump, i, n) == -1)
  {
    TargetExact(jump, i, 2 * n);
    var t := Target(jump, i, 2 * n);
    if t < n { DivModUnique(t, 0, t, n); } else { DivModUnique(t, 1, t - n, n); }
  }

  /** No two coefficients share a place. */
  lemma PlaceInjective(jump: int, inverse: int, i: int, j: int, n: int)
    requires Jumps(jump, inverse, n) && 0 <= i < n && 0 <= j < n && Place(jump, i, n) == Place(jump, j, n)
    ensures i == j
  {
    TargetParts(jump, inverse, i, n);
    TargetParts(jump, inverse, j, n);
    var t, u := Target(jump, i, 2 * n), Target(jump, j, 2 * n);
    Factor(t, jump * i, 2, n);
    Factor(u, jump * j, 2, n);
    Factor(jump * inverse, 1, 2, n);
    FromQuotient(t, u, n, if t == u then 0 else if t > u then 1 else -1);
    hide *;
    Sym(t, jump * i, n);
    Trans(jump * i, t, u, n);
    Trans(jump * i, u, jump * j, n);
    Cancel(jump, inverse, i, j, n);
    Unique(i, j, 0, n);
  }

  /** Every place is taken. */
  lemma PlaceSurjective(jump: int, inverse: int, p: int, n: int) returns (i: int)
    requires Jumps(jump, inverse, n) && 0 <= p < n
    ensures 0 <= i < n && Place(jump, i, n) == p
  {
    i := (inverse * p) % n;
    TargetParts(jump, inverse, i, n);
    Residue(inverse * p, n);
    var t := Target(jump, i, 2 * n);
    Factor(t, jump * i, 2, n);
    Factor(jump * inverse, 1, 2, n);
    FromQuotient(t, Place(jump, i, n), n, if t == Place(jump, i, n) then 0 else 1);
    hide *;
    Scale(jump, i, inverse * p, n);
    MulRight(jump * inverse, 1, p, n);
    Associate(jump, inverse, p);
    Trans(jump * i, (jump * inverse) * p, p, n);
    Sym(t, Place(jump, i, n), n);
    Trans(Place(jump, i, n), t, jump * i, n);
    Trans(Place(jump, i, n), jump * i, p, n);
    PlaceRange(jump, i, n);
    Unique(Place(jump, i, n), p, 0, n);
  }

  lemma PlaceRange(jump: int, i: int, n: int)
    requires n > 0
    ensures 0 <= Place(jump, i, n) < n
  {
  }

  // ---------- rotating a polynomial is changing the point ----------

  ghost predicate IsRotated(y: seq<int>, x: seq<int>, jump: int, n: int) {
    n >= 1 && |y| == |x| == n && forall i :: 0 <= i < n ==> y[Place(jump, i, n)] == Sign(jump, i, n) * x[i]
  }

  /** The buffer after the first k coefficients have been moved, from zeros. */
  ghost function Scattered(x: seq<int>, jump: int, k: nat): (y: seq<int>)
    requires k <= |x| && |x| >= 1
    ensures |y| == |x|
  {
    if k == 0 then seq(|x|, p => 0)
    else Scattered(x, jump, k - 1)[Place(jump, k - 1, |x|) := Sign(jump, k - 1, |x|) * x[k - 1]]
  }

  ghost predicate Untouched(x: seq<int>, jump: int, k: nat, p: int) {
    forall i :: 0 <= i < k && i < |x| ==> Place(jump, i, |x|) != p
  }

  lemma {:induction false} ScatteredZero(x: seq<int>, jump: int, k: nat, p: nat)
    requires k <= |x| && p < |x| && Untouched(x, jump, k, p)
    ensures Scattered(x, jump, k)[p] == 0
  {
    if k > 0 { ScatteredZero(x, jump, k - 1, p); }
  }

  lemma {:induction false} ScatteredAt(x: seq<int>, jump: int, inverse: int, k: nat, i: nat)
    requires i < k <= |x| && Jumps(jump, inverse, |x|)
    ensures Scattered(x, jump, k)[Place(jump, i, |x|)] == Sign(jump, i, |x|) * x[i]
  {
    if i < k - 1 {
      ScatteredAt(x, jump, inverse, k - 1, i);
      if Place(jump, i, |x|) == Place(jump, k - 1, |x|) { PlaceInjective(jump, inverse, i, k - 1, |x|); }
    }
  }

  lemma ScatteredAll(x: seq<int>, y: seq<int>, jump: int, inverse: int)
    requires Jumps(jump, inverse, |x|) && IsRotated(y, x, jump, |x|)
    ensures Scattered(x, jump, |x|) == y
  {
    hide Scattered, Place, Sign, Jumps;
    forall p | 0 <= p < |x| ensures Scattered(x, jump, |x|)[p] == y[p] {
      var i := PlaceSurjective(jump, inverse, p, |x|);
      ScatteredAt(x, jump, inverse, |x|, i);
    }
  }

  lemma FullTurn(z: int, n: nat, c: nat, q: int)
    requires Cong(Pow(z, n), -1, q)
    ensures (2 * n) * c >= 0 && Cong(Pow(z, (2 * n) * c), 1, q)
  {
    hide *;
    PowAdd(z, n, n);
    Mul(Pow(z, n), -1, Pow(z, n), -1, q);
    PowMul(z, 2 * n, c);
    PowCong(Pow(z, 2 * n), 1, c, q);
    PowOne(c);
  }

  lemma SignedPlace(z: int, jump: nat, inverse: int, i: nat, n: nat, q: int)
    requires q > 0 && Jumps(jump, inverse, n) && Cong(Pow(z, n), -1, q)
    ensures jump * i >= 0 && Cong(Sign(jump, i, n) * Pow(z, Place(jump, i, n)), Pow(z, jump * i), q)
  {
    hide *;
    TargetParts(jump, inverse, i, n);
    NatProduct(jump, i);
    var a: nat := jump * i;
    var t, p := Target(jump, i, 2 * n), Place(jump, i, n);
    var c := TurnQuotient(a, t, 2 * n);
    FullTurn(z, n, c, q);
    PowAdd(z, t, (2 * n) * c);
    Scale(Pow(z, t), Pow(z, (2 * n) * c), 1, q);
    Sym(Pow(z, a), Pow(z, t), q);
    if Sign(jump, i, n) == -1 {
      PowAdd(z, n, p);
      MulRight(Pow(z, n), -1, Pow(z, p), q);
      Sym(Pow(z, t), -1 * Pow(z, p), q);
      Trans(-1 * Pow(z, p), Pow(z, t), Pow(z, a), q);
    }
  }

  lemma TurnQuotient(a: nat, t: int, m: int) returns (c: nat)
    requires Cong(t, a, m) && 0 <= t < m
    ensures a == t + m * c
  {
    Sym(t, a, m);
    var k := Quotient(a, t, m);
    NonNegativeQuotient(a, t, k, m);
    c := k;
  }

  lemma NonNegativeQuotient(a: nat, t: int, c: int, m: int)
    requires a == t + c * m && 0 <= t < m
    ensures c >= 0
  {
    if c <= -1 { AtLeast(-c, m); }
  }

  lemma {:induction false} ScatteredEval(x: seq<int>, jump: nat, inverse: int, k: nat, z: int, q: int)
    requires q > 0 && k <= |x| && Jumps(jump, inverse, |x|) && Cong(Pow(z, |x|), -1, q)
    ensures Cong(Eval(Scattered(x, jump, k), z), Eval(x[..k], Pow(z, jump)), q)
  {
    var w := Pow(z, jump);
    if k == 0 {
      EvalZeros(|x|, z);
      Refl(0, q);
    } else {
      ScatteredEval(x, jump, inverse, k - 1, z, q);
      var before := Scattered(x, jump, k - 1);
      var p, sign := Place(jump, k - 1, |x|), Sign(jump, k - 1, |x|);
      assert x[..k] == x[..k - 1] + [x[k - 1]];
      hide Cong, Eval, Pow, Place, Sign, Jumps;
      NewPlace(x, jump, inverse, k - 1);
      ScatteredZero(x, jump, k - 1, p);
      EvalUpdate(before, p, sign * x[k - 1], z);
      EvalConcat(x[..k - 1], [x[k - 1]], w);
      EvalConstant(x[k - 1], w);
      PowMul(z, jump, k - 1);
      SignedPlace(z, jump, inverse, k - 1, |x|, q);
      MoveTerm(Eval(before, z), Eval(x[..k - 1], w), x[k - 1], sign, Pow(z, p), Pow(w, k - 1), q);
    }
  }

  lemma NewPlace(x: seq<int>, jump: int, inverse: int, k: nat)
    requires k < |x| && Jumps(jump, inverse, |x|)
    ensures Untouched(x, jump, k, Place(jump, k, |x|))
  {
    hide Jumps, Place;
    forall i | 0 <= i < k ensures Place(jump, i, |x|) != Place(jump, k, |x|) {
      if Place(jump, i, |x|) == Place(jump, k, |x|) { PlaceInjective(jump, inverse, i, k, |x|); }
    }
  }

  lemma MoveTerm(before: int, prefix: int, c: int, sign: int, zp: int, wk: int, q: int)
    requires Cong(before, prefix, q) && Cong(sign * zp, wk, q)
    ensures Cong(before + (sign * c - 0) * zp, prefix + wk * c, q)
  {
    hide *;
    MulRight(sign * zp, wk, c, q);
    assert (sign * zp) * c == (sign * c) * zp;
    Add(before, prefix, (sign * c) * zp, wk * c, q);
  }

  /** The value of the rotated polynomial at z is the value of the original at z^jump. */
  lemma RotatedValue(x: seq<int>, y: seq<int>, jump: nat, inverse: int, z: int, q: int)
    requires q > 0 && Jumps(jump, inverse, |x|) && IsRotated(y, x, jump, |x|) && Cong(Pow(z, |x|), -1, q)
    ensures Cong(Eval(y, z), Eval(x, Pow(z, jump)), q)
  {
    ScatteredEval(x, jump, inverse, |x|, z, q);
    ScatteredAll(x, y, jump, inverse);
    assert x[..|x|] == x;
  }

  // ---------- the loops ----------

  /** What get_jump returns for the given rotation, with 2N in m. */
  ghost predicate JumpOf(jump: int, delta: int, m: int) {
    && m > 0 && 0 <= jump < m
    && (delta % m == m - 1 ==> jump == m - 1)
    && (delta % m != m - 1 ==> Cong(jump, Pow(5, m - delta % m), m))
  }

  /** Sizes that occur: 2N fits an int. */
  lemma Divides32(e: nat)
    requires e <= 29
    ensures TWO32 % (2 * Pow2(e)) == 0 && TWO64 % (2 * Pow2(e)) == 0 && Pow2(e) >= 1
  {
    hide *;
    Pow2Double(e);
    Pow2Add(e + 1, 31 - e);
    Pow2ThirtyTwo();
    WordMultiples(Pow2(e + 1), Pow2(31 - e));
  }

  lemma WordMultiples(m: int, k: int)
    requires m > 0 && m * k == TWO32
    ensures TWO32 % m == 0 && TWO64 % m == 0
  {
    MultipleOf(TWO32, m, k);
    Associate(m, k, TWO32);
    MultipleOf(TWO64, m, k * TWO32);
  }

  lemma MultipleOf(a: int, m: int, k: int)
    requires m > 0 && a == m * k
    ensures a % m == 0
  {
    DivModUnique(a, k, 0, m);
  }

  lemma Pow2ThirtyTwo()
    ensures Pow2(32) == TWO32
  {
    hide Pow2;
    Pow2Four();
    Pow2Add(4, 4);
    Pow2Add(8, 8);
    Pow2Add(16, 16);
  }

  /** The shift is formed in unsigned 64-bit arithmetic, from a signed 32-bit delta. */
  lemma ShiftExact(delta: int, m: int)
    requires 0 < m && TWO64 % m == 0
    ensures ((delta % TWO64 + m) % TWO64) % m == delta % m
  {
    ModMod(delta % TWO64 + m, TWO64, m);
    ModMod(delta, TWO64, m);
    FromQuotient(delta % TWO64 + m, delta % TWO64, m, 1);
  }

  /** get_permutation_and_sign. */
  method GetPermutationAndSign(permutation: array<int>, sign: array<int>, e: nat, delta: int) returns (ghost jump: int)
    requires 1 <= e <= 29 && permutation.Length == sign.Length == Pow2(e) && permutation != sign
    modifies permutation, sign
    ensures JumpOf(jump, delta, 2 * Pow2(e))
    ensures forall i :: 0 <= i < Pow2(e) ==> permutation[i] == Place(jump, i, Pow2(e)) && sign[i] == Sign(jump, i, Pow2(e))
  {
    hide Pow2, Pow, Cong, Target, Place, Sign;
    var size := Pow2(e);
    var doubleSize := 2 * size;
    Divides32(e);
    var shift := (delta % TWO64 + doubleSize) % TWO64 % doubleSize;
    ShiftExact(delta, doubleSize);
    var got := GetJump(shift, doubleSize);
    jump := got;
    for index := 0 to size
      invariant forall i :: 0 <= i < index ==> permutation[i] == Place(jump, i, size) && sign[i] == Sign(jump, i, size)
    {
      var permutationIndex := Target(got, index, doubleSize);
      PlaceAndSign(got, index, size);
      permutation[index] := permutationIndex % size;
      sign[index] := if permutationIndex / size % 2 == 1 then -1 else 1;
    }
  }

  lemma PlaceAndSign(jump: int, i: int, n: int)
    requires n > 0
    ensures Place(jump, i, n) == Target(jump, i, 2 * n) % n
    ensures Sign(jump, i, n) == if Target(jump, i, 2 * n) / n % 2 == 1 then -1 else 1
  {
  }

  /** rotate_polynomial: scatter with signs. */
  method RotatePolynomial(input: array<int>, output: array<int>, permutation: array<int>, sign: array<int>, ghost jump: int, ghost inverse: int)
    requires input.Length == output.Length == permutation.Length == sign.Length >= 1 && Jumps(jump, inverse, input.Length)
    requires output != input && output != permutation && output != sign
    requires forall i :: 0 <= i < input.Length ==>
      permutation[i] == Place(jump, i, input.Length) && sign[i] == Sign(jump, i, input.Length)
    modifies output
    ensures IsRotated(output[..], input[..], jump, input.Length)
  {
    hide Place, Sign, Jumps;
    for i := 0 to input.Length
      invariant forall j :: 0 <= j < i ==> output[Place(jump, j, input.Length)] == Sign(jump, j, input.Length) * input[j]
    {
      forall j | 0 <= j < i ensures Place(jump, j, input.Length) != Place(jump, i, input.Length) {
        if Place(jump, j, input.Length) == Place(jump, i, input.Length) { PlaceInjective(jump, inverse, i, j, input.Length); }
      }
      output[permutation[i]] := sign[i] * input[i];
    }
  }

  // ---------- the slot permutation ----------

  /** The slot in natural order that slot number i takes its value from: (i - diff) / power modulo N. */
  function Source(i: int, diff: int, inverse: int, n: int): (s: int)
    requires n > 0 && inverse >= 0
    ensures 0 <= s < n
  {
    ModulusMultiply(PositiveModulo(i - diff, n), inverse, n)
  }

  /** power stands for 5^delta, or -1 for conjugation; diff and inverse for what the code makes of it. */
  ghost predicate SlotConstants(power: int, diff: int, inverse: int, n: int) {
    n >= 1 && inverse >= 0 && Cong(power * inverse, 1, n) && Cong(2 * diff + 1, power, 2 * n)
  }

  ghost predicate PowerOf(power: int, delta: int, m: int) {
    && m > 0 && (delta == -1 ==> power == -1)
    && (delta != -1 ==> Cong(power, Pow(5, delta % TWO32), m))
  }

  /** Exponents: slot i holds the value at the (2i + 1)-st power of the root. */
  lemma SourceExponent(i: int, power: int, diff: int, inverse: int, n: int)
    requires SlotConstants(power, diff, inverse, n)
    ensures inverse >= 0 && n > 0
    ensures Cong((2 * Source(i, diff, inverse, n) + 1) * power, 2 * i + 1, 2 * n)
  {
    var s := Source(i, diff, inverse, n);
    var d := PositiveModulo(i - diff, n);
    hide *;
    SourceMeaning(i, diff, inverse, n);
    MulRight(d, i - diff, inverse, n);
    Trans(s, d * inverse, (i - diff) * inverse, n);
    MulRight(s, (i - diff) * inverse, power, n);
    Scale(i - diff, power * inverse, 1, n);
    Reorder(i - diff, inverse, power);
    Trans(s * power, (i - diff) * (power * inverse), (i - diff) * 1, n);
    DoubleModulus(s * power, (i - diff) * 1, n);
    Sym(2 * diff + 1, power, 2 * n);
    Add(2 * (s * power), 2 * ((i - diff) * 1), power, 2 * diff + 1, 2 * n);
    OddTimes(s, power);
  }

  lemma Reorder(a: int, b: int, c: int)
    ensures (a * b) * c == a * (c * b)
  {
  }

  lemma OddTimes(s: int, power: int)
    ensures (2 * s + 1) * power == 2 * (s * power) + power
  {
  }

  lemma DoubleModulus(a: int, b: int, n: int)
    requires Cong(a, b, n)
    ensures Cong(2 * a, 2 * b, 2 * n)
  {
    var k := Quotient(a, b, n);
    DoubleTimes(a, b, k, n);
    FromQuotient(2 * a, 2 * b, 2 * n, k);
  }

  lemma DoubleTimes(a: int, b: int, k: int, n: int)
    requires a == b + k * n
    ensures 2 * a == 2 * b + k * (2 * n)
  {
  }

  lemma SourceMeaning(i: int, diff: int, inverse: int, n: int)
    requires n >= 1 && inverse >= 0
    ensures Cong(Source(i, diff, inverse, n), PositiveModulo(i - diff, n) * inverse, n)
    ensures Cong(PositiveModulo(i - diff, n), i - diff, n)
  {
  }

  lemma OddPower(x: int, k: nat, m: int)
    requires m > 0 && m % 4 == 0 && Cong(x, Pow(5, k), m)
    ensures x % 4 == 1
  {
    var c := m / 4;
    assert m == 4 * c;
    Factor(x, Pow(5, k), c, 4);
    FromQuotient(5, 1, 4, 1);
    hide Cong;
    PowCong(5, 1, k, 4);
    PowOne(k);
    Trans(x, Pow(5, k), 1, 4);
    ModOne(x);
  }

  lemma ModOne(x: int)
    requires Cong(x, 1, 4)
    ensures x % 4 == 1
  {
  }

  /** get_ntt_permutation. */
  method GetNttPermutation(permutation: array<int>, e: nat, delta: int)
    returns (ghost power: int, ghost diff: int, ghost inverse: int)
    requires 1 <= e <= 29 && permutation.Length == Pow2(e)
    modifies permutation
    ensures PowerOf(power, delta, 2 * Pow2(e)) && SlotConstants(power, diff, inverse, Pow2(e))
    ensures forall j :: 0 <= j < Pow2(e) ==> permutation[j] == Rev(e, Source(Rev(e, j), diff, inverse, Pow2(e)))
  {
    hide Pow2, Pow, Cong, Rev, Source, SlotConstants;
    var size := Pow2(e);
    Divides32(e);
    FourDivides(e);
    var powerLarger := ModulusPower(5, delta % TWO32, size * 2, false);
    var reduced := powerLarger % size;
    var shift := if delta == -1 then -1 else ((powerLarger - 1) / 2) % size;
    var powerInverse := size - 1;
    if delta != -1 {
      SlotInvertible(powerLarger, delta % TWO32, e);
      powerInverse := ModulusInvert(reduced, size);
    }
    power := if delta == -1 then -1 else powerLarger;
    diff, inverse := shift, powerInverse;
    SlotConstantsHold(delta, powerLarger, shift, powerInverse, e);
    var temp := new int[size];
    for index := 0 to size
      invariant forall i :: 0 <= i < index ==> temp[i] == Source(i, shift, powerInverse, size)
    {
      SourceIs(index, shift, powerInverse, size);
      temp[index] := ModulusMultiply(PositiveModulo(index - shift, size), powerInverse, size);
    }
    var reversal := new int[size];
    for index := 0 to size
      invariant forall i :: 0 <= i < index ==> reversal[i] == Rev(e, i) && 0 <= reversal[i] < size
      invariant forall i :: 0 <= i < size ==> temp[i] == Source(i, shift, powerInverse, size)
    {
      reversal[index] := ReverseIntegerBits(index, e);
      RevRange(e, index);
    }
    for index := 0 to size
      invariant forall i :: 0 <= i < size ==> reversal[i] == Rev(e, i) && 0 <= reversal[i] < size
      invariant forall i :: 0 <= i < size ==> temp[i] == Source(i, shift, powerInverse, size)
      invariant forall i :: 0 <= i < index ==> permutation[i] == Rev(e, Source(Rev(e, i), shift, powerInverse, size))
    {
      SourceIs(reversal[index], shift, powerInverse, size);
      permutation[index] := reversal[temp[reversal[index]]];
    }
  }

  lemma SourceIs(i: int, diff: int, inverse: int, n: int)
    requires n > 0 && inverse >= 0
    ensures Source(i, diff, inverse, n) == ModulusMultiply(PositiveModulo(i - diff, n), inverse, n)
    ensures 0 <= Source(i, diff, inverse, n) < n
  {
  }

  lemma FourDivides(e: nat)
    requires e >= 1
    ensures (2 * Pow2(e)) % 4 == 0 && Pow2(e) >= 2 && Pow2(e) % 2 == 0
  {
  }

  lemma SlotInvertible(power: int, k: nat, e: nat)
    requires e >= 1 && 0 <= power < Pow2(e) * 2 && Cong(power, Pow(5, k), Pow2(e) * 2)
    ensures Invertible(power % Pow2(e), Pow2(e)) && power % 4 == 1
  {
    var n := Pow2(e);
    FourDivides(e);
    OddPower(power, k, 2 * n);
    hide *;
    Factor(power, Pow(5, k), 2, n);
    Residue(power, n);
    Trans(power % n, power, Pow(5, k), n);
    var period := FiveInverse(e, k);
    MulRight(power % n, Pow(5, k), Pow(5, period), n);
    Trans((power % n) * Pow(5, period), Pow(5, k) * Pow(5, period), 1, n);
    Invert(power % n, Pow(5, period), n);
  }

  lemma FiveInverse(e: nat, k: nat) returns (l: nat)
    ensures Cong(Pow(5, k) * Pow(5, l), 1, Pow2(e))
  {
    l := Pow2(e) * k - k;
    assert Pow2(e) * k >= k by { AtLeast(Pow2(e), k); }
    FivePeriod(e, k);
    PowAdd(5, k, l);
  }

  lemma SlotConstantsHold(delta: int, powerLarger: int, diff: int, inverse: int, e: nat)
    requires e >= 1 && delta == -1 ==> diff == -1 && inverse == Pow2(e) - 1
    requires delta != -1 ==> e >= 1 && 0 <= powerLarger < Pow2(e) * 2 && powerLarger % 4 == 1 && diff == ((powerLarger - 1) / 2) % Pow2(e)
    requires delta != -1 ==> 0 <= inverse && Cong((powerLarger % Pow2(e)) * inverse, 1, Pow2(e))
    requires e >= 1
    ensures SlotConstants(if delta == -1 then -1 else powerLarger, diff, inverse, Pow2(e))
  {
    hide Pow2;
    if delta == -1 {
      MinusOneConstants(Pow2(e));
    } else {
      PowerConstants(powerLarger, diff, inverse, Pow2(e));
    }
  }

  lemma MinusOneConstants(n: int)
    requires n >= 1
    ensures SlotConstants(-1, -1, n - 1, n)
  {
    FromQuotient(-1 * (n - 1), 1, n, -1);
    Refl(-1, 2 * n);
  }

  lemma PowerConstants(power: int, diff: int, inverse: int, n: int)
    requires n >= 1 && power % 2 == 1 && diff == ((power - 1) / 2) % n && inverse >= 0 && Cong((power % n) * inverse, 1, n)
    ensures SlotConstants(power, diff, inverse, n)
  {
    var h := (power - 1) / 2;
    Residue(h, n);
    Residue(power, n);
    hide Cong;
    DoubleModulus(diff, h, n);
    Refl(1, 2 * n);
    Add(2 * diff, 2 * h, 1, 1, 2 * n);
    MulRight(power, power % n, inverse, n);
    Trans(power * inverse, (power % n) * inverse, 1, n);
  }

  // ---------- the two forms agree ----------

  /** The deltas for which get_jump and get_ntt_permutation mean the same rotation. */
  predicate Agree(delta: int, m: int)
    requires m > 0
  {
    delta == -1 || delta % m != m - 1
  }

  /** The jump undoes the power. */
  lemma JumpInverse(jump: int, power: int, delta: int, e: nat)
    requires 1 <= e <= 29 && JumpOf(jump, delta, 2 * Pow2(e)) && PowerOf(power, delta, 2 * Pow2(e)) && Agree(delta, 2 * Pow2(e))
    ensures Cong(jump * power, 1, 2 * Pow2(e))
  {
    hide *;
    Divides32(e);
    Pow2Double(e);
    var m := Pow2(e + 1);
    ConjugateInverse(m);
    Meaning(jump, power, delta, m);
    if delta != -1 { RotationInverse(jump, power, delta, e); }
  }

  lemma Meaning(jump: int, power: int, delta: int, m: int)
    requires m > 0 && JumpOf(jump, delta, m) && PowerOf(power, delta, m) && Agree(delta, m) && -1 % m == m - 1
    ensures delta == -1 ==> jump == m - 1 && power == -1
    ensures delta != -1 ==> Cong(jump, Pow(5, m - delta % m), m) && Cong(power, Pow(5, delta % TWO32), m)
  {
    hide Cong, Pow;
  }

  lemma ConjugateInverse(m: int)
    requires m > 0
    ensures -1 % m == m - 1 && Cong((m - 1) * -1, 1, m)
  {
    DivModUnique(-1, -1, m - 1, m);
    FromQuotient((m - 1) * -1, 1, m, -1);
  }

  lemma RotationInverse(jump: int, power: int, delta: int, e: nat)
    requires TWO32 % Pow2(e + 1) == 0
    requires Cong(jump, Pow(5, Pow2(e + 1) - delta % Pow2(e + 1)), Pow2(e + 1)) && Cong(power, Pow(5, delta % TWO32), Pow2(e + 1))
    ensures Cong(jump * power, 1, Pow2(e + 1))
  {
    var m := Pow2(e + 1);
    var shift := delta % m;
    var exponent := delta % TWO32;
    ModMod(delta, TWO32, m);
    hide *;
    Mul(jump, Pow(5, m - shift), power, Pow(5, exponent), m);
    PowAdd(5, m - shift, exponent);
    WholeTurns(e + 1, shift, exponent);
    Trans(jump * power, Pow(5, m - shift + exponent), 1, m);
  }

  lemma WholeTurns(e: nat, shift: nat, exponent: nat)
    requires shift < Pow2(e) && exponent % Pow2(e) == shift
    ensures Cong(Pow(5, Pow2(e) - shift + exponent), 1, Pow2(e))
  {
    hide *;
    var c := TurnCount(Pow2(e), shift, exponent);
    FivePeriod(e, c);
  }

  lemma TurnCount(m: nat, shift: nat, exponent: nat) returns (c: nat)
    requires shift < m && exponent % m == shift
    ensures m - shift + exponent == m * c
  {
    c := exponent / m + 1;
    assert exponent == (exponent / m) * m + shift;
  }

  /** Exponents of the slots: taking slot sigma(j) is multiplying the exponent of slot j by the jump. */
  lemma SlotExponent(jump: int, power: int, diff: int, inverse: int, i: int, n: int)
    requires SlotConstants(power, diff, inverse, n) && Cong(jump * power, 1, 2 * n)
    ensures inverse >= 0 && n > 0
    ensures Cong(2 * Source(i, diff, inverse, n) + 1, (2 * i + 1) * jump, 2 * n)
  {
    SourceExponent(i, power, diff, inverse, n);
    hide *;
    var s := 2 * Source(i, diff, inverse, n) + 1;
    MulRight(s * power, 2 * i + 1, jump, 2 * n);
    Scale(s, jump * power, 1, 2 * n);
    Reorder(s, power, jump);
    Sym(s * (jump * power), s * 1, 2 * n);
    Trans(s, (s * power) * jump, (2 * i + 1) * jump, 2 * n);
  }

  /** Two points whose exponents agree modulo 2N are congruent. */
  lemma SamePoint(psi: int, n: nat, a: nat, b: nat, q: int)
    requires n >= 1 && Cong(Pow(psi, n), -1, q) && Cong(a, b, 2 * n)
    ensures Cong(Pow(psi, a), Pow(psi, b), q)
  {
    hide *;
    if a <= b {
      OneTurn(psi, n, a, b, q);
    } else {
      Sym(a, b, 2 * n);
      OneTurn(psi, n, b, a, q);
      Sym(Pow(psi, b), Pow(psi, a), q);
    }
  }

  lemma OneTurn(psi: int, n: nat, a: nat, b: nat, q: int)
    requires n >= 1 && Cong(Pow(psi, n), -1, q) && Cong(a, b, 2 * n) && a <= b
    ensures Cong(Pow(psi, a), Pow(psi, b), q)
  {
    Sym(a, b, 2 * n);
    var c := Quotient(b, a, 2 * n);
    if c <= -1 { AtLeast(-c, 2 * n); }
    hide *;
    FullTurn(psi, n, c, q);
    assert b == a + (2 * n) * c;
    PowAdd(psi, a, (2 * n) * c);
    Scale(Pow(psi, a), Pow(psi, (2 * n) * c), 1, q);
    Sym(Pow(psi, b), Pow(psi, a), q);
  }

  lemma SlotPoint(psi: int, e: nat, jump: nat, power: int, diff: int, inverse: int, j: nat, q: int)
    requires j < Pow2(e) && Cong(Pow(psi, Pow2(e)), -1, q)
    requires SlotConstants(power, diff, inverse, Pow2(e)) && Cong(jump * power, 1, 2 * Pow2(e))
    ensures inverse >= 0
    ensures var p := Rev(e, Source(Rev(e, j), diff, inverse, Pow2(e)));
      p < Pow2(e) && Cong(Pow(NttTheory.Point(psi, e, j), jump), NttTheory.Point(psi, e, p), q)
  {
    hide *;
    var n, i := Pow2(e), Rev(e, j);
    SlotExponent(jump, power, diff, inverse, i, n);
    SourceIs(i, diff, inverse, n);
    var source: nat := Source(i, diff, inverse, n);
    RevRange(e, source);
    RevInvolution(e, source);
    NttTheory.PointIs(psi, e, j);
    NttTheory.PointIs(psi, e, Rev(e, source));
    PowMul(psi, 2 * i + 1, jump);
    NatProduct(2 * i + 1, jump);
    Sym(2 * source + 1, (2 * i + 1) * jump, 2 * n);
    SamePoint(psi, n, (2 * i + 1) * jump, 2 * source + 1, q);
  }

  /** Rotation commutes with the transform: transforming reduced representatives y of the rotated
      polynomial gives, slot by slot, the permuted transform of the original. */
  lemma RotationCommutes(t: Derived, psi: int, psiInverse: int, delta: int, jump: nat, power: int, diff: int, inverse: int,
                         x: seq<int>, rotated: seq<int>, y: seq<int>, j: nat)
    requires Valid(t, psi, psiInverse) && t.e <= 29 && |x| == |y| == Pow2(t.e) && j < |x|
    requires InRange(x, 0, 2 * t.q) && InRange(y, 0, 2 * t.q) && CongSeq(y, 1, rotated, t.q)
    requires JumpOf(jump, delta, 2 * Pow2(t.e)) && IsRotated(rotated, x, jump, |x|)
    requires PowerOf(power, delta, 2 * Pow2(t.e)) && SlotConstants(power, diff, inverse, Pow2(t.e))
    requires Agree(delta, 2 * Pow2(t.e))
    ensures inverse >= 0
    ensures var p := Rev(t.e, Source(Rev(t.e, j), diff, inverse, Pow2(t.e)));
      p < |x| && Cong(Transform.NttForm(t, y)[j], Transform.NttForm(t, x)[p], t.q)
  {
    hide *;
    ValidModulus(t, psi, psiInverse);
    JumpInverse(jump, power, delta, t.e);
    NttTheory.RootPower(t, psi, psiInverse);
    SlotPoint(psi, t.e, jump, power, diff, inverse, j, t.q);
    var p := Rev(t.e, Source(Rev(t.e, j), diff, inverse, Pow2(t.e)));
    var z, w := NttTheory.Point(psi, t.e, j), NttTheory.Point(psi, t.e, p);
    Transform.NttFormValue(t, psi, psiInverse, y, j);
    Transform.NttFormValue(t, psi, psiInverse, x, p);
    EvalScaled(y, 1, rotated, z, t.q);
    NttTheory.PointPower(t, psi, psiInverse, j);
    JumpRange(jump, delta, 2 * Pow2(t.e));
    JumpsOf(jump, power, t.e);
    RotatedValue(x, rotated, jump, power % (2 * Pow2(t.e)), z, t.q);
    EvalPoint(x, Pow(z, jump), w, t.q);
    SlotChain(Transform.NttForm(t, y)[j], Transform.NttForm(t, x)[p], Eval(y, z), Eval(rotated, z), Eval(x, Pow(z, jump)),
              Eval(x, w), t.q);
  }

  lemma JumpRange(jump: int, delta: int, m: int)
    requires JumpOf(jump, delta, m)
    ensures 0 <= jump < m
  {
  }

  lemma JumpsOf(jump: int, power: int, e: nat)
    requires 1 <= e <= 29 && 0 <= jump < 2 * Pow2(e) && Cong(jump * power, 1, 2 * Pow2(e))
    ensures Jumps(jump, power % (2 * Pow2(e)), Pow2(e))
  {
    Divides32(e);
    var m := 2 * Pow2(e);
    hide Cong, Pow2;
    Residue(power, m);
    Scale(jump, power % m, power, m);
    Trans(jump * (power % m), jump * power, 1, m);
  }

  lemma SlotChain(u: int, v: int, a: int, b: int, c: int, d: int, q: int)
    requires Cong(u, R * a, q) && Cong(a, 1 * b, q) && Cong(b, c, q) && Cong(c, d, q) && Cong(v, R * d, q)
    ensures Cong(u, v, q)
  {
    hide *;
    Trans(a, b, c, q);
    Trans(a, c, d, q);
    Scale(R, a, d, q);
    Trans(u, R * a, R * d, q);
    Sym(v, R * d, q);
    Trans(u, R * d, v, q);
  }

  /** For every other delta the two forms disagree in every slot: get_jump takes it for conjugation,
      get_ntt_permutation for a rotation. */
  lemma RotationDisagrees(delta: int, jump: int, power: int, diff: int, inverse: int, i: int, e: nat)
    requires 1 <= e <= 29 && JumpOf(jump, delta, 2 * Pow2(e)) && PowerOf(power, delta, 2 * Pow2(e))
    requires SlotConstants(power, diff, inverse, Pow2(e)) && !Agree(delta, 2 * Pow2(e))
    ensures inverse >= 0
    ensures !Cong(2 * Source(i, diff, inverse, Pow2(e)) + 1, (2 * i + 1) * jump, 2 * Pow2(e))
  {
    hide *;
    FourDivides(e);
    var k := Misread(delta, jump, power, 2 * Pow2(e));
    OddPower(power, k, 2 * Pow2(e));
    SourceExponent(i, power, diff, inverse, Pow2(e));
    ModFour(2 * Source(i, diff, inverse, Pow2(e)) + 1, power, 2 * i + 1, jump, 2 * Pow2(e));
  }

  /** psi has exact order 2N: a smaller period would make an odd power of -1 one. */
  lemma ExactOrder(psi: int, e: nat, c: nat, q: int)
    requires q > 2 && Cong(Pow(psi, Pow2(e)), -1, q) && Cong(Pow(psi, c), 1, q)
    ensures Cong(c, 0, 2 * Pow2(e))
  {
    hide *;
    Pow2Double(e);
    if c == 0 {
      Refl(0, 2 * Pow2(e));
    } else {
      Primality.OddPartSplit(c);
      var t, j := Primality.OddPart(c), Primality.Twos(c);
      if j <= e {
        Pow2Add(j, e - j);
        PowMul(psi, c, Pow2(e - j));
        PowCong(Pow(psi, c), 1, Pow2(e - j), q);
        PowOne(Pow2(e - j));
        PowMul(psi, Pow2(e), t);
        PowCong(Pow(psi, Pow2(e)), -1, t, q);
        OddPowerOfMinusOne(t);
        SameTurns(c, t, Pow2(j), Pow2(e - j), Pow2(e));
        Sym(Pow(psi, Pow2(e) * t), 1, q);
        Trans(1, Pow(psi, Pow2(e) * t), -1, q);
        NotMinusOne(q);
      } else {
        Pow2Add(j - e - 1, e + 1);
        Associate(t, Pow2(j - e - 1), Pow2(e + 1));
        FromQuotient(c, 0, 2 * Pow2(e), t * Pow2(j - e - 1));
      }
    }
  }

  lemma SameTurns(c: int, t: int, a: int, b: int, p: int)
    requires c == t * a && p == a * b
    ensures c * b == p * t
  {
  }

  /** Powers of psi are equal only for equal exponents modulo 2N. */
  lemma DifferentPoints(psi: int, psiInverse: int, e: nat, a: nat, b: nat, q: int)
    requires q > 2 && Cong(Pow(psi, Pow2(e)), -1, q) && Cong(psi * psiInverse, 1, q) && Cong(Pow(psi, a), Pow(psi, b), q)
    ensures Cong(a, b, 2 * Pow2(e))
  {
    hide *;
    if a > b {
      Sym(Pow(psi, a), Pow(psi, b), q);
      DifferentPoints(psi, psiInverse, e, b, a, q);
      Sym(b, a, 2 * Pow2(e));
    } else {
      PowAdd(psi, a, b - a);
      PowProduct(psi, psiInverse, a);
      PowCong(psi * psiInverse, 1, a, q);
      PowOne(a);
      Sym(Pow(psi, a), Pow(psi, b), q);
      Cancel(Pow(psi, a), Pow(psiInverse, a), Pow(psi, b - a), 1, q);
      ExactOrder(psi, e, b - a, q);
      PositivePower(e);
      Refl(a, 2 * Pow2(e));
      Add(b - a, 0, a, a, 2 * Pow2(e));
      Sym(b, a, 2 * Pow2(e));
    }
  }

  lemma PositivePower(e: nat)
    ensures 2 * Pow2(e) > 0
  {
  }

  /** The polynomial X. */
  function Variable(n: nat): (s: seq<int>)
    requires n >= 2
    ensures |s| == n
  {
    seq(n, i => 0)[1 := 1]
  }

  lemma VariableValue(n: nat, z: int)
    requires n >= 2
    ensures Eval(Variable(n), z) == z
  {
    EvalZeros(n, z);
    EvalUpdate(seq(n, i => 0), 1, 1, z);
    assert Pow(z, 1) == z * Pow(z, 0);
  }

  /** So the transform values really differ: those of X in every slot. */
  lemma RotationValuesDiffer(t: Derived, psi: int, psiInverse: int, delta: int, jump: nat, power: int, diff: int, inverse: int,
                             x: seq<int>, rotated: seq<int>, y: seq<int>, j: nat)
    requires Valid(t, psi, psiInverse) && t.q > 2 && 1 <= t.e <= 29 && |y| == Pow2(t.e) && j < |x|
    requires Pow2(t.e) >= 2 && x == Variable(Pow2(t.e)) && InRange(y, 0, 2 * t.q) && CongSeq(y, 1, rotated, t.q)
    requires JumpOf(jump, delta, 2 * Pow2(t.e)) && IsRotated(rotated, x, jump, |x|)
    requires PowerOf(power, delta, 2 * Pow2(t.e)) && SlotConstants(power, diff, inverse, Pow2(t.e))
    requires !Agree(delta, 2 * Pow2(t.e))
    ensures inverse >= 0
    ensures var p := Rev(t.e, Source(Rev(t.e, j), diff, inverse, Pow2(t.e)));
      p < |x| && !Cong(Transform.NttForm(t, y)[j], Transform.NttForm(t, x)[p], t.q)
  {
    hide *;
    ValidModulus(t, psi, psiInverse);
    NttTheory.RootPower(t, psi, psiInverse);
    RootUnit(t, psi, psiInverse);
    var n, i := Pow2(t.e), Rev(t.e, j);
    RotationDisagrees(delta, jump, power, diff, inverse, i, t.e);
    SourceIs(i, diff, inverse, n);
    var source: nat := Source(i, diff, inverse, n);
    RevRange(t.e, source);
    RevInvolution(t.e, source);
    var p := Rev(t.e, source);
    var z, w := NttTheory.Point(psi, t.e, j), NttTheory.Point(psi, t.e, p);
    VariableRange(n, t.q);
    Transform.NttFormValue(t, psi, psiInverse, y, j);
    Transform.NttFormValue(t, psi, psiInverse, x, p);
    VariableValue(n, w);
    VariableValue(n, Pow(z, jump));
    EvalScaled(y, 1, rotated, z, t.q);
    NttTheory.PointPower(t, psi, psiInverse, j);
    ConjugationJumps(delta, jump, power, t.e);
    RotatedValue(x, rotated, jump, jump, z, t.q);
    if Cong(Transform.NttForm(t, y)[j], Transform.NttForm(t, x)[p], t.q) {
      var inverseRadix := RadixInverse(t.q, t.k);
      SameValues(Transform.NttForm(t, y)[j], Transform.NttForm(t, x)[p], Eval(y, z), Eval(rotated, z), Pow(z, jump), w, inverseRadix, t.q);
      NttTheory.PointIs(psi, t.e, j);
      NttTheory.PointIs(psi, t.e, p);
      PowMul(psi, 2 * i + 1, jump);
      NatProduct(2 * i + 1, jump);
      DifferentPoints(psi, psiInverse, t.e, (2 * i + 1) * jump, 2 * source + 1, t.q);
      Sym((2 * i + 1) * jump, 2 * source + 1, 2 * n);
    }
  }

  lemma RootUnit(t: Derived, psi: int, psiInverse: int)
    requires Valid(t, psi, psiInverse)
    ensures Cong(psi * psiInverse, 1, t.q)
  {
  }

  lemma VariableRange(n: nat, q: int)
    requires n >= 2 && q > 2
    ensures InRange(Variable(n), 0, 2 * q)
  {
  }

  /** Misread as conjugation, the jump is its own inverse. */
  lemma ConjugationJumps(delta: int, jump: int, power: int, e: nat)
    requires 1 <= e <= 29 && JumpOf(jump, delta, 2 * Pow2(e)) && PowerOf(power, delta, 2 * Pow2(e)) && !Agree(delta, 2 * Pow2(e))
    ensures Jumps(jump, jump, Pow2(e))
  {
    Divides32(e);
    var m := 2 * Pow2(e);
    hide Cong, Pow2;
    var k := Misread(delta, jump, power, m);
    Mul(jump, -1, jump, -1, m);
    JumpRange(jump, delta, m);
  }

  lemma SameValues(u: int, v: int, a: int, b: int, c: int, d: int, inverse: int, q: int)
    requires Cong(u, R * a, q) && Cong(a, 1 * b, q) && Cong(b, c, q) && Cong(v, R * d, q) && Cong(u, v, q) && Cong(R * inverse, 1, q)
    ensures Cong(c, d, q)
  {
    hide *;
    Sym(u, R * a, q);
    Trans(R * a, u, v, q);
    Trans(R * a, v, R * d, q);
    Cancel(R, inverse, a, d, q);
    Trans(a, b, c, q);
    Sym(a, c, q);
    Trans(c, a, d, q);
  }

  lemma Misread(delta: int, jump: int, power: int, m: int) returns (k: nat)
    requires m > 0 && JumpOf(jump, delta, m) && PowerOf(power, delta, m) && !Agree(delta, m)
    ensures Cong(jump, -1, m) && Cong(power, Pow(5, k), m)
  {
    FromQuotient(jump, -1, m, 1);
    k := delta % TWO32;
  }

  lemma ModFour(s: int, power: int, odd: int, jump: int, m: int)
    requires m > 0 && m % 4 == 0 && power % 4 == 1 && odd % 2 == 1
    requires Cong(s * power, odd, m) && Cong(jump, -1, m)
    ensures !Cong(s, odd * jump, m)
  {
    var c := m / 4;
    assert m == 4 * c;
    if Cong(s, odd * jump, m) {
      Factor(s * power, odd, c, 4);
      Factor(s, odd * jump, c, 4);
      Factor(jump, -1, c, 4);
      hide Cong;
      Residue(power, 4);
      Sym(power % 4, power, 4);
      Scale(s, power, 1, 4);
      Sym(s * power, s * 1, 4);
      Trans(s, s * power, odd, 4);
      Scale(odd, jump, -1, 4);
      Trans(s, odd * jump, -odd, 4);
      Sym(s, odd, 4);
      Trans(odd, s, -odd, 4);
      OddNotNegated(odd);
    }
  }

  lemma OddNotNegated(odd: int)
    requires odd % 2 == 1
    ensures !Cong(odd, -odd, 4)
  {
    if Cong(odd, -odd, 4) {
      var k := Quotient(odd, -odd, 4);
    }
  }
}
