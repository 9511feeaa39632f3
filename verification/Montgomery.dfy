/** Scalar Montgomery reduction with radix 2^62 on 64-bit words (src/montgomery/unit.h).

    The casts, the mask and the logical shift of the source are written out; the lemmas say when they
    give the exact quotient. */
module Montgomery {
  import opened Congruence

  const R: int := 0x4000_0000_0000_0000
  const TWO63: int := 0x8000_0000_0000_0000
  const TWO64: int := 0x1_0000_0000_0000_0000
  const TWO66: int := 0x4_0000_0000_0000_0000
  const TWO128: int := 0x1_0000_0000_0000_0000_0000_0000_0000_0000

  /** Truncation of an integer to a signed 64-bit word. */
  function ToInt64(v: int): (w: int)
    ensures -TWO63 <= w < TWO63
    ensures -TWO63 <= v < TWO63 ==> w == v
  {
    var low := v % TWO64;
    if low < TWO63 then low else low - TWO64
  }

  function Guard(x: int, q: int): int {
    if x < q then x else x - q
  }

  /** The product is formed in 128 bits from sign-extended operands, masked to 62 bits for the
      multiplier s, shifted right logically and truncated to 64 bits. */
  function MontMultScalar(x1: int, x2: int, q: int, k: int): int {
    var x := (x1 * x2) % TWO128;
    var s := ((x * k) % TWO128) % R;
    ToInt64(((x + s * q) % TWO128) / R)
  }

  /** Leaving the Montgomery domain: here x * k is formed in 64 bits. */
  function MontExitScalar(x: int, q: int, k: int): int {
    var s := ((x * k) % TWO64) % R;
    ToInt64(((x % TWO128 + s * q) % TWO128) / R)
  }

  /** guard(x + y, 2q) and guard(x + 2q - y, 2q), with the 64-bit wrap-around of the sum. */
  function AddGuard(x: int, y: int, qDouble: int): int {
    Guard(ToInt64(x + y), qDouble)
  }

  function SubGuard(x: int, y: int, qDouble: int): int {
    Guard(ToInt64(x + qDouble - y), qDouble)
  }

  /** q and k as every kernel expects them: 4q fits below the radix and k is -1/q modulo it. */
  ghost predicate MontModulus(q: int, k: int) {
    0 < q && 4 * q <= R && 0 <= k < R && Cong(k * q, -1, R)
  }

  lemma ModMod(a: int, b: int, n: int)
    requires n > 0 && b > 0 && b % n == 0
    ensures (a % b) % n == a % n
  {
    var m := b / n;
    assert a == (a / b) * b + a % b;
    assert (a / b) * b == ((a / b) * m) * n;
    FromQuotient(a, a % b, n, (a / b) * m);
  }

  /** The exact quotient behind the bit manipulation, for signed operands too. */
  lemma ShiftExact(p: int, sq: int, t: int)
    requires p + sq == t * R && -TWO63 <= t < TWO63
    ensures ToInt64(((p % TWO128 + sq) % TWO128) / R) == t
  {
    var u := p % TWO128 + sq;
    var low, high := t % TWO66, t / TWO66;
    var d := high - p / TWO128;
    assert u == d * TWO128 + low * R;
    DivModUnique(u, d, low * R, TWO128);
    assert low % TWO64 == t % TWO64;
  }

  lemma MultiplierClears(p: int, s: int, q: int, k: int)
    requires MontModulus(q, k) && Cong(s, p * k, R)
    ensures Cong(p + s * q, 0, R)
  {
    var i := Quotient(s, p * k, R);
    var j := Quotient(k * q, -1, R);
    assert p + s * q == 0 + (p * j + i * q) * R by {
      assert (p * k) * q == p * (k * q);
    }
    FromQuotient(p + s * q, 0, R, p * j + i * q);
  }

  /** Montgomery reduction of any signed product whose quotient fits a word: the result is the
      unique integer t with t * R = x1 * x2 modulo q and 0 <= t * R - x1 * x2 < q * R. */
  lemma MontExact(x1: int, x2: int, q: int, k: int)
    requires MontModulus(q, k)
    requires -TWO63 * R <= x1 * x2 && x1 * x2 + q * R <= TWO63 * R
    ensures var t := MontMultScalar(x1, x2, q, k);
      Cong(t * R, x1 * x2, q) && x1 * x2 <= t * R && t * R <= x1 * x2 + q * (R - 1)
  {
    hide Cong;
    var p := x1 * x2;
    var s := (((p % TWO128) * k) % TWO128) % R;
    MultiplierResidue(p, k);
    MultiplierClears(p, s, q, k);
    var t := Quotient(p + s * q, 0, R);
    ProductBound(s, R - 1, q, q);
    ShiftExact(p, s * q, t);
    FromQuotient(t * R, p, q, s);
  }

  lemma MultiplierResidue(p: int, k: int)
    ensures Cong((((p % TWO128) * k) % TWO128) % R, p * k, R)
    ensures 0 <= (((p % TWO128) * k) % TWO128) % R < R
  {
    ModMod((p % TWO128) * k, TWO128, R);
    Residue(p, TWO128);
    Scale(k, p % TWO128, p, TWO128);
    assert k * (p % TWO128) == (p % TWO128) * k && k * p == p * k;
    Factor((p % TWO128) * k, p * k, TWO66, R);
  }

  /** Leaving the domain is multiplication by one. */
  lemma ExitIsMultByOne(x: int, q: int, k: int)
    requires MontModulus(q, k)
    ensures MontExitScalar(x, q, k) == MontMultScalar(x, 1, q, k)
  {
    var u := x % TWO128;
    Residue(x, TWO128);
    Scale(k, u, x, TWO128);
    assert k * u == u * k && k * x == x * k;
    Factor(u * k, x * k, TWO66, R);
    ModMod(u * k, TWO128, R);
    ModMod(x * k, TWO64, R);
  }

  lemma RadixInverse(q: int, k: int) returns (j: int)
    requires MontModulus(q, k)
    ensures Cong(R * j, 1, q)
  {
    j := Quotient(k * q, -1, R);
    FromQuotient(R * j, 1, q, k);
  }

  /** Products of lazily reduced operands stay lazily reduced. */
  lemma MontLazy(x1: int, x2: int, q: int, k: int)
    requires MontModulus(q, k) && 0 <= x1 < 2 * q && 0 <= x2 < 2 * q
    ensures 0 <= MontMultScalar(x1, x2, q, k) < 2 * q
    ensures Cong(MontMultScalar(x1, x2, q, k) * R, x1 * x2, q)
  {
    assert 0 <= x1 * x2 <= (2 * q) * (2 * q) == (4 * q) * q <= R * q by {
      assert x1 * x2 <= (2 * q) * x2 <= (2 * q) * (2 * q);
      assert (4 * q) * q <= R * q;
    }
    MontExact(x1, x2, q, k);
  }

  lemma ProductBound(x: int, bound: int, c: int, q: int)
    requires -bound <= x <= bound && 0 <= c <= q
    ensures -(bound * q) <= x * c <= bound * q
    ensures x >= 0 ==> x * c >= 0
  {
    assert x * c <= bound * c && (-bound) * c <= x * c && bound * c <= bound * q;
  }

  /** Multiplication of a signed word by a reduced constant. */
  lemma MontByConstant(x: int, c: int, q: int, k: int)
    requires MontModulus(q, k) && -R <= x <= R && 0 <= c < q
    ensures var t := MontMultScalar(x, c, q, k);
      Cong(t * R, x * c, q) && x * c <= t * R && t * R <= x * c + q * (R - 1)
  {
    ProductBound(x, R, c, q);
    MontExact(x, c, q, k);
  }

  /** What a Montgomery product means when one operand carries the radix. */
  lemma MontMeaning(t: int, x1: int, x2: int, q: int, k: int, a: int)
    requires MontModulus(q, k) && Cong(t * R, x1 * x2, q) && Cong(x1, a * R, q)
    ensures Cong(t, a * x2, q)
  {
    hide *;
    var j := RadixInverse(q, k);
    Refl(x2, q);
    Mul(x1, a * R, x2, x2, q);
    assert (a * R) * x2 == R * (a * x2) && t * R == R * t;
    Trans(R * t, x1 * x2, R * (a * x2), q);
    Cancel(R, j, t, a * x2, q);
  }

  /** Entering the domain: a lazily reduced representative of R times the input. */
  lemma Enter(x: int, rSquared: int, q: int, k: int)
    requires MontModulus(q, k) && 0 <= x < 2 * q && 0 <= rSquared < q && Cong(rSquared, R * R, q)
    ensures var v := MontMultScalar(x, rSquared, q, k); 0 <= v < 2 * q && Cong(v, R * x, q)
  {
    hide MontMultScalar, Cong;
    var v := MontMultScalar(x, rSquared, q, k);
    MontLazy(x, rSquared, q, k);
    var j := RadixInverse(q, k);
    Scale(x, rSquared, R * R, q);
    Trans(v * R, x * rSquared, x * (R * R), q);
    assert v * R == R * v && x * (R * R) == R * (R * x);
    Cancel(R, j, v, R * x, q);
  }
}
