/** The Lucas probable prime test of src/arithmetic/prime.cpp (section C.3.3 of FIPS 186-4). */
module Lucas {
  import opened Congruence
  import opened Polynomial
  import opened NumberTheory
  import opened Arithmetic
  import opened Montgomery

  /** The pair (U_j, V_j) of the Lucas sequences with P = 1 and Q = (1 - D) / 4: both satisfy
      X_{j+1} = X_j - Q * X_{j-1}, from U_0 = 0, U_1 = 1 and V_0 = 2, V_1 = 1. */
  function U(q: int, j: nat): int {
    if j <= 1 then j else U(q, j - 1) - q * U(q, j - 2)
  }

  function V(q: int, j: nat): int {
    if j == 0 then 2 else if j == 1 then 1 else V(q, j - 1) - q * V(q, j - 2)
  }

  lemma {:induction false} NextPair(d: int, q: int, j: nat)
    requires d == 1 - 4 * q
    ensures 2 * U(q, j + 1) == U(q, j) + V(q, j)
    ensures 2 * V(q, j + 1) == d * U(q, j) + V(q, j)
  {
    if j > 0 {
      NextPair(d, q, j - 1);
      NextAlgebra(d, q, U(q, j - 1), V(q, j - 1), U(q, j), V(q, j));
    }
  }

  lemma NextAlgebra(d: int, q: int, u: int, v: int, u': int, v': int)
    requires d == 1 - 4 * q && 2 * u' == u + v && 2 * v' == d * u + v
    ensures 2 * (u' - q * u) == u' + v'
    ensures 2 * (v' - q * v) == d * u' + v'
  {
    assert (4 * q) * u == 4 * (q * u) && (4 * q) * u' == 4 * (q * u');
    assert d * u == u - 4 * (q * u) && d * u' == u' - 4 * (q * u');
    assert 2 * (q * u') == q * u + q * v by { assert q * (2 * u') == 2 * (q * u'); }
  }

  /** The addition formulas. */
  lemma {:induction false} AddPairs(d: int, q: int, m: nat, n: nat)
    requires d == 1 - 4 * q
    ensures 2 * U(q, m + n) == U(q, m) * V(q, n) + V(q, m) * U(q, n)
    ensures 2 * V(q, m + n) == V(q, m) * V(q, n) + d * (U(q, m) * U(q, n))
  {
    if n > 0 {
      AddPairs(d, q, m, n - 1);
      NextPair(d, q, m + n - 1);
      NextPair(d, q, n - 1);
      hide *;
      AddAlgebra(d, U(q, m), V(q, m), U(q, n - 1), V(q, n - 1), U(q, n), V(q, n),
                 U(q, m + n - 1), V(q, m + n - 1), U(q, m + n), V(q, m + n));
    }
  }

  /** Half of an even combination, times a factor. */
  lemma Halves(f: int, x: int, y: int, z: int)
    requires 2 * x == y + z
    ensures 2 * (f * x) == f * y + f * z
  {
    assert f * (2 * x) == 2 * (f * x);
  }

  lemma Swap(f: int, d: int, x: int)
    ensures f * (d * x) == d * (f * x)
  {
  }

  lemma AddAlgebra(d: int, um: int, vm: int, u: int, v: int, u': int, v': int, s: int, t: int, s': int, t': int)
    requires 2 * u' == u + v && 2 * v' == d * u + v && 2 * s' == s + t && 2 * t' == d * s + t
    requires 2 * s == um * v + vm * u && 2 * t == vm * v + d * (um * u)
    ensures 2 * s' == um * v' + vm * u' && 2 * t' == vm * v' + d * (um * u')
  {
    Halves(um, u', u, v);
    Halves(vm, u', u, v);
    Halves(um, v', d * u, v);
    Halves(vm, v', d * u, v);
    Swap(um, d, u);
    Swap(vm, d, u);
    Halves(d, um * u', um * u, um * v);
    Halves(d, s, um * v, vm * u);
  }

  lemma DoublePair(d: int, q: int, j: nat)
    requires d == 1 - 4 * q
    ensures U(q, 2 * j) == U(q, j) * V(q, j)
    ensures 2 * V(q, 2 * j) == V(q, j) * V(q, j) + d * (U(q, j) * U(q, j))
  {
    hide *;
    AddPairs(d, q, j, j);
  }

  // ---------- the ladder ----------

  const TWO127: int := 0x8000_0000_0000_0000_0000_0000_0000_0000

  /** The value of a signed 128-bit word; sums and products beyond it wrap around. Wrapping the parts of
      an expression first would not change it. */
  function Int128(v: int): (w: int)
    ensures -TWO127 <= v < TWO127 ==> w == v
  {
    (v + TWO127) % (2 * TWO127) - TWO127
  }

  lemma ModulusHalfExact(number: int, modulus: int)
    requires modulus > 2 && modulus % 2 == 1 && number + modulus < TWO127 && -TWO127 <= number
    ensures var x := if number % 2 == 1 then Int128(number + modulus) else number;
      2 * Truncated(x, 2) == x && (x == number || x == number + modulus)
  {
  }

  /** Halving modulo an odd modulus, as long as the sum stays a word. */
  function ModulusHalf(number: int, modulus: int): (h: int)
    requires modulus > 2 && modulus % 2 == 1
    ensures 0 <= h < modulus
    ensures -TWO127 <= number && number + modulus < TWO127 ==> Cong(2 * h, number, modulus)
  {
    var x := if number % 2 == 1 then Int128(number + modulus) else number;
    var h := PositiveModulo(Truncated(x, 2), modulus);
    if -TWO127 <= number && number + modulus < TWO127 then
      ModulusHalfExact(number, modulus);
      HalfMeaning(number, x, Truncated(x, 2), h, modulus);
      h
    else h
  }

  lemma HalfMeaning(number: int, x: int, half: int, h: int, modulus: int)
    requires modulus > 0 && 2 * half == x && (x == number || x == number + modulus) && Cong(h, half, modulus)
    ensures Cong(2 * h, number, modulus)
  {
    hide *;
    Scale(2, h, half, modulus);
    FromQuotient(x, number, modulus, if x == number then 0 else 1);
    Trans(2 * h, x, number, modulus);
  }

  /** Two is invertible modulo an odd modulus. */
  lemma CancelTwo(a: int, b: int, n: int)
    requires n > 2 && n % 2 == 1 && Cong(2 * a, 2 * b, n)
    ensures Cong(a, b, n)
  {
    FromQuotient(2 * ((n + 1) / 2), 1, n, 1);
    Cancel(2, (n + 1) / 2, a, b, n);
  }

  /** u and v stand for the pair with index j. */
  ghost predicate Pair(u: int, v: int, q: int, j: nat, n: int) {
    0 <= u < n && 0 <= v < n && Cong(u, U(q, j), n) && Cong(v, V(q, j), n)
  }

  lemma DoubleStep(d: int, q: int, j: nat, n: int, u: int, v: int, u': int, v': int)
    requires d == 1 - 4 * q && n > 2 && n % 2 == 1 && Pair(u, v, q, j, n)
    requires 0 <= u' < n && Cong(u', u * v, n)
    requires 0 <= v' < n && Cong(2 * v', v * v + d * u * u, n)
    ensures Pair(u', v', q, 2 * j, n)
  {
    hide Cong, U, V;
    DoublePair(d, q, j);
    Mul(u, U(q, j), v, V(q, j), n);
    Trans(u', u * v, U(q, 2 * j), n);
    SquareSum(d, u, v, U(q, j), V(q, j), n);
    Trans(2 * v', v * v + d * u * u, 2 * V(q, 2 * j), n);
    CancelTwo(v', V(q, 2 * j), n);
  }

  lemma SquareSum(d: int, u: int, v: int, s: int, t: int, n: int)
    requires Cong(u, s, n) && Cong(v, t, n)
    ensures Cong(v * v + d * u * u, t * t + d * (s * s), n)
  {
    hide *;
    Mul(v, t, v, t, n);
    Mul(u, s, u, s, n);
    Scale(d, u * u, s * s, n);
    Add(v * v, t * t, d * (u * u), d * (s * s), n);
    assert d * u * u == d * (u * u);
  }

  lemma NextStep(d: int, q: int, j: nat, n: int, u: int, v: int, u': int, v': int)
    requires d == 1 - 4 * q && n > 2 && n % 2 == 1 && Pair(u, v, q, j, n)
    requires 0 <= u' < n && Cong(2 * u', u + v, n)
    requires 0 <= v' < n && Cong(2 * v', d * u + v, n)
    ensures Pair(u', v', q, j + 1, n)
  {
    hide Cong, U, V;
    var s, t := U(q, j), V(q, j);
    NextPair(d, q, j);
    Add(u, s, v, t, n);
    Trans(2 * u', u + v, 2 * U(q, j + 1), n);
    CancelTwo(u', U(q, j + 1), n);
    Scale(d, u, s, n);
    Add(d * u, d * s, v, t, n);
    Trans(2 * v', d * u + v, 2 * V(q, j + 1), n);
    CancelTwo(v', V(q, j + 1), n);
  }

  lemma {:induction false} TopBit(k: nat)
    requires k > 0
    ensures k / Pow2(Log2(k)) == 1
  {
    if k > 1 {
      TopBit(k / 2);
      Pow2Double(Log2(k / 2));
      DivTwice(k, Pow2(Log2(k / 2)));
    }
  }

  lemma DivTwice(k: nat, p: nat)
    requires p > 0
    ensures k / (2 * p) == (k / 2) / p && k / (2 * p) == (k / p) / 2
  {
    Split(k, p, 2);
    Split(k, 2, p);
  }

  lemma Split(k: nat, a: nat, b: nat)
    requires a > 0 && b > 0
    ensures a * b > 0 && (k / a) / b == k / (a * b)
  {
    var d, r := k / a, k % a;
    var e, c := d / b, d % b;
    assert k == d * a + r && d == e * b + c;
    SplitBound(a, b, c, r);
    assert (e * b) * a == e * (a * b);
    DivModUnique(k, e, c * a + r, a * b);
  }

  lemma SplitBound(a: nat, b: nat, c: nat, r: nat)
    requires c < b && r < a
    ensures 0 <= c * a + r < a * b
  {
    AtLeast(b - c, a);
    assert (b - c) * a == a * b - c * a;
  }

  // ---------- the words of the ladder ----------

  datatype State = State(u: int, v: int)

  /** One round of the loop on 128-bit words: double the index, and add one for a set bit. */
  function Doubled(s: State, d: int, n: int): State
    requires n > 2 && n % 2 == 1
  {
    State(PositiveModulo(Int128(s.u * s.v), n), ModulusHalf(Int128(s.v * s.v + d * s.u * s.u), n))
  }

  function Incremented(s: State, d: int, n: int): State
    requires n > 2 && n % 2 == 1
  {
    State(ModulusHalf(Int128(s.u + s.v), n), ModulusHalf(Int128(d * s.u + s.v), n))
  }

  /** The words for the binary prefix j of n + 1. */
  function WordsAt(d: int, n: int, j: nat): State
    requires n > 2 && n % 2 == 1
    decreases j
  {
    if j <= 1 then State(1, 1)
    else
      var s := Doubled(WordsAt(d, n, j / 2), d, n);
      if j % 2 == 1 then Incremented(s, d, n) else s
  }

  /** The largest intermediate value of a round is a 128-bit word. */
  predicate Fits(d: int, n: int) {
    (Abs(d) + 1) * ((n - 1) * (n - 1)) + n < TWO127
  }

  lemma SquareBound(a: int, b: int, m: int)
    requires 0 <= a <= m && 0 <= b <= m
    ensures 0 <= a * b <= m * m
  {
    TimesMonotone(a, m, b);
    TimesMonotone(b, m, m);
    TimesCommute(m, b);
  }

  lemma FactorBound(d: int, x: int, m: int)
    requires 0 <= x <= m
    ensures -(Abs(d) * m) <= d * x <= Abs(d) * m
  {
    TimesMonotone(x, m, Abs(d));
    TimesCommute(x, Abs(d));
    TimesCommute(m, Abs(d));
    TimesNegated(Abs(d), x);
  }

  /** Whatever the residues, no value of a round leaves the word. */
  lemma RoundFits(d: int, n: int, u: int, v: int)
    requires Fits(d, n) && n > 2 && 0 <= u < n && 0 <= v < n
    ensures -TWO127 <= u * v < TWO127 && -TWO127 <= u + v && u + v + n < TWO127
    ensures -TWO127 <= v * v + d * u * u && v * v + d * u * u + n < TWO127
    ensures -TWO127 <= d * u + v && d * u + v + n < TWO127
  {
    var m := n - 1;
    SquareBound(u, v, m);
    SquareBound(v, v, m);
    SquareBound(u, u, m);
    FactorBound(d, u * u, m * m);
    FactorBound(d, u, m);
    Associate(d, u, u);
    AtLeast(m, m);
    TimesMonotone(m, m * m, Abs(d));
    FitsMeans(d, n, m * m, m);
  }

  lemma FitsMeans(d: int, n: int, square: int, m: int)
    requires Fits(d, n) && square == (n - 1) * (n - 1) && m == n - 1 && 1 <= m <= square
    ensures Abs(d) * square + square + n < TWO127
    ensures m * Abs(d) <= square * Abs(d) ==> Abs(d) * m + m + n < TWO127 && m * 2 + n < TWO127
  {
    assert (Abs(d) + 1) * square == Abs(d) * square + square;
    TimesCommute(m, Abs(d));
    TimesCommute(square, Abs(d));
    TimesMonotone(0, Abs(d), square);
  }

  lemma {:induction false} WordsArePairs(d: int, q: int, n: int, j: nat)
    requires n > 3 && n % 2 == 1 && d == 1 - 4 * q && Fits(d, n) && j >= 1
    ensures var s := WordsAt(d, n, j); Pair(s.u, s.v, q, j, n)
    decreases j
  {
    hide *;
    if j == 1 {
      FirstPair(d, q, n);
    } else {
      var t := WordsAt(d, n, j / 2);
      WordsArePairs(d, q, n, j / 2);
      PairRange(t.u, t.v, q, j / 2, n);
      RoundFits(d, n, t.u, t.v);
      DoubledIs(d, n, t);
      var s := Doubled(t, d, n);
      DoubleStep(d, q, j / 2, n, t.u, t.v, s.u, s.v);
      PairRange(s.u, s.v, q, 2 * (j / 2), n);
      RoundFits(d, n, s.u, s.v);
      IncrementedIs(d, n, s);
      if j % 2 == 1 { NextStep(d, q, 2 * (j / 2), n, s.u, s.v, Incremented(s, d, n).u, Incremented(s, d, n).v); }
      WordsStep(d, n, j);
    }
  }

  lemma FirstPair(d: int, q: int, n: int)
    requires n > 3 && n % 2 == 1
    ensures var s := WordsAt(d, n, 1); Pair(s.u, s.v, q, 1, n)
  {
  }

  lemma PairRange(u: int, v: int, q: int, j: nat, n: int)
    requires Pair(u, v, q, j, n)
    ensures 0 <= u < n && 0 <= v < n
  {
  }

  lemma DoubledIs(d: int, n: int, s: State)
    requires n > 2 && n % 2 == 1 && -TWO127 <= s.u * s.v < TWO127
    requires var x := s.v * s.v + d * s.u * s.u; -TWO127 <= x && x + n < TWO127
    ensures var r := Doubled(s, d, n);
      0 <= r.u < n && Cong(r.u, s.u * s.v, n) && 0 <= r.v < n && Cong(2 * r.v, s.v * s.v + d * s.u * s.u, n)
  {
    hide ModulusHalf, PositiveModulo;
  }

  lemma IncrementedIs(d: int, n: int, s: State)
    requires n > 2 && n % 2 == 1 && -TWO127 <= s.u + s.v && s.u + s.v + n < TWO127
    requires -TWO127 <= d * s.u + s.v && d * s.u + s.v + n < TWO127
    ensures var r := Incremented(s, d, n);
      0 <= r.u < n && Cong(2 * r.u, s.u + s.v, n) && 0 <= r.v < n && Cong(2 * r.v, d * s.u + s.v, n)
  {
    hide ModulusHalf;
  }

  lemma WordsStep(d: int, n: int, j: nat)
    requires n > 2 && n % 2 == 1 && j > 1
    ensures WordsAt(d, n, j) == (var s := Doubled(WordsAt(d, n, j / 2), d, n); if j % 2 == 1 then Incremented(s, d, n) else s)
    ensures 2 * (j / 2) == if j % 2 == 1 then j - 1 else j
  {
    hide Doubled, Incremented;
  }

  /** The part of the test after the search for d. The words are those of every binary prefix of
      number + 1; while no round leaves the 128-bit word they are (U_j, V_j), and the answer is
      U_{number + 1} = 0 modulo the number. */
  method Ladder(number: int, d: int, ghost q: int) returns (probable: bool)
    requires 3 < number && number + 1 < TWO64 && number % 2 == 1 && d == 1 - 4 * q
    ensures probable <==> WordsAt(d, number, number + 1).u == 0
    ensures Fits(d, number) ==> (probable <==> Cong(U(q, number + 1), 0, number))
  {
    hide *;
    var k := number + 1;
    var u, v := 1, 1;
    var shift := Log2(k) - 1;
    LadderStart(d, number);
    while shift >= 0
      invariant -1 <= shift && State(u, v) == WordsAt(d, number, k / Pow2(shift + 1))
      invariant k / Pow2(shift + 1) >= 1
    {
      ghost var before := State(u, v);
      var uOld := u;
      u := PositiveModulo(Int128(uOld * v), number);
      v := ModulusHalf(Int128(v * v + d * uOld * uOld), number);
      NextBit(k, shift);
      WordsStep(d, number, k / Pow2(shift));
      DoubledWords(d, number, before, u, v);
      if (k / Pow2(shift)) % 2 == 1 {
        before := State(u, v);
        uOld := u;
        u := ModulusHalf(Int128(u + v), number);
        v := ModulusHalf(Int128(d * uOld + v), number);
        IncrementedWords(d, number, before, u, v);
      }
      shift := shift - 1;
    }
    LadderEnd(k);
    if Fits(d, number) {
      WordsArePairs(d, q, number, k);
      PairZero(u, v, q, k, number);
    }
    return u == 0;
  }

  lemma DoubledWords(d: int, n: int, s: State, u: int, v: int)
    requires n > 2 && n % 2 == 1
    requires u == PositiveModulo(Int128(s.u * s.v), n) && v == ModulusHalf(Int128(s.v * s.v + d * s.u * s.u), n)
    ensures Doubled(s, d, n) == State(u, v)
  {
    hide ModulusHalf, PositiveModulo, Int128;
  }

  lemma IncrementedWords(d: int, n: int, s: State, u: int, v: int)
    requires n > 2 && n % 2 == 1
    requires u == ModulusHalf(Int128(s.u + s.v), n) && v == ModulusHalf(Int128(d * s.u + s.v), n)
    ensures Incremented(s, d, n) == State(u, v)
  {
    hide ModulusHalf, Int128;
  }

  lemma LadderStart(d: int, n: int)
    requires n > 3 && n % 2 == 1
    ensures Log2(n + 1) >= 1 && (n + 1) / Pow2(Log2(n + 1)) == 1 && WordsAt(d, n, 1) == State(1, 1)
  {
    TopBit(n + 1);
  }

  lemma NextBit(k: nat, shift: nat)
    ensures k / Pow2(shift + 1) == (k / Pow2(shift)) / 2
    ensures k / Pow2(shift + 1) >= 1 ==> k / Pow2(shift) > 1
  {
    Pow2Double(shift);
    DivTwice(k, Pow2(shift));
  }

  lemma LadderEnd(k: nat)
    ensures k / Pow2(0) == k
  {
  }

  lemma PairZero(u: int, v: int, q: int, k: nat, n: int)
    requires n > 0 && Pair(u, v, q, k, n)
    ensures u == 0 <==> Cong(U(q, k), 0, n)
  {
    hide U, V;
  }

  // ---------- primes pass ----------

  /** (1 + sqrt(d))^j = A + B * sqrt(d). */
  function A(d: int, j: nat): int {
    if j == 0 then 1 else A(d, j - 1) + d * B(d, j - 1)
  }

  function B(d: int, j: nat): int {
    if j == 0 then 0 else A(d, j - 1) + B(d, j - 1)
  }

  lemma {:induction false} PairIsPower(d: int, q: int, j: nat)
    requires d == 1 - 4 * q
    ensures Pow2(j) * V(q, j) == 2 * A(d, j) && Pow2(j) * U(q, j) == 2 * B(d, j)
  {
    if j > 0 {
      PairIsPower(d, q, j - 1);
      NextPair(d, q, j - 1);
      PairAlgebra(d, Pow2(j - 1), U(q, j - 1), V(q, j - 1), U(q, j), V(q, j), A(d, j - 1), B(d, j - 1));
    }
  }

  lemma PairAlgebra(d: int, p: int, u: int, v: int, u': int, v': int, a: int, b: int)
    requires 2 * u' == u + v && 2 * v' == d * u + v && p * v == 2 * a && p * u == 2 * b
    ensures (2 * p) * v' == 2 * (a + d * b) && (2 * p) * u' == 2 * (a + b)
  {
    Halves(p, u', u, v);
    Halves(p, v', d * u, v);
    Swap(p, d, u);
    assert d * (p * u) == d * (2 * b);
  }

  /** The value of a polynomial at sqrt(d), as the pair (rational part, coefficient of sqrt(d)). */
  function Rational(s: seq<int>, d: int): int {
    if s == [] then 0 else s[0] + d * Irrational(s[1..], d)
  }

  function Irrational(s: seq<int>, d: int): int {
    if s == [] then 0 else Rational(s[1..], d)
  }

  lemma {:induction false} RootLinear(s: seq<int>, a: seq<int>, b: seq<int>, d: int, n: int)
    requires n > 0 && |s| == |a| == |b|
    requires forall i :: 0 <= i < |s| ==> Cong(s[i], a[i] + b[i], n)
    ensures Cong(Rational(s, d), Rational(a, d) + Rational(b, d), n)
    ensures Cong(Irrational(s, d), Irrational(a, d) + Irrational(b, d), n)
  {
    hide Cong;
    if s == [] {
      Refl(0, n);
    } else {
      RootLinear(s[1..], a[1..], b[1..], d, n);
      LinearStep(d, s[0], a[0], b[0], Irrational(s[1..], d), Irrational(a[1..], d), Irrational(b[1..], d), n);
    }
  }

  lemma LinearStep(d: int, s: int, a: int, b: int, x: int, y: int, z: int, n: int)
    requires Cong(s, a + b, n) && Cong(x, y + z, n)
    ensures Cong(s + d * x, (a + d * y) + (b + d * z), n)
  {
    hide *;
    Scale(d, x, y + z, n);
    Add(s, a + b, d * x, d * (y + z), n);
    assert d * (y + z) == d * y + d * z;
  }

  lemma {:induction false} RootAppendZero(s: seq<int>, d: int)
    ensures Rational(s + [0], d) == Rational(s, d) && Irrational(s + [0], d) == Irrational(s, d)
  {
    if s == [] {
      assert Irrational([], d) == 0 && s + [0] == [0];
    } else {
      assert (s + [0])[1..] == s[1..] + [0];
      RootAppendZero(s[1..], d);
    }
  }

  lemma RootShift(c: int, s: seq<int>, d: int)
    ensures Rational([c] + s, d) == c + d * Irrational(s, d) && Irrational([c] + s, d) == Rational(s, d)
  {
    assert ([c] + s)[1..] == s;
  }

  lemma {:induction false} RootBinomial(d: int, j: nat, n: int)
    requires n > 0
    ensures Cong(Rational(Row(j), d), A(d, j), n) && Cong(Irrational(Row(j), d), B(d, j), n)
  {
    if j == 0 {
      assert Row(0) == [1] + [];
      RootShift(1, [], d);
    } else {
      RootBinomial(d, j - 1, n);
      hide *;
      RootRow(d, j, n);
      var row := Row(j - 1);
      PairStep(d, Rational(row, d), Irrational(row, d), A(d, j - 1), B(d, j - 1), n);
      PowersStep(d, j);
      Trans(Rational(Row(j), d), Rational(row, d) + d * Irrational(row, d), A(d, j), n);
      Trans(Irrational(Row(j), d), Irrational(row, d) + Rational(row, d), B(d, j), n);
    }
  }

  lemma PowersStep(d: int, j: nat)
    requires j > 0
    ensures A(d, j) == A(d, j - 1) + d * B(d, j - 1) && B(d, j) == B(d, j - 1) + A(d, j - 1)
  {
  }

  lemma PairStep(d: int, a: int, b: int, a': int, b': int, n: int)
    requires Cong(a, a', n) && Cong(b, b', n)
    ensures Cong(a + d * b, a' + d * b', n) && Cong(b + a, b' + a', n)
  {
    hide *;
    Scale(d, b, b', n);
    Add(a, a', d * b, d * b', n);
    Add(b, b', a, a', n);
  }

  lemma RootRow(d: int, j: nat, n: int)
    requires j > 0 && n > 0
    ensures var row := Row(j - 1);
      Cong(Rational(Row(j), d), Rational(row, d) + d * Irrational(row, d), n) &&
      Cong(Irrational(Row(j), d), Irrational(row, d) + Rational(row, d), n)
  {
    hide *;
    var row := Row(j - 1);
    forall k | 0 <= k < |Row(j)| ensures Cong(Row(j)[k], (row + [0])[k] + ([0] + row)[k], n) {
      RowEntry(j, k);
      Refl(Row(j)[k], n);
    }
    RootLinear(Row(j), row + [0], [0] + row, d, n);
    RootAppendZero(row, d);
    RootShift(0, row, d);
  }

  function Monomial(m: nat): (s: seq<int>)
    ensures |s| == m + 1
  {
    seq(m, i => 0) + [1]
  }

  lemma MonomialShift(m: nat)
    requires m > 0
    ensures Monomial(m) == [0] + Monomial(m - 1) && Monomial(0) == [1] + []
  {
  }

  lemma {:induction false} RootMonomial(d: int, m: nat)
    ensures m % 2 == 0 ==> Rational(Monomial(m), d) == Pow(d, m / 2) && Irrational(Monomial(m), d) == 0
    ensures m % 2 == 1 ==> Rational(Monomial(m), d) == 0 && Irrational(Monomial(m), d) == Pow(d, m / 2)
  {
    hide *;
    MonomialShift(m + 1);
    if m == 0 {
      RootShift(1, [], d);
      RootEmpty(d);
      PowPeel(d, 0);
    } else {
      RootMonomial(d, m - 1);
      MonomialShift(m);
      RootShift(0, Monomial(m - 1), d);
      PowPeel(d, m / 2);
      assert d * 0 == 0;
    }
  }

  lemma RootEmpty(d: int)
    ensures Rational([], d) == 0 && Irrational([], d) == 0
  {
  }

  /** Modulo an odd prime n: (1 + sqrt(d))^n = 1 + d^((n - 1) / 2) * sqrt(d). */
  lemma Frobenius(d: int, n: int)
    requires Prime(n) && n % 2 == 1
    ensures Cong(A(d, n), 1, n) && Cong(B(d, n), Pow(d, (n - 1) / 2), n)
  {
    Positive(n);
    hide Cong, Prime, Rational, Irrational, A, B;
    var zeros := seq(n + 1, i => 0);
    var ends := [1] + Monomial(n - 1);
    forall k | 0 <= k <= n ensures Cong(Row(n)[k], ends[k] + zeros[k], n) {
      if 0 < k < n { MiddleZero(n, k); }
      if k == n { ChooseEdge(n, n); }
      Refl(1, n);
    }
    RootLinear(Row(n), ends, zeros, d, n);
    hide *;
    RootZeros(n + 1, d);
    RootShift(1, Monomial(n - 1), d);
    RootMonomial(d, n - 1);
    RootBinomial(d, n, n);
    assert d * 0 == 0;
    Sym(Rational(Row(n), d), A(d, n), n);
    Trans(A(d, n), Rational(Row(n), d), 1, n);
    Sym(Irrational(Row(n), d), B(d, n), n);
    Trans(B(d, n), Irrational(Row(n), d), Pow(d, (n - 1) / 2), n);
  }

  lemma {:induction false} RootZeros(m: nat, d: int)
    ensures Rational(seq(m, i => 0), d) == 0 && Irrational(seq(m, i => 0), d) == 0
  {
    if m > 0 {
      assert seq(m, i => 0)[1..] == seq(m - 1, i => 0);
      RootZeros(m - 1, d);
    }
  }

  /** The ladder accepts every odd prime for which D is a quadratic non-residue. */
  lemma PrimePasses(n: int, d: int, q: int)
    requires Prime(n) && n % 2 == 1 && d == 1 - 4 * q && Cong(Pow(d, (n - 1) / 2), -1, n)
    ensures Cong(U(q, n + 1), 0, n)
  {
    Positive(n);
    hide *;
    Frobenius(d, n);
    PairIsPower(d, q, n);
    NextPair(d, q, n);
    Trans(B(d, n), Pow(d, (n - 1) / 2), -1, n);
    Add(A(d, n), 1, B(d, n), -1, n);
    var y := Pow2Inverse(n, n);
    PassAlgebra(U(q, n), V(q, n), U(q, n + 1), A(d, n), B(d, n), Pow2(n), y, n);
  }

  lemma Pow2Inverse(e: nat, n: int) returns (y: int)
    requires n > 1 && n % 2 == 1
    ensures Cong(Pow2(e) * y, 1, n)
  {
    Pow2Invertible(e, n);
    y :| Cong(Pow2(e) * y, 1, n);
  }

  lemma PassAlgebra(u: int, v: int, next: int, a: int, b: int, p: int, y: int, n: int)
    requires n > 1 && n % 2 == 1 && Cong(a + b, 0, n) && Cong(p * y, 1, n)
    requires p * v == 2 * a && p * u == 2 * b && 2 * next == u + v
    ensures Cong(next, 0, n)
  {
    hide *;
    assert p * (2 * next) == 2 * (p * next) && p * (u + v) == p * u + p * v;
    assert p * next == a + b && p * 0 == 0;
    Cancel(p, y, next, 0, n);
  }
}
