/** The Jacobi symbol of src/arithmetic/prime.cpp. */
module Jacobi {
  import opened Congruence
  import opened Arithmetic
  import opened Montgomery
  import opened NumberTheory
  import opened QuadraticResidues

  // ---------- the symbol by its prime factors ----------

  /** The least divisor of n that is at least d. */
  function LeastFactor(n: int, d: int): (p: int)
    requires 1 < d <= n
    ensures d <= p <= n && n % p == 0 && forall e :: d <= e < p ==> n % e != 0
    decreases n - d
  {
    if n % d == 0 then
      d
    else
      SelfDivides(n);
      LeastFactor(n, d + 1)
  }

  lemma SelfDivides(n: int)
    requires n > 0
    ensures n % n == 0
  {
  }

  /** Euler's symbol: a to the power (p - 1) / 2, as 1, -1 or 0. */
  function Legendre(a: int, p: int): int
    requires p > 1
  {
    var e := Pow(a, p / 2) % p;
    if e == 1 then 1 else if e == p - 1 then -1 else 0
  }

  /** The product of Euler's symbols over the prime factors of n. */
  function JacobiSymbol(a: int, n: int): int
    requires Odd(n)
    decreases n
  {
    if n == 1 then 1
    else
      var p := LeastFactor(n, 2);
      Cofactor(n, p);
      Legendre(a, p) * JacobiSymbol(a, n / p)
  }

  lemma Cofactor(n: int, p: int)
    requires Odd(n) && 1 < p <= n && n % p == 0
    ensures n == p * (n / p) && Odd(p) && Odd(n / p) && 1 <= n / p < n
  {
    var c := n / p;
    assert n == p * c;
    if c <= 0 { TimesMonotone(c, 0, p); }
    if p % 2 == 0 { EvenTimes(p, c); }
    if c % 2 == 0 { EvenTimes(c, p); }
    TimesMonotone(2, p, c);
  }

  lemma EvenTimes(a: int, b: int)
    requires a % 2 == 0
    ensures (a * b) % 2 == 0
  {
    assert a * b == 2 * ((a / 2) * b);
  }

  lemma LeastIsPrime(n: int)
    requires n > 1
    ensures Prime(LeastFactor(n, 2))
  {
    var p := LeastFactor(n, 2);
    forall d | Divides(d, p) ensures d == 1 || d == p {
      assert p == d * (p / d) && n == p * (n / p);
      Associate(n / p, p / d, d);
      TimesCommute(d, p / d);
      TimesCommute(p, n / p);
      DivModUnique(n, (n / p) * (p / d), 0, d);
      DividesBound(d, p);
    }
  }

  lemma DividesBound(d: int, p: int)
    requires Divides(d, p) && p > 0
    ensures 1 <= d <= p
  {
    var c := p / d;
    assert p == d * c;
    if c <= 0 {
      TimesMonotone(c, 0, d);
    } else {
      AtLeast(c, d);
    }
  }

  // ---------- the denominator ----------

  lemma Halves(m: int, n: int)
    requires Odd(m) && Odd(n)
    ensures Odd(m * n) && Alternates((m * n) / 2) == Alternates(m / 2) * Alternates(n / 2)
  {
    var h, k := m / 2, n / 2;
    assert m == 2 * h + 1 && n == 2 * k + 1;
    assert m * n == 2 * (2 * (h * k) + h + k) + 1;
    hide *;
    HalvesAre(m * n, h * k, h, k);
  }

  lemma HalvesAre(mn: int, hk: int, h: int, k: int)
    requires mn == 2 * (2 * hk + h + k) + 1 && hk >= 0 && h >= 0 && k >= 0
    ensures Odd(mn) && Alternates(mn / 2) == Alternates(h) * Alternates(k)
  {
  }

  lemma {:induction false} AlternatesTimes(a: int, h: int, k: int, hk: int)
    requires a >= 0 && Alternates(hk) == Alternates(h) * Alternates(k)
    ensures Alternates(a * hk) == Alternates(a * h) * Alternates(a * k)
  {
    if a > 0 {
      AlternatesTimes(a - 1, h, k, hk);
      AlternatesPeel(a, hk);
      AlternatesPeel(a, h);
      AlternatesPeel(a, k);
      hide Alternates;
      Exchange(Alternates((a - 1) * h), Alternates((a - 1) * k), Alternates(h), Alternates(k));
    }
  }

  lemma AlternatesPeel(a: int, h: int)
    ensures Alternates(a * h) == Alternates((a - 1) * h) * Alternates(h)
  {
    assert a * h == (a - 1) * h + h;
    hide *;
    AlternatesAdd((a - 1) * h, h);
  }

  /** An odd positive number with a given residue. */
  lemma OddResidue(a: int, n: int) returns (b: int)
    requires Odd(n)
    ensures Odd(b) && Cong(a, b, n)
  {
    Residue(a, n);
    hide Cong;
    b := a % n;
    if b % 2 == 0 {
      FromQuotient(b + n, b, n, 1);
      Trans(b + n, b, a, n);
      Sym(b + n, a, n);
      b := b + n;
    }
  }

  /** Multiplicative in the denominator. */
  lemma SymbolDenominator(a: int, m: int, n: int)
    requires Odd(m) && Odd(n)
    ensures Odd(m * n) && Symbol(a, m * n) == Symbol(a, m) * Symbol(a, n)
  {
    hide *;
    Halves(m, n);
    OddPositive(m);
    OddPositive(n);
    OddPositive(m * n);
    var b := OddResidue(a, m * n);
    OddPositive(b);
    Factor(a, b, m, n);
    TimesCommute(m, n);
    Factor(a, b, n, m);
    SymbolResidue(a, b, m * n);
    SymbolResidue(a, b, m);
    SymbolResidue(a, b, n);
    Reciprocity(b, m * n);
    Reciprocity(b, m);
    Reciprocity(b, n);
    SymbolTimes(m, n, b);
    AlternatesTimes(b / 2, m / 2, n / 2, (m * n) / 2);
    Exchange(Alternates((b / 2) * (m / 2)), Alternates((b / 2) * (n / 2)), Symbol(m, b), Symbol(n, b));
  }

  lemma OddPositive(n: int)
    requires Odd(n)
    ensures n > 0 && n / 2 >= 0
  {
  }

  // ---------- both definitions agree ----------

  lemma LegendreIs(a: int, p: int)
    requires Prime(p) && Odd(p)
    ensures Legendre(a, p) == Symbol(a, p)
  {
    if Cong(a, 0, p) {
      PowCong(a, 0, p / 2, p);
      if Invertible(a, p) {
        var y := InverseOf(a, p);
        MulRight(a, 0, y, p);
        OneIsNotZero(p);
      }
      assert Pow(0, p / 2) == 0;
    } else {
      var y := PrimeInverse(a, p);
      Invert(a, y, p);
      EulerCriterion(a, p);
      SymbolSign(a, p);
      LegendreSign(a, p, Symbol(a, p));
    }
  }

  lemma SymbolSign(a: int, n: int)
    requires n > 0 && Invertible(a, n)
    ensures IsSign(Symbol(a, n))
  {
    SignsAre(a, n);
  }

  lemma LegendreSign(a: int, p: int, s: int)
    requires p > 2 && IsSign(s) && Cong(Pow(a, p / 2), s, p)
    ensures Legendre(a, p) == s
  {
  }

  /** The signs of the lower half multiply to the Jacobi symbol. */
  lemma {:induction false} SymbolIsJacobi(a: int, n: int)
    requires Odd(n)
    ensures Symbol(a, n) == JacobiSymbol(a, n)
    decreases n
  {
    if n == 1 {
      assert Cong(a * 0, 1, 1);
      Invert(a, 0, 1);
    } else {
      var p := LeastFactor(n, 2);
      Cofactor(n, p);
      LeastIsPrime(n);
      LegendreIs(a, p);
      SymbolIsJacobi(a, n / p);
      SymbolDenominator(a, p, n / p);
    }
  }

  // ---------- the loop ----------

  /** The sign that the accumulator stands for: its bit 1 and bit 2, the only ones ever set. */
  function Accumulated(bit1: bool, bit2: bool): int {
    if bit1 != bit2 then -1 else 1
  }

  predicate Bit1(n: int) {
    n / 2 % 2 == 1
  }

  predicate Bit2(n: int) {
    n / 4 % 2 == 1
  }

  /** The word that the loop starts from: positive_modulo on signed 64-bit words, where a modulus from
      2^63 on is negative and the sum of modulus and remainder may wrap around. */
  function FirstNumerator(input: int, modulus: int): (numerator: int)
    requires 0 < modulus < TWO64
    ensures 0 <= numerator < TWO64
  {
    PassedModulus(modulus, true);
    var m := Narrowed(modulus, true);
    var sum := ToInt64(Passed(modulus, true) + Remainder(input, m));
    Returned(Remainder(sum, m), true)
  }

  /** No word wraps around: below 2^62 for every input, and below 2^63 for every negative one. */
  predicate NoWrap(input: int, modulus: int) {
    0 < modulus < TWO63 && modulus + Remainder(input, modulus) < TWO63
  }

  lemma NoWrapBelow(input: int, modulus: int)
    requires 0 < modulus < TWO63 && (modulus <= R || input <= 0)
    ensures NoWrap(input, modulus)
  {
    TruncatedDivision(input, modulus);
  }

  lemma FirstNumeratorExact(input: int, modulus: int)
    requires NoWrap(input, modulus)
    ensures modulus < TWO64 && Cong(FirstNumerator(input, modulus), input, modulus)
  {
    TruncatedDivision(input, modulus);
    hide Cong;
    var r := Remainder(input, modulus);
    PassedWord(modulus, true);
    PassedReturned((modulus + r) % modulus, true);
    Residue(modulus + r, modulus);
    FromQuotient(modulus + r, r, modulus, 1);
    Trans((modulus + r) % modulus, modulus + r, r, modulus);
    Trans((modulus + r) % modulus, r, input, modulus);
  }

  /** What the source decides for any 64-bit words. */
  function WordSymbol(input: int, modulus: int): int
    requires 0 < modulus < TWO64
  {
    if modulus % 2 == 1 then JacobiSymbol(FirstNumerator(input, modulus), modulus) else 0
  }

  lemma WordSymbolExact(input: int, modulus: int)
    requires NoWrap(input, modulus) && Odd(modulus)
    ensures modulus < TWO64 && WordSymbol(input, modulus) == JacobiSymbol(input, modulus)
  {
    FirstNumeratorExact(input, modulus);
    hide *;
    OddPositive(modulus);
    SymbolResidue(FirstNumerator(input, modulus), input, modulus);
    SymbolIsJacobi(FirstNumerator(input, modulus), modulus);
    SymbolIsJacobi(input, modulus);
    WordSymbolOdd(input, modulus);
  }

  lemma WordSymbolOdd(input: int, modulus: int)
    requires Odd(modulus) && modulus < TWO64
    ensures WordSymbol(input, modulus) == JacobiSymbol(FirstNumerator(input, modulus), modulus)
  {
  }

  /** From 2^63 on the symbol can be wrong: modulo 2^64 - 1 every input is reduced to 0. */
  lemma WordSymbolDiffers()
    ensures var n := TWO64 - 1; n % 2 == 1 && WordSymbol(2, n) == 0 && JacobiSymbol(2, n) == 1
  {
    var n := TWO64 - 1;
    assert n % 8 == 7 && Odd(n);
    assert FirstNumerator(2, n) == 0;
    hide JacobiSymbol, FirstNumerator, Symbol;
    SymbolTwo(n);
    SymbolIsJacobi(2, n);
    LastSymbol(n);
    SymbolIsJacobi(0, n);
  }

  /** jacobi_symbol; an even modulus is refused with 0. */
  method ComputeJacobi(input: int, modulus: int) returns (symbol: int)
    requires -TWO63 <= input < TWO63 && 0 < modulus < TWO64
    ensures symbol == WordSymbol(input, modulus)
    ensures modulus % 2 == 1 && NoWrap(input, modulus) ==> symbol == JacobiSymbol(input, modulus)
  {
    symbol := JacobiLoop(input, modulus);
    if modulus % 2 == 1 && NoWrap(input, modulus) { WordSymbolExact(input, modulus); }
  }

  method JacobiLoop(input: int, modulus: int) returns (symbol: int)
    requires -TWO63 <= input < TWO63 && 0 < modulus < TWO64
    ensures symbol == WordSymbol(input, modulus)
  {
    hide *;
    if modulus % 2 == 0 {
      EvenModulus(input, modulus);
      return 0;
    }
    OddIs(modulus);
    WordSymbolOdd(input, modulus);
    PassedModulus(modulus, true);
    var numerator, denominator := FirstNumerator(input, modulus), modulus;
    ghost var first := numerator;
    var bit1, bit2 := false, false;
    SymbolIsJacobi(first, modulus);
    StartLoop(first, modulus);
    while numerator != 0
      invariant numerator >= 0 && Odd(denominator) && denominator > 0
      invariant Symbol(first, modulus) == Accumulated(bit1, bit2) * Symbol(numerator, denominator)
      decreases numerator
    {
      ghost var start := numerator;
      while numerator % 4 == 0
        invariant 0 < numerator <= start
        invariant Symbol(first, modulus) == Accumulated(bit1, bit2) * Symbol(numerator, denominator)
        decreases numerator
      {
        DropFour(numerator, denominator);
        numerator := numerator / 4;
      }
      if numerator % 2 == 0 {
        DropTwo(numerator, denominator, bit1, bit2);
        bit1, bit2 := bit1 != Bit1(denominator), bit2 != Bit2(denominator);
        numerator := numerator / 2;
      }
      OddIs(numerator);
      Turn(numerator, denominator, bit1, bit2);
      bit1 := bit1 != (Bit1(numerator) && Bit1(denominator));
      var temp := denominator % numerator;
      RemainderBelow(denominator, numerator);
      denominator := numerator;
      numerator := temp;
    }
    LastSymbol(denominator);
    if denominator != 1 {
      return 0;
    } else if bit1 != bit2 {
      AccumulatedIs(bit1, bit2);
      return -1;
    } else {
      AccumulatedIs(bit1, bit2);
      return 1;
    }
  }

  lemma EvenModulus(input: int, modulus: int)
    requires 0 < modulus < TWO64 && modulus % 2 == 0
    ensures WordSymbol(input, modulus) == 0
  {
  }

  lemma OddIs(n: int)
    requires n > 0 && n % 2 != 0
    ensures Odd(n)
  {
  }

  lemma AccumulatedIs(bit1: bool, bit2: bool)
    ensures Accumulated(bit1, bit2) == if bit1 != bit2 then -1 else 1
  {
  }

  lemma StartLoop(first: int, modulus: int)
    requires Odd(modulus)
    ensures modulus > 0 && Symbol(first, modulus) == Accumulated(false, false) * Symbol(first, modulus)
  {
    hide Symbol;
  }

  lemma RemainderBelow(a: int, b: int)
    requires b > 0
    ensures 0 <= a % b < b
  {
  }

  lemma DropFour(numerator: int, n: int)
    requires Odd(n) && numerator > 0 && numerator % 4 == 0
    ensures 0 < numerator / 4 < numerator && Symbol(numerator, n) == Symbol(numerator / 4, n)
  {
    var k := numerator / 4;
    assert numerator == 2 * (2 * k);
    hide Symbol;
    SymbolTimes(2, 2 * k, n);
    SymbolTimes(2, k, n);
    SymbolTwo(n);
  }

  /** The factor of two flips the sign by bits 1 and 2 of the denominator. */
  lemma DropTwo(numerator: int, n: int, bit1: bool, bit2: bool)
    requires Odd(n) && numerator > 0 && numerator % 2 == 0 && numerator % 4 != 0
    ensures 0 < numerator / 2 <= numerator && (numerator / 2) % 2 != 0
    ensures Accumulated(bit1, bit2) * Symbol(numerator, n) ==
            Accumulated(bit1 != Bit1(n), bit2 != Bit2(n)) * Symbol(numerator / 2, n)
  {
    var k := numerator / 2;
    assert numerator == 2 * k;
    assert k % 2 != 0;
    hide *;
    OddPositive(n);
    SymbolTimes(2, k, n);
    SymbolTwo(n);
    TwoBits(n);
    FlipTwo(Symbol(2, n), Symbol(k, n), bit1, bit2, Bit1(n), Bit2(n));
  }

  lemma FlipTwo(two: int, s: int, bit1: bool, bit2: bool, flip1: bool, flip2: bool)
    requires two == if flip1 == flip2 then 1 else -1
    ensures Accumulated(bit1, bit2) * (two * s) == Accumulated(bit1 != flip1, bit2 != flip2) * s
  {
  }

  lemma TwoBits(n: int)
    requires Odd(n)
    ensures (n % 8 == 1 || n % 8 == 7) <==> Bit1(n) == Bit2(n)
  {
    Eighths(n, n / 8, n % 8);
    hide *;
    BitsOf(n / 8, n % 8, n / 2, n / 4);
    BitsAre(n);
  }

  lemma BitsAre(n: int)
    ensures Bit1(n) == ((n / 2) % 2 == 1) && Bit2(n) == ((n / 4) % 2 == 1)
  {
  }

  lemma BitsOf(k: int, r: int, half: int, quarter: int)
    requires 0 <= r < 8 && half == 4 * k + r / 2 && quarter == 2 * k + r / 4 && r % 2 == 1
    ensures (r == 1 || r == 7) <==> ((half % 2 == 1) == (quarter % 2 == 1))
  {
    DivModUnique(half, 2 * k + r / 4, r / 2 % 2, 2);
    DivModUnique(quarter, k, r / 4, 2);
  }

  /** Reciprocity flips the sign if both are 3 modulo 4. */
  lemma Turn(m: int, n: int, bit1: bool, bit2: bool)
    requires Odd(m) && Odd(n)
    ensures m > 0 && n > 0 && Accumulated(bit1, bit2) * Symbol(m, n) ==
            Accumulated(bit1 != (Bit1(m) && Bit1(n)), bit2) * Symbol(n % m, m)
  {
    Residue(n, m);
    SymbolResidue(n, n % m, m);
    Reciprocity(m, n);
    hide Symbol, Odd;
    HalfBits(m / 2, n / 2);
    var s := Symbol(n, m);
    FlipSign(Alternates((m / 2) * (n / 2)), s, bit1, bit2, Bit1(m) && Bit1(n));
  }

  lemma FlipSign(a: int, s: int, bit1: bool, bit2: bool, flip: bool)
    requires a == if flip then -1 else 1
    ensures Accumulated(bit1, bit2) * (a * s) == Accumulated(bit1 != flip, bit2) * s
  {
  }

  lemma HalfBits(h: int, k: int)
    ensures Alternates(h * k) == if h % 2 == 1 && k % 2 == 1 then -1 else 1
  {
    if h % 2 == 0 {
      EvenTimes(h, k);
    } else if k % 2 == 0 {
      EvenTimes(k, h);
      TimesCommute(h, k);
    } else {
      var i, j := h / 2, k / 2;
      assert h == 2 * i + 1 && k == 2 * j + 1;
      assert h * k == 2 * (2 * (i * j) + i + j) + 1;
    }
  }

  lemma LastSymbol(n: int)
    requires Odd(n)
    ensures n > 0 && Symbol(0, n) == if n == 1 then 1 else 0
  {
    if n == 1 {
      assert Cong(0 * 0, 1, 1);
      Invert(0, 0, 1);
    } else if Invertible(0, n) {
      var y := InverseOf(0, n);
      OneIsNotZero(n);
    }
  }
}
