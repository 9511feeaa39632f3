/** The Lucas test of src/arithmetic/prime.cpp, with its search for D. */
module LucasTest {
  import opened Congruence
  import opened Arithmetic
  import opened Montgomery
  import opened NumberTheory
  import opened QuadraticResidues
  import opened Jacobi
  import opened Lucas

  /** The candidates 5, -7, 9, -11, ... for D. */
  function Candidate(i: nat): (d: int)
    ensures d % 4 == 1
  {
    if i % 2 == 0 then 5 + 2 * i else -(5 + 2 * i)
  }

  function NextSign(i: nat): int {
    if i % 2 == 0 then -1 else 1
  }

  lemma FirstCandidate()
    ensures Candidate(0) == 5 && NextSign(0) == -1
  {
  }

  lemma NextCandidate(i: nat)
    ensures Candidate(i + 1) == NextSign(i) * (Abs(Candidate(i)) + 2) && NextSign(i + 1) == -NextSign(i)
  {
  }

  /** The candidates are the numbers 1 modulo 4 from five on, in the order of their size. */
  lemma CandidateIs(i: nat, d: int)
    ensures Candidate(i) == d <==> d % 4 == 1 && Abs(d) == 5 + 2 * i
  {
  }

  /** (1 - D) / 4, exactly. */
  function Parameter(d: int): int {
    (1 - d) / 4
  }

  lemma ParameterExact(d: int)
    requires d % 4 == 1
    ensures d == 1 - 4 * Parameter(d)
  {
  }

  /** No candidate before the i-th has symbol -1. */
  ghost predicate NoneBefore(i: nat, n: int)
    requires Odd(n)
  {
    forall j: nat :: j < i ==> JacobiSymbol(Candidate(j), n) != -1
  }

  // ---------- when the search ends ----------

  ghost predicate IsSquare(n: int) {
    exists s: nat :: s * s == n
  }

  /** Modulo a square every symbol is a square. */
  lemma SquareHasNone(a: int, n: int)
    requires Odd(n) && IsSquare(n)
    ensures JacobiSymbol(a, n) != -1
  {
    var s: nat :| s * s == n;
    if s % 2 == 0 { EvenTimes(s, s); }
    hide *;
    OddRoot(s, n);
    SymbolDenominator(a, s, s);
    SymbolIsJacobi(a, n);
    SquareSign(Symbol(a, s));
  }

  lemma OddRoot(s: nat, n: int)
    requires Odd(n) && s * s == n && (s % 2 == 0 ==> n % 2 == 0)
    ensures Odd(s) && s > 0
  {
  }

  lemma SquareSign(s: int)
    ensures s * s != -1
  {
  }

  lemma NonSquare(n: int) returns (a: int)
    requires Prime(n) && Odd(n)
    ensures Cong(Pow(a, n / 2), -1, n)
  {
    OddPrime(n);
    hide *;
    var h := n / 2;
    a := PowerNotOne(h, n);
    PowAdd(a, h, h);
    assert h + h == n - 1;
    ReducedNotZero(a, n);
    Fermat(a, n);
    SquareRootOfOne(Pow(a, h), n);
  }

  lemma OddPrime(n: int)
    requires Prime(n) && Odd(n)
    ensures n >= 3 && 0 < n / 2 < n - 1 && n / 2 + n / 2 == n - 1
  {
  }

  /** A number with given residues modulo p and 1 modulo c. */
  lemma OneModulo(u: int, p: int, c: int) returns (a: int)
    requires p > 0 && c > 0 && Invertible(p, c)
    ensures Cong(a, u, p) && Cong(a, 1, c)
  {
    var y := InverseOf(p, c);
    a := u + p * y * (1 - u);
    assert p * y * (1 - u) == (y * (1 - u)) * p;
    hide *;
    FromQuotient(a, u, p, y * (1 - u));
    MulRight(p * y, 1, 1 - u, c);
    Refl(u, c);
    Add(u, u, p * y * (1 - u), 1 * (1 - u), c);
  }

  lemma SymbolOne(n: int)
    requires Odd(n)
    ensures Symbol(1, n) == 1
  {
    hide Symbol, Invertible;
    SymbolTimes(1, 1, n);
    assert Cong(1 * 1, 1, n);
    Invert(1, 1, n);
    SymbolSign(1, n);
  }

  lemma SymbolUnit(a: int, n: int)
    requires n > 0 && Symbol(a, n) != 0
    ensures Invertible(a, n)
  {
  }

  /** One prime factor that does not divide the rest. */
  lemma SingleFactor(p: int, c: int) returns (a: int)
    requires Prime(p) && Odd(p) && Odd(c) && !Cong(c, 0, p)
    ensures Odd(p * c) && Symbol(a, p * c) == -1
  {
    hide *;
    OddPositive(p);
    OddPositive(c);
    var y := PrimeInverse(c, p);
    Invert(c, y, p);
    InvertibleTurned(c, p);
    var u := NonSquare(p);
    a := OneModulo(u, p, c);
    SymbolDenominator(a, p, c);
    SymbolResidue(a, u, p);
    SymbolResidue(a, 1, c);
    SymbolOne(c);
    NonSquareSign(u, p);
  }

  lemma NonSquareSign(u: int, p: int)
    requires Prime(p) && Odd(p) && Cong(Pow(u, p / 2), -1, p)
    ensures p > 0 && Symbol(u, p) == -1
  {
    hide *;
    OddPrime(p);
    MinusOneSign();
    LegendreSign(u, p, -1);
    LegendreIs(u, p);
  }

  /** A prime factor twice: take a witness of the rest that the factor does not divide. */
  lemma DoubleFactor(p: int, c: int, b: int) returns (a: int)
    requires Prime(p) && Odd(p) && Odd(c) && Symbol(b, c) == -1
    ensures Odd(p * (p * c)) && Symbol(a, p * (p * c)) == -1
  {
    hide *;
    OddPositive(p);
    OddPositive(c);
    SymbolUnit(b, c);
    if Cong(b, 0, p) {
      SharedFactor(b, c, p);
      var y := PrimeInverse(c, p);
      Invert(c, y, p);
      a := OneModulo(b, c, p);
      SymbolResidue(a, b, c);
      SymbolResidue(a, 1, p);
      SymbolOne(p);
    } else {
      a := b;
      var y := PrimeInverse(b, p);
      Invert(b, y, p);
      SymbolSign(b, p);
    }
    SymbolDenominator(a, p, c);
    OddPositive(p * c);
    SymbolDenominator(a, p, p * c);
    TwoSigns(Symbol(a, p), Symbol(a, c));
  }

  lemma TwoSigns(s: int, c: int)
    requires IsSign(s) || s == 1
    ensures s * (s * c) == c
  {
  }

  lemma SharedFactor(b: int, c: int, p: int)
    requires Prime(p) && c > 0 && Cong(b, 0, p) && Invertible(b, c)
    ensures !Cong(c, 0, p)
  {
    var y := InverseOf(b, c);
    var k := Quotient(b * y, 1, c);
    MulRight(b, 0, y, p);
    Refl(1, p);
    OneIsNotZero(p);
    hide *;
    if Cong(c, 0, p) {
      Scale(k, c, 0, p);
      TimesCommute(k, c);
      Add(1, 1, k * c, k * 0, p);
      Sym(b * y, 1, p);
      Trans(1, b * y, 0, p);
    }
  }

  /** Every odd number that is not a square has a symbol -1. */
  lemma {:induction false} SomeSymbol(n: int) returns (a: int)
    requires Odd(n) && !IsSquare(n)
    ensures Symbol(a, n) == -1
    decreases n
  {
    NotOne(n);
    var p := LeastFactor(n, 2);
    Cofactor(n, p);
    LeastIsPrime(n);
    var c := n / p;
    if Cong(c, 0, p) {
      FactorAgain(c, p);
      Cofactor(c, p);
      var d := c / p;
      assert n == p * (p * d);
      if IsSquare(d) { TimesSquare(p, d); }
      var b := SomeSymbol(d);
      a := DoubleFactor(p, d, b);
    } else {
      a := SingleFactor(p, c);
    }
  }

  lemma NotOne(n: int)
    requires Odd(n) && !IsSquare(n)
    ensures n > 1
  {
    var one: nat := 1;
    assert one * one == 1;
  }

  lemma FactorAgain(c: int, p: int)
    requires Odd(c) && Prime(p) && Cong(c, 0, p)
    ensures 1 < p <= c && c % p == 0
  {
    if c < p { ReducedNotZero(c, p); }
  }

  lemma TimesSquare(p: int, d: int)
    requires p > 0 && IsSquare(d)
    ensures IsSquare(p * (p * d))
  {
    var s: nat :| s * s == d;
    var t: nat := p * s;
    assert t * t == p * (p * d);
  }

  /** A number 1 modulo 4 in every residue class, of at most twice the modulus. */
  lemma NearNumber(a: int, n: int) returns (j: int)
    requires Odd(n)
    ensures Cong(4 * j + 1, a, n) && -(n / 2) <= j <= n / 2
  {
    var half := n / 2 + 1;
    var x := (a - 1) * (half * half);
    Residue(x, n);
    j := if x % n > n / 2 then x % n - n else x % n;
    NearRange(x % n, n);
    hide *;
    NearTurn(x, n, j);
    FourHalves(a, half, n);
    Scale(4, j, x, n);
    Refl(1, n);
    Trans(4 * j, 4 * x, a - 1, n);
    Add(4 * j, a - 1, 1, 1, n);
  }

  lemma NearRange(r: int, n: int)
    requires Odd(n) && 0 <= r < n
    ensures r > n / 2 ==> -(n / 2) <= r - n
  {
  }

  lemma NearTurn(x: int, n: int, j: int)
    requires n > 0 && j == if x % n > n / 2 then x % n - n else x % n
    ensures Cong(j, x, n)
  {
    Residue(x, n);
    if j != x % n {
      FromQuotient(j, x % n, n, -1);
      hide Cong;
      Trans(j, x % n, x, n);
    }
  }

  /** Every number 1 modulo 4 is a candidate, except 1 and -3. */
  lemma CandidateOf(j: int) returns (i: nat)
    requires j != 0 && j != -1
    ensures Candidate(i) == 4 * j + 1
  {
    i := if j >= 1 then 2 * (j - 1) else -2 * j - 3;
  }

  lemma CandidateSize(i: nat)
    ensures Abs(Candidate(i)) == 5 + 2 * i
  {
  }

  lemma FourHalves(a: int, half: int, n: int)
    requires Odd(n) && half == n / 2 + 1
    ensures Cong(4 * ((a - 1) * (half * half)), a - 1, n)
  {
    assert 2 * half == n + 1;
    assert 4 * ((a - 1) * (half * half)) == (a - 1) * ((2 * half) * (2 * half));
    assert (n + 1) * (n + 1) == n * n + 2 * n + 1;
    assert (a - 1) * (n * n + 2 * n + 1) == (a - 1) + ((a - 1) * (n + 2)) * n;
    FromQuotient(4 * ((a - 1) * (half * half)), a - 1, n, (a - 1) * (n + 2));
  }

  /** The candidates run through all residues, and one of symbol -1 comes before twice the modulus. */
  lemma SomeCandidate(n: int) returns (found: nat)
    requires Odd(n) && n > 3 && !IsSquare(n)
    ensures JacobiSymbol(Candidate(found), n) == -1 && Abs(Candidate(found)) < 2 * n
  {
    hide *;
    OddPositive(n);
    SymbolOne(n);
    var a := SomeSymbol(n);
    var j := NearNumber(a, n);
    if j == -1 {
      SymbolTimes(2, 2, n);
      SymbolTimes(2 * 2, a, n);
      FourSign(n);
      SymbolResidue(-3, a, n);
      Scale(4, -3, a, n);
      var k := NearNumber(4 * a, n);
      NotAgain(k, a, n);
      a, j := 4 * a, k;
    }
    SymbolResidue(4 * j + 1, a, n);
    found := CandidateOf(j);
    SymbolIsJacobi(Candidate(found), n);
    NearSize(j, n);
  }

  lemma FourSign(n: int)
    requires Odd(n)
    ensures n > 0 && Symbol(2, n) * Symbol(2, n) == 1
  {
    SymbolTwo(n);
  }

  /** -3 and -12 are the same residue only modulo 3 and 9. */
  lemma NotAgain(k: int, a: int, n: int)
    requires Odd(n) && n > 3 && !IsSquare(n) && Cong(-12, 4 * a, n) && Cong(4 * k + 1, 4 * a, n)
    ensures k != -1
  {
    NineIsSquare();
    if k == -1 {
      Sym(-12, 4 * a, n);
      Trans(-3, 4 * a, -12, n);
      var t := Quotient(-3, -12, n);
      NineFactors(t, n);
    }
  }

  lemma NineIsSquare()
    ensures IsSquare(9)
  {
    var three: nat := 3;
    assert three * three == 9;
  }

  lemma NineFactors(t: int, n: int)
    requires t * n == 9 && n > 3
    ensures n == 9
  {
    if t <= 0 { TimesMonotone(t, 0, n); }
    if t >= 3 { TimesMonotone(3, t, n); }
  }

  lemma NearSize(j: int, n: int)
    requires Odd(n) && n > 3 && -(n / 2) <= j <= n / 2
    ensures Abs(4 * j + 1) < 2 * n
  {
  }

  // ---------- the search on words ----------

  /** The search stops at candidate i: it still is a 64-bit word, and the words give symbol -1. */
  ghost predicate Stops(n: int, i: nat)
    requires 0 < n < TWO64
  {
    5 + 2 * i < TWO63 && WordSymbol(Candidate(i), n) == -1
  }

  ghost predicate SearchEnds(n: int)
    requires 0 < n < TWO64
  {
    exists i: nat :: Stops(n, i)
  }

  ghost predicate FirstStop(n: int, i: nat)
    requires 0 < n < TWO64
  {
    Stops(n, i) && forall j: nat :: j < i ==> !Stops(n, j)
  }

  /** Below 2^62 the search for D ends exactly for the odd numbers that are not squares. */
  lemma SearchEndsUnlessSquare(n: int)
    requires Odd(n) && 3 < n < R
    ensures n < TWO64 && (SearchEnds(n) <==> !IsSquare(n))
  {
    SmallRadix();
    if IsSquare(n) {
      SquareNeverEnds(n);
    } else {
      var i := SomeCandidate(n);
      CandidateSize(i);
      hide JacobiSymbol, WordSymbol;
      NoWrapBelow(Candidate(i), n);
      WordSymbolExact(Candidate(i), n);
      assert Stops(n, i);
    }
  }

  lemma SmallRadix()
    ensures 2 * R == TWO63 && 2 * TWO63 == TWO64
  {
  }

  /** For an odd square the search never ends, wherever in the 64 bits it lies. */
  lemma SquareNeverEnds(n: int)
    requires Odd(n) && n < TWO64 && IsSquare(n)
    ensures !SearchEnds(n)
  {
    forall i: nat ensures !Stops(n, i) {
      WordSymbolOdd(Candidate(i), n);
      SquareHasNone(FirstNumerator(Candidate(i), n), n);
    }
  }

  // ---------- the test ----------

  /** With discriminant d no word of the search or the ladder wraps around. */
  predicate Exact(d: int, n: int) {
    n + Abs(d) < TWO63 && Fits(d, n)
  }

  /** Every number below 2^60 with a candidate D between -126 and 126. */
  lemma ExactBelow(d: int, n: int)
    requires 1 < n < 0x1000_0000_0000_0000 && -126 <= d <= 126
    ensures Exact(d, n)
  {
    var t := 0x1000_0000_0000_0000;
    assert TWO127 == 128 * (t * t) && t <= t * t && t + 126 < TWO63;
    BelowTop((n - 1) * (n - 1), Abs(d) + 1, n, t);
  }

  lemma BelowTop(square: int, factor: int, n: int, t: int)
    requires 1 < n < t && square == (n - 1) * (n - 1) && 0 <= factor <= 127
    ensures t <= t * t ==> factor * square + n < 128 * (t * t)
  {
    hide *;
    SquareBelow(n - 1, t);
    SquareOf(square, n);
    TimesMonotone(factor, 127, square);
    SumBelow(factor * square, square, n, t * t, t);
  }

  lemma SquareBelow(a: int, t: int)
    requires 0 <= a <= t
    ensures a * a <= t * t
  {
    hide *;
    TimesMonotone(a, t, a);
    TimesMonotone(a, t, t);
    TimesCommute(a, t);
  }

  lemma SquareOf(square: int, n: int)
    requires square == (n - 1) * (n - 1)
    ensures square >= 0
  {
  }

  lemma SumBelow(product: int, square: int, n: int, top: int, t: int)
    requires product <= 127 * square && square <= top && n < t
    ensures t <= top ==> product + n < 128 * top
  {
  }

  /** Before an exact candidate the search works with the true symbols. */
  lemma SearchExact(n: int, i: nat, j: nat)
    requires Odd(n) && n + Abs(Candidate(i)) < TWO63 && j <= i
    ensures n < TWO64 && WordSymbol(Candidate(j), n) == JacobiSymbol(Candidate(j), n)
  {
    CandidateSize(i);
    CandidateSize(j);
    TruncatedDivision(Candidate(j), n);
    RemainderSize(Candidate(j), n);
    hide Candidate, JacobiSymbol, WordSymbol;
    WordSymbolExact(Candidate(j), n);
  }

  lemma RemainderSize(x: int, n: int)
    requires n > 0
    ensures Remainder(x, n) <= Abs(x)
  {
    if x >= 0 && x < n { DivModUnique(x, 0, x, n); }
  }

  lemma StopMeans(n: int, index: nat)
    requires Odd(n) && n < TWO64 && FirstStop(n, index) && n + Abs(Candidate(index)) < TWO63
    ensures NoneBefore(index, n) && JacobiSymbol(Candidate(index), n) == -1
  {
    hide JacobiSymbol, WordSymbol, Candidate;
    SearchExact(n, index, index);
    CandidateSize(index);
    forall j: nat | j < index ensures JacobiSymbol(Candidate(j), n) != -1 {
      SearchExact(n, index, j);
      assert !Stops(n, j);
    }
  }

  /** lucas_probable_prime_test on 64-bit words (section C.3.3 of FIPS 186-4), for numbers for which the
      search ends. D is the first candidate on which it stops, and the ladder's words decide. While
      nothing wraps around, D is the first candidate with Jacobi symbol -1, the answer is whether
      U_{n+1} is 0 modulo n, and it is yes for every prime. */
  method LucasProbablePrimeTest(number: int) returns (probable: bool, ghost index: nat)
    requires 0 <= number < TWO64 && (number > 3 && number % 2 == 1 ==> number + 1 < TWO64 && SearchEnds(number))
    ensures number <= 3 || number % 2 == 0 ==> (probable <==> number == 2 || number == 3)
    ensures number > 3 && number % 2 == 1 ==>
      FirstStop(number, index) && (probable <==> WordsAt(Candidate(index), number, number + 1).u == 0)
    ensures number > 3 && number % 2 == 1 && Exact(Candidate(index), number) ==>
      NoneBefore(index, number) && JacobiSymbol(Candidate(index), number) == -1 &&
      (probable <==> Cong(U(Parameter(Candidate(index)), number + 1), 0, number))
    ensures number > 3 && number % 2 == 1 && Exact(Candidate(index), number) ==> Candidate(index) % 4 == 1 && Abs(Candidate(index)) >= 5
    ensures number > 3 && number % 2 == 1 && Exact(Candidate(index), number) ==>
      forall c: int :: c % 4 == 1 && 5 <= Abs(c) < Abs(Candidate(index)) ==> JacobiSymbol(c, number) != -1
    ensures number > 3 && number % 2 == 1 && Exact(Candidate(index), number) ==>
      forall q: int :: Candidate(index) == 1 - 4 * q ==> (probable <==> Cong(U(q, number + 1), 0, number))
    ensures Prime(number) && (number > 3 ==> Exact(Candidate(index), number)) ==> probable
  {
    hide *;
    index := 0;
    SmallPrimes(number);
    if number < 2 {
      return false, 0;
    }
    if number == 2 || number == 3 {
      return true, 0;
    }
    if number % 2 == 0 {
      return false, 0;
    }
    OddIs(number);
    FirstCandidate();
    NoneStopped(number);
    ghost var found := Ends(number);
    var d, sign := 5, -1;
    FiveIsWord();
    var symbol := ComputeJacobi(d, number);
    while symbol != -1
      invariant index <= found && d == Candidate(index) && sign == NextSign(index)
      invariant symbol == WordSymbol(d, number) && NoStop(index, number)
      decreases found - index
    {
      NextStop(index, found, number);
      NextCandidate(index);
      d := sign * (Abs(d) + 2);
      sign := -sign;
      index := index + 1;
      symbol := ComputeJacobi(d, number);
    }
    FirstIs(index, found, number);
    ParameterExact(d);
    probable := Ladder(number, d, Parameter(d));
    if Exact(d, number) {
      ExactMeans(d, number);
      StopMeans(number, index);
      Smallest(index, number);
      forall q: int | Candidate(index) == 1 - 4 * q ensures probable <==> Cong(U(q, number + 1), 0, number) {
        ParameterIs(d, q);
      }
      if Prime(number) { PrimeAccepted(number, d); }
    }
  }

  /** No smaller number 1 modulo 4, from five on, has symbol -1. */
  lemma Smallest(index: nat, n: int)
    requires Odd(n) && NoneBefore(index, n)
    ensures Candidate(index) % 4 == 1 && Abs(Candidate(index)) >= 5
    ensures forall c: int :: c % 4 == 1 && 5 <= Abs(c) < Abs(Candidate(index)) ==> JacobiSymbol(c, n) != -1
  {
    hide *;
    CandidateIs(index, Candidate(index));
    forall c: int | c % 4 == 1 && 5 <= Abs(c) < Abs(Candidate(index)) ensures JacobiSymbol(c, n) != -1 {
      OddSize(c);
      CandidateIs((Abs(c) - 5) / 2, c);
      NoneIs(index, n, (Abs(c) - 5) / 2);
    }
  }

  lemma OddSize(c: int)
    requires c % 4 == 1
    ensures Abs(c) % 2 == 1
  {
  }

  lemma NoneIs(index: nat, n: int, i: nat)
    requires Odd(n) && NoneBefore(index, n) && i < index
    ensures JacobiSymbol(Candidate(i), n) != -1
  {
  }

  lemma ParameterIs(d: int, q: int)
    requires d == 1 - 4 * q
    ensures Parameter(d) == q
  {
  }

  lemma ExactMeans(d: int, n: int)
    requires Exact(d, n)
    ensures n + Abs(d) < TWO63 && Fits(d, n)
  {
  }

  lemma FiveIsWord()
    ensures -TWO63 <= 5 < TWO63
  {
  }

  ghost predicate NoStop(i: nat, n: int)
    requires 0 < n < TWO64
  {
    forall j: nat :: j < i ==> !Stops(n, j)
  }

  lemma NoneStopped(n: int)
    requires 0 < n < TWO64
    ensures NoStop(0, n)
  {
  }

  lemma Ends(n: int) returns (found: nat)
    requires 0 < n < TWO64 && SearchEnds(n)
    ensures Stops(n, found)
  {
    found :| Stops(n, found);
  }

  /** A candidate that is passed over, and the next one still is a word. */
  lemma NextStop(i: nat, found: nat, n: int)
    requires 0 < n < TWO64 && Stops(n, found) && i <= found && NoStop(i, n) && WordSymbol(Candidate(i), n) != -1
    ensures i < found && NoStop(i + 1, n) && -TWO63 <= Candidate(i + 1) < TWO63
  {
    CandidateSize(i + 1);
    hide WordSymbol, Candidate;
  }

  lemma FirstIs(i: nat, found: nat, n: int)
    requires 0 < n < TWO64 && Stops(n, found) && i <= found && NoStop(i, n) && WordSymbol(Candidate(i), n) == -1
    ensures FirstStop(n, i)
  {
    hide WordSymbol, Candidate;
  }

  lemma SmallPrimes(n: int)
    ensures Prime(n) ==> n == 2 || (n > 2 && n % 2 == 1)
  {
    if Prime(n) && n % 2 == 0 { assert Divides(2, n); }
  }

  /** A prime is accepted whichever D the search ends with. */
  lemma PrimeAccepted(n: int, d: int)
    requires Prime(n) && Odd(n) && d % 4 == 1 && JacobiSymbol(d, n) == -1
    ensures Cong(U(Parameter(d), n + 1), 0, n)
  {
    SymbolIsJacobi(d, n);
    LegendreIs(d, n);
    ParameterExact(d);
    NonResidue(d, n);
    hide *;
    HalfIs(n);
    PrimePasses(n, d, Parameter(d));
  }

  lemma HalfIs(n: int)
    requires Odd(n)
    ensures (n - 1) / 2 == n / 2 >= 0 && n % 2 == 1
  {
  }

  lemma NonResidue(d: int, n: int)
    requires n > 1 && Legendre(d, n) == -1
    ensures Cong(Pow(d, n / 2), -1, n)
  {
    hide Pow;
    var p := Pow(d, n / 2);
    var k := p / n;
    assert p == k * n + (n - 1);
    FromQuotient(p, -1, n, k + 1);
  }

  lemma MinusOneSign()
    ensures IsSign(-1)
  {
  }
}
