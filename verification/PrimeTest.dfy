/** is_prime (src/arithmetic/prime.cpp). */
module PrimeTest {
  import opened Congruence
  import opened Montgomery
  import opened Lucas
  import opened NumberTheory
  import opened LucasTest
  import Primality

  predicate Odd3(d: int) {
    d >= 3 && d % 2 == 1
  }

  /** No divisor between 1 and the bound. */
  ghost predicate NoDivisorBelow(bound: int, n: int) {
    forall e :: 1 < e < bound ==> !Divides(e, n)
  }

  lemma NextDivisor(d: int, n: int)
    requires Odd3(d) && n % 2 == 1 && NoDivisorBelow(d, n) && n % d != 0
    ensures NoDivisorBelow(d + 2, n)
  {
    EvenDivisor(d + 1, n);
    forall e | 1 < e < d + 2 ensures !Divides(e, n) {
      if e == d { assert n % e != 0; }
    }
  }

  lemma EvenDivisor(e: int, n: int)
    requires e % 2 == 0 && n % 2 == 1
    ensures !Divides(e, n)
  {
    if e > 0 {
      var c := n / e;
      assert n == e * c + n % e;
      EvenFactor(e, c);
    }
  }

  lemma EvenFactor(e: int, c: int)
    requires e % 2 == 0
    ensures (e * c) % 2 == 0
  {
    assert e * c == 2 * ((e / 2) * c);
  }

  /** Beyond the square root nothing new can divide. */
  lemma BeyondRoot(d: int, n: int)
    requires Odd3(d) && n > 2 && NoDivisorBelow(d, n) && n / d < d
    ensures Prime(n)
  {
    forall e | Divides(e, n) ensures e == 1 || e == n {
      if e != 1 && e != n {
        var c := n / e;
        TimesCommute(e, c);
        assert n == c * e && n % e == 0;
        Cofactor(e, c, n);
        if e >= d {
          SmallCofactor(e, c, d, n);
          DivModUnique(n, e, 0, c);
          assert Divides(c, n);
        }
      }
    }
  }

  lemma Cofactor(e: int, c: int, n: int)
    requires n > 2 && e > 1 && e != n && n == c * e
    ensures c > 1
  {
    if c <= 0 { TimesMonotone(c, 0, e); }
  }

  lemma SmallCofactor(e: int, c: int, d: int, n: int)
    requires e >= d >= 3 && c > 1 && n == c * e && n / d < d
    ensures c < d
  {
    if c >= d {
      TimesMonotone(d, e, c);
      TimesMonotone(d, c, d);
      TimesCommute(c, e);
      TimesCommute(c, d);
      assert n >= d * d;
      QuotientAtLeast(n, d);
    }
  }

  lemma QuotientAtLeast(n: int, d: int)
    requires d > 0 && n >= d * d
    ensures n / d >= d
  {
    var q := n / d;
    assert n < (q + 1) * d by { assert n == q * d + n % d; }
    if q < d { TimesMonotone(q + 1, d, d); }
  }

  lemma FoundDivisor(d: int, n: int)
    requires d >= 3 && n % d == 0 && n / d >= d
    ensures !Prime(n)
  {
    assert Divides(d, n);
    assert n == d * (n / d);
    if n == d { DivModUnique(d, 1, 0, d); }
  }

  /** The branch for small numbers: trial division is exact. */
  method TrialDivision(number: int) returns (prime: bool)
    ensures prime <==> Prime(number)
  {
    if number == 2 {
      TwoIsPrime();
      return true;
    }
    if !(number > 2 && number % 2 == 1) {
      EvenIsNot(number);
      return false;
    }
    var divisor := 3;
    NoneBelowThree(number);
    while true
      invariant Odd3(divisor) && NoDivisorBelow(divisor, number)
      decreases number - divisor
    {
      var quotient := number / divisor;
      var remainder := number - quotient * divisor;
      RemainderIs(number, divisor);
      if quotient < divisor {
        BeyondRoot(divisor, number);
        return true;
      }
      if remainder == 0 {
        FoundDivisor(divisor, number);
        return false;
      }
      NextDivisor(divisor, number);
      RootBelow(number, divisor);
      divisor := divisor + 2;
    }
  }

  lemma RemainderIs(n: int, d: int)
    requires d > 0
    ensures n - (n / d) * d == n % d
  {
  }

  lemma RootBelow(n: int, d: int)
    requires d >= 3 && n / d >= d
    ensures n > d
  {
    assert n == (n / d) * d + n % d;
    TimesMonotone(2, n / d, d);
  }

  lemma TwoIsPrime()
    ensures Prime(2)
  {
    forall d | Divides(d, 2) ensures d == 1 || d == 2 {
      if d > 2 { DivModUnique(2, 0, 2, d); }
    }
  }

  lemma EvenIsNot(n: int)
    requires n != 2 && !(n > 2 && n % 2 == 1)
    ensures !Prime(n)
  {
    SmallPrimes(n);
  }

  lemma NoneBelowThree(n: int)
    requires n % 2 == 1
    ensures NoDivisorBelow(3, n)
  {
    forall e | 1 < e < 3 ensures !Divides(e, n) { assert e == 2; }
  }

  const BasePrimes: seq<int> := [2, 3, 5, 7, 11, 13, 17, 19, 23, 29, 31, 37, 41, 43, 47]

  /** The list holds every prime below 48. */
  lemma BaseOf(p: int) returns (i: nat)
    requires 1 < p < 48 && Prime(p)
    ensures i < |BasePrimes| && BasePrimes[i] == p
  {
    NoSmallFactor(p, 2);
    NoSmallFactor(p, 3);
    NoSmallFactor(p, 5);
    hide Prime;
    i := FindBase(p);
  }

  lemma NoSmallFactor(p: int, d: int)
    requires Prime(p) && d > 1
    ensures p == d || p % d != 0
  {
    if p % d == 0 { assert Divides(d, p); }
  }

  lemma FindBase(p: int) returns (i: nat)
    requires 1 < p < 48 && (p == 2 || p % 2 != 0) && (p == 3 || p % 3 != 0) && (p == 5 || p % 5 != 0)
    ensures i < |BasePrimes| && BasePrimes[i] == p
  {
    i := if p == 2 then 0 else if p == 3 then 1 else if p == 5 then 2 else if p == 7 then 3 else if p == 11 then 4
      else if p == 13 then 5 else if p == 17 then 6 else if p == 19 then 7 else if p == 23 then 8 else if p == 29 then 9
      else if p == 31 then 10 else if p == 37 then 11 else if p == 41 then 12 else if p == 43 then 13 else 14;
  }

  /** And nothing else. */
  lemma BaseIsPrime(i: nat)
    requires i < |BasePrimes|
    ensures 1 < BasePrimes[i] < 48 && Prime(BasePrimes[i])
  {
    var p := BasePrimes[i];
    if p == 2 {
      TwoIsPrime();
    } else if p == 3 {
      SmallPrime(3, 3);
    } else if p == 5 || p == 7 {
      SmallPrime(p, 3);
    } else {
      SmallPrime(p, 7);
    }
  }

  lemma SmallPrime(p: int, d: int)
    requires p > 2 && Odd3(d) && d <= 7 && p / d < d && p % 2 == 1
    requires forall e :: 1 < e < d ==> p % e != 0
    ensures Prime(p)
  {
    forall e | 1 < e < d ensures !Divides(e, p) { assert p % e != 0; }
    BeyondRoot(d, p);
  }

  /** The words of miller_rabin_test accept for the whole list exactly if they do so for every prime below
      48. */
  lemma BasesWritten(n: int)
    requires 1 < n < TWO64
    ensures WordsPassBases(n) <==> forall p :: 1 < p < 48 && Prime(p) ==> Primality.WordsAccept(n, p)
  {
    hide Prime, Primality.WordsAccept, BasePrimes;
    if WordsPassBases(n) {
      forall p | 1 < p < 48 && Prime(p) ensures Primality.WordsAccept(n, p) {
        var i := BaseOf(p);
        assert WordsPass(n, BasePrimes[i]);
      }
    }
    if forall p :: 1 < p < 48 && Prime(p) ==> Primality.WordsAccept(n, p) {
      forall i | 0 <= i < |BasePrimes| ensures WordsPass(n, BasePrimes[i]) {
        BaseIsPrime(i);
      }
    }
  }

  ghost predicate PassesBases(n: int)
    requires n > 1
  {
    forall i :: 0 <= i < |BasePrimes| ==> Passes(n, BasePrimes[i])
  }

  ghost predicate Passes(n: int, base: int)
    requires n > 1
  {
    base > 0 && n % base != 0 && Primality.StrongProbablePrime(n, base)
  }

  /** What the words of miller_rabin_test decide for all bases. */
  ghost predicate WordsPassBases(n: int)
    requires 1 < n < TWO64
  {
    forall i :: 0 <= i < |BasePrimes| ==> WordsPass(n, BasePrimes[i])
  }

  ghost predicate WordsPass(n: int, base: int)
    requires 1 < n < TWO64
  {
    base > 0 && Primality.WordsAccept(n, base)
  }

  /** Below 2^63 the words decide strong probable primality to all bases. */
  lemma WordsPassExact(n: int)
    requires 1 < n < TWO63
    ensures n < TWO64 && (WordsPassBases(n) <==> PassesBases(n))
  {
    hide Primality.StrongProbablePrime, Primality.WordsAccept;
    forall i | 0 <= i < |BasePrimes| ensures WordsPass(n, BasePrimes[i]) <==> Passes(n, BasePrimes[i]) {
      BaseBounds(i);
      Primality.WordsExact(n, BasePrimes[i]);
    }
  }

  /** The base 3 refuses 2^64 - 1, for which the counter of the ladder would wrap to zero. */
  lemma LargestRefused(n: int)
    requires 1 < n < TWO64 && WordsPassBases(n)
    ensures n + 1 < TWO64
  {
    assert WordsPass(n, BasePrimes[1]);
  }

  /** is_prime on 64-bit words. Up to 2^20 the answer is exact. Beyond, a number is accepted exactly if the
      words of all fifteen bases and of the Lucas ladder say so; the search for D has to end. Below 2^63
      the bases decide strong probable primality, and while the Lucas test is exact no prime is refused. */
  method IsPrime(number: int) returns (prime: bool, ghost index: nat)
    requires 0 <= number < TWO64
    requires number > 0x10_0000 && number % 2 == 1 && (forall p :: 1 < p < 48 && Prime(p) ==> Primality.WordsAccept(number, p)) ==> SearchEnds(number)
    ensures number <= 0x10_0000 ==> (prime <==> Prime(number))
    ensures number > 0x10_0000 && (number % 2 == 0 || !(forall p :: 1 < p < 48 && Prime(p) ==> Primality.WordsAccept(number, p))) ==> !prime
    ensures number > 0x10_0000 && number % 2 == 1 && (forall p :: 1 < p < 48 && Prime(p) ==> Primality.WordsAccept(number, p)) ==>
      FirstStop(number, index) && (prime <==> WordsAt(Candidate(index), number, number + 1).u == 0)
    ensures 0x10_0000 < number < TWO63 && prime ==> number % 2 == 1
    ensures 0x10_0000 < number < TWO63 && prime ==>
      forall p :: 1 < p < 48 && Prime(p) ==> number % p != 0 && Primality.StrongProbablePrime(number, p)
    ensures Prime(number) && number < TWO63 && (number > 0x10_0000 ==> Exact(Candidate(index), number)) ==> prime
  {
    hide *;
    index := 0;
    if number <= 0x10_0000 {
      prime := TrialDivision(number);
      return;
    }
    LargeNumbers(number);
    BasesWritten(number);
    for i := 0 to |BasePrimes|
      invariant forall j :: 0 <= j < i ==> WordsPass(number, BasePrimes[j])
    {
      BaseBounds(i);
      WordBound();
      var accepted := Primality.MillerRabin(number, BasePrimes[i]);
      if accepted { PassedOne(number, i); }
      if !accepted {
        NotAll(number, i);
        if Prime(number) { Primality.PrimePasses(number, BasePrimes[i]); }
        return false, 0;
      }
    }
    PassedAll(number);
    LargestRefused(number);
    EvenRefused(number);
    if number < TWO63 {
      WordsPassExact(number);
      AllBases(number);
    }
    prime, index := LucasProbablePrimeTest(number);
  }

  lemma EvenRefused(n: int)
    requires 1 < n < TWO64 && WordsPassBases(n)
    ensures n % 2 == 1
  {
    assert WordsPass(n, BasePrimes[0]);
  }

  lemma AllBases(n: int)
    requires n > 1 && PassesBases(n)
    ensures forall p :: 1 < p < 48 && Prime(p) ==> n % p != 0 && Primality.StrongProbablePrime(n, p)
  {
    hide Prime, Primality.StrongProbablePrime, BasePrimes;
    forall p | 1 < p < 48 && Prime(p) ensures n % p != 0 && Primality.StrongProbablePrime(n, p) {
      var i := BaseOf(p);
      assert Passes(n, BasePrimes[i]);
    }
  }

  lemma WordBound()
    ensures 100 < TWO63 < TWO64
  {
  }

  lemma PassedOne(n: int, i: nat)
    requires 1 < n < TWO64 && i < |BasePrimes| && 1 < BasePrimes[i] && Primality.WordsAccept(n, BasePrimes[i])
    ensures WordsPass(n, BasePrimes[i])
  {
    hide Primality.WordsAccept;
  }

  lemma LargeNumbers(n: int)
    requires n > 0x10_0000
    ensures n > 3
  {
  }

  lemma NotAll(n: int, i: nat)
    requires 1 < n < TWO64 && i < |BasePrimes| && !Primality.WordsAccept(n, BasePrimes[i])
    ensures !WordsPassBases(n)
  {
    hide Primality.WordsAccept;
    assert !WordsPass(n, BasePrimes[i]);
  }

  lemma PassedAll(n: int)
    requires 1 < n < TWO64 && forall j :: 0 <= j < |BasePrimes| ==> WordsPass(n, BasePrimes[j])
    ensures WordsPassBases(n)
  {
    hide WordsPass;
  }

  lemma BaseBounds(i: int)
    requires 0 <= i < |BasePrimes|
    ensures 1 < BasePrimes[i] < 100
  {
  }
}
