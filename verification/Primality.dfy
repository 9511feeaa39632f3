/** The probabilistic primality tests of src/arithmetic/prime.cpp. */
module Primality {
  import opened Congruence
  import opened NumberTheory
  import opened Arithmetic
  import opened Montgomery

  // ---------- Miller-Rabin (section C.3.1 of FIPS 186-4) ----------

  function OddPart(m: nat): (d: nat) {
    if m > 0 && m % 2 == 0 then OddPart(m / 2) else m
  }

  function Twos(m: nat): (s: nat) {
    if m > 0 && m % 2 == 0 then 1 + Twos(m / 2) else 0
  }

  lemma {:induction false} OddPartSplit(m: nat)
    requires m > 0
    ensures OddPart(m) % 2 == 1 && m == OddPart(m) * Pow2(Twos(m))
  {
    hide *;
    Halved(m);
    if m % 2 == 0 {
      OddPartSplit(m / 2);
      Pow2Double(Twos(m / 2));
      MoveTwo(OddPart(m / 2), Pow2(Twos(m / 2)));
    } else {
      Pow2Double(0);
    }
  }

  lemma MoveTwo(d: int, p: int)
    ensures d * (2 * p) == 2 * (d * p)
  {
  }

  /** With n - 1 = d * 2^s, either x = 1 or one of x, x^2, x^4, ..., x^(2^(s-1)) is -1. */
  ghost predicate ChainAccepts(n: int, x: int)
    requires n > 1
  {
    Cong(x, 1, n) || MinusOneBelow(n, x, Twos(n - 1))
  }

  /** n is a strong probable prime to base a: the chain starts from a^d. */
  ghost predicate StrongProbablePrime(n: int, a: int)
    requires n > 1
  {
    ChainAccepts(n, Pow(a, OddPart(n - 1)))
  }

  lemma {:induction false} OddPartUnique(m: nat, d: nat, s: nat)
    requires d % 2 == 1 && m == d * Pow2(s)
    ensures OddPart(m) == d && Twos(m) == s
  {
    hide *;
    if s == 0 {
      OddAlready(m, d);
    } else {
      Pow2Double(s - 1);
      MoveTwo(d, Pow2(s - 1));
      AtLeastOne(d, Pow2(s - 1));
      HalfOnce(m, d * Pow2(s - 1));
      OddPartUnique(d * Pow2(s - 1), d, s - 1);
    }
  }

  lemma AtLeastOne(d: nat, p: nat)
    requires d % 2 == 1 && p >= 1
    ensures d * p >= 1
  {
  }

  lemma OddAlready(m: nat, d: nat)
    requires d % 2 == 1 && m == d * Pow2(0)
    ensures OddPart(m) == d && Twos(m) == 0
  {
  }

  lemma HalfOnce(m: nat, h: nat)
    requires m == 2 * h && h >= 1
    ensures OddPart(m) == OddPart(h) && Twos(m) == 1 + Twos(h)
  {
  }

  /** What a strong probable prime is, written out: with n - 1 = d * 2^s and d odd, a^d is 1 or one of
      a^d, a^(2d), ..., a^(2^(s-1) d) is -1. */
  lemma StrongWritten(n: int, a: int, d: nat, s: nat)
    requires n > 1 && n % 2 == 1 && d % 2 == 1 && n - 1 == d * Pow2(s)
    ensures StrongProbablePrime(n, a) <==>
      Pow(a, d) % n == 1 || exists r: nat :: r < s && Pow(Pow(a, d), Pow2(r)) % n == n - 1
  {
    OddPartUnique(n - 1, d, s);
    SomeTwos(n, d, s);
    ChainWritten(n, Pow(a, d), s);
  }

  lemma ChainWritten(n: int, x: int, s: nat)
    requires n > 1 && s > 0 && Twos(n - 1) == s
    ensures ChainAccepts(n, x) <==> x % n == 1 || exists r: nat :: r < s && Pow(x, Pow2(r)) % n == n - 1
  {
    OneRemainder(n, x);
    BelowWritten(n, x, s);
    hide MinusOneBelow, Pow, Pow2, Twos;
  }

  lemma BelowWritten(n: int, x: int, s: nat)
    requires n > 1 && s > 0
    ensures MinusOneBelow(n, x, s) <==> exists r: nat :: r < s && Pow(x, Pow2(r)) % n == n - 1
  {
    hide MinusOneAt;
    forall r: nat ensures MinusOneAt(n, x, r, s) <==> r < s && Pow(x, Pow2(r)) % n == n - 1 {
      AtWritten(n, x, r, s);
    }
    if MinusOneBelow(n, x, s) {
      var r: nat :| MinusOneAt(n, x, r, s);
      assert Pow(x, Pow2(r)) % n == n - 1;
    }
  }

  lemma AtWritten(n: int, x: int, r: nat, s: nat)
    requires n > 1 && s > 0
    ensures MinusOneAt(n, x, r, s) <==> r < s && Pow(x, Pow2(r)) % n == n - 1
  {
    hide Pow, Pow2;
    MinusOneRemainder(n, Pow(x, Pow2(r)));
  }

  lemma OneRemainder(n: int, x: int)
    requires n > 1
    ensures Cong(x, 1, n) <==> x % n == 1
  {
    DivModUnique(1, 0, 1, n);
  }

  lemma MinusOneRemainder(n: int, x: int)
    requires n > 1
    ensures Cong(x, -1, n) <==> x % n == n - 1
  {
    DivModUnique(-1, -1, n - 1, n);
  }

  lemma SomeTwos(n: int, d: nat, s: nat)
    requires n % 2 == 1 && d % 2 == 1 && n - 1 == d * Pow2(s)
    ensures s > 0
  {
  }

  /** What the words decide: the chain starts from a^d reduced by the modulus that modulus_power really
      uses, which from 2^63 on is 2^64 - n. */
  function FirstTestValue(n: int, a: int): (x: int)
    requires 1 < n < TWO64
    ensures 0 <= x < n
  {
    PassedModulus(n, true);
    Pow(a, OddPart(n - 1)) % Narrowed(n, true)
  }

  ghost predicate WordsAccept(n: int, a: int)
    requires 1 < n < TWO64 && a > 0
  {
    n % a != 0 && ChainAccepts(n, FirstTestValue(n, a))
  }

  /** Below 2^63 the words decide strong probable primality. */
  lemma WordsExact(n: int, a: int)
    requires 1 < n < TWO63 && a > 0
    ensures n < TWO64 && (WordsAccept(n, a) <==> n % a != 0 && StrongProbablePrime(n, a))
  {
    var x := Pow(a, OddPart(n - 1));
    Residue(x, n);
    hide Pow, OddPart, Twos;
    if ChainAccepts(n, x) { ChainSame(n, x, x % n); }
    if ChainAccepts(n, x % n) { ChainSame(n, x % n, x); }
  }

  lemma ChainSame(n: int, x: int, y: int)
    requires n > 1 && Cong(x, y, n) && ChainAccepts(n, x)
    ensures ChainAccepts(n, y)
  {
    hide Cong, Pow, Twos;
    var s := Twos(n - 1);
    Sym(x, y, n);
    if Cong(x, 1, n) {
      Trans(y, x, 1, n);
    } else {
      var r: nat :| MinusOneAt(n, x, r, s);
      PowCong(y, x, Pow2(r), n);
      Trans(Pow(y, Pow2(r)), Pow(x, Pow2(r)), -1, n);
      assert MinusOneAt(n, y, r, s);
    }
  }

  ghost predicate MinusOneBelow(n: int, x: int, s: nat) {
    exists r: nat :: MinusOneAt(n, x, r, s)
  }

  ghost predicate MinusOneAt(n: int, x: int, r: nat, s: nat) {
    (r == 0 || r < s) && Cong(Pow(x, Pow2(r)), -1, n)
  }

  /** No square up to the r-th is -1, and the r-th, kept in value, is not 1. */
  ghost predicate Undecided(n: int, x: int, r: nat, s: nat, value: int) {
    && 0 <= value < n && Cong(value, Pow(x, Pow2(r)), n)
    && value != 1 && !Cong(x, 1, n)
    && forall i: nat :: i <= r ==> !MinusOneAt(n, x, i, s)
  }

  /** miller_rabin_test on 64-bit words. */
  method MillerRabin(number: int, base: int) returns (accepted: bool)
    requires 1 < number < TWO64 && 0 < base < TWO63
    ensures accepted <==> WordsAccept(number, base)
    ensures number < TWO63 ==> (accepted <==> number % base != 0 && StrongProbablePrime(number, base))
  {
    accepted := TestWords(number, base);
    if number < TWO63 { WordsExact(number, base); }
  }

  method TestWords(number: int, base: int) returns (accepted: bool)
    requires 1 < number < TWO64 && 0 < base < TWO63
    ensures accepted <==> WordsAccept(number, base)
  {
    hide *;
    WordsAre(number, base);
    if number % base == 0 {
      return false;
    }
    var exponent: nat := number - 1;
    var divisionCount := 0;
    while exponent % 2 == 0
      decreases exponent
      invariant 0 < exponent < number && divisionCount + Twos(exponent) == Twos(number - 1) && OddPart(exponent) == OddPart(number - 1)
    {
      Halved(exponent);
      exponent := exponent / 2;
      divisionCount := divisionCount + 1;
    }
    Halved(exponent);
    WordSizes(number, base);
    PassedModulus(number, true);
    var testValue := ModulusPower(base, exponent, number, true);
    FirstIs(number, base, testValue);
    ghost var x := FirstTestValue(number, base);
    FirstValue(number, divisionCount, testValue);
    if testValue == 1 || testValue == number - 1 {
      return true;
    }
    var index := 0;
    while index < divisionCount - 1
      invariant Undecided(number, x, index, divisionCount, testValue)
      invariant index == 0 || index <= divisionCount - 1
    {
      ghost var before := testValue;
      testValue := testValue * testValue % number;
      NextValue(number, x, index, divisionCount, before, testValue);
      if testValue == number - 1 {
        return true;
      }
      if testValue == 1 {
        return false;
      }
      index := index + 1;
    }
    NoneLeft(number, x, index, divisionCount, testValue);
    return false;
  }

  lemma Halved(m: nat)
    requires m > 0
    ensures m % 2 == 0 ==> Twos(m) == 1 + Twos(m / 2) && OddPart(m) == OddPart(m / 2)
    ensures m % 2 == 1 ==> Twos(m) == 0 && OddPart(m) == m
  {
  }

  lemma MinusOneResidue(value: int, power: int, n: int)
    requires n > 1 && 0 <= value < n && Cong(value, power, n)
    ensures value == n - 1 <==> Cong(power, -1, n)
    ensures value == 1 <==> Cong(power, 1, n)
  {
    hide Cong;
    FromQuotient(n - 1, -1, n, 1);
    Sym(value, power, n);
    if Cong(power, -1, n) {
      Trans(value, power, -1, n);
      Sym(n - 1, -1, n);
      Trans(value, -1, n - 1, n);
      Unique(value, n - 1, 0, n);
    }
    if Cong(power, 1, n) {
      Trans(value, power, 1, n);
      Unique(value, 1, 0, n);
    }
    if value == n - 1 {
      Trans(power, value, -1, n);
    }
  }

  lemma WordsAre(n: int, a: int)
    requires 1 < n < TWO64 && a > 0
    ensures WordsAccept(n, a) <==> n % a != 0 && ChainAccepts(n, FirstTestValue(n, a))
  {
  }

  lemma WordSizes(number: int, base: int)
    requires 1 < number < TWO64 && 0 < base < TWO63
    ensures IsWord(base, true) && IsWord(number, true) && Passed(base, true) == base
    ensures forall e :: 0 < e < number ==> IsWord(e, true)
  {
  }

  lemma FirstIs(n: int, a: int, value: int)
    requires 1 < n < TWO64 && 0 <= value < Narrowed(n, true) && Cong(value, Pow(a, OddPart(n - 1)), Narrowed(n, true))
    ensures value == FirstTestValue(n, a)
  {
    hide Pow, OddPart;
    var x, m := Pow(a, OddPart(n - 1)), Narrowed(n, true);
    Residue(x, m);
    hide *;
    Trans(value, x, x % m, m);
    Unique(value, x % m, 0, m);
    FirstDefinition(n, a, x);
  }

  lemma FirstDefinition(n: int, a: int, x: int)
    requires 1 < n < TWO64 && x == Pow(a, OddPart(n - 1))
    ensures Narrowed(n, true) > 0 && FirstTestValue(n, a) == x % Narrowed(n, true)
  {
    hide Pow, OddPart;
  }

  lemma FirstValue(n: int, s: nat, value: int)
    requires n > 1 && s == Twos(n - 1) && 0 <= value < n
    ensures value == 1 || value == n - 1 ==> ChainAccepts(n, value)
    ensures value != 1 && value != n - 1 ==> Undecided(n, value, 0, s, value)
  {
    hide Cong, OddPart, Twos;
    Refl(value, n);
    MinusOneResidue(value, value, n);
    assert Pow(value, Pow2(0)) == value * Pow(value, 0) == value;
    hide Pow, Pow2;
    if value == n - 1 { assert MinusOneAt(n, value, 0, s); }
  }

  lemma Squared(x: int, r: nat)
    ensures Pow(x, Pow2(r + 1)) == Pow(x, Pow2(r)) * Pow(x, Pow2(r))
  {
    PowAdd(x, Pow2(r), Pow2(r));
  }

  lemma NextValue(n: int, x: int, r: nat, s: nat, before: int, value: int)
    requires n > 1 && s == Twos(n - 1) && r + 1 < s
    requires Undecided(n, x, r, s, before) && value == before * before % n
    ensures value == n - 1 ==> ChainAccepts(n, x)
    ensures value != n - 1 && value == 1 ==> !ChainAccepts(n, x)
    ensures value != n - 1 && value != 1 ==> Undecided(n, x, r + 1, s, value)
  {
    hide Cong, OddPart, Twos, Pow, Pow2;
    var p := Pow(x, Pow2(r));
    Residue(before * before, n);
    Mul(before, p, before, p, n);
    Squared(x, r);
    Trans(value, before * before, p * p, n);
    MinusOneResidue(value, p * p, n);
    if value == n - 1 {
      assert MinusOneAt(n, x, r + 1, s);
    } else if value == 1 {
      forall i: nat ensures !MinusOneAt(n, x, i, s) {
        if i > r && MinusOneAt(n, x, i, s) { OneStays(n, x, r + 1, i); }
      }
    }
  }

  lemma {:induction false} OneStays(n: int, x: int, r: nat, i: nat)
    requires n > 2 && r <= i && Cong(Pow(x, Pow2(r)), 1, n)
    ensures Cong(Pow(x, Pow2(i)), 1, n) && !Cong(Pow(x, Pow2(i)), -1, n)
  {
    hide Cong, Pow, Pow2;
    var p := Pow(x, Pow2(i));
    if r < i {
      OneStays(n, x, r, i - 1);
      Squared(x, i - 1);
      var h := Pow(x, Pow2(i - 1));
      Mul(h, 1, h, 1, n);
    }
    if Cong(p, -1, n) {
      Sym(p, 1, n);
      Trans(1, p, -1, n);
      FromQuotient(-1, n - 1, n, -1);
      Trans(1, -1, n - 1, n);
      Unique(1, n - 1, 0, n);
    }
  }

  lemma NoneLeft(n: int, x: int, r: nat, s: nat, value: int)
    requires n > 1 && s == Twos(n - 1)
    requires Undecided(n, x, r, s, value) && s <= r + 1
    ensures !ChainAccepts(n, x)
  {
    hide Cong, OddPart, Twos, Pow, Pow2;
  }

  /** Going down the chain of square roots of one. */
  lemma {:induction false} RootChain(x: int, s: nat, n: int) returns (r: nat)
    requires Prime(n) && Cong(Pow(x, Pow2(s)), 1, n)
    ensures Cong(x, 1, n) || MinusOneAt(n, x, r, s)
  {
    r := 0;
    if s == 0 {
      assert Pow(x, 1) == x * Pow(x, 0) == x;
    } else {
      hide Cong, Pow, Pow2;
      Squared(x, s - 1);
      SquareRootOfOne(Pow(x, Pow2(s - 1)), n);
      if Cong(Pow(x, Pow2(s - 1)), 1, n) {
        r := RootChain(x, s - 1, n);
      } else {
        r := s - 1;
      }
    }
  }

  lemma NotDivided(a: int, n: int)
    requires Prime(n) && 1 < a < n
    ensures n % a != 0
  {
    assert Divides(a, n) ==> a == 1 || a == n;
  }

  /** The test accepts every prime for every base between 1 and the prime. */
  lemma PrimePasses(n: int, a: int)
    requires Prime(n) && 1 < a < n
    ensures n % a != 0 && StrongProbablePrime(n, a)
  {
    assert n % a != 0 by {
      NotDivided(a, n);
    }
    Positive(n);
    ReducedNotZero(a, n);
    hide Cong, OddPart, Twos, Pow, Pow2, Prime;
    Fermat(a, n);
    var d, s := OddPart(n - 1), Twos(n - 1);
    OddPartSplit(n - 1);
    PowMul(a, d, Pow2(s));
    var r := RootChain(Pow(a, d), s, n);
  }
}
