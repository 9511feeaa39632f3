/** From residues back to one signed integer: src/parameter/decode.cpp, the Montgomery reduction of
    src/arithmetic/big_int.cpp and the integer part of rns_to_double (src/arithmetic/arithmetic.cpp). */
module Reconstruction {
  import opened Congruence
  import opened Montgomery
  import opened Arithmetic
  import opened ResidueBase
  import opened BigInteger

  // ---------- Montgomery reduction of a limb number ----------

  /** Modulo the limb base, hence modulo the radix, only the lowest limb counts. */
  lemma {:induction false} LowestLimb(a: seq<int>, i: nat)
    requires 1 <= i
    ensures Cong(Head(a, i), At(a, 0), B)
  {
    hide Pow, Head, At;
    HeadStep(a, i - 1);
    PowStep(0);
    if i > 1 {
      LowestLimb(a, i - 1);
      PowStep(i - 2);
      FromQuotient(Head(a, i), Head(a, i - 1), B, At(a, i - 1) * Pow(B, i - 2)) by {
        Associate(At(a, i - 1), Pow(B, i - 2), B);
      }
      Trans(Head(a, i), Head(a, i - 1), At(a, 0), B);
    } else {
      HeadStep(a, 0);
      Refl(At(a, 0), B);
    }
  }

  lemma LowestLimbRadix(a: seq<int>)
    requires |a| >= 1
    ensures Cong(Value(a), a[0], R)
  {
    LowestLimb(a, |a|);
    hide *;
    LowestIs(a);
    Factor(Value(a), a[0], 4, R);
  }

  lemma LowestIs(a: seq<int>)
    requires |a| >= 1
    ensures At(a, 0) == a[0] && B == 4 * R && Value(a) == Head(a, |a|)
  {
  }

  lemma Clears(v: int, low: int, s: int, q: int, k: int)
    requires Cong(v, low, R) && Cong(s, low * k, R) && Cong(k * q, -1, R)
    ensures Cong(v + q * s, 0, R)
  {
    hide *;
    MulRight(s, low * k, q, R);
    Scale(low, k * q, -1, R);
    assert (low * k) * q == low * (k * q) && s * q == q * s;
    Trans(q * s, low * (k * q), low * -1, R);
    Add(v, low, q * s, low * -1, R);
  }

  lemma OneMoreStep(v: int, value: int, c: int, upper: int)
    requires v == value - c * upper && upper > 0
    ensures v - upper == value - (c + 1) * upper
    ensures 0 <= v < upper ==> c == value / upper
  {
    if 0 <= v < upper { DivModUnique(value, c, v, upper); }
  }

  lemma WholeSteps(value: int, c: int, q: int)
    requires q > 0
    ensures Cong(value - c * (q * R), value, q) && Cong(value - c * (q * R), value, R)
  {
    FromQuotient(value - c * (q * R), value, q, -c * R);
    FromQuotient(value - c * (q * R), value, R, -c * q);
  }

  /** The exact quotient: below twice the modulus, and times the radix congruent to the value. */
  lemma ExactReduction(value: int, c: int, v: int, low: int, s: int, q: int, k: int)
    requires q > 0 && v == value - c * (q * R) && 0 <= v < q * R && Cong(value, low, R)
    requires 0 <= s < R && Cong(s, low * k, R) && Cong(k * q, -1, R)
    ensures var t := (v + q * s) / R; 0 <= t < 2 * q && Cong(t * R, value, q) && Cong((t - q) * R, value, q)
  {
    WholeSteps(value, c, q);
    Trans(v, value, low, R);
    Clears(v, low, s, q, k);
    var t := Quotient(v + q * s, 0, R);
    DivModUnique(v + q * s, t, 0, R);
    ProductBound(s, R - 1, q, q);
    FromQuotient(t * R, v, q, s);
    FromQuotient((t - q) * R, t * R, q, -R);
  }

  /** montgomery_modulus: the canonical value of data / 2^62 modulo the modulus, after as many
      subtractions as the data holds whole multiples of modulus * 2^62. The multiplier is formed from
      the lowest limb of the original data, which those subtractions do not change modulo 2^62. */
  method MontgomeryModulus(data: seq<int>, modulus: seq<int>, k: int) returns (result: seq<int>, ghost subtractions: nat)
    requires Normal(data) && Normal(modulus) && Value(modulus) > 0 && 0 <= k && Cong(k * Value(modulus), -1, R)
    ensures Normal(result) && 0 <= Value(result) < Value(modulus)
    ensures Cong(Value(result) * R, Value(data), Value(modulus))
    ensures Value(modulus) * R > 0 && subtractions == Value(data) / (Value(modulus) * R)
  {
    hide Value, Normal, Cong;
    ghost var q := Value(modulus);
    var upperBound := Multiply(modulus, R);
    var thisValue := data;
    subtractions := 0;
    NonNegative(data);
    var reached := GreaterEqual(thisValue, upperBound);
    while reached
      invariant Normal(thisValue) && Value(thisValue) == Value(data) - subtractions * (q * R) && Value(thisValue) >= 0
      invariant reached <==> Value(thisValue) >= q * R
      decreases Value(thisValue)
    {
      OneMoreStep(Value(thisValue), Value(data), subtractions, q * R);
      thisValue := Minus(thisValue, upperBound);
      subtractions := subtractions + 1;
      reached := GreaterEqual(thisValue, upperBound);
    }
    OneMoreStep(Value(thisValue), Value(data), subtractions, q * R);
    LowLimbFacts(data, k);
    var s := (data[0] * k) % R;
    var product := Multiply(modulus, s);
    var added := Plus(thisValue, product);
    var quotient, _ := BigInteger.Divide(added, R);
    ExactReduction(Value(data), subtractions, Value(thisValue), data[0], s, q, k);
    var above := GreaterEqual(quotient, modulus);
    if above {
      result := Minus(quotient, modulus);
    } else {
      result := quotient;
    }
  }

  lemma NonNegative(a: seq<int>)
    requires Normal(a)
    ensures Value(a) >= 0
  {
    HeadRange(a, |a|);
  }

  lemma LowLimbFacts(data: seq<int>, k: int)
    requires Normal(data)
    ensures |data| >= 1 && Cong(Value(data), data[0], R) && 0 <= (data[0] * k) % R < R && Cong((data[0] * k) % R, data[0] * k, R)
  {
    LowestLimbRadix(data);
    Residue(data[0] * k, R);
  }

  // ---------- the constants of reconstruction ----------

  /** The product of the first n moduli without modulus i. */
  function Except(m: seq<Modulus>, n: nat, i: nat): int
    requires n <= |m|
  {
    if n == 0 then 1 else Except(m, n - 1, i) * (if n - 1 == i then 1 else m[n - 1].q)
  }

  lemma ExceptStep(m: seq<Modulus>, n: nat, i: nat)
    requires n < |m|
    ensures Except(m, n + 1, i) == Except(m, n, i) * (if n == i then 1 else m[n].q) && Except(m, 0, i) == 1
  {
  }

  lemma {:induction false} ExceptProduct(m: seq<Modulus>, n: nat, i: nat)
    requires n <= |m| && i < |m|
    ensures Product(m, n) == Except(m, n, i) * (if i < n then m[i].q else 1)
  {
    if n > 0 {
      ExceptProduct(m, n - 1, i);
      hide *;
      ProductStep(m, n - 1);
      ExceptStep(m, n - 1, i);
      if i < n - 1 { Turn(Except(m, n - 1, i), m[i].q, m[n - 1].q); }
    } else {
      assert Except(m, 0, i) == 1 && Product(m, 0) == 1;
    }
  }

  lemma Turn(a: int, b: int, c: int)
    ensures (a * b) * c == (a * c) * b
  {
  }

  /** The reverser of modulus i is 1 modulo it and 0 modulo the others. */
  ghost predicate Reverser(v: int, m: seq<Modulus>, i: nat) {
    && i < |m| && 0 <= v < Product(m, |m|) && Cong(v, 1, m[i].q)
    && forall j :: 0 <= j < |m| && j != i ==> Cong(v, 0, m[j].q)
  }

  lemma ReverserMeaning(m: seq<Modulus>, i: nat, cofactor: int, inverse: int)
    requires Base(m) && PairwiseCoprime(m) && i < |m| && cofactor == Except(m, |m|, i)
    requires 0 <= inverse < m[i].q && Cong(inverse * cofactor, 1, m[i].q)
    ensures Reverser(cofactor * inverse, m, i)
  {
    hide Except, Product, MontModulus, Cong, Invertible;
    ExceptProduct(m, |m|, i);
    ProductPositive(m, |m|);
    BaseAt(m, i);
    CofactorBound(cofactor, inverse, m[i].q, Product(m, |m|));
    assert cofactor * inverse == inverse * cofactor;
    forall j | 0 <= j < |m| && j != i ensures Cong(cofactor * inverse, 0, m[j].q) {
      ProductVanishes(m, j, |m|);
      CofactorVanishes(cofactor, inverse, m[i].q, Product(m, |m|), m[j].q);
    }
  }

  lemma CofactorBound(cofactor: int, inverse: int, q: int, product: int)
    requires 0 <= inverse < q && product == cofactor * q && product > 0
    ensures cofactor > 0 && 0 <= cofactor * inverse < product
  {
    if cofactor <= 0 { AtMost(cofactor, q); }
    AtLeast(q - inverse, cofactor);
    assert (q - inverse) * cofactor == cofactor * q - cofactor * inverse;
  }

  lemma CofactorVanishes(cofactor: int, inverse: int, q: int, product: int, p: int)
    requires product == cofactor * q && Cong(product, 0, p) && Invertible(q, p)
    ensures Cong(cofactor * inverse, 0, p)
  {
    var y :| Cong(q * y, 1, p);
    hide *;
    assert cofactor * q == q * cofactor && q * 0 == 0;
    Cancel(q, y, cofactor, 0, p);
    MulRight(cofactor, 0, inverse, p);
  }

  lemma InverseStep(inverse: int, cofactor: int, other: int, otherInverse: int, next: int, q: int)
    requires Cong(inverse * cofactor, 1, q) && Cong(other * otherInverse, 1, q) && Cong(next, inverse * otherInverse, q)
    ensures Cong(next * (cofactor * other), 1, q)
  {
    hide *;
    MulRight(next, inverse * otherInverse, cofactor * other, q);
    Mul(inverse * cofactor, 1, other * otherInverse, 1, q);
    Regroup(inverse, otherInverse, cofactor, other);
    Trans(next * (cofactor * other), (inverse * cofactor) * (other * otherInverse), 1, q);
  }

  lemma Regroup(a: int, b: int, c: int, d: int)
    ensures (a * b) * (c * d) == (a * c) * (d * b)
  {
    Exchange(a, b, c, d);
  }

  /** r - k_i stands for the inverse of q_i modulo r, and their product for the inverse of all. */
  lemma ConstantStep(a: int, product: int, k: int, q: int, next: int)
    requires Cong(a * product, 1, R) && Cong(k * q, -1, R) && Cong(next, a * (R - k), R)
    ensures Cong(next * (product * q), 1, R)
  {
    FromQuotient((R - k) * q, -(k * q), R, q);
    hide *;
    Refl(0, R);
    Sub(0, 0, k * q, -1, R);
    Trans((R - k) * q, -(k * q), 1, R);
    assert (R - k) * q == q * (R - k);
    InverseStep(a, product, q, R - k, next, R);
  }

  lemma ConstantEnd(a: int, product: int)
    requires Cong(a * product, 1, R)
    ensures Cong((R - a) * product, -1, R)
  {
    FromQuotient((R - a) * product, -(a * product), R, product);
    hide *;
    Refl(0, R);
    Sub(0, 0, a * product, 1, R);
    Trans((R - a) * product, -(a * product), -1, R);
  }

  class DecodeParameters {
    var qProduct: seq<int>
    var qProductHalf: seq<int>
    var rnsReverser: seq<seq<int>>
    var rMinusKProduct: int

    ghost predicate Valid(m: seq<Modulus>)
      reads this
    {
      && Normal(qProduct) && Value(qProduct) == Product(m, |m|)
      && Normal(qProductHalf) && Value(qProductHalf) == Product(m, |m|) / 2
      && |rnsReverser| == |m|
      && (forall i :: 0 <= i < |m| ==> Normal(rnsReverser[i]) && Reverser(Value(rnsReverser[i]), m, i))
      && 0 <= rMinusKProduct <= R && Cong(rMinusKProduct * Product(m, |m|), -1, R)
    }

    constructor (m: seq<Modulus>)
      requires Base(m) && PairwiseCoprime(m)
      ensures Valid(m)
    {
      qProduct := [1];
      qProductHalf := [];
      rnsReverser := [];
      rMinusKProduct := 0;
      new;
      hide Value, Normal, Product, Except, Cong, Invertible, MontModulus, Reverser;
      SingleLimb(1);
      if |m| > 0 { ProductStep(m, 0); } else { ProductOne(m); }
      for i := 0 to |m|
        invariant Normal(qProduct) && Value(qProduct) == Product(m, i)
        invariant rnsReverser == []
      {
        BaseAt(m, i);
        ProductStep(m, i);
        qProduct := Multiply(qProduct, m[i].q);
      }
      ghost var product := qProduct;
      var half, _ := BigInteger.Divide(qProduct, 2);
      qProductHalf := half;
      for i := 0 to |m|
        invariant qProduct == product && qProductHalf == half && |rnsReverser| == i
        invariant forall j :: 0 <= j < i ==> Normal(rnsReverser[j]) && Reverser(Value(rnsReverser[j]), m, j)
      {
        BaseAt(m, i);
        var divided, _ := BigInteger.Divide(qProduct, m[i].q);
        ExceptProduct(m, |m|, i);
        DivModUnique(Value(qProduct), Except(m, |m|, i), 0, m[i].q);
        var inverse := InverseOfOthers(m, i);
        ReverserMeaning(m, i, Except(m, |m|, i), inverse);
        var reverser := Multiply(divided, inverse);
        rnsReverser := rnsReverser + [reverser];
      }
      ghost var reversers := rnsReverser;
      var constant := 1;
      Refl(1, R);
      if |m| > 0 { ProductStep(m, 0); }
      for i := 0 to |m|
        invariant qProduct == product && qProductHalf == half && rnsReverser == reversers
        invariant 0 <= constant < R && Cong(constant * Product(m, i), 1, R)
      {
        KOf(m, i);
        ProductStep(m, i);
        ConstantStep(constant, Product(m, i), m[i].k, m[i].q, ModulusMultiply(constant, R - m[i].k, R));
        constant := ModulusMultiply(constant, R - m[i].k, R);
      }
      ConstantEnd(constant, Product(m, |m|));
      rMinusKProduct := R - constant;
    }
  }

  lemma KOf(m: seq<Modulus>, i: nat)
    requires Base(m) && i < |m|
    ensures 0 <= m[i].k < R && Cong(m[i].k * m[i].q, -1, R)
  {
    assert MontModulus(m[i].q, m[i].k);
  }

  /** The inverse of the product of all moduli but one, modulo that one. */
  method InverseOfOthers(m: seq<Modulus>, i: nat) returns (inverse: int)
    requires Base(m) && PairwiseCoprime(m) && i < |m|
    ensures 0 <= inverse < m[i].q && Cong(inverse * Except(m, |m|, i), 1, m[i].q)
  {
    hide Except, Cong, Invertible, MontModulus;
    var chain := m[i].q;
    BaseAt(m, i);
    inverse := 1;
    ExceptStep(m, 0, i);
    Refl(1, chain);
    for j := 0 to |m|
      invariant 0 <= inverse < chain && Cong(inverse * Except(m, j, i), 1, chain)
    {
      ExceptStep(m, j, i);
      if j != i {
        BaseAt(m, j);
        var qInverse := ModulusInvert(m[j].q, chain);
        InverseStep(inverse, Except(m, j, i), m[j].q, qInverse, ModulusMultiply(inverse, qInverse, chain), chain);
        inverse := ModulusMultiply(inverse, qInverse, chain);
      }
    }
  }

  // ---------- the signed integer of one coefficient ----------

  ghost predicate PartialSum(sum: int, x: seq<int>, m: seq<Modulus>, n: nat) {
    && |x| == |m| && n <= |m|
    && forall j :: 0 <= j < |m| ==> Cong(sum, if j < n then x[j] * R else 0, m[j].q)
  }

  lemma PartialSumStep(sum: int, reverser: int, xValue: int, x: seq<int>, m: seq<Modulus>, n: nat)
    requires PartialSum(sum, x, m, n) && n < |m| && Reverser(reverser, m, n) && Cong(xValue, x[n] * R, m[n].q)
    ensures PartialSum(sum + reverser * xValue, x, m, n + 1)
  {
    hide Cong;
    forall j | 0 <= j < |m| ensures Cong(sum + reverser * xValue, if j < n + 1 then x[j] * R else 0, m[j].q) {
      if j == n {
        MulRight(reverser, 1, xValue, m[j].q);
        Trans(reverser * xValue, xValue, x[n] * R, m[j].q);
        Add(sum, 0, reverser * xValue, x[n] * R, m[j].q);
      } else {
        MulRight(reverser, 0, xValue, m[j].q);
        Add(sum, if j < n then x[j] * R else 0, reverser * xValue, 0, m[j].q);
      }
    }
  }

  /** Each term stays below a quarter of product * 2^62, which bounds the number of subtractions. */
  lemma TermBound(reverser: int, xValue: int, product: int, q: int)
    requires 0 <= reverser < product && 0 <= xValue < q && 4 * q <= R
    ensures 0 <= 4 * (reverser * xValue) < product * R
  {
    ProductBound(reverser, product, xValue, q);
    assert 4 * (product * q) == product * (4 * q);
    TimesMonotone(4 * q, R, product);
    if xValue == 0 { PositiveProduct(product, R); } else { StrictBound(reverser, xValue, product, q); }
  }

  lemma StrictBound(a: int, b: int, c: int, d: int)
    requires 0 <= a < c && 0 < b < d
    ensures a * b < c * d
  {
    TimesMonotone(a, c - 1, b);
    TimesMonotone(b, d, c);
    assert (c - 1) * b == c * b - b && b * c == c * b && d * c == c * d;
  }

  lemma BoundStep(sum: int, n: nat, term: int, unit: int)
    requires 4 * sum <= n * unit && 0 <= 4 * term < unit
    ensures 4 * (sum + term) < (n + 1) * unit
  {
    assert (n + 1) * unit == n * unit + unit;
  }

  lemma FewSubtractions(sum: int, n: nat, unit: int)
    requires unit > 0 && 0 <= sum && 4 * sum <= n * unit && (n > 0 ==> 4 * sum < n * unit)
    ensures 4 * (sum / unit) <= n && (n > 0 ==> 4 * (sum / unit) < n)
  {
    var d := sum / unit;
    assert sum == d * unit + sum % unit;
    if n == 0 {
      DivModUnique(sum, 0, 0, unit);
    } else if 4 * d >= n {
      TimesMonotone(n, 4 * d, unit);
    }
  }

  /** The value of the sum modulo the product, divided by 2^62, has the given residues. */
  lemma ResiduesOf(value: int, sum: int, x: seq<int>, m: seq<Modulus>)
    requires Base(m) && PartialSum(sum, x, m, |m|) && Cong(value * R, sum, Product(m, |m|))
    ensures Residues(value, x, m, |m|)
  {
    hide Cong, Product, Except, MontModulus;
    forall i | 0 <= i < |m| ensures Cong(value, x[i], m[i].q) {
      BaseAt(m, i);
      ExceptProduct(m, |m|, i);
      ProductPositive(m, |m|);
      PositiveCofactor(Except(m, |m|, i), m[i].q);
      Factor(value * R, sum, Except(m, |m|, i), m[i].q);
      Trans(value * R, sum, x[i] * R, m[i].q);
      var j := RadixInverse(m[i].q, m[i].k);
      assert value * R == R * value && x[i] * R == R * x[i];
      Cancel(R, j, value, x[i], m[i].q);
    }
  }

  lemma PositiveCofactor(a: int, q: int)
    requires q > 0 && a * q > 0
    ensures a > 0
  {
    if a <= 0 { AtMost(a, q); }
  }

  lemma NegativeResidues(value: int, x: seq<int>, m: seq<Modulus>)
    requires Base(m) && Residues(value, x, m, |m|)
    ensures Residues(value - Product(m, |m|), x, m, |m|)
  {
    hide Cong, Product, MontModulus;
    forall i | 0 <= i < |m| ensures Cong(value - Product(m, |m|), x[i], m[i].q) {
      ProductVanishes(m, i, |m|);
      Sub(value, x[i], Product(m, |m|), 0, m[i].q);
    }
  }

  lemma {:induction false} ProductOdd(m: seq<Modulus>, n: nat)
    requires Base(m) && n <= |m|
    ensures Product(m, n) % 2 == 1
  {
    if n == 0 {
      assert Product(m, 0) == 1;
    } else {
      ProductOdd(m, n - 1);
      hide *;
      OddModulus(m, n - 1);
      ProductStep(m, n - 1);
      OddTimes(Product(m, n - 1), m[n - 1].q);
    }
  }

  lemma OddTimes(a: int, b: int)
    requires a % 2 == 1 && b % 2 == 1
    ensures (a * b) % 2 == 1
  {
    var c, d := a / 2, b / 2;
    OddExpand(c, d);
    OddFrom(a * b, 2 * (c * d) + c + d);
  }

  lemma OddFrom(a: int, half: int)
    requires a == 2 * half + 1
    ensures a % 2 == 1
  {
  }

  lemma OddExpand(c: int, d: int)
    ensures (2 * c + 1) * (2 * d + 1) == 2 * (2 * (c * d) + c + d) + 1
  {
  }

  /** The integer part of rns_to_double for one coefficient: the result agrees with every residue and
      lies in [-(Q + 1) / 2, (Q - 3) / 2] for the product Q of the moduli. */
  method Reconstruct(p: DecodeParameters, m: seq<Modulus>, x: seq<int>)
    returns (magnitude: seq<int>, negative: bool, ghost subtractions: nat)
    requires p.Valid(m) && Base(m) && PairwiseCoprime(m) && |x| == |m| && forall i :: 0 <= i < |x| ==> x[i] >= 0
    ensures Normal(magnitude)
    ensures var v, q := if negative then -Value(magnitude) else Value(magnitude), Product(m, |m|);
      Residues(v, x, m, |m|) && -(q + 1) / 2 <= v <= (q - 3) / 2
    ensures 4 * subtractions <= |m| && (|m| > 0 ==> 4 * subtractions < |m|)
  {
    hide Value, Normal, Product, Cong, Reverser, MontModulus;
    ghost var product := Product(m, |m|);
    ProductPositive(m, |m|);
    ProductOdd(m, |m|);
    PositiveProduct(product, R);
    var rnsReversed := [0];
    SingleLimb(0);
    PartialSumStart(x, m);
    for i := 0 to |m|
      invariant Normal(rnsReversed) && Value(rnsReversed) >= 0 && PartialSum(Value(rnsReversed), x, m, i)
      invariant 4 * Value(rnsReversed) <= i * (product * R) && (i > 0 ==> 4 * Value(rnsReversed) < i * (product * R))
    {
      BaseAt(m, i);
      var xValue := ModulusMultiply(x[i], R, m[i].q);
      ReverserRange(Value(p.rnsReverser[i]), m, i);
      TermBound(Value(p.rnsReverser[i]), xValue, product, m[i].q);
      var xProduct := Multiply(p.rnsReverser[i], xValue);
      PartialSumStep(Value(rnsReversed), Value(p.rnsReverser[i]), xValue, x, m, i);
      BoundStep(Value(rnsReversed), i, Value(xProduct), product * R);
      rnsReversed := Plus(rnsReversed, xProduct);
    }
    FewSubtractions(Value(rnsReversed), |m|, product * R);
    var reduced, steps := MontgomeryModulus(rnsReversed, p.qProduct, p.rMinusKProduct);
    subtractions := steps;
    ResiduesOf(Value(reduced), Value(rnsReversed), x, m);
    NegativeResidues(Value(reduced), x, m);
    negative := GreaterEqual(reduced, p.qProductHalf);
    if negative {
      magnitude := Minus(p.qProduct, reduced);
    } else {
      magnitude := reduced;
    }
  }

  lemma PartialSumStart(x: seq<int>, m: seq<Modulus>)
    requires Base(m) && |x| == |m|
    ensures PartialSum(0, x, m, 0)
  {
    hide MontModulus;
    forall j | 0 <= j < |m| ensures Cong(0, 0, m[j].q) { BaseAt(m, j); }
  }

  lemma ReverserRange(v: int, m: seq<Modulus>, i: nat)
    requires Reverser(v, m, i)
    ensures 0 <= v < Product(m, |m|)
  {
  }
}
