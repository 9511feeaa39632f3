/** Unbounded integers as 64-bit limbs, kept in 128-bit words (src/arithmetic/big_int.cpp). */
module BigInteger {
  import opened Congruence
  import opened Montgomery

  const B: int := TWO64

  function At(a: seq<int>, i: nat): int {
    if i < |a| then a[i] else 0
  }

  /** The value of the lowest i limbs. */
  function Head(a: seq<int>, i: nat): int {
    if i == 0 then 0 else Head(a, i - 1) + At(a, i - 1) * Pow(B, i - 1)
  }

  function Value(a: seq<int>): int {
    Head(a, |a|)
  }

  ghost predicate Limbs(a: seq<int>) {
    forall i :: 0 <= i < |a| ==> 0 <= a[i] < B
  }

  /** At least one limb, and no leading zero limb beyond the first. */
  ghost predicate Normal(a: seq<int>) {
    |a| >= 1 && Limbs(a) && (|a| > 1 ==> a[|a| - 1] != 0)
  }

  lemma HeadStep(a: seq<int>, i: nat)
    ensures Head(a, i + 1) == Head(a, i) + At(a, i) * Pow(B, i) && Head(a, 0) == 0
  {
  }

  lemma PowStep(i: nat)
    ensures Pow(B, i + 1) == B * Pow(B, i) && Pow(B, 0) == 1
  {
  }

  lemma {:induction false} PowPositive(i: nat)
    ensures Pow(B, i) >= 1
  {
    if i > 0 {
      PowPositive(i - 1);
      PowStep(i - 1);
    } else {
      PowStep(0);
    }
  }

  /** Only the limbs below i matter. */
  lemma {:induction false} HeadPrefix(a: seq<int>, b: seq<int>, i: nat)
    requires forall j: nat :: j < i ==> At(a, j) == At(b, j)
    ensures Head(a, i) == Head(b, i)
  {
    if i > 0 { HeadPrefix(a, b, i - 1); }
  }

  /** Limbs beyond the end are zero. */
  lemma {:induction false} HeadBeyond(a: seq<int>, i: nat)
    requires |a| <= i
    ensures Head(a, i) == Value(a)
  {
    if i > |a| { HeadBeyond(a, i - 1); }
  }

  lemma {:induction false} HeadRange(a: seq<int>, i: nat)
    requires Limbs(a)
    ensures 0 <= Head(a, i) < Pow(B, i)
  {
    hide Pow, Head;
    HeadStep(a, if i > 0 then i - 1 else 0);
    PowStep(if i > 0 then i - 1 else 0);
    if i > 0 {
      HeadRange(a, i - 1);
      LimbRange(Head(a, i - 1), At(a, i - 1), Pow(B, i - 1), B);
    }
  }

  lemma LimbRange(low: int, limb: int, p: int, b: int)
    requires 0 <= low < p && 0 <= limb < b
    ensures 0 <= low + limb * p < b * p
  {
    AtLeast(b - limb, p);
    assert (b - limb) * p == b * p - limb * p && limb * p >= 0;
  }

  // ---------- construction ----------

  /** The constructor drops leading zero limbs. */
  method Normalize(numbers: seq<int>) returns (data: seq<int>)
    requires |numbers| >= 1 && Limbs(numbers)
    ensures Normal(data) && Value(data) == Value(numbers)
  {
    data := numbers;
    while |data| > 1 && data[|data| - 1] == 0
      invariant 1 <= |data| && Limbs(data) && Value(data) == Value(numbers)
    {
      DropZero(data);
      data := data[..|data| - 1];
    }
  }

  lemma DropZero(a: seq<int>)
    requires |a| >= 1 && a[|a| - 1] == 0
    ensures Value(a[..|a| - 1]) == Value(a)
  {
    HeadPrefix(a, a[..|a| - 1], |a| - 1);
  }

  lemma SingleLimb(n: int)
    requires 0 <= n < B
    ensures Normal([n]) && Value([n]) == n
  {
    HeadStep([n], 0);
    PowStep(0);
  }

  // ---------- multiplication and division by a word ----------

  /** Appending the next limb. */
  lemma AppendLimb(a: seq<int>, limb: int)
    ensures Value(a + [limb]) == Value(a) + limb * Pow(B, |a|)
  {
    HeadPrefix(a, a + [limb], |a|);
    HeadStep(a + [limb], |a|);
  }

  lemma MultiplyStep(head: int, value: int, limb: int, other: int, carry: int, p: int, limb': int, carry': int)
    requires head * other == value + carry * p && limb * other + carry == carry' * B + limb'
    ensures (head + limb * p) * other == (value + limb' * p) + carry' * (B * p)
  {
    assert (limb * p) * other == (limb * other) * p;
    assert (carry' * B + limb') * p == carry' * (B * p) + limb' * p;
    assert (limb * other + carry) * p == (limb * other) * p + carry * p;
    assert (head + limb * p) * other == head * other + (limb * p) * other;
  }

  lemma CarryRange(x: int, y: int, carry: int, b: int)
    requires 0 <= x < b && 0 <= y < b && 0 <= carry < b
    ensures 0 <= x * y + carry < b * b
  {
    ProductBound(x, b - 1, y, b - 1);
    assert (b - 1) * (b - 1) + b <= b * b;
  }

  lemma QuotientBelow(v: int, b: int, q: int)
    requires 0 <= v < b * q && q > 0
    ensures v / q < b
  {
    var d := v / q;
    assert v == d * q + v % q;
    if d >= b { TimesMonotone(b, d, q); }
  }

  lemma SplitWord(v: int, b: int)
    requires 0 <= v < b * b && b > 0
    ensures v == (v / b) * b + v % b && 0 <= v / b < b && 0 <= v % b < b
  {
    var d := v / b;
    assert v == d * b + v % b;
    QuotientBelow(v, b, b);
  }

  /** operator*: a product of a limb and the word, plus the carry, never leaves 128 bits. */
  method Multiply(data: seq<int>, other: int) returns (result: seq<int>)
    requires Normal(data) && 0 <= other < B
    ensures Normal(result) && Value(result) == Value(data) * other
  {
    hide Head, Pow;
    if other == 0 {
      SingleLimb(0);
      return [0];
    }
    var product: seq<int> := [];
    var carry := 0;
    HeadStep(data, 0);
    HeadStep(product, 0);
    for index := 0 to |data|
      invariant |product| == index && Limbs(product) && 0 <= carry < B
      invariant Head(data, index) * other == Value(product) + carry * Pow(B, index)
    {
      var word := data[index] * other + carry;
      CarryRange(data[index], other, carry, B);
      SplitWord(word, B);
      HeadStep(data, index);
      PowStep(index);
      AppendLimb(product, word % B);
      MultiplyStep(Head(data, index), Value(product), data[index], other, carry, Pow(B, index), word % B, word / B);
      product := product + [word % B];
      carry := word / B;
    }
    if carry != 0 {
      AppendLimb(product, carry);
      product := product + [carry];
    }
    result := Normalize(product);
  }

  /** What is left of the value above limb i. */
  lemma DivideStep(rest: int, quotient: int, other: int, carry: int, limb: int, p: int, q: int, carry': int)
    requires rest == quotient * other + carry * (B * p) && carry * B + limb == q * other + carry'
    ensures rest + limb * p == (quotient + q * p) * other + carry' * p
  {
    assert (carry * B + limb) * p == carry * (B * p) + limb * p;
    assert (q * other + carry') * p == (q * p) * other + carry' * p;
    assert (quotient + q * p) * other == quotient * other + (q * p) * other;
  }

  /** The limbs from i on. */
  function Tail(a: seq<int>, i: nat): int
    requires i <= |a|
    decreases |a| - i
  {
    if i == |a| then 0 else a[i] * Pow(B, i) + Tail(a, i + 1)
  }

  lemma {:induction false} HeadTail(a: seq<int>, i: nat)
    requires i <= |a|
    ensures Head(a, i) + Tail(a, i) == Value(a)
    decreases |a| - i
  {
    if i < |a| { HeadTail(a, i + 1); }
  }

  lemma {:induction false} TailUpdate(a: seq<int>, i: nat, k: nat, v: int)
    requires k < i <= |a|
    ensures Tail(a[k := v], i) == Tail(a, i)
    decreases |a| - i
  {
    if i < |a| { TailUpdate(a, i + 1, k, v); }
  }

  lemma TailStep(a: seq<int>, i: nat)
    requires i < |a|
    ensures Tail(a, i) == a[i] * Pow(B, i) + Tail(a, i + 1) && Tail(a, |a|) == 0
  {
  }

  lemma QuotientLimb(carry: int, limb: int, other: int)
    requires 0 <= carry < other && 0 <= limb < B
    ensures var v := carry * B + limb;
      0 <= v / other < B && 0 <= v % other < other && v == (v / other) * other + v % other
  {
    var v := carry * B + limb;
    var d := v / other;
    assert v == d * other + v % other;
    AtLeast(other - carry, B);
    assert (other - carry) * B == B * other - carry * B;
    QuotientBelow(v, B, other);
  }

  /** operator/ and operator% run the same loop from the top limb down. */
  method Divide(data: seq<int>, other: int) returns (result: seq<int>, remainder: int)
    requires Normal(data) && 0 < other < B
    ensures Normal(result) && Value(result) == Value(data) / other && remainder == Value(data) % other
  {
    hide Head, Pow, Tail;
    var quotient := seq(|data|, i => 0);
    var carry := 0;
    ghost var size: nat := |data|;
    TailStep(data, 0);
    TailStep(quotient, 0);
    var index := |data|;
    while index > 0
      invariant 0 <= index <= |data| && |quotient| == |data| && Limbs(quotient)
      invariant 0 <= carry < other
      invariant Tail(data, index) == Tail(quotient, index) * other + carry * Pow(B, index)
    {
      index := index - 1;
      var word := carry * B + data[index];
      QuotientLimb(carry, data[index], other);
      TailUpdate(quotient, index + 1, index, word / other);
      PowStep(index);
      DivideStep(Tail(data, index + 1), Tail(quotient, index + 1), other, carry, data[index], Pow(B, index), word / other, word % other);
      quotient := quotient[index := word / other];
      TailStep(data, index);
      TailStep(quotient, index);
      carry := word - word / other * other;
    }
    HeadTail(data, 0);
    HeadTail(quotient, 0);
    HeadStep(data, 0);
    HeadStep(quotient, 0);
    PowStep(0);
    DivModUnique(Value(data), Value(quotient), carry, other);
    result := Normalize(quotient);
    remainder := carry;
  }

  // ---------- addition, subtraction, comparison ----------

  lemma AddStep(a: int, b: int, value: int, carry: int, x: int, y: int, p: int, limb: int, carry': int)
    requires a + b == value + carry * p && x + y + carry == carry' * B + limb
    ensures (a + x * p) + (b + y * p) == (value + limb * p) + carry' * (B * p)
  {
    assert (x + y + carry) * p == x * p + y * p + carry * p;
    assert (carry' * B + limb) * p == carry' * (B * p) + limb * p;
  }

  lemma AtRange(a: seq<int>, i: nat)
    requires Limbs(a)
    ensures 0 <= At(a, i) < B
  {
  }

  method Plus(data: seq<int>, other: seq<int>) returns (result: seq<int>)
    requires Normal(data) && Normal(other)
    ensures Normal(result) && Value(result) == Value(data) + Value(other)
  {
    hide Head, Pow;
    var size: nat := if |data| >= |other| then |data| else |other|;
    var sum: seq<int> := [];
    var carry := 0;
    HeadStep(data, 0);
    HeadStep(other, 0);
    HeadStep(sum, 0);
    for index := 0 to size
      invariant |sum| == index && Limbs(sum) && 0 <= carry <= 1
      invariant Head(data, index) + Head(other, index) == Value(sum) + carry * Pow(B, index)
    {
      AtRange(data, index);
      AtRange(other, index);
      var word := carry;
      if index < |data| { word := word + data[index]; }
      if index < |other| { word := word + other[index]; }
      HeadStep(data, index);
      HeadStep(other, index);
      PowStep(index);
      AppendLimb(sum, word % B);
      AddStep(Head(data, index), Head(other, index), Value(sum), carry, At(data, index), At(other, index), Pow(B, index), word % B, word / B);
      sum := sum + [word % B];
      carry := word / B;
    }
    HeadBeyond(data, size);
    HeadBeyond(other, size);
    if carry != 0 {
      AppendLimb(sum, carry);
      sum := sum + [carry];
    }
    result := Normalize(sum);
  }

  lemma SubtractStep(a: int, b: int, value: int, borrow: int, x: int, y: int, p: int, limb: int, borrow': int)
    requires a - b == value - borrow * p && x - y - borrow == limb - borrow' * B
    ensures (a + x * p) - (b + y * p) == (value + limb * p) - borrow' * (B * p)
  {
    assert (x - y - borrow) * p == x * p - y * p - borrow * p;
    assert (limb - borrow' * B) * p == limb * p - borrow' * (B * p);
  }

  /** Only the limbs of the first operand are kept: the result is the difference modulo their range. It is
      the difference itself exactly if that is not negative. */
  method Minus(data: seq<int>, other: seq<int>) returns (result: seq<int>)
    requires Normal(data) && Normal(other)
    ensures Normal(result) && Pow(B, |data|) > 0 && Value(result) == (Value(data) - Value(other)) % Pow(B, |data|)
    ensures Value(data) >= Value(other) <==> Value(result) == Value(data) - Value(other)
    ensures Value(data) < Value(other) && |other| <= |data| ==> Value(result) == Value(data) - Value(other) + Pow(B, |data|)
  {
    hide Head, Pow;
    var difference: seq<int> := [];
    var borrow := 0;
    HeadStep(data, 0);
    HeadStep(other, 0);
    HeadStep(difference, 0);
    for index := 0 to |data|
      invariant |difference| == index && Limbs(difference) && 0 <= borrow <= 1
      invariant Head(data, index) - Head(other, index) == Value(difference) - borrow * Pow(B, index)
    {
      AtRange(data, index);
      AtRange(other, index);
      var subtractor := borrow;
      if index < |other| { subtractor := subtractor + other[index]; }
      ghost var before := borrow;
      var limb := data[index];
      if limb < subtractor {
        limb := limb + B;
        borrow := 1;
      } else {
        borrow := 0;
      }
      limb := limb - subtractor;
      HeadStep(data, index);
      HeadStep(other, index);
      PowStep(index);
      AppendLimb(difference, limb);
      SubtractStep(Head(data, index), Head(other, index), Value(difference), before, data[index], At(other, index), Pow(B, index), limb, borrow);
      difference := difference + [limb];
    }
    HeadRange(difference, |difference|);
    WrappedDifference(data, other, Value(difference), borrow);
    result := Normalize(difference);
  }

  /** What a borrow out of the highest limb leaves. */
  lemma WrappedDifference(data: seq<int>, other: seq<int>, value: int, borrow: int)
    requires Normal(data) && Normal(other) && 0 <= borrow <= 1 && 0 <= value < Pow(B, |data|)
    requires Head(data, |data|) - Head(other, |data|) == value - borrow * Pow(B, |data|)
    ensures value == (Value(data) - Value(other)) % Pow(B, |data|)
    ensures Value(data) >= Value(other) <==> value == Value(data) - Value(other)
    ensures Value(data) < Value(other) && |other| <= |data| ==> value == Value(data) - Value(other) + Pow(B, |data|)
  {
    hide Head, Pow, Tail;
    var n, p := |data|, Pow(B, |data|);
    HeadBeyond(data, n);
    HeadRange(data, n);
    ShorterBelow(data, other);
    if |other| <= n {
      HeadBeyond(other, n);
      HeadRange(other, n);
      assert Value(data) - Value(other) == (-borrow) * p + value;
      DivModUnique(Value(data) - Value(other), -borrow, value, p);
    } else {
      HeadTail(other, n);
      var k := TailMultiple(other, n, n);
      HigherLimbs(Value(data) - Value(other), k, borrow, p, value);
    }
  }

  lemma HigherLimbs(difference: int, k: int, borrow: int, p: int, value: int)
    requires 0 <= value < p && difference + k * p == value - borrow * p
    ensures value == difference % p
  {
    assert (-borrow - k) * p == -(borrow * p) - k * p;
    DivModUnique(difference, -borrow - k, value, p);
  }

  lemma {:induction false} TailMultiple(a: seq<int>, i: nat, n: nat) returns (k: int)
    requires n <= i <= |a|
    ensures Tail(a, i) == k * Pow(B, n)
    decreases |a| - i
  {
    hide Pow;
    if i == |a| {
      k := 0;
    } else {
      var rest := TailMultiple(a, i + 1, n);
      PowAdd(B, n, i - n);
      k := a[i] * Pow(B, i - n) + rest;
      Multiples(a[i], Pow(B, n), Pow(B, i - n), rest);
    }
  }

  lemma Multiples(x: int, p: int, q: int, rest: int)
    ensures x * (p * q) + rest * p == (x * q + rest) * p
  {
  }

  /** A normal number is at least its top power, so it has no fewer limbs than a smaller one. */
  lemma TopLimb(a: seq<int>)
    requires Normal(a) && |a| > 1
    ensures Value(a) >= Pow(B, |a| - 1)
  {
    hide Pow, Head;
    HeadRange(a, |a| - 1);
    HeadStep(a, |a| - 1);
    PowPositive(|a| - 1);
    AtLeast(a[|a| - 1], Pow(B, |a| - 1));
  }

  lemma {:induction false} PowMonotone(i: nat, j: nat)
    requires i <= j
    ensures Pow(B, i) <= Pow(B, j)
  {
    if i < j {
      PowMonotone(i, j - 1);
      PowStep(j - 1);
      PowPositive(j - 1);
    }
  }

  lemma ShorterBelow(a: seq<int>, b: seq<int>)
    requires Normal(a) && Normal(b)
    ensures |a| < |b| ==> Value(a) < Value(b)
  {
    hide Pow, Head;
    if |a| < |b| {
      HeadRange(a, |a|);
      TopLimb(b);
      PowMonotone(|a|, |b| - 1);
    }
  }

  /** The highest limb that differs decides. */
  lemma HighestDecides(a: seq<int>, b: seq<int>, i: nat)
    requires Limbs(a) && Limbs(b) && i < |a| == |b| && a[i] < b[i] && Tail(a, i + 1) == Tail(b, i + 1)
    ensures Value(a) < Value(b)
  {
    hide Pow, Head, Tail;
    HeadTail(a, i);
    HeadTail(b, i);
    TailStep(a, i);
    TailStep(b, i);
    HeadRange(a, i);
    HeadRange(b, i);
    AtLeast(b[i] - a[i], Pow(B, i));
    assert (b[i] - a[i]) * Pow(B, i) == b[i] * Pow(B, i) - a[i] * Pow(B, i);
  }

  method GreaterEqual(data: seq<int>, other: seq<int>) returns (result: bool)
    requires Normal(data) && Normal(other)
    ensures result <==> Value(data) >= Value(other)
  {
    hide Pow, Head, Tail;
    ShorterBelow(data, other);
    ShorterBelow(other, data);
    if |data| != |other| {
      return |data| > |other|;
    }
    TailStep(data, 0);
    TailStep(other, 0);
    var index := |data|;
    while index > 0
      invariant 0 <= index <= |data| && Tail(data, index) == Tail(other, index)
    {
      index := index - 1;
      TailStep(data, index);
      TailStep(other, index);
      if data[index] != other[index] {
        if data[index] < other[index] { HighestDecides(data, other, index); } else { HighestDecides(other, data, index); }
        return data[index] > other[index];
      }
    }
    HeadTail(data, 0);
    HeadTail(other, 0);
    HeadStep(data, 0);
    HeadStep(other, 0);
    return true;
  }
}
