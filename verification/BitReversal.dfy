/** Reversal of the low bits of an index (src/ckks/encode.cpp) and the table order built from it
    (src/ckks/derived_parameters.cpp). */
module BitReversal {
  import opened Congruence

  /** The lowest `length` bits of x in reverse order. */
  function Rev(length: nat, x: nat): nat {
    if length == 0 then 0 else (if x % 2 == 1 then Pow2(length - 1) else 0) + Rev(length - 1, x / 2)
  }

  lemma {:induction false} RevRange(length: nat, x: nat)
    ensures Rev(length, x) < Pow2(length)
  {
    if length > 0 { RevRange(length - 1, x / 2); }
  }

  lemma {:induction false} RevZero(length: nat)
    ensures Rev(length, 0) == 0
  {
    if length > 0 { RevZero(length - 1); }
  }

  /** The high part of an index is reversed into the low part of the result. */
  lemma {:induction false} RevSplit(length: nat, i: nat, high: nat, low: nat)
    requires i <= length && low < Pow2(i)
    ensures Rev(length, high * Pow2(i) + low) == Rev(length - i, high) + Pow2(length - i) * Rev(i, low)
    decreases i
  {
    hide *;
    if i > 0 {
      Halve(high, i, low);
      RevSplit(length - 1, i - 1, high, low / 2);
      RevStep(length, high * Pow2(i) + low);
      RevStep(i, low);
      if low % 2 == 1 {
        Pow2Add(length - i, i - 1);
      }
      Distribute(Pow2(length - i), if low % 2 == 1 then Pow2(i - 1) else 0, Rev(i - 1, low / 2));
    } else {
      RevBase(low);
    }
  }

  lemma RevStep(length: nat, x: nat)
    requires length > 0
    ensures Rev(length, x) == (if x % 2 == 1 then Pow2(length - 1) else 0) + Rev(length - 1, x / 2)
  {
  }

  lemma RevBase(x: nat)
    ensures Rev(0, x) == 0 && Pow2(0) == 1
  {
  }

  lemma Distribute(p: int, a: int, b: int)
    ensures p * (a + b) == p * a + p * b
  {
  }

  lemma Halve(high: nat, i: nat, low: nat)
    requires i > 0
    ensures low < Pow2(i) ==> low / 2 < Pow2(i - 1)
    ensures (high * Pow2(i) + low) / 2 == high * Pow2(i - 1) + low / 2
    ensures (high * Pow2(i) + low) % 2 == low % 2
  {
    var h := high * Pow2(i - 1);
    assert high * Pow2(i) == 2 * h;
  }

  /** The index of a tree node: its leading bit becomes the lowest set bit. */
  lemma RevNode(length: nat, level: nat, b: nat)
    requires level < length && b < Pow2(level)
    ensures Rev(length, Pow2(level) + b) == Pow2(length - level - 1) * (2 * Rev(level, b) + 1)
  {
    hide Rev;
    RevSplit(level + 1, level, 1, b);
    RevOne();
    RevSplit(length, level + 1, 0, Pow2(level) + b);
    RevZero(length - level - 1);
  }

  lemma RevOne()
    ensures Rev(1, 0) == 0 && Rev(1, 1) == 1 && Pow2(1) == 2
  {
    RevZero(0);
  }

  lemma {:induction false} RevInvolution(length: nat, x: nat)
    requires x < Pow2(length)
    ensures Rev(length, Rev(length, x)) == x
  {
    hide *;
    if length > 0 {
      Halve(0, length, x);
      RevStep(length, x);
      RevRange(length - 1, x / 2);
      RevSplit(length, length - 1, x % 2, Rev(length - 1, x / 2));
      RevInvolution(length - 1, x / 2);
      RevOne();
      OneOrNothing(x % 2, Pow2(length - 1));
    } else {
      RevBase(0);
    }
  }

  lemma OneOrNothing(c: nat, p: int)
    requires c <= 1
    ensures c * p == if c == 1 then p else 0
  {
  }

  /** Bit i of the reversal is bit length - 1 - i of x. */
  lemma {:induction false} RevBit(length: nat, x: nat, i: nat)
    requires i < length
    ensures (Rev(length, x) / Pow2(i)) % 2 == (x / Pow2(length - 1 - i)) % 2
  {
    hide *;
    RevStep(length, x);
    RevRange(length - 1, x / 2);
    RevBase(0);
    var bit, rest := if x % 2 == 1 then 1 else 0, Rev(length - 1, x / 2);
    if i == length - 1 {
      DivModUnique(bit * Pow2(i) + rest, bit, rest, Pow2(i));
      OneOrNothing(bit, Pow2(i));
    } else {
      RevBit(length - 1, x / 2, i);
      HighBit(bit, length - 1, rest, i);
      Pow2Double(length - 2 - i);
      DivTwice(x, Pow2(length - 2 - i));
      HalfFirst(x, Pow2(length - 2 - i));
    }
  }

  lemma HighBit(bit: nat, top: nat, rest: nat, i: nat)
    requires i < top && bit <= 1
    ensures (((if bit == 1 then Pow2(top) else 0) + rest) / Pow2(i)) % 2 == (rest / Pow2(i)) % 2
  {
    Pow2Add(i, top - i);
    Pow2Double(top - i - 1);
    hide *;
    EvenTop(Pow2(top), rest, Pow2(i), Pow2(top - i - 1));
  }

  lemma EvenTop(top: nat, rest: nat, m: nat, h: nat)
    requires m > 0 && top == m * (2 * h)
    ensures ((top + rest) / m) % 2 == (rest / m) % 2
  {
    hide *;
    DivModOf(rest, m);
    TwoFactors(h, m, rest / m);
    DivModUnique(top + rest, 2 * h + rest / m, rest % m, m);
    EvenMore(h, rest / m);
  }

  lemma EvenMore(h: int, d: int)
    ensures (2 * h + d) % 2 == d % 2
  {
  }

  lemma DivModOf(a: nat, m: nat)
    requires m > 0
    ensures a == (a / m) * m + a % m && 0 <= a % m < m
  {
  }

  lemma TwoFactors(h: int, m: int, d: int)
    ensures (2 * h + d) * m == m * (2 * h) + d * m
  {
  }

  lemma HalfFirst(a: nat, m: nat)
    requires m > 0
    ensures (a / 2) / m == a / (2 * m)
  {
    var h := a / 2;
    DivModOf(h, m);
    DivModUnique(a, h / m, 2 * (h % m) + a % 2, 2 * m) by { TwiceQuotient(h / m, m); }
  }

  lemma TwiceQuotient(d: int, m: int)
    ensures d * (2 * m) == 2 * (d * m)
  {
  }

  /** reverse_integer_bits: two one-bit masks walk through the index from both ends. */
  method ReverseIntegerBits(input: nat, length: nat) returns (output: nat)
    requires length >= 1
    ensures output == Rev(length, input) < Pow2(length)
    ensures forall i: nat :: i < length ==> (output / Pow2(i)) % 2 == (input / Pow2(length - 1 - i)) % 2
  {
    RevRange(length, input);
    forall i: nat | i < length ensures (Rev(length, input) / Pow2(i)) % 2 == (input / Pow2(length - 1 - i)) % 2 {
      RevBit(length, input, i);
    }
    var leftMask, rightMask := 1, Pow2(length - 1);
    output := 0;
    for index := 0 to length
      invariant leftMask >= 1
      invariant index < length ==> rightMask == Pow2(length - 1 - index)
      invariant Rev(length, input) == output + Rev(length - index, input / leftMask)
    {
      var rest := input / leftMask;
      assert rest / 2 == input / (2 * leftMask) by { DivTwice(input, leftMask); }
      if rest % 2 == 1 {
        output := output + rightMask;
      }
      leftMask := leftMask * 2;
      rightMask := rightMask / 2;
    }
  }

  lemma DivTwice(a: nat, m: nat)
    requires m > 0
    ensures (a / m) / 2 == a / (2 * m)
  {
    var d, r := a / m, a % m;
    var e, c := d / 2, d % 2;
    assert a == d * m + r;
    assert a == e * (2 * m) + (c * m + r);
    DivModUnique(a, e, c * m + r, 2 * m);
  }

  /** bit_reverse_order: scatter through the reversal, which is its own inverse. */
  method BitReverseOrder(original: seq<int>, length: nat) returns (shuffled: seq<int>)
    requires length >= 1 && |original| == Pow2(length)
    ensures |shuffled| == |original|
    ensures forall j :: 0 <= j < |original| ==> Rev(length, j) < |original| && shuffled[j] == original[Rev(length, j)]
  {
    shuffled := original;
    for index := 0 to |original|
      invariant |shuffled| == |original|
      invariant forall j :: 0 <= j < |original| && Rev(length, j) < index ==> shuffled[j] == original[Rev(length, j)]
    {
      var target := ReverseIntegerBits(index, length);
      RevRange(length, index);
      RevInvolution(length, index);
      forall j | 0 <= j < |original| && j != target ensures Rev(length, j) != index {
        RevInvolution(length, j);
      }
      shuffled := shuffled[target := original[index]];
    }
    forall j | 0 <= j < |original| ensures Rev(length, j) < |original| {
      RevRange(length, j);
    }
  }
}
