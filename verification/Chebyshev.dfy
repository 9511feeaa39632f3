/** The Chebyshev basis of src/ckks/engine_advanced.cpp, over any commutative ring in place of the
    slots of a ciphertext, with the level that each multiplication consumes. */
module Chebyshev {
  import opened Congruence
  import opened Rings

  datatype Option<+T> = None | Some(value: T)

  function Minus<C>(r: Ring<C>, a: C, b: C): C {
    r.add(a, r.neg(b))
  }

  function Twice<C>(r: Ring<C>, a: C): C {
    r.add(a, a)
  }

  /** The Chebyshev polynomials of the first kind. */
  function T<C>(r: Ring<C>, x: C, i: nat): C {
    if i == 0 then r.one
    else if i == 1 then x
    else Minus(r, Twice(r, r.mul(x, T(r, x, i - 1))), T(r, x, i - 2))
  }

  // ---------- ring algebra ----------

  lemma MinusAdds<C(!new)>(r: Ring<C>, a: C, b: C)
    requires Laws(r)
    ensures r.add(Minus(r, a, b), b) == a
  {
    hide Laws;
    AddAssociates(r, a, r.neg(b), b);
    AddCommutes(r, r.neg(b), b);
    AddNegative(r, b);
    AddZero(r, a);
  }

  lemma MinusIs<C(!new)>(r: Ring<C>, a: C, b: C, c: C)
    requires Laws(r) && r.add(c, b) == a
    ensures c == Minus(r, a, b)
  {
    hide *;
    MinusAdds(r, a, b);
    CancelAdd(r, c, Minus(r, a, b), b);
  }

  lemma MinusExchanges<C(!new)>(r: Ring<C>, a: C, b: C, c: C, d: C)
    requires Laws(r)
    ensures r.add(Minus(r, a, b), Minus(r, c, d)) == Minus(r, r.add(a, c), r.add(b, d))
  {
    hide *;
    var p, q := Minus(r, a, b), Minus(r, c, d);
    MinusAdds(r, a, b);
    MinusAdds(r, c, d);
    AddExchanges(r, p, q, b, d);
    MinusIs(r, r.add(a, c), r.add(b, d), r.add(p, q));
  }

  lemma TwiceAdds<C(!new)>(r: Ring<C>, a: C, b: C)
    requires Laws(r)
    ensures r.add(Twice(r, a), Twice(r, b)) == Twice(r, r.add(a, b))
  {
    hide Laws;
    AddExchanges(r, a, a, b, b);
  }

  lemma MulMinus<C(!new)>(r: Ring<C>, a: C, b: C, c: C)
    requires Laws(r)
    ensures r.mul(a, Minus(r, b, c)) == Minus(r, r.mul(a, b), r.mul(a, c))
  {
    hide *;
    MinusAdds(r, b, c);
    Distributes(r, a, Minus(r, b, c), c);
    MinusIs(r, r.mul(a, b), r.mul(a, c), r.mul(a, Minus(r, b, c)));
  }

  lemma MulTwice<C(!new)>(r: Ring<C>, a: C, b: C)
    requires Laws(r)
    ensures r.mul(a, Twice(r, b)) == Twice(r, r.mul(a, b))
  {
    hide Laws;
    Distributes(r, a, b, b);
  }

  lemma TwiceMinus<C(!new)>(r: Ring<C>, a: C, b: C)
    requires Laws(r)
    ensures Twice(r, Minus(r, a, b)) == Minus(r, Twice(r, a), Twice(r, b))
  {
    hide Laws, Minus;
    MinusExchanges(r, a, b, a, b);
  }

  // ---------- the product formula ----------

  lemma TStep<C>(r: Ring<C>, x: C, i: nat)
    requires i >= 2
    ensures T(r, x, i) == Minus(r, Twice(r, r.mul(x, T(r, x, i - 1))), T(r, x, i - 2))
    ensures T(r, x, 0) == r.one && T(r, x, 1) == x
  {
  }

  /** T(m + n) + T(m - n) = 2 T(m) T(n). */
  lemma {:induction false} ProductFormula<C(!new)>(r: Ring<C>, x: C, m: nat, n: nat)
    requires Laws(r) && n <= m
    ensures r.add(T(r, x, m + n), T(r, x, m - n)) == Twice(r, r.mul(T(r, x, m), T(r, x, n)))
  {
    hide *;
    TStep(r, x, m + 2);
    if n == 0 {
      MulOne(r, T(r, x, m));
      TwiceIs(r, T(r, x, m));
    } else if n == 1 {
      TStep(r, x, m + 1);
      MinusAdds(r, Twice(r, r.mul(x, T(r, x, m))), T(r, x, m - 1));
      MulCommutes(r, x, T(r, x, m));
    } else {
      ProductFormula(r, x, m, n - 1);
      ProductFormula(r, x, m, n - 2);
      TStep(r, x, n);
      TStep(r, x, m + n);
      Downwards(r, x, m - n);
      ProductStep(r, x, T(r, x, m), T(r, x, n - 1), T(r, x, n - 2), T(r, x, m + n - 1), T(r, x, m + n - 2),
                  T(r, x, m - n + 1), T(r, x, m - n + 2));
    }
  }

  lemma TwiceIs<C>(r: Ring<C>, a: C)
    ensures Twice(r, a) == r.add(a, a)
  {
  }

  /** The recurrence read backwards. */
  lemma Downwards<C(!new)>(r: Ring<C>, x: C, i: nat)
    requires Laws(r)
    ensures T(r, x, i) == Minus(r, Twice(r, r.mul(x, T(r, x, i + 1))), T(r, x, i + 2))
  {
    hide *;
    TStep(r, x, i + 2);
    var a := Twice(r, r.mul(x, T(r, x, i + 1)));
    MinusAdds(r, a, T(r, x, i));
    AddCommutes(r, T(r, x, i), T(r, x, i + 2));
    MinusIs(r, a, T(r, x, i + 2), T(r, x, i));
  }

  lemma ProductStep<C(!new)>(r: Ring<C>, x: C, m: C, n1: C, n2: C, u1: C, u2: C, d1: C, d2: C)
    requires Laws(r) && r.add(u1, d1) == Twice(r, r.mul(m, n1)) && r.add(u2, d2) == Twice(r, r.mul(m, n2))
    ensures r.add(Minus(r, Twice(r, r.mul(x, u1)), u2), Minus(r, Twice(r, r.mul(x, d1)), d2)) ==
            Twice(r, r.mul(m, Minus(r, Twice(r, r.mul(x, n1)), n2)))
  {
    hide *;
    MinusExchanges(r, Twice(r, r.mul(x, u1)), u2, Twice(r, r.mul(x, d1)), d2);
    TwiceAdds(r, r.mul(x, u1), r.mul(x, d1));
    Distributes(r, x, u1, d1);
    MulTwice(r, x, r.mul(m, n1));
    MulAssociates(r, x, m, n1);
    MulCommutes(r, x, m);
    MulAssociates(r, m, x, n1);
    MulMinus(r, m, Twice(r, r.mul(x, n1)), n2);
    MulTwice(r, m, r.mul(x, n1));
    TwiceMinus(r, Twice(r, r.mul(m, r.mul(x, n1))), r.mul(m, n2));
  }

  // ---------- levels ----------

  function CeilLog2(i: nat): nat {
    if i <= 1 then 0 else 1 + Log2(i - 1)
  }

  lemma {:induction false} Log2Is(i: nat)
    requires i >= 1
    ensures Pow2(Log2(i)) <= i < 2 * Pow2(Log2(i))
  {
    if i > 1 {
      Log2Is(i / 2);
      Pow2Double(Log2(i / 2));
    } else {
      Pow2Double(0);
    }
  }

  lemma {:induction false} Log2Unique(i: nat, k: nat)
    requires Pow2(k) <= i < 2 * Pow2(k)
    ensures Log2(i) == k
  {
    if k > 0 {
      Pow2Double(k - 1);
      Log2Unique(i / 2, k - 1);
    }
  }

  lemma CeilLog2Is(i: nat, k: nat)
    ensures Pow2(k) < i <= 2 * Pow2(k) ==> CeilLog2(i) == k + 1
    ensures 1 <= i <= Pow2(k) ==> CeilLog2(i) <= k
    ensures CeilLog2(Pow2(k)) == k
  {
    hide Pow2, Log2;
    if Pow2(k) < i <= 2 * Pow2(k) { Log2Unique(i - 1, k); }
    if 1 < i <= Pow2(k) { Log2Below(i - 1, k); }
    CeilLog2Power(k);
  }

  lemma CeilLog2Power(k: nat)
    ensures CeilLog2(Pow2(k)) == k
  {
    hide Log2;
    if k > 0 {
      Pow2Double(k - 1);
      Log2Unique(Pow2(k) - 1, k - 1);
    } else {
      Pow2Double(0);
    }
  }

  lemma Log2Below(i: nat, k: nat)
    requires 1 <= i < Pow2(k)
    ensures Log2(i) < k
  {
    Log2Is(i);
    if Log2(i) >= k { Pow2Monotone(k, Log2(i)); }
  }

  lemma CeilLog2Monotone(i: nat, j: nat)
    requires 1 <= i <= j
    ensures CeilLog2(i) <= CeilLog2(j)
  {
    if i > 1 {
      Log2Is(j - 1);
      Pow2Double(Log2(j - 1));
      CeilLog2Is(i, Log2(j - 1) + 1);
    }
  }

  /** The least power of two that is not below i. */
  lemma CeilLog2Least(i: nat, c: nat)
    requires i >= 1
    ensures CeilLog2(i) <= c <==> i <= Pow2(c)
  {
    CeilLog2Is(i, c);
    if i > Pow2(c) {
      CeilLog2Monotone(Pow2(c) + 1, i);
      NextPowerAbove(c);
      CeilLog2Is(Pow2(c) + 1, c);
    }
  }

  lemma NextPowerAbove(c: nat)
    ensures 1 <= Pow2(c)
  {
  }

  // ---------- the basis ----------

  /** A ciphertext: what its slots hold, and its level. */
  datatype Text<C> = Text(value: C, level: int)

  /** Multiplication consumes a level and needs one; sums and differences meet at the lower level. */
  function Multiply<C>(r: Ring<C>, a: Text<C>, b: Text<C>): Text<C>
    requires a.level > 0 && b.level > 0
  {
    Text(r.mul(a.value, b.value), (if a.level < b.level then a.level else b.level) - 1)
  }

  function AddTexts<C>(r: Ring<C>, a: Text<C>, b: Text<C>): Text<C> {
    Text(r.add(a.value, b.value), if a.level < b.level then a.level else b.level)
  }

  function SubtractTexts<C>(r: Ring<C>, a: Text<C>, b: Text<C>): Text<C> {
    Text(Minus(r, a.value, b.value), if a.level < b.level then a.level else b.level)
  }

  function SubtractOne<C>(r: Ring<C>, a: Text<C>): Text<C> {
    Text(Minus(r, a.value, r.one), a.level)
  }

  /** Entry i is the i-th Chebyshev polynomial of the input and has cost ceil(log2 i) levels. */
  ghost predicate Entry<C>(r: Ring<C>, x: Text<C>, i: nat, t: Text<C>) {
    t.value == T(r, x.value, i) && t.level == x.level - CeilLog2(i)
  }

  ghost predicate Sound<C>(r: Ring<C>, x: Text<C>, basis: seq<Option<Text<C>>>) {
    forall i :: 0 <= i < |basis| ==> basis[i].Some? ==> i >= 1 && Entry(r, x, i, basis[i].value)
  }

  lemma SquareEntry<C(!new)>(r: Ring<C>, x: Text<C>, k: nat, t: Text<C>)
    requires Laws(r) && Entry(r, x, Pow2(k), t) && t.level > 0
    ensures var squared := Multiply(r, t, t);
      Entry(r, x, Pow2(k + 1), SubtractOne(r, AddTexts(r, squared, squared)))
  {
    hide Laws, T, Minus, CeilLog2, Pow2;
    Pow2Double(k);
    CeilLog2Is(1, k);
    CeilLog2Is(1, k + 1);
    var n := Pow2(k);
    ProductFormula(r, x.value, n, n);
    TStep(r, x.value, 2);
    TwiceIs(r, r.mul(T(r, x.value, n), T(r, x.value, n)));
    MinusIs(r, Twice(r, r.mul(T(r, x.value, n), T(r, x.value, n))), r.one, T(r, x.value, 2 * n));
  }

  lemma ProductEntry<C(!new)>(r: Ring<C>, x: Text<C>, k: nat, i: nat, a: Text<C>, b: Text<C>, c: Text<C>)
    requires Laws(r) && Pow2(k) < i < 2 * Pow2(k) && a.level > 0 && b.level > 0
    requires Entry(r, x, Pow2(k), a) && Entry(r, x, i - Pow2(k), b) && Entry(r, x, 2 * Pow2(k) - i, c)
    ensures var product := Multiply(r, a, b);
      Entry(r, x, i, SubtractTexts(r, AddTexts(r, product, product), c))
  {
    hide Laws, T, Minus, CeilLog2, Pow2;
    var h, l := Pow2(k), i - Pow2(k);
    ProductFormula(r, x.value, h, l);
    TwiceIs(r, r.mul(T(r, x.value, h), T(r, x.value, l)));
    MinusIs(r, Twice(r, r.mul(T(r, x.value, h), T(r, x.value, l))), T(r, x.value, h - l), T(r, x.value, h + l));
    CeilLog2Is(i, k);
    CeilLog2Is(l, k);
    CeilLog2Is(2 * h - i, k);
  }

  lemma Affordable(level: int, maxPower: nat, k: nat, i: nat)
    requires level >= CeilLog2(maxPower) && Pow2(k) < i <= maxPower
    ensures level - k > 0
    ensures i <= 2 * Pow2(k) ==> forall j: nat :: 1 <= j <= Pow2(k) ==> level - CeilLog2(j) > 0
  {
    hide CeilLog2, Pow2;
    if i <= 2 * Pow2(k) {
      CeilLog2Is(i, k);
    } else {
      CeilLog2Is(2 * Pow2(k), k);
      CeilLog2Monotone(2 * Pow2(k), i);
    }
    CeilLog2Monotone(i, maxPower);
    forall j: nat | 1 <= j <= Pow2(k) ensures level - CeilLog2(j) > 0 {
      CeilLog2Is(j, k);
    }
  }

  /** make_chebyshev_basis: refused if no power of two up to the level's reaches maxPower; otherwise every
      multiplication finds a positive level, and entry i (counted from one) is T_i of the input, c or fewer
      levels below it exactly if i is at most 2^c. */
  method MakeChebyshevBasis<C(!new)>(r: Ring<C>, x: Text<C>, maxPower: nat) returns (result: Option<seq<Text<C>>>)
    requires Laws(r) && maxPower >= 1
    ensures result.None? <==> forall c: nat :: c <= x.level ==> Pow2(c) < maxPower
    ensures result.Some? ==> |result.value| == maxPower
    ensures result.Some? ==> forall i: nat :: i < maxPower ==> result.value[i].value == T(r, x.value, i + 1) && result.value[i].level <= x.level
    ensures result.Some? ==> forall i: nat, c: nat :: i < maxPower ==> (x.level - c <= result.value[i].level <==> i + 1 <= Pow2(c))
  {
    hide Laws, Entry, CeilLog2, Pow2, Log2;
    RefusedIff(x.level, maxPower);
    if x.level < CeilLog2(maxPower) {
      return None;
    }
    var basis: seq<Option<Text<C>>> := seq(maxPower + 1, i => None);
    FirstEntry(r, x);
    basis := basis[1 := Some(x)];
    ghost var k := 0;
    Pow2Double(0);
    var currentPowerOfTwo := 2;
    var current := x;
    while currentPowerOfTwo <= maxPower
      invariant currentPowerOfTwo == 2 * Pow2(k) && Entry(r, x, Pow2(k), current)
      invariant |basis| == maxPower + 1 && Sound(r, x, basis)
      invariant forall j: nat :: j <= k && Pow2(j) <= maxPower ==> basis[Pow2(j)].Some?
      decreases maxPower - currentPowerOfTwo
    {
      LevelOf(r, x, k, current);
      Affordable(x.level, maxPower, k, 2 * Pow2(k));
      SquareEntry(r, x, k, current);
      Pow2Double(k);
      var squared := Multiply(r, current, current);
      squared := AddTexts(r, squared, squared);
      current := SubtractOne(r, squared);
      basis := basis[currentPowerOfTwo := Some(current)];
      currentPowerOfTwo := currentPowerOfTwo * 2;
      k := k + 1;
    }
    for powerIndex := 2 to maxPower + 1
      invariant |basis| == maxPower + 1 && Sound(r, x, basis)
      invariant forall j: nat :: j <= k && Pow2(j) <= maxPower ==> basis[Pow2(j)].Some?
      invariant forall j :: 1 <= j < powerIndex ==> basis[j].Some?
    {
      if basis[powerIndex].None? {
        var log := Log2(powerIndex);
        Log2Is(powerIndex);
        if log > k { Pow2Monotone(k + 1, log); Pow2Double(k); }
        var highestPowerOfTwo := Pow2(log);
        Affordable(x.level, maxPower, log, powerIndex);
        var a, b := basis[highestPowerOfTwo].value, basis[powerIndex - highestPowerOfTwo].value;
        var c := basis[2 * highestPowerOfTwo - powerIndex].value;
        LevelAt(r, x, highestPowerOfTwo, a);
        LevelAt(r, x, powerIndex - highestPowerOfTwo, b);
        ProductEntry(r, x, log, powerIndex, a, b, c);
        var product := Multiply(r, a, b);
        product := AddTexts(r, product, product);
        basis := basis[powerIndex := Some(SubtractTexts(r, product, c))];
      }
    }
    result := Some(seq(maxPower, i requires 0 <= i < maxPower && basis[i + 1].Some? => basis[i + 1].value));
    EntriesMean(r, x, result.value);
  }

  lemma RefusedIff(level: int, maxPower: nat)
    requires maxPower >= 1
    ensures level < CeilLog2(maxPower) <==> forall c: nat :: c <= level ==> Pow2(c) < maxPower
  {
    hide CeilLog2, Pow2;
    if level >= 0 { CeilLog2Least(maxPower, level); }
    forall c: nat | c <= level && level < CeilLog2(maxPower) ensures Pow2(c) < maxPower {
      CeilLog2Least(maxPower, c);
    }
  }

  lemma EntriesMean<C>(r: Ring<C>, x: Text<C>, basis: seq<Text<C>>)
    requires forall i: nat :: i < |basis| ==> Entry(r, x, i + 1, basis[i])
    ensures forall i: nat :: i < |basis| ==> basis[i].value == T(r, x.value, i + 1) && basis[i].level <= x.level
    ensures forall i: nat, c: nat :: i < |basis| ==> (x.level - c <= basis[i].level <==> i + 1 <= Pow2(c))
  {
    hide CeilLog2, Pow2, T;
    forall i: nat, c: nat | i < |basis| ensures x.level - c <= basis[i].level <==> i + 1 <= Pow2(c) {
      CeilLog2Least(i + 1, c);
    }
    forall i: nat | i < |basis| ensures basis[i].value == T(r, x.value, i + 1) && basis[i].level <= x.level {
    }
  }

  lemma FirstEntry<C>(r: Ring<C>, x: Text<C>)
    ensures Entry(r, x, 1, x) && Pow2(0) == 1
  {
  }

  lemma LevelOf<C>(r: Ring<C>, x: Text<C>, k: nat, t: Text<C>)
    requires Entry(r, x, Pow2(k), t)
    ensures t.level == x.level - k
  {
    CeilLog2Is(1, k);
  }

  lemma LevelAt<C>(r: Ring<C>, x: Text<C>, i: nat, t: Text<C>)
    requires Entry(r, x, i, t)
    ensures t.level == x.level - CeilLog2(i)
  {
  }
}
