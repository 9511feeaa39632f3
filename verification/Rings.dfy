/** Commutative rings as records of operations, and finite sums.

    The slots of a ciphertext are elements of such a ring wherever the source computes with complex
    doubles; nothing here depends on which ring it is. */
module Rings {

  datatype Ring<!C> = Ring(zero: C, one: C, add: (C, C) -> C, neg: C -> C, mul: (C, C) -> C)

  ghost predicate Laws<C(!new)>(r: Ring<C>) {
    && (forall a, b :: r.add(a, b) == r.add(b, a))
    && (forall a, b, c :: r.add(r.add(a, b), c) == r.add(a, r.add(b, c)))
    && (forall a :: r.add(a, r.zero) == a)
    && (forall a :: r.add(a, r.neg(a)) == r.zero)
    && (forall a, b :: r.mul(a, b) == r.mul(b, a))
    && (forall a, b, c :: r.mul(r.mul(a, b), c) == r.mul(a, r.mul(b, c)))
    && (forall a :: r.mul(a, r.one) == a)
    && (forall a, b, c :: r.mul(a, r.add(b, c)) == r.add(r.mul(a, b), r.mul(a, c)))
  }

  lemma AddCommutes<C(!new)>(r: Ring<C>, a: C, b: C)
    requires Laws(r)
    ensures r.add(a, b) == r.add(b, a)
  {
  }

  lemma AddAssociates<C(!new)>(r: Ring<C>, a: C, b: C, c: C)
    requires Laws(r)
    ensures r.add(r.add(a, b), c) == r.add(a, r.add(b, c))
  {
  }

  lemma AddZero<C(!new)>(r: Ring<C>, a: C)
    requires Laws(r)
    ensures r.add(a, r.zero) == a && r.add(r.zero, a) == a
  {
  }

  lemma AddNegative<C(!new)>(r: Ring<C>, a: C)
    requires Laws(r)
    ensures r.add(a, r.neg(a)) == r.zero
  {
  }

  lemma MulCommutes<C(!new)>(r: Ring<C>, a: C, b: C)
    requires Laws(r)
    ensures r.mul(a, b) == r.mul(b, a)
  {
  }

  lemma MulAssociates<C(!new)>(r: Ring<C>, a: C, b: C, c: C)
    requires Laws(r)
    ensures r.mul(r.mul(a, b), c) == r.mul(a, r.mul(b, c))
  {
  }

  lemma MulOne<C(!new)>(r: Ring<C>, a: C)
    requires Laws(r)
    ensures r.mul(a, r.one) == a && r.mul(r.one, a) == a
  {
  }

  lemma Distributes<C(!new)>(r: Ring<C>, a: C, b: C, c: C)
    requires Laws(r)
    ensures r.mul(a, r.add(b, c)) == r.add(r.mul(a, b), r.mul(a, c))
    ensures r.mul(r.add(b, c), a) == r.add(r.mul(b, a), r.mul(c, a))
  {
    hide *;
    DistributesLeft(r, a, b, c);
    MulCommutes(r, a, r.add(b, c));
    MulCommutes(r, a, b);
    MulCommutes(r, a, c);
  }

  lemma DistributesLeft<C(!new)>(r: Ring<C>, a: C, b: C, c: C)
    requires Laws(r)
    ensures r.mul(a, r.add(b, c)) == r.add(r.mul(a, b), r.mul(a, c))
  {
  }

  /** A summand can be cancelled. */
  lemma CancelAdd<C(!new)>(r: Ring<C>, a: C, b: C, c: C)
    requires Laws(r) && r.add(a, c) == r.add(b, c)
    ensures a == b
  {
    hide *;
    var n := r.neg(c);
    AddAssociates(r, a, c, n);
    AddAssociates(r, b, c, n);
    AddNegative(r, c);
    AddZero(r, a);
    AddZero(r, b);
  }

  lemma MulZero<C(!new)>(r: Ring<C>, a: C)
    requires Laws(r)
    ensures r.mul(a, r.zero) == r.zero && r.mul(r.zero, a) == r.zero
  {
    hide *;
    var p := r.mul(a, r.zero);
    Distributes(r, a, r.zero, r.zero);
    AddZero(r, r.zero);
    AddZero(r, p);
    CancelAdd(r, p, r.zero, p);
    MulCommutes(r, a, r.zero);
  }

  /** (a + b) + (c + d) = (a + c) + (b + d). */
  lemma AddExchanges<C(!new)>(r: Ring<C>, a: C, b: C, c: C, d: C)
    requires Laws(r)
    ensures r.add(r.add(a, b), r.add(c, d)) == r.add(r.add(a, c), r.add(b, d))
  {
    hide *;
    AddAssociates(r, a, b, r.add(c, d));
    AddAssociates(r, b, c, d);
    AddCommutes(r, b, c);
    AddAssociates(r, c, b, d);
    AddAssociates(r, a, c, r.add(b, d));
  }

  // ---------- sums ----------

  ghost function Sum<C>(r: Ring<C>, f: int -> C, low: int, high: int): C
    decreases high - low
  {
    if low >= high then r.zero else r.add(Sum(r, f, low, high - 1), f(high - 1))
  }

  lemma {:induction false} SumSame<C(!new)>(r: Ring<C>, f: int -> C, g: int -> C, low: int, high: int)
    requires forall u :: low <= u < high ==> f(u) == g(u)
    ensures Sum(r, f, low, high) == Sum(r, g, low, high)
    decreases high - low
  {
    if low < high { SumSame(r, f, g, low, high - 1); }
  }

  lemma {:induction false} SumShift<C(!new)>(r: Ring<C>, f: int -> C, g: int -> C, low: int, high: int, shift: int)
    requires forall u :: low <= u < high ==> f(u) == g(u + shift)
    ensures Sum(r, f, low, high) == Sum(r, g, low + shift, high + shift)
    decreases high - low
  {
    if low < high { SumShift(r, f, g, low, high - 1, shift); }
  }

  lemma {:induction false} SumZero<C(!new)>(r: Ring<C>, f: int -> C, low: int, high: int)
    requires Laws(r) && forall u :: low <= u < high ==> f(u) == r.zero
    ensures Sum(r, f, low, high) == r.zero
    decreases high - low
  {
    hide Laws;
    if low < high {
      SumZero(r, f, low, high - 1);
      AddZero(r, r.zero);
    }
  }

  lemma {:induction false} SumSplit<C(!new)>(r: Ring<C>, f: int -> C, low: int, middle: int, high: int)
    requires Laws(r) && low <= middle <= high
    ensures Sum(r, f, low, high) == r.add(Sum(r, f, low, middle), Sum(r, f, middle, high))
    decreases high - middle
  {
    hide Laws;
    if middle < high {
      SumSplit(r, f, low, middle, high - 1);
      AddAssociates(r, Sum(r, f, low, middle), Sum(r, f, middle, high - 1), f(high - 1));
    } else {
      AddZero(r, Sum(r, f, low, middle));
    }
  }

  lemma SumFirst<C(!new)>(r: Ring<C>, f: int -> C, low: int, high: int)
    requires Laws(r) && low < high
    ensures Sum(r, f, low, high) == r.add(f(low), Sum(r, f, low + 1, high))
  {
    SumSplit(r, f, low, low + 1, high);
    AddZero(r, f(low));
    assert Sum(r, f, low, low + 1) == r.add(Sum(r, f, low, low), f(low));
  }

  lemma {:induction false} SumAdd<C(!new)>(r: Ring<C>, f: int -> C, g: int -> C, h: int -> C, low: int, high: int)
    requires Laws(r) && forall u :: low <= u < high ==> h(u) == r.add(f(u), g(u))
    ensures Sum(r, h, low, high) == r.add(Sum(r, f, low, high), Sum(r, g, low, high))
    decreases high - low
  {
    hide Laws;
    if low < high {
      SumAdd(r, f, g, h, low, high - 1);
      AddExchanges(r, Sum(r, f, low, high - 1), Sum(r, g, low, high - 1), f(high - 1), g(high - 1));
    } else {
      AddZero(r, r.zero);
    }
  }

  lemma {:induction false} SumScale<C(!new)>(r: Ring<C>, c: C, f: int -> C, g: int -> C, low: int, high: int)
    requires Laws(r) && forall u :: low <= u < high ==> g(u) == r.mul(c, f(u))
    ensures Sum(r, g, low, high) == r.mul(c, Sum(r, f, low, high))
    decreases high - low
  {
    hide Laws;
    if low < high {
      SumScale(r, c, f, g, low, high - 1);
      Distributes(r, c, Sum(r, f, low, high - 1), f(high - 1));
    } else {
      MulZero(r, c);
    }
  }

  /** Summing backwards. */
  lemma {:induction false} SumReverse<C(!new)>(r: Ring<C>, f: int -> C, g: int -> C, low: int, high: int, turn: int)
    requires Laws(r) && forall u :: low <= u < high ==> f(u) == g(turn - u)
    ensures Sum(r, f, low, high) == Sum(r, g, turn - high + 1, turn - low + 1)
    decreases high - low
  {
    hide Laws;
    if low < high {
      SumReverse(r, f, g, low, high - 1, turn);
      SumFirst(r, g, turn - high + 1, turn - low + 1);
      AddCommutes(r, Sum(r, f, low, high - 1), f(high - 1));
    }
  }
}
