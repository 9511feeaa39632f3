/** The twiddle factors of the two bootstrapping transforms (src/operation/bootstrap.cpp:35-122): what the butterflies of
    a level do, and that those of one transform undo those of the other wherever their roots are inverse
    to each other. */
module TwiddleFactors {
  import opened Congruence
  import opened Rings
  import opened MatrixProduct
  import opened Butterflies
  import opened Stages

  // ---------- more of the ring ----------

  lemma NegativeUnique<C(!new)>(r: Ring<C>, a: C, b: C)
    requires Laws(r) && r.add(a, b) == r.zero
    ensures b == r.neg(a)
  {
    hide *;
    AddNegative(r, a);
    AddCommutes(r, a, b);
    AddCommutes(r, a, r.neg(a));
    CancelAdd(r, b, r.neg(a), a);
  }

  lemma MulNegative<C(!new)>(r: Ring<C>, a: C, b: C)
    requires Laws(r)
    ensures r.mul(r.neg(a), b) == r.neg(r.mul(a, b)) == r.mul(a, r.neg(b))
  {
    hide *;
    AddNegative(r, a);
    Distributes(r, b, a, r.neg(a));
    MulZero(r, b);
    NegativeUnique(r, r.mul(a, b), r.mul(r.neg(a), b));
    AddNegative(r, b);
    Distributes(r, a, b, r.neg(b));
    MulZero(r, a);
    NegativeUnique(r, r.mul(a, b), r.mul(a, r.neg(b)));
  }

  lemma NegativeTwice<C(!new)>(r: Ring<C>, a: C)
    requires Laws(r)
    ensures r.neg(r.neg(a)) == a
  {
    hide *;
    AddNegative(r, a);
    AddCommutes(r, a, r.neg(a));
    NegativeUnique(r, r.neg(a), a);
  }

  lemma NegativeSum<C(!new)>(r: Ring<C>, a: C, b: C)
    requires Laws(r)
    ensures r.neg(r.add(a, b)) == r.add(r.neg(a), r.neg(b))
  {
    hide *;
    AddExchanges(r, a, b, r.neg(a), r.neg(b));
    AddNegative(r, a);
    AddNegative(r, b);
    AddZero(r, r.zero);
    NegativeUnique(r, r.add(a, b), r.add(r.neg(a), r.neg(b)));
  }

  // ---------- one level ----------

  /** A level of get_twiddle_factor in a network with butterflies of reach jump: x and y become x + y and
      p * (x - y), with p the value for the place within the block. */
  ghost predicate SplitEntry<C>(r: Ring<C>, f: Factor<C>, jump: nat, values: seq<C>, s: nat) {
    && jump >= 1 && |values| == jump && s < |f.center| && Sized(f, |f.center|)
    && var i := s % (2 * jump);
       if i < jump then f.center[s] == r.one && f.left[s] == r.one && f.right[s] == r.zero
       else f.center[s] == r.neg(values[i - jump]) && f.left[s] == r.zero && f.right[s] == values[i - jump]
  }

  /** A level of get_inverse_twiddle_factor: x and y become x + p * y and x - p * y. */
  ghost predicate JoinEntry<C>(r: Ring<C>, f: Factor<C>, jump: nat, values: seq<C>, s: nat) {
    && jump >= 1 && |values| == jump && s < |f.center| && Sized(f, |f.center|)
    && var i := s % (2 * jump);
       if i < jump then f.center[s] == r.one && f.left[s] == values[i] && f.right[s] == r.zero
       else f.center[s] == r.neg(values[i - jump]) && f.left[s] == r.zero && f.right[s] == r.one
  }

  ghost predicate Splits<C>(r: Ring<C>, f: Factor<C>, jump: nat, values: seq<C>, n: nat) {
    Sized(f, n) && forall s: nat :: s < n ==> SplitEntry(r, f, jump, values, s)
  }

  ghost predicate Joins<C>(r: Ring<C>, f: Factor<C>, jump: nat, values: seq<C>, n: nat) {
    Sized(f, n) && forall s: nat :: s < n ==> JoinEntry(r, f, jump, values, s)
  }

  lemma LowPlace(s: nat, jump: nat, n: nat, c: nat)
    requires jump >= 1 && n == c * (2 * jump) && s < n && s % (2 * jump) < jump
    ensures s + jump < n && (s + jump) % (2 * jump) == s % (2 * jump) + jump
  {
    var m := 2 * jump;
    var q, i := s / m, s % m;
    assert s == q * m + i;
    DivModUnique(s + jump, q, i + jump, m);
    if q >= c { TimesMonotone(c, q, m); }
    TimesMonotone(q + 1, c, m);
    assert (q + 1) * m == q * m + m;
  }

  lemma HighPlace(s: nat, jump: nat)
    requires jump >= 1 && s % (2 * jump) >= jump
    ensures s >= jump && (s - jump) % (2 * jump) == s % (2 * jump) - jump
  {
    var m := 2 * jump;
    Parts(s, m);
    HighParts(s, jump, m, s / m, s % m);
  }

  lemma Parts(s: nat, m: nat)
    requires m > 0
    ensures s == (s / m) * m + s % m && s / m >= 0 && s % m < m
  {
  }

  lemma HighParts(s: nat, jump: nat, m: nat, q: nat, i: nat)
    requires s == q * m + i && jump <= i < m
    ensures s >= jump && (s - jump) % m == i - jump
  {
    NonNegative(q, m);
    DivModUnique(s - jump, q, i - jump, m);
  }

  lemma NonNegative(a: nat, b: nat)
    ensures a * b >= 0
  {
  }

  /** What the split makes of a vector, place by place. */
  lemma SplitAt<C(!new)>(r: Ring<C>, f: Factor<C>, jump: nat, values: seq<C>, v: seq<C>, s: nat, c: nat)
    requires Laws(r) && |v| == c * (2 * jump) && s < |v| && Splits(r, f, jump, values, |v|)
    ensures jump >= 1 && |values| == jump && Sized(f, |v|)
    ensures s % (2 * jump) < jump ==> s + jump < |v| && Butterfly(r, f, jump, v)[s] == r.add(v[s], v[s + jump])
    ensures s % (2 * jump) >= jump ==> s >= jump
    ensures s % (2 * jump) >= jump ==>
      Butterfly(r, f, jump, v)[s] == r.mul(values[s % (2 * jump) - jump], r.add(v[s - jump], r.neg(v[s])))
  {
    hide Laws;
    assert SplitEntry(r, f, jump, values, s);
    ButterflyAt(r, f, jump, v, s);
    if s % (2 * jump) < jump {
      LowPlace(s, jump, |v|, c);
      ModSmall(s + jump, |v|);
      hide Mod;
      LowSplit(r, v[s], v[s + jump], v[Mod(s - jump, |v|)]);
    } else {
      HighPlace(s, jump);
      ModSmall(s - jump, |v|);
      hide Mod;
      HighSplit(r, values[s % (2 * jump) - jump], v[s], v[Mod(s + jump, |v|)], v[s - jump]);
    }
  }

  lemma LowSplit<C(!new)>(r: Ring<C>, x: C, y: C, z: C)
    requires Laws(r)
    ensures r.add(r.add(r.mul(r.one, x), r.mul(r.one, y)), r.mul(r.zero, z)) == r.add(x, y)
  {
    hide *;
    MulOne(r, x);
    MulOne(r, y);
    MulZero(r, z);
    AddZero(r, r.add(x, y));
  }

  lemma HighSplit<C(!new)>(r: Ring<C>, p: C, y: C, z: C, x: C)
    requires Laws(r)
    ensures r.add(r.add(r.mul(r.neg(p), y), r.mul(r.zero, z)), r.mul(p, x)) == r.mul(p, r.add(x, r.neg(y)))
  {
    hide *;
    MulZero(r, z);
    MulNegative(r, p, y);
    AddZero(r, r.neg(r.mul(p, y)));
    Distributes(r, p, x, r.neg(y));
    AddCommutes(r, r.neg(r.mul(p, y)), r.mul(p, x));
  }

  /** What the join makes of a vector. */
  lemma JoinAt<C(!new)>(r: Ring<C>, f: Factor<C>, jump: nat, values: seq<C>, v: seq<C>, s: nat, c: nat)
    requires Laws(r) && |v| == c * (2 * jump) && s < |v| && Joins(r, f, jump, values, |v|)
    ensures jump >= 1 && |values| == jump && Sized(f, |v|)
    ensures s % (2 * jump) < jump ==> s + jump < |v|
    ensures s % (2 * jump) < jump ==>
      Butterfly(r, f, jump, v)[s] == r.add(v[s], r.mul(values[s % (2 * jump)], v[s + jump]))
    ensures s % (2 * jump) >= jump ==> s >= jump
    ensures s % (2 * jump) >= jump ==>
      Butterfly(r, f, jump, v)[s] == r.add(v[s - jump], r.neg(r.mul(values[s % (2 * jump) - jump], v[s])))
  {
    hide Laws;
    assert JoinEntry(r, f, jump, values, s);
    ButterflyAt(r, f, jump, v, s);
    if s % (2 * jump) < jump {
      LowPlace(s, jump, |v|, c);
      ModSmall(s + jump, |v|);
      hide Mod;
      LowJoin(r, values[s % (2 * jump)], v[s], v[s + jump], v[Mod(s - jump, |v|)]);
    } else {
      HighPlace(s, jump);
      ModSmall(s - jump, |v|);
      hide Mod;
      HighJoin(r, values[s % (2 * jump) - jump], v[s], v[Mod(s + jump, |v|)], v[s - jump]);
    }
  }

  lemma LowJoin<C(!new)>(r: Ring<C>, p: C, x: C, y: C, z: C)
    requires Laws(r)
    ensures r.add(r.add(r.mul(r.one, x), r.mul(p, y)), r.mul(r.zero, z)) == r.add(x, r.mul(p, y))
  {
    hide *;
    MulOne(r, x);
    MulZero(r, z);
    AddZero(r, r.add(x, r.mul(p, y)));
  }

  lemma HighJoin<C(!new)>(r: Ring<C>, p: C, y: C, z: C, x: C)
    requires Laws(r)
    ensures r.add(r.add(r.mul(r.neg(p), y), r.mul(r.zero, z)), r.mul(r.one, x)) == r.add(x, r.neg(r.mul(p, y)))
  {
    hide *;
    MulZero(r, z);
    MulOne(r, x);
    MulNegative(r, p, y);
    AddZero(r, r.neg(r.mul(p, y)));
    AddCommutes(r, r.neg(r.mul(p, y)), x);
  }

  // ---------- the two levels undo each other ----------

  ghost predicate Inverses<C>(r: Ring<C>, p: seq<C>, q: seq<C>) {
    |p| == |q| && forall i :: 0 <= i < |p| ==> r.mul(p[i], q[i]) == r.one
  }

  /** x + y and p (x - y), joined with q = 1 / p: twice x and twice y. */
  lemma SplitThenJoin<C(!new)>(r: Ring<C>, p: C, q: C, x: C, y: C)
    requires Laws(r) && r.mul(p, q) == r.one
    ensures var d := r.mul(p, r.add(x, r.neg(y)));
      && r.add(r.add(x, y), r.mul(q, d)) == r.add(x, x)
      && r.add(r.add(x, y), r.neg(r.mul(q, d))) == r.add(y, y)
  {
    hide *;
    var e := r.add(x, r.neg(y));
    MulCommutes(r, p, q);
    MulAssociates(r, q, p, e);
    MulOne(r, e);
    AddExchanges(r, x, y, x, r.neg(y));
    AddNegative(r, y);
    AddZero(r, r.add(x, x));
    NegativeSum(r, x, r.neg(y));
    NegativeTwice(r, y);
    AddExchanges(r, x, y, r.neg(x), y);
    AddNegative(r, x);
    AddZero(r, r.add(y, y));
  }

  /** x + q y and x - q y, split with p = 1 / q: the same. */
  lemma JoinThenSplit<C(!new)>(r: Ring<C>, p: C, q: C, x: C, y: C)
    requires Laws(r) && r.mul(p, q) == r.one
    ensures var a, b := r.add(x, r.mul(q, y)), r.add(x, r.neg(r.mul(q, y)));
      r.add(a, b) == r.add(x, x) && r.mul(p, r.add(a, r.neg(b))) == r.add(y, y)
  {
    hide *;
    var z := r.mul(q, y);
    AddExchanges(r, x, z, x, r.neg(z));
    AddNegative(r, z);
    AddZero(r, r.add(x, x));
    NegativeSum(r, x, r.neg(z));
    NegativeTwice(r, z);
    AddExchanges(r, x, z, r.neg(x), z);
    AddNegative(r, x);
    AddZero(r, r.add(z, z));
    Distributes(r, p, z, z);
    MulAssociates(r, p, q, y);
    MulOne(r, y);
  }

  function Twice<C>(r: Ring<C>, v: seq<C>): (w: seq<C>)
    ensures |w| == |v|
  {
    seq(|v|, s requires 0 <= s < |v| => r.add(v[s], v[s]))
  }

  lemma JoinUndoesSplit<C(!new)>(r: Ring<C>, split: Factor<C>, join: Factor<C>, jump: nat, p: seq<C>, q: seq<C>, v: seq<C>, c: nat)
    requires Laws(r) && |v| == c * (2 * jump) && Splits(r, split, jump, p, |v|) && Joins(r, join, jump, q, |v|) && Inverses(r, p, q)
    ensures Sized(split, |v|) && Sized(join, |v|)
    ensures Butterfly(r, join, jump, Butterfly(r, split, jump, v)) == Twice(r, v)
  {
    hide *;
    SplitSize(r, split, jump, p, |v|);
    JoinSize(r, join, jump, q, |v|);
    var w := Butterfly(r, split, jump, v);
    forall s: nat | s < |v| ensures Butterfly(r, join, jump, w)[s] == Twice(r, v)[s] {
      JoinAt(r, join, jump, q, w, s, c);
      SplitAt(r, split, jump, p, v, s, c);
      TwiceAt(r, v, s);
      if s % (2 * jump) < jump {
        LowPlace(s, jump, |v|, c);
        SplitAt(r, split, jump, p, v, s + jump, c);
        InversesAt(r, p, q, s % (2 * jump));
        SplitThenJoin(r, p[s % (2 * jump)], q[s % (2 * jump)], v[s], v[s + jump]);
      } else {
        HighPlace(s, jump);
        PlaceBound(s, jump);
        SplitAt(r, split, jump, p, v, s - jump, c);
        InversesAt(r, p, q, s % (2 * jump) - jump);
        SplitThenJoin(r, p[s % (2 * jump) - jump], q[s % (2 * jump) - jump], v[s - jump], v[s]);
      }
    }
  }

  lemma SplitUndoesJoin<C(!new)>(r: Ring<C>, split: Factor<C>, join: Factor<C>, jump: nat, p: seq<C>, q: seq<C>, v: seq<C>, c: nat)
    requires Laws(r) && |v| == c * (2 * jump) && Splits(r, split, jump, p, |v|) && Joins(r, join, jump, q, |v|) && Inverses(r, p, q)
    ensures Sized(split, |v|) && Sized(join, |v|)
    ensures Butterfly(r, split, jump, Butterfly(r, join, jump, v)) == Twice(r, v)
  {
    hide *;
    SplitSize(r, split, jump, p, |v|);
    JoinSize(r, join, jump, q, |v|);
    var w := Butterfly(r, join, jump, v);
    forall s: nat | s < |v| ensures Butterfly(r, split, jump, w)[s] == Twice(r, v)[s] {
      SplitAt(r, split, jump, p, w, s, c);
      JoinAt(r, join, jump, q, v, s, c);
      TwiceAt(r, v, s);
      if s % (2 * jump) < jump {
        LowPlace(s, jump, |v|, c);
        JoinAt(r, join, jump, q, v, s + jump, c);
        InversesAt(r, p, q, s % (2 * jump));
        JoinThenSplit(r, p[s % (2 * jump)], q[s % (2 * jump)], v[s], v[s + jump]);
      } else {
        HighPlace(s, jump);
        PlaceBound(s, jump);
        JoinAt(r, join, jump, q, v, s - jump, c);
        InversesAt(r, p, q, s % (2 * jump) - jump);
        JoinThenSplit(r, p[s % (2 * jump) - jump], q[s % (2 * jump) - jump], v[s - jump], v[s]);
      }
    }
  }

  lemma PlaceBound(s: nat, jump: nat)
    requires jump >= 1
    ensures 0 <= s % (2 * jump) < 2 * jump
  {
  }

  lemma SplitSize<C(!new)>(r: Ring<C>, f: Factor<C>, jump: nat, values: seq<C>, n: nat)
    requires Splits(r, f, jump, values, n)
    ensures Sized(f, n)
  {
  }

  lemma JoinSize<C(!new)>(r: Ring<C>, f: Factor<C>, jump: nat, values: seq<C>, n: nat)
    requires Joins(r, f, jump, values, n)
    ensures Sized(f, n)
  {
  }

  lemma InversesAt<C(!new)>(r: Ring<C>, p: seq<C>, q: seq<C>, i: int)
    requires Inverses(r, p, q) && 0 <= i < |p|
    ensures |p| == |q| && r.mul(p[i], q[i]) == r.one
  {
  }

  lemma TwiceAt<C(!new)>(r: Ring<C>, v: seq<C>, s: nat)
    requires s < |v|
    ensures Twice(r, v)[s] == r.add(v[s], v[s])
  {
  }

  // ---------- the two networks undo each other ----------

  /** A network of splits with reaches slots / 2, ..., 1 and one of joins with reaches 1, ..., slots / 2. */
  ghost predicate SplitNetwork<C>(r: Ring<C>, net: Network<C>, values: seq<seq<C>>) {
    && IsNetwork(net) && net.order == CoeffToSlot && |values| == net.log
    && forall l :: 0 <= l < net.log ==> Splits(r, net.factors[l], Pow2(net.log - l - 1), values[l], Pow2(net.log))
  }

  ghost predicate JoinNetwork<C>(r: Ring<C>, net: Network<C>, values: seq<seq<C>>) {
    && IsNetwork(net) && net.order == SlotToCoeff && |values| == net.log
    && forall l :: 0 <= l < net.log ==> Joins(r, net.factors[l], Pow2(l), values[l], Pow2(net.log))
  }

  /** The values of the levels that meet are inverse to each other. */
  ghost predicate Opposite<C>(r: Ring<C>, p: seq<seq<C>>, q: seq<seq<C>>) {
    |p| == |q| && forall l :: 0 <= l < |p| ==> Inverses(r, p[l], q[|p| - 1 - l])
  }

  function Doubled<C>(r: Ring<C>, v: seq<C>, m: nat): (w: seq<C>)
    ensures |w| == |v|
  {
    if m == 0 then v else Twice(r, Doubled(r, v, m - 1))
  }

  lemma ThreeTwice<C(!new)>(r: Ring<C>, p: C, a: C, q: C, b: C, t: C, c: C)
    requires Laws(r)
    ensures r.add(r.add(r.mul(p, r.add(a, a)), r.mul(q, r.add(b, b))), r.mul(t, r.add(c, c))) ==
            r.add(r.add(r.add(r.mul(p, a), r.mul(q, b)), r.mul(t, c)), r.add(r.add(r.mul(p, a), r.mul(q, b)), r.mul(t, c)))
  {
    hide *;
    var x, y, z := r.mul(p, a), r.mul(q, b), r.mul(t, c);
    Distributes(r, p, a, a);
    Distributes(r, q, b, b);
    Distributes(r, t, c, c);
    AddExchanges(r, x, x, y, y);
    AddExchanges(r, r.add(x, y), r.add(x, y), z, z);
  }

  lemma ButterflyTwice<C(!new)>(r: Ring<C>, f: Factor<C>, jump: int, v: seq<C>)
    requires Laws(r) && Sized(f, |v|)
    ensures Butterfly(r, f, jump, Twice(r, v)) == Twice(r, Butterfly(r, f, jump, v))
  {
    hide *;
    forall s: nat | s < |v| ensures Butterfly(r, f, jump, Twice(r, v))[s] == Twice(r, Butterfly(r, f, jump, v))[s] {
      ButterflyAt(r, f, jump, v, s);
      ButterflyAt(r, f, jump, Twice(r, v), s);
      TwiceAt(r, v, s);
      TwiceAt(r, v, Mod(s + jump, |v|));
      TwiceAt(r, v, Mod(s - jump, |v|));
      TwiceAt(r, Butterfly(r, f, jump, v), s);
      ThreeIs(r, f, s, v[s], v[Mod(s + jump, |v|)], v[Mod(s - jump, |v|)]);
      ThreeIs(r, f, s, r.add(v[s], v[s]), r.add(v[Mod(s + jump, |v|)], v[Mod(s + jump, |v|)]), r.add(v[Mod(s - jump, |v|)], v[Mod(s - jump, |v|)]));
      SizedAt(f, |v|);
      ThreeTwice(r, f.center[s], v[s], f.left[s], v[Mod(s + jump, |v|)], f.right[s], v[Mod(s - jump, |v|)]);
    }
  }

  lemma SizedAt<C>(f: Factor<C>, n: nat)
    requires Sized(f, n)
    ensures |f.center| == |f.left| == |f.right| == n
  {
  }

  lemma ThreeIs<C>(r: Ring<C>, f: Factor<C>, s: nat, a: C, b: C, c: C)
    requires s < |f.center| && Sized(f, |f.center|)
    ensures Three(r, f, s, a, b, c) == r.add(r.add(r.mul(f.center[s], a), r.mul(f.left[s], b)), r.mul(f.right[s], c))
  {
  }

  lemma {:induction false} ButterflyDoubled<C(!new)>(r: Ring<C>, f: Factor<C>, jump: int, v: seq<C>, m: nat)
    requires Laws(r) && Sized(f, |v|)
    ensures Butterfly(r, f, jump, Doubled(r, v, m)) == Doubled(r, Butterfly(r, f, jump, v), m)
  {
    hide Laws, Butterfly, Twice, Sized;
    if m > 0 {
      ButterflyDoubled(r, f, jump, v, m - 1);
      ButterflyTwice(r, f, jump, Doubled(r, v, m - 1));
    }
  }

  lemma {:induction false} DoubledTwice<C>(r: Ring<C>, v: seq<C>, m: nat)
    ensures Doubled(r, Twice(r, v), m) == Doubled(r, v, m + 1)
  {
    hide Twice;
    if m > 0 { DoubledTwice(r, v, m - 1); }
  }

  lemma Blocks(log: nat, l: nat)
    requires l < log
    ensures Pow2(log) == Pow2(log - l - 1) * (2 * Pow2(l)) && Pow2(log) == Pow2(l) * (2 * Pow2(log - l - 1))
  {
    Pow2Add(log - l - 1, l + 1);
    Pow2Double(l);
    hide Pow2;
    Swapped(Pow2(log - l - 1), Pow2(l));
  }

  lemma Swapped(a: int, b: int)
    ensures a * (2 * b) == b * (2 * a)
  {
  }

  /** The last level of one network and the first of the other that are not yet undone. */
  lemma LevelUndone<C(!new)>(r: Ring<C>, split: Network<C>, join: Network<C>, p: seq<seq<C>>, q: seq<seq<C>>, l: nat, v: seq<C>)
    requires Laws(r) && SplitNetwork(r, split, p) && JoinNetwork(r, join, q) && Opposite(r, p, q) && split.log == join.log && l < split.log
    requires |v| == Pow2(split.log)
    ensures l < |split.factors| && split.log - 1 - l < |join.factors|
    ensures var f, g, jump := split.factors[l], join.factors[split.log - 1 - l], Pow2(split.log - l - 1);
      && Sized(f, |v|) && Sized(g, |v|)
      && Butterfly(r, g, jump, Butterfly(r, f, jump, v)) == Twice(r, v) && Butterfly(r, f, jump, Butterfly(r, g, jump, v)) == Twice(r, v)
  {
    hide Laws, Splits, Joins, Inverses, Butterfly, Pow2, Sized;
    var m := split.log - 1 - l;
    Blocks(split.log, l);
    assert Inverses(r, p[l], q[|p| - 1 - l]);
    JoinUndoesSplit(r, split.factors[l], join.factors[m], Pow2(m), p[l], q[m], v, Pow2(l));
    SplitUndoesJoin(r, split.factors[l], join.factors[m], Pow2(m), p[l], q[m], v, Pow2(l));
  }

  /** slot_to_coeff after coeff_to_slot: the joins undo the splits from the last one back. */
  lemma {:induction false} JoinsAfterSplits<C(!new)>(r: Ring<C>, split: Network<C>, join: Network<C>, p: seq<seq<C>>, q: seq<seq<C>>, m: nat, v: seq<C>)
    requires Laws(r) && SplitNetwork(r, split, p) && JoinNetwork(r, join, q) && Opposite(r, p, q) && split.log == join.log && m <= split.log
    requires |v| == Pow2(split.log)
    ensures IsNetwork(split) && IsNetwork(join)
    ensures Chain(r, join, 0, m, Chain(r, split, 0, split.log, v)) == Doubled(r, Chain(r, split, 0, split.log - m, v), m)
  {
    hide *;
    NetworksOf(r, split, join, p, q);
    if m > 0 {
      JoinsAfterSplits(r, split, join, p, q, m - 1, v);
      var l := split.log - m;
      var w := Chain(r, split, 0, l, v);
      LevelUndone(r, split, join, p, q, l, w);
      ChainTop(r, split, l, v);
      ChainTop(r, join, m - 1, Chain(r, split, 0, split.log, v));
      JumpsMeet(split.log, l, m - 1);
      ButterflyDoubled(r, join.factors[m - 1], Pow2(m - 1), Butterfly(r, split.factors[l], Pow2(m - 1), w), m - 1);
      DoubledTwice(r, w, m - 1);
    } else {
      NoDoubling(r, Chain(r, split, 0, split.log, v));
      ChainNone(r, join, Chain(r, split, 0, split.log, v));
    }
  }

  /** coeff_to_slot after slot_to_coeff. */
  lemma {:induction false} SplitsAfterJoins<C(!new)>(r: Ring<C>, split: Network<C>, join: Network<C>, p: seq<seq<C>>, q: seq<seq<C>>, m: nat, v: seq<C>)
    requires Laws(r) && SplitNetwork(r, split, p) && JoinNetwork(r, join, q) && Opposite(r, p, q) && split.log == join.log && m <= split.log
    requires |v| == Pow2(split.log)
    ensures IsNetwork(split) && IsNetwork(join)
    ensures Chain(r, split, 0, m, Chain(r, join, 0, join.log, v)) == Doubled(r, Chain(r, join, 0, join.log - m, v), m)
  {
    hide *;
    NetworksOf(r, split, join, p, q);
    if m > 0 {
      SplitsAfterJoins(r, split, join, p, q, m - 1, v);
      var l := join.log - m;
      var w := Chain(r, join, 0, l, v);
      LevelUndone(r, split, join, p, q, m - 1, w);
      ChainTop(r, join, l, v);
      ChainTop(r, split, m - 1, Chain(r, join, 0, join.log, v));
      JumpsMeet(split.log, l, m - 1);
      ButterflyDoubled(r, split.factors[m - 1], Pow2(l), Butterfly(r, join.factors[l], Pow2(l), w), m - 1);
      DoubledTwice(r, w, m - 1);
    } else {
      NoDoubling(r, Chain(r, join, 0, join.log, v));
      ChainNone(r, split, Chain(r, join, 0, join.log, v));
    }
  }

  lemma NetworksOf<C>(r: Ring<C>, split: Network<C>, join: Network<C>, p: seq<seq<C>>, q: seq<seq<C>>)
    requires SplitNetwork(r, split, p) && JoinNetwork(r, join, q)
    ensures IsNetwork(split) && IsNetwork(join) && |split.factors| == split.log && |join.factors| == join.log
    ensures split.order == CoeffToSlot && join.order == SlotToCoeff
  {
    hide Splits, Joins;
  }

  lemma ChainTop<C>(r: Ring<C>, net: Network<C>, l: nat, v: seq<C>)
    requires IsNetwork(net) && l < net.log && |v| == Pow2(net.log)
    ensures l < |net.factors| && Sized(net.factors[l], |v|)
    ensures Chain(r, net, 0, l + 1, v) ==
      Butterfly(r, net.factors[l], if net.order == CoeffToSlot then Pow2(net.log - l - 1) else Pow2(l), Chain(r, net, 0, l, v))
  {
    hide Butterfly, Pow2;
  }

  lemma ChainNone<C>(r: Ring<C>, net: Network<C>, v: seq<C>)
    requires IsNetwork(net) && |v| == Pow2(net.log)
    ensures Chain(r, net, 0, 0, v) == v
  {
  }

  lemma NoDoubling<C>(r: Ring<C>, v: seq<C>)
    ensures Doubled(r, v, 0) == v
  {
  }

  lemma JumpsMeet(log: nat, l: nat, m: nat)
    requires l + m + 1 == log
    ensures log - l - 1 == m && log - 1 - l == m && log - m - 1 == l
  {
  }
}
