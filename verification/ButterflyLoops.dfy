/** The baby-step/giant-step loops that apply a stage (src/ckks/engine_bootstrap.cpp). */
module ButterflyLoops {
  import opened Congruence
  import opened Arithmetic
  import opened Rings
  import opened MatrixProduct
  import opened Butterflies
  import opened Stages

  // ---------- the loop counts ----------

  function BitLength(n: nat): nat {
    if n == 0 then 0 else 1 + BitLength(n / 2)
  }

  lemma {:induction false} BitLengthOf(k: nat)
    ensures BitLength(2 * Pow2(k) - 1) == k + 1
  {
    Pow2Double(k);
    if k == 0 {
      assert BitLength(1) == 1 + BitLength(0);
    } else {
      BitLengthOf(k - 1);
      assert (2 * Pow2(k) - 1) / 2 == 2 * Pow2(k - 1) - 1;
    }
  }

  /** The number of binary digits. */
  lemma {:induction false} BitLengthIs(n: nat, b: nat)
    ensures BitLength(n) == b <==> n < Pow2(b) && (b == 0 || Pow2(b - 1) <= n)
  {
    if b > 0 && n > 0 {
      BitLengthIs(n / 2, b - 1);
      Pow2Double(b - 1);
      if b > 1 { Pow2Double(b - 2); }
    }
  }

  /** Without shift the two loops of a stage of radix R = 2^k share out 2R rounds evenly: the inner one gets
      as many as the outer one, or twice as many. */
  lemma LoopsBalanced(k: nat, count: nat, inner: nat, outer: nat)
    requires count == 2 * Pow2(k) - 1 && inner == Pow2((BitLength(count) + 1) / 2 + 0) && outer == (count + 1) / inner
    ensures inner * outer == 2 * Pow2(k) && (inner == outer || inner == 2 * outer)
  {
    BitLengthOf(k);
    Pow2Double(k);
    var a := (k + 2) / 2;
    Pow2Add(a, k + 1 - a);
    ExactQuotient(Pow2(a), Pow2(k + 1 - a));
    if k % 2 == 0 { Pow2Double(k + 1 - a); }
  }

  lemma ExactQuotient(a: int, b: int)
    requires a > 0
    ensures a * b / a == b
  {
    DivModUnique(a * b, b, 0, a);
  }

  /** get_stage_loop_counts. */
  method GetStageLoopCounts(twiddleCount: nat, shift: nat) returns (inner: nat, outer: nat)
    ensures inner == Pow2((BitLength(twiddleCount) + 1) / 2 + shift) >= 1 && outer == (twiddleCount + 1) / inner
  {
    var bitCount, temp := 0, twiddleCount;
    while temp > 0
      invariant bitCount + BitLength(temp) == BitLength(twiddleCount)
    {
      temp := temp / 2;
      bitCount := bitCount + 1;
    }
    inner := Pow2((bitCount + 1) / 2 + shift);
    outer := (twiddleCount + 1) / inner;
  }

  /** The loops visit unit u at (o, i). */
  predicate Visits(inner: nat, outer: nat, o: int, i: int, u: int) {
    0 <= o < outer && (if o == 0 then 1 else 0) <= i < inner && u == inner * (o - outer / 2) + i
  }

  predicate Inside(radix: int, u: int) {
    -radix < u < radix
  }

  ghost predicate IsVisited(inner: nat, outer: nat, u: int) {
    exists o, i :: Visits(inner, outer, o, i, u)
  }

  ghost predicate VisitsExactly(inner: nat, outer: nat, radix: int) {
    forall u :: Inside(radix, u) <==> IsVisited(inner, outer, u)
  }

  lemma VisitsOnce(inner: nat, outer: nat, o: int, i: int, p: int, j: int, u: int)
    requires Visits(inner, outer, o, i, u) && Visits(inner, outer, p, j, u)
    ensures o == p && i == j
  {
    var x := u + inner * (outer / 2);
    TimesMinus(inner, o, outer / 2);
    TimesMinus(inner, p, outer / 2);
    DivModUnique(x, o, i, inner);
    DivModUnique(x, p, j, inner);
  }

  lemma TimesMinus(a: int, b: int, c: int)
    ensures a * (b - c) == a * b - a * c && a * b == b * a
  {
  }

  /** The counts of a stage with 2^(k+1) - 1 diagonals: inner * outer = 2^(k+1) splits evenly around
      zero exactly when the inner count is at most 2^k. */
  lemma CountsSplit(k: nat, shift: nat, inner: nat, outer: nat)
    requires inner == Pow2((k + 2) / 2 + shift) && outer == 2 * Pow2(k) / inner
    ensures inner >= 2
    ensures inner <= Pow2(k) <==> (k + 2) / 2 + shift <= k
    ensures inner <= Pow2(k) ==> inner * (outer / 2) == Pow2(k) && inner * outer == 2 * Pow2(k)
    ensures inner > Pow2(k) ==> outer <= 1
  {
    var e := (k + 2) / 2 + shift;
    Pow2Monotone(1, e);
    Pow2Double(0);
    if e <= k {
      Pow2Monotone(e, k);
      Pow2Add(e, k - e);
      hide Pow2;
      EvenSplit(inner, Pow2(k - e), Pow2(k), outer);
    } else {
      Pow2Monotone(k + 1, e);
      Pow2Double(k);
      hide Pow2;
      AtMostOne(2 * Pow2(k), inner);
    }
  }

  lemma EvenSplit(inner: int, half: int, radix: int, outer: int)
    requires inner >= 1 && radix == inner * half && outer == 2 * radix / inner
    ensures outer == 2 * half && inner * (outer / 2) == radix && inner * outer == 2 * radix
  {
    assert 2 * radix == (2 * half) * inner;
    DivModUnique(2 * radix, 2 * half, 0, inner);
    assert inner * (2 * half) == 2 * (inner * half);
  }

  lemma AtMostOne(a: int, b: int)
    requires 0 <= a <= b && b > 0
    ensures a / b <= 1
  {
    if a < b { DivModUnique(a, 0, a, b); } else { DivModUnique(a, 1, 0, b); }
  }

  /** Skipping (0, 0), the loops visit the units of (-radix, radix) exactly when the inner count is at
      most the radix. */
  lemma VisitsCondition(k: nat, shift: nat, inner: nat, outer: nat)
    requires inner == Pow2((k + 2) / 2 + shift) && outer == 2 * Pow2(k) / inner
    ensures VisitsExactly(inner, outer, Pow2(k)) <==> inner <= Pow2(k)
  {
    CountsSplit(k, shift, inner, outer);
    var radix := Pow2(k);
    hide Pow2;
    if inner <= radix {
      hide *;
      forall u ensures Inside(radix, u) <==> IsVisited(inner, outer, u) { VisitsUnit(inner, outer, radix, u); }
      VisitsAll(inner, outer, radix);
    } else {
      VisitsOther(inner, outer, radix);
    }
  }

  /** Without shift, exactly the stages of at least one level are visited as they should be. */
  lemma UnshiftedVisits(k: nat)
    ensures var inner := Pow2((k + 2) / 2); VisitsExactly(inner, 2 * Pow2(k) / inner, Pow2(k)) <==> k >= 1
  {
    var inner := Pow2((k + 2) / 2);
    var outer := 2 * Pow2(k) / inner;
    hide *;
    CountsSplit(k, 0, inner, outer);
    VisitsCondition(k, 0, inner, outer);
  }

  lemma VisitsAll(inner: nat, outer: nat, radix: int)
    requires forall u :: Inside(radix, u) <==> IsVisited(inner, outer, u)
    ensures VisitsExactly(inner, outer, radix)
  {
  }

  lemma VisitsUnit(inner: nat, outer: nat, radix: int, u: int)
    requires inner >= 1 && inner * (outer / 2) == radix && inner * outer == 2 * radix
    ensures Inside(radix, u) <==> IsVisited(inner, outer, u)
  {
    hide Visits;
    if Inside(radix, u) {
      VisitAt(inner, outer, radix, u);
      assert IsVisited(inner, outer, u);
    }
    if IsVisited(inner, outer, u) {
      var o, i :| Visits(inner, outer, o, i, u);
      VisitInside(inner, outer, radix, o, i, u);
    }
  }

  /** One pass over the outer loop ends at inner - 1, too high; none leaves unit 0 out. */
  lemma VisitsOther(inner: nat, outer: nat, radix: int)
    requires inner > radix >= 1 && inner >= 2 && outer <= 1
    ensures !VisitsExactly(inner, outer, radix)
  {
    if outer == 1 {
      assert inner * 0 == 0;
      assert Visits(inner, outer, 0, inner - 1, inner - 1);
      assert IsVisited(inner, outer, inner - 1) && !Inside(radix, inner - 1);
    } else {
      assert Inside(radix, 0) && !IsVisited(inner, outer, 0);
    }
  }

  lemma VisitAt(inner: nat, outer: nat, radix: int, u: int)
    requires inner >= 1 && inner * (outer / 2) == radix && inner * outer == 2 * radix && -radix < u < radix
    ensures Visits(inner, outer, (u + radix) / inner, (u + radix) % inner, u)
  {
    var l := u + radix;
    var o, i := l / inner, l % inner;
    assert l == inner * o + i;
    TimesMinus(inner, o, outer / 2);
    if o >= outer { AtLeastTimes(o, outer, inner); }
    if o < 0 { AtLeastTimes(-1, o, inner); }
    if o == 0 { assert inner * o == 0; }
  }

  lemma AtLeastTimes(a: int, b: int, c: int)
    requires a >= b && c >= 0
    ensures c * a >= c * b
  {
  }

  lemma VisitInside(inner: nat, outer: nat, radix: int, o: int, i: int, u: int)
    requires inner * (outer / 2) == radix && inner * outer == 2 * radix && Visits(inner, outer, o, i, u)
    ensures -radix < u < radix
  {
    TimesMinus(inner, o, outer / 2);
    AtLeastTimes(outer - 1, o, inner);
    TimesMinus(inner, outer, 1);
    if o > 0 { AtLeastTimes(o, 1, inner); } else { assert inner * o == 0; }
  }

  // ---------- rotating diagonals ----------

  /** rotate_vector; deltas below -2 * count are out of its reach. */
  method RotateVector<C>(input: seq<C>, delta: int, zero: C) returns (result: seq<C>)
    requires delta >= -2 * |input|
    ensures result == Rotate(input, delta)
  {
    if |input| == 0 {
      result := input;
      return;
    }
    var count := |input|;
    var normalizedDelta := (delta + 2 * count) % count;
    result := seq(count, k => zero);
    for index := 0 to count
      invariant |result| == count
      invariant forall j :: 0 <= j < index ==> result[Mod(j + normalizedDelta, count)] == input[j]
    {
      ghost var before := result;
      result := result[(index + normalizedDelta) % count := input[index]];
      forall j | 0 <= j < index + 1 ensures result[Mod(j + normalizedDelta, count)] == input[j] {
        if j < index && Mod(j + normalizedDelta, count) == Mod(index + normalizedDelta, count) {
          SameShift(j, index, normalizedDelta, count);
        }
      }
    }
    forall k | 0 <= k < count ensures result[k] == input[Mod(k - delta, count)] {
      ShiftBack(k, delta, normalizedDelta, count);
    }
  }

  lemma SameShift(i: int, j: int, delta: int, n: int)
    requires 0 <= i < n && 0 <= j < n && Mod(i + delta, n) == Mod(j + delta, n)
    ensures i == j
  {
    hide Mod;
    ModShift(i + delta, -delta, n);
    ModShift(j + delta, -delta, n);
    ModSmall(i, n);
    ModSmall(j, n);
  }

  lemma ShiftBack(k: int, delta: int, normalized: int, n: int)
    requires 0 <= k < n && normalized == (delta + 2 * n) % n
    ensures Mod(Mod(k - delta, n) + normalized, n) == k
  {
    Masked(delta, n);
    assert normalized == Mod(delta + 2 * n, n);
    hide Mod;
    RowSlotBack(k, delta, n);
  }

  lemma RowSlotBack(k: int, delta: int, n: int)
    requires 0 <= k < n
    ensures Mod(Mod(k - delta, n) + Mod(delta, n), n) == k
  {
    hide Mod;
    ModShift(delta, Mod(k - delta, n), n);
    ModShift(k - delta, delta, n);
    ModSmall(k, n);
  }

  // ---------- applying a stage ----------

  ghost predicate HasStage<C>(stage: seq<seq<C>>, n: nat) {
    |stage| > 0 && n > 0 && forall k :: 0 <= k < |stage| ==> |stage[k]| == n
  }

  /** The diagonal of unit u times the vector rotated by u units, at slot s. */
  ghost function UnitTerm<C>(r: Ring<C>, stage: seq<seq<C>>, rotation: int, v: seq<C>, s: int, u: int): C
    requires HasStage(stage, |v|)
  {
    r.mul(At(stage, u, Mod(s, |v|)), v[Mod(s - u * rotation, |v|)])
  }

  ghost function UnitSum<C>(r: Ring<C>, stage: seq<seq<C>>, rotation: int, v: seq<C>, s: int, low: int, high: int): C
    requires HasStage(stage, |v|)
  {
    Sum(r, u => UnitTerm(r, stage, rotation, v, s, u), low, high)
  }

  lemma UnitSumStep<C(!new)>(r: Ring<C>, stage: seq<seq<C>>, rotation: int, v: seq<C>, s: int, low: int, high: int)
    requires Laws(r) && HasStage(stage, |v|) && low <= high
    ensures UnitSum(r, stage, rotation, v, s, low, low) == r.zero
    ensures UnitSum(r, stage, rotation, v, s, low, high + 1) ==
            r.add(UnitSum(r, stage, rotation, v, s, low, high), UnitTerm(r, stage, rotation, v, s, high))
  {
    hide Laws, HasStage, UnitTerm;
  }

  lemma UnitSumSplit<C(!new)>(r: Ring<C>, stage: seq<seq<C>>, rotation: int, v: seq<C>, s: int, low: int, middle: int, high: int)
    requires Laws(r) && HasStage(stage, |v|) && low <= middle <= high
    ensures UnitSum(r, stage, rotation, v, s, low, high) ==
            r.add(UnitSum(r, stage, rotation, v, s, low, middle), UnitSum(r, stage, rotation, v, s, middle, high))
  {
    hide Laws, HasStage, UnitTerm;
    SumSplit(r, u => UnitTerm(r, stage, rotation, v, s, u), low, middle, high);
  }

  /** The product formed in the inner loop, before the outer rotation. */
  lemma InnerProduct<C(!new)>(r: Ring<C>, stage: seq<seq<C>>, rotation: int, v: seq<C>, t: int, base: int, i: int)
    requires Laws(r) && HasStage(stage, |v|) && 0 <= t < |v|
    ensures |stage[Mod(base + i, |stage|)]| == |v|
    ensures r.mul(Rotate(v, rotation * i)[t], Rotate(stage[Mod(base + i, |stage|)], -(base * rotation))[t]) ==
            UnitTerm(r, stage, rotation, v, t + base * rotation, base + i)
  {
    var n := |v|;
    hide Laws, Mod;
    SlotMoves(t, base, i, rotation);
    MulCommutes(r, v[Mod(t - rotation * i, n)], stage[Mod(base + i, |stage|)][Mod(t + base * rotation, n)]);
  }

  lemma SlotMoves(t: int, base: int, i: int, rotation: int)
    ensures t + base * rotation - (base + i) * rotation == t - rotation * i
    ensures t - -(base * rotation) == t + base * rotation
  {
    assert (base + i) * rotation == base * rotation + i * rotation;
  }

  lemma Reach(inner: nat, outer: nat, o: nat, rotation: nat, twiddleCount: nat, n: nat)
    requires inner >= 1 && outer == (twiddleCount + 1) / inner && o < outer && rotation * (twiddleCount + 1) <= 2 * n
    ensures inner * (o - outer / 2) * rotation <= 2 * n && -(inner * (o - outer / 2) * rotation) <= 2 * n
  {
    var base := inner * (o - outer / 2);
    assert inner * outer <= twiddleCount + 1 by { assert inner * outer == outer * inner; }
    AtLeastTimes(outer, o - outer / 2, inner);
    AtLeastTimes(outer, -(o - outer / 2), inner);
    assert inner * -(o - outer / 2) == -base;
    hide *;
    AtLeastTimes(twiddleCount + 1, base, rotation);
    AtLeastTimes(twiddleCount + 1, -base, rotation);
    assert rotation * base == base * rotation && rotation * -base == -(base * rotation);
  }

  /** The units of outer pass o start here; pass 0 skips its first one. */
  function Start(inner: nat, outer: nat, o: int): int {
    inner * (o - outer / 2)
  }

  lemma StartStep(inner: nat, outer: nat, o: int)
    ensures Start(inner, outer, o + 1) == Start(inner, outer, o) + inner
  {
  }

  /** One outer pass, before its rotation. */
  method InnerPass<C(!new)>(r: Ring<C>, rotated: seq<seq<C>>, stage: seq<seq<C>>, rotation: nat, ghost v: seq<C>, inner: nat, outer: nat, o: nat)
    returns (innerSum: seq<C>)
    requires Laws(r) && HasStage(stage, |v|) && inner >= 2 && o < outer == (|stage| + 1) / inner && rotation * (|stage| + 1) <= 2 * |v|
    requires |rotated| == inner && forall i :: 0 <= i < inner ==> rotated[i] == Rotate(v, rotation * i)
    ensures var base := Start(inner, outer, o);
      |innerSum| == |v| && forall t :: 0 <= t < |v| ==>
        innerSum[t] == UnitSum(r, stage, rotation, v, t + base * rotation, if o == 0 then base + 1 else base, base + inner)
  {
    hide *;
    var base := Start(inner, outer, o);
    StartIs(inner, outer, o);
    Reach(inner, outer, o, rotation, |stage|, |v|);
    var first := if o == 0 then 1 else 0;
    innerSum := [];
    for i := first to inner
      invariant i > first ==> |innerSum| == |v| && forall t :: 0 <= t < |v| ==>
        innerSum[t] == UnitSum(r, stage, rotation, v, t + base * rotation, base + first, base + i)
    {
      StageSlot(stage, |v|, base + i);
      var twiddleFactor := RotateVector(stage[Mod(base + i, |stage|)], -(base * rotation), r.zero);
      var multiplied := MultiplySlots(r, rotated[i], twiddleFactor);
      ghost var before := innerSum;
      if i == first {
        innerSum := multiplied;
      } else {
        innerSum := AddSlots(r, innerSum, multiplied);
      }
      forall t | 0 <= t < |v|
        ensures innerSum[t] == UnitSum(r, stage, rotation, v, t + base * rotation, base + first, base + (i + 1))
      {
        InnerProduct(r, stage, rotation, v, t, base, i);
        UnitSumStep(r, stage, rotation, v, t + base * rotation, base + first, base + i);
        SlotProduct(r, rotated[i], twiddleFactor, t);
        if i == first {
          AddZero(r, multiplied[t]);
        } else {
          SlotSum(r, before, multiplied, t);
        }
      }
    }
  }

  lemma StartIs(inner: nat, outer: nat, o: int)
    ensures Start(inner, outer, o) == inner * (o - outer / 2)
  {
  }

  lemma StageSlot<C>(stage: seq<seq<C>>, n: nat, u: int)
    requires HasStage(stage, n)
    ensures |stage| > 0 && n > 0 && |stage[Mod(u, |stage|)]| == n
  {
  }

  lemma SlotProduct<C>(r: Ring<C>, v: seq<C>, w: seq<C>, t: int)
    requires |v| == |w| && 0 <= t < |v|
    ensures MultiplySlots(r, v, w)[t] == r.mul(v[t], w[t])
  {
  }

  lemma SlotSum<C>(r: Ring<C>, v: seq<C>, w: seq<C>, t: int)
    requires |v| == |w| && 0 <= t < |v|
    ensures AddSlots(r, v, w)[t] == r.add(v[t], w[t])
  {
  }

  lemma RotatedBack<C>(r: Ring<C>, stage: seq<seq<C>>, rotation: int, v: seq<C>, w: seq<C>, delta: int, s: int, low: int, high: int)
    requires HasStage(stage, |v|) && |w| == |v| && 0 <= s < |v|
    requires forall t :: 0 <= t < |v| ==> w[t] == UnitSum(r, stage, rotation, v, t + delta, low, high)
    ensures Rotate(w, delta)[s] == UnitSum(r, stage, rotation, v, s, low, high)
  {
    hide UnitSum, Mod, HasStage;
    var t := Mod(s - delta, |v|);
    ModShift(s - delta, delta, |v|);
    SumTurns(r, stage, rotation, v, s, t + delta, low, high);
  }

  lemma {:induction false} SumTurns<C>(r: Ring<C>, stage: seq<seq<C>>, rotation: int, v: seq<C>, s: int, t: int, low: int, high: int)
    requires HasStage(stage, |v|) && Mod(s, |v|) == Mod(t, |v|)
    ensures UnitSum(r, stage, rotation, v, s, low, high) == UnitSum(r, stage, rotation, v, t, low, high)
    decreases high - low
  {
    hide HasStage, Mod;
    if low < high {
      SumTurns(r, stage, rotation, v, s, t, low, high - 1);
      ModShift(s, -((high - 1) * rotation), |v|);
      ModShift(t, -((high - 1) * rotation), |v|);
    }
  }

  /** The units from the first after (0, 0) to the last, added up; nothing without an outer pass. */
  ghost function LoopResult<C>(r: Ring<C>, stage: seq<seq<C>>, rotation: int, v: seq<C>, inner: nat, outer: nat): (w: seq<C>)
    requires HasStage(stage, |v|)
    ensures |w| == if outer == 0 then 0 else |v|
  {
    if outer == 0 then []
    else seq(|v|, s requires 0 <= s < |v| => UnitSum(r, stage, rotation, v, s, Start(inner, outer, 0) + 1, Start(inner, outer, outer)))
  }

  lemma LoopResultFrom<C>(r: Ring<C>, stage: seq<seq<C>>, rotation: int, v: seq<C>, inner: nat, outer: nat, w: seq<C>)
    requires HasStage(stage, |v|) && (outer == 0 ==> w == [])
    requires outer > 0 ==> |w| == |v| && forall s :: 0 <= s < |v| ==>
      w[s] == UnitSum(r, stage, rotation, v, s, Start(inner, outer, 0) + 1, Start(inner, outer, outer))
    ensures w == LoopResult(r, stage, rotation, v, inner, outer)
  {
    hide UnitSum, Start, HasStage;
  }

  lemma LoopResultAt<C>(r: Ring<C>, stage: seq<seq<C>>, rotation: int, v: seq<C>, inner: nat, outer: nat, s: int)
    requires HasStage(stage, |v|) && outer > 0 && 0 <= s < |v|
    ensures |LoopResult(r, stage, rotation, v, inner, outer)| == |v|
    ensures LoopResult(r, stage, rotation, v, inner, outer)[s] ==
            UnitSum(r, stage, rotation, v, s, Start(inner, outer, 0) + 1, Start(inner, outer, outer))
  {
    hide UnitSum, Start, HasStage;
  }

  /** apply_butterfly: what the two loops add up, for any stage and any loop counts. */
  method ApplyButterfly<C(!new)>(r: Ring<C>, v: seq<C>, stage: seq<seq<C>>, rotation: nat, shift: nat)
    returns (outerSum: seq<C>, inner: nat, outer: nat)
    requires Laws(r) && HasStage(stage, |v|) && rotation * (|stage| + 1) <= 2 * |v|
    ensures inner == Pow2((BitLength(|stage|) + 1) / 2 + shift) && inner >= 2 && outer == (|stage| + 1) / inner
    ensures outerSum == LoopResult(r, stage, rotation, v, inner, outer)
  {
    hide *;
    inner, outer := GetStageLoopCounts(|stage|, shift);
    StageSlot(stage, |v|, 0);
    InnerAtLeastTwo(|stage|, shift);
    var rotated := seq(inner, i requires 0 <= i < inner => Rotate(v, rotation * i));
    ghost var low := Start(inner, outer, 0) + 1;
    outerSum := [];
    for o := 0 to outer
      invariant o == 0 ==> outerSum == []
      invariant o > 0 ==> |outerSum| == |v| && low <= Start(inner, outer, o) && forall s :: 0 <= s < |v| ==>
        outerSum[s] == UnitSum(r, stage, rotation, v, s, low, Start(inner, outer, o))
    {
      ghost var base := Start(inner, outer, o);
      StartIs(inner, outer, o);
      StartStep(inner, outer, o);
      var innerSum := InnerPass(r, rotated, stage, rotation, v, inner, outer, o);
      var passed := Rotate(innerSum, inner * (o - outer / 2) * rotation);
      ghost var before := outerSum;
      if o == 0 {
        outerSum := passed;
      } else {
        outerSum := AddSlots(r, outerSum, passed);
      }
      forall s | 0 <= s < |v| ensures outerSum[s] == UnitSum(r, stage, rotation, v, s, low, Start(inner, outer, o + 1)) {
        RotatedBack(r, stage, rotation, v, innerSum, base * rotation, s, if o == 0 then base + 1 else base, base + inner);
        if o > 0 {
          UnitSumSplit(r, stage, rotation, v, s, low, base, base + inner);
          SlotSum(r, before, passed, s);
        }
      }
    }
    LoopResultFrom(r, stage, rotation, v, inner, outer, outerSum);
  }

  lemma InnerAtLeastTwo(n: nat, shift: nat)
    requires n > 0
    ensures Pow2((BitLength(n) + 1) / 2 + shift) >= 2
  {
    Pow2Monotone(1, (BitLength(n) + 1) / 2 + shift);
    Pow2Double(0);
  }

  // ---------- all stages through the loops ----------

  lemma UnitSumIsAct<C(!new)>(r: Ring<C>, g: Geometry, stage: seq<seq<C>>, rotation: int, v: seq<C>, s: int)
    requires IsStage(stage, g) && HasStage(stage, |v|) && g.count == g.radix && g.spacing == 1 && |v| == g.n
    ensures UnitSum(r, stage, rotation, v, s, -g.radix + 1, g.radix) == Act(r, HatOf(r, g, stage), g.radix, rotation, v, s)
  {
    hide *;
    var d := HatOf(r, g, stage);
    var f := u => UnitTerm(r, stage, rotation, v, s, u);
    StageSlot(stage, |v|, 0);
    forall u | -g.radix + 1 <= u < g.radix ensures f(u) == Terms(r, d, rotation, v, s, 0)(u) {
      TermAt(r, d, rotation, v, s, 0, u);
      InRangeTerm(r, g, stage, rotation, v, s, u);
    }
    SumSame(r, f, Terms(r, d, rotation, v, s, 0), -g.radix + 1, g.radix);
    ActIs(r, d, g.radix, rotation, v, s);
    UnitSumIs(r, stage, rotation, v, s, -g.radix + 1, g.radix);
  }

  lemma UnitSumIs<C>(r: Ring<C>, stage: seq<seq<C>>, rotation: int, v: seq<C>, s: int, low: int, high: int)
    requires HasStage(stage, |v|)
    ensures UnitSum(r, stage, rotation, v, s, low, high) == Sum(r, u => UnitTerm(r, stage, rotation, v, s, u), low, high)
  {
    hide UnitTerm, HasStage;
  }

  lemma InRangeTerm<C(!new)>(r: Ring<C>, g: Geometry, stage: seq<seq<C>>, rotation: int, v: seq<C>, s: int, u: int)
    requires IsStage(stage, g) && HasStage(stage, |v|) && g.count == g.radix && g.spacing == 1 && |v| == g.n && -g.radix < u < g.radix
    ensures UnitTerm(r, stage, rotation, v, s, u) == ActTerm(r, HatOf(r, g, stage), rotation, v, s, u)
  {
    hide Mod, At;
  }

  lemma HasStageFrom<C>(stage: seq<seq<C>>, g: Geometry)
    requires IsStage(stage, g) && g.n > 0
    ensures HasStage(stage, g.n) && |stage| == 2 * g.radix - 1
  {
  }

  /** Whenever the inner loop is no longer than the radix, the loops apply the stage's matrix. */
  lemma ShortLoops<C(!new)>(r: Ring<C>, g: Geometry, k: nat, shift: nat, stage: seq<seq<C>>, rotation: int, v: seq<C>, inner: nat, outer: nat)
    requires IsStage(stage, g) && HasStage(stage, |v|) && g.radix == g.count == Pow2(k) && g.spacing == 1 && |v| == g.n > 0
    requires inner == Pow2((k + 2) / 2 + shift) && inner <= Pow2(k) && outer == 2 * Pow2(k) / inner
    ensures LoopResult(r, stage, rotation, v, inner, outer) == Applied(r, stage, g, rotation, v)
  {
    hide *;
    CountsSplit(k, shift, inner, outer);
    StartEnds(inner, outer, g.radix);
    forall s | 0 <= s < |v|
      ensures |LoopResult(r, stage, rotation, v, inner, outer)| == |v| &&
        LoopResult(r, stage, rotation, v, inner, outer)[s] == Applied(r, stage, g, rotation, v)[s]
    {
      LoopResultAt(r, stage, rotation, v, inner, outer, s);
      UnitSumIsAct(r, g, stage, rotation, v, s);
      AppliedAt(r, stage, g, rotation, v, s);
      ModSmall(s, |v|);
    }
  }

  lemma StartEnds(inner: nat, outer: nat, radix: int)
    requires inner * (outer / 2) == radix && inner * outer == 2 * radix && inner >= 1 && radix >= 1
    ensures Start(inner, outer, 0) == -radix && Start(inner, outer, outer) == radix && outer > 0
  {
    TimesMinus(inner, 0, outer / 2);
    TimesMinus(inner, outer, outer / 2);
    assert inner * 0 == 0;
  }

  /** A unit and the one a whole stage of diagonals further name the same diagonal. */
  lemma UnitTurn<C(!new)>(r: Ring<C>, stage: seq<seq<C>>, rotation: int, v: seq<C>, s: int, u: int)
    requires HasStage(stage, |v|) && Mod(|stage| * rotation, |v|) == 0
    ensures UnitTerm(r, stage, rotation, v, s, u + |stage|) == UnitTerm(r, stage, rotation, v, s, u)
  {
    var t, n := |stage|, |v|;
    FromQuotient(u + t, u, t, 1);
    ModTurn(u + t, u, t);
    assert (u + t) * rotation == u * rotation + t * rotation;
    Residue(t * rotation, n);
    hide Cong, Mod;
    Refl(s - u * rotation, n);
    Sub(s - u * rotation, s - u * rotation, t * rotation, 0, n);
    ModTurn(s - u * rotation - t * rotation, s - u * rotation, n);
  }

  /** With a single outer pass of twice the radix, the units below zero are visited a whole stage further
      up; this does no harm if that rotation is a full turn. */
  lemma LongLoops<C(!new)>(r: Ring<C>, g: Geometry, stage: seq<seq<C>>, rotation: int, v: seq<C>, inner: nat, outer: nat)
    requires Laws(r) && IsStage(stage, g) && HasStage(stage, |v|) && g.radix == g.count && g.spacing == 1 && |v| == g.n > 0
    requires inner == 2 * g.radix && outer == 1 && Mod((2 * g.radix - 1) * rotation, |v|) == 0
    ensures LoopResult(r, stage, rotation, v, inner, outer) == Applied(r, stage, g, rotation, v)
  {
    hide *;
    HasStageFrom(stage, g);
    OnePass(inner);
    var radix, t := g.radix, |stage|;
    forall s | 0 <= s < |v|
      ensures LoopResult(r, stage, rotation, v, inner, outer)[s] == Applied(r, stage, g, rotation, v)[s]
    {
      LoopResultAt(r, stage, rotation, v, inner, outer, s);
      var f := u => UnitTerm(r, stage, rotation, v, s, u);
      forall u | -radix + 1 <= u < 1 ensures f(u) == f(u + t) { UnitTurn(r, stage, rotation, v, s, u); }
      SumShift(r, f, f, -radix + 1, 1, t);
      SumSplit(r, f, 1, radix, 2 * radix);
      SumSplit(r, f, -radix + 1, 1, radix);
      AddCommutes(r, Sum(r, f, 1, radix), Sum(r, f, -radix + 1, 1));
      UnitSumIs(r, stage, rotation, v, s, 1, 2 * radix);
      UnitSumIs(r, stage, rotation, v, s, -radix + 1, radix);
      UnitSumIsAct(r, g, stage, rotation, v, s);
      AppliedAt(r, stage, g, rotation, v, s);
      ModSmall(s, |v|);
    }
    LoopResultAt(r, stage, rotation, v, inner, outer, 0);
  }

  lemma OnePass(inner: nat)
    ensures Start(inner, 1, 0) == 0 && Start(inner, 1, 1) == inner
  {
    assert inner * 0 == 0 && inner * 1 == inner;
  }

  // ---------- when the loops are right ----------

  ghost predicate LoopsAreRight<C(!new)>(r: Ring<C>, g: Geometry, rotation: int, inner: nat, outer: nat)
    requires g.n > 0
  {
    forall stage: seq<seq<C>>, v: seq<C> {:trigger LoopResult(r, stage, rotation, v, inner, outer)} ::
      IsStage(stage, g) && HasStage(stage, |v|) && |v| == g.n ==>
        LoopResult(r, stage, rotation, v, inner, outer) == Applied(r, stage, g, rotation, v)
  }

  /** The loops apply the matrix of every stage to every vector exactly if the inner loop is no longer
      than the radix, or it is the only pass and a whole stage of rotations is a full turn. */
  lemma LoopsExact<C(!new)>(r: Ring<C>, g: Geometry, k: nat, shift: nat, rotation: int, inner: nat, outer: nat)
    requires Laws(r) && r.one != r.zero && g.radix == g.count == Pow2(k) && g.spacing == 1 && g.n > 0
    requires inner == Pow2((k + 2) / 2 + shift) && outer == 2 * Pow2(k) / inner
    ensures LoopsAreRight(r, g, rotation, inner, outer) <==>
            inner <= Pow2(k) || (outer == 1 && Mod((2 * Pow2(k) - 1) * rotation, g.n) == 0)
  {
    hide *;
    CountsAbove(k, shift, inner, outer);
    if inner <= Pow2(k) {
      ShortAreRight(r, g, k, shift, rotation, inner, outer);
    } else if outer == 1 && Mod((2 * Pow2(k) - 1) * rotation, g.n) == 0 {
      LongAreRight(r, g, rotation, inner, outer);
    } else {
      LoopsDiffer(r, g, rotation, inner, outer);
      NotRight(r, g, rotation, inner, outer);
    }
  }

  lemma ShortAreRight<C(!new)>(r: Ring<C>, g: Geometry, k: nat, shift: nat, rotation: int, inner: nat, outer: nat)
    requires g.radix == g.count == Pow2(k) && g.spacing == 1 && g.n > 0
    requires inner == Pow2((k + 2) / 2 + shift) && inner <= Pow2(k) && outer == 2 * Pow2(k) / inner
    ensures LoopsAreRight(r, g, rotation, inner, outer)
  {
    hide Pow2, IsStage, HasStage, LoopResult, Applied;
    forall stage: seq<seq<C>>, v: seq<C> | IsStage(stage, g) && HasStage(stage, |v|) && |v| == g.n
      ensures LoopResult(r, stage, rotation, v, inner, outer) == Applied(r, stage, g, rotation, v)
    {
      ShortLoops(r, g, k, shift, stage, rotation, v, inner, outer);
    }
  }

  lemma LongAreRight<C(!new)>(r: Ring<C>, g: Geometry, rotation: int, inner: nat, outer: nat)
    requires Laws(r) && g.radix == g.count && g.spacing == 1 && g.n > 0
    requires inner == 2 * g.radix && outer == 1 && Mod((2 * g.radix - 1) * rotation, g.n) == 0
    ensures LoopsAreRight(r, g, rotation, inner, outer)
  {
    hide Laws, Mod, IsStage, HasStage, LoopResult, Applied;
    forall stage: seq<seq<C>>, v: seq<C> | IsStage(stage, g) && HasStage(stage, |v|) && |v| == g.n
      ensures LoopResult(r, stage, rotation, v, inner, outer) == Applied(r, stage, g, rotation, v)
    {
      LongLoops(r, g, stage, rotation, v, inner, outer);
    }
  }

  lemma NotRight<C(!new)>(r: Ring<C>, g: Geometry, rotation: int, inner: nat, outer: nat)
    requires g.radix >= 1 && g.n > 0
    requires LoopResult(r, SingleDiagonal(r, g), rotation, SingleSlot(r, g.n), inner, outer) !=
             Applied(r, SingleDiagonal(r, g), g, rotation, SingleSlot(r, g.n))
    ensures !LoopsAreRight(r, g, rotation, inner, outer)
  {
    hide IsStage, HasStage, LoopResult, Applied, SingleDiagonal, SingleSlot;
  }

  lemma CountsAbove(k: nat, shift: nat, inner: nat, outer: nat)
    requires inner == Pow2((k + 2) / 2 + shift) && outer == 2 * Pow2(k) / inner
    ensures Pow2(k) >= 1 && (inner > Pow2(k) ==> outer == 0 || (outer == 1 && inner == 2 * Pow2(k)))
  {
    var e := (k + 2) / 2 + shift;
    Pow2Double(k);
    Pow2Double(k + 1);
    if e <= k {
      Pow2Monotone(e, k);
    } else if e == k + 1 {
      hide Pow2;
      DivModUnique(2 * Pow2(k), 1, 0, inner);
    } else {
      Pow2Monotone(k + 2, e);
      hide Pow2;
      DivModUnique(2 * Pow2(k), 0, 2 * Pow2(k), inner);
    }
  }

  /** One at unit 0, nothing elsewhere: the identity. */
  ghost function SingleDiagonal<C>(r: Ring<C>, g: Geometry): (stage: seq<seq<C>>)
    requires g.radix >= 1 && g.n > 0
    ensures IsStage(stage, g) && HasStage(stage, g.n)
  {
    seq(2 * g.radix - 1, i => seq(g.n, s => if i == 0 then r.one else r.zero))
  }

  ghost function SingleSlot<C>(r: Ring<C>, n: nat): (v: seq<C>)
    ensures |v| == n
  {
    seq(n, s => if s == 0 then r.one else r.zero)
  }

  /** What the loops make of slot 0 of the single slot under the identity. */
  lemma LoopsDiffer<C(!new)>(r: Ring<C>, g: Geometry, rotation: int, inner: nat, outer: nat)
    requires Laws(r) && r.one != r.zero && g.radix == g.count >= 1 && g.spacing == 1 && g.n > 0
    requires outer == 0 || (outer == 1 && inner == 2 * g.radix && Mod((2 * g.radix - 1) * rotation, g.n) != 0)
    ensures LoopResult(r, SingleDiagonal(r, g), rotation, SingleSlot(r, g.n), inner, outer) !=
            Applied(r, SingleDiagonal(r, g), g, rotation, SingleSlot(r, g.n))
  {
    hide *;
    if outer == 1 {
      var stage, v, t := SingleDiagonal(r, g), SingleSlot(r, g.n), 2 * g.radix - 1;
      OnePass(inner);
      LoopResultAt(r, stage, rotation, v, inner, outer, 0);
      var f := u => UnitTerm(r, stage, rotation, v, 0, u);
      forall u | 1 <= u < t ensures f(u) == r.zero { SingleTermZero(r, g, rotation, u); }
      UnitSumIs(r, stage, rotation, v, 0, 1, 2 * g.radix);
      SumSplit(r, f, 1, t, t + 1);
      SumZero(r, f, 1, t);
      SumFirst(r, f, t, t + 1);
      SumZero(r, f, t + 1, t + 1);
      SingleTermLast(r, g, rotation);
      AddZero(r, r.zero);
      forall u | -g.radix < u < g.radix && u != 0 ensures f(u) == r.zero { SingleTermZero(r, g, rotation, u); }
      SingleTermCenter(r, g, rotation);
      SumSplit(r, f, -g.radix + 1, 0, g.radix);
      SumFirst(r, f, 0, g.radix);
      SumZero(r, f, -g.radix + 1, 0);
      SumZero(r, f, 1, g.radix);
      AddZero(r, r.one);
      UnitSumIs(r, stage, rotation, v, 0, -g.radix + 1, g.radix);
      UnitSumIsAct(r, g, stage, rotation, v, 0);
      AppliedAt(r, stage, g, rotation, v, 0);
      ModSmall(0, g.n);
    }
  }

  lemma SingleTermZero<C(!new)>(r: Ring<C>, g: Geometry, rotation: int, u: int)
    requires Laws(r) && g.radix >= 1 && g.n > 0 && u != 0 && -(2 * g.radix - 1) < u < 2 * g.radix - 1
    ensures UnitTerm(r, SingleDiagonal(r, g), rotation, SingleSlot(r, g.n), 0, u) == r.zero
  {
    hide Laws;
    var t := 2 * g.radix - 1;
    if u > 0 { DivModUnique(u, 0, u, t); } else { DivModUnique(u, -1, u + t, t); }
    MulZero(r, SingleSlot(r, g.n)[Mod(0 - u * rotation, g.n)]);
  }

  lemma SingleTermCenter<C(!new)>(r: Ring<C>, g: Geometry, rotation: int)
    requires Laws(r) && g.radix >= 1 && g.n > 0
    ensures UnitTerm(r, SingleDiagonal(r, g), rotation, SingleSlot(r, g.n), 0, 0) == r.one
  {
    hide Laws;
    assert 0 * rotation == 0;
    MulOne(r, r.one);
  }

  lemma SingleTermLast<C(!new)>(r: Ring<C>, g: Geometry, rotation: int)
    requires Laws(r) && g.radix >= 1 && g.n > 0 && Mod((2 * g.radix - 1) * rotation, g.n) != 0
    ensures UnitTerm(r, SingleDiagonal(r, g), rotation, SingleSlot(r, g.n), 0, 2 * g.radix - 1) == r.zero
  {
    hide Laws, Mod;
    LastPlace(2 * g.radix - 1);
    NegatedMod((2 * g.radix - 1) * rotation, g.n);
    MulZero(r, SingleDiagonal(r, g)[0][0]);
  }

  lemma LastPlace(t: int)
    requires t > 0
    ensures Mod(t, t) == 0 && Mod(0, t) == 0
  {
    DivModUnique(t, 1, 0, t);
  }

  lemma NegatedMod(x: int, n: int)
    requires n > 0 && Mod(x, n) != 0
    ensures Mod(0 - x, n) != 0 && Mod(0, n) == 0
  {
    if Mod(0 - x, n) == 0 {
      var k := (0 - x) / n;
      assert 0 - x == k * n;
      NegatedMultiple(x, k, n);
    }
  }

  lemma NegatedMultiple(x: int, k: int, n: int)
    requires n > 0 && 0 - x == k * n
    ensures Mod(x, n) == 0
  {
    TimesNegated(k, n);
    DivModUnique(x, -k, 0, n);
  }

  lemma Exceeds(a: nat, b: nat, q: nat)
    requires 0 < b <= a && q == a / b
    ensures q >= 1
  {
    var rest := a % b;
    assert a == b * q + rest;
  }

  lemma QuotientPositive(a: nat, b: nat)
    requires 0 < b <= a
    ensures a / b >= 1
  {
    Exceeds(a, b, a / b);
  }

  lemma UnitReach(order: Order, log: nat, low: nat, k: nat)
    requires low + k <= log
    ensures Unit(order, log, low, low + k) * Pow2(k) <= Pow2(log) && Unit(order, log, low, low + k) >= 1
  {
    hide *;
    UnitIs(order, log, low, k);
    PowProduct(log - low - k, k, log);
    PowProduct(low, k, log);
  }

  lemma PowProduct(e: nat, k: nat, log: nat)
    requires e + k <= log
    ensures Pow2(e) * Pow2(k) <= Pow2(log)
  {
    hide *;
    Pow2Add(e, k);
    Pow2Monotone(e + k, log);
  }

  lemma UnitIs(order: Order, log: nat, low: nat, k: nat)
    requires low + k <= log
    ensures Unit(order, log, low, low + k) == match order case CoeffToSlot => Pow2(log - low - k) case SlotToCoeff => Pow2(low)
  {
  }

  /** One stage of coeff_to_slot or slot_to_coeff. */
  method StageThroughLoops<C(!new)>(r: Ring<C>, net: Network<C>, v: seq<C>, stages: seq<seq<seq<C>>>, i: nat, ghost low: nat, ghost k: nat, rotateCount: nat)
    returns (w: seq<C>)
    requires Laws(r) && IsNetwork(net) && i < |stages| && |v| == Pow2(net.log) && low + k <= net.log
    requires low == Bound(net.order, i, |stages|, net.log) && k == LogRadixCount(net.order, i, |stages|, net.log)
    requires IsStage(stages[i], Shape(net.order, net.log, low, k, k)) && rotateCount == Unit(net.order, net.log, low, low + k)
    ensures |w| == |v| && OneStage(r, net, stages, i, v, w)
  {
    hide *;
    ghost var g := Shape(net.order, net.log, low, k, k);
    ShapeSizes(net.order, net.log, low, k, k);
    HasStageFrom(stages[i], g);
    UnitReach(net.order, net.log, low, k);
    DoubleReach(rotateCount, Pow2(k), Pow2(net.log));
    var inner, outer;
    w, inner, outer := ApplyButterfly(r, v, stages[i], rotateCount, 0);
    UnshiftedCounts(k, inner, outer, |stages[i]|);
    if k >= 1 {
      ShortLoops(r, g, k, 0, stages[i], rotateCount, v, inner, outer);
    } else {
      Pow2Zero();
      FullTurn(net.order, i, |stages|, net.log);
      LongLoops(r, g, stages[i], rotateCount, v, inner, outer);
    }
    OneStageFrom(r, net, stages, i, low, k, v, w);
  }

  /** A stage without levels comes before the first level or after the last, where its unit of rotation is
      all slots. */
  lemma FullTurn(order: Order, i: nat, count: nat, log: nat)
    requires i < count && LogRadixCount(order, i, count, log) == 0
    ensures var low := Bound(order, i, count, log);
      low <= log && Mod((2 * 1 - 1) * Unit(order, log, low, low), Pow2(log)) == 0
  {
    hide *;
    BoundInside(order, i, count, log);
    EmptyBound(order, i, count, log);
    EmptyUnit(order, log, Bound(order, i, count, log));
    FullMod(Pow2(log));
  }

  lemma EmptyBound(order: Order, i: nat, count: nat, log: nat)
    requires i < count && LogRadixCount(order, i, count, log) == 0
    ensures Bound(order, i, count, log) == match order case CoeffToSlot => 0 case SlotToCoeff => log
  {
    NoneEach(order, i, count, log);
    BoundIs(order, i, count, log, 0, log);
    hide Bound;
    TimesCommute(i, 0);
    EmptyIndex(order, i, count, log);
  }

  lemma EmptyIndex(order: Order, i: nat, count: nat, log: nat)
    requires i < count && LogRadixCount(order, i, count, log) == 0 && log / count == 0 && log % count == log
    ensures match order case CoeffToSlot => i < count - log case SlotToCoeff => i >= log
  {
  }

  lemma EmptyUnit(order: Order, log: nat, low: nat)
    requires low <= log && low == match order case CoeffToSlot => 0 case SlotToCoeff => log
    ensures Unit(order, log, low, low) == Pow2(log)
  {
  }

  lemma FullMod(n: int)
    requires n > 0
    ensures Mod((2 * 1 - 1) * n, n) == 0
  {
    DivModUnique(n, 1, 0, n);
  }

  lemma NoneEach(order: Order, i: nat, count: nat, log: nat)
    requires i < count && LogRadixCount(order, i, count, log) == 0
    ensures log / count == 0 && log % count == log
  {
    assert log == count * (log / count) + log % count;
    assert count * 0 == 0;
  }

  lemma DoubleReach(a: int, b: int, c: int)
    requires a * b <= c
    ensures a * (2 * b - 1 + 1) <= 2 * c
  {
    assert a * (2 * b) == 2 * (a * b);
  }

  lemma UnshiftedCounts(k: nat, inner: nat, outer: nat, count: nat)
    requires count == 2 * Pow2(k) - 1 && inner == Pow2((BitLength(count) + 1) / 2 + 0) && outer == (count + 1) / inner
    ensures inner == Pow2((k + 2) / 2 + 0) && outer == 2 * Pow2(k) / inner && outer > 0
    ensures if k >= 1 then inner <= Pow2(k) else outer == 1 && inner == 2
  {
    BitLengthOf(k);
    Pow2Monotone((k + 2) / 2, k + 1);
    Pow2Double(k);
    Pow2Double(0);
    if k >= 1 { Pow2Monotone((k + 2) / 2, k); }
    hide Pow2;
    QuotientPositive(count + 1, inner);
  }

  lemma OneStageFrom<C(!new)>(r: Ring<C>, net: Network<C>, stages: seq<seq<seq<C>>>, i: nat, low: nat, k: nat, v: seq<C>, w: seq<C>)
    requires IsNetwork(net) && i < |stages| && |v| == Pow2(net.log) && low + k <= net.log
    requires low == Bound(net.order, i, |stages|, net.log) && k == LogRadixCount(net.order, i, |stages|, net.log)
    requires IsStage(stages[i], Shape(net.order, net.log, low, k, k))
    requires var g := Shape(net.order, net.log, low, k, k);
      |v| == g.n && g.n > 0 && w == Applied(r, stages[i], g, Unit(net.order, net.log, low, low + k), v)
    ensures OneStage(r, net, stages, i, v, w)
  {
    hide *;
    FinalIs(net, |stages|, i, low, k);
    OneStageDef(r, net, stages, i, v, w);
  }

  lemma FinalIs<C>(net: Network<C>, count: nat, i: nat, low: nat, k: nat)
    requires i < count && low == Bound(net.order, i, count, net.log) && k == LogRadixCount(net.order, i, count, net.log) && low + k <= net.log
    ensures FinalShape(net, count, i) == Shape(net.order, net.log, low, k, k)
    ensures FinalUnit(net, count, i) == Unit(net.order, net.log, low, low + k)
  {
    hide Shape, Unit, Bound, LogRadixCount;
    BoundInside(net.order, i, count, net.log);
  }

  lemma OneStageDef<C>(r: Ring<C>, net: Network<C>, stages: seq<seq<seq<C>>>, i: nat, v: seq<C>, w: seq<C>)
    requires i < |stages| && IsStage(stages[i], FinalShape(net, |stages|, i)) && |v| == FinalShape(net, |stages|, i).n > 0
    requires w == Applied(r, stages[i], FinalShape(net, |stages|, i), FinalUnit(net, |stages|, i), v)
    ensures OneStage(r, net, stages, i, v, w)
  {
    hide FinalShape, FinalUnit, IsStage, Applied;
  }

  lemma DescendingUnit(log: nat, low: nat, k: nat)
    requires low + k <= log
    ensures Pow2(log - low) / Pow2(k) == Pow2(log - low - k) == Unit(Order.CoeffToSlot, log, low, low + k)
  {
    Pow2Add(log - low - k, k);
    hide Pow2;
    assert Pow2(log - low) == Pow2(k) * Pow2(log - low - k) by { TimesMinus(Pow2(k), Pow2(log - low - k), 0); }
    Exact(Pow2(log - low), Pow2(k), Pow2(log - low - k));
  }

  /** The loop of coeff_to_slot: all butterflies of the network, then the constant. */
  method CoeffToSlot<C(!new)>(r: Ring<C>, net: Network<C>, v: seq<C>, stages: seq<seq<seq<C>>>, ghost c: C) returns (current: seq<C>)
    requires Laws(r) && IsNetwork(net) && net.order == Order.CoeffToSlot && |stages| > 0 && |v| == Pow2(net.log)
    requires forall i :: 0 <= i < |stages| ==> Computed(r, net, |stages|, i, c, stages[i])
    ensures |current| == |v|
    ensures current == Scaled(r, c, Chain(r, net, 0, net.log, v))
  {
    hide *;
    var count := |stages|;
    var rotateCount: nat := |v|;
    current := v;
    ghost var vs := [v];
    ghost var low: nat := 0;
    StagesCover(net.order, count, net.log);
    for i := 0 to count
      invariant low == Bound(net.order, i, count, net.log) <= net.log && rotateCount == Pow2(net.log - low)
      invariant |current| == |v| && |vs| == i + 1 && vs[0] == v && vs[i] == current
      invariant forall j :: 0 <= j < i ==> OneStage(r, net, stages, j, vs[j], vs[j + 1])
    {
      var logRadixCount := LogRadixCount(net.order, i, count, net.log);
      ComputedIs(r, net, count, i, c, stages[i]);
      ComputesStage(r, net, low, logRadixCount, if i == count - 1 then c else r.one, stages[i]);
      DescendingUnit(net.log, low, logRadixCount);
      rotateCount := rotateCount / Pow2(logRadixCount);
      current := StageThroughLoops(r, net, current, stages, i, low, logRadixCount, rotateCount);
      vs := vs + [current];
      low := low + logRadixCount;
    }
    StepsFrom(r, net, stages, vs);
    AllStages(r, net, stages, c, vs);
  }

  lemma StepsFrom<C>(r: Ring<C>, net: Network<C>, stages: seq<seq<seq<C>>>, vs: seq<seq<C>>)
    requires |vs| == |stages| + 1 && forall j :: 0 <= j < |stages| ==> OneStage(r, net, stages, j, vs[j], vs[j + 1])
    ensures Steps(r, net, stages, vs)
  {
  }

  /** The loop of slot_to_coeff. */
  method SlotToCoeff<C(!new)>(r: Ring<C>, net: Network<C>, v: seq<C>, stages: seq<seq<seq<C>>>) returns (current: seq<C>)
    requires Laws(r) && IsNetwork(net) && net.order == Order.SlotToCoeff && |stages| > 0 && |v| == Pow2(net.log)
    requires forall i :: 0 <= i < |stages| ==> Computed(r, net, |stages|, i, r.one, stages[i])
    ensures |current| == |v|
    ensures current == Chain(r, net, 0, net.log, v)
  {
    hide *;
    var count := |stages|;
    var rotateCount: nat := 1;
    current := v;
    ghost var vs := [v];
    ghost var low: nat := 0;
    StagesCover(net.order, count, net.log);
    Pow2Zero();
    for i := 0 to count
      invariant low == Bound(net.order, i, count, net.log) <= net.log && rotateCount == Pow2(low)
      invariant |current| == |v| && |vs| == i + 1 && vs[0] == v && vs[i] == current
      invariant forall j :: 0 <= j < i ==> OneStage(r, net, stages, j, vs[j], vs[j + 1])
    {
      var logRadixCount := LogRadixCount(net.order, i, count, net.log);
      ComputedIs(r, net, count, i, r.one, stages[i]);
      ComputesStage(r, net, low, logRadixCount, r.one, stages[i]);
      AscendingUnit(net.log, low, logRadixCount);
      current := StageThroughLoops(r, net, current, stages, i, low, logRadixCount, rotateCount);
      rotateCount := rotateCount * Pow2(logRadixCount);
      vs := vs + [current];
      low := low + logRadixCount;
    }
    StepsFrom(r, net, stages, vs);
    AllStages(r, net, stages, r.one, vs);
    ScaledOne(r, Chain(r, net, 0, net.log, v));
  }

  lemma AscendingUnit(log: nat, low: nat, k: nat)
    requires low + k <= log
    ensures Pow2(low) * Pow2(k) == Pow2(low + k) && Unit(Order.SlotToCoeff, log, low, low + k) == Pow2(low)
  {
    Pow2Add(low, k);
  }
}
