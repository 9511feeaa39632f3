/** The bootstrapping transforms as a few fused stages (src/operation/bootstrap.cpp and bootstrap.h). */
module Stages {
  import opened Congruence
  import opened Arithmetic
  import opened Rings
  import opened MatrixProduct
  import opened Butterflies

  // ---------- networks of radix-2 butterflies ----------

  datatype Order = CoeffToSlot | SlotToCoeff

  /** log butterflies on 2^log slots. */
  datatype Network<C> = Network(order: Order, log: nat, factors: seq<Factor<C>>)

  ghost predicate IsNetwork<C>(net: Network<C>) {
    |net.factors| == net.log && forall l :: 0 <= l < net.log ==> Sized(net.factors[l], Pow2(net.log))
  }

  /** How far the butterfly of a level reaches: halving from slots / 2, or doubling from 1. */
  function Jump(order: Order, log: nat, level: nat): int
    requires level < log
  {
    match order
    case CoeffToSlot => Pow2(log - level - 1)
    case SlotToCoeff => Pow2(level)
  }

  /** The butterflies of levels low up to high, one after another. */
  ghost function Chain<C>(r: Ring<C>, net: Network<C>, low: nat, high: nat, v: seq<C>): (w: seq<C>)
    requires IsNetwork(net) && high <= net.log && |v| == Pow2(net.log)
    ensures |w| == |v|
    decreases high
  {
    if high <= low then v
    else Butterfly(r, net.factors[high - 1], Jump(net.order, net.log, high - 1), Chain(r, net, low, high - 1, v))
  }

  lemma {:induction false} ChainSplit<C>(r: Ring<C>, net: Network<C>, low: nat, middle: nat, high: nat, v: seq<C>)
    requires IsNetwork(net) && low <= middle <= high <= net.log && |v| == Pow2(net.log)
    ensures Chain(r, net, low, high, v) == Chain(r, net, middle, high, Chain(r, net, low, middle, v))
    decreases high
  {
    hide IsNetwork, Butterfly, Jump, Pow2;
    if middle < high { ChainSplit(r, net, low, middle, high - 1, v); }
  }

  // ---------- the shapes of the steps of a stage ----------

  /** The unit of rotation of the stage that holds levels low up to high. */
  function Unit(order: Order, log: nat, low: nat, high: nat): int
    requires high <= log
  {
    match order
    case CoeffToSlot => Pow2(log - high)
    case SlotToCoeff => Pow2(low)
  }

  /** Before step j of a stage of k levels. */
  function Shape(order: Order, log: nat, low: nat, k: nat, j: nat): Geometry
    requires low + k <= log && j <= k
  {
    var jump := if j < k then Jump(order, log, low + j) else 0;
    match order
    case CoeffToSlot => Geometry(Pow2(k), Pow2(log), Pow2(j), Pow2(k - j), if j < k then Pow2(k - j - 1) else 1, jump)
    case SlotToCoeff => Geometry(Pow2(k), Pow2(log), Pow2(j), 1, Pow2(j), jump)
  }

  lemma DescendingFits(a: int, b: int)
    requires a >= 1 && b >= 1
    ensures (a - 1) * (2 * b) + b < a * (2 * b)
  {
    assert (a - 1) * (2 * b) == a * (2 * b) - 2 * b;
  }

  lemma ShapeFits(order: Order, log: nat, low: nat, k: nat, j: nat)
    requires low + k <= log && j < k
    ensures Fits(Shape(order, log, low, k, j)) && Refines(Shape(order, log, low, k, j), Shape(order, log, low, k, j + 1))
  {
    Pow2Add(j, k - j);
    Pow2Double(j);
    Pow2Double(k - j - 1);
    Pow2Monotone(j + 1, k);
    DescendingFits(Pow2(j), Pow2(k - j - 1));
    Pow2Zero();
    var a, b, c, d, n := Pow2(j), Pow2(k - j - 1), Pow2(k), Pow2(k - j), Pow2(log);
    hide Pow2;
    assert c == a * (2 * b) && d == 2 * b;
  }

  lemma Pow2Zero()
    ensures Pow2(0) == 1
  {
  }

  lemma JumpIsGap(order: Order, log: nat, low: nat, k: nat, j: nat)
    requires low + k <= log && j < k
    ensures var g := Shape(order, log, low, k, j); g.jump == g.gap * Unit(order, log, low, low + k)
  {
    match order {
      case CoeffToSlot => Pow2Add(k - j - 1, log - low - k);
      case SlotToCoeff => Pow2Add(j, low);
    }
    hide Pow2;
  }

  lemma ShapeSizes(order: Order, log: nat, low: nat, k: nat, j: nat)
    requires low + k <= log && j <= k
    ensures var g := Shape(order, log, low, k, j); g.radix == Pow2(k) >= 1 && g.n == Pow2(log) >= 1 && g.count == Pow2(j) && g.spacing >= 1
    ensures j == k ==> Shape(order, log, low, k, j).spacing == 1
  {
    Pow2Zero();
    hide Pow2;
  }

  // ---------- what a stage computes ----------

  /** A stage of diagonals applied to a vector. */
  ghost function Applied<C>(r: Ring<C>, stage: seq<seq<C>>, g: Geometry, rotation: int, v: seq<C>): (w: seq<C>)
    requires IsStage(stage, g) && |v| == g.n && g.n > 0
    ensures |w| == |v|
  {
    seq(|v|, s requires 0 <= s < |v| => Act(r, HatOf(r, g, stage), g.radix, rotation, v, s))
  }

  /** Before step j the stage is the composition of its first j butterflies. */
  ghost predicate Represents<C(!new)>(r: Ring<C>, net: Network<C>, low: nat, k: nat, j: nat, stage: seq<seq<C>>)
    requires IsNetwork(net) && low + k <= net.log && j <= k
  {
    var g := Shape(net.order, net.log, low, k, j);
    IsStage(stage, g) && g.n == Pow2(net.log) &&
    forall v: seq<C> :: |v| == g.n ==> Applied(r, stage, g, Unit(net.order, net.log, low, low + k), v) == Chain(r, net, low, low + j, v)
  }

  lemma ActTurns<C(!new)>(r: Ring<C>, d: Diagonals<C>, radix: int, rotation: int, v: seq<C>, s: int)
    requires |v| > 0
    ensures Act(r, d, radix, rotation, v, s) == Act(r, d, radix, rotation, v, Mod(s, |v|))
  {
    hide *;
    var t := Mod(s, |v|);
    forall u ensures Terms(r, d, rotation, v, s, 0)(u) == Terms(r, d, rotation, v, t, 0)(u) {
      TermTurns(r, d, rotation, v, s, u);
      TermAt(r, d, rotation, v, s, 0, u);
      TermAt(r, d, rotation, v, t, 0, u);
    }
    SumSame(r, Terms(r, d, rotation, v, s, 0), Terms(r, d, rotation, v, t, 0), -radix + 1, radix);
    ActIs(r, d, radix, rotation, v, s);
    ActIs(r, d, radix, rotation, v, t);
  }

  lemma TermTurns<C>(r: Ring<C>, d: Diagonals<C>, rotation: int, v: seq<C>, s: int, u: int)
    requires |v| > 0
    ensures ActTerm(r, d, rotation, v, s, u) == ActTerm(r, d, rotation, v, Mod(s, |v|), u)
  {
    hide Mod;
    ModShift(s, 0, |v|);
    ModShift(s, -(u * rotation), |v|);
  }

  lemma AppliedAt<C(!new)>(r: Ring<C>, stage: seq<seq<C>>, g: Geometry, rotation: int, v: seq<C>, s: int)
    requires IsStage(stage, g) && |v| == g.n && g.n > 0
    ensures Act(r, HatOf(r, g, stage), g.radix, rotation, v, s) == Applied(r, stage, g, rotation, v)[Mod(s, |v|)]
  {
    hide Act, Mod, IsStage, HatOf;
    ActTurns(r, HatOf(r, g, stage), g.radix, rotation, v, s);
  }

  /** One more butterfly. */
  lemma AppliedStep<C(!new)>(r: Ring<C>, g: Geometry, h: Geometry, rotation: int, f: Factor<C>, before: seq<seq<C>>, stage: seq<seq<C>>, v: seq<C>)
    requires Laws(r) && Fits(g) && Refines(g, h) && IsStage(before, g) && Sized(f, g.n) && g.jump == g.gap * rotation
    requires Accumulated(r, g, f, before, stage, g.count, 0) && |v| == g.n && g.n >= 1
    ensures IsStage(stage, h) && h.n == g.n && Applied(r, stage, h, rotation, v) == Butterfly(r, f, g.jump, Applied(r, before, g, rotation, v))
  {
    hide *;
    StepFuses(r, g, h, f, before, stage);
    HatWithin(r, g, before);
    SameSizes(g, h);
    forall s | 0 <= s < |v|
      ensures Applied(r, stage, h, rotation, v)[s] == Butterfly(r, f, g.jump, Applied(r, before, g, rotation, v))[s]
    {
      FusedAct(r, f, g.gap, g.radix, rotation, g.jump, HatOf(r, g, before), HatOf(r, h, stage), v, s);
      AppliedAt(r, stage, h, rotation, v, s);
      AppliedAt(r, before, g, rotation, v, s);
      AppliedAt(r, before, g, rotation, v, s + g.jump);
      AppliedAt(r, before, g, rotation, v, s - g.jump);
      ModSmall(s, |v|);
      ButterflyAt(r, f, g.jump, Applied(r, before, g, rotation, v), s);
    }
    ButterflyAt(r, f, g.jump, Applied(r, before, g, rotation, v), 0);
  }

  lemma ButterflyAt<C>(r: Ring<C>, f: Factor<C>, jump: int, v: seq<C>, s: int)
    requires Sized(f, |v|) && 0 <= s < |v|
    ensures |f.center| == |v|
    ensures Butterfly(r, f, jump, v)[s] == Three(r, f, s, v[s], v[Mod(s + jump, |v|)], v[Mod(s - jump, |v|)])
  {
    hide Three, Mod;
    assert Butterfly(r, f, jump, v)[s] == ButterflySlot(r, f, jump, v, s) by { hide ButterflySlot, Sized; }
  }

  lemma SameSizes(g: Geometry, h: Geometry)
    requires Refines(g, h)
    ensures h.n == g.n && h.radix == g.radix
  {
  }

  lemma RepresentsStep<C(!new)>(r: Ring<C>, net: Network<C>, low: nat, k: nat, j: nat, before: seq<seq<C>>, stage: seq<seq<C>>)
    requires Laws(r) && IsNetwork(net) && low + k <= net.log && j < k && Represents(r, net, low, k, j, before)
    requires var g := Shape(net.order, net.log, low, k, j);
      IsStage(before, g) && Sized(net.factors[low + j], g.n) && Accumulated(r, g, net.factors[low + j], before, stage, g.count, 0)
    ensures Represents(r, net, low, k, j + 1, stage)
  {
    hide *;
    var g, h := Shape(net.order, net.log, low, k, j), Shape(net.order, net.log, low, k, j + 1);
    var rotation := Unit(net.order, net.log, low, low + k);
    NetworkSize(net);
    var f := net.factors[low + j];
    ShapeFits(net.order, net.log, low, k, j);
    ShapeSizes(net.order, net.log, low, k, j);
    ShapeSizes(net.order, net.log, low, k, j + 1);
    JumpIsGap(net.order, net.log, low, k, j);
    AccumulatedStage(r, g, h, f, before, stage);
    forall v: seq<C> | |v| == h.n ensures Applied(r, stage, h, rotation, v) == Chain(r, net, low, low + (j + 1), v) {
      assert low + j + 1 == low + (j + 1);
      AppliedStep(r, g, h, rotation, f, before, stage, v);
      RepresentsAt(r, net, low, k, j, before, v);
      ChainStep(r, net, low, k, j, v);
    }
    SameSizes(g, h);
    RepresentsFrom(r, net, low, k, j + 1, stage);
  }

  lemma NetworkSize<C>(net: Network<C>)
    requires IsNetwork(net)
    ensures |net.factors| == net.log
  {
  }

  lemma AccumulatedStage<C>(r: Ring<C>, g: Geometry, h: Geometry, f: Factor<C>, before: seq<seq<C>>, stage: seq<seq<C>>)
    requires IsStage(before, g) && Sized(f, g.n) && Accumulated(r, g, f, before, stage, g.count, 0) && Refines(g, h)
    ensures IsStage(stage, h)
  {
  }

  lemma RepresentsAt<C(!new)>(r: Ring<C>, net: Network<C>, low: nat, k: nat, j: nat, stage: seq<seq<C>>, v: seq<C>)
    requires IsNetwork(net) && low + k <= net.log && j <= k && Represents(r, net, low, k, j, stage)
    requires |v| == Pow2(net.log)
    ensures var g := Shape(net.order, net.log, low, k, j);
      IsStage(stage, g) && |v| == g.n &&
      Applied(r, stage, g, Unit(net.order, net.log, low, low + k), v) == Chain(r, net, low, low + j, v)
  {
    hide Applied, Chain, Pow2, Shape, Unit, IsNetwork, IsStage;
  }

  lemma RepresentsFrom<C(!new)>(r: Ring<C>, net: Network<C>, low: nat, k: nat, j: nat, stage: seq<seq<C>>)
    requires IsNetwork(net) && low + k <= net.log && j <= k
    requires var g := Shape(net.order, net.log, low, k, j);
      IsStage(stage, g) && g.n == Pow2(net.log) >= 1 &&
      forall v: seq<C> :: |v| == g.n ==> Applied(r, stage, g, Unit(net.order, net.log, low, low + k), v) == Chain(r, net, low, low + j, v)
    ensures Represents(r, net, low, k, j, stage)
  {
    hide Applied, Chain, Pow2, Shape, Unit, IsNetwork, IsStage;
  }

  lemma ChainStep<C>(r: Ring<C>, net: Network<C>, low: nat, k: nat, j: nat, v: seq<C>)
    requires IsNetwork(net) && low + k <= net.log && j < k && |v| == Pow2(net.log)
    ensures var g := Shape(net.order, net.log, low, k, j);
      low + j < |net.factors| && Sized(net.factors[low + j], |v|) &&
      Chain(r, net, low, low + j + 1, v) == Butterfly(r, net.factors[low + j], g.jump, Chain(r, net, low, low + j, v))
  {
    hide Butterfly, Pow2;
  }

  /** The stage of ones acts as the identity: only unit 0 is a center. */
  lemma RepresentsStart<C(!new)>(r: Ring<C>, net: Network<C>, low: nat, k: nat, stage: seq<seq<C>>)
    requires Laws(r) && IsNetwork(net) && low + k <= net.log && IsStage(stage, Shape(net.order, net.log, low, k, 0))
    requires forall i :: 0 <= i < |stage| ==> forall s :: 0 <= s < |stage[i]| ==> stage[i][s] == r.one
    ensures Represents(r, net, low, k, 0, stage)
  {
    hide *;
    var g := Shape(net.order, net.log, low, k, 0);
    var rotation := Unit(net.order, net.log, low, low + k);
    ShapeSizes(net.order, net.log, low, k, 0);
    Pow2Zero();
    forall v: seq<C> | |v| == g.n ensures Applied(r, stage, g, rotation, v) == Chain(r, net, low, low + 0, v) {
      forall s | 0 <= s < |v| ensures Applied(r, stage, g, rotation, v)[s] == v[s] {
        OnesAct(r, g, stage, rotation, v, s);
        AppliedAt(r, stage, g, rotation, v, s);
        ModSmall(s, |v|);
      }
      assert Applied(r, stage, g, rotation, v) == v;
      ChainEmpty(r, net, low, v);
    }
    RepresentsFrom(r, net, low, k, 0, stage);
  }

  lemma ChainEmpty<C>(r: Ring<C>, net: Network<C>, low: nat, v: seq<C>)
    requires IsNetwork(net) && low <= net.log && |v| == Pow2(net.log)
    ensures Chain(r, net, low, low + 0, v) == v
  {
  }

  lemma OnesAct<C(!new)>(r: Ring<C>, g: Geometry, stage: seq<seq<C>>, rotation: int, v: seq<C>, s: int)
    requires Laws(r) && g.count == 1 && g.spacing >= 1 && IsStage(stage, g) && |v| == g.n && 0 <= s < |v| && g.radix >= 1
    requires forall i :: 0 <= i < |stage| ==> forall s :: 0 <= s < |stage[i]| ==> stage[i][s] == r.one
    ensures Act(r, HatOf(r, g, stage), g.radix, rotation, v, s) == v[s]
  {
    hide *;
    var d := HatOf(r, g, stage);
    var f := Terms(r, d, rotation, v, s, 0);
    forall u ensures f(u) == if u == 0 then v[s] else r.zero {
      TermAt(r, d, rotation, v, s, 0, u);
      if u == 0 { OnesCenter(r, g, stage, rotation, v, s); } else { OnesElsewhere(r, g, stage, rotation, v, s, u); }
    }
    SumSplit(r, f, -g.radix + 1, 0, g.radix);
    SumFirst(r, f, 0, g.radix);
    SumZero(r, f, -g.radix + 1, 0);
    SumZero(r, f, 1, g.radix);
    AddZero(r, v[s]);
    ActIs(r, d, g.radix, rotation, v, s);
  }

  lemma OnesCenter<C(!new)>(r: Ring<C>, g: Geometry, stage: seq<seq<C>>, rotation: int, v: seq<C>, s: int)
    requires Laws(r) && g.count == 1 && g.spacing >= 1 && IsStage(stage, g) && |v| == g.n && 0 <= s < |v|
    requires forall i :: 0 <= i < |stage| ==> forall s :: 0 <= s < |stage[i]| ==> stage[i][s] == r.one
    ensures ActTerm(r, HatOf(r, g, stage), rotation, v, s, 0) == v[s]
  {
    hide Laws, Mod;
    ModSmall(s, |v|);
    MulOne(r, v[s]);
    assert 0 * rotation == 0;
    VisitedIs(g, 0);
    assert 0 * g.spacing == 0;
  }

  lemma OnesElsewhere<C(!new)>(r: Ring<C>, g: Geometry, stage: seq<seq<C>>, rotation: int, v: seq<C>, s: int, u: int)
    requires Laws(r) && g.count == 1 && g.spacing >= 1 && IsStage(stage, g) && |v| == g.n && 0 <= s < |v| && u != 0
    ensures ActTerm(r, HatOf(r, g, stage), rotation, v, s, u) == r.zero
  {
    hide Laws, Mod, At, Visited, ActTerm;
    if Visited(g, g.count, u) {
      var k := VisitedMeans(g, u);
    }
    ZeroTerm(r, HatOf(r, g, stage), rotation, v, s, u);
  }

  // ---------- how the levels are split ----------

  /** get_coeff_to_slot_log_radix_count and get_slot_to_coeff_log_radix_count: the surplus levels go to
      the last stages, or to the first. */
  function LogRadixCount(order: Order, stage: nat, count: nat, log: nat): (k: nat)
    requires stage < count
  {
    match order
    case CoeffToSlot => if stage >= count - log % count then log / count + 1 else log / count
    case SlotToCoeff => if stage < log % count then log / count + 1 else log / count
  }

  /** The level at which a stage starts. */
  function Bound(order: Order, stage: nat, count: nat, log: nat): (b: nat)
    requires stage <= count
  {
    if stage == 0 then 0 else Bound(order, stage - 1, count, log) + LogRadixCount(order, stage - 1, count, log)
  }

  lemma {:induction false} BoundIs(order: Order, stage: nat, count: nat, log: nat, each: nat, surplus: nat)
    requires count > 0 && stage <= count && each == log / count && surplus == log % count
    ensures Bound(order, stage, count, log) == stage * each +
      match order
      case CoeffToSlot => (if stage <= count - surplus then 0 else stage - (count - surplus))
      case SlotToCoeff => (if stage <= surplus then stage else surplus)
  {
    if stage == 0 {
      assert 0 * each == 0;
    } else {
      BoundIs(order, stage - 1, count, log, each, surplus);
      var before := Bound(order, stage - 1, count, log);
      var k := LogRadixCount(order, stage - 1, count, log);
      assert Bound(order, stage, count, log) == before + k;
      assert stage * each == (stage - 1) * each + each;
    }
  }

  /** The stages share out exactly the log butterflies. */
  lemma StagesCover(order: Order, count: nat, log: nat)
    requires count > 0
    ensures Bound(order, 0, count, log) == 0 && Bound(order, count, count, log) == log
  {
    BoundIs(order, count, count, log, log / count, log % count);
  }

  /** No stage has more than one level more than another; the larger ones come last, or first. */
  lemma StagesBalanced(stage: nat, later: nat, count: nat, log: nat)
    requires stage <= later < count
    ensures LogRadixCount(CoeffToSlot, stage, count, log) <= LogRadixCount(CoeffToSlot, later, count, log) <= LogRadixCount(CoeffToSlot, stage, count, log) + 1
    ensures LogRadixCount(SlotToCoeff, later, count, log) <= LogRadixCount(SlotToCoeff, stage, count, log) <= LogRadixCount(SlotToCoeff, later, count, log) + 1
  {
  }

  lemma {:induction false} BoundGrows(order: Order, stage: nat, later: nat, count: nat, log: nat)
    requires stage <= later <= count
    ensures Bound(order, stage, count, log) <= Bound(order, later, count, log)
    decreases later
  {
    if stage < later { BoundGrows(order, stage, later - 1, count, log); }
  }

  lemma BoundInside(order: Order, stage: nat, count: nat, log: nat)
    requires stage < count
    ensures var low, k := Bound(order, stage, count, log), LogRadixCount(order, stage, count, log);
      low + k == Bound(order, stage + 1, count, log) <= log
  {
    BoundGrows(order, stage + 1, count, count, log);
    StagesCover(order, count, log);
  }

  // ---------- building a stage ----------

  function Scaled<C>(r: Ring<C>, c: C, v: seq<C>): (w: seq<C>)
    ensures |w| == |v|
  {
    seq(|v|, s requires 0 <= s < |v| => r.mul(c, v[s]))
  }

  lemma ScaledOne<C(!new)>(r: Ring<C>, v: seq<C>)
    requires Laws(r)
    ensures Scaled(r, r.one, v) == v
  {
    hide Laws;
    forall s | 0 <= s < |v| ensures Scaled(r, r.one, v)[s] == v[s] { MulOne(r, v[s]); }
  }

  ghost predicate ComputesOn<C>(r: Ring<C>, net: Network<C>, low: nat, k: nat, c: C, stage: seq<seq<C>>, v: seq<C>)
    requires IsNetwork(net) && low + k <= net.log && |v| == Pow2(net.log)
  {
    var g := Shape(net.order, net.log, low, k, k);
    IsStage(stage, g) && |v| == g.n &&
    Applied(r, stage, g, Unit(net.order, net.log, low, low + k), v) == Scaled(r, c, Chain(r, net, low, low + k, v))
  }

  /** A finished stage is c times the composition of its k butterflies. */
  ghost predicate Computes<C(!new)>(r: Ring<C>, net: Network<C>, low: nat, k: nat, c: C, stage: seq<seq<C>>)
    requires IsNetwork(net) && low + k <= net.log
  {
    && IsStage(stage, Shape(net.order, net.log, low, k, k))
    && forall v: seq<C> {:trigger ComputesOn(r, net, low, k, c, stage, v)} :: |v| == Pow2(net.log) ==> ComputesOn(r, net, low, k, c, stage, v)
  }

  lemma ComputesOnce<C(!new)>(r: Ring<C>, net: Network<C>, low: nat, k: nat, stage: seq<seq<C>>)
    requires Laws(r) && IsNetwork(net) && low + k <= net.log && Represents(r, net, low, k, k, stage)
    ensures Computes(r, net, low, k, r.one, stage)
  {
    hide Laws, Applied, Chain, Pow2, Shape, Unit, IsNetwork, IsStage, Scaled;
    var g := Shape(net.order, net.log, low, k, k);
    forall v: seq<C> | |v| == Pow2(net.log) ensures ComputesOn(r, net, low, k, r.one, stage, v) {
      ScaledOne(r, Chain(r, net, low, low + k, v));
    }
  }

  /** Dividing every diagonal by a constant, with c the inverse of the constant. */
  method ScaleStage<C(!new)>(r: Ring<C>, net: Network<C>, low: nat, k: nat, c: C, before: seq<seq<C>>) returns (stage: seq<seq<C>>)
    requires Laws(r) && IsNetwork(net) && low + k <= net.log && Computes(r, net, low, k, r.one, before)
    ensures Computes(r, net, low, k, c, stage)
  {
    hide *;
    ghost var g := Shape(net.order, net.log, low, k, k);
    ComputesStage(r, net, low, k, r.one, before);
    StageOf(before, g);
    stage := before;
    for i := 0 to |stage|
      invariant |stage| == |before|
      invariant forall j :: 0 <= j < |stage| ==> stage[j] == if j < i then Scaled(r, c, before[j]) else before[j]
    {
      var s := 0;
      while s < |stage[i]|
        invariant |stage| == |before| && 0 <= s <= |stage[i]| == |before[i]|
        invariant forall t :: 0 <= t < |before[i]| ==> stage[i][t] == if t < s then r.mul(c, before[i][t]) else before[i][t]
        invariant forall j :: 0 <= j < |stage| && j != i ==> stage[j] == if j < i then Scaled(r, c, before[j]) else before[j]
      {
        stage := stage[i := stage[i][s := r.mul(c, stage[i][s])]];
        s := s + 1;
      }
      ScaledIs(r, c, before[i], stage[i]);
    }
    ComputesScaled(r, net, low, k, c, before, stage);
  }

  lemma ScaledIs<C>(r: Ring<C>, c: C, v: seq<C>, w: seq<C>)
    requires |w| == |v| && forall t :: 0 <= t < |v| ==> w[t] == r.mul(c, v[t])
    ensures w == Scaled(r, c, v)
  {
  }

  lemma StageOf<C>(stage: seq<seq<C>>, g: Geometry)
    requires IsStage(stage, g)
    ensures |stage| == 2 * g.radix - 1 && forall i :: 0 <= i < |stage| ==> |stage[i]| == g.n
  {
  }

  lemma ComputesStage<C(!new)>(r: Ring<C>, net: Network<C>, low: nat, k: nat, c: C, stage: seq<seq<C>>)
    requires IsNetwork(net) && low + k <= net.log && Computes(r, net, low, k, c, stage)
    ensures IsStage(stage, Shape(net.order, net.log, low, k, k))
  {
  }

  lemma ComputesAt<C(!new)>(r: Ring<C>, net: Network<C>, low: nat, k: nat, c: C, stage: seq<seq<C>>, v: seq<C>)
    requires IsNetwork(net) && low + k <= net.log && Computes(r, net, low, k, c, stage) && |v| == Pow2(net.log)
    ensures ComputesOn(r, net, low, k, c, stage, v)
  {
  }

  lemma OnceApplied<C(!new)>(r: Ring<C>, net: Network<C>, low: nat, k: nat, stage: seq<seq<C>>, v: seq<C>)
    requires Laws(r) && IsNetwork(net) && low + k <= net.log && |v| == Pow2(net.log) && ComputesOn(r, net, low, k, r.one, stage, v)
    requires IsStage(stage, Shape(net.order, net.log, low, k, k))
    ensures Applied(r, stage, Shape(net.order, net.log, low, k, k), Unit(net.order, net.log, low, low + k), v) == Chain(r, net, low, low + k, v)
  {
    hide Laws, Chain, IsNetwork, Pow2, Shape, Unit, IsStage, Applied, Scaled;
    ScaledOne(r, Chain(r, net, low, low + k, v));
  }

  lemma AppliedComputes<C(!new)>(r: Ring<C>, net: Network<C>, low: nat, k: nat, c: C, stage: seq<seq<C>>, v: seq<C>)
    requires IsNetwork(net) && low + k <= net.log && |v| == Pow2(net.log) && IsStage(stage, Shape(net.order, net.log, low, k, k))
    requires Applied(r, stage, Shape(net.order, net.log, low, k, k), Unit(net.order, net.log, low, low + k), v) == Scaled(r, c, Chain(r, net, low, low + k, v))
    ensures ComputesOn(r, net, low, k, c, stage, v)
  {
    ShapeSizes(net.order, net.log, low, k, k);
    hide Chain, IsNetwork, Pow2, Shape, Unit, IsStage, Applied, Scaled;
  }

  lemma ComputesFrom<C(!new)>(r: Ring<C>, net: Network<C>, low: nat, k: nat, c: C, stage: seq<seq<C>>)
    requires IsNetwork(net) && low + k <= net.log && IsStage(stage, Shape(net.order, net.log, low, k, k))
    requires forall v: seq<C> {:trigger ComputesOn(r, net, low, k, c, stage, v)} :: |v| == Pow2(net.log) ==> ComputesOn(r, net, low, k, c, stage, v)
    ensures Computes(r, net, low, k, c, stage)
  {
  }

  ghost predicate ScaledStage<C>(r: Ring<C>, c: C, before: seq<seq<C>>, stage: seq<seq<C>>) {
    |stage| == |before| && forall i :: 0 <= i < |stage| ==> stage[i] == Scaled(r, c, before[i])
  }

  lemma ComputesScaled<C(!new)>(r: Ring<C>, net: Network<C>, low: nat, k: nat, c: C, before: seq<seq<C>>, stage: seq<seq<C>>)
    requires Laws(r) && IsNetwork(net) && low + k <= net.log && Computes(r, net, low, k, r.one, before)
    requires |stage| == |before| && forall i :: 0 <= i < |stage| ==> stage[i] == Scaled(r, c, before[i])
    ensures Computes(r, net, low, k, c, stage)
  {
    hide *;
    var g := Shape(net.order, net.log, low, k, k);
    var rotation := Unit(net.order, net.log, low, low + k);
    ComputesStage(r, net, low, k, r.one, before);
    ShapeSizes(net.order, net.log, low, k, k);
    ScaledKeepsStage(r, g, c, before, stage);
    forall v: seq<C> | |v| == Pow2(net.log) ensures ComputesOn(r, net, low, k, c, stage, v) {
      ComputesAt(r, net, low, k, r.one, before, v);
      OnceApplied(r, net, low, k, before, v);
      ScaledApplied(r, g, rotation, c, before, stage, v);
      AppliedComputes(r, net, low, k, c, stage, v);
    }
    ComputesFrom(r, net, low, k, c, stage);
  }

  lemma ScaledKeepsStage<C>(r: Ring<C>, g: Geometry, c: C, before: seq<seq<C>>, stage: seq<seq<C>>)
    requires IsStage(before, g) && |stage| == |before| && forall i :: 0 <= i < |stage| ==> stage[i] == Scaled(r, c, before[i])
    ensures IsStage(stage, g) && ScaledStage(r, c, before, stage)
  {
    hide Scaled;
  }

  lemma ScaledTerm<C(!new)>(r: Ring<C>, g: Geometry, rotation: int, c: C, before: seq<seq<C>>, stage: seq<seq<C>>, v: seq<C>, s: int, u: int)
    requires Laws(r) && IsStage(before, g) && IsStage(stage, g) && ScaledStage(r, c, before, stage) && |v| == g.n && g.n > 0
    ensures ActTerm(r, HatOf(r, g, stage), rotation, v, s, u) == r.mul(c, ActTerm(r, HatOf(r, g, before), rotation, v, s, u))
  {
    hide Laws, Mod, Visited;
    var x := v[Mod(s - u * rotation, |v|)];
    var a := HatOf(r, g, before)(u, Mod(s, |v|));
    MulAssociates(r, c, a, x);
    MulZero(r, x);
    MulZero(r, c);
  }

  lemma ScaledApplied<C(!new)>(r: Ring<C>, g: Geometry, rotation: int, c: C, before: seq<seq<C>>, stage: seq<seq<C>>, v: seq<C>)
    requires Laws(r) && IsStage(before, g) && IsStage(stage, g) && ScaledStage(r, c, before, stage) && |v| == g.n && g.n > 0
    ensures Applied(r, stage, g, rotation, v) == Scaled(r, c, Applied(r, before, g, rotation, v))
  {
    hide *;
    var d, e := HatOf(r, g, before), HatOf(r, g, stage);
    forall s | 0 <= s < |v| ensures Applied(r, stage, g, rotation, v)[s] == r.mul(c, Applied(r, before, g, rotation, v)[s]) {
      forall u ensures Terms(r, e, rotation, v, s, 0)(u) == r.mul(c, Terms(r, d, rotation, v, s, 0)(u)) {
        ScaledTerm(r, g, rotation, c, before, stage, v, s, u);
        TermAt(r, e, rotation, v, s, 0, u);
        TermAt(r, d, rotation, v, s, 0, u);
      }
      SumScale(r, c, Terms(r, d, rotation, v, s, 0), Terms(r, e, rotation, v, s, 0), -g.radix + 1, g.radix);
      ActIs(r, d, g.radix, rotation, v, s);
      ActIs(r, e, g.radix, rotation, v, s);
      AppliedAt(r, stage, g, rotation, v, s);
      AppliedAt(r, before, g, rotation, v, s);
      ModSmall(s, |v|);
    }
    ScaledIs(r, c, Applied(r, before, g, rotation, v), Applied(r, stage, g, rotation, v));
  }

  /** The divisions of the source are exact. */
  lemma DescendingShape(log: nat, low: nat, k: nat, j: nat)
    requires low + k <= log && j < k
    ensures var radixCount, radixIndex := Pow2(k), Pow2(j);
      Geometry(radixCount, Pow2(log), radixIndex, radixCount / radixIndex, radixCount / (2 * radixIndex), Pow2(log - low - j - 1)) ==
        Shape(CoeffToSlot, log, low, k, j)
  {
    Pow2Add(j, k - j);
    Pow2Double(k - j - 1);
    hide Pow2;
    Exact(Pow2(k), Pow2(j), Pow2(k - j));
    TwiceExact(Pow2(k), Pow2(j), Pow2(k - j - 1));
  }

  lemma TwiceExact(c: int, a: int, b: int)
    requires a >= 1 && c == a * (2 * b)
    ensures c / (2 * a) == b
  {
    assert c == b * (2 * a);
    DivModUnique(c, b, 0, 2 * a);
  }

  lemma Halves(e: nat)
    requires e > 0
    ensures Pow2(e) / 2 == Pow2(e - 1)
  {
  }

  /** index * radix_count / radix_index, which truncates, is index times the spacing. */
  lemma UnitIndex(index: int, k: nat, j: nat)
    requires j <= k
    ensures Truncated(index * Pow2(k), Pow2(j)) == index * (Pow2(k) / Pow2(j))
  {
    Pow2Add(j, k - j);
    hide *;
    Exact(Pow2(k), Pow2(j), Pow2(k - j));
    TruncatedExact(index, Pow2(k), Pow2(j), Pow2(k - j));
  }

  lemma Exact(c: int, a: int, b: int)
    requires a >= 1 && c == a * b
    ensures c / a == b
  {
    DivModUnique(c, b, 0, a);
  }

  lemma TruncatedExact(index: int, c: int, a: int, b: int)
    requires a >= 1 && b >= 1 && c == a * b
    ensures Truncated(index * c, a) == index * b
  {
    assert index * c == (index * b) * a && -(index * c) == (-(index * b)) * a;
    DivModUnique(index * c, index * b, 0, a);
    DivModUnique(-(index * c), -(index * b), 0, a);
  }

  lemma RepresentsStage<C(!new)>(r: Ring<C>, net: Network<C>, low: nat, k: nat, j: nat, stage: seq<seq<C>>)
    requires IsNetwork(net) && low + k <= net.log && j <= k && Represents(r, net, low, k, j, stage)
    ensures IsStage(stage, Shape(net.order, net.log, low, k, j))
  {
  }

  lemma FactorSize<C>(net: Network<C>, l: nat)
    requires IsNetwork(net) && l < net.log
    ensures l < |net.factors| && Sized(net.factors[l], Pow2(net.log))
  {
  }

  lemma OnesStage<C(!new)>(r: Ring<C>, net: Network<C>, low: nat, k: nat, stage: seq<seq<C>>)
    requires Laws(r) && IsNetwork(net) && low + k <= net.log && |stage| == 2 * Pow2(k) - 1
    requires forall i :: 0 <= i < |stage| ==> |stage[i]| == Pow2(net.log) && forall s :: 0 <= s < |stage[i]| ==> stage[i][s] == r.one
    ensures Represents(r, net, low, k, 0, stage)
  {
    ShapeSizes(net.order, net.log, low, k, 0);
    hide Laws, Represents, Shape, Pow2, IsNetwork;
    RepresentsStart(r, net, low, k, stage);
  }

  /** One stage of get_coeff_to_slot_twiddles: the jump halves before each step. */
  method CoeffToSlotStage<C(!new)>(r: Ring<C>, net: Network<C>, slotCount: nat, low: nat, k: nat, jump: nat)
    returns (stage: seq<seq<C>>, radixJumpSize: nat)
    requires Laws(r) && IsNetwork(net) && net.order == CoeffToSlot && low + k <= net.log
    requires slotCount == Pow2(net.log) && jump == Pow2(net.log - low)
    ensures Computes(r, net, low, k, r.one, stage) && radixJumpSize == Pow2(net.log - low - k)
  {
    hide *;
    var radixCount := Pow2(k);
    radixJumpSize := jump;
    stage := seq(2 * radixCount - 1, i => seq(slotCount, s => r.one));
    OnesStage(r, net, low, k, stage);
    for j := 0 to k
      invariant Represents(r, net, low, k, j, stage) && radixJumpSize == Pow2(net.log - low - j)
    {
      DescendingShape(net.log, low, k, j);
      Halves(net.log - low - j);
      radixJumpSize := radixJumpSize / 2;
      var radixIndex := Pow2(j);
      var g := Geometry(radixCount, slotCount, radixIndex, radixCount / radixIndex, radixCount / (2 * radixIndex), radixJumpSize);
      ShapeFits(net.order, net.log, low, k, j);
      FactorSize(net, low + j);
      RepresentsStage(r, net, low, k, j, stage);
      var radixTwiddles := stage;
      stage := FuseStep(r, g, net.factors[low + j], radixTwiddles);
      RepresentsStep(r, net, low, k, j, radixTwiddles, stage);
    }
    ComputesOnce(r, net, low, k, stage);
  }

  lemma AscendingShape(log: nat, low: nat, k: nat, j: nat)
    requires low + k <= log && j < k
    ensures Geometry(Pow2(k), Pow2(log), Pow2(j), 1, Pow2(j), Pow2(low + j)) == Shape(SlotToCoeff, log, low, k, j)
    ensures 2 * Pow2(low + j) == Pow2(low + (j + 1))
  {
    Pow2Double(low + j);
    hide Pow2;
  }

  /** One stage of get_slot_to_coeff_twiddles: the jump doubles after each step. */
  method SlotToCoeffStage<C(!new)>(r: Ring<C>, net: Network<C>, slotCount: nat, low: nat, k: nat, jump: nat)
    returns (stage: seq<seq<C>>, radixJumpSize: nat)
    requires Laws(r) && IsNetwork(net) && net.order == SlotToCoeff && low + k <= net.log
    requires slotCount == Pow2(net.log) && jump == Pow2(low)
    ensures Computes(r, net, low, k, r.one, stage) && radixJumpSize == Pow2(low + k)
  {
    hide *;
    var radixCount := Pow2(k);
    radixJumpSize := jump;
    stage := seq(2 * radixCount - 1, i => seq(slotCount, s => r.one));
    OnesStage(r, net, low, k, stage);
    for j := 0 to k
      invariant Represents(r, net, low, k, j, stage) && radixJumpSize == Pow2(low + j)
    {
      AscendingShape(net.log, low, k, j);
      var radixIndex := Pow2(j);
      var g := Geometry(radixCount, slotCount, radixIndex, 1, radixIndex, radixJumpSize);
      ShapeFits(net.order, net.log, low, k, j);
      FactorSize(net, low + j);
      RepresentsStage(r, net, low, k, j, stage);
      var radixTwiddles := stage;
      stage := FuseStep(r, g, net.factors[low + j], radixTwiddles);
      RepresentsStep(r, net, low, k, j, radixTwiddles, stage);
      radixJumpSize := 2 * radixJumpSize;
    }
    ComputesOnce(r, net, low, k, stage);
  }

  // ---------- all stages ----------

  /** Stage i of `count` computes its share of the levels; the last one also multiplies by c. */
  ghost predicate Computed<C(!new)>(r: Ring<C>, net: Network<C>, count: nat, i: nat, c: C, stage: seq<seq<C>>)
    requires IsNetwork(net) && i < count
  {
    BoundInside(net.order, i, count, net.log);
    Computes(r, net, Bound(net.order, i, count, net.log), LogRadixCount(net.order, i, count, net.log), if i == count - 1 then c else r.one, stage)
  }

  /** get_coeff_to_slot_twiddles, with c the inverse of the normalizing value. */
  method GetCoeffToSlotTwiddles<C(!new)>(r: Ring<C>, net: Network<C>, slotCount: nat, stageCount: nat, c: C) returns (stages: seq<seq<seq<C>>>)
    requires Laws(r) && IsNetwork(net) && net.order == CoeffToSlot && slotCount == Pow2(net.log) && stageCount > 0
    ensures |stages| == stageCount && forall i :: 0 <= i < stageCount ==> Computed(r, net, stageCount, i, c, stages[i])
  {
    hide *;
    var radixJumpSize: nat := slotCount;
    var offset: nat := 0;
    stages := [];
    StagesCover(CoeffToSlot, stageCount, net.log);
    for index := 0 to stageCount
      invariant offset == Bound(CoeffToSlot, index, stageCount, net.log) <= net.log && radixJumpSize == Pow2(net.log - offset)
      invariant |stages| == index && forall i :: 0 <= i < index ==> Computed(r, net, stageCount, i, c, stages[i])
    {
      var logRadixCount := LogRadixCount(CoeffToSlot, index, stageCount, net.log);
      BoundInside(CoeffToSlot, index, stageCount, net.log);
      var stage;
      stage, radixJumpSize := CoeffToSlotStage(r, net, slotCount, offset, logRadixCount, radixJumpSize);
      if index == stageCount - 1 {
        stage := ScaleStage(r, net, offset, logRadixCount, c, stage);
      }
      ComputedIs(r, net, stageCount, index, c, stage);
      stages := stages + [stage];
      offset := offset + logRadixCount;
    }
  }

  lemma ComputedIs<C(!new)>(r: Ring<C>, net: Network<C>, count: nat, i: nat, c: C, stage: seq<seq<C>>)
    requires IsNetwork(net) && i < count
    ensures var low, k := Bound(net.order, i, count, net.log), LogRadixCount(net.order, i, count, net.log);
      low + k == Bound(net.order, i + 1, count, net.log) <= net.log &&
      (Computed(r, net, count, i, c, stage) <==> Computes(r, net, low, k, if i == count - 1 then c else r.one, stage))
  {
    hide Bound, LogRadixCount, Computes, IsNetwork;
    BoundInside(net.order, i, count, net.log);
  }

  /** get_slot_to_coeff_twiddles. */
  method GetSlotToCoeffTwiddles<C(!new)>(r: Ring<C>, net: Network<C>, slotCount: nat, stageCount: nat) returns (stages: seq<seq<seq<C>>>)
    requires Laws(r) && IsNetwork(net) && net.order == SlotToCoeff && slotCount == Pow2(net.log) && stageCount > 0
    ensures |stages| == stageCount && forall i :: 0 <= i < stageCount ==> Computed(r, net, stageCount, i, r.one, stages[i])
  {
    hide *;
    var radixJumpSize: nat := 1;
    var offset: nat := 0;
    stages := [];
    StagesCover(SlotToCoeff, stageCount, net.log);
    Pow2Zero();
    for index := 0 to stageCount
      invariant offset == Bound(SlotToCoeff, index, stageCount, net.log) <= net.log && radixJumpSize == Pow2(offset)
      invariant |stages| == index && forall i :: 0 <= i < index ==> Computed(r, net, stageCount, i, r.one, stages[i])
    {
      var logRadixCount := LogRadixCount(SlotToCoeff, index, stageCount, net.log);
      BoundInside(SlotToCoeff, index, stageCount, net.log);
      var stage;
      stage, radixJumpSize := SlotToCoeffStage(r, net, slotCount, offset, logRadixCount, radixJumpSize);
      ComputedIs(r, net, stageCount, index, r.one, stage);
      stages := stages + [stage];
      offset := offset + logRadixCount;
    }
  }

  /** The geometry of finished stage i, and the unit of its rotations. */
  function FinalShape<C>(net: Network<C>, count: nat, i: nat): Geometry
    requires i < count
  {
    BoundInside(net.order, i, count, net.log);
    var k := LogRadixCount(net.order, i, count, net.log);
    Shape(net.order, net.log, Bound(net.order, i, count, net.log), k, k)
  }

  function FinalUnit<C>(net: Network<C>, count: nat, i: nat): int
    requires i < count
  {
    BoundInside(net.order, i, count, net.log);
    Unit(net.order, net.log, Bound(net.order, i, count, net.log), Bound(net.order, i + 1, count, net.log))
  }

  ghost predicate OneStage<C>(r: Ring<C>, net: Network<C>, stages: seq<seq<seq<C>>>, i: nat, u: seq<C>, w: seq<C>)
    requires i < |stages|
  {
    var g := FinalShape(net, |stages|, i);
    IsStage(stages[i], g) && |u| == g.n && g.n > 0 && w == Applied(r, stages[i], g, FinalUnit(net, |stages|, i), u)
  }

  lemma OneStageIs<C(!new)>(r: Ring<C>, net: Network<C>, stages: seq<seq<seq<C>>>, i: nat, low: nat, k: nat, c: C, u: seq<C>, w: seq<C>)
    requires IsNetwork(net) && i < |stages| && |u| == Pow2(net.log) && OneStage(r, net, stages, i, u, w)
    requires low == Bound(net.order, i, |stages|, net.log) && k == LogRadixCount(net.order, i, |stages|, net.log) && low + k <= net.log
    requires ComputesOn(r, net, low, k, c, stages[i], u)
    ensures w == Scaled(r, c, Chain(r, net, low, low + k, u))
  {
    hide IsNetwork, Chain, Applied, Scaled, Bound, LogRadixCount, Pow2, Unit, Shape, IsStage;
    BoundInside(net.order, i, |stages|, net.log);
  }

  /** The vectors between the stages. */
  ghost predicate Steps<C>(r: Ring<C>, net: Network<C>, stages: seq<seq<seq<C>>>, vs: seq<seq<C>>) {
    |vs| == |stages| + 1 && forall i :: 0 <= i < |stages| ==> OneStage(r, net, stages, i, vs[i], vs[i + 1])
  }

  lemma {:induction false} StagesCompose<C(!new)>(r: Ring<C>, net: Network<C>, stages: seq<seq<seq<C>>>, i: nat, c: C, vs: seq<seq<C>>)
    requires Laws(r) && IsNetwork(net) && i <= |stages| && |stages| > 0 && Steps(r, net, stages, vs) && |vs[0]| == Pow2(net.log)
    requires forall j :: 0 <= j < |stages| ==> Computed(r, net, |stages|, j, c, stages[j])
    ensures Bound(net.order, i, |stages|, net.log) <= net.log && |vs| == |stages| + 1
    ensures vs[i] == Scaled(r, if i == |stages| then c else r.one, Chain(r, net, 0, Bound(net.order, i, |stages|, net.log), vs[0]))
    decreases i
  {
    hide *;
    StagesCover(net.order, |stages|, net.log);
    StepsSize(r, net, stages, vs);
    if i == 0 {
      ChainEmpty(r, net, 0, vs[0]);
      ScaledOne(r, vs[0]);
    } else {
      var k := LogRadixCount(net.order, i - 1, |stages|, net.log);
      var last := if i == |stages| then c else r.one;
      StepsAt(r, net, stages, vs, i - 1);
      StagesCompose(r, net, stages, i - 1, c, vs);
      var low, high := Bound(net.order, i - 1, |stages|, net.log), Bound(net.order, i, |stages|, net.log);
      ScaledOne(r, Chain(r, net, 0, low, vs[0]));
      ComputedIs(r, net, |stages|, i - 1, c, stages[i - 1]);
      ComputesAt(r, net, low, k, last, stages[i - 1], vs[i - 1]);
      OneStageIs(r, net, stages, i - 1, low, k, last, vs[i - 1], vs[i]);
      ChainSplit(r, net, 0, low, high, vs[0]);
    }
  }

  lemma StepsSize<C>(r: Ring<C>, net: Network<C>, stages: seq<seq<seq<C>>>, vs: seq<seq<C>>)
    requires Steps(r, net, stages, vs)
    ensures |vs| == |stages| + 1
  {
  }

  lemma StepsAt<C>(r: Ring<C>, net: Network<C>, stages: seq<seq<seq<C>>>, vs: seq<seq<C>>, i: nat)
    requires Steps(r, net, stages, vs) && i < |stages|
    ensures |vs| == |stages| + 1 && OneStage(r, net, stages, i, vs[i], vs[i + 1])
  {
  }

  /** The stages one after another are all radix-2 butterflies of the network, and the constant. */
  lemma AllStages<C(!new)>(r: Ring<C>, net: Network<C>, stages: seq<seq<seq<C>>>, c: C, vs: seq<seq<C>>)
    requires Laws(r) && IsNetwork(net) && |stages| > 0 && Steps(r, net, stages, vs) && |vs[0]| == Pow2(net.log)
    requires forall j :: 0 <= j < |stages| ==> Computed(r, net, |stages|, j, c, stages[j])
    ensures |vs| == |stages| + 1 && vs[|stages|] == Scaled(r, c, Chain(r, net, 0, net.log, vs[0]))
  {
    hide *;
    StagesCompose(r, net, stages, |stages|, c, vs);
    StagesCover(net.order, |stages|, net.log);
  }
}
