/** Fused radix-2^k butterfly stages (src/operation/bootstrap.cpp) over any commutative ring. A stage
    is a list of diagonals; diagonal u, counted in units of the stage's rotation, multiplies the vector
    rotated by u units. */
module Butterflies {
  import opened Congruence
  import opened Rings
  import opened MatrixProduct

  /** One radix-2 butterfly: slot s becomes center * v[s] + left * v[s + jump] + right * v[s - jump]. */
  datatype Factor<C> = Factor(center: seq<C>, left: seq<C>, right: seq<C>)

  predicate Sized<C>(f: Factor<C>, n: int) {
    |f.center| == n && |f.left| == n && |f.right| == n
  }

  function Three<C>(r: Ring<C>, f: Factor<C>, s: nat, a: C, b: C, c: C): C
    requires s < |f.center| && Sized(f, |f.center|)
  {
    r.add(r.add(r.mul(f.center[s], a), r.mul(f.left[s], b)), r.mul(f.right[s], c))
  }

  function ButterflySlot<C>(r: Ring<C>, f: Factor<C>, jump: int, v: seq<C>, s: int): C
    requires Sized(f, |v|) && 0 <= s < |v|
  {
    Three(r, f, s, v[s], v[Mod(s + jump, |v|)], v[Mod(s - jump, |v|)])
  }

  function Butterfly<C>(r: Ring<C>, f: Factor<C>, jump: int, v: seq<C>): (w: seq<C>)
    requires Sized(f, |v|)
    ensures |w| == |v|
  {
    seq(|v|, s requires 0 <= s < |v| => ButterflySlot(r, f, jump, v, s))
  }

  // ---------- diagonals ----------

  /** The diagonals of a stage as a function of unit and slot, zero where the stage has none. */
  type Diagonals<!C> = (int, int) -> C

  ghost function Terms<C>(r: Ring<C>, d: Diagonals<C>, rotation: int, v: seq<C>, s: int, shift: int): int -> C
    requires |v| > 0
  {
    u => ActTerm(r, d, rotation, v, s, u + shift)
  }

  /** What the diagonals with units in (-radix, radix) do to slot s of a vector. */
  ghost function Act<C>(r: Ring<C>, d: Diagonals<C>, radix: int, rotation: int, v: seq<C>, s: int): C
    requires |v| > 0
  {
    Sum(r, Terms(r, d, rotation, v, s, 0), -radix + 1, radix)
  }

  ghost function ActTerm<C>(r: Ring<C>, d: Diagonals<C>, rotation: int, v: seq<C>, s: int, u: int): C
    requires |v| > 0
  {
    r.mul(d(u, Mod(s, |v|)), v[Mod(s - u * rotation, |v|)])
  }

  /** Composing a butterfly with diagonals gives diagonals again. */
  ghost predicate Fused<C>(r: Ring<C>, f: Factor<C>, gap: int, jump: int, d: Diagonals<C>, e: Diagonals<C>, n: nat)
    requires n > 0
  {
    Sized(f, n) && forall u, s :: 0 <= s < n ==> e(u, s) == Three(r, f, s, d(u, s), d(u + gap, Mod(s + jump, n)), d(u - gap, Mod(s - jump, n)))
  }

  /** No diagonal closer than `gap` to the edge. */
  ghost predicate Within<C>(r: Ring<C>, d: Diagonals<C>, radix: int, gap: int) {
    forall u, s :: (u <= -radix + gap || u >= radix - gap) ==> d(u, s) == r.zero
  }

  /** Moving the window of a sum over zeros. */
  lemma SumWindow<C(!new)>(r: Ring<C>, f: int -> C, low: int, high: int, shift: int)
    requires Laws(r) && low <= high && 0 <= shift <= high - low
    requires forall u :: low <= u < low + shift || high <= u < high + shift ==> f(u) == r.zero
    ensures Sum(r, f, low + shift, high + shift) == Sum(r, f, low, high)
  {
    hide *;
    SumSplit(r, f, low, low + shift, high);
    SumSplit(r, f, low + shift, high, high + shift);
    SumZero(r, f, low, low + shift);
    SumZero(r, f, high, high + shift);
    AddZero(r, Sum(r, f, low + shift, high));
  }

  lemma ThreeTimes<C(!new)>(r: Ring<C>, p: C, a: C, q: C, b: C, t: C, c: C, w: C)
    requires Laws(r)
    ensures r.mul(r.add(r.add(r.mul(p, a), r.mul(q, b)), r.mul(t, c)), w) ==
            r.add(r.add(r.mul(p, r.mul(a, w)), r.mul(q, r.mul(b, w))), r.mul(t, r.mul(c, w)))
  {
    hide *;
    Distributes(r, w, r.add(r.mul(p, a), r.mul(q, b)), r.mul(t, c));
    Distributes(r, w, r.mul(p, a), r.mul(q, b));
    MulAssociates(r, p, a, w);
    MulAssociates(r, q, b, w);
    MulAssociates(r, t, c, w);
  }

  lemma SlotOf(s: int, u: int, gap: int, rotation: int, jump: int, n: int)
    requires n > 0 && jump == gap * rotation
    ensures Mod(s + jump - (u + gap) * rotation, n) == Mod(s - u * rotation, n)
    ensures Mod(s - jump - (u - gap) * rotation, n) == Mod(s - u * rotation, n)
  {
    hide Mod;
    assert (u + gap) * rotation == u * rotation + gap * rotation;
    assert (u - gap) * rotation == u * rotation - gap * rotation;
  }

  /** One term of the fused sum is three terms of the sum before. */
  lemma TermSplit<C(!new)>(r: Ring<C>, f: Factor<C>, gap: int, rotation: int, jump: int, d: Diagonals<C>, e: Diagonals<C>, v: seq<C>, s: int, u: int)
    requires Laws(r) && |v| > 0 && 0 <= s < |v| && jump == gap * rotation && Fused(r, f, gap, jump, d, e, |v|)
    ensures ActTerm(r, e, rotation, v, s, u) ==
            r.add(r.add(r.mul(f.center[s], ActTerm(r, d, rotation, v, s, u)), r.mul(f.left[s], ActTerm(r, d, rotation, v, s + jump, u + gap))),
                  r.mul(f.right[s], ActTerm(r, d, rotation, v, s - jump, u - gap)))
  {
    hide Laws, Mod;
    ModSmall(s, |v|);
    SlotOf(s, u, gap, rotation, jump, |v|);
    ThreeTimes(r, f.center[s], d(u, s), f.left[s], d(u + gap, Mod(s + jump, |v|)), f.right[s], d(u - gap, Mod(s - jump, |v|)),
               v[Mod(s - u * rotation, |v|)]);
  }

  lemma ZeroTerm<C(!new)>(r: Ring<C>, d: Diagonals<C>, rotation: int, v: seq<C>, s: int, u: int)
    requires Laws(r) && |v| > 0 && d(u, Mod(s, |v|)) == r.zero
    ensures ActTerm(r, d, rotation, v, s, u) == r.zero
  {
    hide Laws, Mod;
    MulZero(r, v[Mod(s - u * rotation, |v|)]);
  }

  /** A sum of three scaled terms is the three scaled sums. */
  lemma SumThree<C(!new)>(r: Ring<C>, p: C, a: int -> C, q: C, b: int -> C, t: C, c: int -> C, e: int -> C, low: int, high: int)
    requires Laws(r)
    requires forall u :: low <= u < high ==> e(u) == r.add(r.add(r.mul(p, a(u)), r.mul(q, b(u))), r.mul(t, c(u)))
    ensures Sum(r, e, low, high) ==
            r.add(r.add(r.mul(p, Sum(r, a, low, high)), r.mul(q, Sum(r, b, low, high))), r.mul(t, Sum(r, c, low, high)))
  {
    hide *;
    var pa, qb, tc := u => r.mul(p, a(u)), u => r.mul(q, b(u)), u => r.mul(t, c(u));
    var ab := u => r.add(pa(u), qb(u));
    SumAdd(r, ab, tc, e, low, high);
    SumAdd(r, pa, qb, ab, low, high);
    SumScale(r, p, a, pa, low, high);
    SumScale(r, q, b, qb, low, high);
    SumScale(r, t, c, tc, low, high);
  }

  /** Shifting the units either way changes nothing when the edges are zero. */
  lemma SumEdges<C(!new)>(r: Ring<C>, f: int -> C, g: int -> C, radix: int, gap: int, shift: int)
    requires Laws(r) && 0 <= gap < radix && (shift == gap || shift == -gap)
    requires forall u :: u <= -radix + gap || u >= radix - gap ==> f(u) == r.zero
    requires forall u :: -radix < u < radix ==> g(u) == f(u + shift)
    ensures Sum(r, g, -radix + 1, radix) == Sum(r, f, -radix + 1, radix)
  {
    hide *;
    SumShift(r, g, f, -radix + 1, radix, shift);
    if shift == gap {
      SumWindow(r, f, -radix + 1, radix, gap);
    } else {
      SumWindow(r, f, -radix + 1 - gap, radix - gap, gap);
    }
  }

  /** The sum over shifted units is the whole action at another slot. */
  lemma ShiftedAct<C(!new)>(r: Ring<C>, d: Diagonals<C>, radix: int, rotation: int, v: seq<C>, s: int, gap: int, shift: int)
    requires Laws(r) && |v| > 0 && 0 <= gap < radix && Within(r, d, radix, gap) && (shift == gap || shift == -gap || shift == 0)
    ensures Sum(r, Terms(r, d, rotation, v, s, shift), -radix + 1, radix) == Act(r, d, radix, rotation, v, s)
  {
    hide Laws, ActTerm, Mod;
    var f := Terms(r, d, rotation, v, s, 0);
    forall u | u <= -radix + gap || u >= radix - gap ensures f(u) == r.zero {
      ZeroTerm(r, d, rotation, v, s, u);
    }
    if shift != 0 { SumEdges(r, f, Terms(r, d, rotation, v, s, shift), radix, gap, shift); }
  }

  /** The fused diagonals act as the butterfly after the diagonals. */
  lemma FusedAct<C(!new)>(r: Ring<C>, f: Factor<C>, gap: int, radix: int, rotation: int, jump: int, d: Diagonals<C>, e: Diagonals<C>, v: seq<C>, s: int)
    requires Laws(r) && |v| > 0 && 0 <= s < |v| && jump == gap * rotation && Fused(r, f, gap, jump, d, e, |v|)
    requires 0 <= gap < radix && Within(r, d, radix, gap)
    ensures Act(r, e, radix, rotation, v, s) ==
            Three(r, f, s, Act(r, d, radix, rotation, v, s), Act(r, d, radix, rotation, v, s + jump), Act(r, d, radix, rotation, v, s - jump))
  {
    hide *;
    var a, b, c := Terms(r, d, rotation, v, s, 0), Terms(r, d, rotation, v, s + jump, gap), Terms(r, d, rotation, v, s - jump, -gap);
    var g := Terms(r, e, rotation, v, s, 0);
    SizedOf(r, f, gap, jump, d, e, |v|);
    forall u ensures g(u) == r.add(r.add(r.mul(f.center[s], a(u)), r.mul(f.left[s], b(u))), r.mul(f.right[s], c(u))) {
      TermSplit(r, f, gap, rotation, jump, d, e, v, s, u);
      TermAt(r, e, rotation, v, s, 0, u);
      TermAt(r, d, rotation, v, s, 0, u);
      TermAt(r, d, rotation, v, s + jump, gap, u);
      TermAt(r, d, rotation, v, s - jump, -gap, u);
    }
    ShiftedAct(r, d, radix, rotation, v, s, gap, 0);
    ShiftedAct(r, d, radix, rotation, v, s + jump, gap, gap);
    ShiftedAct(r, d, radix, rotation, v, s - jump, gap, -gap);
    SumThree(r, f.center[s], a, f.left[s], b, f.right[s], c, g, -radix + 1, radix);
    ThreeIs(r, f, s, Sum(r, a, -radix + 1, radix), Sum(r, b, -radix + 1, radix), Sum(r, c, -radix + 1, radix));
    ActIs(r, e, radix, rotation, v, s);
  }

  lemma TermAt<C>(r: Ring<C>, d: Diagonals<C>, rotation: int, v: seq<C>, s: int, shift: int, u: int)
    requires |v| > 0
    ensures Terms(r, d, rotation, v, s, shift)(u) == ActTerm(r, d, rotation, v, s, u + shift)
  {
  }

  lemma SizedOf<C>(r: Ring<C>, f: Factor<C>, gap: int, jump: int, d: Diagonals<C>, e: Diagonals<C>, n: nat)
    requires n > 0 && Fused(r, f, gap, jump, d, e, n)
    ensures |f.center| == |f.left| == |f.right| == n && Sized(f, n)
  {
  }

  lemma ThreeIs<C>(r: Ring<C>, f: Factor<C>, s: int, a: C, b: C, c: C)
    requires 0 <= s < |f.center| && Sized(f, |f.center|)
    ensures Three(r, f, s, a, b, c) == r.add(r.add(r.mul(f.center[s], a), r.mul(f.left[s], b)), r.mul(f.right[s], c))
  {
  }

  lemma ActIs<C>(r: Ring<C>, d: Diagonals<C>, radix: int, rotation: int, v: seq<C>, s: int)
    requires |v| > 0
    ensures Act(r, d, radix, rotation, v, s) == Sum(r, Terms(r, d, rotation, v, s, 0), -radix + 1, radix)
  {
  }

  // ---------- one fusing step ----------

  /** The shape of one step: 2 * radix - 1 diagonals of n slots; centers at the multiples of `spacing`
      with index in (-count, count); a butterfly that reaches `gap` units, that is `jump` slots. */
  datatype Geometry = Geometry(radix: int, n: int, count: int, spacing: int, gap: int, jump: int)

  ghost predicate Fits(g: Geometry) {
    g.radix >= 1 && g.n >= 1 && g.count >= 1 && g.spacing >= 1 && g.gap >= 1 && (g.count - 1) * g.spacing + g.gap < g.radix
  }

  ghost predicate IsStage<C>(stage: seq<seq<C>>, g: Geometry) {
    g.radix >= 1 && |stage| == 2 * g.radix - 1 && forall i :: 0 <= i < |stage| ==> |stage[i]| == g.n
  }

  /** The diagonal of a unit, stored at its residue modulo the number of diagonals. */
  function At<C>(stage: seq<seq<C>>, u: int, s: int): (c: C)
    requires |stage| > 0 && 0 <= s < |stage[Mod(u, |stage|)]|
  {
    stage[Mod(u, |stage|)][s]
  }

  /** Units in the open range of a stage have places of their own. */
  lemma PlacesDiffer(u: int, w: int, radix: int)
    requires -radix < u < radix && -radix < w < radix && Mod(u, 2 * radix - 1) == Mod(w, 2 * radix - 1)
    ensures u == w
  {
    SameResidue(u, w, 2 * radix - 1);
    hide *;
    Unique(u, w, -radix + 1, 2 * radix - 1);
  }

  lemma SameResidue(u: int, w: int, t: int)
    requires t > 0 && Mod(u, t) == Mod(w, t)
    ensures Cong(u, w, t)
  {
  }

  /** Centers visited before index i. */
  predicate Visited(g: Geometry, i: int, u: int) {
    g.spacing >= 1 && u % g.spacing == 0 && -g.count < u / g.spacing < i
  }

  lemma VisitedBy(g: Geometry, i: int, u: int)
    requires g.spacing >= 1 && -g.count < i < g.count
    ensures Visited(g, i + 1, u) <==> Visited(g, i, u) || u == i * g.spacing
    ensures !Visited(g, i, i * g.spacing)
  {
    DivModUnique(i * g.spacing, i, 0, g.spacing);
    assert u == (u / g.spacing) * g.spacing + u % g.spacing;
  }

  /** The visited diagonals, zero elsewhere. */
  ghost function Hat<C>(r: Ring<C>, g: Geometry, before: seq<seq<C>>, i: int, u: int, s: int): C
    requires IsStage(before, g)
  {
    if Visited(g, i, u) && 0 <= s < g.n then At(before, u, s) else r.zero
  }

  ghost function Partial<C>(r: Ring<C>, g: Geometry, f: Factor<C>, before: seq<seq<C>>, i: int, u: int, s: int): C
    requires IsStage(before, g) && Sized(f, g.n) && 0 <= s < g.n
  {
    Three(r, f, s, Hat(r, g, before, i, u, s), Hat(r, g, before, i, u + g.gap, Mod(s + g.jump, g.n)), Hat(r, g, before, i, u - g.gap, Mod(s - g.jump, g.n)))
  }

  /** The accumulated stage after all centers before index i, and center i for the slots below `slots`. */
  ghost predicate Accumulated<C>(r: Ring<C>, g: Geometry, f: Factor<C>, before: seq<seq<C>>, stage: seq<seq<C>>, i: int, slots: int)
    requires IsStage(before, g) && Sized(f, g.n)
  {
    IsStage(stage, g) && forall u, s :: -g.radix < u < g.radix && 0 <= s < g.n ==>
      At(stage, u, s) == Partial(r, g, f, before, if s < slots then i + 1 else i, u, s)
  }

  lemma ReplaceFirst<C(!new)>(r: Ring<C>, p: C, x: C, b: C, c: C)
    requires Laws(r)
    ensures r.add(r.add(r.add(r.mul(p, r.zero), b), c), r.mul(p, x)) == r.add(r.add(r.mul(p, x), b), c)
  {
    hide *;
    var y := r.mul(p, x);
    MulZero(r, p);
    AddZero(r, b);
    AddCommutes(r, r.add(b, c), y);
    AddAssociates(r, y, b, c);
  }

  lemma ReplaceSecond<C(!new)>(r: Ring<C>, a: C, q: C, x: C, c: C)
    requires Laws(r)
    ensures r.add(r.add(r.add(a, r.mul(q, r.zero)), c), r.mul(q, x)) == r.add(r.add(a, r.mul(q, x)), c)
  {
    hide *;
    var y := r.mul(q, x);
    MulZero(r, q);
    AddZero(r, a);
    AddAssociates(r, a, c, y);
    AddCommutes(r, c, y);
    AddAssociates(r, a, y, c);
  }

  lemma ReplaceThird<C(!new)>(r: Ring<C>, ab: C, t: C, x: C)
    requires Laws(r)
    ensures r.add(r.add(ab, r.mul(t, r.zero)), r.mul(t, x)) == r.add(ab, r.mul(t, x))
  {
    hide *;
    MulZero(r, t);
    AddZero(r, ab);
  }

  /** What center i adds at unit u. */
  lemma PartialStep<C(!new)>(r: Ring<C>, g: Geometry, f: Factor<C>, before: seq<seq<C>>, i: int, u: int, s: int)
    requires Laws(r) && Fits(g) && IsStage(before, g) && Sized(f, g.n) && 0 <= s < g.n && -g.count < i < g.count
    ensures var unit := i * g.spacing;
      Partial(r, g, f, before, i + 1, u, s) ==
      var old' := Partial(r, g, f, before, i, u, s);
      if u == unit then r.add(old', r.mul(f.center[s], At(before, unit, s)))
      else if u == unit - g.gap then r.add(old', r.mul(f.left[s], At(before, unit, Mod(s + g.jump, g.n))))
      else if u == unit + g.gap then r.add(old', r.mul(f.right[s], At(before, unit, Mod(s - g.jump, g.n))))
      else old'
  {
    hide Laws, Mod, Visited, At;
    var unit := i * g.spacing;
    VisitedBy(g, i, u);
    VisitedBy(g, i, u + g.gap);
    VisitedBy(g, i, u - g.gap);
    var a, b, c := Hat(r, g, before, i, u, s), Hat(r, g, before, i, u + g.gap, Mod(s + g.jump, g.n)), Hat(r, g, before, i, u - g.gap, Mod(s - g.jump, g.n));
    if u == unit {
      ReplaceFirst(r, f.center[s], At(before, unit, s), r.mul(f.left[s], b), r.mul(f.right[s], c));
    } else if u == unit - g.gap {
      ReplaceSecond(r, r.mul(f.center[s], a), f.left[s], At(before, unit, Mod(s + g.jump, g.n)), r.mul(f.right[s], c));
    } else if u == unit + g.gap {
      ReplaceThird(r, r.add(r.mul(f.center[s], a), r.mul(f.left[s], b)), f.right[s], At(before, unit, Mod(s - g.jump, g.n)));
    }
  }

  lemma UnitBound(g: Geometry, i: int)
    requires Fits(g) && -g.count < i < g.count
    ensures -g.radix < i * g.spacing - g.gap && i * g.spacing + g.gap < g.radix
  {
    TimesMonotone(i, g.count - 1, g.spacing);
    TimesMonotone(-(g.count - 1), i, g.spacing);
    TimesNegated(g.count - 1, g.spacing);
  }

  /** stage[u][s] += x. */
  function AddAt<C>(r: Ring<C>, stage: seq<seq<C>>, u: int, s: int, x: C): (result: seq<seq<C>>)
    requires |stage| > 0 && 0 <= s < |stage[Mod(u, |stage|)]|
    ensures |result| == |stage| && forall k :: 0 <= k < |stage| ==> |result[k]| == |stage[k]|
  {
    var k := Mod(u, |stage|);
    stage[k := stage[k][s := r.add(stage[k][s], x)]]
  }

  lemma AddAtIs<C>(r: Ring<C>, g: Geometry, stage: seq<seq<C>>, u: int, s: int, x: C, w: int, t: int)
    requires IsStage(stage, g) && -g.radix < u < g.radix && -g.radix < w < g.radix && 0 <= s < g.n && 0 <= t < g.n
    ensures IsStage(AddAt(r, stage, u, s, x), g)
    ensures At(AddAt(r, stage, u, s, x), w, t) == if w == u && t == s then r.add(At(stage, u, s), x) else At(stage, w, t)
  {
    hide Mod;
    if Mod(w, |stage|) == Mod(u, |stage|) { PlacesDiffer(u, w, g.radix); }
  }

  /** The three updates of the innermost loop. */
  function SlotUpdate<C>(r: Ring<C>, g: Geometry, f: Factor<C>, before: seq<seq<C>>, stage: seq<seq<C>>, unit: int, s: int): (result: seq<seq<C>>)
    requires IsStage(before, g) && IsStage(stage, g) && Sized(f, g.n) && 0 <= s < g.n
    ensures IsStage(result, g)
  {
    var a := AddAt(r, stage, unit, s, r.mul(f.center[s], At(before, unit, s)));
    var b := AddAt(r, a, unit - g.gap, s, r.mul(f.left[s], At(before, unit, Mod(s + g.jump, g.n))));
    AddAt(r, b, unit + g.gap, s, r.mul(f.right[s], At(before, unit, Mod(s - g.jump, g.n))))
  }

  lemma SlotUpdateAt<C(!new)>(r: Ring<C>, g: Geometry, f: Factor<C>, before: seq<seq<C>>, stage: seq<seq<C>>, i: int, s: int, u: int, t: int)
    requires Laws(r) && Fits(g) && IsStage(before, g) && Sized(f, g.n) && 0 <= s < g.n && -g.count < i < g.count
    requires IsStage(stage, g) && -g.radix < u < g.radix && 0 <= t < g.n
    requires At(stage, u, t) == Partial(r, g, f, before, if t < s then i + 1 else i, u, t)
    ensures At(SlotUpdate(r, g, f, before, stage, i * g.spacing, s), u, t) == Partial(r, g, f, before, if t < s + 1 then i + 1 else i, u, t)
  {
    hide Laws, Mod, At, AddAt, Partial, Fits;
    Positive(g);
    UnitBound(g, i);
    var unit := i * g.spacing;
    var x, y, z := r.mul(f.center[s], At(before, unit, s)), r.mul(f.left[s], At(before, unit, Mod(s + g.jump, g.n))), r.mul(f.right[s], At(before, unit, Mod(s - g.jump, g.n)));
    var a := AddAt(r, stage, unit, s, x);
    var b := AddAt(r, a, unit - g.gap, s, y);
    AddAtIs(r, g, stage, unit, s, x, u, t);
    AddAtIs(r, g, a, unit - g.gap, s, y, u, t);
    AddAtIs(r, g, b, unit + g.gap, s, z, u, t);
    if t == s { PartialStep(r, g, f, before, i, u, s); }
  }

  lemma Positive(g: Geometry)
    requires Fits(g)
    ensures g.radix >= 1 && g.n >= 1 && g.count >= 1 && g.spacing >= 1 && g.gap >= 1
  {
  }

  lemma SlotStep<C(!new)>(r: Ring<C>, g: Geometry, f: Factor<C>, before: seq<seq<C>>, stage: seq<seq<C>>, i: int, s: int)
    requires Laws(r) && Fits(g) && IsStage(before, g) && Sized(f, g.n) && 0 <= s < g.n && -g.count < i < g.count
    requires Accumulated(r, g, f, before, stage, i, s)
    ensures Accumulated(r, g, f, before, SlotUpdate(r, g, f, before, stage, i * g.spacing, s), i, s + 1)
  {
    hide Laws, At, Partial, Fits, SlotUpdate;
    var result := SlotUpdate(r, g, f, before, stage, i * g.spacing, s);
    forall u, t | -g.radix < u < g.radix && 0 <= t < g.n
      ensures At(result, u, t) == Partial(r, g, f, before, if t < s + 1 then i + 1 else i, u, t)
    {
      SlotUpdateAt(r, g, f, before, stage, i, s, u, t);
    }
  }

  lemma NextCenter<C>(r: Ring<C>, g: Geometry, f: Factor<C>, before: seq<seq<C>>, stage: seq<seq<C>>, i: int)
    requires IsStage(before, g) && Sized(f, g.n) && Accumulated(r, g, f, before, stage, i, g.n)
    ensures Accumulated(r, g, f, before, stage, i + 1, 0)
  {
    hide At, Partial;
  }

  /** Before the first center everything is zero. */
  lemma NoCenter<C(!new)>(r: Ring<C>, g: Geometry, f: Factor<C>, before: seq<seq<C>>, stage: seq<seq<C>>)
    requires Laws(r) && Fits(g) && IsStage(before, g) && IsStage(stage, g) && Sized(f, g.n)
    requires forall k, s :: 0 <= k < |stage| && 0 <= s < g.n ==> stage[k][s] == r.zero
    ensures Accumulated(r, g, f, before, stage, -g.count + 1, 0)
  {
    hide Laws, Mod;
    forall u, s | -g.radix < u < g.radix && 0 <= s < g.n ensures At(stage, u, s) == Partial(r, g, f, before, -g.count + 1, u, s) {
      MulZero(r, f.center[s]);
      MulZero(r, f.left[s]);
      MulZero(r, f.right[s]);
      AddZero(r, r.zero);
    }
  }

  /** The loops over centers and slots: swap the accumulator in, and add three diagonals per center. */
  method FuseStep<C(!new)>(r: Ring<C>, g: Geometry, f: Factor<C>, before: seq<seq<C>>) returns (stage: seq<seq<C>>)
    requires Laws(r) && Fits(g) && IsStage(before, g) && Sized(f, g.n)
    ensures Accumulated(r, g, f, before, stage, g.count, 0)
  {
    hide Laws, Accumulated, Fits, At, AddAt;
    Positive(g);
    stage := seq(2 * g.radix - 1, k => seq(g.n, s => r.zero));
    NoCenter(r, g, f, before, stage);
    for index := -g.count + 1 to g.count
      invariant IsStage(stage, g) && Accumulated(r, g, f, before, stage, index, 0)
    {
      var unitIndex := index * g.spacing;
      for slot := 0 to g.n
        invariant IsStage(stage, g) && Accumulated(r, g, f, before, stage, index, slot)
      {
        SlotStep(r, g, f, before, stage, index, slot);
        stage := SlotUpdate(r, g, f, before, stage, unitIndex, slot);
      }
      NextCenter(r, g, f, before, stage, index);
    }
  }

  // ---------- what a step means ----------

  ghost function HatOf<C>(r: Ring<C>, g: Geometry, stage: seq<seq<C>>): Diagonals<C>
    requires IsStage(stage, g)
  {
    (u, s) => Hat(r, g, stage, g.count, u, s)
  }

  /** The geometry of the next step: twice the centers, and every place that was reached is a center. */
  ghost predicate Refines(g: Geometry, h: Geometry) {
    && h.radix == g.radix && h.n == g.n && h.count == 2 * g.count && g.gap >= 1
    && ((g.spacing == 2 * g.gap && h.spacing == g.gap) || (g.spacing == 1 && h.spacing == 1 && g.gap == g.count))
  }

  lemma VisitedMeans(g: Geometry, u: int) returns (k: int)
    requires Visited(g, g.count, u)
    ensures u == k * g.spacing && -g.count < k < g.count
  {
    k := u / g.spacing;
  }

  lemma VisitedIs(g: Geometry, k: int)
    requires g.spacing >= 1 && -g.count < k < g.count
    ensures Visited(g, g.count, k * g.spacing)
  {
    DivModUnique(k * g.spacing, k, 0, g.spacing);
  }

  /** A place that a center reaches is a center of the next step. */
  lemma ReachedIsCenter(g: Geometry, h: Geometry, u: int, w: int)
    requires Refines(g, h) && Visited(g, g.count, w) && (u == w || u == w - g.gap || u == w + g.gap)
    ensures Visited(h, h.count, u)
  {
    var k := VisitedMeans(g, w);
    hide Visited;
    if g.spacing == 1 {
      var next := k + (u - w);
      OneSpace(k, next);
      VisitedIs(h, next);
    } else {
      var side := if u == w then 0 else if u == w - g.gap then -1 else 1;
      HalfSpace(k, side, g.gap, w, u);
      VisitedIs(h, 2 * k + side);
    }
  }

  lemma OneSpace(k: int, next: int)
    ensures k * 1 == k && next * 1 == next
  {
  }

  /** Between centers: w is a multiple of twice the gap and u one gap to the side. */
  lemma HalfSpace(k: int, side: int, gap: int, w: int, u: int)
    requires w == k * (2 * gap) && -1 <= side <= 1
    requires u == w + (if side == 0 then 0 else if side == -1 then -gap else gap)
    ensures u == (2 * k + side) * gap
  {
    TwiceTimes(k, side, gap);
  }

  lemma TwiceTimes(k: int, side: int, gap: int)
    ensures (2 * k + side) * gap == k * (2 * gap) + side * gap
  {
  }

  lemma CenterInside(g: Geometry, u: int)
    requires Fits(g) && Visited(g, g.count, u)
    ensures -g.radix + g.gap < u < g.radix - g.gap
  {
    var k := VisitedMeans(g, u);
    UnitBound(g, k);
  }

  lemma HatWithin<C>(r: Ring<C>, g: Geometry, stage: seq<seq<C>>)
    requires Fits(g) && IsStage(stage, g)
    ensures Within(r, HatOf(r, g, stage), g.radix, g.gap) && 0 <= g.gap < g.radix
  {
    hide Fits, Visited, At;
    Positive(g);
    UnitBound(g, 0);
    forall u, s | u <= -g.radix + g.gap || u >= g.radix - g.gap ensures Hat(r, g, stage, g.count, u, s) == r.zero {
      if Visited(g, g.count, u) { CenterInside(g, u); }
    }
  }

  lemma NextCenters<C>(g: Geometry, h: Geometry, u: int)
    requires Fits(g) && Refines(g, h) && Visited(h, h.count, u)
    ensures -g.radix < u < g.radix
  {
    var k := VisitedMeans(h, u);
    var top := 2 * g.count - 1;
    TimesMonotone(k, top, h.spacing);
    TimesMonotone(-top, k, h.spacing);
    TimesNegated(top, h.spacing);
    if g.spacing != 1 { TwiceTimes(g.count - 1, 1, g.gap); }
  }

  lemma ThreeZeros<C(!new)>(r: Ring<C>, f: Factor<C>, s: int)
    requires Laws(r) && 0 <= s < |f.center| && Sized(f, |f.center|)
    ensures Three(r, f, s, r.zero, r.zero, r.zero) == r.zero
  {
    hide Laws;
    MulZero(r, f.center[s]);
    MulZero(r, f.left[s]);
    MulZero(r, f.right[s]);
    AddZero(r, r.zero);
  }

  /** A fusing step composes its butterfly with the diagonals before it. */
  lemma StepFuses<C(!new)>(r: Ring<C>, g: Geometry, h: Geometry, f: Factor<C>, before: seq<seq<C>>, stage: seq<seq<C>>)
    requires Laws(r) && Fits(g) && Refines(g, h) && IsStage(before, g) && Sized(f, g.n) && g.n >= 1
    requires Accumulated(r, g, f, before, stage, g.count, 0)
    ensures IsStage(stage, h) && Fused(r, f, g.gap, g.jump, HatOf(r, g, before), HatOf(r, h, stage), g.n)
  {
    hide Laws, Fits, Visited, Mod, At;
    var d, e := HatOf(r, g, before), HatOf(r, h, stage);
    forall u, s | 0 <= s < g.n
      ensures Hat(r, h, stage, h.count, u, s) == Three(r, f, s, Hat(r, g, before, g.count, u, s),
        Hat(r, g, before, g.count, u + g.gap, Mod(s + g.jump, g.n)), Hat(r, g, before, g.count, u - g.gap, Mod(s - g.jump, g.n)))
    {
      if Visited(h, h.count, u) {
        NextCenters<C>(g, h, u);
      } else {
        if Visited(g, g.count, u) { ReachedIsCenter(g, h, u, u); }
        if Visited(g, g.count, u + g.gap) { ReachedIsCenter(g, h, u, u + g.gap); }
        if Visited(g, g.count, u - g.gap) { ReachedIsCenter(g, h, u, u - g.gap); }
        ThreeZeros(r, f, s);
      }
    }
  }
}
