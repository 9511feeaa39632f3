/** The order of the slots (src/ckks/encode.cpp): two permutations conjugated by their cycle lists. */
module SlotOrder {
  import opened Congruence
  import opened Cycles
  import Montgomery
  import Rotation

  // ---------- conjugation ----------

  /** g carries the first permutation to the second. */
  ghost predicate Conjugates(g: seq<nat>, p1: seq<nat>, p2: seq<nat>) {
    && |g| == |p1| == |p2| && IsPermutation(g) && IsPermutation(p1) && IsPermutation(p2)
    && forall x :: 0 <= x < |p1| ==> g[p1[x]] == p2[g[x]]
  }

  /** Position by position, g takes one list to the other. */
  ghost predicate Matches(g: seq<nat>, c1: seq<nat>, c2: seq<nat>) {
    && |g| == |c1| == |c2| && Distinct(c1, |g|) && Distinct(c2, |g|)
    && forall i :: 0 <= i < |g| ==> g[c1[i]] == c2[i]
  }

  lemma Listed(c: seq<nat>, x: nat) returns (i: nat)
    requires Distinct(c, |c|) && x < |c|
    ensures i < |c| && c[i] == x
  {
    Pigeonhole(c, |c|);
    assert x in c;
    i :| 0 <= i < |c| && c[i] == x;
  }

  lemma MatchIsPermutation(g: seq<nat>, c1: seq<nat>, c2: seq<nat>)
    requires Matches(g, c1, c2)
    ensures IsPermutation(g)
  {
    forall x | 0 <= x < |g| ensures g[x] < |g| {
      var i := Listed(c1, x);
    }
    forall x, y | 0 <= x < y < |g| ensures g[x] != g[y] {
      var i := Listed(c1, x);
      var j := Listed(c1, y);
      assert c2[i] != c2[j];
    }
  }

  /** Lists with the same cycle lengths in the same order conjugate. */
  lemma SameShape(g: seq<nat>, p1: seq<nat>, p2: seq<nat>, c1: seq<nat>, c2: seq<nat>, first: seq<nat>)
    requires Matches(g, c1, c2) && |p1| == |p2| == |g| && IsPermutation(p1) && IsPermutation(p2)
    requires ListsCycles(p1, c1, first) && ListsCycles(p2, c2, first)
    ensures Conjugates(g, p1, p2)
  {
    MatchIsPermutation(g, c1, c2);
    forall x | 0 <= x < |p1| ensures g[p1[x]] == p2[g[x]] {
      var i := Listed(c1, x);
      assert p1[c1[i]] == c1[Successor(first, i)] && p2[c2[i]] == c2[Successor(first, i)];
    }
  }

  /** conjugate_permutations: always a bijection, and a conjugation whenever the cycle lengths match. */
  method ConjugatePermutations(p1: seq<nat>, p2: seq<nat>)
    returns (output: seq<nat>, ghost c1: seq<nat>, ghost first1: seq<nat>, ghost starts1: seq<nat>,
             ghost c2: seq<nat>, ghost first2: seq<nat>, ghost starts2: seq<nat>)
    requires IsPermutation(p1) && IsPermutation(p2) && |p1| == |p2|
    ensures ListsCycles(p1, c1, first1) && Starts(p1, c1, first1, starts1) && ListsCycles(p2, c2, first2) && Starts(p2, c2, first2, starts2)
    ensures |output| == |p1| && Matches(output, c1, c2) && IsPermutation(output)
    ensures first1 == first2 ==> Conjugates(output, p1, p2)
  {
    hide ListsCycles, Starts, Conjugates;
    var cycle1, f1, s1 := GetPermutationCycles(p1);
    var cycle2, f2, s2 := GetPermutationCycles(p2);
    c1, first1, starts1, c2, first2, starts2 := cycle1, f1, s1, cycle2, f2, s2;
    ListIsDistinct(p1, c1, first1);
    ListIsDistinct(p2, c2, first2);
    output := seq(|p1|, i => 0);
    for index := 0 to |p1|
      invariant |output| == |p1| && forall i :: 0 <= i < index ==> output[cycle1[i]] == cycle2[i]
    {
      output := output[cycle1[index] := cycle2[index]];
    }
    MatchIsPermutation(output, c1, c2);
    if first1 == first2 { SameShape(output, p1, p2, c1, c2, first1); }
  }

  lemma ListIsDistinct(p: seq<nat>, c: seq<nat>, first: seq<nat>)
    requires ListsCycles(p, c, first)
    ensures Distinct(c, |p|)
  {
  }

  ghost predicate Inverse(q: seq<nat>, p: seq<nat>) {
    |q| == |p| && forall i :: 0 <= i < |p| ==> p[i] < |p| && q[p[i]] == i
  }

  /** invert_permutation. */
  method InvertPermutation(p: seq<nat>) returns (output: seq<nat>)
    requires IsPermutation(p)
    ensures Inverse(output, p) && Inverse(p, output)
  {
    output := seq(|p|, i => 0);
    for index := 0 to |p|
      invariant |output| == |p| && forall i :: 0 <= i < index ==> output[p[i]] == i
    {
      output := output[p[index] := index];
    }
    forall x | 0 <= x < |p| ensures output[x] < |p| && p[output[x]] == x {
      var i := Listed(p, x);
    }
  }

  // ---------- the shape of a permutation with two cycles ----------

  function Iterate(p: seq<nat>, x: nat, k: nat): nat {
    if k == 0 then x
    else
      var y := Iterate(p, x, k - 1);
      if y < |p| then p[y] else y
  }

  ghost predicate Period(p: seq<nat>, x: nat, h: nat) {
    h >= 1 && Iterate(p, x, h) == x && forall k :: 0 < k < h ==> Iterate(p, x, k) != x
  }

  lemma {:induction false} AlongCycle(p: seq<nat>, c: seq<nat>, first: seq<nat>, s: nat, k: nat)
    requires ListsCycles(p, c, first) && s + k < |c| && forall i :: s <= i <= s + k ==> first[i] == first[s]
    ensures c[s + k] == Iterate(p, c[s], k)
  {
    if k > 0 {
      AlongCycle(p, c, first, s, k - 1);
      assert Successor(first, s + k - 1) == s + k;
    }
  }

  lemma {:induction false} SameUntilEnd(first: seq<nat>, i: nat)
    requires i < |first| && Segments(first)
    ensures forall j :: i <= j <= End(first, i) ==> first[j] == first[i]
    ensures End(first, i) + 1 < |first| ==> first[End(first, i) + 1] == End(first, i) + 1
    decreases |first| - i
  {
    if i + 1 < |first| && first[i + 1] == first[i] { SameUntilEnd(first, i + 1); }
  }

  /** A cycle is as long as the period of its elements. */
  lemma CycleLength(p: seq<nat>, c: seq<nat>, first: seq<nat>, s: nat, h: nat)
    requires ListsCycles(p, c, first) && s < |c| && first[s] == s && Period(p, c[s], h)
    ensures End(first, s) == s + h - 1
  {
    var e := End(first, s);
    SameUntilEnd(first, s);
    EndCloses(first, s);
    AlongCycle(p, c, first, s, e - s);
    assert p[c[e]] == c[s];
    assert Iterate(p, c[s], e - s + 1) == c[s];
    if e - s + 1 > h {
      AlongCycle(p, c, first, s, h);
    }
  }

  ghost predicate Halves(first: seq<nat>, h: nat) {
    |first| == 2 * h && forall i :: 0 <= i < 2 * h ==> first[i] == if i < h then 0 else h
  }

  /** Two cycles of the same length h. */
  lemma TwoCycles(p: seq<nat>, c: seq<nat>, first: seq<nat>, h: nat)
    requires ListsCycles(p, c, first) && |p| == |c| == 2 * h && h >= 1
    requires forall x: nat :: x < |p| ==> Period(p, x, h)
    ensures Halves(first, h)
  {
    CycleLength(p, c, first, 0, h);
    SameUntilEnd(first, 0);
    CycleLength(p, c, first, h, h);
    SameUntilEnd(first, h);
  }

  // ---------- the circular shift ----------

  /** One step left in the left half, one step right in the right half. */
  function Shifted(h: nat, x: nat): nat
    requires x < 2 * h
  {
    if x == 0 then h - 1 else if x < h then x - 1 else if x == 2 * h - 1 then h else x + 1
  }

  method CircularShiftPermutation(size: nat) returns (output: seq<nat>)
    requires size >= 2 && size % 2 == 0
    ensures |output| == size && forall x :: 0 <= x < size ==> output[x] == Shifted(size / 2, x)
    ensures IsPermutation(output)
  {
    var halfSize := size / 2;
    output := seq(size, i => 0);
    output := output[0 := halfSize - 1];
    for leftIndex := 1 to halfSize
      invariant |output| == size && forall x :: 0 <= x < leftIndex ==> output[x] == Shifted(halfSize, x)
    {
      output := output[leftIndex := leftIndex - 1];
    }
    for rightIndex := halfSize to size - 1
      invariant |output| == size && forall x :: 0 <= x < rightIndex ==> output[x] == Shifted(halfSize, x)
    {
      output := output[rightIndex := rightIndex + 1];
    }
    output := output[size - 1 := halfSize];
  }

  ghost predicate IsShift(p: seq<nat>, h: nat) {
    h >= 1 && |p| == 2 * h && forall x :: 0 <= x < 2 * h ==> p[x] == Shifted(h, x)
  }

  lemma {:induction false} ShiftIterate(p: seq<nat>, h: nat, x: nat, k: nat)
    requires IsShift(p, h) && x < 2 * h && k <= h
    ensures Iterate(p, x, k) ==
            if x < h then (if k <= x then x - k else x + h - k) else if x + k < 2 * h then x + k else x + k - h
  {
    if k > 0 { ShiftIterate(p, h, x, k - 1); }
  }

  lemma ShiftPeriod(p: seq<nat>, h: nat, x: nat)
    requires IsShift(p, h) && x < 2 * h
    ensures Period(p, x, h)
  {
    ShiftIterate(p, h, x, h);
    forall k | 0 < k < h ensures Iterate(p, x, k) != x {
      ShiftIterate(p, h, x, k);
    }
  }

  // ---------- the order of five ----------

  /** Odd numbers are invertible modulo powers of two. */
  lemma {:induction false} OddOrder(a: int, k: nat)
    requires a % 2 == 1
    ensures Cong(Pow(a, Pow2(k)), 1, Pow2(k + 1))
  {
    if k == 0 {
      assert Pow(a, 1) == a * Pow(a, 0) && Pow2(1) == 2;
      FromQuotient(a, 1, 2, a / 2);
    } else {
      OddOrder(a, k - 1);
      hide *;
      Pow2Double(k - 1);
      Pow2Double(k);
      PowAdd(a, Pow2(k - 1), Pow2(k - 1));
      Rotation.Pow2Even(k - 1);
      Rotation.SquareOne(Pow(a, Pow2(k - 1)), Pow2(k));
    }
  }

  lemma OddInverse(a: int, k: nat) returns (y: int)
    requires a % 2 == 1
    ensures Cong(a * y, 1, Pow2(k))
  {
    OddOrder(a, k);
    hide *;
    Pow2Double(k);
    Factor(Pow(a, Pow2(k)), 1, 2, Pow2(k));
    y := Pow(a, Pow2(k) - 1);
    PowPeeled(a, Pow2(k));
  }

  lemma PowPeeled(a: int, e: nat)
    requires e > 0
    ensures Pow(a, e) == a * Pow(a, e - 1)
  {
  }

  lemma CancelOdd(odd: int, a: int, b: int, k: nat)
    requires odd % 2 == 1 && Cong(odd * a, odd * b, Pow2(k))
    ensures Cong(a, b, Pow2(k))
  {
    var y := OddInverse(odd, k);
    Cancel(odd, y, a, b, Pow2(k));
  }

  lemma {:induction false} FiveModuloEight(j: nat)
    ensures Pow(5, j) % 8 == (if j % 2 == 1 then 5 else 1)
  {
    if j > 0 {
      FiveModuloEight(j - 1);
      var before := Pow(5, j - 1);
      assert Pow(5, j) == 5 * before;
      hide *;
      FiveTimes(before);
    }
  }

  lemma FiveTimes(x: int)
    ensures x % 8 == 1 ==> (5 * x) % 8 == 5
    ensures x % 8 == 5 ==> (5 * x) % 8 == 1
  {
  }

  /** 5^j = 1 modulo 2^(n + 2) only if 2^n divides j. */
  lemma {:induction false} FiveExactOrder(n: nat, j: nat)
    requires Cong(Pow(5, j), 1, Pow2(n + 2))
    ensures j % Pow2(n) == 0
  {
    hide *;
    Pow2Double(0);
    if n > 0 {
      FiveModuloEight(j);
      EightDivides(n, Pow(5, j));
      var i := j / 2;
      FiveSquare(i);
      FiveModuloEight(i);
      HalfOrder(Pow(5, j), Pow(5, i), Pow(5, i) / 4, n);
      FiveExactOrder(n - 1, i);
      Doubled(i, n - 1);
    }
  }

  lemma FiveSquare(i: nat)
    ensures IsSquare(Pow(5, 2 * i), Pow(5, i))
  {
    PowAdd(5, i, i);
  }

  lemma EightDivides(n: nat, a: int)
    requires n > 0 && Cong(a, 1, Pow2(n + 2))
    ensures a % 8 == 1
  {
    Pow2Add(n - 1, 3);
    assert Pow2(3) == 8;
    Factor(a, 1, Pow2(n - 1), 8);
  }

  ghost predicate IsSquare(s: int, a: int) {
    s == a * a
  }

  lemma HalfOrder(s: int, a: int, c: int, n: nat)
    requires n > 0 && a == 4 * c + 1 && IsSquare(s, a) && Cong(s, 1, Pow2(n + 2))
    ensures Cong(a, 1, Pow2(n + 1))
  {
    hide *;
    Pow2Double(n - 1);
    Pow2Double(n);
    Pow2Double(n + 1);
    HalfSquare(s, a, c, Pow2(n - 1));
    CancelOdd(2 * c + 1, c, 0, n - 1);
    FourTimes(c, Pow2(n - 1));
  }

  lemma HalfSquare(s: int, a: int, c: int, p: int)
    requires a == 4 * c + 1 && p > 0 && IsSquare(s, a) && Cong(s, 1, 8 * p)
    ensures Cong((2 * c + 1) * c, (2 * c + 1) * 0, p)
  {
    hide Cong;
    var k := Quotient(s, 1, 8 * p);
    SquareFour(c);
    Eighth((2 * c + 1) * c, k, p);
    FromQuotient((2 * c + 1) * c, (2 * c + 1) * 0, p, k);
  }

  lemma FourTimes(c: int, p: int)
    requires Cong(c, 0, p) && p > 0
    ensures Cong(4 * c + 1, 1, 4 * p)
  {
    hide *;
    var l := Quotient(c, 0, p);
    Fourfold(l, p);
    FromQuotient(4 * c + 1, 1, 4 * p, l);
  }

  lemma Eighth(x: int, k: int, p: int)
    requires 8 * x == k * (8 * p)
    ensures x == k * p
  {
    assert k * (8 * p) == 8 * (k * p);
  }

  lemma Fourfold(l: int, p: int)
    ensures 4 * (l * p) == l * (4 * p)
  {
  }

  lemma SquareFour(c: int)
    ensures (4 * c + 1) * (4 * c + 1) == 1 + 8 * ((2 * c + 1) * c)
  {
  }

  lemma Doubled(i: nat, n: nat)
    requires i % Pow2(n) == 0
    ensures (2 * i) % Pow2(n + 1) == 0
  {
    Pow2Double(n);
    var p := Pow2(n);
    var d := i / p;
    assert i == d * p;
    assert 2 * (d * p) == d * (2 * p);
    DivModUnique(2 * i, d, 0, 2 * p);
  }

  // ---------- the folded canonical permutation ----------

  /** Index x stands for the odd exponent 2x + 1 modulo 2n, and the permutation divides exponents by five. */
  ghost predicate IsFold(p: seq<nat>, jump: int, e: nat) {
    && e >= 1 && |p| == Pow2(e) && Cong(5 * jump, 1, Pow2(e + 1))
    && forall x :: 0 <= x < |p| ==> FoldEntry(p[x], jump, x, e)
  }

  ghost predicate FoldEntry(to: nat, jump: int, from: nat, e: nat) {
    to < Pow2(e) && Moved(2 * to + 1, jump, 2 * from + 1, e)
  }

  ghost predicate Moved(to: int, factor: int, from: int, e: nat) {
    Cong(to, factor * from, Pow2(e + 1))
  }

  lemma FoldAt(p: seq<nat>, jump: int, e: nat, x: nat)
    requires IsFold(p, jump, e) && x < |p|
    ensures p[x] < |p| == Pow2(e) && Cong(2 * p[x] + 1, jump * (2 * x + 1), Pow2(e + 1))
  {
    hide Cong;
    assert FoldEntry(p[x], jump, x, e);
  }

  lemma JumpIsInverse(jump: int, e: nat)
    requires e >= 1 && Cong(jump, Pow(5, Pow2(e + 1) - 1), Pow2(e + 1))
    ensures Cong(5 * jump, 1, Pow2(e + 1)) && jump % 2 == 1
  {
    Rotation.FivePeriod(e + 1, 1);
    hide *;
    Scale(5, jump, Pow(5, Pow2(e + 1) - 1), Pow2(e + 1));
    PowPeeled(5, Pow2(e + 1));
    Trans(5 * jump, Pow(5, Pow2(e + 1)), 1, Pow2(e + 1));
    OddFactor(jump, e);
  }

  lemma OddFactor(jump: int, e: nat)
    requires Cong(5 * jump, 1, Pow2(e + 1))
    ensures jump % 2 == 1
  {
    Pow2Double(e);
    hide *;
    var k := Quotient(5 * jump, 1, 2 * Pow2(e));
    EvenPart(k, Pow2(e));
    OddFrom(jump, k * (2 * Pow2(e)));
  }

  lemma OddFrom(jump: int, x: int)
    requires 5 * jump == 1 + x && x % 2 == 0
    ensures jump % 2 == 1
  {
  }

  lemma EvenPart(k: int, p: int)
    ensures k * (2 * p) % 2 == 0
  {
    assert k * (2 * p) == 2 * (k * p);
  }

  lemma OddStep(exponent: int, step: int, m: int)
    requires m > 0 && m % 2 == 0 && exponent % 2 == 1 && step % 2 == 0
    ensures 0 < (exponent + step) % m < m && ((exponent + step) % m) % 2 == 1 && Cong((exponent + step) % m, exponent + step, m)
  {
    hide *;
    Residue(exponent + step, m);
    OddResidue(exponent + step, m);
  }

  lemma MovedOn(exponent: int, jump: int, odd: int, next: int, e: nat)
    requires Moved(exponent, jump, odd, e) && Cong(next, exponent + jump * 2, Pow2(e + 1))
    ensures Moved(next, jump, odd + 2, e)
  {
    hide Cong, Pow2;
    Refl(jump * 2, Pow2(e + 1));
    Add(exponent, jump * odd, jump * 2, jump * 2, Pow2(e + 1));
    TwoMore(jump, odd);
    Trans(next, exponent + jump * 2, jump * (odd + 2), Pow2(e + 1));
  }

  lemma TwoMore(jump: int, odd: int)
    ensures jump * odd + jump * 2 == jump * (odd + 2)
  {
  }

  lemma Commute(a: int, b: int)
    ensures a * b == b * a && b * 1 == b
  {
  }

  lemma OddResidue(a: int, m: int)
    requires m > 0 && m % 2 == 0 && a % 2 == 1
    ensures (a % m) % 2 == 1
  {
    Montgomery.ModMod(a, m, 2);
  }

  /** The exponent that the loop holds at an index: odd, and the jump times the index's own exponent. */
  ghost predicate AtIndex(exponent: int, jump: int, index: nat, e: nat) {
    0 < exponent < Pow2(e + 1) && exponent % 2 == 1 && Moved(exponent, jump, 2 * index + 1, e)
  }

  lemma AtStart(exponent: int, jump: int, e: nat)
    requires 0 < exponent < Pow2(e + 1) && exponent % 2 == 1 && Cong(exponent, jump * (2 * 0 + 1), Pow2(e + 1))
    ensures AtIndex(exponent, jump, 0, e)
  {
    hide Cong;
  }

  lemma IndexStep(exponent: int, jump: int, index: nat, e: nat)
    requires e >= 1 && AtIndex(exponent, jump, index, e)
    ensures exponent >= 1 && FoldEntry((exponent - 1) / 2, jump, index, e)
    ensures AtIndex((exponent + jump * 2) % (Pow2(e) * 2), jump, index + 1, e)
  {
    Pow2Double(e);
    hide Moved, Pow2, FoldEntry;
    EntryIs((exponent - 1) / 2, exponent, jump, index, e);
    OddStep(exponent, jump * 2, Pow2(e) * 2);
    NextIndex(exponent, jump, index, (exponent + jump * 2) % (Pow2(e) * 2), e);
  }

  lemma NextIndex(exponent: int, jump: int, index: nat, next: int, e: nat)
    requires AtIndex(exponent, jump, index, e) && 0 < next < Pow2(e + 1) && next % 2 == 1 && Cong(next, exponent + jump * 2, Pow2(e + 1))
    ensures AtIndex(next, jump, index + 1, e)
  {
    hide Moved, Pow2, Cong;
    MovedOn(exponent, jump, 2 * index + 1, next, e);
  }

  method FoldCanonPermutation(e: nat) returns (output: seq<nat>, ghost jump: int)
    requires e >= 1
    ensures IsFold(output, jump, e)
    ensures |output| == Pow2(e) && forall x :: 0 <= x < |output| ==> Fifth(output[x], x, e)
  {
    hide *;
    var size := Pow2(e);
    var doubleSize := size * 2;
    Pow2Double(e);
    Rotation.FourDivides(e);
    var got := Rotation.GetJump(1, doubleSize);
    JumpIsInverse(got, e);
    jump := got;
    var jumpMultIndex := got;
    output := [];
    Refl(jump, doubleSize);
    AtStart(jumpMultIndex, jump, e);
    for index := 0 to size
      invariant |output| == index && AtIndex(jumpMultIndex, jump, index, e)
      invariant forall x :: 0 <= x < |output| ==> FoldEntry(output[x], jump, x, e)
    {
      IndexStep(jumpMultIndex, jump, index, e);
      output := output + [(jumpMultIndex - 1) / 2];
      jumpMultIndex := (jumpMultIndex + got * 2) % doubleSize;
    }
    FoldIs(output, jump, e);
    forall x | 0 <= x < |output| ensures Fifth(output[x], x, e) { FoldFifth(output, jump, e, x); }
  }

  /** Five times the exponent of the image is the exponent of the index. */
  ghost predicate Fifth(to: nat, from: nat, e: nat) {
    to < Pow2(e) && Cong(5 * (2 * to + 1), 2 * from + 1, Pow2(e + 1))
  }

  lemma FoldFifth(p: seq<nat>, jump: int, e: nat, x: nat)
    requires IsFold(p, jump, e) && x < |p|
    ensures Fifth(p[x], x, e)
  {
    FoldAt(p, jump, e, x);
    FoldJump(p, jump, e);
    FifthIs(p[x], x, e, jump);
  }

  lemma FoldJump(p: seq<nat>, jump: int, e: nat)
    requires IsFold(p, jump, e)
    ensures Cong(5 * jump, 1, Pow2(e + 1))
  {
    hide FoldEntry;
  }

  lemma FifthIs(to: nat, from: nat, e: nat, jump: int)
    requires to < Pow2(e) && Cong(2 * to + 1, jump * (2 * from + 1), Pow2(e + 1)) && Cong(5 * jump, 1, Pow2(e + 1))
    ensures Fifth(to, from, e)
  {
    hide Cong, Pow2;
    var m := Pow2(e + 1);
    Scale(5, 2 * to + 1, jump * (2 * from + 1), m);
    MulRight(5 * jump, 1, 2 * from + 1, m);
    Associate(5, jump, 2 * from + 1);
    Trans(5 * (2 * to + 1), (5 * jump) * (2 * from + 1), 2 * from + 1, m);
  }

  lemma FoldIs(p: seq<nat>, jump: int, e: nat)
    requires e >= 1 && |p| == Pow2(e) && Cong(5 * jump, 1, Pow2(e + 1))
    requires forall x :: 0 <= x < |p| ==> FoldEntry(p[x], jump, x, e)
    ensures IsFold(p, jump, e)
  {
    hide FoldEntry, Cong;
  }

  lemma EntryIs(to: nat, exponent: int, jump: int, from: nat, e: nat)
    requires exponent == 2 * to + 1 && exponent < Pow2(e + 1) && Moved(exponent, jump, 2 * from + 1, e)
    ensures FoldEntry(to, jump, from, e)
  {
    Pow2Double(e);
  }

  lemma {:induction false} FoldIterate(p: seq<nat>, jump: int, e: nat, x: nat, k: nat)
    requires IsFold(p, jump, e) && x < |p|
    ensures Iterate(p, x, k) < |p| == Pow2(e)
    ensures Cong(2 * Iterate(p, x, k) + 1, Pow(jump, k) * (2 * x + 1), Pow2(e + 1))
  {
    if k == 0 {
      Refl(2 * x + 1, Pow2(e + 1));
    } else {
      FoldIterate(p, jump, e, x, k - 1);
      FoldAt(p, jump, e, Iterate(p, x, k - 1));
      hide Cong;
      FoldStep(2 * Iterate(p, x, k) + 1, jump, 2 * Iterate(p, x, k - 1) + 1, Pow(jump, k - 1), 2 * x + 1, Pow2(e + 1));
    }
  }

  lemma FoldStep(to: int, jump: int, mid: int, power: int, from: int, m: int)
    requires Cong(to, jump * mid, m) && Cong(mid, power * from, m)
    ensures Cong(to, (jump * power) * from, m)
  {
    hide *;
    Scale(jump, mid, power * from, m);
    Trans(to, jump * mid, jump * (power * from), m);
    assert jump * (power * from) == (jump * power) * from;
  }

  /** Powers of five and of its inverse are one together. */
  lemma InversePowers(jump: int, e: nat, k: nat)
    requires Cong(5 * jump, 1, Pow2(e + 1))
    ensures Cong(Pow(jump, k), 1, Pow2(e + 1)) <==> Cong(Pow(5, k), 1, Pow2(e + 1))
    ensures Cong(Pow(5, k) * Pow(jump, k), 1, Pow2(e + 1))
  {
    hide *;
    PowProduct(5, jump, k);
    PowCong(5 * jump, 1, k, Pow2(e + 1));
    PowOne(k);
    var a, b := Pow(5, k), Pow(jump, k);
    if Cong(b, 1, Pow2(e + 1)) {
      Scale(a, b, 1, Pow2(e + 1));
      Sym(a * b, a * 1, Pow2(e + 1));
      Trans(a, a * b, 1, Pow2(e + 1));
    }
    if Cong(a, 1, Pow2(e + 1)) {
      MulRight(a, 1, b, Pow2(e + 1));
      Sym(a * b, 1 * b, Pow2(e + 1));
      Trans(b, a * b, 1, Pow2(e + 1));
    }
  }

  lemma FoldPeriod(p: seq<nat>, jump: int, e: nat, x: nat)
    requires IsFold(p, jump, e) && x < |p|
    ensures Period(p, x, Pow2(e - 1))
  {
    hide Cong, Pow, Pow2, Iterate;
    var h := Pow2(e - 1);
    FoldReturns(p, jump, e, x);
    forall k | 0 < k < h ensures Iterate(p, x, k) != x {
      if Iterate(p, x, k) == x { FoldReturnsOnly(p, jump, e, x, k); SmallMultiple(k, h); }
    }
  }

  lemma SmallMultiple(k: nat, h: nat)
    requires 0 < k < h
    ensures k % h != 0
  {
  }

  lemma FoldReturns(p: seq<nat>, jump: int, e: nat, x: nat)
    requires IsFold(p, jump, e) && x < |p|
    ensures Pow2(e - 1) >= 1 && Iterate(p, x, Pow2(e - 1)) == x
  {
    var h := Pow2(e - 1);
    Rotation.FiveOrder(e - 1);
    InversePowers(jump, e, h);
    FoldIterate(p, jump, e, x, h);
    Pow2Double(e);
    hide *;
    var y := Iterate(p, x, h);
    MulRight(Pow(jump, h), 1, 2 * x + 1, Pow2(e + 1));
    Trans(2 * y + 1, Pow(jump, h) * (2 * x + 1), 2 * x + 1, Pow2(e + 1));
    Unique(2 * y + 1, 2 * x + 1, 0, Pow2(e + 1));
  }

  lemma FoldReturnsOnly(p: seq<nat>, jump: int, e: nat, x: nat, k: nat)
    requires IsFold(p, jump, e) && x < |p| && Iterate(p, x, k) == x
    ensures k % Pow2(e - 1) == 0
  {
    FoldIterate(p, jump, e, x, k);
    InversePowers(jump, e, k);
    hide *;
    Sym(2 * x + 1, Pow(jump, k) * (2 * x + 1), Pow2(e + 1));
    Commute(Pow(jump, k), 2 * x + 1);
    CancelOdd(2 * x + 1, Pow(jump, k), 1, e + 1);
    FiveExactOrder(e - 1, k);
  }

  // ---------- the slot order ----------

  /** A run of conjugate_permutations on the folded canonical permutation and the circular shift. */
  ghost predicate SlotPermutation(fold: seq<nat>, shift: seq<nat>, post: seq<nat>, jump: int, e: nat,
                                  c1: seq<nat>, first1: seq<nat>, starts1: seq<nat>,
                                  c2: seq<nat>, first2: seq<nat>, starts2: seq<nat>) {
    && IsFold(fold, jump, e) && IsShift(shift, Pow2(e - 1)) && |shift| == |fold|
    && ListsCycles(fold, c1, first1) && Starts(fold, c1, first1, starts1)
    && ListsCycles(shift, c2, first2) && Starts(shift, c2, first2, starts2)
    && Matches(post, c1, c2) && |post| == |fold|
  }

  lemma HalvesEqual(a: seq<nat>, b: seq<nat>, h: nat)
    requires Halves(a, h) && Halves(b, h)
    ensures a == b
  {
  }

  lemma HalfSize(e: nat)
    requires e >= 1
    ensures Pow2(e) == 2 * Pow2(e - 1) && Pow2(e - 1) >= 1 && Pow2(e + 1) == 2 * Pow2(e)
  {
  }

  /** The cycle lengths match at every power-of-two size: two cycles of half the size each. */
  lemma ShapesMatch(fold: seq<nat>, shift: seq<nat>, jump: int, e: nat, c1: seq<nat>, first1: seq<nat>, c2: seq<nat>, first2: seq<nat>)
    requires IsFold(fold, jump, e) && IsShift(shift, Pow2(e - 1)) && |shift| == |fold| == |c1| == |c2|
    requires ListsCycles(fold, c1, first1) && ListsCycles(shift, c2, first2)
    ensures first1 == first2 && Halves(first1, Pow2(e - 1))
  {
    HalfSize(e);
    hide Pow2, ListsCycles, Period, Halves, Moved, Cong;
    var h := Pow2(e - 1);
    forall x: nat | x < |fold| ensures Period(fold, x, h) {
      FoldPeriod(fold, jump, e, x);
    }
    TwoCycles(fold, c1, first1, h);
    forall x: nat | x < |shift| ensures Period(shift, x, h) {
      ShiftPeriod(shift, h, x);
    }
    TwoCycles(shift, c2, first2, h);
    HalvesEqual(first1, first2, h);
  }

  lemma StartZero(p: seq<nat>, c: seq<nat>, start: nat)
    requires StartsAt(p, c, 0, start)
    ensures start == 0 && p[0] == c[0]
  {
    assert 0 !in c[..0];
  }

  /** Position k of the first cycle, in a list whose first cycle has length h. */
  lemma FirstCycle(p: seq<nat>, c: seq<nat>, first: seq<nat>, starts: seq<nat>, h: nat, k: nat)
    requires ListsCycles(p, c, first) && Starts(p, c, first, starts) && |c| == |p| && Halves(first, h) && k < h
    ensures p[0] < |p| && c[k] == Iterate(p, p[0], k)
  {
    assert StartsAt(p, c, first[0], starts[0]);
    StartZero(p, c, starts[0]);
    hide Iterate, Starts;
    AlongCycle(p, c, first, 0, k);
  }

  lemma SlotPlace(fold: seq<nat>, shift: seq<nat>, post: seq<nat>, pre: seq<nat>, jump: int, e: nat,
                  c1: seq<nat>, first1: seq<nat>, starts1: seq<nat>, c2: seq<nat>, first2: seq<nat>, starts2: seq<nat>, k: nat)
    requires SlotPermutation(fold, shift, post, jump, e, c1, first1, starts1, c2, first2, starts2) && Inverse(pre, post)
    requires k < Pow2(e - 1)
    ensures |fold| == |pre| == Pow2(e) && fold[0] < |fold| && Pow2(e - 1) - 1 - k < |pre|
    ensures pre[Pow2(e - 1) - 1 - k] == Iterate(fold, fold[0], k)
  {
    HalfSize(e);
    hide Pow2, ListsCycles, Starts, Halves, Moved, Cong, Iterate;
    var h := Pow2(e - 1);
    ShapesMatch(fold, shift, jump, e, c1, first1, c2, first2);
    FirstCycle(fold, c1, first1, starts1, h, k);
    FirstCycle(shift, c2, first2, starts2, h, k);
    ShiftIterate(shift, h, h - 1, k);
    assert post[c1[k]] == c2[k];
  }

  lemma PowersBack(jump: int, e: nat, s: nat)
    requires e >= 1 && s <= Pow2(e - 1) && Cong(5 * jump, 1, Pow2(e + 1))
    ensures Cong(Pow(jump, Pow2(e - 1) - s), Pow(5, s), Pow2(e + 1))
  {
    hide *;
    var r: nat := Pow2(e - 1) - s;
    InversePowers(jump, e, r);
    Rotation.FiveOrder(e - 1);
    PowAdd(5, s, r);
    var a, b, c := Pow(5, s), Pow(5, r), Pow(jump, r);
    MulRight(a * b, 1, c, Pow2(e + 1));
    Scale(a, b * c, 1, Pow2(e + 1));
    Associate(a, b, c);
    Sym((a * b) * c, 1 * c, Pow2(e + 1));
    Trans(c, a * (b * c), a * 1, Pow2(e + 1));
  }

  /** Slot s belongs to the root with exponent 5^s: the encoder stores it at the index of that exponent. */
  lemma SlotRoot(fold: seq<nat>, shift: seq<nat>, post: seq<nat>, pre: seq<nat>, jump: int, e: nat,
                 c1: seq<nat>, first1: seq<nat>, starts1: seq<nat>, c2: seq<nat>, first2: seq<nat>, starts2: seq<nat>, s: nat)
    requires SlotPermutation(fold, shift, post, jump, e, c1, first1, starts1, c2, first2, starts2) && Inverse(pre, post)
    requires s < Pow2(e - 1)
    ensures s < |pre| && pre[s] < |pre| == Pow2(e) && Cong(2 * pre[s] + 1, Pow(5, s), Pow2(e + 1)) && pre[s] % 2 == 0
  {
    hide Pow2, ListsCycles, Starts, Moved, Cong, Iterate, Pow, IsShift, Matches;
    var k := Pow2(e - 1) - 1 - s;
    SlotPlace(fold, shift, post, pre, jump, e, c1, first1, starts1, c2, first2, starts2, k);
    FoldIterate(fold, jump, e, fold[0], k);
    FoldAt(fold, jump, e, 0);
    SlotExponent(pre[s], jump, fold[0], e, k, s);
  }

  lemma SlotExponent(place: nat, jump: int, start: nat, e: nat, k: nat, s: nat)
    requires e >= 1 && k + 1 + s == Pow2(e - 1) && Cong(5 * jump, 1, Pow2(e + 1))
    requires Cong(2 * place + 1, Pow(jump, k) * (2 * start + 1), Pow2(e + 1)) && Cong(2 * start + 1, jump * (2 * 0 + 1), Pow2(e + 1))
    ensures Cong(2 * place + 1, Pow(5, s), Pow2(e + 1)) && place % 2 == 0
  {
    hide *;
    PowersBack(jump, e, s);
    PowPeeled(jump, k + 1);
    Commute(jump, Pow(jump, k));
    Commute(1, jump);
    Scale(Pow(jump, k), 2 * start + 1, jump, Pow2(e + 1));
    Trans(2 * place + 1, Pow(jump, k) * (2 * start + 1), Pow(jump, k + 1), Pow2(e + 1));
    Trans(2 * place + 1, Pow(jump, k + 1), Pow(5, s), Pow2(e + 1));
    Rotation.FourDivides(e);
    HalfSize(e);
    Rotation.OddPower(2 * place + 1, s, Pow2(e + 1));
    EvenPlace(place);
  }

  lemma EvenPlace(place: nat)
    requires (2 * place + 1) % 4 == 1
    ensures place % 2 == 0
  {
  }

  /** The encoder fills every complex position exactly once: slot s goes to pre[s], which is even, and its
      conjugate to the mirrored position, which is odd. */
  lemma EveryPosition(fold: seq<nat>, shift: seq<nat>, post: seq<nat>, pre: seq<nat>, jump: int, e: nat,
                      c1: seq<nat>, first1: seq<nat>, starts1: seq<nat>, c2: seq<nat>, first2: seq<nat>, starts2: seq<nat>, x: nat)
    returns (s: nat)
    requires SlotPermutation(fold, shift, post, jump, e, c1, first1, starts1, c2, first2, starts2) && Inverse(pre, post)
    requires x < Pow2(e)
    ensures s < Pow2(e - 1) <= |pre| && (if x % 2 == 0 then pre[s] else |pre| - 1 - pre[s]) == x
    ensures forall r: nat :: r < Pow2(e - 1) && (pre[r] == x || |pre| - 1 - pre[r] == x) ==> r == s
  {
    HalfSize(e);
    hide Pow2, ListsCycles, Starts, Moved, Cong, Iterate, Pow;
    MatchIsPermutation(post, c1, c2);
    var h := Pow2(e - 1);
    forall r: nat | r < h ensures r < |pre| && pre[r] < |pre| == 2 * h && pre[r] % 2 == 0 {
      SlotRoot(fold, shift, post, pre, jump, e, c1, first1, starts1, c2, first2, starts2, r);
    }
    forall i, j | 0 <= i < j < h ensures pre[i] != pre[j] {
      InverseInjective(pre, post, i, j);
    }
    hide *;
    s := OnePosition(pre, h, x);
  }

  lemma OnePosition(pre: seq<nat>, h: nat, x: nat) returns (s: nat)
    requires |pre| == 2 * h && x < 2 * h
    requires forall r :: 0 <= r < h ==> pre[r] < 2 * h && pre[r] % 2 == 0
    requires forall i, j :: 0 <= i < j < h ==> pre[i] != pre[j]
    ensures s < h && (if x % 2 == 0 then pre[s] else |pre| - 1 - pre[s]) == x
    ensures forall r: nat :: r < h && (pre[r] == x || |pre| - 1 - pre[r] == x) ==> r == s
  {
    var y := if x % 2 == 0 then x else |pre| - 1 - x;
    s := EvenSlot(pre, h, y);
    forall r: nat | r < h && (pre[r] == x || |pre| - 1 - pre[r] == x) ensures r == s {
      assert pre[r] == y;
    }
  }

  lemma InverseInjective(pre: seq<nat>, post: seq<nat>, i: nat, j: nat)
    requires Inverse(pre, post) && IsPermutation(post) && i < j < |pre|
    ensures pre[i] != pre[j]
  {
    Pigeonhole(post, |post|);
    assert i in post && j in post;
  }

  lemma EvenSlot(pre: seq<nat>, h: nat, y: nat) returns (s: nat)
    requires h <= |pre| && y < 2 * h && y % 2 == 0
    requires forall r :: 0 <= r < h ==> pre[r] < 2 * h && pre[r] % 2 == 0
    requires forall i, j :: 0 <= i < j < h ==> pre[i] != pre[j]
    ensures s < h && pre[s] == y
  {
    var halves: seq<nat> := seq(h, r requires 0 <= r < h => pre[r] / 2);
    Pigeonhole(halves, h);
    assert y / 2 in halves;
    s :| 0 <= s < h && halves[s] == y / 2;
  }

  // ---------- filling and reading back ----------

  datatype Complex = Complex(re: real, im: real)

  /** What pre_permute leaves for the slots from start to end. */
  ghost predicate Filled(output: seq<real>, input: seq<Complex>, pre: seq<nat>, start: nat, end: nat) {
    && end <= |input| && end <= |pre| && (forall s :: start <= s < end ==> 2 * pre[s] + 2 <= |output|)
    && forall s :: start <= s < end ==>
         && output[2 * pre[s]] == input[s].re && output[2 * pre[s] + 1] == input[s].im
         && output[|output| - 2 * pre[s] - 2] == input[s].re && output[|output| - 2 * pre[s] - 1] == -input[s].im
  }

  /** Every slot and every conjugate has a place of its own in a buffer of that length. */
  ghost predicate Room(permutation: seq<nat>, start: nat, end: nat, length: nat) {
    && end <= |permutation| && length % 2 == 0
    && (forall s :: start <= s < end ==> 2 * permutation[s] + 2 <= length)
    && (forall i, j :: start <= i < j < end ==> permutation[i] != permutation[j])
    && forall i, j :: start <= i < end && start <= j < end ==> 2 * permutation[i] + 2 * permutation[j] + 2 != length
  }

  /** pre_permute, complex input: each slot and its conjugate. */
  method PrePermute(input: seq<Complex>, output: array<real>, permutation: seq<nat>, start: nat, end: nat)
    requires start <= end <= |input| && Room(permutation, start, end, output.Length)
    modifies output
    ensures Filled(output[..], input, permutation, start, end)
  {
    for index := start to end
      invariant forall s :: start <= s < index ==>
        && output[2 * permutation[s]] == input[s].re && output[2 * permutation[s] + 1] == input[s].im
        && output[output.Length - 2 * permutation[s] - 2] == input[s].re
        && output[output.Length - 2 * permutation[s] - 1] == -input[s].im
    {
      var permuteIndex := permutation[index] * 2;
      output[permuteIndex] := input[index].re;
      output[permuteIndex + 1] := input[index].im;
      output[output.Length - permuteIndex - 2] := input[index].re;
      output[output.Length - permuteIndex - 1] := -input[index].im;
    }
  }

  /** permute_after_ifft, complex output. */
  method PermuteAfterIfft(iffted: array<real>, output: array<Complex>, post: seq<nat>, scaleInverse: real, start: nat, end: nat)
    requires start <= end <= |post| && 2 * end <= iffted.Length
    requires forall i, j :: start <= i < j < end ==> post[i] != post[j]
    modifies output
    ensures forall i :: start <= i < end && post[i] < output.Length ==>
      output[post[i]] == Complex(iffted[2 * i] * scaleInverse, iffted[2 * i + 1] * scaleInverse)
  {
    for index := start to end
      invariant forall i :: start <= i < index && post[i] < output.Length ==>
        output[post[i]] == Complex(iffted[2 * i] * scaleInverse, iffted[2 * i + 1] * scaleInverse)
    {
      var permutedIndex := post[index];
      if permutedIndex < output.Length {
        output[permutedIndex] := Complex(iffted[2 * index] * scaleInverse, iffted[2 * index + 1] * scaleInverse);
      }
    }
  }

  /** Reading back where pre_permute wrote gives every slot again. */
  lemma ReadsBack(input: seq<Complex>, buffer: seq<real>, output: seq<Complex>, pre: seq<nat>, post: seq<nat>, s: nat)
    requires |output| == |input| <= |pre| && Inverse(pre, post) && Inverse(post, pre) && |buffer| == 2 * |pre|
    requires Filled(buffer, input, pre, 0, |input|) && s < |input|
    requires forall i :: 0 <= i < |post| && post[i] < |output| ==> output[post[i]] == Complex(buffer[2 * i] * 1.0, buffer[2 * i + 1] * 1.0)
    ensures output[s] == input[s]
  {
    assert post[pre[s]] == s;
  }

  // ---------- the encoder ----------

  /** Dividing exponents by five is a permutation. */
  lemma FoldIsPermutation(p: seq<nat>, e: nat)
    requires |p| == Pow2(e) && forall x :: 0 <= x < |p| ==> Fifth(p[x], x, e)
    ensures IsPermutation(p)
  {
    hide Fifth;
    forall i | 0 <= i < |p| ensures p[i] < |p| { FifthMeans(p[i], i, e); }
    forall i, j | 0 <= i < j < |p| ensures p[i] != p[j] {
      if p[i] == p[j] { FifthInjective(p[i], i, j, e); }
    }
  }

  lemma FifthMeans(to: nat, from: nat, e: nat)
    requires Fifth(to, from, e)
    ensures to < Pow2(e) && Cong(5 * (2 * to + 1), 2 * from + 1, Pow2(e + 1))
  {
  }

  lemma FifthInjective(to: nat, i: nat, j: nat, e: nat)
    requires Fifth(to, i, e) && Fifth(to, j, e) && i < Pow2(e) && j < Pow2(e)
    ensures i == j
  {
    Pow2Double(e);
    hide *;
    FifthMeans(to, i, e);
    FifthMeans(to, j, e);
    Sym(5 * (2 * to + 1), 2 * i + 1, Pow2(e + 1));
    Trans(2 * i + 1, 5 * (2 * to + 1), 2 * j + 1, Pow2(e + 1));
    Unique(2 * i + 1, 2 * j + 1, 0, Pow2(e + 1));
  }

  /** The places of the slots are even and different, so no slot meets another one or a conjugate. */
  ghost predicate NoCollision(pre: seq<nat>, h: nat) {
    && |pre| == 2 * h
    && (forall s :: 0 <= s < h ==> pre[s] < 2 * h)
    && (forall i, j :: 0 <= i < j < h ==> pre[i] != pre[j])
    && forall i, j :: 0 <= i < h && 0 <= j < h ==> pre[i] + pre[j] + 1 != 2 * h
  }

  lemma PlacesApart(fold: seq<nat>, shift: seq<nat>, post: seq<nat>, pre: seq<nat>, jump: int, e: nat,
                    c1: seq<nat>, first1: seq<nat>, starts1: seq<nat>, c2: seq<nat>, first2: seq<nat>, starts2: seq<nat>)
    requires SlotPermutation(fold, shift, post, jump, e, c1, first1, starts1, c2, first2, starts2) && Inverse(pre, post) && e >= 1
    ensures NoCollision(pre, Pow2(e - 1))
  {
    HalfSize(e);
    hide Pow2, ListsCycles, Starts, Moved, Cong, Iterate, Pow;
    MatchIsPermutation(post, c1, c2);
    var h := Pow2(e - 1);
    forall r: nat | r < h ensures r < |pre| && pre[r] < |pre| == 2 * h && pre[r] % 2 == 0 {
      SlotRoot(fold, shift, post, pre, jump, e, c1, first1, starts1, c2, first2, starts2, r);
    }
    forall i, j | 0 <= i < j < h ensures pre[i] != pre[j] {
      InverseInjective(pre, post, i, j);
    }
    hide *;
    EvenPlaces(pre, h);
  }

  lemma EvenPlaces(pre: seq<nat>, h: nat)
    requires |pre| == 2 * h && forall r :: 0 <= r < h ==> pre[r] < 2 * h && pre[r] % 2 == 0
    requires forall i, j :: 0 <= i < j < h ==> pre[i] != pre[j]
    ensures NoCollision(pre, h)
  {
    forall i, j | 0 <= i < h && 0 <= j < h ensures pre[i] + pre[j] + 1 != 2 * h {
      assert pre[i] % 2 == 0 && pre[j] % 2 == 0;
    }
  }

  /** The permutations of the encoder, for 2^e complex positions: the two permutations are conjugated and
      the result inverted. */
  method EncodePermutation(e: nat) returns (pre: seq<nat>, post: seq<nat>)
    requires e >= 1
    ensures Inverse(pre, post) && Inverse(post, pre) && |pre| == Pow2(e) && NoCollision(pre, Pow2(e - 1))
    ensures forall s :: 0 <= s < Pow2(e - 1) ==>
      s < |pre| && pre[s] % 2 == 0 && (2 * pre[s] + 1) % Pow2(e + 1) == Pow(5, s) % Pow2(e + 1)
  {
    hide *;
    HalfSize(e);
    var doubleSize := 2 * Pow2(e - 1);
    var circularShift := CircularShiftPermutation(doubleSize);
    ShiftOf(circularShift, Pow2(e - 1));
    var foldCanon;
    ghost var jump;
    foldCanon, jump := FoldCanonPermutation(e);
    FoldIsPermutation(foldCanon, e);
    ghost var c1, first1, starts1, c2, first2, starts2;
    post, c1, first1, starts1, c2, first2, starts2 := ConjugatePermutations(foldCanon, circularShift);
    SlotPermutationIs(foldCanon, circularShift, post, jump, e, c1, first1, starts1, c2, first2, starts2);
    pre := InvertPermutation(post);
    InverseSize(pre, post);
    PlacesApart(foldCanon, circularShift, post, pre, jump, e, c1, first1, starts1, c2, first2, starts2);
    forall s | 0 <= s < Pow2(e - 1)
      ensures s < |pre| && pre[s] % 2 == 0 && (2 * pre[s] + 1) % Pow2(e + 1) == Pow(5, s) % Pow2(e + 1)
    {
      SlotRoot(foldCanon, circularShift, post, pre, jump, e, c1, first1, starts1, c2, first2, starts2, s);
      SameRemainder(2 * pre[s] + 1, Pow(5, s), Pow2(e + 1));
    }
  }

  lemma SameRemainder(a: int, b: int, m: int)
    requires Cong(a, b, m)
    ensures m > 0 && a % m == b % m
  {
  }

  /** encode_complex up to its Fourier transform, for a power of two of slots. As 2h complex numbers the
      buffer holds slot s at the even position whose exponent 2x + 1 is 5^s, and at every position the
      conjugate of the mirrored one, so what is encoded is a real polynomial. */
  method EncodePositions(input: seq<Complex>, e: nat) returns (permuted: array<real>, pre: seq<nat>, post: seq<nat>)
    requires e >= 1 && |input| == Pow2(e - 1)
    ensures fresh(permuted) && permuted.Length == 4 * |input| && Inverse(pre, post) && Inverse(post, pre) && |pre| == 2 * |input|
    ensures forall s :: 0 <= s < |input| ==>
      && pre[s] < 2 * |input| && pre[s] % 2 == 0 && (2 * pre[s] + 1) % Pow2(e + 1) == Pow(5, s) % Pow2(e + 1)
      && permuted[2 * pre[s]] == input[s].re && permuted[2 * pre[s] + 1] == input[s].im
    ensures forall x: nat, y: nat :: x + y == 2 * |input| - 1 ==>
      permuted[2 * y] == permuted[2 * x] && permuted[2 * y + 1] == -permuted[2 * x + 1]
  {
    hide *;
    HalfSize(e);
    pre, post := EncodePermutation(e);
    permuted := new real[4 * |input|];
    CollisionFree(pre, |input|);
    PrePermute(input, permuted, pre, 0, |input|);
    ghost var buffer := permuted[..];
    forall s | 0 <= s < |input|
      ensures pre[s] < 2 * |input| && permuted[2 * pre[s]] == input[s].re && permuted[2 * pre[s] + 1] == input[s].im
    {
      SlotInPlace(input, buffer, pre, s);
    }
    forall x: nat, y: nat | x + y == 2 * |input| - 1
      ensures permuted[2 * y] == permuted[2 * x] && permuted[2 * y + 1] == -permuted[2 * x + 1]
    {
      Mirrored(input, buffer, pre, x);
    }
  }

  lemma SlotInPlace(input: seq<Complex>, buffer: seq<real>, pre: seq<nat>, s: nat)
    requires NoCollision(pre, |input|) && |buffer| == 4 * |input| && Filled(buffer, input, pre, 0, |input|) && s < |input|
    ensures s < |pre| && pre[s] < 2 * |input| && buffer[2 * pre[s]] == input[s].re && buffer[2 * pre[s] + 1] == input[s].im
  {
  }

  /** Every position holds the conjugate of the mirrored one. */
  lemma Mirrored(input: seq<Complex>, buffer: seq<real>, pre: seq<nat>, x: nat)
    requires NoCollision(pre, |input|) && (forall s :: 0 <= s < |input| ==> s < |pre| && pre[s] % 2 == 0)
    requires |buffer| == 4 * |input| && Filled(buffer, input, pre, 0, |input|) && x < 2 * |input|
    ensures var y := 2 * |input| - 1 - x; buffer[2 * y] == buffer[2 * x] && buffer[2 * y + 1] == -buffer[2 * x + 1]
  {
    var s := OnePosition(pre, |input|, x);
    MirroredSlot(input, buffer, pre, s);
  }

  lemma MirroredSlot(input: seq<Complex>, buffer: seq<real>, pre: seq<nat>, s: nat)
    requires NoCollision(pre, |input|) && |buffer| == 4 * |input| && Filled(buffer, input, pre, 0, |input|) && s < |input|
    ensures var x := pre[s]; var y := 2 * |input| - 1 - x;
      x < 2 * |input| && buffer[2 * y] == buffer[2 * x] && buffer[2 * y + 1] == -buffer[2 * x + 1]
  {
    var x, y := pre[s], 2 * |input| - 1 - pre[s];
    assert 2 * y == |buffer| - 2 * x - 2 && 2 * y + 1 == |buffer| - 2 * x - 1;
  }

  lemma ShiftOf(p: seq<nat>, h: nat)
    requires h >= 1 && |p| == 2 * h && forall x :: 0 <= x < 2 * h ==> p[x] == Shifted(2 * h / 2, x)
    ensures IsShift(p, h)
  {
    assert 2 * h / 2 == h;
  }

  lemma InverseSize(q: seq<nat>, p: seq<nat>)
    requires Inverse(q, p)
    ensures |q| == |p|
  {
  }

  lemma SlotPermutationIs(fold: seq<nat>, shift: seq<nat>, post: seq<nat>, jump: int, e: nat, c1: seq<nat>, first1: seq<nat>, starts1: seq<nat>,
                          c2: seq<nat>, first2: seq<nat>, starts2: seq<nat>)
    requires e >= 1 && IsFold(fold, jump, e) && IsShift(shift, Pow2(e - 1)) && |shift| == |fold|
    requires ListsCycles(fold, c1, first1) && Starts(fold, c1, first1, starts1)
    requires ListsCycles(shift, c2, first2) && Starts(shift, c2, first2, starts2) && Matches(post, c1, c2) && |post| == |fold|
    ensures SlotPermutation(fold, shift, post, jump, e, c1, first1, starts1, c2, first2, starts2)
  {
    hide IsFold, IsShift, ListsCycles, Starts;
  }

  lemma CollisionFree(pre: seq<nat>, h: nat)
    requires NoCollision(pre, h)
    ensures Room(pre, 0, h, 4 * h)
  {
    forall i, j | 0 <= i < h && 0 <= j < h ensures 2 * pre[i] + 2 * pre[j] + 2 != 4 * h {
      assert pre[i] + pre[j] + 1 != 2 * h;
    }
  }
}
