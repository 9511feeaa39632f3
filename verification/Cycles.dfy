/** Permutations by their cycles (src/ckks/encode.cpp). */
module Cycles {

  ghost predicate IsPermutation(p: seq<nat>) {
    && (forall i :: 0 <= i < |p| ==> p[i] < |p|)
    && forall i, j :: 0 <= i < j < |p| ==> p[i] != p[j]
  }

  ghost predicate Distinct(c: seq<nat>, n: nat) {
    && (forall i :: 0 <= i < |c| ==> c[i] < n)
    && forall i, j :: 0 <= i < j < |c| ==> c[i] != c[j]
  }

  // ---------- counting ----------

  ghost function Elements(c: seq<nat>): set<nat> {
    set i | 0 <= i < |c| :: c[i]
  }

  ghost function Below(n: nat): set<nat> {
    if n == 0 then {} else Below(n - 1) + {n - 1}
  }

  lemma {:induction false} BelowSize(n: nat)
    ensures |Below(n)| == n && forall x: nat :: x in Below(n) <==> x < n
  {
    if n > 0 { BelowSize(n - 1); }
  }

  lemma {:induction false} ElementsSize(c: seq<nat>, n: nat)
    requires Distinct(c, n)
    ensures |Elements(c)| == |c|
  {
    if c != [] {
      var front := c[..|c| - 1];
      ElementsSize(front, n);
      assert Elements(c) == Elements(front) + {c[|c| - 1]} by {
        forall x | x in Elements(c) ensures x in Elements(front) + {c[|c| - 1]} {
          var i :| 0 <= i < |c| && c[i] == x;
          if i < |c| - 1 { assert front[i] == x; }
        }
        forall x | x in Elements(front) ensures x in Elements(c) {
          var i :| 0 <= i < |front| && front[i] == x;
          assert c[i] == x;
        }
      }
    }
  }

  lemma SubsetSize(a: set<nat>, b: set<nat>)
    requires a <= b
    ensures |a| <= |b| && (|a| == |b| ==> a == b)
  {
    assert b == a + (b - a);
  }

  /** Distinct numbers below n: at most n of them, and exactly n only if none is missing. */
  lemma Pigeonhole(c: seq<nat>, n: nat)
    requires Distinct(c, n)
    ensures |c| <= n
    ensures |c| == n <==> forall x: nat :: x < n ==> x in c
  {
    ElementsSize(c, n);
    BelowSize(n);
    assert Elements(c) <= Below(n);
    SubsetSize(Elements(c), Below(n));
    if forall x: nat :: x < n ==> x in c {
      forall x | x in Below(n) ensures x in Elements(c) {
        assert x in c;
      }
      SubsetSize(Below(n), Elements(c));
    }
    if |c| == n {
      forall x: nat | x < n ensures x in c {
        assert x in Below(n);
      }
    }
  }

  // ---------- cycle lists ----------

  /** first[i] is the position where the cycle of position i starts. */
  function Successor(first: seq<nat>, i: nat): nat
    requires i < |first|
  {
    if i + 1 < |first| && first[i + 1] == first[i] then i + 1 else first[i]
  }

  ghost predicate Segments(first: seq<nat>) {
    forall i :: 0 <= i < |first| ==>
      && first[i] <= i && first[first[i]] == first[i]
      && (i + 1 < |first| ==> first[i + 1] == first[i] || first[i + 1] == i + 1)
  }

  /** Every listed element is followed by its image within its cycle. */
  ghost predicate ListsCycles(p: seq<nat>, c: seq<nat>, first: seq<nat>) {
    && |c| == |first| && Distinct(c, |p|) && Segments(first)
    && forall i :: 0 <= i < |c| ==> p[c[i]] == c[Successor(first, i)]
  }

  function End(first: seq<nat>, i: nat): (e: nat)
    requires i < |first|
    ensures i <= e < |first|
    decreases |first| - i
  {
    if i + 1 < |first| && first[i + 1] == first[i] then End(first, i + 1) else i
  }

  lemma {:induction false} EndCloses(first: seq<nat>, i: nat)
    requires i < |first|
    ensures Successor(first, End(first, i)) == first[i] && first[End(first, i)] == first[i]
    decreases |first| - i
  {
    if i + 1 < |first| && first[i + 1] == first[i] { EndCloses(first, i + 1); }
  }

  /** Listed elements have listed preimages. */
  lemma Preimage(p: seq<nat>, c: seq<nat>, first: seq<nat>, j: nat) returns (i: nat)
    requires ListsCycles(p, c, first) && j < |c|
    ensures i < |c| && p[c[i]] == c[j]
  {
    if first[j] < j {
      i := j - 1;
      assert first[j] == first[i];
    } else {
      i := End(first, j);
      EndCloses(first, j);
    }
  }

  /** A cycle under construction: it starts at position s with the image of `start`. */
  ghost predicate Growing(p: seq<nat>, c: seq<nat>, first: seq<nat>, s: nat, start: nat) {
    && s < |c| == |first| && start < |p| && Distinct(c, |p|)
    && ListsCycles(p, c[..s], first[..s]) && start !in c[..s]
    && c[s] == p[start]
    && (forall i :: s <= i < |c| ==> first[i] == s)
    && forall i :: s <= i < |c| - 1 ==> p[c[i]] == c[i + 1]
  }

  lemma SameImage(p: seq<nat>, a: nat, b: nat)
    requires IsPermutation(p) && a < |p| && b < |p| && p[a] == p[b]
    ensures a == b
  {
  }

  /** The image of the newest element is either new or closes the cycle, and then the newest element is
      the one the cycle was started from. */
  lemma NextElement(p: seq<nat>, c: seq<nat>, first: seq<nat>, s: nat, start: nat)
    requires IsPermutation(p) && Growing(p, c, first, s, start)
    ensures p[c[|c| - 1]] in c ==> p[c[|c| - 1]] == c[s] && c[|c| - 1] == start
  {
    var x := c[|c| - 1];
    var y := p[x];
    if y in c {
      var j :| 0 <= j < |c| && c[j] == y;
      if j < s {
        var i := Preimage(p, c[..s], first[..s], j);
        assert c[..s][i] == c[i];
        SameImage(p, c[i], x);
      } else if j > s {
        SameImage(p, c[j - 1], x);
      }
    }
  }

  /** The first element of a new cycle is new. */
  lemma FirstElement(p: seq<nat>, c: seq<nat>, first: seq<nat>, start: nat)
    requires IsPermutation(p) && ListsCycles(p, c, first) && start < |p| && start !in c
    ensures p[start] !in c
  {
    if p[start] in c {
      var j :| 0 <= j < |c| && c[j] == p[start];
      var i := Preimage(p, c, first, j);
    }
  }

  lemma StartCycle(p: seq<nat>, c: seq<nat>, first: seq<nat>, start: nat)
    requires IsPermutation(p) && ListsCycles(p, c, first) && start < |p| && start !in c
    ensures Growing(p, c + [p[start]], first + [|c|], |c|, start)
  {
    FirstElement(p, c, first, start);
    assert (c + [p[start]])[..|c|] == c && (first + [|c|])[..|c|] == first;
  }

  lemma GrowCycle(p: seq<nat>, c: seq<nat>, first: seq<nat>, s: nat, start: nat)
    requires IsPermutation(p) && Growing(p, c, first, s, start) && p[c[|c| - 1]] !in c
    ensures Growing(p, c + [p[c[|c| - 1]]], first + [s], s, start)
  {
    assert (c + [p[c[|c| - 1]]])[..s] == c[..s] && (first + [s])[..s] == first[..s];
  }

  lemma CloseCycle(p: seq<nat>, c: seq<nat>, first: seq<nat>, s: nat, start: nat)
    requires IsPermutation(p) && Growing(p, c, first, s, start) && p[c[|c| - 1]] in c
    ensures ListsCycles(p, c, first) && start in c
  {
    NextElement(p, c, first, s, start);
    forall i | 0 <= i < |c| ensures p[c[i]] == c[Successor(first, i)] {
      if i < s { KeepSuccessor(p, c, first, s, i); }
    }
    forall i | 0 <= i < |first|
      ensures first[i] <= i && first[first[i]] == first[i]
      ensures i + 1 < |first| ==> first[i + 1] == first[i] || first[i + 1] == i + 1
    {
      if i < s { KeepSegment(first, s, i); }
    }
  }

  lemma KeepSuccessor(p: seq<nat>, c: seq<nat>, first: seq<nat>, s: nat, i: nat)
    requires i < s < |c| == |first| && ListsCycles(p, c[..s], first[..s]) && first[s] == s
    ensures first[i] <= i && c[i] < |p| && Successor(first, i) < |c| && p[c[i]] == c[Successor(first, i)]
  {
    assert first[..s][i] == first[i] && c[..s][i] == c[i];
    assert Successor(first[..s], i) == Successor(first, i);
  }

  lemma KeepSegment(first: seq<nat>, s: nat, i: nat)
    requires i < s < |first| && Segments(first[..s]) && first[s] == s
    ensures first[i] <= i && first[first[i]] == first[i]
    ensures first[i + 1] == first[i] || first[i + 1] == i + 1
  {
    assert first[..s][i] == first[i];
    assert first[..s][first[i]] == first[first[i]];
    if i + 1 < s { assert first[..s][i + 1] == first[i + 1]; }
  }

  // ---------- the loop ----------

  /** What visited says about the list. */
  ghost predicate Marks(visited: seq<bool>, c: seq<nat>) {
    forall x: nat :: x < |visited| ==> (visited[x] <==> x in c)
  }

  /** Where the cycle of each position was started: the least index not listed before. */
  ghost predicate Starts(p: seq<nat>, c: seq<nat>, first: seq<nat>, starts: seq<nat>) {
    && |starts| == |first| == |c|
    && forall i :: 0 <= i < |c| ==> first[i] <= i && StartsAt(p, c, first[i], starts[i])
  }

  ghost predicate StartsAt(p: seq<nat>, c: seq<nat>, s: nat, start: nat) {
    && s < |c| && start < |p| && c[s] == p[start] && start !in c[..s]
    && forall x: nat :: x < start ==> x in c[..s]
  }

  lemma StartsExtend(p: seq<nat>, c: seq<nat>, first: seq<nat>, starts: seq<nat>, x: nat, s: nat, start: nat)
    requires Starts(p, c, first, starts) && s <= |c| && StartsAt(p, c + [x], s, start)
    ensures Starts(p, c + [x], first + [s], starts + [start])
  {
    forall i | 0 <= i < |c| ensures StartsAt(p, c + [x], first[i], starts[i]) {
      assert (c + [x])[..first[i]] == c[..first[i]];
    }
  }

  lemma Everything(p: seq<nat>, c: seq<nat>, first: seq<nat>)
    requires ListsCycles(p, c, first) && forall x: nat :: x < |p| ==> x in c
    ensures |c| == |p|
  {
    Pigeonhole(c, |p|);
  }

  /** The inner loop of get_permutation_cycles: one whole cycle. */
  method ListCycle(permutation: seq<nat>, visited: array<bool>, list: seq<nat>, ghost listFirst: seq<nat>, ghost listStarts: seq<nat>, startIndex: nat)
    returns (output: seq<nat>, ghost first: seq<nat>, ghost starts: seq<nat>)
    requires IsPermutation(permutation) && visited.Length == |permutation| && startIndex < |permutation|
    requires ListsCycles(permutation, list, listFirst) && Starts(permutation, list, listFirst, listStarts) && Marks(visited[..], list)
    requires startIndex !in list && forall x: nat :: x < startIndex ==> x in list
    modifies visited
    ensures ListsCycles(permutation, output, first) && Starts(permutation, output, first, starts) && Marks(visited[..], output)
    ensures forall x: nat :: x <= startIndex ==> x in output
  {
    hide ListsCycles, Growing, Starts, StartsAt, Marks;
    output, first, starts := list, listFirst, listStarts;
    ghost var s := |output|;
    var cur := permutation[startIndex];
    var next := permutation[cur];
    StartCycle(permutation, output, first, startIndex);
    FirstStart(permutation, output, startIndex);
    while true
      invariant Growing(permutation, output + [cur], first + [s], s, startIndex) && Starts(permutation, output, first, starts)
      invariant StartsAt(permutation, output + [cur], s, startIndex) && s <= |output|
      invariant Marks(visited[..], output) && cur < |permutation| && next == permutation[cur]
      invariant forall x: nat :: x < startIndex ==> x in output
      decreases |permutation| - |output|
    {
      StartsExtend(permutation, output, first, starts, cur, s, startIndex);
      Marked(visited[..], output, cur);
      Room(permutation, output + [cur], first + [s], s, startIndex);
      output, first, starts := output + [cur], first + [s], starts + [startIndex];
      visited[cur] := true;
      cur := next;
      MarkAt(visited[..], output, cur);
      if visited[next] {
        break;
      }
      GrowCycle(permutation, output, first, s, startIndex);
      KeepStart(permutation, output, s, startIndex, cur);
      next := permutation[cur];
    }
    CloseCycle(permutation, output, first, s, startIndex);
  }

  /** get_permutation_cycles: every element is listed once, each followed by its image within its
      cycle; a cycle is started from the least index not listed yet, and begins with its image. */
  method GetPermutationCycles(permutation: seq<nat>) returns (output: seq<nat>, ghost first: seq<nat>, ghost starts: seq<nat>)
    requires IsPermutation(permutation)
    ensures |output| == |permutation| && ListsCycles(permutation, output, first) && Starts(permutation, output, first, starts)
  {
    hide ListsCycles, Starts, Marks;
    var size := |permutation|;
    var visited := new bool[size](i => false);
    output := [];
    first, starts := [], [];
    Nothing(permutation, visited[..]);
    var startIndex := 0;
    while startIndex < size
      invariant 0 <= startIndex <= size
      invariant ListsCycles(permutation, output, first) && Starts(permutation, output, first, starts) && Marks(visited[..], output)
      invariant forall x: nat :: x < startIndex ==> x in output
      invariant startIndex < size ==> startIndex !in output
      decreases size - startIndex
    {
      output, first, starts := ListCycle(permutation, visited, output, first, starts, startIndex);
      startIndex := startIndex + 1;
      if startIndex < size { MarkAt(visited[..], output, startIndex); }
      while startIndex < size && visited[startIndex]
        invariant 0 <= startIndex <= size && Marks(visited[..], output)
        invariant startIndex < size ==> (visited[startIndex] <==> startIndex in output)
        invariant forall x: nat :: x < startIndex ==> x in output
      {
        startIndex := startIndex + 1;
        if startIndex < size { MarkAt(visited[..], output, startIndex); }
      }
    }
    Everything(permutation, output, first);
  }

  lemma MarkAt(visited: seq<bool>, c: seq<nat>, x: nat)
    requires Marks(visited, c) && x < |visited|
    ensures visited[x] <==> x in c
  {
  }

  lemma Nothing(p: seq<nat>, visited: seq<bool>)
    requires |visited| == |p| && forall i :: 0 <= i < |visited| ==> !visited[i]
    ensures ListsCycles(p, [], []) && Starts(p, [], [], []) && Marks(visited, [])
  {
  }

  lemma FirstStart(p: seq<nat>, c: seq<nat>, start: nat)
    requires start < |p| && start !in c && forall x: nat :: x < start ==> x in c
    ensures StartsAt(p, c + [p[start]], |c|, start)
  {
    assert (c + [p[start]])[..|c|] == c;
  }

  lemma KeepStart(p: seq<nat>, c: seq<nat>, s: nat, start: nat, x: nat)
    requires StartsAt(p, c, s, start)
    ensures StartsAt(p, c + [x], s, start)
  {
    assert (c + [x])[..s] == c[..s];
  }

  lemma Marked(visited: seq<bool>, c: seq<nat>, x: nat)
    requires Marks(visited, c) && x < |visited|
    ensures Marks(visited[x := true], c + [x])
  {
  }

  lemma Room(p: seq<nat>, c: seq<nat>, first: seq<nat>, s: nat, start: nat)
    requires Growing(p, c, first, s, start)
    ensures |c| <= |p|
  {
    Pigeonhole(c, |p|);
  }
}
