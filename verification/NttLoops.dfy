/** The loops of ntt and intt (src/operation/ntt.cpp), which overwrite a buffer in place.

    Both directions walk over the buffer in the same way, so the loops here are written once and
    take the butterfly as a parameter. */
module NttLoops {
  import opened Congruence
  import opened Montgomery
  import opened NttReference

  /** One butterfly, as it is repeated in the unrolled loop bodies. */
  method ButterflyAt(kind: Kind, y: array<int>, i: nat, j: nat, rootValue: int, qDouble: int, q: int, k: int)
    requires i < j < y.Length && qDouble == 2 * q
    modifies y
    ensures y[..] == old(y[..])[i := LowerValue(kind, old(y[i]), old(y[j]), rootValue, q, k)]
                               [j := UpperValue(kind, old(y[i]), old(y[j]), rootValue, q, k)]
  {
    var yValue, yJumpedValue := y[i], y[j];
    match kind
    case Forward =>
      var product := MontMultScalar(rootValue, yJumpedValue, q, k);
      y[i] := AddGuard(yValue, product, qDouble);
      y[j] := SubGuard(yValue, product, qDouble);
    case Backward =>
      y[i] := AddGuard(yValue, yJumpedValue, qDouble);
      y[j] := MontMultScalar(rootValue, SubGuard(yValue, yJumpedValue, qDouble), q, k);
  }

  /** The first `done` butterflies of a block are finished and nothing else has changed. */
  ghost predicate Processed(kind: Kind, before: seq<int>, now: seq<int>, start: nat, m: nat, done: nat,
                            w: int, q: int, k: int)
  {
    && start + 2 * m <= |before| == |now|
    && (forall i :: 0 <= i < |now| && !(start <= i < start + done) && !(start + m <= i < start + m + done)
          ==> now[i] == before[i])
    && (forall i :: start <= i < start + done && done <= m
          ==> now[i] == LowerValue(kind, before[i], before[i + m], w, q, k))
    && (forall i :: start + m <= i < start + m + done && done <= m
          ==> now[i] == UpperValue(kind, before[i - m], before[i], w, q, k))
  }

  /** A finished block, with the buffer cut into what lies before, the block and what follows. */
  lemma ProcessedAll(kind: Kind, head: seq<int>, block: seq<int>, rest: seq<int>, now: seq<int>, m: nat,
                     w: int, q: int, k: int)
    requires |block| == 2 * m && Processed(kind, head + (block + rest), now, |head|, m, m, w, q, k)
    ensures now == head + (Half(kind, block, false, w, q, k) + (Half(kind, block, true, w, q, k) + rest))
  {
    hide LowerValue, UpperValue;
    var before := head + (block + rest);
    var target := head + (Half(kind, block, false, w, q, k) + (Half(kind, block, true, w, q, k) + rest));
    forall i | 0 <= i < |now| ensures now[i] == target[i] {
      if |head| <= i < |head| + m {
        assert before[i] == block[i - |head|] && before[i + m] == block[m + (i - |head|)];
      } else if |head| + m <= i < |head| + 2 * m {
        assert before[i] == block[m + (i - |head| - m)] && before[i - m] == block[i - |head| - m];
      }
    }
  }

  /** Butterfly number `done` of a block. */
  method Advance(kind: Kind, y: array<int>, start: nat, m: nat, done: nat, w: int, qDouble: int, q: int, k: int,
                 ghost before: seq<int>)
    requires done < m && start + 2 * m <= y.Length && qDouble == 2 * q
    requires Processed(kind, before, y[..], start, m, done, w, q, k)
    modifies y
    ensures Processed(kind, before, y[..], start, m, done + 1, w, q, k)
  {
    hide LowerValue, UpperValue;
    ButterflyAt(kind, y, start + done, start + m + done, w, qDouble, q, k);
  }

  method AdvanceFour(kind: Kind, y: array<int>, start: nat, m: nat, done: nat, w: int, qDouble: int, q: int, k: int,
                     ghost before: seq<int>)
    requires done + 4 <= m && start + 2 * m <= y.Length && qDouble == 2 * q
    requires Processed(kind, before, y[..], start, m, done, w, q, k)
    modifies y
    ensures Processed(kind, before, y[..], start, m, done + 4, w, q, k)
  {
    hide *;
    Advance(kind, y, start, m, done, w, qDouble, q, k, before);
    Advance(kind, y, start, m, done + 1, w, qDouble, q, k, before);
    Advance(kind, y, start, m, done + 2, w, qDouble, q, k, before);
    Advance(kind, y, start, m, done + 3, w, qDouble, q, k, before);
  }

  /** The coefficient loop of one block: one butterfly at a time for short jumps, four otherwise. */
  method BlockLoop(kind: Kind, y: array<int>, start: nat, jumpSize: nat, rootValue: int, qDouble: int, q: int, k: int)
    requires start + 2 * jumpSize <= y.Length && qDouble == 2 * q
    requires jumpSize >= 4 ==> jumpSize % 4 == 0
    modifies y
    ensures Processed(kind, old(y[..]), y[..], start, jumpSize, jumpSize, rootValue, q, k)
  {
    var coeffIndex := 0;
    ghost var before := y[..];
    assert Processed(kind, before, y[..], start, jumpSize, 0, rootValue, q, k);
    hide *;
    while coeffIndex < jumpSize
      invariant 0 <= coeffIndex <= jumpSize && (jumpSize >= 4 ==> coeffIndex % 4 == 0)
      invariant Processed(kind, before, y[..], start, jumpSize, coeffIndex, rootValue, q, k)
    {
      if jumpSize < 4 {
        Advance(kind, y, start, jumpSize, coeffIndex, rootValue, qDouble, q, k, before);
        coeffIndex := coeffIndex + 1;
      } else {
        AdvanceFour(kind, y, start, jumpSize, coeffIndex, rootValue, qDouble, q, k, before);
        coeffIndex := coeffIndex + 4;
      }
    }
  }

  /** Finished blocks in front, and a level that still has to be applied behind, make up `level`. */
  ghost predicate Partial(kind: Kind, s: seq<int>, position: nat, h: nat, n: nat, root: seq<int>, q: int, k: int,
                          level: seq<int>) {
    h > 0 && position <= |s| && s[..position] + Level(kind, s[position..], h, n, root, q, k) == level
  }

  lemma PartialCut(kind: Kind, head: seq<int>, tail: seq<int>, h: nat, n: nat, root: seq<int>, q: int, k: int,
                   level: seq<int>)
    requires h > 0
    ensures Partial(kind, head + tail, |head|, h, n, root, q, k, level)
        <==> head + Level(kind, tail, h, n, root, q, k) == level
  {
    assert (head + tail)[..|head|] == head && (head + tail)[|head|..] == tail;
  }

  lemma Associate3(a: seq<int>, b: seq<int>, c: seq<int>, d: seq<int>)
    ensures ((a + b) + c) + d == a + (b + (c + d))
  {
  }

  lemma PartialStep(kind: Kind, head: seq<int>, block: seq<int>, rest: seq<int>,
                    h: nat, n: nat, root: seq<int>, q: int, k: int, level: seq<int>)
    requires h > 0 && |block| == Pow2(h) == 2 * Pow2(h - 1)
    ensures var low, high := Half(kind, block, false, Weight(root, n), q, k), Half(kind, block, true, Weight(root, n), q, k);
      Partial(kind, head + (block + rest), |head|, h, n, root, q, k, level)
      ==> Partial(kind, head + (low + (high + rest)), |head| + |block|, h, n + 1, root, q, k, level)
  {
    hide *;
    var low, high := Half(kind, block, false, Weight(root, n), q, k), Half(kind, block, true, Weight(root, n), q, k);
    var last := Level(kind, rest, h, n + 1, root, q, k);
    LevelBlock(kind, block, rest, h, n, root, q, k);
    PartialCut(kind, head, block + rest, h, n, root, q, k, level);
    Associate3(head, low, high, rest);
    PartialCut(kind, head + low + high, rest, h, n + 1, root, q, k, level);
    Associate3(head, low, high, last);
  }

  lemma Cut(s: seq<int>, start: nat, size: nat)
    requires start + size <= |s|
    ensures s == s[..start] + (s[start..start + size] + s[start + size..])
  {
  }

  /** A finished block moves the position of a partial level behind it. */
  lemma BlockDone(kind: Kind, before: seq<int>, now: seq<int>, start: nat, h: nat, n: nat, root: seq<int>, q: int, k: int,
                  level: seq<int>)
    requires h > 0 && start + 2 * Pow2(h - 1) <= |before| == |now|
    ensures Processed(kind, before, now, start, Pow2(h - 1), Pow2(h - 1), Weight(root, n), q, k)
      && Partial(kind, before, start, h, n, root, q, k, level)
      ==> Partial(kind, now, start + 2 * Pow2(h - 1), h, n + 1, root, q, k, level)
  {
    hide *;
    HalfSize(h);
    if Processed(kind, before, now, start, Pow2(h - 1), Pow2(h - 1), Weight(root, n), q, k)
      && Partial(kind, before, start, h, n, root, q, k, level)
    {
      var size := Pow2(h);
      var head, block, rest := before[..start], before[start..start + size], before[start + size..];
      Cut(before, start, size);
      ProcessedAll(kind, head, block, rest, now, Pow2(h - 1), Weight(root, n), q, k);
      PartialStep(kind, head, block, rest, h, n, root, q, k, level);
    }
  }

  lemma HalfSize(h: nat)
    requires h > 0
    ensures Pow2(h) == 2 * Pow2(h - 1) && (Pow2(h - 1) >= 4 ==> Pow2(h - 1) % 4 == 0)
  {
    hide *;
    Pow2Double(h - 1);
    if h >= 2 { Pow2Double(h - 2); }
    if h >= 3 { Pow2Double(h - 3); }
    if h == 2 { Pow2Double(0); }
  }

  /** The jump loop of one level: a root for every block. */
  method LevelLoop(kind: Kind, y: array<int>, root: seq<int>, rootStart: nat, jumpCount: nat, jumpSize: nat, qDouble: int,
                   q: int, k: int, ghost h: nat)
    requires h > 0 && jumpSize == Pow2(h - 1) && Times(jumpCount, 2 * jumpSize) == y.Length
    requires qDouble == 2 * q && rootStart + jumpCount <= |root|
    modifies y
    ensures y[..] == Level(kind, old(y[..]), h, rootStart + 1, root, q, k)
  {
    hide *;
    var localY: nat := 0;
    var jumpIndex := 0;
    ghost var level := Level(kind, y[..], h, rootStart + 1, root, q, k);
    PartialNone(kind, y[..], h, rootStart + 1, root, q, k);
    HalfSize(h);
    while jumpIndex < jumpCount
      invariant jumpIndex <= jumpCount && localY + Times(jumpCount - jumpIndex, 2 * jumpSize) == y.Length
      invariant Partial(kind, y[..], localY, h, rootStart + jumpIndex + 1, root, q, k, level)
    {
      ghost var before := y[..];
      TimesStep(jumpCount - jumpIndex, 2 * jumpSize);
      WeightAt(root, rootStart + jumpIndex);
      BlockLoop(kind, y, localY, jumpSize, root[rootStart + jumpIndex], qDouble, q, k);
      BlockDone(kind, before, y[..], localY, h, rootStart + jumpIndex + 1, root, q, k, level);
      localY := localY + 2 * jumpSize;
      jumpIndex := jumpIndex + 1;
    }
    TimesNone(2 * jumpSize);
    PartialAll(kind, y[..], h, rootStart + jumpIndex + 1, root, q, k, level);
  }

  lemma TimesStep(count: nat, size: nat)
    requires count > 0
    ensures Times(count, size) == size + Times(count - 1, size)
  {
  }

  lemma WeightAt(root: seq<int>, i: nat)
    requires i < |root|
    ensures Weight(root, i + 1) == root[i]
  {
  }

  lemma PartialNone(kind: Kind, s: seq<int>, h: nat, n: nat, root: seq<int>, q: int, k: int)
    requires h > 0
    ensures Partial(kind, s, 0, h, n, root, q, k, Level(kind, s, h, n, root, q, k))
  {
    hide Level;
    assert s[0..] == s;
  }

  lemma PartialAll(kind: Kind, s: seq<int>, h: nat, n: nat, root: seq<int>, q: int, k: int, level: seq<int>)
    requires Partial(kind, s, |s|, h, n, root, q, k, level)
    ensures s == level
  {
    assert Level(kind, [], h, n, root, q, k) == [];
  }

  /** Neighbouring pairs: the last level of ntt and the first of intt. */
  method PairLoop(kind: Kind, y: array<int>, root: seq<int>, rootStart: nat, qDouble: int, q: int, k: int)
    requires y.Length % 2 == 0 && qDouble == 2 * q && rootStart + y.Length / 2 <= |root|
    modifies y
    ensures y[..] == Level(kind, old(y[..]), 1, rootStart + 1, root, q, k)
  {
    hide *;
    var localY: nat := 0;
    var coeffIndex := 0;
    ghost var level := Level(kind, y[..], 1, rootStart + 1, root, q, k);
    PartialNone(kind, y[..], 1, rootStart + 1, root, q, k);
    Pow2Double(0);
    while coeffIndex < y.Length / 2
      invariant coeffIndex <= y.Length / 2 && localY == 2 * coeffIndex
      invariant Partial(kind, y[..], localY, 1, rootStart + coeffIndex + 1, root, q, k, level)
    {
      ghost var before := y[..];
      WeightAt(root, rootStart + coeffIndex);
      PairBlock(kind, y, localY, root[rootStart + coeffIndex], qDouble, q, k);
      BlockDone(kind, before, y[..], localY, 1, rootStart + coeffIndex + 1, root, q, k, level);
      localY := localY + 2;
      coeffIndex := coeffIndex + 1;
    }
    PartialAll(kind, y[..], 1, rootStart + coeffIndex + 1, root, q, k, level);
  }

  method PairBlock(kind: Kind, y: array<int>, start: nat, rootValue: int, qDouble: int, q: int, k: int)
    requires start + 2 <= y.Length && qDouble == 2 * q
    modifies y
    ensures Processed(kind, old(y[..]), y[..], start, 1, 1, rootValue, q, k)
  {
    ghost var before := y[..];
    assert Processed(kind, before, y[..], start, 1, 0, rootValue, q, k);
    hide *;
    Advance(kind, y, start, 1, 0, rootValue, qDouble, q, k, before);
  }

  lemma LevelSizes(e: nat, level: nat)
    requires level < e
    ensures Times(Pow2(level), Pow2(e - level)) == Pow2(e)
    ensures Pow2(e - level) == 2 * Pow2(e - level - 1)
    ensures 2 * Pow2(level) == Pow2(level + 1) && Pow2(level + 1) <= Pow2(e)
    ensures Pow2(0) == 1
  {
    TimesPow2(level, e - level);
    Pow2Monotone(level + 1, e);
  }

  /** The trees below the nodes of height h make up t. */
  ghost predicate ForestOf(s: seq<int>, h: nat, n: nat, root: seq<int>, q: int, k: int, t: seq<int>) {
    Forest(s, h, n, root, q, k) == t
  }

  lemma ForestDown(before: seq<int>, now: seq<int>, count: nat, h: nat, n: nat, root: seq<int>, q: int, k: int, t: seq<int>)
    requires h > 0 && |before| == Times(count, Pow2(h))
    ensures now == Level(Forward, before, h, n, root, q, k) && ForestOf(before, h, n, root, q, k, t)
      ==> ForestOf(now, h - 1, 2 * n, root, q, k, t)
  {
    hide Level, Forest;
    LevelThenForest(before, count, h, n, root, q, k);
  }

  lemma ForestStart(s: seq<int>, h: nat, root: seq<int>, q: int, k: int)
    requires |s| == Pow2(h)
    ensures ForestOf(s, h, 1, root, q, k, Tree(s, h, 1, root, q, k))
  {
    ForestRoot(s, h, root, q, k);
  }

  lemma ForestEnd(s: seq<int>, n: nat, root: seq<int>, q: int, k: int, t: seq<int>)
    ensures ForestOf(s, 0, n, root, q, k, t) ==> s == t
  {
    ForestLeaves(s, n, root, q, k);
  }

  /** ntt: copy when the buffers differ, all levels but the last block by block, and the last level
      pair by pair. The level-order loops compute the depth-first tree. */
  method Ntt(x: array<int>, y: array<int>, root: seq<int>, qDouble: int, q: int, k: int,
             coeffCount: nat, logCoeffCount: nat)
    requires logCoeffCount >= 1 && coeffCount == Pow2(logCoeffCount) == x.Length == y.Length
    requires |root| == coeffCount - 1 && qDouble == 2 * q
    modifies y
    ensures y[..] == Tree(old(x[..]), logCoeffCount, 1, root, q, k)
  {
    hide *;
    ghost var t := Tree(x[..], logCoeffCount, 1, root, q, k);
    Copy(x, y);
    ForestStart(y[..], logCoeffCount, root, q, k);
    Pow2Double(0);
    var jumpSize, rootIndex := coeffCount, 0;
    for level := 0 to logCoeffCount - 1
      invariant jumpSize == Pow2(logCoeffCount - level) && rootIndex + 1 == Pow2(level)
      invariant ForestOf(y[..], logCoeffCount - level, rootIndex + 1, root, q, k, t)
    {
      ghost var before := y[..];
      LevelSizes(logCoeffCount, level);
      jumpSize := jumpSize / 2;
      var jumpCount := Pow2(level);
      LevelLoop(Forward, y, root, rootIndex, jumpCount, jumpSize, qDouble, q, k, logCoeffCount - level);
      ForestDown(before, y[..], rootIndex + 1, logCoeffCount - level, rootIndex + 1, root, q, k, t);
      rootIndex := rootIndex + jumpCount;
    }
    ghost var before := y[..];
    LevelSizes(logCoeffCount, logCoeffCount - 1);
    PairLoop(Forward, y, root, rootIndex, qDouble, q, k);
    ForestDown(before, y[..], rootIndex + 1, 1, rootIndex + 1, root, q, k, t);
    ForestEnd(y[..], 2 * (rootIndex + 1), root, q, k, t);
  }

  /** The buffer holds what intt has after joining up to height h. */
  ghost predicate JoinedTo(y: seq<int>, x: seq<int>, e: nat, h: nat, rootInverse: seq<int>, q: int, k: int) {
    h <= e && y == Joined(x, e, h, rootInverse, q, k)
  }

  lemma JoinedUp(before: seq<int>, now: seq<int>, x: seq<int>, e: nat, h: nat, rootInverse: seq<int>, q: int, k: int)
    requires 0 < h <= e
    ensures JoinedTo(before, x, e, h - 1, rootInverse, q, k)
      && now == Level(Backward, before, h, RootStart(e, h) + 1, rootInverse, q, k)
      ==> JoinedTo(now, x, e, h, rootInverse, q, k)
  {
    hide Level, RootStart;
  }

  lemma JoinedNone(x: seq<int>, e: nat, rootInverse: seq<int>, q: int, k: int)
    ensures JoinedTo(x, x, e, 0, rootInverse, q, k)
  {
  }

  lemma JoinedAll(y: seq<int>, x: seq<int>, e: nat, rootInverse: seq<int>, q: int, k: int)
    ensures JoinedTo(y, x, e, e, rootInverse, q, k) ==> y == Joined(x, e, e, rootInverse, q, k)
  {
  }

  lemma JoinSizes(e: nat, h: nat)
    requires 0 < h <= e
    ensures Times(Pow2(e - h), Pow2(h)) == Pow2(e) && Pow2(h) == 2 * Pow2(h - 1)
    ensures RootStart(e, h) + 2 * Pow2(e - h) == Pow2(e)
    ensures h < e ==> RootStart(e, h + 1) == RootStart(e, h) + Pow2(e - h)
    ensures RootStart(e, 1) == 0 && Pow2(0) == 1
  {
    TimesPow2(e - h, h);
    assert Pow2(e - h + 1) == 2 * Pow2(e - h);
  }

  /** intt: the pairs first, then ever longer jumps, with the inverse roots used in sequence. */
  method Intt(x: array<int>, y: array<int>, rootInverse: seq<int>, qDouble: int, q: int, k: int,
              coeffCount: nat, logCoeffCount: nat)
    requires logCoeffCount >= 1 && coeffCount == Pow2(logCoeffCount) == x.Length == y.Length
    requires |rootInverse| == coeffCount - 1 && qDouble == 2 * q
    modifies y
    ensures y[..] == Joined(old(x[..]), logCoeffCount, logCoeffCount, rootInverse, q, k)
  {
    hide *;
    ghost var original := x[..];
    Copy(x, y);
    JoinSizes(logCoeffCount, 1);
    JoinedNone(original, logCoeffCount, rootInverse, q, k);
    PairLoop(Backward, y, rootInverse, 0, qDouble, q, k);
    JoinedUp(original, y[..], original, logCoeffCount, 1, rootInverse, q, k);
    var rootIndex, jumpSize := coeffCount / 2, 2;
    var level := logCoeffCount - 2;
    ghost var h := 1;
    while level >= 0
      invariant 1 <= h <= logCoeffCount && level == logCoeffCount - h - 1 && jumpSize == Pow2(h)
      invariant level >= 0 ==> rootIndex == RootStart(logCoeffCount, h + 1)
      invariant JoinedTo(y[..], original, logCoeffCount, h, rootInverse, q, k)
    {
      ghost var before := y[..];
      h := h + 1;
      JoinSizes(logCoeffCount, h);
      var jumpCount := Pow2(level);
      LevelLoop(Backward, y, rootInverse, rootIndex, jumpCount, jumpSize, qDouble, q, k, h);
      JoinedUp(before, y[..], original, logCoeffCount, h, rootInverse, q, k);
      rootIndex, jumpSize, level := rootIndex + jumpCount, 2 * jumpSize, level - 1;
    }
    JoinedAll(y[..], original, logCoeffCount, rootInverse, q, k);
  }

  /** memcpy of a whole buffer, skipped when both names denote the same one. */
  method Copy(x: array<int>, y: array<int>)
    requires x.Length == y.Length
    modifies y
    ensures y[..] == old(x[..])
  {
    if x != y {
      for i := 0 to x.Length
        invariant x[..] == old(x[..])
        invariant y[..i] == x[..i]
      {
        y[i] := x[i];
      }
    }
  }
}
