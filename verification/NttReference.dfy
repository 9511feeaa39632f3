/** Reference for the negacyclic transforms (src/operation/ntt.cpp).

    The reference is the depth-first remainder tree: a node of height h with heap index n holds
    2^h coefficients, is split by the root at position n - 1 of the shuffled table, and its halves
    go to nodes 2n and 2n + 1. The loops of ntt work level by level instead. */
module NttReference {
  import opened Congruence
  import opened Montgomery

  // ---------- reference ----------

  function Weight(root: seq<int>, n: int): int {
    if 1 <= n <= |root| then root[n - 1] else 0
  }

  /** The two butterflies: Forward splits a polynomial, Backward joins the halves again. */
  datatype Kind = Forward | Backward

  function LowerValue(kind: Kind, x: int, y: int, w: int, q: int, k: int): int {
    match kind
    case Forward => AddGuard(x, MontMultScalar(w, y, q, k), 2 * q)
    case Backward => AddGuard(x, y, 2 * q)
  }

  function UpperValue(kind: Kind, x: int, y: int, w: int, q: int, k: int): int {
    match kind
    case Forward => SubGuard(x, MontMultScalar(w, y, q, k), 2 * q)
    case Backward => MontMultScalar(w, SubGuard(x, y, 2 * q), q, k)
  }

  /** The lower or upper half of a block after its butterflies. */
  function Half(kind: Kind, s: seq<int>, upper: bool, w: int, q: int, k: int): (half: seq<int>)
    ensures |half| == |s| / 2
  {
    var m := |s| / 2;
    seq(m, i requires 0 <= i < m =>
      if upper then UpperValue(kind, s[i], s[m + i], w, q, k) else LowerValue(kind, s[i], s[m + i], w, q, k))
  }

  function Tree(s: seq<int>, h: nat, n: nat, root: seq<int>, q: int, k: int): (t: seq<int>)
    requires |s| == Pow2(h)
    ensures |t| == |s|
    decreases h
  {
    if h == 0 then s else
      Tree(Half(Forward, s, false, Weight(root, n), q, k), h - 1, 2 * n, root, q, k) +
      Tree(Half(Forward, s, true, Weight(root, n), q, k), h - 1, 2 * n + 1, root, q, k)
  }

  /** One level of the loops: consecutive nodes of height h, starting with heap index n. */
  function Level(kind: Kind, s: seq<int>, h: nat, n: nat, root: seq<int>, q: int, k: int): (t: seq<int>)
    requires h > 0
    ensures |t| == |s|
    decreases |s|
  {
    var size := Pow2(h);
    if |s| < size then s else
      assert size % 2 == 0 by { Pow2Double(h - 1); }
      Half(kind, s[..size], false, Weight(root, n), q, k) +
      (Half(kind, s[..size], true, Weight(root, n), q, k) + Level(kind, s[size..], h, n + 1, root, q, k))
  }

  lemma LevelBlock(kind: Kind, block: seq<int>, rest: seq<int>, h: nat, n: nat, root: seq<int>, q: int, k: int)
    requires h > 0 && |block| == Pow2(h)
    ensures Level(kind, block + rest, h, n, root, q, k)
         == Half(kind, block, false, Weight(root, n), q, k)
            + (Half(kind, block, true, Weight(root, n), q, k) + Level(kind, rest, h, n + 1, root, q, k))
  {
    hide Half, Weight;
    assert (block + rest)[..|block|] == block && (block + rest)[|block|..] == rest;
  }

  /** The subtrees below consecutive nodes of height h. */
  function Forest(s: seq<int>, h: nat, n: nat, root: seq<int>, q: int, k: int): (t: seq<int>)
    ensures |t| == |s|
    decreases |s|
  {
    if |s| < Pow2(h) then s
    else Tree(s[..Pow2(h)], h, n, root, q, k) + Forest(s[Pow2(h)..], h, n + 1, root, q, k)
  }

  lemma {:induction false} ForestLeaves(s: seq<int>, n: nat, root: seq<int>, q: int, k: int)
    ensures Forest(s, 0, n, root, q, k) == s
    decreases |s|
  {
    assert Pow2(0) == 1;
    if |s| > 0 {
      ForestLeaves(s[1..], n + 1, root, q, k);
    }
  }

  lemma ForestRoot(s: seq<int>, h: nat, root: seq<int>, q: int, k: int)
    requires |s| == Pow2(h)
    ensures Forest(s, h, 1, root, q, k) == Tree(s, h, 1, root, q, k)
  {
    assert s[..Pow2(h)] == s && s[Pow2(h)..] == [];
  }

  /** Two trees at the front of a forest. */
  lemma ForestTwo(a: seq<int>, b: seq<int>, rest: seq<int>, h: nat, n: nat, root: seq<int>, q: int, k: int)
    requires |a| == |b| == Pow2(h)
    ensures Forest(a + (b + rest), h, n, root, q, k)
         == Tree(a, h, n, root, q, k) + (Tree(b, h, n + 1, root, q, k) + Forest(rest, h, n + 2, root, q, k))
  {
    hide Tree, Pow2;
    ForestOne(a, b + rest, h, n, root, q, k);
    ForestOne(b, rest, h, n + 1, root, q, k);
  }

  lemma ForestOne(a: seq<int>, rest: seq<int>, h: nat, n: nat, root: seq<int>, q: int, k: int)
    requires |a| == Pow2(h)
    ensures Forest(a + rest, h, n, root, q, k) == Tree(a, h, n, root, q, k) + Forest(rest, h, n + 1, root, q, k)
  {
    assert (a + rest)[..|a|] == a && (a + rest)[|a|..] == rest;
  }

  /** The length of `count` blocks. */
  function Times(count: nat, size: nat): nat {
    if count == 0 then 0 else size + Times(count - 1, size)
  }

  lemma {:induction false} TimesPow2(e: nat, f: nat)
    ensures Times(Pow2(e), Pow2(f)) == Pow2(e + f)
  {
    if e > 0 {
      TimesPow2(e - 1, f);
      TimesAdd(Pow2(e - 1), Pow2(e - 1), Pow2(f));
    } else {
      assert Pow2(0) == 1 && Times(1, Pow2(f)) == Pow2(f) + Times(0, Pow2(f));
    }
  }

  lemma {:induction false} TimesAdd(a: nat, b: nat, size: nat)
    ensures Times(a + b, size) == Times(a, size) + Times(b, size)
  {
    if a > 0 { TimesAdd(a - 1, b, size); }
  }

  lemma TimesNone(size: nat)
    ensures Times(0, size) == 0
  {
  }

  /** A level followed by the remaining subtrees is the subtrees one level up. */
  lemma {:induction false} LevelThenForest(s: seq<int>, count: nat, h: nat, n: nat, root: seq<int>, q: int, k: int)
    requires h > 0 && |s| == Times(count, Pow2(h))
    ensures Forest(Level(Forward, s, h, n, root, q, k), h - 1, 2 * n, root, q, k) == Forest(s, h, n, root, q, k)
    decreases count
  {
    hide Half, Weight, Tree;
    if count > 0 {
      var block, rest := s[..Pow2(h)], s[Pow2(h)..];
      var low, high := Half(Forward, block, false, Weight(root, n), q, k), Half(Forward, block, true, Weight(root, n), q, k);
      LevelThenForest(rest, count - 1, h, n + 1, root, q, k);
      TreeStep(block, h, n, root, q, k);
      ForestTwo(low, high, Level(Forward, rest, h, n + 1, root, q, k), h - 1, 2 * n, root, q, k);
      AssociateSeq(Tree(low, h - 1, 2 * n, root, q, k), Tree(high, h - 1, 2 * n + 1, root, q, k),
                Forest(rest, h, n + 1, root, q, k));
    } else {
      assert s == [];
    }
  }

  lemma TreeStep(s: seq<int>, h: nat, n: nat, root: seq<int>, q: int, k: int)
    requires h > 0 && |s| == Pow2(h)
    ensures Pow2(h) == 2 * Pow2(h - 1)
    ensures Tree(s, h, n, root, q, k) ==
      Tree(Half(Forward, s, false, Weight(root, n), q, k), h - 1, 2 * n, root, q, k) +
      Tree(Half(Forward, s, true, Weight(root, n), q, k), h - 1, 2 * n + 1, root, q, k)
  {
    hide Half, Weight;
  }

  lemma AssociateSeq(a: seq<int>, b: seq<int>, c: seq<int>)
    ensures (a + b) + c == a + (b + c)
  {
  }

  /** The buffer after joining up to height h: every level starts where the previous one left the
      inverse root table, whose first half serves the pairs. */
  function Joined(s: seq<int>, e: nat, h: nat, rootInverse: seq<int>, q: int, k: int): (t: seq<int>)
    requires h <= e
    ensures |t| == |s|
  {
    if h == 0 then s
    else Level(Backward, Joined(s, e, h - 1, rootInverse, q, k), h, RootStart(e, h) + 1, rootInverse, q, k)
  }

  /** Inverse roots consumed before the level of height h, in a table for 2^e coefficients. */
  function RootStart(e: nat, h: nat): (start: nat)
    requires 0 < h <= e
    ensures start + Pow2(e - h + 1) == Pow2(e)
    decreases h
  {
    if h == 1 then 0 else RootStart(e, h - 1) + Pow2(e - h + 1)
  }

  /** The buffer after splitting down to height h, level by level. */
  function Split(s: seq<int>, e: nat, h: nat, root: seq<int>, q: int, k: int): (t: seq<int>)
    requires h <= e
    ensures |t| == |s|
    decreases e - h
  {
    if h == e then s
    else Level(Forward, Split(s, e, h + 1, root, q, k), h + 1, Pow2(e - h - 1), root, q, k)
  }

  /** Level order and depth-first order agree. */
  lemma {:induction false} SplitForest(s: seq<int>, e: nat, h: nat, root: seq<int>, q: int, k: int)
    requires h <= e && |s| == Pow2(e)
    ensures Forest(Split(s, e, h, root, q, k), h, Pow2(e - h), root, q, k) == Tree(s, e, 1, root, q, k)
    decreases e - h
  {
    hide Level, Tree, Forest, Times;
    if h == e {
      ForestRoot(s, e, root, q, k);
    } else {
      SplitForest(s, e, h + 1, root, q, k);
      TimesPow2(e - h - 1, h + 1);
      LevelThenForest(Split(s, e, h + 1, root, q, k), Pow2(e - h - 1), h + 1, Pow2(e - h - 1), root, q, k);
    }
  }

  lemma SplitAll(s: seq<int>, e: nat, root: seq<int>, q: int, k: int)
    requires |s| == Pow2(e)
    ensures Split(s, e, 0, root, q, k) == Tree(s, e, 1, root, q, k)
  {
    SplitForest(s, e, 0, root, q, k);
    ForestLeaves(Split(s, e, 0, root, q, k), Pow2(e), root, q, k);
  }
}