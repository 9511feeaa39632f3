/** The partitions of the chains of a level (src/ckks/parameters.cpp): blocks of as many chains as there
    are special primes, counted from the last chain. */
module Partitions {
  import opened Congruence

  /** Consecutive chain indices, and the index of the partition within the key. */
  datatype Partition = Partition(index: int, indices: seq<nat>)

  function PartitionCount(chainCount: nat, specialCount: nat): nat
    requires specialCount >= 1
  {
    (chainCount + specialCount - 1) / specialCount
  }

  /** The partition of a chain, counted from the end: it does not depend on the level. */
  function FromEnd(chainCount: nat, specialCount: nat, chain: nat): nat
    requires specialCount >= 1 && chain < chainCount
  {
    (chainCount - 1 - chain) / specialCount
  }

  ghost predicate IsPartition(p: Partition, chainCount: nat, specialCount: nat, fromEnd: int)
    requires specialCount >= 1
  {
    && |p.indices| >= 1
    && (forall j :: 0 <= j < |p.indices| ==> p.indices[j] == p.indices[0] + j < chainCount)
    && forall i: nat :: i < chainCount ==> (i in p.indices <==> FromEnd(chainCount, specialCount, i) == fromEnd)
  }

  lemma Block(u: nat, specialCount: nat, r: nat, base: nat)
    requires specialCount >= 1 && base == r * specialCount
    ensures u / specialCount == r <==> base <= u < base + specialCount
  {
    assert u == (u / specialCount) * specialCount + u % specialCount;
    if base <= u < base + specialCount {
      DivModUnique(u, r, u - base, specialCount);
    }
  }

  lemma CountBounds(chainCount: nat, specialCount: nat)
    requires specialCount >= 1
    ensures var n := PartitionCount(chainCount, specialCount);
      n * specialCount >= chainCount && (n >= 1 ==> n * specialCount - specialCount < chainCount) && (n == 0 <==> chainCount == 0)
  {
    var a := chainCount + specialCount - 1;
    var n := a / specialCount;
    assert a == n * specialCount + a % specialCount;
    if n == 0 { assert n * specialCount == 0; }
    if chainCount == 0 { DivModUnique(a, 0, a, specialCount); }
  }

  lemma BlockIsPartition(p: Partition, chainCount: nat, specialCount: nat, r: nat, start: int)
    requires specialCount >= 1 && r * specialCount == chainCount - start - specialCount >= 0 && start + specialCount >= 1
    requires var first := if start > 0 then start else 0;
      |p.indices| == start + specialCount - first && forall j :: 0 <= j < |p.indices| ==> p.indices[j] == first + j
    ensures IsPartition(p, chainCount, specialCount, r)
  {
    var first := if start > 0 then start else 0;
    forall i: nat | i < chainCount ensures i in p.indices <==> FromEnd(chainCount, specialCount, i) == r {
      Block(chainCount - 1 - i, specialCount, r, r * specialCount);
      if first <= i < start + specialCount { assert p.indices[i - first] == i; }
    }
  }

  lemma NextBlock(r: nat, specialCount: nat)
    requires r >= 1
    ensures (r - 1) * specialCount == r * specialCount - specialCount
  {
  }

  /** The partitions of a ciphertext with respect to a key of the same or a higher level. */
  ghost predicate PartitionsOf(partitions: seq<Partition>, chainCount: nat, keyChainCount: nat, specialCount: nat)
    requires specialCount >= 1
  {
    && |partitions| == PartitionCount(chainCount, specialCount)
    && forall p :: 0 <= p < |partitions| ==>
      && partitions[p].index == PartitionCount(keyChainCount, specialCount) - |partitions| + p
      && IsPartition(partitions[p], chainCount, specialCount, |partitions| - 1 - p)
  }

  /** get_partitions: block p of a ciphertext is numbered as the key's blocks are, and holds exactly
      the chains at the same distance from the last chain. */
  method GetPartitions(chainCount: nat, keyChainCount: nat, specialCount: nat) returns (partitions: seq<Partition>)
    requires specialCount >= 1 && chainCount <= keyChainCount
    ensures PartitionsOf(partitions, chainCount, keyChainCount, specialCount)
    ensures |partitions| == (chainCount + specialCount - 1) / specialCount
    ensures forall p :: 0 <= p < |partitions| ==>
      && partitions[p].index == (keyChainCount + specialCount - 1) / specialCount - |partitions| + p
      && 1 <= |partitions[p].indices| <= specialCount
    ensures forall p, j :: 0 <= p < |partitions| && 0 <= j < |partitions[p].indices| ==> partitions[p].indices[j] == partitions[p].indices[0] + j
    ensures forall p, i: nat :: 0 <= p < |partitions| ==>
      (i in partitions[p].indices <==>
         chainCount - (|partitions| - p) * specialCount <= i < chainCount - (|partitions| - p - 1) * specialCount)
  {
    hide PartitionCount, IsPartition;
    var partitionCount := PartitionCount(chainCount, specialCount);
    var partitionIndex := PartitionCount(keyChainCount, specialCount) - partitionCount;
    CountBounds(chainCount, specialCount);
    var start := chainCount - partitionCount * specialCount;
    partitions := [];
    while start < chainCount
      invariant |partitions| <= partitionCount
      invariant partitionIndex == PartitionCount(keyChainCount, specialCount) - partitionCount + |partitions|
      invariant start == chainCount - (partitionCount - |partitions|) * specialCount
      invariant |partitions| == 0 ==> chainCount > 0 ==> start + specialCount >= 1
      invariant |partitions| > 0 ==> start + specialCount >= 1
      invariant forall p :: 0 <= p < |partitions| ==>
        && partitions[p].index == PartitionCount(keyChainCount, specialCount) - partitionCount + p
        && IsPartition(partitions[p], chainCount, specialCount, partitionCount - 1 - p)
      decreases chainCount - start
    {
      var stop := if chainCount < start + specialCount then chainCount else start + specialCount;
      var first := if start > 0 then start else 0;
      var indices: seq<nat> := [];
      if |partitions| == partitionCount { NoBlock(specialCount); }
      NextBlock(partitionCount - |partitions|, specialCount);
      NonNegative(partitionCount - |partitions| - 1, specialCount);
      for index: nat := first to stop
        invariant |indices| == index - first && forall j :: 0 <= j < |indices| ==> indices[j] == first + j
      {
        indices := indices + [index];
      }
      var partition := Partition(partitionIndex, indices);
      BlockIsPartition(partition, chainCount, specialCount, partitionCount - |partitions| - 1, start);
      partitions := partitions + [partition];
      start := start + specialCount;
      partitionIndex := partitionIndex + 1;
    }
    if |partitions| < partitionCount {
      NextBlock(partitionCount - |partitions|, specialCount);
      NonNegative(partitionCount - |partitions| - 1, specialCount);
    }
    CountIs(chainCount, specialCount);
    CountIs(keyChainCount, specialCount);
    Blocks(partitions, chainCount, keyChainCount, specialCount);
  }

  lemma CountIs(chainCount: nat, specialCount: nat)
    requires specialCount >= 1
    ensures PartitionCount(chainCount, specialCount) == (chainCount + specialCount - 1) / specialCount
  {
  }

  /** Block p, counted from the front: as many chains as there are special primes, cut at chain 0. */
  lemma Blocks(partitions: seq<Partition>, chainCount: nat, keyChainCount: nat, specialCount: nat)
    requires specialCount >= 1 && PartitionsOf(partitions, chainCount, keyChainCount, specialCount)
    ensures forall p :: 0 <= p < |partitions| ==> 1 <= |partitions[p].indices| <= specialCount
    ensures forall p, j :: 0 <= p < |partitions| && 0 <= j < |partitions[p].indices| ==> partitions[p].indices[j] == partitions[p].indices[0] + j
    ensures forall p, i: nat :: 0 <= p < |partitions| ==>
      (i in partitions[p].indices <==>
         chainCount - (|partitions| - p) * specialCount <= i < chainCount - (|partitions| - p - 1) * specialCount)
  {
    hide IsPartition, PartitionCount;
    forall p | 0 <= p < |partitions|
      ensures 1 <= |partitions[p].indices| <= specialCount
      ensures forall j :: 0 <= j < |partitions[p].indices| ==> partitions[p].indices[j] == partitions[p].indices[0] + j
      ensures forall i: nat :: i in partitions[p].indices <==>
        chainCount - (|partitions| - p) * specialCount <= i < chainCount - (|partitions| - p - 1) * specialCount
    {
      BlockOf(partitions[p], chainCount, specialCount, |partitions| - 1 - p);
      NextBlock(|partitions| - p, specialCount);
    }
  }

  lemma BlockOf(p: Partition, chainCount: nat, specialCount: nat, r: nat)
    requires specialCount >= 1 && IsPartition(p, chainCount, specialCount, r)
    ensures 1 <= |p.indices| <= specialCount && forall j :: 0 <= j < |p.indices| ==> p.indices[j] == p.indices[0] + j
    ensures forall i: nat :: i in p.indices <==> chainCount - r * specialCount - specialCount <= i < chainCount - r * specialCount
  {
    var base := r * specialCount;
    NonNegative(r, specialCount);
    forall i: nat ensures i in p.indices <==> chainCount - base - specialCount <= i < chainCount - base {
      if i < chainCount { Block(chainCount - 1 - i, specialCount, r, base); }
    }
    var last := |p.indices| - 1;
    assert p.indices[0] in p.indices && p.indices[last] in p.indices;
  }

  lemma NoBlock(specialCount: nat)
    ensures 0 * specialCount == 0
  {
  }

  lemma NonNegative(r: int, specialCount: nat)
    requires r >= 0
    ensures r * specialCount >= 0
  {
  }

  /** Below the key's level: chain i of the ciphertext is chain i + (difference of chain counts) of the
      key, and lies in the ciphertext's partition p exactly if that key chain lies in the key's
      partition with the index recorded in p. */
  lemma SameIndices(partitions: seq<Partition>, keyPartitions: seq<Partition>, chainCount: nat, keyChainCount: nat,
                    specialCount: nat, p: nat, i: nat)
    requires specialCount >= 1 && i < chainCount <= keyChainCount && p < |partitions|
    requires PartitionsOf(partitions, chainCount, keyChainCount, specialCount)
    requires PartitionsOf(keyPartitions, keyChainCount, keyChainCount, specialCount)
    ensures 0 <= partitions[p].index < |keyPartitions|
    ensures i in partitions[p].indices <==> i + (keyChainCount - chainCount) in keyPartitions[partitions[p].index].indices
  {
    CountMonotone(chainCount, keyChainCount, specialCount);
    hide PartitionCount;
    var index := partitions[p].index;
    assert IsPartition(partitions[p], chainCount, specialCount, |partitions| - 1 - p);
    assert IsPartition(keyPartitions[index], keyChainCount, specialCount, |keyPartitions| - 1 - index);
    assert FromEnd(chainCount, specialCount, i) == FromEnd(keyChainCount, specialCount, i + (keyChainCount - chainCount));
  }

  lemma CountMonotone(a: nat, b: nat, specialCount: nat)
    requires specialCount >= 1 && a <= b
    ensures PartitionCount(a, specialCount) <= PartitionCount(b, specialCount)
  {
    var m, n := PartitionCount(a, specialCount), PartitionCount(b, specialCount);
    CountBounds(a, specialCount);
    CountBounds(b, specialCount);
    hide PartitionCount;
    if m > n { AtLeastTimes(m - 1, n, specialCount); NextBlock(m, specialCount); }
  }

  /** Every chain has exactly one owner among the partitions. */
  lemma Owner(partitions: seq<Partition>, chainCount: nat, keyChainCount: nat, specialCount: nat, chain: nat) returns (owner: nat)
    requires specialCount >= 1 && chain < chainCount && PartitionsOf(partitions, chainCount, keyChainCount, specialCount)
    ensures owner < |partitions|
    ensures forall p :: 0 <= p < |partitions| ==> (chain in partitions[p].indices <==> p == owner)
  {
    var n := PartitionCount(chainCount, specialCount);
    CountBounds(chainCount, specialCount);
    var u := chainCount - 1 - chain;
    hide PartitionCount;
    OwnerBound(u, specialCount, n);
    owner := n - 1 - u / specialCount;
    forall p | 0 <= p < |partitions| ensures chain in partitions[p].indices <==> p == owner {
      assert IsPartition(partitions[p], chainCount, specialCount, |partitions| - 1 - p);
      assert FromEnd(chainCount, specialCount, chain) == u / specialCount;
    }
  }

  lemma OwnerBound(u: nat, specialCount: nat, n: nat)
    requires specialCount >= 1 && u < n * specialCount
    ensures u / specialCount < n
  {
    var d := u / specialCount;
    if d >= n {
      AtLeastTimes(d, n, specialCount);
    }
  }

  lemma AtLeastTimes(d: nat, n: nat, s: nat)
    requires d >= n
    ensures d * s >= n * s
  {
  }
}
