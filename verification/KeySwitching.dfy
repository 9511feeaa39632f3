/** The gadget product (src/ckks/core_key_switch.cpp) with keys made by src/ckks/core_key.cpp, one
    modulus and one transform slot at a time: no kernel between mod_up and mod_down mixes either. */
module KeySwitching {
  import opened Congruence
  import opened Montgomery
  import opened Kernels
  import opened ResidueBase
  import opened BaseExtension
  import opened Polynomial
  import opened Tables
  import NttReference
  import NttTheory
  import opened Partitions

  // ---------- key generation ----------

  /** The word of b for one partition: error - a * s, plus P * s_from on the partition's own chains. */
  function KeyWord(a: int, s: int, e: int, from: int, owned: bool, m: Modulus): int {
    var product := Scalar(MontMult, a, s, 0, m.q, m.k);
    var masked := Scalar(SubReduce, e, product, product, m.q, m.k);
    if owned then Scalar(AddReduce, from, masked, masked, m.q, m.k) else masked
  }

  lemma KeyWordMeaning(a: int, s: int, e: int, from: int, owned: bool, m: Modulus)
    requires MontModulus(m.q, m.k) && 0 <= a < 2 * m.q && 0 <= s < 2 * m.q && 0 <= e < 2 * m.q && 0 <= from < 2 * m.q
    ensures var b := KeyWord(a, s, e, from, owned, m);
      0 <= b < m.q && Cong(b * R + a * s, (e + (if owned then from else 0)) * R, m.q)
  {
    hide Cong, MontMultScalar, SubGuard, AddGuard, Guard;
    var product := MontMultScalar(a, s, m.q, m.k);
    MontLazy(a, s, m.q, m.k);
    SubGuardOnce(e, product, m.q);
    GuardOnce(SubGuard(e, product, 2 * m.q), m.q);
    var masked := Guard(SubGuard(e, product, 2 * m.q), m.q);
    Trans(masked, SubGuard(e, product, 2 * m.q), e - product, m.q);
    if owned {
      AddGuardOnce(from, masked, m.q);
      GuardOnce(AddGuard(from, masked, 2 * m.q), m.q);
      var b := Guard(AddGuard(from, masked, 2 * m.q), m.q);
      Trans(b, AddGuard(from, masked, 2 * m.q), from + masked, m.q);
      Refl(from, m.q);
      Add(from, from, masked, e - product, m.q);
      Trans(b, from + masked, e + from - product, m.q);
      KeyAlgebra(b, e + from, product, a, s, m.q);
    } else {
      KeyAlgebra(masked, e, product, a, s, m.q);
    }
  }

  lemma Spread(a: int, b: int, c: int)
    ensures (a + b) * c == a * c + b * c
  {
  }

  lemma KeyAlgebra(b: int, e: int, product: int, a: int, s: int, q: int)
    requires Cong(b, e - product, q) && Cong(product * R, a * s, q)
    ensures Cong(b * R + a * s, e * R, q)
  {
    hide *;
    MulRight(b, e - product, R, q);
    Sym(product * R, a * s, q);
    Add(b * R, (e - product) * R, a * s, product * R, q);
    Spread(e - product, product, R);
  }

  /** One row of create_key_switching_key. */
  method KeyRow(a: array<int>, s: array<int>, e: array<int>, from: array<int>, b: array<int>, owned: bool, m: Modulus)
    requires a.Length == s.Length == e.Length == from.Length == b.Length
    requires b != a && b != s && b != e && b != from
    modifies b
    ensures forall t :: 0 <= t < b.Length ==> b[t] == KeyWord(a[t], s[t], e[t], from[t], owned, m)
  {
    hide MontMultScalar;
    Run(MontMult, a, s, b, m.q, m.k);
    Run(SubReduce, e, b, b, m.q, m.k);
    if owned {
      Run(AddReduce, from, b, b, m.q, m.k);
    }
  }

  // ---------- the gadget product ----------

  /** The accumulator after n partitions. */
  function Accumulated(ext: seq<int>, key: seq<int>, n: nat, m: Modulus): int
    requires 1 <= n <= |ext| && n <= |key|
  {
    if n == 1 then Scalar(MontMult, ext[0], key[0], 0, m.q, m.k)
    else
      var sum := Scalar(MultAdd, ext[n - 1], key[n - 1], Accumulated(ext, key, n - 1, m), m.q, m.k);
      Scalar(Reduce, sum, sum, sum, m.q, m.k)
  }

  function Dot(u: seq<int>, v: seq<int>, n: nat): int
    requires n <= |u| && n <= |v|
  {
    if n == 0 then 0 else Dot(u, v, n - 1) + u[n - 1] * v[n - 1]
  }

  lemma DotStep(u: seq<int>, v: seq<int>, n: nat)
    requires n < |u| && n < |v|
    ensures Dot(u, v, n + 1) == Dot(u, v, n) + u[n] * v[n] && Dot(u, v, 0) == 0
  {
  }

  ghost predicate Lazy(s: seq<int>, q: int) {
    forall i :: 0 <= i < |s| ==> 0 <= s[i] < 2 * q
  }

  lemma {:induction false} AccumulatedMeaning(ext: seq<int>, key: seq<int>, n: nat, m: Modulus)
    requires MontModulus(m.q, m.k) && 1 <= n <= |ext| && n <= |key| && Lazy(ext, m.q) && Lazy(key, m.q)
    ensures 0 <= Accumulated(ext, key, n, m) < 2 * m.q
    ensures Cong(Accumulated(ext, key, n, m) * R, Dot(ext, key, n), m.q)
  {
    hide Cong, MontMultScalar, AddGuard, Guard, Dot;
    MontLazy(ext[n - 1], key[n - 1], m.q, m.k);
    DotStep(ext, key, n - 1);
    if n > 1 {
      AccumulatedMeaning(ext, key, n - 1, m);
      var before := Accumulated(ext, key, n - 1, m);
      var product := MontMultScalar(ext[n - 1], key[n - 1], m.q, m.k);
      AddGuardOnce(product, before, m.q);
      var sum := AddGuard(product, before, 2 * m.q);
      GuardOnce(sum, m.q);
      Trans(Guard(sum, m.q), sum, product + before, m.q);
      SumAlgebra(Guard(sum, m.q), product, before, ext[n - 1] * key[n - 1], Dot(ext, key, n - 1), R, m.q);
    }
  }

  lemma SumAlgebra(sum: int, product: int, before: int, term: int, dot: int, r: int, q: int)
    requires Cong(sum, product + before, q) && Cong(product * r, term, q) && Cong(before * r, dot, q)
    ensures Cong(sum * r, dot + term, q)
  {
    hide *;
    MulRight(sum, product + before, r, q);
    Add(before * r, dot, product * r, term, q);
    Spread(product, before, r);
    Trans(sum * r, before * r + product * r, dot + term, q);
  }

  /** One row of x0 or x1 in create_key_switcher: all partitions in turn. */
  method SwitchRow(ext: seq<array<int>>, key: seq<array<int>>, x: array<int>, m: Modulus)
    requires |ext| == |key| >= 1
    requires forall i :: 0 <= i < |ext| ==> ext[i].Length == x.Length && key[i].Length == x.Length && ext[i] != x && key[i] != x
    modifies x
    ensures Contents(ext) == old(Contents(ext)) && Contents(key) == old(Contents(key))
    ensures forall t :: 0 <= t < x.Length ==> x[t] == Accumulated(Column(Contents(ext), t), Column(Contents(key), t), |ext|, m)
  {
    hide Scalar, Contents, Column;
    ghost var exts, keys := Contents(ext), Contents(key);
    Run(MontMult, ext[0], key[0], x, m.q, m.k);
    forall t | 0 <= t < x.Length ensures x[t] == Accumulated(Column(exts, t), Column(keys, t), 1, m) {
      MontMultIgnores(exts[0][t], keys[0][t], old(x[t]), m);
    }
    for p := 1 to |ext|
      invariant Contents(ext) == exts && Contents(key) == keys
      invariant forall t :: 0 <= t < x.Length ==> x[t] == Accumulated(Column(exts, t), Column(keys, t), p, m)
    {
      Run(MultAdd, ext[p], key[p], x, m.q, m.k);
      Run(Reduce, x, x, x, m.q, m.k);
    }
  }

  lemma MontMultIgnores(x1: int, x2: int, y: int, m: Modulus)
    ensures Scalar(MontMult, x1, x2, y, m.q, m.k) == Scalar(MontMult, x1, x2, 0, m.q, m.k)
  {
  }

  // ---------- the identity ----------

  /** What key generation leaves for one modulus: every pair (b, a) hides the error, and the owner's
      pair the secret that is switched away from. */
  ghost predicate KeyPairs(a: seq<int>, b: seq<int>, e: seq<int>, s: int, from: int, owner: int, q: int) {
    && |a| == |b| == |e| && q > 0
    && forall i :: 0 <= i < |a| ==> KeyPair(a[i], b[i], e[i] + (if i == owner then from else 0), s, q)
  }

  ghost predicate KeyPair(a: int, b: int, hidden: int, s: int, q: int) {
    Cong(b * R + a * s, hidden * R, q)
  }

  /** A key made at one level and used at the same or a lower one: on chain i of the ciphertext, the
      pairs that the ciphertext's partitions select hide the errors, and the owner of chain i the
      secret. The key holds one pair per key partition, made for its own chain i + (key chains -
      chains). */
  lemma KeyPairsBelowLevel(partitions: seq<Partition>, keyPartitions: seq<Partition>, chainCount: nat, keyChainCount: nat,
                           specialCount: nat, i: nat, a: seq<int>, b: seq<int>, e: seq<int>, s: int, from: int, m: Modulus)
    returns (owner: nat)
    requires MontModulus(m.q, m.k) && specialCount >= 1 && i < chainCount <= keyChainCount
    requires PartitionsOf(partitions, chainCount, keyChainCount, specialCount)
    requires PartitionsOf(keyPartitions, keyChainCount, keyChainCount, specialCount)
    requires |a| == |b| == |e| == |keyPartitions| && Lazy(a, m.q) && Lazy(e, m.q) && 0 <= s < 2 * m.q && 0 <= from < 2 * m.q
    requires forall k :: 0 <= k < |b| ==>
      b[k] == KeyWord(a[k], s, e[k], from, i + (keyChainCount - chainCount) in keyPartitions[k].indices, m)
    ensures owner < |partitions| && i in partitions[owner].indices
    ensures forall p :: 0 <= p < |partitions| ==> 0 <= partitions[p].index < |b|
    ensures var a', b', e' := Selected(partitions, a), Selected(partitions, b), Selected(partitions, e);
      Lazy(a', m.q) && Lazy(b', m.q) && KeyPairs(a', b', e', s, from, owner, m.q)
  {
    hide Cong, KeyWord, PartitionsOf;
    owner := Owner(partitions, chainCount, keyChainCount, specialCount, i);
    forall p | 0 <= p < |partitions|
      ensures 0 <= partitions[p].index < |b|
      ensures var k := partitions[p].index; 0 <= b[k] < 2 * m.q && KeyPair(a[k], b[k], e[k] + (if p == owner then from else 0), s, m.q)
    {
      SameIndices(partitions, keyPartitions, chainCount, keyChainCount, specialCount, p, i);
      var k := partitions[p].index;
      KeyWordMeaning(a[k], s, e[k], from, p == owner, m);
    }
  }

  /** For a special prime no partition owns anything: all pairs hide their errors only. */
  lemma KeyPairsAtSpecial(partitions: seq<Partition>, a: seq<int>, b: seq<int>, e: seq<int>, s: int, from: int, m: Modulus)
    requires MontModulus(m.q, m.k) && |a| == |b| == |e| && Lazy(a, m.q) && Lazy(e, m.q) && 0 <= s < 2 * m.q && 0 <= from < 2 * m.q
    requires forall p :: 0 <= p < |partitions| ==> 0 <= partitions[p].index < |b|
    requires forall k :: 0 <= k < |b| ==> b[k] == KeyWord(a[k], s, e[k], from, false, m)
    ensures var a', b', e' := Selected(partitions, a), Selected(partitions, b), Selected(partitions, e);
      Lazy(a', m.q) && Lazy(b', m.q) && KeyPairs(a', b', e', s, from, -1, m.q)
  {
    hide Cong, KeyWord;
    forall p | 0 <= p < |partitions|
      ensures var k := partitions[p].index; 0 <= b[k] < 2 * m.q && KeyPair(a[k], b[k], e[k] + 0, s, m.q)
    {
      var k := partitions[p].index;
      KeyWordMeaning(a[k], s, e[k], from, false, m);
    }
  }

  /** get_key_index: the pairs of a ciphertext's partitions. */
  ghost function Selected(partitions: seq<Partition>, rows: seq<int>): (s: seq<int>)
    requires forall p :: 0 <= p < |partitions| ==> 0 <= partitions[p].index < |rows|
    ensures |s| == |partitions|
  {
    seq(|partitions|, p requires 0 <= p < |partitions| => rows[partitions[p].index])
  }

  /** The part of the owner in the sum of the first n terms. */
  ghost function OwnerTerm(ext: seq<int>, from: int, owner: int, n: nat): int
    requires n <= |ext|
  {
    if 0 <= owner < n then ext[owner] * from else 0
  }

  lemma {:induction false} GadgetSum(ext: seq<int>, a: seq<int>, b: seq<int>, e: seq<int>, s: int, from: int, owner: int, n: nat, q: int)
    requires KeyPairs(a, b, e, s, from, owner, q) && n <= |a| == |ext|
    ensures |a| == |b| == |e|
    ensures KeyPair(Dot(ext, a, n), Dot(ext, b, n), Dot(ext, e, n) + OwnerTerm(ext, from, owner, n), s, q)
  {
    hide *;
    GadgetStart(ext, a, b, e, s, from, owner, q);
    if n > 0 {
      GadgetSum(ext, a, b, e, s, from, owner, n - 1, q);
      KeyPairAt(a, b, e, s, from, owner, q, n - 1);
      OwnerStep(ext, from, owner, n - 1);
      DotStep(ext, b, n - 1);
      DotStep(ext, a, n - 1);
      DotStep(ext, e, n - 1);
      GadgetStep(ext[n - 1], a[n - 1], b[n - 1], e[n - 1], if n - 1 == owner then from else 0, s,
                 Dot(ext, b, n - 1), Dot(ext, a, n - 1), Dot(ext, e, n - 1), OwnerTerm(ext, from, owner, n - 1), q);
    }
  }

  lemma GadgetStart(ext: seq<int>, a: seq<int>, b: seq<int>, e: seq<int>, s: int, from: int, owner: int, q: int)
    requires KeyPairs(a, b, e, s, from, owner, q) && |a| == |ext|
    ensures |a| == |b| == |e|
    ensures KeyPair(Dot(ext, a, 0), Dot(ext, b, 0), Dot(ext, e, 0) + OwnerTerm(ext, from, owner, 0), s, q)
  {
    Refl(0, q);
    hide Cong;
    assert 0 * R + 0 * s == 0 && 0 * R == 0;
  }

  lemma KeyPairAt(a: seq<int>, b: seq<int>, e: seq<int>, s: int, from: int, owner: int, q: int, i: nat)
    requires KeyPairs(a, b, e, s, from, owner, q) && i < |a|
    ensures |a| == |b| == |e| && KeyPair(a[i], b[i], e[i] + (if i == owner then from else 0), s, q)
  {
    hide KeyPair;
  }

  lemma OwnerStep(ext: seq<int>, from: int, owner: int, n: nat)
    requires n < |ext|
    ensures OwnerTerm(ext, from, owner, n + 1) == OwnerTerm(ext, from, owner, n) + ext[n] * (if n == owner then from else 0)
  {
  }

  lemma GadgetStep(x: int, a: int, b: int, e: int, term: int, s: int, db: int, da: int, de: int, o: int, q: int)
    requires KeyPair(da, db, de + o, s, q) && KeyPair(a, b, e + term, s, q)
    ensures KeyPair(da + x * a, db + x * b, (de + x * e) + (o + x * term), s, q)
  {
    hide Cong;
    GadgetAlgebra(x, a, b, e, term, s, db, da, de, o, R, q);
  }

  lemma GadgetAlgebra(x: int, a: int, b: int, e: int, term: int, s: int, db: int, da: int, de: int, o: int, r: int, q: int)
    requires Cong(db * r + da * s, (de + o) * r, q) && Cong(b * r + a * s, (e + term) * r, q)
    ensures Cong((db + x * b) * r + (da + x * a) * s, ((de + x * e) + (o + x * term)) * r, q)
  {
    hide *;
    var left, right := b * r + a * s, (e + term) * r;
    Scale(x, left, right, q);
    Add(db * r + da * s, (de + o) * r, x * left, x * right, q);
    LeftStep(db, da, x, b, a, r, s);
    RightStep(de, o, x, e, term, r);
  }

  lemma LeftStep(db: int, da: int, x: int, b: int, a: int, r: int, s: int)
    ensures (db + x * b) * r + (da + x * a) * s == (db * r + da * s) + x * (b * r + a * s)
  {
    Regroup(db, x, b, r);
    Regroup(da, x, a, s);
    Factor2(x, b, r, a, s);
  }

  lemma RightStep(de: int, o: int, x: int, e: int, term: int, r: int)
    ensures ((de + x * e) + (o + x * term)) * r == (de + o) * r + x * ((e + term) * r)
  {
    Pull(x, e, term);
    Regroup(de + o, x, e + term, r);
  }

  lemma Regroup(d: int, x: int, b: int, r: int)
    ensures (d + x * b) * r == d * r + x * (b * r)
  {
  }

  lemma Factor2(x: int, b: int, r: int, a: int, s: int)
    ensures x * (b * r + a * s) == x * (b * r) + x * (a * s)
  {
  }

  lemma Pull(x: int, a: int, b: int)
    ensures x * (a + b) == x * a + x * b
  {
  }

  /** Words that stand, in the Montgomery domain, for values. */
  ghost predicate Stand(words: seq<int>, values: seq<int>, q: int) {
    |words| == |values| && forall i :: 0 <= i < |words| ==> Cong(words[i], values[i] * R, q)
  }

  lemma {:induction false} DotStands(u: seq<int>, v: seq<int>, x: seq<int>, y: seq<int>, n: nat, q: int)
    requires q > 0 && Stand(u, x, q) && Stand(v, y, q) && n <= |u| && n <= |v|
    ensures Cong(Dot(u, v, n), Dot(x, y, n) * (R * R), q)
  {
    if n == 0 {
      Refl(0, q);
    } else {
      DotStands(u, v, x, y, n - 1, q);
      hide Cong, Dot;
      DotStep(u, v, n - 1);
      DotStep(x, y, n - 1);
      Mul(u[n - 1], x[n - 1] * R, v[n - 1], y[n - 1] * R, q);
      Exchange(x[n - 1], R, y[n - 1], R);
      Add(Dot(u, v, n - 1), Dot(x, y, n - 1) * (R * R), u[n - 1] * v[n - 1], (x[n - 1] * y[n - 1]) * (R * R), q);
      Spread(Dot(x, y, n - 1), x[n - 1] * y[n - 1], R * R);
    }
  }

  /** Before mod_down, at every slot and for every modulus of the extended base: with D the lifted
      digits, E the errors, S the new secret, F the old one and P the product of the special primes,
      X0 + X1 * S = P * x * F + sum of D_i * E_i. A chain is owned by the partition whose digit has
      its residue x; a special prime has no owner and divides P. */
  lemma SwitchingIdentity(ext: seq<int>, a: seq<int>, b: seq<int>, e: seq<int>, s: int, from: int, owner: int, m: Modulus,
                          dValues: seq<int>, eValues: seq<int>, sValue: int, p: int, f: int, x: int, x0: int, x1: int)
    requires MontModulus(m.q, m.k) && |ext| == |a| >= 1 && Lazy(ext, m.q) && Lazy(a, m.q) && Lazy(b, m.q)
    requires KeyPairs(a, b, e, s, from, owner, m.q)
    requires Stand(ext, dValues, m.q) && Stand(e, eValues, m.q) && Cong(s, sValue * R, m.q) && Cong(from, (p * f) * R, m.q)
    requires if 0 <= owner < |ext| then Cong(dValues[owner], x, m.q) else Cong(p, 0, m.q)
    requires Cong(Accumulated(ext, b, |ext|, m), x0 * R, m.q) && Cong(Accumulated(ext, a, |ext|, m), x1 * R, m.q)
    ensures Cong(x0 + x1 * sValue, Dot(dValues, eValues, |ext|) + (p * x) * f, m.q)
  {
    hide Cong, Accumulated, Dot, OwnerTerm, KeyPairs, Lazy, Stand, MontModulus;
    var n, q := |ext|, m.q;
    Lengths(ext, dValues, e, eValues, a, b, s, from, owner, q);
    AccumulatedMeaning(ext, b, n, m);
    AccumulatedMeaning(ext, a, n, m);
    GadgetSum(ext, a, b, e, s, from, owner, n, q);
    DotStands(ext, e, dValues, eValues, n, q);
    OwnerStands(ext, dValues, from, owner, p, f, x, q);
    var j := RadixInverse(q, m.k);
    KeyPairIs(Dot(ext, a, n), Dot(ext, b, n), Dot(ext, e, n) + OwnerTerm(ext, from, owner, n), s, q);
    hide *;
    FinalAlgebra(Accumulated(ext, b, n, m), Accumulated(ext, a, n, m), Dot(ext, b, n), Dot(ext, a, n), Dot(ext, e, n),
                 OwnerTerm(ext, from, owner, n), s, x0, x1, sValue, Dot(dValues, eValues, n), (p * x) * f, j, q);
  }

  lemma KeyPairIs(a: int, b: int, hidden: int, s: int, q: int)
    requires KeyPair(a, b, hidden, s, q)
    ensures Cong(b * R + a * s, hidden * R, q)
  {
  }

  lemma Lengths(ext: seq<int>, dValues: seq<int>, e: seq<int>, eValues: seq<int>, a: seq<int>, b: seq<int>, s: int, from: int, owner: int, q: int)
    requires Stand(ext, dValues, q) && Stand(e, eValues, q) && KeyPairs(a, b, e, s, from, owner, q)
    ensures |ext| == |dValues| && |e| == |eValues| && |a| == |b| == |e| && q > 0
  {
    hide Cong;
  }

  lemma OwnerStands(ext: seq<int>, dValues: seq<int>, from: int, owner: int, p: int, f: int, x: int, q: int)
    requires q > 0 && Stand(ext, dValues, q) && Cong(from, (p * f) * R, q)
    requires if 0 <= owner < |ext| then Cong(dValues[owner], x, q) else Cong(p, 0, q)
    ensures Cong(OwnerTerm(ext, from, owner, |ext|), ((p * x) * f) * (R * R), q)
  {
    hide Cong;
    if 0 <= owner < |ext| {
      hide *;
      var d := dValues[owner];
      StandAt(ext, dValues, q, owner);
      OwnerTermAt(ext, from, owner);
      Mul(ext[owner], d * R, from, (p * f) * R, q);
      Exchange(d, R, p * f, R);
      MulRight(d, x, p * f, q);
      MulRight(d * (p * f), x * (p * f), R * R, q);
      Rearrange(x, p, f);
      Trans(ext[owner] * from, (d * (p * f)) * (R * R), ((p * x) * f) * (R * R), q);
    } else {
      MulRight(p, 0, (x * f) * (R * R), q);
      Sym(p * ((x * f) * (R * R)), 0, q);
      Unrolled(p, x, f, R * R);
    }
  }

  lemma StandAt(words: seq<int>, values: seq<int>, q: int, i: nat)
    requires Stand(words, values, q) && i < |words|
    ensures |words| == |values| && Cong(words[i], values[i] * R, q)
  {
  }

  lemma OwnerTermAt(ext: seq<int>, from: int, owner: int)
    requires 0 <= owner < |ext|
    ensures OwnerTerm(ext, from, owner, |ext|) == ext[owner] * from
  {
  }

  lemma Rearrange(x: int, p: int, f: int)
    ensures x * (p * f) == (p * x) * f
  {
  }

  lemma Unrolled(p: int, x: int, f: int, r: int)
    ensures p * ((x * f) * r) == ((p * x) * f) * r
  {
    assert (p * x) * f == p * (x * f);
  }

  lemma FinalAlgebra(w0: int, w1: int, db: int, da: int, de: int, o: int, s: int, x0: int, x1: int, sValue: int, dot: int, owned: int, j: int, q: int)
    requires Cong(w0 * R, db, q) && Cong(w1 * R, da, q) && Cong(db * R + da * s, (de + o) * R, q)
    requires Cong(w0, x0 * R, q) && Cong(w1, x1 * R, q) && Cong(s, sValue * R, q)
    requires Cong(de, dot * (R * R), q) && Cong(o, owned * (R * R), q) && Cong(R * j, 1, q)
    ensures Cong(x0 + x1 * sValue, dot + owned, q)
  {
    hide *;
    // left: db * R + da * s = (x0 + x1 * sValue) * R^3
    LeftSide(w0, db, x0, q);
    LeftSide(w1, da, x1, q);
    MulRight(db, x0 * (R * R), R, q);
    Mul(da, x1 * (R * R), s, sValue * R, q);
    Add(db * R, (x0 * (R * R)) * R, da * s, (x1 * (R * R)) * (sValue * R), q);
    CubeLeft(x0, x1, sValue, R);
    // right: (de + o) * R = (dot + owned) * R^3
    Add(de, dot * (R * R), o, owned * (R * R), q);
    MulRight(de + o, dot * (R * R) + owned * (R * R), R, q);
    CubeRight(dot, owned, R);
    Sym(db * R + da * s, ((R * R) * R) * (x0 + x1 * sValue), q);
    Trans(((R * R) * R) * (x0 + x1 * sValue), db * R + da * s, (de + o) * R, q);
    Trans(((R * R) * R) * (x0 + x1 * sValue), (de + o) * R, ((R * R) * R) * (dot + owned), q);
    CancelCube(R, j, x0 + x1 * sValue, dot + owned, q);
  }

  lemma LeftSide(w: int, d: int, x: int, q: int)
    requires Cong(w * R, d, q) && Cong(w, x * R, q)
    ensures Cong(d, x * (R * R), q)
  {
    hide *;
    MulRight(w, x * R, R, q);
    Sym(w * R, d, q);
    Trans(d, w * R, (x * R) * R, q);
    Associate(x, R, R);
  }

  lemma CubeLeft(x0: int, x1: int, s: int, r: int)
    ensures (x0 * (r * r)) * r + (x1 * (r * r)) * (s * r) == ((r * r) * r) * (x0 + x1 * s)
  {
    var c := r * r;
    assert (x1 * c) * (s * r) == (c * r) * (x1 * s) by { Exchange(x1, c, s, r); }
    assert (x0 * c) * r == (c * r) * x0;
    Pull(c * r, x0, x1 * s);
  }

  lemma CubeRight(a: int, b: int, r: int)
    ensures (a * (r * r) + b * (r * r)) * r == ((r * r) * r) * (a + b)
  {
    var c := r * r;
    Spread(a, b, c);
    assert ((a + b) * c) * r == (c * r) * (a + b);
  }

  lemma CancelCube(r: int, j: int, a: int, b: int, q: int)
    requires Cong(r * j, 1, q) && Cong(((r * r) * r) * a, ((r * r) * r) * b, q)
    ensures Cong(a, b, q)
  {
    hide *;
    CubeApart(r, a);
    CubeApart(r, b);
    Cancel(r, j, r * (r * a), r * (r * b), q);
    Cancel(r, j, r * a, r * b, q);
    Cancel(r, j, a, b, q);
  }

  lemma CubeApart(r: int, a: int)
    ensures ((r * r) * r) * a == r * (r * (r * a))
  {
    assert (r * r) * r == r * (r * r);
    assert (r * (r * r)) * a == r * ((r * r) * a);
  }

  // ---------- every slot ----------

  /** Extended rows, before the transform of mod_up: words for the integers that base extension found. */
  ghost predicate LiftedRows(words: seq<seq<int>>, values: seq<seq<int>>, n: nat, q: int) {
    && |words| == |values|
    && forall p :: 0 <= p < |words| ==> LiftedWords(words[p], values[p], n, q)
  }

  ghost predicate LiftedWords(words: seq<int>, values: seq<int>, n: nat, q: int) {
    |words| == |values| == n && forall c :: 0 <= c < n ==> Pending(words[c], values[c] * R, q)
  }

  ghost function Slot(t: Derived, words: seq<seq<int>>, j: nat): (slot: seq<int>)
    requires forall p :: 0 <= p < |words| ==> j < |words[p]| == Pow2(t.e)
    ensures |slot| == |words|
  {
    seq(|words|, p requires 0 <= p < |words| => NttReference.Tree(words[p], t.e, 1, t.root, t.q, t.k)[j])
  }

  ghost function Values(values: seq<seq<int>>, z: int): (v: seq<int>)
    ensures |v| == |values|
  {
    seq(|values|, p requires 0 <= p < |values| => Eval(values[p], z))
  }

  lemma SlotWord(t: Derived, psi: int, psiInverse: int, words: seq<int>, values: seq<int>, j: nat)
    requires Valid(t, psi, psiInverse) && LiftedWords(words, values, Pow2(t.e), t.q) && j < Pow2(t.e)
    ensures var word := NttReference.Tree(words, t.e, 1, t.root, t.q, t.k)[j];
      0 <= word < 2 * t.q && Cong(word, Eval(values, NttTheory.Point(psi, t.e, j)) * R, t.q)
  {
    hide Cong, NttReference.Tree, NttTheory.Point, Eval, Valid, Pow2;
    ValidModulus(t, psi, psiInverse);
    var z := NttTheory.Point(psi, t.e, j);
    forall c | 0 <= c < |words| ensures Cong(words[c], R * values[c], t.q) {
      assert Pending(words[c], values[c] * R, t.q);
    }
    NttTheory.Evaluation(t, psi, psiInverse, words, j);
    EvalScaled(words, R, values, z, t.q);
    Trans(NttReference.Tree(words, t.e, 1, t.root, t.q, t.k)[j], Eval(words, z), R * Eval(values, z), t.q);
  }

  lemma LiftedShape(words: seq<seq<int>>, values: seq<seq<int>>, n: nat, q: int, p: nat)
    requires LiftedRows(words, values, n, q) && p < |words|
    ensures |words| == |values| && |words[p]| == n && LiftedWords(words[p], values[p], n, q)
  {
    hide Pending;
  }

  lemma SlotsStand(t: Derived, psi: int, psiInverse: int, words: seq<seq<int>>, values: seq<seq<int>>, j: nat)
    requires Valid(t, psi, psiInverse) && LiftedRows(words, values, Pow2(t.e), t.q) && j < Pow2(t.e)
    ensures forall p :: 0 <= p < |words| ==> j < |words[p]| == Pow2(t.e)
    ensures Lazy(Slot(t, words, j), t.q) && Stand(Slot(t, words, j), Values(values, NttTheory.Point(psi, t.e, j)), t.q)
  {
    hide Cong, NttReference.Tree, NttTheory.Point, Eval, Valid, Pow2, LiftedRows, LiftedWords;
    forall p | 0 <= p < |words| ensures |words| == |values| && j < |words[p]| == Pow2(t.e) {
      LiftedShape(words, values, Pow2(t.e), t.q, p);
    }
    SameLength(words, values, Pow2(t.e), t.q);
    var z := NttTheory.Point(psi, t.e, j);
    forall p | 0 <= p < |words|
      ensures var word := Slot(t, words, j)[p]; 0 <= word < 2 * t.q && Cong(word, Values(values, z)[p] * R, t.q)
    {
      LiftedShape(words, values, Pow2(t.e), t.q, p);
      SlotWord(t, psi, psiInverse, words[p], values[p], j);
    }
  }

  lemma SameLength(words: seq<seq<int>>, values: seq<seq<int>>, n: nat, q: int)
    requires LiftedRows(words, values, n, q)
    ensures |words| == |values|
  {
  }

  lemma {:induction false} EvalResidues(v: seq<int>, x: seq<int>, z: int, q: int)
    requires q > 0 && |v| == |x| && forall c :: 0 <= c < |v| ==> Cong(v[c], x[c], q)
    ensures Cong(Eval(v, z), Eval(x, z), q)
  {
    EvalScaled(v, 1, x, z, q);
  }

  /** The key switching identity at slot j. For a chain, `owner` is its partition and x its residues,
      which the lifted integers of that partition share; for a special prime there is no owner. */
  lemma KeySwitchingIdentity(t: Derived, psi: int, psiInverse: int, words: seq<seq<int>>, values: seq<seq<int>>, x: seq<int>,
                             owner: int, a: seq<int>, b: seq<int>, e: seq<int>, s: int, from: int,
                             eValues: seq<int>, sValue: int, p: int, f: int, x0: int, x1: int, j: nat)
    requires Valid(t, psi, psiInverse) && LiftedRows(words, values, Pow2(t.e), t.q) && j < Pow2(t.e)
    requires |words| == |a| >= 1 && Lazy(a, t.q) && Lazy(b, t.q) && KeyPairs(a, b, e, s, from, owner, t.q)
    requires Stand(e, eValues, t.q) && Cong(s, sValue * R, t.q) && Cong(from, (p * f) * R, t.q)
    requires if 0 <= owner < |words| then
        |x| == |values[owner]| && forall c :: 0 <= c < |x| ==> Cong(values[owner][c], x[c], t.q)
      else Cong(p, 0, t.q)
    requires forall i :: 0 <= i < |words| ==> j < |words[i]| == Pow2(t.e)
    requires var ext, m := Slot(t, words, j), Modulus(t.q, t.k);
      Cong(Accumulated(ext, b, |ext|, m), x0 * R, t.q) && Cong(Accumulated(ext, a, |ext|, m), x1 * R, t.q)
    ensures var z := NttTheory.Point(psi, t.e, j);
      Cong(x0 + x1 * sValue, Dot(Values(values, z), eValues, |words|) + (p * Eval(x, z)) * f, t.q)
  {
    hide Cong, NttReference.Tree, NttTheory.Point, Eval, Valid, Pow2, LiftedRows, Lazy, Stand, KeyPairs, Accumulated, Dot, Slot;
    ValidModulus(t, psi, psiInverse);
    var z := NttTheory.Point(psi, t.e, j);
    SlotsStand(t, psi, psiInverse, words, values, j);
    SameLength(words, values, Pow2(t.e), t.q);
    if 0 <= owner < |words| { EvalResidues(values[owner], x, z, t.q); }
    SwitchingIdentity(Slot(t, words, j), a, b, e, s, from, owner, Modulus(t.q, t.k), Values(values, z), eValues, sValue,
                      p, f, Eval(x, z), x0, x1);
  }
}
