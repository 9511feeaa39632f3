/** create_key_switcher as a whole (src/ckks/core_key_switch.cpp:292-367): with keys made by create_key_switching_key. */
module SwitchedKeys {
  import opened Congruence
  import opened Montgomery
  import opened Arithmetic
  import opened Kernels
  import opened ResidueBase
  import opened BaseExtension
  import opened Polynomial
  import opened Tables
  import opened Partitions
  import opened KeySwitching
  import opened SwitchedRows
  import opened SwitchedDivision
  import NttTheory
  import Interpolation
  import Transform
  import ModDown

  /** The level of a ciphertext, chains before special primes, and the partitions of a key that was made
      at this or a higher level. */
  datatype Level = Level(tables: seq<Derived>, psi: seq<int>, psiInverse: seq<int>, e: nat, chains: nat, keyChains: nat,
                         partitions: seq<Partition>, keyPartitions: seq<Partition>, parameters: seq<PartitionParameters>,
                         inverses: seq<seq<int>>)

  function Moduli(g: Level): (m: seq<Modulus>)
    ensures |m| == |g.tables|
  {
    seq(|g.tables|, i requires 0 <= i < |g.tables| => Modulus(g.tables[i].q, g.tables[i].k))
  }

  function Squares(g: Level): (squares: seq<int>)
    ensures |squares| == |g.tables|
  {
    seq(|g.tables|, i requires 0 <= i < |g.tables| => g.tables[i].rSquared)
  }

  ghost predicate Inside(g: Level, p: nat) {
    && p < |g.partitions| == |g.parameters| && g.chains <= |g.tables|
    && forall j :: 0 <= j < |g.partitions[p].indices| ==> g.partitions[p].indices[j] < g.chains
  }

  /** The moduli of partition p. */
  function Part(g: Level, p: nat): (m: seq<Modulus>)
    requires Inside(g, p)
    ensures |m| == |g.partitions[p].indices|
  {
    seq(|g.partitions[p].indices|, j requires 0 <= j < |g.partitions[p].indices| => Moduli(g)[g.partitions[p].indices[j]])
  }

  /** The residues of coefficient c on the chains of partition p. */
  function PartColumn(g: Level, x: seq<seq<int>>, p: nat, c: nat): (column: seq<int>)
    requires Inside(g, p) && |x| == g.chains && forall i :: 0 <= i < |x| ==> c < |x[i]|
    ensures |column| == |g.partitions[p].indices|
  {
    seq(|g.partitions[p].indices|, j requires 0 <= j < |g.partitions[p].indices| => x[g.partitions[p].indices[j]][c])
  }

  ghost predicate ValidPart(g: Level, p: nat) {
    && Inside(g, p) && ValidInverse(g.parameters[p], Part(g, p)) && ValidMult(g.parameters[p], Part(g, p))
    && ValidSquared(g.parameters[p], Part(g, p), Moduli(g))
    && forall j :: 0 <= j < |Part(g, p)| ==> Part(g, p)[0].q <= 2 * Part(g, p)[j].q
  }

  ghost predicate ValidTable(g: Level, i: nat) {
    && i < |g.tables| == |g.psi| == |g.psiInverse|
    && g.tables[i].e == g.e && Valid(g.tables[i], g.psi[i], g.psiInverse[i])
  }

  ghost predicate ValidLevel(g: Level) {
    && 1 <= g.chains <= g.keyChains && g.chains < |g.tables|
    && (forall i :: 0 <= i < |g.tables| ==> ValidTable(g, i))
    && PairwiseCoprime(Moduli(g)) && ModDown.SpecialSizes(Moduli(g), g.chains)
    && ModDown.ValidInverses(g.inverses, Moduli(g), |g.tables|, |g.tables| - g.chains)
    && PartitionsOf(g.partitions, g.chains, g.keyChains, |g.tables| - g.chains)
    && PartitionsOf(g.keyPartitions, g.keyChains, g.keyChains, |g.tables| - g.chains)
    && forall p :: 0 <= p < |g.partitions| ==> ValidPart(g, p)
  }

  lemma LevelSizes(g: Level)
    requires ValidLevel(g)
    ensures 1 <= g.chains <= g.keyChains && g.chains < |g.tables| && |g.partitions| >= 1 && Base(Moduli(g)) && ValidSquares(Squares(g), Moduli(g))
    ensures PairwiseCoprime(Moduli(g)) && ModDown.SpecialSizes(Moduli(g), g.chains)
    ensures ModDown.ValidInverses(g.inverses, Moduli(g), |g.tables|, |g.tables| - g.chains)
  {
    hide IsPartition, PairwiseCoprime, ModDown.SpecialSizes, ModDown.ValidInverses, ValidPart, PartitionCount, MontModulus, Cong, NegacyclicRoot, RootTable, InverseTable, Pow2;
    CountBounds(g.chains, |g.tables| - g.chains);
    forall i | 0 <= i < |g.tables|
      ensures MontModulus(g.tables[i].q, g.tables[i].k) && FactorConstant(g.tables[i].rSquared, R, g.tables[i].q)
    {
      assert ValidTable(g, i);
    }
  }

  lemma TableAt(g: Level, i: nat)
    requires ValidLevel(g) && i < |g.tables|
    ensures |g.tables| == |g.psi| == |g.psiInverse| && g.tables[i].e == g.e && Valid(g.tables[i], g.psi[i], g.psiInverse[i])
    ensures MontModulus(g.tables[i].q, g.tables[i].k) && Moduli(g)[i] == Modulus(g.tables[i].q, g.tables[i].k)
  {
    hide Valid, ValidPart;
    assert ValidTable(g, i);
    ValidModulus(g.tables[i], g.psi[i], g.psiInverse[i]);
  }

  // ---------- the digits ----------

  /** Rows of residues as to_intt_ leaves them: a residue may be the modulus itself. */
  ghost predicate Digest(g: Level, x: seq<seq<int>>) {
    |x| == g.chains <= |g.tables| && forall i :: 0 <= i < |x| ==> |x[i]| == Pow2(g.e) && forall c :: 0 <= c < |x[i]| ==> 0 <= x[i][c] <= g.tables[i].q
  }

  /** The word that rns_to_mrs and mod_up leave for modulus i, before the transform. */
  ghost predicate IsWord(word: int, g: Level, x: seq<seq<int>>, p: nat, i: nat, c: nat) {
    && Inside(g, p) && i < |g.tables| && |x| == g.chains && (forall r :: 0 <= r < |x| ==> c < |x[r]|)
    && var parameters, m, column := g.parameters[p], Part(g, p), PartColumn(g, x, p, c);
       && |m| >= 1 && Shape(column, m, parameters) && |parameters.multSquared| == |m| - 1
       && (forall r :: 0 <= r < |parameters.multSquared| ==> i < |parameters.multSquared[r]|)
       && word == Lifted(Stage(column, m, parameters, |m| - 1), parameters, Squares(g)[i], Moduli(g)[i], i, |m| - 1)
  }

  lemma PartFacts(g: Level, p: nat)
    requires ValidLevel(g) && p < |g.partitions|
    ensures ValidPart(g, p) && Base(Part(g, p)) && Coprime(Part(g, p)) && |Part(g, p)| >= 1
  {
    LevelSizes(g);
    assert ValidPart(g, p);
    hide MontModulus, Invertible, ValidInverse, ValidMult, ValidSquared, FromEnd;
    assert IsPartition(g.partitions[p], g.chains, |g.tables| - g.chains, |g.partitions| - 1 - p);
  }

  ghost predicate LiftedAt(g: Level, x: seq<seq<int>>, value: int, p: nat, c: nat)
    requires Inside(g, p) && |x| == g.chains && forall i :: 0 <= i < |x| ==> c < |x[i]|
  {
    0 <= value <= Product(Part(g, p), |Part(g, p)|) && Residues(value, PartColumn(g, x, p, c), Part(g, p), |Part(g, p)|)
  }

  /** Whatever modulus a word was made for, it stands for the value. */
  ghost predicate WordsStand(g: Level, x: seq<seq<int>>, value: int, p: nat, c: nat) {
    forall i: nat, word :: IsWord(word, g, x, p, i, c) ==> WordStands(g, word, value, i)
  }

  ghost predicate WordStands(g: Level, word: int, value: int, i: nat) {
    i < |g.tables| && Pending(word, value * R, g.tables[i].q)
  }

  ghost predicate IsLift(g: Level, x: seq<seq<int>>, value: int, p: nat, c: nat) {
    && Inside(g, p) && |x| == g.chains && (forall i :: 0 <= i < |x| ==> c < |x[i]|)
    && LiftedAt(g, x, value, p, c) && WordsStand(g, x, value, p, c)
  }

  lemma Lift(g: Level, x: seq<seq<int>>, p: nat, c: nat) returns (value: int)
    requires ValidLevel(g) && Digest(g, x) && p < |g.partitions| && c < Pow2(g.e)
    ensures IsLift(g, x, value, p, c)
  {
    hide *;
    LevelSizes(g);
    PartFacts(g, p);
    PartReducible(g, x, p, c);
    value := ExactBaseExtension(PartColumn(g, x, p, c), Part(g, p), g.parameters[p], Squares(g), Moduli(g));
    forall i: nat, word | IsWord(word, g, x, p, i, c) ensures WordStands(g, word, value, i) {
      WordIs(word, g, x, p, i, c);
      WordAt(g, word, value, i);
    }
    LiftedFrom(g, x, value, p, c);
  }

  lemma WordAt(g: Level, word: int, value: int, i: nat)
    requires i < |g.tables| && Pending(word, value * R, Moduli(g)[i].q)
    ensures WordStands(g, word, value, i)
  {
    hide Pending;
  }

  lemma LiftedFrom(g: Level, x: seq<seq<int>>, value: int, p: nat, c: nat)
    requires Inside(g, p) && |x| == g.chains && forall i :: 0 <= i < |x| ==> c < |x[i]|
    requires 0 <= value <= Product(Part(g, p), |Part(g, p)|) && Residues(value, PartColumn(g, x, p, c), Part(g, p), |Part(g, p)|)
    requires forall i: nat, word :: IsWord(word, g, x, p, i, c) ==> WordStands(g, word, value, i)
    ensures IsLift(g, x, value, p, c)
  {
    hide Residues, Product, Part, PartColumn, IsWord, WordStands;
  }

  lemma WordIs(word: int, g: Level, x: seq<seq<int>>, p: nat, i: nat, c: nat)
    requires IsWord(word, g, x, p, i, c)
    ensures Inside(g, p) && i < |g.tables| && |x| == g.chains && forall r :: 0 <= r < |x| ==> c < |x[r]|
    ensures var parameters, m, column := g.parameters[p], Part(g, p), PartColumn(g, x, p, c);
      && |m| >= 1 && Shape(column, m, parameters) && |parameters.multSquared| == |m| - 1
      && (forall r :: 0 <= r < |parameters.multSquared| ==> i < |parameters.multSquared[r]|)
      && word == Lifted(Stage(column, m, parameters, |m| - 1), parameters, Squares(g)[i], Moduli(g)[i], i, |m| - 1)
  {
    hide Part, PartColumn, Moduli, Squares, Stage, Lifted, Shape;
  }

  lemma PartReducible(g: Level, x: seq<seq<int>>, p: nat, c: nat)
    requires ValidPart(g, p) && |Part(g, p)| >= 1 && Digest(g, x) && c < Pow2(g.e)
    ensures Inside(g, p) && p < |g.parameters| && |x| == g.chains && (forall i :: 0 <= i < |x| ==> c < |x[i]|)
    ensures Reducible(PartColumn(g, x, p, c), Part(g, p))
    ensures ValidInverse(g.parameters[p], Part(g, p)) && ValidMult(g.parameters[p], Part(g, p)) && ValidSquared(g.parameters[p], Part(g, p), Moduli(g))
  {
    hide ValidInverse, ValidMult, ValidSquared;
  }

  /** The lifted integers of all partitions and coefficients. */
  ghost predicate Lifting(g: Level, x: seq<seq<int>>, d: seq<seq<int>>) {
    |d| == |g.partitions| && forall p :: 0 <= p < |d| ==> LiftsRow(g, x, d[p], p)
  }

  ghost predicate LiftsRow(g: Level, x: seq<seq<int>>, row: seq<int>, p: nat) {
    |row| == Pow2(g.e) && forall c :: 0 <= c < |row| ==> IsLift(g, x, row[c], p, c)
  }

  lemma LiftAll(g: Level, x: seq<seq<int>>) returns (d: seq<seq<int>>)
    requires ValidLevel(g) && Digest(g, x)
    ensures Lifting(g, x, d)
  {
    hide *;
    d := [];
    for p := 0 to |g.partitions|
      invariant |d| == p && forall k :: 0 <= k < p ==> LiftsRow(g, x, d[k], k)
    {
      var row := [];
      for c := 0 to Pow2(g.e)
        invariant |row| == c && forall k :: 0 <= k < c ==> IsLift(g, x, row[k], p, k)
      {
        var value := Lift(g, x, p, c);
        row := row + [value];
      }
      RowFrom(g, x, row, p);
      d := d + [row];
    }
    LiftingFrom(g, x, d);
  }

  lemma RowFrom(g: Level, x: seq<seq<int>>, row: seq<int>, p: nat)
    requires |row| == Pow2(g.e) && forall c :: 0 <= c < |row| ==> IsLift(g, x, row[c], p, c)
    ensures LiftsRow(g, x, row, p)
  {
    hide IsLift;
  }

  lemma LiftingFrom(g: Level, x: seq<seq<int>>, d: seq<seq<int>>)
    requires |d| == |g.partitions| && forall p :: 0 <= p < |d| ==> LiftsRow(g, x, d[p], p)
    ensures Lifting(g, x, d)
  {
    hide LiftsRow;
  }

  /** The extended rows for modulus i: the words of all partitions. */
  ghost predicate WordsFor(g: Level, x: seq<seq<int>>, words: seq<seq<int>>, i: nat) {
    && |words| == |g.partitions| && i < |g.tables|
    && forall p :: 0 <= p < |words| ==> |words[p]| == Pow2(g.e) && forall c :: 0 <= c < |words[p]| ==> IsWord(words[p][c], g, x, p, i, c)
  }

  lemma WordsLift(g: Level, x: seq<seq<int>>, words: seq<seq<int>>, d: seq<seq<int>>, i: nat)
    requires Lifting(g, x, d) && WordsFor(g, x, words, i)
    ensures LiftedRows(words, d, Pow2(g.e), g.tables[i].q)
  {
    hide IsWord, Pending, Pow2, LiftedAt, Inside;
    forall p | 0 <= p < |words| ensures LiftedWords(words[p], d[p], Pow2(g.e), g.tables[i].q) {
      assert LiftsRow(g, x, d[p], p);
      forall c | 0 <= c < Pow2(g.e) ensures Pending(words[p][c], d[p][c] * R, g.tables[i].q) {
        assert IsLift(g, x, d[p][c], p, c);
        assert WordStands(g, words[p][c], d[p][c], i);
      }
    }
  }

  lemma LiftResidue(g: Level, x: seq<seq<int>>, value: int, p: nat, c: nat, j: nat)
    requires IsLift(g, x, value, p, c) && j < |g.partitions[p].indices|
    ensures var i := g.partitions[p].indices[j]; i < |x| && i < |g.tables| && c < |x[i]| && Cong(value, x[i][c], g.tables[i].q)
  {
    hide WordsStand, Cong, Product;
    assert Cong(value, PartColumn(g, x, p, c)[j], Part(g, p)[j].q);
    assert Part(g, p)[j] == Moduli(g)[g.partitions[p].indices[j]];
  }

  lemma LiftRange(g: Level, x: seq<seq<int>>, value: int, p: nat, c: nat)
    requires IsLift(g, x, value, p, c)
    ensures Inside(g, p) && 0 <= value <= Product(Part(g, p), |Part(g, p)|)
  {
    hide WordsStand, Residues, Product, Part;
  }

  /** The owner's lifted integers have the residues of its own chains. */
  lemma OwnerLifts(g: Level, x: seq<seq<int>>, d: seq<seq<int>>, i: nat, owner: nat, product: int)
    requires Lifting(g, x, d) && i < |x| && i < |g.tables| && owner < |g.partitions| && i in g.partitions[owner].indices
    requires g.tables[i].e == g.e && |x[i]| == Pow2(g.e)
    ensures OwnerData(g.tables[i], d, x[i], product, owner)
  {
    hide IsLift, Pow2, Cong;
    assert LiftsRow(g, x, d[owner], owner);
    var j :| 0 <= j < |g.partitions[owner].indices| && g.partitions[owner].indices[j] == i;
    forall c | 0 <= c < Pow2(g.e) ensures Cong(d[owner][c], x[i][c], g.tables[i].q) {
      LiftResidue(g, x, d[owner][c], owner, c, j);
    }
  }

  // ---------- the key ----------

  /** A key with its secrets, for every modulus of the level: rows of a, b and the errors for every key
      partition, the secret switched to, and for every chain P times the secret switched from. */
  datatype Key = Key(a: seq<seq<seq<int>>>, b: seq<seq<seq<int>>>, e: seq<seq<seq<int>>>, s: seq<seq<int>>, from: seq<seq<int>>,
                     errors: seq<seq<int>>, secret: seq<int>, former: seq<int>)

  /** P, the product of the special primes. */
  ghost function Specials(g: Level): int
    requires g.chains <= |g.tables|
  {
    ModDown.Removed(Moduli(g), |g.tables|, |g.tables| - g.chains)
  }

  ghost predicate KeyShape(g: Level, key: Key, i: nat) {
    var n, size := |g.keyPartitions|, Pow2(g.e);
    && i < |g.tables| == |key.a| == |key.b| == |key.e| == |key.s| && |key.from| == g.chains <= |g.tables|
    && Rectangle(key.a[i], n, size) && Rectangle(key.b[i], n, size) && Rectangle(key.e[i], n, size) && |key.s[i]| == size
    && (i < g.chains ==> |key.from[i]| == size)
    && Rectangle(key.errors, n, size) && |key.secret| == |key.former| == size
  }

  /** Chain i of the ciphertext is chain i + (difference of the chain counts) of the key. */
  ghost predicate Owned(g: Level, i: nat, k: nat)
    requires k < |g.keyPartitions| && g.chains <= g.keyChains
  {
    i < g.chains && i + (g.keyChains - g.chains) in g.keyPartitions[k].indices
  }

  /** Slot j of the rows for modulus i is what create_key_switching_key leaves. */
  ghost predicate KeyMade(g: Level, key: Key, i: nat, j: nat)
    requires |g.tables| == |g.psi| && g.chains <= g.keyChains
  {
    && KeyShape(g, key, i) && j < Pow2(g.e)
    && var m, z := Modulus(g.tables[i].q, g.tables[i].k), NttTheory.Point(g.psi[i], g.e, j);
       && Lazy(Column(key.a[i], j), m.q) && Lazy(Column(key.e[i], j), m.q) && 0 <= key.s[i][j] < 2 * m.q
       && Stand(Column(key.e[i], j), Values(key.errors, z), m.q) && Cong(key.s[i][j], Eval(key.secret, z) * R, m.q)
       && (i < g.chains ==> 0 <= key.from[i][j] < 2 * m.q && Cong(key.from[i][j], (Specials(g) * Eval(key.former, z)) * R, m.q))
       && forall k :: 0 <= k < |g.keyPartitions| ==>
            key.b[i][k][j] == KeyWord(key.a[i][k][j], key.s[i][j], key.e[i][k][j], From(g, key, i)[j], Owned(g, i, k), m)
  }

  /** Special primes have no row of the old secret; none of their words depends on one. */
  ghost function From(g: Level, key: Key, i: nat): (row: seq<int>)
    requires KeyShape(g, key, i)
    ensures |row| == Pow2(g.e)
  {
    if i < g.chains then key.from[i] else seq(Pow2(g.e), j => 0)
  }

  /** get_key_index: the rows for the partitions of the ciphertext. */
  ghost function Chosen(g: Level, rows: seq<seq<int>>): (chosen: seq<seq<int>>)
    requires forall p :: 0 <= p < |g.partitions| ==> 0 <= g.partitions[p].index < |rows|
    ensures |chosen| == |g.partitions|
  {
    seq(|g.partitions|, p requires 0 <= p < |g.partitions| => rows[g.partitions[p].index])
  }

  lemma Indices(g: Level)
    requires ValidLevel(g)
    ensures forall p :: 0 <= p < |g.partitions| ==> 0 <= g.partitions[p].index < |g.keyPartitions|
  {
    LevelSizes(g);
    forall p | 0 <= p < |g.partitions| ensures 0 <= g.partitions[p].index < |g.keyPartitions| {
      hide IsPartition, PartitionCount;
      assert PartitionsOf(g.partitions, g.chains, g.keyChains, |g.tables| - g.chains);
      assert PartitionsOf(g.keyPartitions, g.keyChains, g.keyChains, |g.tables| - g.chains);
      CountMonotone(g.chains, g.keyChains, |g.tables| - g.chains);
    }
  }

  lemma OwnerIs(g: Level, i: nat, owner: nat, other: nat)
    requires ValidLevel(g) && i < g.chains && owner < |g.partitions| && other < |g.partitions|
    requires i in g.partitions[owner].indices && i in g.partitions[other].indices
    ensures owner == other
  {
    LevelSizes(g);
    hide IsPartition, PartitionCount;
    var unique := Owner(g.partitions, g.chains, g.keyChains, |g.tables| - g.chains, i);
  }

  /** The chosen pairs hide the errors, and the owner's pair the old secret. */
  lemma ChosenPairs(g: Level, a: seq<int>, b: seq<int>, e: seq<int>, s: int, from: int, i: nat, owner: int)
    requires ValidLevel(g) && i < |g.tables| && |a| == |b| == |e| == |g.keyPartitions| && g.chains <= g.keyChains
    requires forall p :: 0 <= p < |g.partitions| ==> 0 <= g.partitions[p].index < |a|
    requires if i < g.chains then 0 <= owner < |g.partitions| && i in g.partitions[owner].indices else owner == -1
    requires var m := Modulus(g.tables[i].q, g.tables[i].k);
      && Lazy(a, m.q) && Lazy(e, m.q) && 0 <= s < 2 * m.q && 0 <= from < 2 * m.q
      && forall k :: 0 <= k < |b| ==> b[k] == KeyWord(a[k], s, e[k], from, Owned(g, i, k), m)
    ensures var q := g.tables[i].q;
      && Lazy(Selected(g.partitions, a), q) && Lazy(Selected(g.partitions, b), q)
      && KeyPairs(Selected(g.partitions, a), Selected(g.partitions, b), Selected(g.partitions, e), s, from, owner, q)
  {
    LevelSizes(g);
    TableAt(g, i);
    hide ValidLevel, PartitionsOf, KeyWord, Lazy, KeyPairs, Selected, MontModulus;
    var m := Modulus(g.tables[i].q, g.tables[i].k);
    if i < g.chains {
      LevelPartitions(g);
      var other := KeyPairsBelowLevel(g.partitions, g.keyPartitions, g.chains, g.keyChains, |g.tables| - g.chains, i, a, b, e, s, from, m);
      OwnerIs(g, i, owner, other);
    } else {
      KeyPairsAtSpecial(g.partitions, a, b, e, s, from, m);
    }
  }

  lemma LevelPartitions(g: Level)
    requires ValidLevel(g)
    ensures 1 <= g.chains <= g.keyChains && g.chains < |g.tables|
    ensures PartitionsOf(g.partitions, g.chains, g.keyChains, |g.tables| - g.chains)
    ensures PartitionsOf(g.keyPartitions, g.keyChains, g.keyChains, |g.tables| - g.chains)
  {
  }

  lemma ChosenColumn(g: Level, rows: seq<seq<int>>, j: nat)
    requires (forall p :: 0 <= p < |g.partitions| ==> 0 <= g.partitions[p].index < |rows|) && forall k :: 0 <= k < |rows| ==> j < |rows[k]|
    ensures Column(Chosen(g, rows), j) == Selected(g.partitions, Column(rows, j))
  {
  }

  lemma ChosenValues(g: Level, rows: seq<seq<int>>, z: int)
    requires forall p :: 0 <= p < |g.partitions| ==> 0 <= g.partitions[p].index < |rows|
    ensures Values(Chosen(g, rows), z) == Selected(g.partitions, Values(rows, z))
  {
    hide Eval;
  }

  lemma SelectedStand(g: Level, words: seq<int>, values: seq<int>, q: int)
    requires (forall p :: 0 <= p < |g.partitions| ==> 0 <= g.partitions[p].index < |words|) && Stand(words, values, q)
    ensures |words| == |values| && Stand(Selected(g.partitions, words), Selected(g.partitions, values), q)
  {
    hide Cong;
  }

  lemma MadeMeans(g: Level, key: Key, i: nat, j: nat)
    requires ValidLevel(g) && |g.tables| == |g.psi| && KeyMade(g, key, i, j)
    ensures KeyShape(g, key, i) && j < Pow2(g.e) && g.chains <= g.keyChains
    ensures var q, z := g.tables[i].q, NttTheory.Point(g.psi[i], g.e, j);
      && Lazy(Column(key.a[i], j), q) && Lazy(Column(key.e[i], j), q) && 0 <= key.s[i][j] < 2 * q && 0 <= From(g, key, i)[j] < 2 * q
      && Stand(Column(key.e[i], j), Values(key.errors, z), q) && Cong(key.s[i][j], Eval(key.secret, z) * R, q)
      && Cong(From(g, key, i)[j], (Specials(g) * Eval(key.former, z)) * R, q)
    ensures forall k :: 0 <= k < |g.keyPartitions| ==>
      Column(key.b[i], j)[k] == KeyWord(Column(key.a[i], j)[k], key.s[i][j], Column(key.e[i], j)[k], From(g, key, i)[j], Owned(g, i, k),
                                        Modulus(g.tables[i].q, g.tables[i].k))
  {
    LevelPartitions(g);
    LevelSizes(g);
    TableAt(g, i);
    hide ValidLevel, KeyWord, Lazy, Stand, Cong, NttTheory.Point, Eval, Values, Pow2, Owned, Base, PairwiseCoprime, ModDown.SpecialSizes, ModDown.ValidInverses, ValidSquares, Valid, PartitionsOf, ModDown.Removed;
    if i >= g.chains {
      RemovedVanishes(Moduli(g), |g.tables| - g.chains, i);
      VanishingTerm(Specials(g), Eval(key.former, NttTheory.Point(g.psi[i], g.e, j)), g.tables[i].q);
      ModulusPositive(g.tables[i].q, g.tables[i].k);
    }
  }

  lemma ModulusPositive(q: int, k: int)
    requires MontModulus(q, k)
    ensures q > 0
  {
  }

  lemma VanishingTerm(p: int, f: int, q: int)
    requires Cong(p, 0, q)
    ensures Cong(0, (p * f) * R, q)
  {
    hide *;
    MulRight(p, 0, f, q);
    MulRight(p * f, 0 * f, R, q);
    Sym((p * f) * R, 0, q);
  }

  /** What the chosen rows hold at slot j. */
  lemma KeySlot(g: Level, key: Key, i: nat, j: nat, owner: int)
    requires ValidLevel(g) && |g.tables| == |g.psi| && KeyMade(g, key, i, j)
    requires forall p :: 0 <= p < |g.partitions| ==> 0 <= g.partitions[p].index < |g.keyPartitions|
    requires if i < g.chains then 0 <= owner < |g.partitions| && i in g.partitions[owner].indices else owner == -1
    ensures KeyShape(g, key, i)
    ensures SlotData(g.tables[i], g.psi[i], Chosen(g, key.a[i]), Chosen(g, key.b[i]), Chosen(g, key.e[i]), key.s[i], From(g, key, i),
                     Chosen(g, key.errors), key.secret, key.former, Specials(g), owner, |g.partitions|, j)
  {
    MadeMeans(g, key, i, j);
    TableAt(g, i);
    hide ValidLevel, KeyMade, KeyWord, Lazy, Stand, Cong, NttTheory.Point, Eval, Values, Pow2, Owned, Valid, KeyPairs, Column, Selected, From, Specials;
    var z := NttTheory.Point(g.psi[i], g.e, j);
    ChosenPairs(g, Column(key.a[i], j), Column(key.b[i], j), Column(key.e[i], j), key.s[i][j], From(g, key, i)[j], i, owner);
    ChosenColumn(g, key.a[i], j);
    ChosenColumn(g, key.b[i], j);
    ChosenColumn(g, key.e[i], j);
    SelectedStand(g, Column(key.e[i], j), Values(key.errors, z), g.tables[i].q);
    ChosenValues(g, key.errors, z);
  }

  // ---------- one modulus ----------

  ghost predicate RowFits(g: Level, words: seq<seq<int>>, rows: seq<seq<int>>, i: nat) {
    && i < |g.tables| && g.tables[i].e == g.e && |g.partitions| >= 1
    && Rectangle(words, |g.partitions|, Pow2(g.e)) && Rectangle(rows, |g.keyPartitions|, Pow2(g.e))
    && forall p :: 0 <= p < |g.partitions| ==> 0 <= g.partitions[p].index < |g.keyPartitions|
  }

  /** The row that mod_down divides: the accumulated row, transformed back and reduced. */
  ghost function DownRow(g: Level, words: seq<seq<int>>, rows: seq<seq<int>>, i: nat): (row: seq<int>)
    requires RowFits(g, words, rows, i)
    ensures |row| == Pow2(g.e)
  {
    var before := BeforeDown(g.tables[i], words, Chosen(g, rows));
    Apply(Reduce, before, before, before, g.tables[i].q, g.tables[i].k)
  }

  /** The digits; special primes have none. */
  ghost function Padded(g: Level, x: seq<seq<int>>, i: nat): (row: seq<int>) {
    if i < |x| then x[i] else seq(Pow2(g.e), c => 0)
  }

  lemma OwnerOf(g: Level, i: nat) returns (owner: int)
    requires ValidLevel(g)
    ensures if i < g.chains then 0 <= owner < |g.partitions| && i in g.partitions[owner].indices else owner == -1
  {
    LevelPartitions(g);
    hide ValidLevel, PartitionsOf;
    owner := -1;
    if i < g.chains {
      owner := Owner(g.partitions, g.chains, g.keyChains, |g.tables| - g.chains, i);
    }
  }

  lemma ChosenShape(g: Level, rows: seq<seq<int>>)
    requires ValidLevel(g) && Rectangle(rows, |g.keyPartitions|, Pow2(g.e))
    ensures forall p :: 0 <= p < |g.partitions| ==> 0 <= g.partitions[p].index < |rows|
    ensures Rectangle(Chosen(g, rows), |g.partitions|, Pow2(g.e))
  {
    Indices(g);
    hide ValidLevel;
  }

  lemma LiftShape(g: Level, x: seq<seq<int>>, d: seq<seq<int>>)
    requires Lifting(g, x, d)
    ensures Rectangle(d, |g.partitions|, Pow2(g.e))
  {
    hide IsLift;
    forall p | 0 <= p < |d| ensures |d[p]| == Pow2(g.e) { assert LiftsRow(g, x, d[p], p); }
  }

  lemma WordShape(g: Level, x: seq<seq<int>>, words: seq<seq<int>>, i: nat)
    requires WordsFor(g, x, words, i)
    ensures Rectangle(words, |g.partitions|, Pow2(g.e))
  {
    hide IsWord;
  }

  lemma DigestSizes(g: Level, x: seq<seq<int>>)
    requires Digest(g, x)
    ensures |x| == g.chains <= |g.tables| && forall i :: 0 <= i < |x| ==> |x[i]| == Pow2(g.e)
  {
  }

  lemma PaddedOwner(g: Level, x: seq<seq<int>>, d: seq<seq<int>>, i: nat, owner: int)
    requires ValidLevel(g) && Digest(g, x) && Lifting(g, x, d) && i < |g.tables|
    requires if i < g.chains then 0 <= owner < |g.partitions| && i in g.partitions[owner].indices else owner == -1
    ensures g.chains <= |g.tables| && OwnerData(g.tables[i], d, Padded(g, x, i), Specials(g), owner) && |Padded(g, x, i)| == Pow2(g.e)
  {
    LevelSizes(g);
    TableAt(g, i);
    DigestSizes(g, x);
    hide *;
    if i < g.chains {
      OwnerLifts(g, x, d, i, owner, Specials(g));
      PaddedAt(g, x, i);
    } else {
      RemovedVanishes(Moduli(g), |g.tables| - g.chains, i);
      PaddedAt(g, x, i);
      SpecialOwner(g, d, x, i);
    }
  }

  lemma PaddedAt(g: Level, x: seq<seq<int>>, i: nat)
    ensures Padded(g, x, i) == if i < |x| then x[i] else seq(Pow2(g.e), c => 0)
  {
  }

  lemma SpecialOwner(g: Level, d: seq<seq<int>>, x: seq<seq<int>>, i: nat)
    requires i < |g.tables| && i >= |x| && g.tables[i].e == g.e && g.chains <= |g.tables|
    requires Cong(ModDown.Removed(Moduli(g), |g.tables|, |g.tables| - g.chains), 0, Moduli(g)[i].q)
    ensures OwnerData(g.tables[i], d, Padded(g, x, i), Specials(g), -1)
  {
    hide Cong, Pow2;
  }

  /** Everything the identity needs at modulus i. */
  lemma RowIsData(g: Level, x: seq<seq<int>>, words: seq<seq<int>>, key: Key, d: seq<seq<int>>, i: nat) returns (owner: int)
    requires ValidLevel(g) && Digest(g, x) && Lifting(g, x, d) && i < |g.tables| == |g.psi| && WordsFor(g, x, words, i)
    requires g.chains <= g.keyChains && forall j :: 0 <= j < Pow2(g.e) ==> KeyMade(g, key, i, j)
    ensures Ready(g, x, words, key, d, i, owner)
  {
    hide *;
    LevelSizes(g);
    TableAt(g, i);
    owner := OwnerOf(g, i);
    MadeMeans(g, key, i, 0);
    KeyShapes(g, key, i);
    Indices(g);
    ChosenShape(g, key.a[i]);
    ChosenShape(g, key.b[i]);
    ChosenShape(g, key.e[i]);
    ChosenShape(g, key.errors);
    LiftShape(g, x, d);
    WordShape(g, x, words, i);
    WordsLift(g, x, words, d, i);
    PaddedOwner(g, x, d, i, owner);
    forall j | 0 <= j < Pow2(g.e)
      ensures SlotData(g.tables[i], g.psi[i], Chosen(g, key.a[i]), Chosen(g, key.b[i]), Chosen(g, key.e[i]), key.s[i], From(g, key, i),
                       Chosen(g, key.errors), key.secret, key.former, Specials(g), owner, |g.partitions|, j)
    {
      KeySlot(g, key, i, j, owner);
    }
    ReadyFrom(g, x, words, key, d, i, owner);
  }

  lemma KeyShapes(g: Level, key: Key, i: nat)
    requires KeyShape(g, key, i)
    ensures i < |g.tables| == |key.a| == |key.b| == |key.e| == |key.s|
    ensures var n, size := |g.keyPartitions|, Pow2(g.e);
      && Rectangle(key.a[i], n, size) && Rectangle(key.b[i], n, size) && Rectangle(key.e[i], n, size) && |key.s[i]| == size
      && Rectangle(key.errors, n, size) && |key.secret| == |key.former| == size
    ensures |key.a[i]| == |key.b[i]| == |key.e[i]| == |key.errors| == |g.keyPartitions|
  {
  }

  ghost predicate Ready(g: Level, x: seq<seq<int>>, words: seq<seq<int>>, key: Key, d: seq<seq<int>>, i: nat, owner: int) {
    && i < |g.tables| == |g.psi| && KeyShape(g, key, i) && RowFits(g, words, key.a[i], i) && RowFits(g, words, key.b[i], i)
    && Rectangle(d, |g.partitions|, Pow2(g.e)) && Rectangle(Chosen(g, key.errors), |g.partitions|, Pow2(g.e))
    && Rectangle(Chosen(g, key.a[i]), |g.partitions|, Pow2(g.e)) && Rectangle(Chosen(g, key.b[i]), |g.partitions|, Pow2(g.e))
    && RowData(g.tables[i], g.psi[i], words, d, Chosen(g, key.a[i]), Chosen(g, key.b[i]), Chosen(g, key.e[i]), key.s[i], From(g, key, i),
               Chosen(g, key.errors), key.secret, key.former, Specials(g), owner)
    && OwnerData(g.tables[i], d, Padded(g, x, i), Specials(g), owner) && |Padded(g, x, i)| == Pow2(g.e)
  }

  lemma ReadyFrom(g: Level, x: seq<seq<int>>, words: seq<seq<int>>, key: Key, d: seq<seq<int>>, i: nat, owner: int)
    requires i < |g.tables| == |g.psi| && KeyShape(g, key, i) && |g.partitions| >= 1 && g.tables[i].e == g.e
    requires forall p :: 0 <= p < |g.partitions| ==> 0 <= g.partitions[p].index < |g.keyPartitions|
    requires Rectangle(d, |g.partitions|, Pow2(g.e)) && Rectangle(words, |g.partitions|, Pow2(g.e))
    requires Rectangle(Chosen(g, key.errors), |g.partitions|, Pow2(g.e)) && Rectangle(Chosen(g, key.e[i]), |g.partitions|, Pow2(g.e))
    requires Rectangle(Chosen(g, key.a[i]), |g.partitions|, Pow2(g.e)) && Rectangle(Chosen(g, key.b[i]), |g.partitions|, Pow2(g.e))
    requires LiftedRows(words, d, Pow2(g.e), g.tables[i].q)
    requires forall j :: 0 <= j < Pow2(g.e) ==>
      SlotData(g.tables[i], g.psi[i], Chosen(g, key.a[i]), Chosen(g, key.b[i]), Chosen(g, key.e[i]), key.s[i], From(g, key, i),
               Chosen(g, key.errors), key.secret, key.former, Specials(g), owner, |g.partitions|, j)
    requires OwnerData(g.tables[i], d, Padded(g, x, i), Specials(g), owner) && |Padded(g, x, i)| == Pow2(g.e)
    ensures Ready(g, x, words, key, d, i, owner)
  {
    hide SlotData, OwnerData, LiftedRows, Pow2, Chosen, Padded, Specials;
  }

  ghost predicate Below(row: seq<int>, q: int) {
    forall c :: 0 <= c < |row| ==> 0 <= row[c] < q
  }

  /** to_intt_ leaves words in [0, q], and the reduction canonical ones. */
  lemma ReducedRow(t: Derived, psi: int, psiInverse: int, words: seq<seq<int>>, rows: seq<seq<int>>)
    requires Valid(t, psi, psiInverse) && |words| == |rows| >= 1 && forall p :: 0 <= p < |words| ==> |words[p]| == |rows[p]| == Pow2(t.e)
    requires InRange(AccumulatedRow(t, words, rows), 0, 2 * t.q)
    ensures t.q > 0
    ensures var before := BeforeDown(t, words, rows); var after := Apply(Reduce, before, before, before, t.q, t.k);
      Below(after, t.q) && forall c :: 0 <= c < |before| ==> Cong(after[c], before[c], t.q)
  {
    ValidModulus(t, psi, psiInverse);
    var before := BeforeDown(t, words, rows);
    hide Valid, Pow2, Accumulated, AccumulatedRow, Cong, BeforeDown, Transform.CoeffForm;
    forall c | 0 <= c < |before|
      ensures 0 <= Guard(before[c], t.q) < t.q && Cong(Guard(before[c], t.q), before[c], t.q)
    {
      Interpolation.CoeffFormValue(t, psi, psiInverse, AccumulatedRow(t, words, rows), c);
      BeforeIs(t, words, rows);
      GuardOnce(before[c], t.q);
    }
  }

  lemma BeforeIs(t: Derived, words: seq<seq<int>>, rows: seq<seq<int>>)
    requires |words| == |rows| >= 1 && forall p :: 0 <= p < |words| ==> |words[p]| == |rows[p]| == Pow2(t.e)
    ensures BeforeDown(t, words, rows) == Transform.CoeffForm(t, AccumulatedRow(t, words, rows))
  {
  }

  ghost predicate KeysFit(g: Level, key: Key, i: nat) {
    i < |key.a| == |key.b| == |key.e| == |key.s| && |key.a[i]| == |key.b[i]| == |key.e[i]| == |g.keyPartitions|
  }

  lemma ReadyMeans(g: Level, x: seq<seq<int>>, words: seq<seq<int>>, key: Key, d: seq<seq<int>>, i: nat, owner: int)
    requires Ready(g, x, words, key, d, i, owner)
    ensures i < |g.tables| == |g.psi| && KeyShape(g, key, i) && RowFits(g, words, key.a[i], i) && RowFits(g, words, key.b[i], i)
    ensures Rectangle(d, |g.partitions|, Pow2(g.e)) && Rectangle(key.errors, |g.keyPartitions|, Pow2(g.e))
    ensures |words| == |g.partitions| >= 1 && |key.errors| == |g.keyPartitions| && g.tables[i].e == g.e
    ensures forall p :: 0 <= p < |g.partitions| ==> 0 <= g.partitions[p].index < |key.errors|
    ensures |key.secret| == |key.former| == |Padded(g, x, i)| == Pow2(g.e) && |d| == |g.partitions| && KeysFit(g, key, i)
    ensures forall p :: 0 <= p < |g.partitions| ==>
      |words[p]| == |Chosen(g, key.a[i])[p]| == |Chosen(g, key.b[i])[p]| == |d[p]| == |Chosen(g, key.errors)[p]| == Pow2(g.e)
    ensures RowData(g.tables[i], g.psi[i], words, d, Chosen(g, key.a[i]), Chosen(g, key.b[i]), Chosen(g, key.e[i]), key.s[i], From(g, key, i),
                    Chosen(g, key.errors), key.secret, key.former, Specials(g), owner)
    ensures OwnerData(g.tables[i], d, Padded(g, x, i), Specials(g), owner)
  {
    hide RowData, OwnerData, Pow2, Chosen, Padded;
  }

  lemma KeysAt(g: Level, key: Key, i: nat)
    requires KeysFit(g, key, i)
    ensures i < |key.a| == |key.b| == |key.e| == |key.s| && |key.a[i]| == |key.b[i]| == |key.e[i]| == |g.keyPartitions|
  {
  }

  ghost predicate DownIs(g: Level, x: seq<seq<int>>, words: seq<seq<int>>, key: Key, d: seq<seq<int>>, i: nat, w0: seq<int>, w1: seq<int>) {
    && i < |g.tables| && g.chains <= |g.tables| && |w0| == |w1| == |key.secret| == |key.former| == |Padded(g, x, i)| == Pow2(g.e)
    && Rectangle(d, |g.partitions|, Pow2(g.e)) && Rectangle(key.errors, |g.keyPartitions|, Pow2(g.e))
    && (forall p :: 0 <= p < |g.partitions| ==> 0 <= g.partitions[p].index < |key.errors|)
    && Below(w0, g.tables[i].q) && Below(w1, g.tables[i].q)
    && forall c :: 0 <= c < Pow2(g.e) ==>
         Cong(Plus(w0, 1, Times(w1, key.secret))[c],
              Plus(Noise(g, d, key), Specials(g), Times(Padded(g, x, i), key.former))[c], g.tables[i].q)
  }

  /** The sum of the products of the lifted integers with the errors of the chosen pairs. */
  ghost function Noise(g: Level, d: seq<seq<int>>, key: Key): (sum: seq<int>)
    requires Rectangle(d, |g.partitions|, Pow2(g.e)) && Rectangle(key.errors, |g.keyPartitions|, Pow2(g.e))
    requires forall p :: 0 <= p < |g.partitions| ==> 0 <= g.partitions[p].index < |key.errors|
    ensures |sum| == Pow2(g.e)
  {
    SumOfProducts(d, Chosen(g, key.errors), |g.partitions|, Pow2(g.e))
  }

  /** The identity at modulus i, for the rows that mod_down divides. */
  lemma DownIdentity(g: Level, x: seq<seq<int>>, words: seq<seq<int>>, key: Key, d: seq<seq<int>>, i: nat, owner: int)
    requires ValidLevel(g) && Ready(g, x, words, key, d, i, owner)
    ensures i < |g.tables| && KeyShape(g, key, i) && RowFits(g, words, key.a[i], i) && RowFits(g, words, key.b[i], i)
    ensures DownIs(g, x, words, key, d, i, DownRow(g, words, key.b[i], i), DownRow(g, words, key.a[i], i))
  {
    hide *;
    ReadyMeans(g, x, words, key, d, i, owner);
    KeysAt(g, key, i);
    TableAt(g, i);
    LevelSizes(g);
    var t := g.tables[i];
    var a, b, e := Chosen(g, key.a[i]), Chosen(g, key.b[i]), Chosen(g, key.e[i]);
    var before0, before1 := BeforeDown(t, words, b), BeforeDown(t, words, a);
    LazyRow(t, g.psi[i], g.psiInverse[i], words, d, a, b, e, key.s[i], From(g, key, i), Chosen(g, key.errors), key.secret, key.former, Specials(g), owner);
    ReducedRow(t, g.psi[i], g.psiInverse[i], words, b);
    ReducedRow(t, g.psi[i], g.psiInverse[i], words, a);
    var w0, w1 := DownRow(g, words, key.b[i], i), DownRow(g, words, key.a[i], i);
    DownRowIs(g, words, key.b[i], i);
    DownRowIs(g, words, key.a[i], i);
    forall c | 0 <= c < Pow2(g.e)
      ensures Cong(Plus(w0, 1, Times(w1, key.secret))[c],
                   Plus(SumOfProducts(d, Chosen(g, key.errors), |g.partitions|, Pow2(g.e)), Specials(g), Times(Padded(g, x, i), key.former))[c], t.q)
    {
      RowIdentity(t, g.psi[i], g.psiInverse[i], words, d, a, b, e, key.s[i], From(g, key, i), Chosen(g, key.errors), key.secret, key.former, Specials(g), owner,
                  Padded(g, x, i), c);
      ReducedIdentity(w0, before0, w1, before1, key.secret, c, t.q);
      Trans(Plus(w0, 1, Times(w1, key.secret))[c], Plus(before0, 1, Times(before1, key.secret))[c],
            Plus(SumOfProducts(d, Chosen(g, key.errors), |g.partitions|, Pow2(g.e)), Specials(g), Times(Padded(g, x, i), key.former))[c], t.q);
    }
    LevelPartitions(g);
    DownFrom(g, x, words, key, d, i, w0, w1);
  }

  lemma DownFrom(g: Level, x: seq<seq<int>>, words: seq<seq<int>>, key: Key, d: seq<seq<int>>, i: nat, w0: seq<int>, w1: seq<int>)
    requires i < |g.tables| && g.chains <= |g.tables| && |w0| == |w1| == |key.secret| == |key.former| == |Padded(g, x, i)| == Pow2(g.e)
    requires Rectangle(d, |g.partitions|, Pow2(g.e)) && Rectangle(key.errors, |g.keyPartitions|, Pow2(g.e)) && |d| == |g.partitions|
    requires forall p :: 0 <= p < |g.partitions| ==> 0 <= g.partitions[p].index < |key.errors|
    requires forall p :: 0 <= p < |g.partitions| ==> |d[p]| == |Chosen(g, key.errors)[p]| == Pow2(g.e)
    requires Below(w0, g.tables[i].q) && Below(w1, g.tables[i].q)
    requires forall c :: 0 <= c < Pow2(g.e) ==>
      Cong(Plus(w0, 1, Times(w1, key.secret))[c],
           Plus(SumOfProducts(d, Chosen(g, key.errors), |g.partitions|, Pow2(g.e)), Specials(g), Times(Padded(g, x, i), key.former))[c], g.tables[i].q)
    ensures DownIs(g, x, words, key, d, i, w0, w1)
  {
    hide Cong, Plus, Times, Padded, Pow2, Chosen, SumOfProducts, Specials, Below;
  }

  lemma DownRowIs(g: Level, words: seq<seq<int>>, rows: seq<seq<int>>, i: nat)
    requires RowFits(g, words, rows, i)
    ensures i < |g.tables| && |words| == |Chosen(g, rows)| >= 1 && forall p :: 0 <= p < |words| ==> |words[p]| == |Chosen(g, rows)[p]| == Pow2(g.tables[i].e)
    ensures var t := g.tables[i]; var before := BeforeDown(t, words, Chosen(g, rows));
      DownRow(g, words, rows, i) == Apply(Reduce, before, before, before, t.q, t.k)
  {
    hide Apply, BeforeDown, Pow2;
  }

  lemma ReducedIdentity(w0: seq<int>, v0: seq<int>, w1: seq<int>, v1: seq<int>, s: seq<int>, c: nat, q: int)
    requires q > 0 && |w0| == |v0| == |w1| == |v1| == |s| && c < |s|
    requires (forall k :: 0 <= k < |s| ==> Cong(w0[k], v0[k], q)) && forall k :: 0 <= k < |s| ==> Cong(w1[k], v1[k], q)
    ensures Cong(Plus(w0, 1, Times(w1, s))[c], Plus(v0, 1, Times(v1, s))[c], q)
  {
    hide Cong, Times, Plus;
    CoefficientCong(w1, v1, s, c, |s|, q);
    TimesAt(w1, s, c);
    TimesAt(v1, s, c);
    PlusAt(w0, 1, Times(w1, s), c);
    PlusAt(v0, 1, Times(v1, s), c);
    Add(w0[c], v0[c], Times(w1, s)[c], Times(v1, s)[c], q);
  }

  // ---------- all moduli ----------

  /** The extended words of every modulus. */
  ghost predicate AllWords(g: Level, x: seq<seq<int>>, words: seq<seq<seq<int>>>) {
    |words| == |g.tables| && forall i :: 0 <= i < |words| ==> WordsFor(g, x, words[i], i)
  }

  /** The key is made in every slot of every modulus. */
  ghost predicate KeyFor(g: Level, key: Key) {
    && |g.tables| == |g.psi| == |key.a| == |key.b| && g.chains <= g.keyChains
    && forall i, j :: 0 <= i < |g.tables| && 0 <= j < Pow2(g.e) ==> KeyMade(g, key, i, j)
  }

  ghost predicate RowsFit(g: Level, words: seq<seq<seq<int>>>, rows: seq<seq<seq<int>>>) {
    |words| == |rows| == |g.tables| && forall i :: 0 <= i < |rows| ==> RowFits(g, words[i], rows[i], i)
  }

  ghost function DownRows(g: Level, words: seq<seq<seq<int>>>, rows: seq<seq<seq<int>>>): (down: seq<seq<int>>)
    requires RowsFit(g, words, rows)
    ensures |down| == |g.tables| && forall i :: 0 <= i < |down| ==> |down[i]| == Pow2(g.e)
  {
    seq(|rows|, i requires 0 <= i < |rows| => DownRow(g, words[i], rows[i], i))
  }

  ghost function Stack(g: Level, x: seq<seq<int>>): (rows: seq<seq<int>>)
    ensures |rows| == |g.tables|
  {
    seq(|g.tables|, i requires 0 <= i < |g.tables| => Padded(g, x, i))
  }

  /** mod_down leaves the canonical residues of y in every chain. */
  ghost predicate Leaves(g: Level, rows: seq<seq<int>>, y: seq<int>) {
    && |y| == Pow2(g.e) && g.chains <= |g.tables| == |rows|
    && (forall i :: 0 <= i < |rows| ==> |rows[i]| == |y|)
    && forall c, i :: 0 <= c < |y| && 0 <= i < g.chains ==> LeftAt(g, Column(rows, c), y[c], i)
  }

  ghost predicate LeftAt(g: Level, column: seq<int>, y: int, i: nat) {
    && i < g.chains <= |g.tables| == |column| && ModDown.Shape(|g.tables|, g.inverses, |g.tables| - g.chains) && g.tables[i].q > 0
    && ModDown.Down(column, Moduli(g), g.inverses, |g.tables| - g.chains, i) == y % g.tables[i].q
  }

  lemma KeyFits(g: Level, x: seq<seq<int>>, words: seq<seq<seq<int>>>, key: Key, d: seq<seq<int>>)
    requires ValidLevel(g) && Digest(g, x) && AllWords(g, x, words) && KeyFor(g, key) && Lifting(g, x, d)
    ensures RowsFit(g, words, key.a) && RowsFit(g, words, key.b)
    ensures forall i :: 0 <= i < |g.tables| ==> DownIs(g, x, words[i], key, d, i, DownRows(g, words, key.b)[i], DownRows(g, words, key.a)[i])
  {
    hide ValidLevel, Digest, Lifting, WordsFor, KeyMade, KeyShape, RowFits, Ready, Pow2, DownRow, DownIs;
    forall i | 0 <= i < |g.tables|
      ensures RowFits(g, words[i], key.a[i], i) && RowFits(g, words[i], key.b[i], i)
      ensures DownIs(g, x, words[i], key, d, i, DownRow(g, words[i], key.b[i], i), DownRow(g, words[i], key.a[i], i))
    {
      var owner := RowIsData(g, x, words[i], key, d, i);
      DownIdentity(g, x, words[i], key, d, i, owner);
    }
  }

  /** Before the division. */
  lemma IdentityEverywhere(g: Level, x: seq<seq<int>>, words: seq<seq<seq<int>>>, key: Key, d: seq<seq<int>>, w0: seq<seq<int>>, w1: seq<seq<int>>)
    requires |g.tables| >= 1 && |w0| == |w1| == |g.tables| == |words| && g.chains <= |g.tables|
    requires forall i :: 0 <= i < |g.tables| ==> DownIs(g, x, words[i], key, d, i, w0[i], w1[i])
    ensures Rectangle(d, |g.partitions|, Pow2(g.e)) && Rectangle(key.errors, |g.keyPartitions|, Pow2(g.e))
    ensures forall p :: 0 <= p < |g.partitions| ==> 0 <= g.partitions[p].index < |key.errors|
    ensures BeforeDivision(Moduli(g), g.chains, w0, w1, key.secret, Noise(g, d, key), Stack(g, x), key.former, Pow2(g.e))
    ensures SwitchedDivision.Rows(w0, Moduli(g), Pow2(g.e)) && SwitchedDivision.Rows(w1, Moduli(g), Pow2(g.e))
  {
    assert DownIs(g, x, words[0], key, d, 0, w0[0], w1[0]);
    hide Pow2, Noise, Plus, Times, Cong, ModDown.Removed, Stack, Moduli, IdentityAt, Chosen, Below;
    forall i, c | 0 <= i < |g.tables| && 0 <= c < Pow2(g.e)
      ensures IdentityAt(Moduli(g), g.chains, w0, w1, key.secret, Noise(g, d, key), Stack(g, x), key.former, i, c)
      ensures |w0[i]| == |w1[i]| == |Stack(g, x)[i]| == Pow2(g.e) && 0 <= w0[i][c] < Moduli(g)[i].q && 0 <= w1[i][c] < Moduli(g)[i].q
    {
      IdentityFrom(g, x, words[i], key, d, w0, w1, i, c);
    }
    StackRows(g, x, w0, w1, Pow2(g.e));
  }

  /** Key switching, from the key and the digits to the words that mod_down leaves: Y0 + Y1 * S =
      x * F + error on every chain. */
  lemma KeySwitches(g: Level, x: seq<seq<int>>, words: seq<seq<seq<int>>>, key: Key)
    returns (d: seq<seq<int>>, y0: seq<int>, r0: seq<int>, y1: seq<int>, r1: seq<int>, error: seq<int>)
    requires ValidLevel(g) && Digest(g, x) && AllWords(g, x, words) && KeyFor(g, key)
    ensures RowsFit(g, words, key.a) && RowsFit(g, words, key.b) && Lifting(g, x, d)
    ensures Leaves(g, DownRows(g, words, key.b), y0) && Leaves(g, DownRows(g, words, key.a), y1)
    ensures Rectangle(d, |g.partitions|, Pow2(g.e)) && Rectangle(key.errors, |g.keyPartitions|, Pow2(g.e))
    ensures forall p :: 0 <= p < |g.partitions| ==> 0 <= g.partitions[p].index < |key.errors|
    ensures Switched(Moduli(g), g.chains, key.secret, Noise(g, d, key), Stack(g, x), key.former, Pow2(g.e), y0, r0, y1, r1, error)
  {
    hide *;
    d := LiftAll(g, x);
    KeyFits(g, x, words, key, d);
    LevelSizes(g);
    WordCount(g, x, words);
    var w0, w1 := DownRows(g, words, key.b), DownRows(g, words, key.a);
    IdentityEverywhere(g, x, words, key, d, w0, w1);
    var v0, v1;
    v0, y0, r0, v1, y1, r1, error := DivisionSwitches(Moduli(g), g.inverses, g.chains, w0, w1, key.secret, Noise(g, d, key), Stack(g, x), key.former, Pow2(g.e));
    LeavesFrom(g, w0, v0, y0, r0);
    LeavesFrom(g, w1, v1, y1, r1);
  }

  lemma WordCount(g: Level, x: seq<seq<int>>, words: seq<seq<seq<int>>>)
    requires AllWords(g, x, words)
    ensures |words| == |g.tables|
  {
  }

  lemma LeavesFrom(g: Level, rows: seq<seq<int>>, values: seq<int>, y: seq<int>, r: seq<int>)
    requires g.chains <= |g.tables| == |rows| && SwitchedDivision.Rows(rows, Moduli(g), Pow2(g.e))
    requires IsDivided(rows, Moduli(g), g.inverses, g.chains, Pow2(g.e), values, y, r)
    ensures Leaves(g, rows, y)
  {
    hide ModDown.Down, ModDown.Removed, ModDown.Shape, Pow2, Cong, CoefficientDivided, Column, LeftAt;
    forall c, i | 0 <= c < |y| && 0 <= i < g.chains ensures LeftAt(g, Column(rows, c), y[c], i) {
      DownAt(g, Column(rows, c), values[c], y[c], r[c], i);
    }
  }

  lemma DownAt(g: Level, column: seq<int>, value: int, y: int, r: int, i: nat)
    requires i < g.chains <= |g.tables| == |column| && CoefficientDivided(column, Moduli(g), g.inverses, g.chains, value, y, r)
    ensures LeftAt(g, column, y, i)
  {
    hide ModDown.Down, ModDown.Removed, ModDown.Shape, Cong;
    assert Moduli(g)[i].q == g.tables[i].q;
  }

  lemma IdentityFrom(g: Level, x: seq<seq<int>>, words: seq<seq<int>>, key: Key, d: seq<seq<int>>, w0: seq<seq<int>>, w1: seq<seq<int>>, i: nat, c: nat)
    requires |w0| == |w1| == |g.tables| && i < |g.tables| && c < Pow2(g.e) && DownIs(g, x, words, key, d, i, w0[i], w1[i])
    ensures IdentityAt(Moduli(g), g.chains, w0, w1, key.secret, Noise(g, d, key), Stack(g, x), key.former, i, c)
    ensures |w0[i]| == |w1[i]| == |Stack(g, x)[i]| == Pow2(g.e) && 0 <= w0[i][c] < Moduli(g)[i].q && 0 <= w1[i][c] < Moduli(g)[i].q
  {
    hide Pow2, Noise, Plus, Times, Cong, ModDown.Removed, Padded;
  }

  lemma StackRows(g: Level, x: seq<seq<int>>, w0: seq<seq<int>>, w1: seq<seq<int>>, n: nat)
    requires |w0| == |w1| == |g.tables| && forall i :: 0 <= i < |g.tables| ==> |w0[i]| == |w1[i]| == |Stack(g, x)[i]| == n
    requires forall i, c :: 0 <= i < |g.tables| && 0 <= c < n ==> 0 <= w0[i][c] < Moduli(g)[i].q && 0 <= w1[i][c] < Moduli(g)[i].q
    ensures SwitchedDivision.Rows(w0, Moduli(g), n) && SwitchedDivision.Rows(w1, Moduli(g), n) && Rectangle(Stack(g, x), |g.tables|, n)
  {
    hide Stack, Moduli;
  }

  ghost function Tops(g: Level): (tops: seq<int>)
    requires forall p :: 0 <= p < |g.partitions| ==> Inside(g, p)
    ensures |tops| == |g.partitions|
  {
    seq(|g.partitions|, p requires 0 <= p < |g.partitions| => Product(Part(g, p), |Part(g, p)|))
  }

  /** N * E * (sum of the products of the partitions) + 3P + N * 3P * S. */
  ghost function Bound(g: Level, noise: int, size: int): int
    requires (forall p :: 0 <= p < |g.partitions| ==> Inside(g, p)) && g.chains <= |g.tables|
  {
    Pow2(g.e) * (Bounds(Tops(g), |g.partitions|) * noise) + 3 * Specials(g) + Pow2(g.e) * ((3 * Specials(g)) * size)
  }

  ghost predicate SmallKey(g: Level, key: Key, noise: int, size: int) {
    && |key.errors| == |g.keyPartitions| && (forall k :: 0 <= k < |key.errors| ==> Small(key.errors[k], noise))
    && Small(key.secret, size) && size >= 0
  }

  /** Y0 + Y1 * S = x * F + error on every chain, with one integer error for all of them. */
  ghost predicate SwitchesTo(g: Level, x: seq<seq<int>>, key: Key, y0: seq<int>, y1: seq<int>, error: seq<int>, c: nat) {
    && c < |y0| == |y1| == |key.secret| == |key.former| == |error| && |x| == g.chains <= |g.tables|
    && forall i :: 0 <= i < g.chains ==>
         |x[i]| == |error| && Cong(y0[c] + Times(y1, key.secret)[c], error[c] + Times(x[i], key.former)[c], g.tables[i].q)
  }

  /** Key switching is correct: the words that mod_down leaves on the chains are the canonical residues of
      integer polynomials Y0 and Y1, and Y0 + Y1 * S is the digits times the old secret plus an error of
      which P times every coefficient stays below the bound. */
  lemma KeySwitchingIsCorrect(g: Level, x: seq<seq<int>>, words: seq<seq<seq<int>>>, key: Key, noise: int, size: int)
    returns (y0: seq<int>, y1: seq<int>, error: seq<int>)
    requires ValidLevel(g) && Digest(g, x) && AllWords(g, x, words) && KeyFor(g, key) && SmallKey(g, key, noise, size)
    ensures RowsFit(g, words, key.a) && RowsFit(g, words, key.b)
    ensures Leaves(g, DownRows(g, words, key.b), y0) && Leaves(g, DownRows(g, words, key.a), y1) && |error| == Pow2(g.e)
    ensures forall c :: 0 <= c < |error| ==> SwitchesTo(g, x, key, y0, y1, error, c)
    ensures g.chains <= |g.tables| && forall p :: 0 <= p < |g.partitions| ==> Inside(g, p)
    ensures forall c :: 0 <= c < |error| ==> -Bound(g, noise, size) <= Specials(g) * error[c] <= Bound(g, noise, size)
  {
    hide *;
    var d, r0, r1;
    d, y0, r0, y1, r1, error := KeySwitches(g, x, words, key);
    LevelSizes(g);
    forall p | 0 <= p < |g.partitions| ensures Inside(g, p) { PartFacts(g, p); PartInside(g, p); }
    DigestSizes(g, x);
    SwitchedSizes(g, x, key, d, y0, r0, y1, r1, error);
    forall c | 0 <= c < |error|
      ensures SwitchesTo(g, x, key, y0, y1, error, c)
      ensures -Bound(g, noise, size) <= Specials(g) * error[c] <= Bound(g, noise, size)
    {
      SwitchesAt(g, x, key, d, y0, r0, y1, r1, error, c);
      BoundAt(g, x, key, d, y0, r0, y1, r1, error, noise, size, c);
    }
  }

  lemma PartInside(g: Level, p: nat)
    requires ValidPart(g, p)
    ensures Inside(g, p)
  {
  }

  lemma SwitchedSizes(g: Level, x: seq<seq<int>>, key: Key, d: seq<seq<int>>, y0: seq<int>, r0: seq<int>, y1: seq<int>, r1: seq<int>, error: seq<int>)
    requires Rectangle(d, |g.partitions|, Pow2(g.e)) && Rectangle(key.errors, |g.keyPartitions|, Pow2(g.e))
    requires forall p :: 0 <= p < |g.partitions| ==> 0 <= g.partitions[p].index < |key.errors|
    requires Switched(Moduli(g), g.chains, key.secret, Noise(g, d, key), Stack(g, x), key.former, Pow2(g.e), y0, r0, y1, r1, error)
    ensures |error| == Pow2(g.e)
  {
  }

  lemma SwitchesAt(g: Level, x: seq<seq<int>>, key: Key, d: seq<seq<int>>, y0: seq<int>, r0: seq<int>, y1: seq<int>, r1: seq<int>, error: seq<int>, c: nat)
    requires Rectangle(d, |g.partitions|, Pow2(g.e)) && Rectangle(key.errors, |g.keyPartitions|, Pow2(g.e))
    requires forall p :: 0 <= p < |g.partitions| ==> 0 <= g.partitions[p].index < |key.errors|
    requires Switched(Moduli(g), g.chains, key.secret, Noise(g, d, key), Stack(g, x), key.former, Pow2(g.e), y0, r0, y1, r1, error)
    requires c < |error| && |x| == g.chains <= |g.tables| && forall i :: 0 <= i < |x| ==> |x[i]| == Pow2(g.e)
    ensures SwitchesTo(g, x, key, y0, y1, error, c)
  {
    hide Cong, Times, Noise, Leftover, ModDown.Removed, Pow2, Chosen;
    assert SwitchedAt(Moduli(g), g.chains, key.secret, Noise(g, d, key), Stack(g, x), key.former, Pow2(g.e), y0, r0, y1, r1, error[c], c);
    forall i | 0 <= i < g.chains
      ensures Cong(y0[c] + Times(y1, key.secret)[c], error[c] + Times(x[i], key.former)[c], g.tables[i].q)
    {
      assert Stack(g, x)[i] == x[i] && Moduli(g)[i].q == g.tables[i].q;
    }
  }

  lemma BoundAt(g: Level, x: seq<seq<int>>, key: Key, d: seq<seq<int>>, y0: seq<int>, r0: seq<int>, y1: seq<int>, r1: seq<int>, error: seq<int>,
                noise: int, size: int, c: nat)
    requires Lifting(g, x, d) && SmallKey(g, key, noise, size) && (forall p :: 0 <= p < |g.partitions| ==> Inside(g, p))
    requires Rectangle(d, |g.partitions|, Pow2(g.e)) && Rectangle(key.errors, |g.keyPartitions|, Pow2(g.e))
    requires forall p :: 0 <= p < |g.partitions| ==> 0 <= g.partitions[p].index < |key.errors|
    requires Switched(Moduli(g), g.chains, key.secret, Noise(g, d, key), Stack(g, x), key.former, Pow2(g.e), y0, r0, y1, r1, error)
    requires c < |error| && g.chains <= |g.tables|
    ensures -Bound(g, noise, size) <= Specials(g) * error[c] <= Bound(g, noise, size)
  {
    hide *;
    RowSizes(d, |g.partitions|, Pow2(g.e));
    RowSizes(key.errors, |g.keyPartitions|, Pow2(g.e));
    ChosenSizes(g, key.errors, Pow2(g.e));
    SmallKeyMeans(g, key, noise, size);
    SwitchedShape(g, x, key, d, y0, r0, y1, r1, error);
    forall p | 0 <= p < |d| ensures Small(d[p], Tops(g)[p]) && Small(Chosen(g, key.errors)[p], noise) {
      LiftSmall(g, x, d, p);
    }
    NoiseIs(g, d, key);
    BoundIs(g, noise, size);
    ErrorBound(Moduli(g), g.chains, key.secret, d, Chosen(g, key.errors), Stack(g, x), key.former, Pow2(g.e), y0, r0, y1, r1, error, Tops(g), noise, size, c);
  }

  lemma RowSizes(rows: seq<seq<int>>, count: nat, n: nat)
    requires Rectangle(rows, count, n)
    ensures |rows| == count && forall p :: 0 <= p < count ==> |rows[p]| == n
  {
  }

  lemma ChosenSizes(g: Level, rows: seq<seq<int>>, n: nat)
    requires (forall p :: 0 <= p < |g.partitions| ==> 0 <= g.partitions[p].index < |rows|) && forall k :: 0 <= k < |rows| ==> |rows[k]| == n
    ensures forall p :: 0 <= p < |g.partitions| ==> Chosen(g, rows)[p] == rows[g.partitions[p].index] && |Chosen(g, rows)[p]| == n
  {
  }

  lemma SmallKeyMeans(g: Level, key: Key, noise: int, size: int)
    requires SmallKey(g, key, noise, size)
    ensures (forall k :: 0 <= k < |key.errors| ==> Small(key.errors[k], noise)) && Small(key.secret, size) && size >= 0
  {
    hide Small;
  }

  lemma SwitchedShape(g: Level, x: seq<seq<int>>, key: Key, d: seq<seq<int>>, y0: seq<int>, r0: seq<int>, y1: seq<int>, r1: seq<int>, error: seq<int>)
    requires Rectangle(d, |g.partitions|, Pow2(g.e)) && Rectangle(key.errors, |g.keyPartitions|, Pow2(g.e))
    requires forall p :: 0 <= p < |g.partitions| ==> 0 <= g.partitions[p].index < |key.errors|
    requires Switched(Moduli(g), g.chains, key.secret, Noise(g, d, key), Stack(g, x), key.former, Pow2(g.e), y0, r0, y1, r1, error)
    ensures |error| == |key.secret| == Pow2(g.e) && |d| == |g.partitions| == |Chosen(g, key.errors)|
  {
    hide Noise, Pow2, Leftover, Times, Cong, ModDown.Removed;
    assert SwitchedAt(Moduli(g), g.chains, key.secret, Noise(g, d, key), Stack(g, x), key.former, Pow2(g.e), y0, r0, y1, r1, error[0], 0);
  }

  lemma LiftSmall(g: Level, x: seq<seq<int>>, d: seq<seq<int>>, p: nat)
    requires Lifting(g, x, d) && p < |d| && forall k :: 0 <= k < |g.partitions| ==> Inside(g, k)
    ensures |d| == |g.partitions| && Small(d[p], Tops(g)[p])
  {
    hide IsLift, Product, Inside, Pow2;
    assert LiftsRow(g, x, d[p], p);
    forall c | 0 <= c < |d[p]| ensures -Tops(g)[p] <= d[p][c] <= Tops(g)[p] {
      LiftRange(g, x, d[p][c], p, c);
    }
  }

  lemma NoiseIs(g: Level, d: seq<seq<int>>, key: Key)
    requires Rectangle(d, |g.partitions|, Pow2(g.e)) && Rectangle(key.errors, |g.keyPartitions|, Pow2(g.e)) && |d| == |g.partitions|
    requires forall p :: 0 <= p < |g.partitions| ==> 0 <= g.partitions[p].index < |key.errors|
    requires forall p :: 0 <= p < |d| ==> |d[p]| == |Chosen(g, key.errors)[p]| == Pow2(g.e)
    ensures Noise(g, d, key) == SumOfProducts(d, Chosen(g, key.errors), |d|, Pow2(g.e))
  {
    hide SumOfProducts, Pow2;
  }

  lemma BoundIs(g: Level, noise: int, size: int)
    requires (forall p :: 0 <= p < |g.partitions| ==> Inside(g, p)) && g.chains <= |g.tables|
    ensures Specials(g) == ModDown.Removed(Moduli(g), |Moduli(g)|, |Moduli(g)| - g.chains)
    ensures Bound(g, noise, size) ==
      Pow2(g.e) * (Bounds(Tops(g), |g.partitions|) * noise) + 3 * Specials(g) + Pow2(g.e) * ((3 * Specials(g)) * size)
  {
    hide ModDown.Removed, Pow2, Bounds, Tops, Product;
  }

  // ---------- the error itself ----------

  /** No chain is larger than a special prime. */
  ghost predicate LargeSpecials(g: Level) {
    forall i: nat, j: nat :: i < g.chains <= j < |g.tables| ==> NotAbove(g, i, j)
  }

  ghost predicate NotAbove(g: Level, i: nat, j: nat) {
    i < |g.tables| && j < |g.tables| && 0 < g.tables[i].q <= g.tables[j].q
  }

  /** A partition has at most as many chains as there are special primes, so its product is at most P. */
  lemma PartBelowSpecials(g: Level, p: nat)
    requires ValidLevel(g) && LargeSpecials(g) && p < |g.partitions|
    ensures Inside(g, p) && g.chains <= |g.tables| && Product(Part(g, p), |Part(g, p)|) <= Specials(g)
  {
    hide *;
    LevelSizes(g);
    PartFacts(g, p);
    PartInside(g, p);
    PartWidth(g, p);
    FactorsBelow(g, p, |Part(g, p)|);
    MoreFactors(Moduli(g), |Part(g, p)|, |g.tables| - g.chains);
    SpecialsIs(g);
  }

  lemma PartWidth(g: Level, p: nat)
    requires ValidLevel(g) && Inside(g, p)
    ensures g.chains <= |g.tables| && |Part(g, p)| <= |g.tables| - g.chains
  {
    LevelPartitions(g);
    hide ValidLevel, IsPartition, PartitionCount;
    Blocks(g.partitions, g.chains, g.keyChains, |g.tables| - g.chains);
  }

  lemma SpecialsIs(g: Level)
    requires g.chains <= |g.tables|
    ensures Specials(g) == ModDown.Removed(Moduli(g), |g.tables|, |g.tables| - g.chains)
  {
  }

  lemma {:induction false} FactorsBelow(g: Level, p: nat, k: nat)
    requires LargeSpecials(g) && Inside(g, p) && k <= |Part(g, p)| && g.chains <= |g.tables| && k <= |g.tables| - g.chains
    ensures 0 < Product(Part(g, p), k) <= ModDown.Removed(Moduli(g), |g.tables|, k)
  {
    hide *;
    if k > 0 {
      FactorsBelow(g, p, k - 1);
      PrimeBelow(g, p, k);
      FactorStep(g, p, k);
    } else {
      NoFactors(Part(g, p), Moduli(g));
    }
  }

  lemma NoFactors(part: seq<Modulus>, m: seq<Modulus>)
    ensures Product(part, 0) == 1 == ModDown.Removed(m, |m|, 0)
  {
  }

  lemma PrimeBelow(g: Level, p: nat, k: nat)
    requires LargeSpecials(g) && Inside(g, p) && 0 < k <= |Part(g, p)| && g.chains <= |g.tables| && k <= |g.tables| - g.chains
    ensures 0 < Part(g, p)[k - 1].q <= Moduli(g)[|g.tables| - k].q
  {
    var i: nat, j: nat := g.partitions[p].indices[k - 1], |g.tables| - k;
    assert i < g.chains <= j < |g.tables|;
    assert NotAbove(g, i, j);
    assert Part(g, p)[k - 1] == Moduli(g)[i];
  }

  lemma FactorStep(g: Level, p: nat, k: nat)
    requires Inside(g, p) && 0 < k <= |Part(g, p)| && k <= |g.tables|
    requires 0 < Product(Part(g, p), k - 1) <= ModDown.Removed(Moduli(g), |g.tables|, k - 1)
    requires 0 < Part(g, p)[k - 1].q <= Moduli(g)[|g.tables| - k].q
    ensures 0 < Product(Part(g, p), k) <= ModDown.Removed(Moduli(g), |g.tables|, k)
  {
    hide Part, Moduli;
    var a, b := Product(Part(g, p), k - 1), ModDown.Removed(Moduli(g), |g.tables|, k - 1);
    var x, y := Part(g, p)[k - 1].q, Moduli(g)[|g.tables| - k].q;
    PositiveProduct(a, x);
    TimesMonotone(a, b, x);
    TimesMonotone(x, y, b);
    TimesCommute(b, x);
    TimesCommute(b, y);
  }

  lemma {:induction false} MoreFactors(m: seq<Modulus>, k: nat, s: nat)
    requires Base(m) && k <= s <= |m|
    ensures 0 < ModDown.Removed(m, |m|, k) <= ModDown.Removed(m, |m|, s)
  {
    if s > k {
      MoreFactors(m, k, s - 1);
      BaseAt(m, |m| - s);
      AtLeast(m[|m| - s].q, ModDown.Removed(m, |m|, s - 1));
      TimesCommute(m[|m| - s].q, ModDown.Removed(m, |m|, s - 1));
    } else {
      RemovedPositive(m, k);
    }
  }

  lemma {:induction false} RemovedPositive(m: seq<Modulus>, s: nat)
    requires Base(m) && s <= |m|
    ensures ModDown.Removed(m, |m|, s) > 0
  {
    if s > 0 {
      RemovedPositive(m, s - 1);
      BaseAt(m, |m| - s);
      PositiveProduct(ModDown.Removed(m, |m|, s - 1), m[|m| - s].q);
    }
  }

  lemma {:induction false} BoundsBelow(g: Level, n: nat)
    requires ValidLevel(g) && LargeSpecials(g) && n <= |g.partitions| && forall p :: 0 <= p < |g.partitions| ==> Inside(g, p)
    ensures g.chains <= |g.tables| && Bounds(Tops(g), n) <= n * Specials(g)
  {
    hide *;
    LevelSizes(g);
    if n > 0 {
      BoundsBelow(g, n - 1);
      PartBelowSpecials(g, n - 1);
      BoundsStep(g, n);
    } else {
      NoBounds(Tops(g), Specials(g));
    }
  }

  lemma NoBounds(tops: seq<int>, p: int)
    ensures Bounds(tops, 0) == 0 * p
  {
  }

  lemma BoundsStep(g: Level, n: nat)
    requires 0 < n <= |g.partitions| && g.chains <= |g.tables| && forall p :: 0 <= p < |g.partitions| ==> Inside(g, p)
    requires Bounds(Tops(g), n - 1) <= (n - 1) * Specials(g) && Product(Part(g, n - 1), |Part(g, n - 1)|) <= Specials(g)
    ensures Bounds(Tops(g), n) <= n * Specials(g)
  {
    hide Specials, Inside, Part, Product;
    assert n * Specials(g) == (n - 1) * Specials(g) + Specials(g);
  }

  lemma DivideBound(p: int, error: int, n: nat, parts: nat, bounds: int, noise: int, size: int)
    requires p > 0 && noise >= 0 && size >= 0 && bounds <= parts * p
    requires -(n * (bounds * noise) + 3 * p + n * ((3 * p) * size)) <= p * error <= n * (bounds * noise) + 3 * p + n * ((3 * p) * size)
    ensures -(n * (parts * noise + 3 * size) + 3) <= error <= n * (parts * noise + 3 * size) + 3
  {
    var top := n * (parts * noise + 3 * size) + 3;
    hide *;
    TimesMonotone(bounds, parts * p, noise);
    TimesMonotone(bounds * noise, (parts * p) * noise, n);
    TimesCommute(n, bounds * noise);
    TimesCommute(n, (parts * p) * noise);
    PullOut(p, n, parts, noise, size);
    CancelPositive(p, error, top);
    CancelPositive(p, -error, top);
    TimesNegative(p, error);
  }

  lemma PullOut(p: int, n: int, parts: int, noise: int, size: int)
    ensures n * ((parts * p) * noise) + 3 * p + n * ((3 * p) * size) == p * (n * (parts * noise + 3 * size) + 3)
  {
    assert (parts * p) * noise == p * (parts * noise);
    assert (3 * p) * size == p * (3 * size);
    Swap(n, p, parts * noise);
    Swap(n, p, 3 * size);
    Distributes(n, parts * noise, 3 * size);
    Distributes(p, n * (parts * noise), n * (3 * size));
  }

  lemma Swap(a: int, b: int, c: int)
    ensures a * (b * c) == b * (a * c)
  {
  }

  lemma Distributes(a: int, b: int, c: int)
    ensures a * (b + c) == a * b + a * c
  {
  }

  lemma TimesNegative(p: int, x: int)
    ensures p * -x == -(p * x)
  {
  }

  lemma CancelPositive(p: int, a: int, b: int)
    requires p > 0
    ensures p * a <= p * b ==> a <= b
  {
    if a > b { AtLeast(a - b, p); Distributes(p, a, -b); TimesNegative(p, b); TimesCommute(p, a - b); }
  }

  /** The error of a key switch: with n partitions, errors of at most E in the key and a secret of at most S,
      every coefficient is at most N * (n * E + 3 * S) + 3, where n is the number of chains divided by the
      number of special primes, rounded up. */
  lemma SwitchingErrorIsSmall(g: Level, key: Key, noise: int, size: int, error: seq<int>)
    requires ValidLevel(g) && LargeSpecials(g) && KeyFor(g, key) && SmallKey(g, key, noise, size)
    requires g.chains <= |g.tables| && forall p :: 0 <= p < |g.partitions| ==> Inside(g, p)
    requires forall c :: 0 <= c < |error| ==> -Bound(g, noise, size) <= Specials(g) * error[c] <= Bound(g, noise, size)
    ensures var specials := |g.tables| - g.chains; specials > 0 && |g.partitions| == (g.chains + specials - 1) / specials
    ensures forall c :: 0 <= c < |error| ==>
      -(Pow2(g.e) * (|g.partitions| * noise + 3 * size) + 3) <= error[c] <= Pow2(g.e) * (|g.partitions| * noise + 3 * size) + 3
  {
    hide *;
    NoiseSign(g, key, noise, size);
    BoundsBelow(g, |g.partitions|);
    LevelSizes(g);
    CountOf(g);
    RemovedPositive(Moduli(g), |g.tables| - g.chains);
    SpecialsIs(g);
    BoundIs(g, noise, size);
    forall c | 0 <= c < |error|
      ensures -(Pow2(g.e) * (|g.partitions| * noise + 3 * size) + 3) <= error[c] <= Pow2(g.e) * (|g.partitions| * noise + 3 * size) + 3
    {
      DivideBound(Specials(g), error[c], Pow2(g.e), |g.partitions|, Bounds(Tops(g), |g.partitions|), noise, size);
    }
  }

  lemma CountOf(g: Level)
    requires ValidLevel(g)
    ensures var specials := |g.tables| - g.chains; specials > 0 && |g.partitions| == (g.chains + specials - 1) / specials
  {
    LevelPartitions(g);
    hide IsPartition, ValidLevel;
  }

  lemma NoiseSign(g: Level, key: Key, noise: int, size: int)
    requires ValidLevel(g) && KeyFor(g, key) && SmallKey(g, key, noise, size)
    ensures noise >= 0 && size >= 0
  {
    LevelSizes(g);
    Indices(g);
    assert KeyMade(g, key, 0, 0);
    hide *;
    MadeMeans(g, key, 0, 0);
    KeyShapes(g, key, 0);
    RowSizes(key.errors, |g.keyPartitions|, Pow2(g.e));
    SmallKeyMeans(g, key, noise, size);
    SmallAt(key.errors[0], noise);
  }

  lemma SmallAt(s: seq<int>, bound: int)
    requires |s| > 0 && Small(s, bound)
    ensures bound >= 0
  {
    assert -bound <= s[0] <= bound;
  }
}
