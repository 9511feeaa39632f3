/** Mixed-radix conversion and exact base extension (src/ckks/core_key_switch.cpp), with the constants
    of src/ckks/precomputed.cpp. One column of rows, that is one coefficient, is enough: no kernel
    mixes coefficients. */
module BaseExtension {
  import opened Congruence
  import opened Montgomery
  import opened Kernels
  import opened Arithmetic
  import opened ResidueBase
  import opened NttLoops

  // ---------- the scalar kernels ----------

  /** t * R lies within q * (R - 1) above a product below q * R, so t stays below 2q. */
  lemma LazyBound(t: int, p: int, q: int)
    requires 0 < q && 0 <= p < q * R && p <= t * R && t * R <= p + q * (R - 1)
    ensures 0 <= t < 2 * q
  {
  }

  lemma BelowRadix(x: int, c: int, q: int)
    requires 0 <= x < R && 0 <= c < q
    ensures 0 <= x * c < q * R
  {
    ProductBound(x, R - 1, c, q);
  }

  /** A word below the radix times a constant that stands for a: lazily reduced. */
  lemma EnterConstant(x: int, c: int, a: int, q: int, k: int)
    requires MontModulus(q, k) && 0 <= x < R && 0 <= c < q && Cong(c, a * R, q)
    ensures var t := MontMultScalar(x, c, q, k); 0 <= t < 2 * q && Cong(t, x * a, q)
  {
    hide MontMultScalar, Cong;
    var t := MontMultScalar(x, c, q, k);
    MontByConstant(x, c, q, k);
    BelowRadix(x, c, q);
    LazyBound(t, x * c, q);
    assert x * c == c * x && a * x == x * a;
    MontMeaning(t, c, x, q, k, a);
  }

  lemma GuardOnce(v: int, q: int)
    requires 0 <= v < 2 * q
    ensures 0 <= Guard(v, q) < q && Cong(Guard(v, q), v, q)
  {
    FromQuotient(Guard(v, q), v, q, if v < q then 0 else -1);
  }

  lemma AddGuardOnce(x: int, y: int, q: int)
    requires 4 * q <= R && 0 <= x < 2 * q && 0 <= y < 2 * q
    ensures 0 <= AddGuard(x, y, 2 * q) < 2 * q && Cong(AddGuard(x, y, 2 * q), x + y, q)
  {
    FromQuotient(AddGuard(x, y, 2 * q), x + y, q, if x + y < 2 * q then 0 else -2);
  }

  lemma SubGuardOnce(x: int, y: int, q: int)
    requires 4 * q <= R && 0 <= x < 2 * q && 0 <= y < 2 * q
    ensures 0 <= SubGuard(x, y, 2 * q) < 2 * q && Cong(SubGuard(x, y, 2 * q), x - y, q)
  {
    FromQuotient(SubGuard(x, y, 2 * q), x - y, q, if x + 2 * q - y < 2 * q then 2 else 0);
  }

  /** mont_sub_enter_reduce_2q_to_q: the reduced quotient of a difference. */
  lemma SubEnterReduceMeaning(x: int, y: int, c: int, p: int, q: int, k: int)
    requires MontModulus(q, k) && 0 <= x < 2 * q && 0 <= y < 2 * q && 0 <= c < q && Cong(c * p, R, q)
    ensures var d := Scalar(SubEnterReduce(c), x, y, y, q, k); 0 <= d < q && Cong(d * p, x - y, q)
  {
    hide MontMultScalar, Cong, Guard, SubGuard;
    var diff := SubGuard(x, y, 2 * q);
    SubGuardOnce(x, y, q);
    MontByConstant(diff, c, q, k);
    BelowRadix(diff, c, q);
    var t := MontMultScalar(diff, c, q, k);
    LazyBound(t, diff * c, q);
    GuardOnce(t, q);
    var j := RadixInverse(q, k);
    QuotientAlgebra(t, diff, c, p, j, q);
    MulRight(Guard(t, q), t, p, q);
    Trans(Guard(t, q) * p, t * p, diff, q);
    Trans(Guard(t, q) * p, diff, x - y, q);
  }

  lemma QuotientAlgebra(t: int, diff: int, c: int, p: int, j: int, q: int)
    requires Cong(t * R, diff * c, q) && Cong(c * p, R, q) && Cong(R * j, 1, q)
    ensures Cong(t * p, diff, q)
  {
    hide *;
    MulRight(t * R, diff * c, p, q);
    Scale(diff, c * p, R, q);
    assert (t * R) * p == R * (t * p) && (diff * c) * p == diff * (c * p) && diff * R == R * diff;
    Trans(R * (t * p), diff * (c * p), R * diff, q);
    Cancel(R, j, t * p, diff, q);
  }

  /** mont_enter_add, with and without the final reduction: multiply by a constant and accumulate. */
  lemma EnterAddMeaning(x: int, y: int, c: int, a: int, q: int, k: int)
    requires MontModulus(q, k) && 0 <= x < R && 0 <= y < 2 * q && 0 <= c < q && Cong(c, a * R, q)
    ensures var v := Scalar(EnterAdd(c), x, x, y, q, k); 0 <= v < 2 * q && Cong(v, y + x * a, q)
    ensures var v := Scalar(EnterAddReduce(c), x, x, y, q, k); 0 <= v < q && Cong(v, y + x * a, q)
  {
    hide MontMultScalar, Cong, Guard, AddGuard;
    EnterConstant(x, c, a, q, k);
    var t := MontMultScalar(x, c, q, k);
    AddGuardOnce(t, y, q);
    GuardOnce(AddGuard(t, y, 2 * q), q);
    Refl(y, q);
    Add(t, x * a, y, y, q);
    Trans(AddGuard(t, y, 2 * q), t + y, y + x * a, q);
    Trans(Guard(AddGuard(t, y, 2 * q), q), AddGuard(t, y, 2 * q), y + x * a, q);
  }

  // ---------- the constants ----------

  /** The constants of one partition: inverses of the products of the leading moduli, and those
      products themselves, modulo the later moduli and modulo the extended base. */
  datatype PartitionParameters = PartitionParameters(
    inverse: seq<int>, mult: seq<seq<int>>, multSquared: seq<seq<int>>)

  ghost predicate ValidInverse(p: PartitionParameters, m: seq<Modulus>) {
    |p.inverse| == |m| - 1 && forall c :: 0 <= c < |p.inverse| ==> InverseConstant(p.inverse[c], Product(m, c + 1), m[c + 1].q)
  }

  ghost predicate InverseConstant(c: int, p: int, q: int) {
    0 <= c < q && Cong(c * p, R, q)
  }

  ghost predicate FactorConstant(c: int, p: int, q: int) {
    0 <= c < q && Cong(c, p * R, q)
  }

  ghost predicate ValidMult(p: PartitionParameters, m: seq<Modulus>) {
    && |m| - 2 <= |p.mult| < |m|
    && forall c :: 0 <= c < |p.mult| ==> ValidMultRow(p.mult[c], m, c)
  }

  ghost predicate ValidMultRow(row: seq<int>, m: seq<Modulus>, c: nat) {
    && c + 2 <= |m| && |row| == |m| - (c + 2)
    && forall i :: 0 <= i < |row| ==> FactorConstant(row[i], Product(m, c + 1), m[c + 2 + i].q)
  }

  ghost predicate ValidSquared(p: PartitionParameters, m: seq<Modulus>, ext: seq<Modulus>) {
    && |p.multSquared| == |m| - 1
    && forall c :: 0 <= c < |p.multSquared| ==> ValidSquaredRow(p.multSquared[c], m, ext, c)
  }

  ghost predicate ValidSquaredRow(row: seq<int>, m: seq<Modulus>, ext: seq<Modulus>, c: nat) {
    && c + 1 <= |m| && |row| == |ext|
    && forall i :: 0 <= i < |row| ==> FactorConstant(row[i], Product(m, c + 1) * R, ext[i].q)
  }

  // ---------- mixed-radix conversion ----------

  ghost predicate Shape(x: seq<int>, m: seq<Modulus>, p: PartitionParameters) {
    && |x| == |m| && |p.inverse| == |m| - 1 && |m| - 2 <= |p.mult| < |m|
    && forall i :: 0 <= i < |p.mult| ==> |p.mult[i]| == |m| - (i + 2)
  }

  /** The column of the work buffer after `c` rounds; before the first round every row holds the first
      residue. */
  ghost function Stage(x: seq<int>, m: seq<Modulus>, p: PartitionParameters, c: nat): (y: seq<int>)
    requires Shape(x, m, p) && c < |m|
    ensures |y| == |m|
  {
    if c == 0 then seq(|m|, j => x[0]) else Round(x, m, p, c, Stage(x, m, p, c - 1))
  }

  /** Round c fixes row c and adds its contribution to the rows below. */
  ghost function Round(x: seq<int>, m: seq<Modulus>, p: PartitionParameters, c: nat, y: seq<int>): (z: seq<int>)
    requires Shape(x, m, p) && 0 < c < |m| && |y| == |m|
    ensures |z| == |m|
  {
    var d := Scalar(SubEnterReduce(p.inverse[c - 1]), x[c], y[c], y[c], m[c].q, m[c].k);
    seq(|m|, j requires 0 <= j < |m| =>
      if j < c then y[j]
      else if j == c then d
      else Scalar(EnterAddReduce(p.mult[c - 1][j - c - 1]), d, d, y[j], m[j].q, m[j].k))
  }

  /** Rows up to c hold digits; the rows after hold their value so far, lazily reduced; and the
      residues up to c are met. */
  ghost predicate StageOk(x: seq<int>, m: seq<Modulus>, c: nat, y: seq<int>) {
    && |y| == |m| == |x| && c < |m| && Digits(y, m, c + 1)
    && (forall j :: c < j < |m| ==> Pending(y[j], MixedValue(y, m, c + 1), m[j].q))
    && Residues(MixedValue(y, m, c + 1), x, m, c + 1)
  }

  ghost predicate Pending(word: int, value: int, q: int) {
    0 <= word < 2 * q && Cong(word, value, q)
  }

  /** Residues as to_intt_ leaves them, each at most its modulus, and the first modulus at most twice any
      other. */
  ghost predicate Reducible(x: seq<int>, m: seq<Modulus>) {
    && |x| == |m| && |m| >= 1
    && forall j :: 0 <= j < |m| ==> 0 <= x[j] <= m[j].q && m[0].q <= 2 * m[j].q
  }

  /** Montgomery moduli are odd, so the first residue is below twice any other modulus. */
  lemma FirstResidue(x: seq<int>, m: seq<Modulus>, j: nat)
    requires Base(m) && Reducible(x, m) && j < |m|
    ensures 0 <= x[0] < 2 * m[j].q
  {
    OddModulus(m, 0);
  }

  lemma StageZero(x: seq<int>, m: seq<Modulus>, p: PartitionParameters)
    requires Base(m) && Reducible(x, m) && ValidInverse(p, m) && ValidMult(p, m)
    ensures Shape(x, m, p) && StageOk(x, m, 0, Stage(x, m, p, 0))
  {
    hide MontModulus, Cong;
    var y := Stage(x, m, p, 0);
    assert Product(m, 0) == 1;
    MixedStep(y, m, 0);
    assert MixedValue(y, m, 1) == x[0];
    forall j | 0 <= j < |m| ensures Pending(x[0], x[0], m[j].q) {
      BaseAt(m, j);
      FirstResidue(x, m, j);
      Refl(x[0], m[j].q);
    }
  }

  /** One round. */
  lemma StageStep(x: seq<int>, m: seq<Modulus>, p: PartitionParameters, c: nat, y: seq<int>, z: seq<int>)
    requires Base(m) && Reducible(x, m) && ValidInverse(p, m) && ValidMult(p, m)
    requires c + 1 < |m| && StageOk(x, m, c, y) && Shape(x, m, p) && z == Round(x, m, p, c + 1, y)
    ensures StageOk(x, m, c + 1, z)
  {
    hide MontModulus, Cong, Product, MixedValue, Scalar, InverseConstant, FactorConstant;
    var d, value := z[c + 1], MixedValue(y, m, c + 1);
    NewDigit(x[c + 1], y[c + 1], value, p.inverse[c], Product(m, c + 1), m[c + 1]) by { BaseAt(m, c + 1); }
    MixedPrefix(y, z, m, c + 1);
    MixedStep(z, m, c + 1);
    BaseAt(m, c + 1);
    forall j | c + 1 < j < |m| ensures Pending(z[j], MixedValue(z, m, c + 2), m[j].q) {
      BaseAt(m, j);
      assert ValidMultRow(p.mult[c], m, c);
      PendingRow(d, y[j], value, p.mult[c][j - c - 2], Product(m, c + 1), m[j]);
    }
    forall i | 0 <= i < c + 2 ensures Cong(MixedValue(z, m, c + 2), x[i], m[i].q) {
      if i <= c { EarlierResidue(z, x, m, i, c + 1); }
    }
  }

  lemma NewDigit(x: int, y: int, value: int, c: int, p: int, m: Modulus)
    requires MontModulus(m.q, m.k) && 0 <= x <= m.q && Pending(y, value, m.q) && InverseConstant(c, p, m.q)
    ensures var d := Scalar(SubEnterReduce(c), x, y, y, m.q, m.k); 0 <= d < m.q && Cong(value + d * p, x, m.q)
  {
    hide MontModulus, Cong, Scalar;
    SubEnterReduceMeaning(x, y, c, p, m.q, m.k);
    var d := Scalar(SubEnterReduce(c), x, y, y, m.q, m.k);
    Sym(y, value, m.q);
    Add(value, y, d * p, x - y, m.q);
  }

  lemma PendingRow(d: int, y: int, value: int, c: int, p: int, m: Modulus)
    requires MontModulus(m.q, m.k) && 0 <= d < R && Pending(y, value, m.q) && FactorConstant(c, p, m.q)
    ensures Pending(Scalar(EnterAddReduce(c), d, d, y, m.q, m.k), value + d * p, m.q)
  {
    hide MontModulus, Cong, Scalar;
    EnterAddMeaning(d, y, c, p, m.q, m.k);
    Refl(d * p, m.q) by { BelowRadixPositive(m); }
    Add(y, value, d * p, d * p, m.q);
    Trans(Scalar(EnterAddReduce(c), d, d, y, m.q, m.k), y + d * p, value + d * p, m.q);
  }

  lemma BelowRadixPositive(m: Modulus)
    requires MontModulus(m.q, m.k)
    ensures m.q > 0
  {
  }

  lemma EarlierResidue(z: seq<int>, x: seq<int>, m: seq<Modulus>, i: nat, n: nat)
    requires Base(m) && i < n < |m| && |z| == |m| == |x| && Cong(MixedValue(z, m, n), x[i], m[i].q)
    ensures Cong(MixedValue(z, m, n + 1), x[i], m[i].q)
  {
    hide *;
    BaseAt(m, i);
    MixedStep(z, m, n);
    ProductVanishes(m, i, n);
    Scale(z[n], Product(m, n), 0, m[i].q);
    assert z[n] * 0 == 0;
    Add(MixedValue(z, m, n), x[i], z[n] * Product(m, n), 0, m[i].q);
  }

  lemma {:induction false} StageMeaning(x: seq<int>, m: seq<Modulus>, p: PartitionParameters, c: nat)
    requires Base(m) && Reducible(x, m) && ValidInverse(p, m) && ValidMult(p, m) && c < |m|
    ensures Shape(x, m, p) && StageOk(x, m, c, Stage(x, m, p, c))
  {
    hide *;
    StageZero(x, m, p);
    if c > 0 {
      StageMeaning(x, m, p, c - 1);
      StageNext(x, m, p, c - 1);
      StageStep(x, m, p, c - 1, Stage(x, m, p, c - 1), Stage(x, m, p, c));
    }
  }

  lemma StageNext(x: seq<int>, m: seq<Modulus>, p: PartitionParameters, c: nat)
    requires Shape(x, m, p) && c + 1 < |m|
    ensures |p.inverse| == |m| - 1 && |x| == |m| && (c + 2 < |m| ==> c < |p.mult| && |p.mult[c]| == |m| - (c + 2))
    ensures Stage(x, m, p, c + 1) == Round(x, m, p, c + 1, Stage(x, m, p, c))
  {
    hide Scalar, Round;
  }

  /** The digits of residues of at most the moduli: their mixed-radix value has those residues and is at
      most the product; if the first residue is reduced, it is the only such number in [0, product). */
  lemma MixedRadixDigits(x: seq<int>, m: seq<Modulus>, p: PartitionParameters)
    requires Base(m) && Coprime(m) && Reducible(x, m) && ValidInverse(p, m) && ValidMult(p, m)
    ensures |m| >= 1 && Shape(x, m, p)
    ensures var d := Stage(x, m, p, |m| - 1); var value := MixedValue(d, m, |m|);
      && Digits(d, m, |m|) && 0 <= value <= Product(m, |m|) && Residues(value, x, m, |m|)
      && (x[0] < m[0].q ==> OnlyValue(value, x, m))
  {
    hide Stage, Shape, Base, Coprime, ValidInverse, ValidMult, Product, MixedValue, Residues, Digits;
    StageMeaning(x, m, p, |m| - 1);
    var d := Stage(x, m, p, |m| - 1);
    MixedRange(d, m, |m|);
    FirstDigit(x, m, p, |m| - 1);
    if x[0] < m[0].q { IsOnlyValue(MixedValue(d, m, |m|), x, m); }
  }

  /** The only number in [0, product) with the given residues. */
  ghost predicate OnlyValue(value: int, x: seq<int>, m: seq<Modulus>) {
    && 0 <= value < Product(m, |m|) && Residues(value, x, m, |m|)
    && forall other :: 0 <= other < Product(m, |m|) && Residues(other, x, m, |m|) ==> other == value
  }

  lemma IsOnlyValue(value: int, x: seq<int>, m: seq<Modulus>)
    requires Base(m) && Coprime(m) && 0 <= value < Product(m, |m|) && Residues(value, x, m, |m|)
    ensures OnlyValue(value, x, m)
  {
    hide Base, Coprime, Product, Residues;
    forall other | 0 <= other < Product(m, |m|) && Residues(other, x, m, |m|) ensures other == value {
      UniqueValue(other, value, x, m, |m|);
    }
  }

  lemma {:induction false} FirstDigit(x: seq<int>, m: seq<Modulus>, p: PartitionParameters, c: nat)
    requires Shape(x, m, p) && c < |m|
    ensures |x| == |m| && Stage(x, m, p, c)[0] == x[0]
  {
    if c > 0 {
      FirstDigit(x, m, p, c - 1);
      hide Scalar, Shape;
    }
  }

  // ---------- the loops over rows ----------

  /** Row i of the work buffer at stage c, for all coefficients at once. */
  ghost predicate RowIs(row: seq<int>, xs: seq<seq<int>>, m: seq<Modulus>, p: PartitionParameters, c: nat, i: nat) {
    && |row| == |xs| && i < |m| && c < |m|
    && forall t :: 0 <= t < |row| ==> Shape(xs[t], m, p) && row[t] == Stage(xs[t], m, p, c)[i]
  }

  /** What the rows hold. */
  ghost function Contents(x: seq<array<int>>): (rows: seq<seq<int>>)
    reads x
    ensures |rows| == |x| && forall i :: 0 <= i < |x| ==> rows[i] == x[i][..]
  {
    seq(|x|, i requires 0 <= i < |x| reads x => x[i][..])
  }

  /** One coefficient of every row. */
  ghost function Column(rows: seq<seq<int>>, t: nat): (column: seq<int>)
    requires forall i :: 0 <= i < |rows| ==> t < |rows[i]|
    ensures |column| == |rows| && forall i :: 0 <= i < |rows| ==> column[i] == rows[i][t]
  {
    seq(|rows|, i requires 0 <= i < |rows| => rows[i][t])
  }

  lemma RowStart(row: seq<int>, xs: seq<seq<int>>, m: seq<Modulus>, p: PartitionParameters, i: nat)
    requires |row| == |xs| && i < |m| && forall t :: 0 <= t < |row| ==> Shape(xs[t], m, p) && row[t] == xs[t][0]
    ensures RowIs(row, xs, m, p, 0, i)
  {
    hide Shape;
  }

  lemma RowKept(row: seq<int>, xs: seq<seq<int>>, m: seq<Modulus>, p: PartitionParameters, c: nat, i: nat)
    requires RowIs(row, xs, m, p, c, i) && i <= c && c + 1 < |m|
    ensures RowIs(row, xs, m, p, c + 1, i)
  {
    hide Scalar, Shape, Stage;
    forall t | 0 <= t < |row| ensures row[t] == Stage(xs[t], m, p, c + 1)[i] {
      StageNext(xs[t], m, p, c);
    }
  }

  lemma RowDigit(x: seq<int>, row: seq<int>, row': seq<int>, xs: seq<seq<int>>, m: seq<Modulus>, p: PartitionParameters, c: nat)
    requires RowIs(row, xs, m, p, c, c + 1) && |x| == |row| && c + 1 < |m| == |p.inverse| + 1
    requires forall t :: 0 <= t < |x| ==> |xs[t]| == |m| && x[t] == xs[t][c + 1]
    requires row' == Apply(SubEnterReduce(p.inverse[c]), x, row, row, m[c + 1].q, m[c + 1].k)
    ensures RowIs(row', xs, m, p, c + 1, c + 1)
  {
    hide Scalar, Shape, Stage;
    forall t | 0 <= t < |row| ensures row'[t] == Stage(xs[t], m, p, c + 1)[c + 1] {
      StageNext(xs[t], m, p, c);
    }
  }

  lemma RowPending(digit: seq<int>, row: seq<int>, row': seq<int>, xs: seq<seq<int>>, m: seq<Modulus>, p: PartitionParameters, c: nat, j: nat)
    requires RowIs(row, xs, m, p, c, j) && RowIs(digit, xs, m, p, c + 1, c + 1) && c + 1 < j < |m|
    requires c < |p.mult| && |p.mult[c]| == |m| - (c + 2)
    requires row' == Apply(EnterAddReduce(p.mult[c][j - c - 2]), digit, digit, row, m[j].q, m[j].k)
    ensures RowIs(row', xs, m, p, c + 1, j)
  {
    hide Scalar, Shape, Stage;
    forall t | 0 <= t < |row| ensures row'[t] == Stage(xs[t], m, p, c + 1)[j] {
      StageNext(xs[t], m, p, c);
    }
  }

  ghost predicate Rows(y: seq<array<int>>, n: nat) {
    && (forall i :: 0 <= i < |y| ==> y[i].Length == n)
    && forall i, j :: 0 <= i < j < |y| ==> y[i] != y[j]
  }

  ghost predicate Apart(x: seq<array<int>>, y: seq<array<int>>) {
    forall i, j :: 0 <= i < |x| && 0 <= j < |y| ==> x[i] != y[j]
  }

  /** rns_to_mrs: the rows of y become the stage after the last round, column by column. */
  method RnsToMrs(x: seq<array<int>>, y: seq<array<int>>, m: seq<Modulus>, p: PartitionParameters, n: nat)
    requires |x| == |y| == |m| >= 1 && Rows(y, n) && Apart(x, y) && forall i :: 0 <= i < |x| ==> x[i].Length == n
    requires |p.inverse| == |m| - 1 && |m| - 2 <= |p.mult| < |m|
    requires forall i :: 0 <= i < |p.mult| ==> |p.mult[i]| == |m| - (i + 2)
    modifies y
    ensures Contents(x) == old(Contents(x))
    ensures forall t :: 0 <= t < n ==>
      Shape(Column(Contents(x), t), m, p) && Column(Contents(y), t) == Stage(Column(Contents(x), t), m, p, |m| - 1)
  {
    hide Stage, RowIs, Scalar, Apply, Contents, Column;
    ghost var rows := Contents(x);
    ghost var xs := seq(n, t requires 0 <= t < n => Column(rows, t));
    for j := 0 to |m|
      invariant forall i :: 0 <= i < j ==> RowIs(y[i][..], xs, m, p, 0, i)
      invariant Contents(x) == rows
    {
      Copy(x[0], y[j]);
      RowStart(y[j][..], xs, m, p, j);
    }
    for c := 0 to |m| - 1
      invariant forall i :: 0 <= i < |m| ==> RowIs(y[i][..], xs, m, p, c, i)
      invariant Contents(x) == rows
    {
      ghost var before := y[c + 1][..];
      Run(SubEnterReduce(p.inverse[c]), x[c + 1], y[c + 1], y[c + 1], m[c + 1].q, m[c + 1].k);
      RowDigit(x[c + 1][..], before, y[c + 1][..], xs, m, p, c);
      forall i | 0 <= i <= c ensures RowIs(y[i][..], xs, m, p, c + 1, i) {
        RowKept(y[i][..], xs, m, p, c, i);
      }
      for j := c + 2 to |m|
        invariant forall i :: 0 <= i < j ==> RowIs(y[i][..], xs, m, p, c + 1, i)
        invariant forall i :: j <= i < |m| ==> RowIs(y[i][..], xs, m, p, c, i)
        invariant Contents(x) == rows
      {
        ghost var row := y[j][..];
        Run(EnterAddReduce(p.mult[c][j - c - 2]), y[c + 1], y[c + 1], y[j], m[j].q, m[j].k);
        RowPending(y[c + 1][..], row, y[j][..], xs, m, p, c, j);
      }
    }
    forall t | 0 <= t < n ensures Column(Contents(y), t) == Stage(xs[t], m, p, |m| - 1) {
      ColumnIs(Contents(y), xs, m, p, |m| - 1, t);
    }
  }

  lemma ColumnIs(y: seq<seq<int>>, xs: seq<seq<int>>, m: seq<Modulus>, p: PartitionParameters, c: nat, t: nat)
    requires |y| == |m| && c < |m| && t < |xs| && forall i :: 0 <= i < |y| ==> |y[i]| == |xs|
    requires Shape(xs[t], m, p) && forall i :: 0 <= i < |y| ==> RowIs(y[i], xs, m, p, c, i)
    ensures Column(y, t) == Stage(xs[t], m, p, c)
  {
    hide Stage, Shape;
  }

  // ---------- base extension ----------

  /** The word of extended modulus i after n digits have been added to the first. */
  ghost function Lifted(d: seq<int>, p: PartitionParameters, rSquared: int, ext: Modulus, i: nat, n: nat): int
    requires n < |d| && n <= |p.multSquared| && forall c :: 0 <= c < |p.multSquared| ==> i < |p.multSquared[c]|
  {
    if n == 0 then Scalar(MontEnter(rSquared), d[0], d[0], d[0], ext.q, ext.k)
    else Scalar(EnterAdd(p.multSquared[n - 1][i]), d[n], d[n], Lifted(d, p, rSquared, ext, i, n - 1), ext.q, ext.k)
  }

  ghost predicate ValidSquares(rSquared: seq<int>, ext: seq<Modulus>) {
    |rSquared| == |ext| && forall i :: 0 <= i < |ext| ==> FactorConstant(rSquared[i], R, ext[i].q)
  }

  lemma SquaredAt(p: PartitionParameters, m: seq<Modulus>, ext: seq<Modulus>, c: nat, i: nat)
    requires ValidSquared(p, m, ext) && c + 1 < |m| && i < |ext|
    ensures |p.multSquared| == |m| - 1 && |p.multSquared[c]| == |ext|
    ensures FactorConstant(p.multSquared[c][i], Product(m, c + 1) * R, ext[i].q)
  {
    hide FactorConstant;
    assert ValidSquaredRow(p.multSquared[c], m, ext, c);
  }

  lemma DigitBelowRadix(d: seq<int>, m: seq<Modulus>, n: nat, i: nat)
    requires Base(m) && Digits(d, m, n) && i < n
    ensures 0 <= d[i] < R
  {
    hide Cong;
    BaseAt(m, i);
  }

  /** Extended modulus i receives R times the mixed-radix value, lazily reduced. */
  lemma {:induction false} LiftedMeaning(d: seq<int>, m: seq<Modulus>, p: PartitionParameters, rSquared: seq<int>,
                                         ext: seq<Modulus>, i: nat, n: nat)
    requires Base(m) && Base(ext) && n < |d| == |m| && Digits(d, m, |m|) && i < |ext|
    requires ValidSquared(p, m, ext) && ValidSquares(rSquared, ext)
    ensures |p.multSquared| == |m| - 1 && forall c :: 0 <= c < |p.multSquared| ==> i < |p.multSquared[c]|
    ensures Pending(Lifted(d, p, rSquared[i], ext[i], i, n), MixedValue(d, m, n + 1) * R, ext[i].q)
  {
    hide Cong, MixedValue, Product, Scalar, Base, Digits, MontModulus;
    DigitBelowRadix(d, m, |m|, n);
    MixedStep(d, m, n);
    forall c | 0 <= c < |p.multSquared| ensures i < |p.multSquared[c]| { SquaredAt(p, m, ext, c, i); }
    BaseAt(ext, i);
    if n == 0 {
      EnterFirst(d[0], rSquared[i], ext[i]);
      ProductOne(m);
    } else {
      SquaredAt(p, m, ext, n - 1, i);
      LiftedMeaning(d, m, p, rSquared, ext, i, n - 1);
      LiftStep(d[n], Lifted(d, p, rSquared[i], ext[i], i, n - 1), MixedValue(d, m, n), p.multSquared[n - 1][i],
               Product(m, n), ext[i]);
    }
  }

  lemma EnterFirst(d: int, c: int, m: Modulus)
    requires MontModulus(m.q, m.k) && 0 <= d < R && FactorConstant(c, R, m.q)
    ensures Pending(Scalar(MontEnter(c), d, d, d, m.q, m.k), d * R, m.q)
  {
    hide Cong, MontModulus, MontMultScalar;
    EnterConstant(d, c, R, m.q, m.k);
  }

  lemma LiftStep(d: int, y: int, value: int, c: int, p: int, m: Modulus)
    requires MontModulus(m.q, m.k) && 0 <= d < R && Pending(y, value * R, m.q) && FactorConstant(c, p * R, m.q)
    ensures Pending(Scalar(EnterAdd(c), d, d, y, m.q, m.k), (value + d * p) * R, m.q)
  {
    hide Cong, MontModulus, Scalar;
    EnterAddMeaning(d, y, c, p * R, m.q, m.k);
    BelowRadixPositive(m);
    Refl(d * (p * R), m.q);
    Add(y, value * R, d * (p * R), d * (p * R), m.q);
    assert (value + d * p) * R == value * R + d * (p * R);
    Trans(Scalar(EnterAdd(c), d, d, y, m.q, m.k), y + d * (p * R), (value + d * p) * R, m.q);
  }

  /** Exact base extension: from residues of at most the moduli every extended modulus receives, in the
      Montgomery domain, one integer with those residues, at most the product of the partition; if the
      first residue is reduced, it is the only such integer in [0, product). */
  lemma ExactBaseExtension(x: seq<int>, m: seq<Modulus>, p: PartitionParameters, rSquared: seq<int>, ext: seq<Modulus>)
    returns (value: int)
    requires Base(m) && Coprime(m) && Reducible(x, m) && ValidInverse(p, m) && ValidMult(p, m)
    requires Base(ext) && ValidSquared(p, m, ext) && ValidSquares(rSquared, ext)
    ensures |m| >= 1 && Shape(x, m, p) && |p.multSquared| == |m| - 1 && |rSquared| == |ext|
    ensures forall c :: 0 <= c < |p.multSquared| ==> |p.multSquared[c]| == |ext|
    ensures 0 <= value <= Product(m, |m|) && Residues(value, x, m, |m|)
    ensures x[0] < m[0].q ==> OnlyValue(value, x, m)
    ensures var d := Stage(x, m, p, |m| - 1);
      forall i :: 0 <= i < |ext| ==> Pending(Lifted(d, p, rSquared[i], ext[i], i, |m| - 1), value * R, ext[i].q)
  {
    hide Stage, Shape, Base, Coprime, ValidInverse, ValidMult, Product, MixedValue, Residues, Digits, Pending, Lifted, FactorConstant, OnlyValue;
    MixedRadixDigits(x, m, p);
    var d := Stage(x, m, p, |m| - 1);
    value := MixedValue(d, m, |m|);
    forall c | 0 <= c < |p.multSquared| ensures |p.multSquared[c]| == |ext| {
      assert ValidSquaredRow(p.multSquared[c], m, ext, c);
    }
    forall i | 0 <= i < |ext|
      ensures Pending(Lifted(d, p, rSquared[i], ext[i], i, |m| - 1), value * R, ext[i].q)
    {
      LiftedMeaning(d, m, p, rSquared, ext, i, |m| - 1);
    }
  }

  ghost predicate LiftedRow(row: seq<int>, ds: seq<seq<int>>, p: PartitionParameters, rSquared: int, ext: Modulus, i: nat, n: nat) {
    && |row| == |ds| && n <= |p.multSquared| && (forall c :: 0 <= c < |p.multSquared| ==> i < |p.multSquared[c]|)
    && forall t :: 0 <= t < |row| ==> n < |ds[t]| && row[t] == Lifted(ds[t], p, rSquared, ext, i, n)
  }

  lemma LiftedRowFirst(x: seq<int>, old': seq<int>, row: seq<int>, ds: seq<seq<int>>, p: PartitionParameters, rSquared: int, ext: Modulus, i: nat)
    requires |x| == |old'| == |ds| && forall t :: 0 <= t < |x| ==> |ds[t]| > 0 && x[t] == ds[t][0]
    requires forall c :: 0 <= c < |p.multSquared| ==> i < |p.multSquared[c]|
    requires row == Apply(MontEnter(rSquared), x, x, old', ext.q, ext.k)
    ensures LiftedRow(row, ds, p, rSquared, ext, i, 0)
  {
    hide MontMultScalar;
  }

  lemma LiftedRowNext(x: seq<int>, row: seq<int>, row': seq<int>, ds: seq<seq<int>>, p: PartitionParameters, rSquared: int, ext: Modulus, i: nat, n: nat)
    requires LiftedRow(row, ds, p, rSquared, ext, i, n) && n < |p.multSquared|
    requires |x| == |ds| && forall t :: 0 <= t < |x| ==> n + 1 < |ds[t]| && x[t] == ds[t][n + 1]
    requires row' == Apply(EnterAdd(p.multSquared[n][i]), x, x, row, ext.q, ext.k)
    ensures LiftedRow(row', ds, p, rSquared, ext, i, n + 1)
  {
    hide Scalar;
  }

  /** mod_up up to its final transform: digits x to extended rows y. */
  method ModUp(x: seq<array<int>>, y: seq<array<int>>, ext: seq<Modulus>, rSquared: seq<int>, p: PartitionParameters, n: nat)
    requires |x| >= 1 && |y| == |ext| == |rSquared| && Rows(y, n) && Apart(x, y)
    requires forall i :: 0 <= i < |x| ==> x[i].Length == n
    requires |p.multSquared| == |x| - 1 && forall c :: 0 <= c < |p.multSquared| ==> |p.multSquared[c]| == |ext|
    modifies y
    ensures Contents(x) == old(Contents(x))
    ensures forall t, i :: 0 <= t < n && 0 <= i < |ext| ==>
      Contents(y)[i][t] == Lifted(Column(Contents(x), t), p, rSquared[i], ext[i], i, |x| - 1)
  {
    hide Lifted, LiftedRow, Scalar, Apply, Contents, Column;
    ghost var rows := Contents(x);
    ghost var ds := seq(n, t requires 0 <= t < n => Column(rows, t));
    for i := 0 to |ext|
      invariant forall j :: 0 <= j < i ==> LiftedRow(y[j][..], ds, p, rSquared[j], ext[j], j, 0)
      invariant Contents(x) == rows
    {
      ghost var before := y[i][..];
      Run(MontEnter(rSquared[i]), x[0], x[0], y[i], ext[i].q, ext[i].k);
      LiftedRowFirst(x[0][..], before, y[i][..], ds, p, rSquared[i], ext[i], i);
    }
    for c := 0 to |x| - 1
      invariant forall j :: 0 <= j < |ext| ==> LiftedRow(y[j][..], ds, p, rSquared[j], ext[j], j, c)
      invariant Contents(x) == rows
    {
      for i := 0 to |ext|
        invariant forall j :: 0 <= j < i ==> LiftedRow(y[j][..], ds, p, rSquared[j], ext[j], j, c + 1)
        invariant forall j :: i <= j < |ext| ==> LiftedRow(y[j][..], ds, p, rSquared[j], ext[j], j, c)
        invariant Contents(x) == rows
      {
        ghost var before := y[i][..];
        Run(EnterAdd(p.multSquared[c][i]), x[c + 1], x[c + 1], y[i], ext[i].q, ext[i].k);
        LiftedRowNext(x[c + 1][..], before, y[i][..], ds, p, rSquared[i], ext[i], i, c);
      }
    }
    forall t, i | 0 <= t < n && 0 <= i < |ext|
      ensures Contents(y)[i][t] == Lifted(Column(Contents(x), t), p, rSquared[i], ext[i], i, |x| - 1)
    {
      assert ds[t] == Column(rows, t);
      LiftedRowAt(Contents(y)[i], ds, p, rSquared[i], ext[i], i, |x| - 1, t);
    }
  }

  lemma LiftedRowAt(row: seq<int>, ds: seq<seq<int>>, p: PartitionParameters, rSquared: int, ext: Modulus, i: nat, n: nat, t: nat)
    requires LiftedRow(row, ds, p, rSquared, ext, i, n) && t < |row|
    ensures n < |ds[t]| && row[t] == Lifted(ds[t], p, rSquared, ext, i, n)
  {
  }

  // ---------- the constants are computed correctly ----------

  lemma InverseConstantIs(product: int, residue: int, inverse: int, c: int, q: int)
    requires q > 1 && Cong(residue, product, q) && Cong(residue * inverse, 1, q)
    requires 0 <= c < q && Cong(c, inverse * R, q)
    ensures InverseConstant(c, product, q)
  {
    hide Cong;
    MulRight(c, inverse * R, product, q);
    MulRight(residue, product, inverse, q);
    Sym(residue * inverse, product * inverse, q);
    Trans(product * inverse, residue * inverse, 1, q);
    MulRight(product * inverse, 1, R, q);
    assert (inverse * R) * product == (product * inverse) * R;
    Trans(c * product, (product * inverse) * R, R, q);
  }

  lemma FactorConstantIs(product: int, residue: int, factor: int, c: int, q: int)
    requires q > 0 && Cong(residue, product, q) && 0 <= c < q && Cong(c, residue * factor, q)
    ensures Cong(c, product * factor, q)
  {
    hide *;
    MulRight(residue, product, factor, q);
    Trans(c, residue * factor, product * factor, q);
  }

  lemma SquaredConstantIs(product: int, residue: int, rSquared: int, c: int, q: int)
    requires q > 0 && Cong(residue, product, q) && 0 <= c < q && Cong(c, residue * rSquared, q)
    requires FactorConstant(rSquared, R, q)
    ensures FactorConstant(c, product * R, q)
  {
    hide Cong;
    FactorConstantIs(product, residue, rSquared, c, q);
    Scale(product, rSquared, R * R, q);
    assert product * (R * R) == (product * R) * R;
    Trans(c, product * rSquared, (product * R) * R, q);
  }

  /** make_partition_parameters: for pairwise coprime moduli every constant is what the two loops need. */
  method MakePartitionParameters(m: seq<Modulus>, ext: seq<Modulus>, rSquared: seq<int>) returns (p: PartitionParameters)
    requires |m| >= 1 && Base(m) && Coprime(m) && Base(ext) && ValidSquares(rSquared, ext)
    requires forall i :: 0 <= i < |m| ==> m[i].q > 1
    ensures ValidInverse(p, m) && ValidMult(p, m) && ValidSquared(p, m, ext)
  {
    hide MontModulus, Product, InverseConstant, FactorConstant, Cong, Invertible;
    var inverse, mult, multSquared := [], [], [];
    ProductStep(m, 0);
    var qProduct := m[0].q;
    for c := 1 to |m|
      invariant qProduct == Product(m, c)
      invariant |inverse| == c - 1 && forall i :: 0 <= i < c - 1 ==> InverseConstant(inverse[i], Product(m, i + 1), m[i + 1].q)
      invariant |mult| == (if c < |m| - 1 then c - 1 else if |m| >= 2 then |m| - 2 else 0)
      invariant forall i :: 0 <= i < |mult| ==> ValidMultRow(mult[i], m, i)
      invariant |multSquared| == c - 1 && forall i :: 0 <= i < c - 1 ==> ValidSquaredRow(multSquared[i], m, ext, i)
    {
      var chain := m[c].q;
      ProductPositive(m, c);
      BaseAt(m, c);
      Residue(qProduct, chain);
      var residue := qProduct % chain;
      var residueInverse := ModulusInvert(residue, chain);
      ProductInvertible(m, c, c);
      ResidueInvertible(qProduct, residue, chain);
      InverseConstantIs(qProduct, residue, residueInverse, ModulusMultiply(residueInverse, R, chain), chain);
      inverse := inverse + [ModulusMultiply(residueInverse, R, chain)];
      if c < |m| - 1 {
        var row := MultRow(m, c, qProduct);
        mult := mult + [row];
      }
      var squared := SquaredRow(m, ext, rSquared, c, qProduct);
      multSquared := multSquared + [squared];
      ProductStep(m, c);
      qProduct := qProduct * chain;
    }
    p := PartitionParameters(inverse, mult, multSquared);
  }

  lemma ResidueInvertible(a: int, r: int, q: int)
    requires Cong(r, a, q) && Invertible(a, q)
    ensures Invertible(r, q)
  {
    var y :| Cong(a * y, 1, q);
    hide *;
    MulRight(r, a, y, q);
    Trans(r * y, a * y, 1, q);
    Invert(r, y, q);
  }

  method MultRow(m: seq<Modulus>, c: nat, qProduct: int) returns (row: seq<int>)
    requires Base(m) && 0 < c < |m| - 1 && qProduct == Product(m, c)
    ensures ValidMultRow(row, m, c - 1)
  {
    hide MontModulus, Product, Cong;
    row := [];
    ProductPositive(m, c);
    for j := c + 1 to |m|
      invariant |row| == j - (c + 1) && forall i :: 0 <= i < |row| ==> FactorConstant(row[i], Product(m, c), m[c + 1 + i].q)
    {
      BaseAt(m, j);
      Residue(qProduct, m[j].q);
      var residue := qProduct % m[j].q;
      FactorConstantIs(qProduct, residue, R, ModulusMultiply(residue, R, m[j].q), m[j].q);
      row := row + [ModulusMultiply(residue, R, m[j].q)];
    }
  }

  method SquaredRow(m: seq<Modulus>, ext: seq<Modulus>, rSquared: seq<int>, c: nat, qProduct: int) returns (row: seq<int>)
    requires Base(m) && Base(ext) && 0 < c < |m| && qProduct == Product(m, c) && ValidSquares(rSquared, ext)
    ensures ValidSquaredRow(row, m, ext, c - 1)
  {
    hide MontModulus, Product, Cong;
    row := [];
    ProductPositive(m, c);
    for j := 0 to |ext|
      invariant |row| == j && forall i :: 0 <= i < |row| ==> FactorConstant(row[i], Product(m, c) * R, ext[i].q)
    {
      BaseAt(ext, j);
      Residue(qProduct, ext[j].q);
      var residue := qProduct % ext[j].q;
      var word := ModulusMultiply(residue, rSquared[j], ext[j].q);
      SquaredConstantIs(qProduct, residue, rSquared[j], word, ext[j].q);
      row := row + [word];
    }
  }
}
