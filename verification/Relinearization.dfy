/** Multiplication of ciphertexts, relinearization and decryption (src/ckks/core.cpp:124-194, 284-314, 713-741). */
module Relinearization {
  import opened Congruence
  import opened Montgomery
  import opened Kernels
  import opened ResidueBase
  import opened BaseExtension
  import opened Polynomial
  import opened Tables
  import opened NegacyclicProduct
  import opened KeySwitching
  import opened SwitchedRows
  import opened SwitchedDivision
  import opened SwitchedKeys
  import opened Ciphertexts
  import Interpolation
  import ModDown
  import NttTheory
  import Precomputed
  import Transform

  // ---------- rows of all chains ----------

  ghost predicate LazyRows(g: Level, u: seq<seq<int>>) {
    |u| == g.chains <= |g.tables| && forall i :: 0 <= i < |u| ==> |u[i]| == Pow2(g.e) && InRange(u[i], 0, 2 * g.tables[i].q)
  }

  /** Rows in transform form that stand for one integer polynomial on every chain. */
  ghost predicate RowsStand(g: Level, u: seq<seq<int>>, p: seq<int>) {
    && |u| == g.chains <= |g.tables| == |g.psi| && |p| == Pow2(g.e)
    && forall i :: 0 <= i < |u| ==> g.tables[i].e == g.e && Stands(g.tables[i], g.psi[i], u[i], p)
  }

  /** to_intt_ on every chain. */
  ghost function Forms(g: Level, u: seq<seq<int>>): (x: seq<seq<int>>)
    requires |u| <= |g.tables|
    ensures |x| == |u| && forall i :: 0 <= i < |x| ==> x[i] == Transform.CoeffForm(g.tables[i], u[i])
  {
    seq(|u|, i requires 0 <= i < |u| => Transform.CoeffForm(g.tables[i], u[i]))
  }

  lemma LazyAt(g: Level, u: seq<seq<int>>, i: nat)
    requires LazyRows(g, u) && i < g.chains
    ensures |u| == g.chains <= |g.tables| && |u[i]| == Pow2(g.e) && InRange(u[i], 0, 2 * g.tables[i].q)
  {
  }

  lemma RowStands(g: Level, u: seq<seq<int>>, p: seq<int>, i: nat)
    requires RowsStand(g, u, p) && i < g.chains
    ensures |u| == g.chains <= |g.tables| == |g.psi| && |p| == Pow2(g.e) == |u[i]|
    ensures g.tables[i].e == g.e && Stands(g.tables[i], g.psi[i], u[i], p)
  {
    hide Stands, Pow2;
    StandsSize(g.tables[i], g.psi[i], u[i], p);
  }

  lemma RowsAreLazy(g: Level, u: seq<seq<int>>, p: seq<int>)
    requires RowsStand(g, u, p)
    ensures LazyRows(g, u)
  {
    hide Stands, Pow2, InRange;
    forall i | 0 <= i < |u| ensures |u[i]| == Pow2(g.e) && InRange(u[i], 0, 2 * g.tables[i].q) {
      StandsSize(g.tables[i], g.psi[i], u[i], p);
    }
  }

  /** What create_key_switcher_from_ntt hands to rns_to_mrs: words of at most the modulus. */
  lemma FormsAreDigits(g: Level, u: seq<seq<int>>)
    requires ValidLevel(g) && LazyRows(g, u)
    ensures |u| <= |g.tables| && Digest(g, Forms(g, u))
  {
    hide Pow2, ValidLevel, Valid, InRange, Transform.CoeffForm;
    forall i | 0 <= i < |u|
      ensures forall c :: 0 <= c < Pow2(g.e) ==> 0 <= Transform.CoeffForm(g.tables[i], u[i])[c] <= g.tables[i].q
    {
      TableAt(g, i);
      StandsForm(g.tables[i], g.psi[i], g.psiInverse[i], u[i]);
      forall c | 0 <= c < Pow2(g.e) ensures 0 <= Transform.CoeffForm(g.tables[i], u[i])[c] <= g.tables[i].q {
        AtMostAt(Transform.CoeffForm(g.tables[i], u[i]), g.tables[i].q, c);
      }
    }
  }

  /** Key switching of rows in transform form, whatever lazily reduced words they hold. */
  lemma KeySwitchingFromNtt(g: Level, u: seq<seq<int>>, words: seq<seq<seq<int>>>, key: Key, noise: int, size: int)
    returns (y0: seq<int>, y1: seq<int>, error: seq<int>)
    requires ValidLevel(g) && LazyRows(g, u) && |u| <= |g.tables|
    requires AllWords(g, Forms(g, u), words) && KeyFor(g, key) && SmallKey(g, key, noise, size)
    ensures RowsFit(g, words, key.a) && RowsFit(g, words, key.b)
    ensures Leaves(g, DownRows(g, words, key.b), y0) && Leaves(g, DownRows(g, words, key.a), y1) && |error| == Pow2(g.e)
    ensures forall c :: 0 <= c < |error| ==> SwitchesTo(g, Forms(g, u), key, y0, y1, error, c)
    ensures g.chains <= |g.tables| && forall p :: 0 <= p < |g.partitions| ==> Inside(g, p)
    ensures forall c :: 0 <= c < |error| ==> -Bound(g, noise, size) <= Specials(g) * error[c] <= Bound(g, noise, size)
  {
    hide *;
    FormsAreDigits(g, u);
    y0, y1, error := KeySwitchingIsCorrect(g, Forms(g, u), words, key, noise, size);
  }

  /** Lazily reduced rows stand for some integer polynomial. */
  lemma SomePolynomial(g: Level, u: seq<seq<int>>) returns (p: seq<int>)
    requires ValidLevel(g) && LazyRows(g, u)
    ensures RowsStand(g, u, p)
  {
    hide *;
    LevelSizes(g);
    PairwiseIsCoprime(Moduli(g));
    FormsSize(g, u);
    p := [];
    for c := 0 to Pow2(g.e)
      invariant |p| == c && forall k :: 0 <= k < c ==> CommonResidue(g, Forms(g, u), p[k], k)
    {
      var column := seq(|u|, i requires 0 <= i < |u| => Forms(g, u)[i][c]);
      var value := ValueExists(column, Moduli(g), g.chains);
      CommonFrom(g, Forms(g, u), column, value, c);
      p := p + [value];
    }
    forall i | 0 <= i < |u| ensures g.tables[i].e == g.e && |g.tables| == |g.psi| && Stands(g.tables[i], g.psi[i], u[i], p) {
      TableAt(g, i);
      LazyAt(g, u, i);
      StandsForm(g.tables[i], g.psi[i], g.psiInverse[i], u[i]);
      forall c | 0 <= c < |p| ensures Cong(Transform.CoeffForm(g.tables[i], u[i])[c], p[c], g.tables[i].q) {
        CommonAt(g, u, p[c], i, c);
      }
      ValidModulus(g.tables[i], g.psi[i], g.psiInverse[i]);
      StandsToo(g.tables[i], g.psi[i], u[i], Transform.CoeffForm(g.tables[i], u[i]), p);
    }
    RowsFrom(g, u, p);
  }

  lemma FormsSize(g: Level, u: seq<seq<int>>)
    requires LazyRows(g, u)
    ensures |u| == g.chains <= |g.tables| && |Forms(g, u)| == |u| && forall i :: 0 <= i < |u| ==> |Forms(g, u)[i]| == Pow2(g.e)
  {
    hide InRange, Transform.CoeffForm;
  }

  ghost predicate CommonResidue(g: Level, x: seq<seq<int>>, value: int, c: nat) {
    |x| <= |g.tables| && forall i :: 0 <= i < |x| ==> c < |x[i]| && Cong(value, x[i][c], g.tables[i].q)
  }

  lemma CommonFrom(g: Level, x: seq<seq<int>>, column: seq<int>, value: int, c: nat)
    requires |column| == |x| == g.chains <= |g.tables| && Residues(value, column, Moduli(g), g.chains)
    requires forall i :: 0 <= i < |x| ==> c < |x[i]| && column[i] == x[i][c]
    ensures CommonResidue(g, x, value, c)
  {
    hide Cong;
    forall i | 0 <= i < |x| ensures Cong(value, x[i][c], g.tables[i].q) {
      assert Moduli(g)[i].q == g.tables[i].q && Cong(value, column[i], Moduli(g)[i].q);
    }
  }

  lemma CommonAt(g: Level, u: seq<seq<int>>, value: int, i: nat, c: nat)
    requires |u| <= |g.tables| && CommonResidue(g, Forms(g, u), value, c) && i < |u|
    ensures c < |Transform.CoeffForm(g.tables[i], u[i])| && Cong(Transform.CoeffForm(g.tables[i], u[i])[c], value, g.tables[i].q)
  {
    hide Cong, Transform.CoeffForm;
    Sym(value, Forms(g, u)[i][c], g.tables[i].q);
  }

  lemma StandsToo(t: Derived, psi: int, u: seq<int>, x: seq<int>, p: seq<int>)
    requires t.q > 0 && Stands(t, psi, u, x) && |x| == |p| && forall c :: 0 <= c < |p| ==> Cong(x[c], p[c], t.q)
    ensures Stands(t, psi, u, p)
  {
    hide *;
    StandsSize(t, psi, u, x);
    forall j | 0 <= j < |u|
      ensures 0 <= u[j] < 2 * t.q && Cong(u[j], R * Eval(p, NttTheory.Point(psi, t.e, j)), t.q)
    {
      var z := NttTheory.Point(psi, t.e, j);
      StandsAt(t, psi, u, x, j);
      EvalResidues(x, p, z, t.q);
      Scale(R, Eval(x, z), Eval(p, z), t.q);
      Trans(u[j], R * Eval(x, z), R * Eval(p, z), t.q);
    }
    StandsFrom(t, psi, u, p);
  }

  lemma RowsFrom(g: Level, u: seq<seq<int>>, p: seq<int>)
    requires |u| == g.chains && 1 <= g.chains <= |g.tables| && |p| == Pow2(g.e)
    requires forall i :: 0 <= i < |u| ==> g.tables[i].e == g.e && |g.tables| == |g.psi| && Stands(g.tables[i], g.psi[i], u[i], p)
    ensures RowsStand(g, u, p)
  {
    hide Stands, Pow2;
    assert |g.tables| == |g.psi| by { assert Stands(g.tables[0], g.psi[0], u[0], p); }
  }

  // ---------- relinearize on one chain ----------

  /** One output row of relinearize: back to coefficients, then add the switched row. */
  method AddSwitched(t: Derived, x: array<int>, switched: array<int>, y: array<int>)
    requires t.e >= 1 && x.Length == switched.Length == y.Length == Pow2(t.e) && |t.rootInverse| == Pow2(t.e) - 1
    requires y != x && y != switched
    modifies y
    ensures y[..] == SumRow(t, Transform.CoeffForm(t, x[..]), switched[..])
  {
    hide Scalar, Transform.CoeffForm;
    Transform.ToIntt(t, x, y);
    Run(AddReduce, y, switched, y, t.q, t.k);
  }

  ghost predicate ResidueRow(row: seq<int>, y: seq<int>, q: int) {
    q > 0 && |row| == |y| && forall c :: 0 <= c < |row| ==> row[c] == y[c] % q
  }

  /** A sum row stands for the sum of the two polynomials behind it. */
  lemma SumOfRows(t: Derived, psi: int, psiInverse: int, u: seq<int>, p: seq<int>, row: seq<int>, y: seq<int>, c: nat)
    requires Valid(t, psi, psiInverse) && Stands(t, psi, u, p) && ResidueRow(row, y, t.q) && |row| == |u| && c < |u|
    ensures |p| == |u| == |y| && t.q > 0
    ensures var z := SumRow(t, Transform.CoeffForm(t, u), row)[c]; 0 <= z < t.q && Cong(z, p[c] + y[c], t.q)
  {
    hide *;
    ValidModulus(t, psi, psiInverse);
    StandsSize(t, psi, u, p);
    ResidueAt(row, y, t.q, c);
    Coefficients(t, psi, psiInverse, u, p, c);
    SumAt(t, Transform.CoeffForm(t, u), row, c);
    var z := SumRow(t, Transform.CoeffForm(t, u), row)[c];
    Add(Transform.CoeffForm(t, u)[c], p[c], row[c], y[c], t.q);
    Trans(z, Transform.CoeffForm(t, u)[c] + row[c], p[c] + y[c], t.q);
  }

  lemma ResidueAt(row: seq<int>, y: seq<int>, q: int, c: nat)
    requires ResidueRow(row, y, q) && c < |row|
    ensures |row| == |y| && 0 <= row[c] < q && Cong(row[c], y[c], q)
  {
    Congruence.Residue(y[c], q);
  }

  /** On one chain: z0 + z1 * S = c0 + c1 * S + c2 * S * S + error. */
  lemma ChainRelinearizes(t: Derived, psi: int, psiInverse: int, u0: seq<int>, c0: seq<int>, u1: seq<int>, c1: seq<int>, u2: seq<int>, c2: seq<int>,
                          row0: seq<int>, y0: seq<int>, row1: seq<int>, y1: seq<int>, s: seq<int>, error: int, c: nat)
    requires Valid(t, psi, psiInverse) && Stands(t, psi, u0, c0) && Stands(t, psi, u1, c1) && Stands(t, psi, u2, c2) && c < Pow2(t.e)
    requires |row0| == |row1| == |s| == Pow2(t.e) && ResidueRow(row0, y0, t.q) && ResidueRow(row1, y1, t.q)
    requires |y0| == |y1| == |u2| == Pow2(t.e)
    requires Cong(y0[c] + Times(y1, s)[c], error + Times(Transform.CoeffForm(t, u2), Times(s, s))[c], t.q)
    ensures |u0| == |c0| == |u1| == |c1| == |c2| == Pow2(t.e)
    ensures var z0, z1 := SumRow(t, Transform.CoeffForm(t, u0), row0), SumRow(t, Transform.CoeffForm(t, u1), row1);
      Cong(Linear(z0, z1, s)[c], Quadratic(c0, c1, c2, s)[c] + error, t.q)
  {
    hide *;
    ValidModulus(t, psi, psiInverse);
    StandsSize(t, psi, u0, c0);
    StandsSize(t, psi, u1, c1);
    StandsSize(t, psi, u2, c2);
    var z0, z1 := SumRow(t, Transform.CoeffForm(t, u0), row0), SumRow(t, Transform.CoeffForm(t, u1), row1);
    SumOfRows(t, psi, psiInverse, u0, c0, row0, y0, c);
    forall k | 0 <= k < |s| ensures Cong(z1[k], c1[k] + y1[k], t.q) {
      SumOfRows(t, psi, psiInverse, u1, c1, row1, y1, k);
    }
    TimesOfSum(z1, c1, y1, s, c, t.q);
    forall k | 0 <= k < |s| ensures Cong(Transform.CoeffForm(t, u2)[k], c2[k], t.q) {
      Coefficients(t, psi, psiInverse, u2, c2, k);
    }
    TimesCong(Transform.CoeffForm(t, u2), c2, Times(s, s), c, t.q);
    LinearAt(z0, z1, s, c);
    LinearAt(c0, c1, s, c);
    QuadraticAt(c0, c1, c2, s, c);
    ChainAlgebra(z0[c], Times(z1, s)[c], c0[c], y0[c], Times(c1, s)[c], Times(y1, s)[c], error,
                 Times(Transform.CoeffForm(t, u2), Times(s, s))[c], Times(c2, Times(s, s))[c], t.q);
  }

  lemma TimesCong(a: seq<int>, b: seq<int>, s: seq<int>, c: nat, q: int)
    requires q > 0 && |a| == |b| == |s| && c < |s| && forall k :: 0 <= k < |s| ==> Cong(a[k], b[k], q)
    ensures Cong(Times(a, s)[c], Times(b, s)[c], q)
  {
    hide Cong, Times;
    CoefficientCong(a, b, s, c, |s|, q);
    TimesAt(a, s, c);
    TimesAt(b, s, c);
  }

  lemma TimesOfSum(z: seq<int>, a: seq<int>, b: seq<int>, s: seq<int>, c: nat, q: int)
    requires q > 0 && |z| == |a| == |b| == |s| && c < |s| && forall k :: 0 <= k < |s| ==> Cong(z[k], a[k] + b[k], q)
    ensures Cong(Times(z, s)[c], Times(a, s)[c] + Times(b, s)[c], q)
  {
    hide Cong, Times;
    var sum := seq(|s|, k requires 0 <= k < |s| => a[k] + b[k]);
    TimesCong(z, sum, s, c, q);
    CoefficientLinear(sum, 1, a, b, s, c, |s|);
    TimesAt(sum, s, c);
    TimesAt(a, s, c);
    TimesAt(b, s, c);
  }

  lemma ChainAlgebra(z0: int, z1s: int, c0: int, y0: int, c1s: int, y1s: int, error: int, xss: int, c2ss: int, q: int)
    requires Cong(z0, c0 + y0, q) && Cong(z1s, c1s + y1s, q) && Cong(y0 + y1s, error + xss, q) && Cong(xss, c2ss, q)
    ensures Cong(z0 + z1s, (c0 + c1s + c2ss) + error, q)
  {
    hide *;
    RingOf(xss, c2ss, q);
    Add(z0, c0 + y0, z1s, c1s + y1s, q);
    Refl(c0 + c1s, q);
    Refl(error, q);
    Add(error, error, xss, c2ss, q);
    Trans(y0 + y1s, error + xss, error + c2ss, q);
    Add(c0 + c1s, c0 + c1s, y0 + y1s, error + c2ss, q);
    Trans(z0 + z1s, (c0 + c1s) + (y0 + y1s), (c0 + c1s) + (error + c2ss), q);
  }

  // ---------- relinearize ----------

  /** The rows that mod_down can divide. */
  ghost predicate Divisible(g: Level, rows: seq<seq<int>>) {
    && 1 <= g.chains <= |g.tables| == |rows| && ModDown.Shape(|g.tables|, g.inverses, |g.tables| - g.chains)
    && forall i :: 0 <= i < |rows| ==> |rows[i]| == Pow2(g.e)
  }

  /** One chain of the key switcher: what mod_down leaves. */
  ghost function SwitchedRow(g: Level, rows: seq<seq<int>>, i: nat): (row: seq<int>)
    requires Divisible(g, rows) && i < g.chains
    ensures |row| == Pow2(g.e)
  {
    seq(Pow2(g.e), c requires 0 <= c < Pow2(g.e) => ModDown.Down(Column(rows, c), Moduli(g), g.inverses, |g.tables| - g.chains, i))
  }

  lemma LeavesResidues(g: Level, rows: seq<seq<int>>, y: seq<int>, i: nat)
    requires ValidLevel(g) && Leaves(g, rows, y) && i < g.chains
    ensures Divisible(g, rows) && ResidueRow(SwitchedRow(g, rows, i), y, g.tables[i].q)
  {
    hide *;
    LevelSizes(g);
    LeavesMeans(g, rows, y, i, 0);
    LeftMeans(g, Column(rows, 0), y[0], i);
    DivisibleFrom(g, rows, |y|);
    forall c | 0 <= c < |y| ensures SwitchedRow(g, rows, i)[c] == y[c] % g.tables[i].q {
      LeavesMeans(g, rows, y, i, c);
      LeftMeans(g, Column(rows, c), y[c], i);
      SwitchedRowAt(g, rows, i, c);
    }
    ResidueFrom(SwitchedRow(g, rows, i), y, g.tables[i].q);
  }

  lemma LeavesMeans(g: Level, rows: seq<seq<int>>, y: seq<int>, i: nat, c: nat)
    requires Leaves(g, rows, y) && i < g.chains && (c == 0 || c < |y|)
    ensures c < |y| == Pow2(g.e) && g.chains <= |g.tables| == |rows| && (forall k :: 0 <= k < |rows| ==> |rows[k]| == |y|)
    ensures LeftAt(g, Column(rows, c), y[c], i)
  {
    hide LeftAt, Column;
  }

  lemma DivisibleFrom(g: Level, rows: seq<seq<int>>, n: nat)
    requires 1 <= g.chains <= |g.tables| == |rows| && ModDown.Shape(|g.tables|, g.inverses, |g.tables| - g.chains)
    requires n == Pow2(g.e) && forall i :: 0 <= i < |rows| ==> |rows[i]| == n
    ensures Divisible(g, rows)
  {
    hide ModDown.Shape, Pow2;
  }

  lemma SwitchedRowAt(g: Level, rows: seq<seq<int>>, i: nat, c: nat)
    requires Divisible(g, rows) && i < g.chains && c < Pow2(g.e)
    ensures g.chains <= |g.tables| == |rows| && ModDown.Shape(|g.tables|, g.inverses, |g.tables| - g.chains)
    ensures (forall k :: 0 <= k < |rows| ==> c < |rows[k]|)
    ensures SwitchedRow(g, rows, i)[c] == ModDown.Down(Column(rows, c), Moduli(g), g.inverses, |g.tables| - g.chains, i)
  {
    hide ModDown.Down, ModDown.Shape, Pow2, Column;
  }

  lemma ResidueFrom(row: seq<int>, y: seq<int>, q: int)
    requires q > 0 && |row| == |y| && forall c :: 0 <= c < |row| ==> row[c] == y[c] % q
    ensures ResidueRow(row, y, q)
  {
  }

  lemma LeftMeans(g: Level, column: seq<int>, y: int, i: nat)
    requires LeftAt(g, column, y, i)
    ensures i < g.chains <= |g.tables| == |column| && ModDown.Shape(|g.tables|, g.inverses, |g.tables| - g.chains) && g.tables[i].q > 0
    ensures ModDown.Down(column, Moduli(g), g.inverses, |g.tables| - g.chains, i) == y % g.tables[i].q
  {
    hide ModDown.Down, ModDown.Shape;
  }

  /** One chain of an output row of relinearize. */
  ghost function Relinearized(g: Level, u: seq<seq<int>>, rows: seq<seq<int>>, i: nat): (z: seq<int>)
    requires Divisible(g, rows) && i < g.chains == |u| && |u[i]| == Pow2(g.e)
    ensures |z| == Pow2(g.e)
  {
    SumRow(g.tables[i], Transform.CoeffForm(g.tables[i], u[i]), SwitchedRow(g, rows, i))
  }

  /** Canonical words with z0 + z1 * S = c0 + c1 * S + c2 * S * S + error on every chain. */
  ghost predicate Relinearizes(g: Level, u0: seq<seq<int>>, rows0: seq<seq<int>>, u1: seq<seq<int>>, rows1: seq<seq<int>>, sum: seq<int>, s: seq<int>,
                               error: seq<int>, i: nat, c: nat) {
    && Divisible(g, rows0) && Divisible(g, rows1) && i < g.chains == |u0| == |u1| && |u0[i]| == |u1[i]| == |s| == |sum| == |error| == Pow2(g.e)
    && c < |error|
    && var z0, z1 := Relinearized(g, u0, rows0, i), Relinearized(g, u1, rows1, i);
       && 0 <= z0[c] < g.tables[i].q && 0 <= z1[c] < g.tables[i].q
       && Cong(Linear(z0, z1, s)[c], sum[c] + error[c], g.tables[i].q)
  }

  /** Relinearization is correct: with a key for the square of the secret, the two rows decrypt to what the
      three rows stood for, plus an error below the bound of key switching. */
  lemma RelinearizationIsCorrect(g: Level, u0: seq<seq<int>>, c0: seq<int>, u1: seq<seq<int>>, c1: seq<int>, u2: seq<seq<int>>, c2: seq<int>,
                                 words: seq<seq<seq<int>>>, key: Key, noise: int, size: int)
    returns (error: seq<int>)
    requires ValidLevel(g) && RowsStand(g, u0, c0) && RowsStand(g, u1, c1) && RowsStand(g, u2, c2) && |u2| <= |g.tables|
    requires AllWords(g, Forms(g, u2), words) && KeyFor(g, key) && SmallKey(g, key, noise, size)
    requires |key.secret| == |c0| == |c1| == |c2| && key.former == Times(key.secret, key.secret)
    ensures RowsFit(g, words, key.a) && RowsFit(g, words, key.b) && |error| == Pow2(g.e)
    ensures forall i, c :: 0 <= i < g.chains && 0 <= c < |error| ==>
      Relinearizes(g, u0, DownRows(g, words, key.b), u1, DownRows(g, words, key.a), Quadratic(c0, c1, c2, key.secret), key.secret, error, i, c)
    ensures g.chains <= |g.tables| && forall p :: 0 <= p < |g.partitions| ==> Inside(g, p)
    ensures forall c :: 0 <= c < |error| ==> -Bound(g, noise, size) <= Specials(g) * error[c] <= Bound(g, noise, size)
  {
    hide *;
    RowsAreLazy(g, u2, c2);
    PolynomialSize(g, u2, c2);
    var y0, y1;
    y0, y1, error := KeySwitchingFromNtt(g, u2, words, key, noise, size);
    forall i, c | 0 <= i < g.chains && 0 <= c < |error|
      ensures Relinearizes(g, u0, DownRows(g, words, key.b), u1, DownRows(g, words, key.a), Quadratic(c0, c1, c2, key.secret), key.secret, error, i, c)
    {
      RelinearizesAt(g, u0, c0, u1, c1, u2, c2, DownRows(g, words, key.b), y0, DownRows(g, words, key.a), y1, key, error, i, c);
    }
  }

  lemma PolynomialSize(g: Level, u: seq<seq<int>>, p: seq<int>)
    requires RowsStand(g, u, p)
    ensures |p| == Pow2(g.e)
  {
  }

  lemma RelinearizesAt(g: Level, u0: seq<seq<int>>, c0: seq<int>, u1: seq<seq<int>>, c1: seq<int>, u2: seq<seq<int>>, c2: seq<int>,
                       rows0: seq<seq<int>>, y0: seq<int>, rows1: seq<seq<int>>, y1: seq<int>, key: Key, error: seq<int>, i: nat, c: nat)
    requires ValidLevel(g) && RowsStand(g, u0, c0) && RowsStand(g, u1, c1) && RowsStand(g, u2, c2) && |u2| <= |g.tables|
    requires Leaves(g, rows0, y0) && Leaves(g, rows1, y1) && SwitchesTo(g, Forms(g, u2), key, y0, y1, error, c)
    requires |key.secret| == |c0| == |c1| == |c2| == |error| && key.former == Times(key.secret, key.secret) && i < g.chains && c < |error|
    ensures Relinearizes(g, u0, rows0, u1, rows1, Quadratic(c0, c1, c2, key.secret), key.secret, error, i, c)
  {
    hide *;
    LevelSizes(g);
    TableAt(g, i);
    RowStands(g, u0, c0, i);
    RowStands(g, u1, c1, i);
    RowStands(g, u2, c2, i);
    LeavesResidues(g, rows0, y0, i);
    LeavesResidues(g, rows1, y1, i);
    ResidueSize(SwitchedRow(g, rows0, i), y0, g.tables[i].q);
    ResidueSize(SwitchedRow(g, rows1, i), y1, g.tables[i].q);
    SwitchesAt(g, u2, key, y0, y1, error, i, c);
    var t := g.tables[i];
    ChainRelinearizes(t, g.psi[i], g.psiInverse[i], u0[i], c0, u1[i], c1, u2[i], c2, SwitchedRow(g, rows0, i), y0, SwitchedRow(g, rows1, i), y1,
                      key.secret, error[c], c);
    SumOfRows(t, g.psi[i], g.psiInverse[i], u0[i], c0, SwitchedRow(g, rows0, i), y0, c);
    SumOfRows(t, g.psi[i], g.psiInverse[i], u1[i], c1, SwitchedRow(g, rows1, i), y1, c);
    RelinearizesFrom(g, u0, rows0, u1, rows1, Quadratic(c0, c1, c2, key.secret), key.secret, error, i, c);
  }

  lemma ResidueSize(row: seq<int>, y: seq<int>, q: int)
    requires ResidueRow(row, y, q)
    ensures |row| == |y|
  {
  }

  lemma SwitchesAt(g: Level, u: seq<seq<int>>, key: Key, y0: seq<int>, y1: seq<int>, error: seq<int>, i: nat, c: nat)
    requires |u| <= |g.tables| && SwitchesTo(g, Forms(g, u), key, y0, y1, error, c) && i < g.chains
    requires key.former == Times(key.secret, key.secret)
    ensures i < |u| == g.chains && c < |y0| == |y1| == |key.secret| == |key.former| == |error| == |u[i]|
    ensures Cong(y0[c] + Times(y1, key.secret)[c],
                 error[c] + Times(Transform.CoeffForm(g.tables[i], u[i]), Times(key.secret, key.secret))[c], g.tables[i].q)
  {
    hide Cong, Times, Transform.CoeffForm;
    assert |Forms(g, u)[i]| == |error|;
  }

  lemma RelinearizesFrom(g: Level, u0: seq<seq<int>>, rows0: seq<seq<int>>, u1: seq<seq<int>>, rows1: seq<seq<int>>, sum: seq<int>, s: seq<int>,
                         error: seq<int>, i: nat, c: nat)
    requires Divisible(g, rows0) && Divisible(g, rows1) && i < g.chains == |u0| == |u1|
    requires |u0[i]| == |u1[i]| == |s| == |sum| == |error| == Pow2(g.e) && c < |error|
    requires var t := g.tables[i];
      var z0 := SumRow(t, Transform.CoeffForm(t, u0[i]), SwitchedRow(g, rows0, i));
      var z1 := SumRow(t, Transform.CoeffForm(t, u1[i]), SwitchedRow(g, rows1, i));
      && 0 <= z0[c] < t.q && 0 <= z1[c] < t.q && Cong(Linear(z0, z1, s)[c], sum[c] + error[c], t.q)
    ensures Relinearizes(g, u0, rows0, u1, rows1, sum, s, error, i, c)
  {
    hide Cong, Linear, SumRow, SwitchedRow, Transform.CoeffForm, Pow2, ModDown.Shape;
  }

  // ---------- the relinearization key ----------

  /** create_relinearization_key: the word of the former secret is the secret's own word squared, then
      entered with the table of P; it stands for P * S * S, as create_key_switching_key needs. */
  lemma SquaredSecret(t: Derived, psi: int, psiInverse: int, s: seq<int>, secret: seq<int>, constant: int, p: int, j: nat)
    requires Valid(t, psi, psiInverse) && Stands(t, psi, s, secret) && FactorConstant(constant, p, t.q) && j < |s|
    ensures |secret| == |s|
    ensures var from := MontMultScalar(MontMultScalar(s[j], s[j], t.q, t.k), constant, t.q, t.k);
      0 <= from < 2 * t.q && Cong(from, (p * Eval(Times(secret, secret), NttTheory.Point(psi, t.e, j))) * R, t.q)
  {
    hide *;
    ValidModulus(t, psi, psiInverse);
    ProductStands(t, psi, psiInverse, s, secret, s, secret);
    StandsAt(t, psi, ProductRow(t, s, s), Times(secret, secret), j);
    ProductAt(t, s, s, j);
    var f := Eval(Times(secret, secret), NttTheory.Point(psi, t.e, j));
    TimesCommute(R, f);
    Precomputed.ProductEntered(MontMultScalar(s[j], s[j], t.q, t.k), f, constant, p, t.q, t.k);
  }

  // ---------- multiply, relinearize, decrypt ----------

  ghost predicate SameRows(g: Level, x: seq<seq<int>>, y: seq<seq<int>>) {
    |x| == |y| <= |g.tables| && forall i :: 0 <= i < |x| ==> |x[i]| == |y[i]|
  }

  ghost function ProductRows(g: Level, x: seq<seq<int>>, y: seq<seq<int>>): (z: seq<seq<int>>)
    requires SameRows(g, x, y)
    ensures |z| == |x| && forall i :: 0 <= i < |z| ==> z[i] == ProductRow(g.tables[i], x[i], y[i])
  {
    seq(|x|, i requires 0 <= i < |x| => ProductRow(g.tables[i], x[i], y[i]))
  }

  ghost function SumRows(g: Level, x: seq<seq<int>>, y: seq<seq<int>>): (z: seq<seq<int>>)
    requires SameRows(g, x, y)
    ensures |z| == |x| && forall i :: 0 <= i < |z| ==> z[i] == SumRow(g.tables[i], x[i], y[i])
  {
    seq(|x|, i requires 0 <= i < |x| => SumRow(g.tables[i], x[i], y[i]))
  }

  /** Two ciphertexts in transform form, as pairs of rows. */
  datatype Pair = Pair(x0: seq<seq<int>>, x1: seq<seq<int>>)

  ghost predicate Alike(g: Level, x: Pair, y: Pair) {
    SameRows(g, x.x0, y.x0) && SameRows(g, x.x0, y.x1) && SameRows(g, x.x1, y.x0) && SameRows(g, x.x1, y.x1) && |x.x0| == |x.x1|
    && forall i :: 0 <= i < |x.x0| ==> |x.x0[i]| == |x.x1[i]|
  }

  ghost predicate PairStands(g: Level, x: Pair, a0: seq<int>, a1: seq<int>) {
    RowsStand(g, x.x0, a0) && RowsStand(g, x.x1, a1)
  }

  ghost function First(g: Level, x: Pair, y: Pair): (z: seq<seq<int>>)
    requires Alike(g, x, y)
    ensures |z| == |x.x0|
  {
    ProductRows(g, x.x0, y.x0)
  }

  ghost function Middle(g: Level, x: Pair, y: Pair): (z: seq<seq<int>>)
    requires Alike(g, x, y)
    ensures |z| == |x.x0|
  {
    SumRows(g, ProductRows(g, x.x0, y.x1), ProductRows(g, x.x1, y.x0))
  }

  ghost function Last(g: Level, x: Pair, y: Pair): (z: seq<seq<int>>)
    requires Alike(g, x, y)
    ensures |z| == |x.x0|
  {
    ProductRows(g, x.x1, y.x1)
  }

  lemma PairsAlike(g: Level, x: Pair, a0: seq<int>, a1: seq<int>, y: Pair, b0: seq<int>, b1: seq<int>)
    requires PairStands(g, x, a0, a1) && PairStands(g, y, b0, b1)
    ensures Alike(g, x, y) && |x.x0| == g.chains <= |g.tables| && |a0| == |a1| == |b0| == |b1| == Pow2(g.e)
  {
    hide Stands, Pow2;
    forall i | 0 <= i < g.chains ensures |x.x0[i]| == |x.x1[i]| == |y.x0[i]| == |y.x1[i]| == Pow2(g.e) {
      RowStands(g, x.x0, a0, i);
      RowStands(g, x.x1, a1, i);
      RowStands(g, y.x0, b0, i);
      RowStands(g, y.x1, b1, i);
    }
  }

  /** multiply: the three rows stand for the coefficients of the product in the secret. */
  lemma ProductRowsStand(g: Level, x: Pair, a0: seq<int>, a1: seq<int>, y: Pair, b0: seq<int>, b1: seq<int>)
    requires ValidLevel(g) && PairStands(g, x, a0, a1) && PairStands(g, y, b0, b1)
    ensures Alike(g, x, y) && |a0| == |a1| == |b0| == |b1| == Pow2(g.e)
    ensures RowsStand(g, First(g, x, y), Times(a0, b0)) && RowsStand(g, Last(g, x, y), Times(a1, b1))
    ensures RowsStand(g, Middle(g, x, y), Plus(Times(a0, b1), 1, Times(a1, b0)))
  {
    LevelSizes(g);
    PairsAlike(g, x, a0, a1, y, b0, b1);
    hide *;
    forall i | 0 <= i < g.chains ensures ProductChain(g, x, a0, a1, y, b0, b1, i) {
      ChainProduct(g, x, a0, a1, y, b0, b1, i);
    }
    ProductsFrom(g, x, a0, a1, y, b0, b1);
  }

  ghost predicate ProductChain(g: Level, x: Pair, a0: seq<int>, a1: seq<int>, y: Pair, b0: seq<int>, b1: seq<int>, i: nat) {
    && Alike(g, x, y) && |x.x0| == g.chains <= |g.tables| == |g.psi| && i < g.chains && |a0| == |a1| == |b0| == |b1| && g.tables[i].e == g.e
    && Stands(g.tables[i], g.psi[i], First(g, x, y)[i], Times(a0, b0)) && Stands(g.tables[i], g.psi[i], Last(g, x, y)[i], Times(a1, b1))
    && Stands(g.tables[i], g.psi[i], Middle(g, x, y)[i], Plus(Times(a0, b1), 1, Times(a1, b0)))
  }

  lemma ChainProduct(g: Level, x: Pair, a0: seq<int>, a1: seq<int>, y: Pair, b0: seq<int>, b1: seq<int>, i: nat)
    requires ValidLevel(g) && PairStands(g, x, a0, a1) && PairStands(g, y, b0, b1) && i < g.chains
    ensures ProductChain(g, x, a0, a1, y, b0, b1, i)
  {
    LevelSizes(g);
    PairsAlike(g, x, a0, a1, y, b0, b1);
    TableAt(g, i);
    RowStands(g, x.x0, a0, i);
    RowStands(g, x.x1, a1, i);
    RowStands(g, y.x0, b0, i);
    RowStands(g, y.x1, b1, i);
    hide Stands, ProductRow, SumRow, Times, Plus, ValidLevel, Pow2, Valid, RowsStand, Base, PairwiseCoprime, ModDown.SpecialSizes, ModDown.ValidInverses, ValidSquares;
    MultiplyStands(g.tables[i], g.psi[i], g.psiInverse[i], x.x0[i], a0, x.x1[i], a1, y.x0[i], b0, y.x1[i], b1);
  }

  lemma ProductsFrom(g: Level, x: Pair, a0: seq<int>, a1: seq<int>, y: Pair, b0: seq<int>, b1: seq<int>)
    requires 1 <= g.chains <= |g.tables| && Alike(g, x, y) && |x.x0| == g.chains && |a0| == |a1| == |b0| == |b1| == Pow2(g.e)
    requires forall i :: 0 <= i < g.chains ==> ProductChain(g, x, a0, a1, y, b0, b1, i)
    ensures RowsStand(g, First(g, x, y), Times(a0, b0)) && RowsStand(g, Last(g, x, y), Times(a1, b1))
    ensures RowsStand(g, Middle(g, x, y), Plus(Times(a0, b1), 1, Times(a1, b0)))
  {
    hide *;
    ProductMeans(g, x, a0, a1, y, b0, b1, 0);
    forall i | 0 <= i < g.chains
      ensures g.tables[i].e == g.e && |g.tables| == |g.psi|
      ensures Stands(g.tables[i], g.psi[i], First(g, x, y)[i], Times(a0, b0)) && Stands(g.tables[i], g.psi[i], Last(g, x, y)[i], Times(a1, b1))
      ensures Stands(g.tables[i], g.psi[i], Middle(g, x, y)[i], Plus(Times(a0, b1), 1, Times(a1, b0)))
    {
      ProductMeans(g, x, a0, a1, y, b0, b1, i);
    }
    RowsFrom(g, First(g, x, y), Times(a0, b0));
    RowsFrom(g, Last(g, x, y), Times(a1, b1));
    RowsFrom(g, Middle(g, x, y), Plus(Times(a0, b1), 1, Times(a1, b0)));
  }

  lemma ProductMeans(g: Level, x: Pair, a0: seq<int>, a1: seq<int>, y: Pair, b0: seq<int>, b1: seq<int>, i: nat)
    requires ProductChain(g, x, a0, a1, y, b0, b1, i)
    ensures Alike(g, x, y) && |x.x0| == g.chains <= |g.tables| == |g.psi| && i < g.chains && |a0| == |a1| == |b0| == |b1| && g.tables[i].e == g.e
    ensures Stands(g.tables[i], g.psi[i], First(g, x, y)[i], Times(a0, b0)) && Stands(g.tables[i], g.psi[i], Last(g, x, y)[i], Times(a1, b1))
    ensures Stands(g.tables[i], g.psi[i], Middle(g, x, y)[i], Plus(Times(a0, b1), 1, Times(a1, b0)))
  {
    hide Alike, Stands, First, Middle, Last, Times, Plus;
  }

  lemma SecretStands(g: Level, key: Key, i: nat)
    requires ValidLevel(g) && KeyFor(g, key) && i < g.chains
    ensures g.chains <= |g.tables| == |g.psi| && i < |key.s| && Stands(g.tables[i], g.psi[i], key.s[i], key.secret)
  {
    LevelSizes(g);
    TableAt(g, i);
    assert KeyMade(g, key, i, 0);
    hide ValidLevel, Cong, Eval, NttTheory.Point, Lazy, Stand, KeyWord, Values, Column, Pow2, Valid;
    forall j | 0 <= j < |key.s[i]|
      ensures 0 <= key.s[i][j] < 2 * g.tables[i].q && Cong(key.s[i][j], R * Eval(key.secret, NttTheory.Point(g.psi[i], g.e, j)), g.tables[i].q)
    {
      assert KeyMade(g, key, i, j);
      TimesCommute(R, Eval(key.secret, NttTheory.Point(g.psi[i], g.e, j)));
    }
    StandsFrom(g.tables[i], g.psi[i], key.s[i], key.secret);
  }

  /** What decryption returns on chain i after multiply, and after multiply and relinearize. */
  ghost predicate DecryptsProduct(g: Level, x: Pair, a0: seq<int>, a1: seq<int>, y: Pair, b0: seq<int>, b1: seq<int>,
                                  rows0: seq<seq<int>>, rows1: seq<seq<int>>, key: Key, error: seq<int>, i: nat, c: nat) {
    && Alike(g, x, y) && Divisible(g, rows0) && Divisible(g, rows1) && i < g.chains == |x.x0| && i < |key.s| && g.tables[i].e == g.e
    && |First(g, x, y)[i]| == |Middle(g, x, y)[i]| == |Last(g, x, y)[i]| == |key.s[i]| == |error| == Pow2(g.e) && c < |error|
    && |a0| == |a1| == |b0| == |b1| == |key.secret| == |error| && g.tables[i].q > 0
    && var t, s, product := g.tables[i], key.secret, Times(Linear(a0, a1, key.secret), Linear(b0, b1, key.secret));
       && DecryptedTrio(t, First(g, x, y)[i], Middle(g, x, y)[i], Last(g, x, y)[i], key.s[i])[c] == product[c] % t.q
       && DecryptedDuo(t, Relinearized(g, First(g, x, y), rows0, i), Relinearized(g, Middle(g, x, y), rows1, i), key.s[i])[c]
            == (product[c] + error[c]) % t.q
  }

  /** Homomorphic multiplication is correct. For two ciphertexts that decrypt to a and b under the secret,
      decrypt_trio of their product returns a * b modulo X^N + 1 and every chain, and decrypt_duo of the
      relinearized product returns a * b plus one integer error, the same on every chain, of which P times
      every coefficient stays below the bound of key switching. */
  lemma MultiplicationIsCorrect(g: Level, x: Pair, a0: seq<int>, a1: seq<int>, y: Pair, b0: seq<int>, b1: seq<int>,
                                words: seq<seq<seq<int>>>, key: Key, noise: int, size: int)
    returns (error: seq<int>)
    requires ValidLevel(g) && PairStands(g, x, a0, a1) && PairStands(g, y, b0, b1) && Alike(g, x, y)
    requires AllWords(g, Forms(g, Last(g, x, y)), words) && KeyFor(g, key) && SmallKey(g, key, noise, size)
    requires key.former == Times(key.secret, key.secret)
    ensures RowsFit(g, words, key.a) && RowsFit(g, words, key.b) && |error| == Pow2(g.e)
    ensures forall i, c :: 0 <= i < g.chains && 0 <= c < |error| ==>
      DecryptsProduct(g, x, a0, a1, y, b0, b1, DownRows(g, words, key.b), DownRows(g, words, key.a), key, error, i, c)
    ensures g.chains <= |g.tables| && forall p :: 0 <= p < |g.partitions| ==> Inside(g, p)
    ensures forall c :: 0 <= c < |error| ==> -Bound(g, noise, size) <= Specials(g) * error[c] <= Bound(g, noise, size)
    ensures LargeSpecials(g) ==> forall c :: 0 <= c < |error| ==>
      -(Pow2(g.e) * (|g.partitions| * noise + 3 * size) + 3) <= error[c] <= Pow2(g.e) * (|g.partitions| * noise + 3 * size) + 3
  {
    hide *;
    PairsAlike(g, x, a0, a1, y, b0, b1);
    ProductRowsStand(g, x, a0, a1, y, b0, b1);
    SecretSize(g, key);
    var u0, u1, u2 := First(g, x, y), Middle(g, x, y), Last(g, x, y);
    var c0, c1, c2 := Times(a0, b0), Plus(Times(a0, b1), 1, Times(a1, b0)), Times(a1, b1);
    error := RelinearizationIsCorrect(g, u0, c0, u1, c1, u2, c2, words, key, noise, size);
    if LargeSpecials(g) { SwitchingErrorIsSmall(g, key, noise, size, error); }
    forall i, c | 0 <= i < g.chains && 0 <= c < |error|
      ensures DecryptsProduct(g, x, a0, a1, y, b0, b1, DownRows(g, words, key.b), DownRows(g, words, key.a), key, error, i, c)
    {
      DecryptsAt(g, x, a0, a1, y, b0, b1, DownRows(g, words, key.b), DownRows(g, words, key.a), key, error, i, c);
    }
  }

  lemma SecretSize(g: Level, key: Key)
    requires ValidLevel(g) && KeyFor(g, key)
    ensures |key.secret| == |key.former| == Pow2(g.e) && |g.tables| == |g.psi|
  {
    LevelSizes(g);
    assert KeyMade(g, key, 0, 0);
    hide *;
    MadeMeans(g, key, 0, 0);
    KeyShapes(g, key, 0);
  }

  lemma DecryptsAt(g: Level, x: Pair, a0: seq<int>, a1: seq<int>, y: Pair, b0: seq<int>, b1: seq<int>,
                   rows0: seq<seq<int>>, rows1: seq<seq<int>>, key: Key, error: seq<int>, i: nat, c: nat)
    requires ValidLevel(g) && Alike(g, x, y) && KeyFor(g, key) && |a0| == |a1| == |b0| == |b1| == |key.secret| == |error|
    requires RowsStand(g, First(g, x, y), Times(a0, b0)) && RowsStand(g, Last(g, x, y), Times(a1, b1))
    requires RowsStand(g, Middle(g, x, y), Plus(Times(a0, b1), 1, Times(a1, b0))) && i < g.chains && c < |error|
    requires forall k :: 0 <= k < |error| ==>
      Relinearizes(g, First(g, x, y), rows0, Middle(g, x, y), rows1,
                   Quadratic(Times(a0, b0), Plus(Times(a0, b1), 1, Times(a1, b0)), Times(a1, b1), key.secret), key.secret, error, i, k)
    ensures DecryptsProduct(g, x, a0, a1, y, b0, b1, rows0, rows1, key, error, i, c)
  {
    hide *;
    LevelSizes(g);
    TableAt(g, i);
    SecretStands(g, key, i);
    var u0, u1, u2 := First(g, x, y), Middle(g, x, y), Last(g, x, y);
    var c0, c1, c2 := Times(a0, b0), Plus(Times(a0, b1), 1, Times(a1, b0)), Times(a1, b1);
    var sum := Quadratic(c0, c1, c2, key.secret);
    RowStands(g, u0, c0, i);
    RowStands(g, u1, c1, i);
    RowStands(g, u2, c2, i);
    var t, psi, psiInverse := g.tables[i], g.psi[i], g.psiInverse[i];
    RelinearizedMeans(g, u0, rows0, u1, rows1, sum, key.secret, error, i, c);
    var z0, z1 := Relinearized(g, u0, rows0, i), Relinearized(g, u1, rows1, i);
    forall k | 0 <= k < |error| ensures 0 <= z0[k] < t.q && 0 <= z1[k] < t.q {
      RelinearizedMeans(g, u0, rows0, u1, rows1, sum, key.secret, error, i, k);
    }
    LazyFrom(z0, t.q);
    LazyFrom(z1, t.q);
    ValidModulus(t, psi, psiInverse);
    DecryptDuoMeans(t, psi, psiInverse, z0, z1, key.s[i], key.secret, c);
    DecryptTrioMeans(t, psi, psiInverse, u0[i], c0, u1[i], c1, u2[i], c2, key.s[i], key.secret, c);
    ProductOfLinears(t, psi, psiInverse, a0, a1, b0, b1, key.secret, c);
    var product := Times(Linear(a0, a1, key.secret), Linear(b0, b1, key.secret));
    SameResidue(sum[c], product[c], t.q);
    ErrorAdded(Linear(z0, z1, key.secret)[c], sum[c], product[c], error[c], t.q);
    AlikeSizes(g, x, y);
    DecryptsFrom(g, x, a0, a1, y, b0, b1, rows0, rows1, key, error, i, c);
  }

  lemma RelinearizedMeans(g: Level, u0: seq<seq<int>>, rows0: seq<seq<int>>, u1: seq<seq<int>>, rows1: seq<seq<int>>, sum: seq<int>, s: seq<int>,
                          error: seq<int>, i: nat, c: nat)
    requires Relinearizes(g, u0, rows0, u1, rows1, sum, s, error, i, c)
    ensures Divisible(g, rows0) && Divisible(g, rows1) && i < g.chains == |u0| == |u1|
    ensures |u0[i]| == |u1[i]| == |s| == |sum| == |error| == Pow2(g.e) && c < |error| && g.chains <= |g.tables|
    ensures var z0, z1 := Relinearized(g, u0, rows0, i), Relinearized(g, u1, rows1, i);
      && 0 <= z0[c] < g.tables[i].q && 0 <= z1[c] < g.tables[i].q
      && Cong(Linear(z0, z1, s)[c], sum[c] + error[c], g.tables[i].q)
  {
    hide Cong, Linear, Relinearized, Pow2, ModDown.Shape;
  }

  lemma LazyFrom(z: seq<int>, q: int)
    requires forall k :: 0 <= k < |z| ==> 0 <= z[k] < q
    ensures InRange(z, 0, 2 * q)
  {
  }

  lemma SameResidue(a: int, b: int, q: int)
    requires Cong(a, b, q)
    ensures q > 0 && a % q == b % q
  {
  }

  lemma ErrorAdded(left: int, sum: int, product: int, error: int, q: int)
    requires Cong(left, sum + error, q) && Cong(sum, product, q)
    ensures q > 0 && left % q == (product + error) % q
  {
    RingOf(sum, product, q);
    Refl(error, q);
    Add(sum, product, error, error, q);
    hide *;
    Trans(left, sum + error, product + error, q);
    SameResidue(left, product + error, q);
  }

  lemma AlikeSizes(g: Level, x: Pair, y: Pair)
    requires Alike(g, x, y)
    ensures |First(g, x, y)| == |Middle(g, x, y)| == |Last(g, x, y)| == |x.x0|
  {
  }

  lemma DecryptsFrom(g: Level, x: Pair, a0: seq<int>, a1: seq<int>, y: Pair, b0: seq<int>, b1: seq<int>,
                     rows0: seq<seq<int>>, rows1: seq<seq<int>>, key: Key, error: seq<int>, i: nat, c: nat)
    requires Alike(g, x, y) && Divisible(g, rows0) && Divisible(g, rows1) && i < g.chains == |x.x0| && i < |key.s| && g.tables[i].e == g.e
    requires |First(g, x, y)[i]| == |Middle(g, x, y)[i]| == |Last(g, x, y)[i]| == |key.s[i]| == |error| == Pow2(g.e) && c < |error|
    requires |a0| == |a1| == |b0| == |b1| == |key.secret| == |error| && g.tables[i].q > 0
    requires var t, s, product := g.tables[i], key.secret, Times(Linear(a0, a1, key.secret), Linear(b0, b1, key.secret));
      && DecryptedTrio(t, First(g, x, y)[i], Middle(g, x, y)[i], Last(g, x, y)[i], key.s[i])[c] == product[c] % t.q
      && DecryptedDuo(t, Relinearized(g, First(g, x, y), rows0, i), Relinearized(g, Middle(g, x, y), rows1, i), key.s[i])[c]
           == (product[c] + error[c]) % t.q
    ensures DecryptsProduct(g, x, a0, a1, y, b0, b1, rows0, rows1, key, error, i, c)
  {
    hide Alike, Divisible, First, Middle, Last, Pow2, Times, Linear, DecryptedTrio, DecryptedDuo, Relinearized;
  }
}
