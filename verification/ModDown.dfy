/** Division by the product of the special primes (src/ckks/core_key_switch.cpp): signed, lazily
    reduced rounds that remove one prime at a time. */
module ModDown {
  import opened Congruence
  import opened Montgomery
  import opened Kernels
  import opened Arithmetic
  import opened ResidueBase
  import opened BaseExtension

  // ---------- one word ----------

  /** Words stay strictly between minus a half and one and a half of their modulus. */
  ghost predicate Window(x: int, q: int) {
    -q < 2 * x < 3 * q
  }

  lemma Difference(x: int, y: int, q: int, p: int)
    requires 0 < q && 4 * q <= R && 0 < p && 4 * p <= R && Window(x, q) && 0 <= y && Window(y, p)
    ensures var diff := SubGuard(x, y, 2 * q); Cong(diff, x - y, q) && -3 * p < 2 * diff < 4 * q
    ensures x >= 0 && 3 * p <= 4 * q ==> SubGuard(x, y, 2 * q) >= 0
  {
    FromQuotient(SubGuard(x, y, 2 * q), x - y, q, if x + 2 * q - y < 2 * q then 2 else 0);
  }

  /** The quotient word of a difference, even where the difference is negative. */
  lemma QuotientWindow(t: int, diff: int, c: int, q: int, p: int)
    requires 0 < q && 4 * q <= R && 0 < p && 4 * p <= R && -3 * p < 2 * diff < 4 * q && 0 <= c < q
    requires diff * c <= t * R && t * R <= diff * c + q * (R - 1)
    ensures Window(t, q) && (diff >= 0 ==> t >= 0)
  {
    if diff >= 0 {
      ProductBound(diff, 2 * q, c, q);
      Scaled(2 * q, q, q);
    } else {
      ProductBound(-diff, -diff, c, q);
      Scaled(-diff, p, q);
      TimesNegated(diff, c);
    }
  }

  /** At most three quarters of p times q is less than a quarter of the radix times q. */
  lemma Scaled(e: int, p: int, q: int)
    requires 0 < q && 4 * p <= R && 0 <= e && (2 * e < 3 * p || (e == 2 * q && p == q))
    ensures 2 * e < 3 * p ==> 8 * (e * q) <= 3 * (R * q)
    ensures e == 2 * q ==> 2 * (e * q) <= R * q
  {
    hide *;
    if 2 * e < 3 * p { TimesMonotone(8 * e, 3 * R, q); } else { TimesMonotone(2 * e, R, q); }
  }

  lemma SubEnterMeaning(x: int, y: int, c: int, p: int, q: int, k: int)
    requires MontModulus(q, k) && 0 < p && 4 * p <= R && Window(x, q) && 0 <= y && Window(y, p)
    requires InverseConstant(c, p, q)
    ensures var t := Scalar(SubEnter(c), x, y, x, q, k);
      Window(t, q) && Cong(t * p, x - y, q) && (x >= 0 && 3 * p <= 4 * q ==> t >= 0)
  {
    hide MontMultScalar, Cong, SubGuard;
    var diff := SubGuard(x, y, 2 * q);
    Difference(x, y, q, p);
    MontByConstant(diff, c, q, k);
    var t := MontMultScalar(diff, c, q, k);
    QuotientWindow(t, diff, c, q, p);
    var j := RadixInverse(q, k);
    QuotientAlgebra(t, diff, c, p, j, q);
    Trans(t * p, diff, x - y, q);
  }

  /** make_unsigned_reduce_2q_to_q inside the window. */
  lemma MakeUnsigned(x: int, q: int, k: int)
    requires 0 < q && 4 * q <= R && Window(x, q)
    ensures var y := Scalar(MakeUnsignedReduce, x, x, x, q, k); 0 <= y < q && Cong(y, x, q)
  {
    FromQuotient(Scalar(MakeUnsignedReduce, x, x, x, q, k), x, q, if x < 0 then 1 else if x < q then 0 else -1);
  }

  // ---------- one column, one round ----------

  /** One round: the last row divides the rows before it. */
  function Round(x: seq<int>, m: seq<Modulus>, inverse: seq<int>): (y: seq<int>)
    requires 0 < |x| <= |m| && |x| - 1 <= |inverse|
    ensures |y| == |x| - 1
  {
    seq(|x| - 1, i requires 0 <= i < |x| - 1 => Scalar(SubEnter(inverse[i]), x[i], x[|x| - 1], x[i], m[i].q, m[i].k))
  }

  /** Every row represents the value within its window, the special rows without sign. */
  ghost predicate Represents(x: seq<int>, m: seq<Modulus>, chains: nat, value: int) {
    && |x| <= |m|
    && (forall i :: 0 <= i < |x| ==> Window(x[i], m[i].q) && Cong(x[i], value, m[i].q))
    && forall i :: chains <= i < |x| ==> x[i] >= 0
  }

  /** Every special prime is at most four thirds of the special primes removed after it. */
  ghost predicate SpecialSizes(m: seq<Modulus>, chains: nat) {
    forall j, c :: chains <= j < c < |m| ==> 3 * m[c].q <= 4 * m[j].q
  }

  ghost predicate RoundConstants(inverse: seq<int>, m: seq<Modulus>, n: nat) {
    && n < |m| && |inverse| >= n
    && forall i :: 0 <= i < n ==> InverseConstant(inverse[i], m[n].q, m[i].q)
  }

  lemma ExactQuotient(value: int, y: int, p: int) returns (quotient: int)
    requires p > 0 && Cong(y, value, p) && 0 <= y && Window(y, p)
    ensures value == quotient * p + y
    ensures value / p - 1 <= quotient <= value / p && (y < p ==> quotient == value / p)
  {
    Sym(y, value, p);
    quotient := Quotient(value, y, p);
    if y < p {
      DivModUnique(value, quotient, y, p);
    } else {
      DivModUnique(value, quotient + 1, y - p, p);
    }
  }

  lemma RowQuotient(t: int, x: int, y: int, value: int, quotient: int, c: int, p: int, q: int, k: int)
    requires MontModulus(q, k) && InverseConstant(c, p, q) && Cong(t * p, x - y, q) && Cong(x, value, q)
    requires value == quotient * p + y
    ensures Cong(t, quotient, q)
  {
    hide Cong;
    var j := RadixInverse(q, k);
    MulRight(c * p, R, j, q);
    assert (c * p) * j == p * (c * j);
    Trans(p * (c * j), R * j, 1, q);
    Refl(y, q);
    Sub(x, value, y, y, q);
    Trans(t * p, x - y, value - y, q);
    assert t * p == p * t && quotient * p == p * quotient;
    Cancel(p, c * j, t, quotient, q);
  }

  /** One round divides the represented value by the removed prime, rounding down once or twice. */
  lemma RoundMeaning(x: seq<int>, m: seq<Modulus>, inverse: seq<int>, chains: nat, value: int) returns (quotient: int)
    requires Base(m) && Represents(x, m, chains, value) && chains < |x| && SpecialSizes(m, chains)
    requires RoundConstants(inverse, m, |x| - 1)
    ensures Represents(Round(x, m, inverse), m, chains, quotient)
    ensures var p := m[|x| - 1].q; p > 0 && value / p - 1 <= quotient <= value / p
    ensures x[|x| - 1] < m[|x| - 1].q ==> quotient == value / m[|x| - 1].q
  {
    hide MontModulus, Cong, InverseConstant, Window, Scalar;
    var n := |x| - 1;
    var y, p := x[n], m[n].q;
    BaseAt(m, n);
    quotient := ExactQuotient(value, y, p);
    forall i | 0 <= i < n
      ensures var t := Scalar(SubEnter(inverse[i]), x[i], y, x[i], m[i].q, m[i].k);
        Window(t, m[i].q) && Cong(t, quotient, m[i].q) && (i >= chains ==> t >= 0)
    {
      BaseAt(m, i);
      SubEnterMeaning(x[i], y, inverse[i], p, m[i].q, m[i].k);
      RowQuotient(Scalar(SubEnter(inverse[i]), x[i], y, x[i], m[i].q, m[i].k), x[i], y, value, quotient,
                  inverse[i], p, m[i].q, m[i].k);
    }
  }

  // ---------- all rounds ----------

  ghost predicate Shape(n: nat, inverses: seq<seq<int>>, s: nat) {
    s <= |inverses| && s <= n && forall c :: 0 <= c < s ==> |inverses[c]| >= n - 1 - c
  }

  ghost function Rounds(x: seq<int>, m: seq<Modulus>, inverses: seq<seq<int>>, s: nat): (y: seq<int>)
    requires |x| <= |m| && Shape(|x|, inverses, s)
    ensures |y| == |x| - s
  {
    if s == 0 then x else Round(Rounds(x, m, inverses, s - 1), m, inverses[s - 1])
  }

  /** The product of the s last moduli among the first n. */
  function Removed(m: seq<Modulus>, n: nat, s: nat): int
    requires s <= n <= |m|
  {
    if s == 0 then 1 else Removed(m, n, s - 1) * m[n - s].q
  }

  /** p_inverse_mult_r_: round c divides by modulus n - 1 - c. */
  ghost predicate ValidInverses(inverses: seq<seq<int>>, m: seq<Modulus>, n: nat, s: nat) {
    s <= |inverses| && s <= n <= |m| && forall c :: 0 <= c < s ==> RoundConstants(inverses[c], m, n - 1 - c)
  }

  lemma ShapeOf(inverses: seq<seq<int>>, m: seq<Modulus>, n: nat, s: nat)
    requires ValidInverses(inverses, m, n, s)
    ensures Shape(n, inverses, s)
  {
    hide InverseConstant;
  }

  lemma NestedDivision(a: int, p: int, q: int)
    requires p > 0 && q > 0
    ensures p * q > 0 && (a / p) / q == a / (p * q)
  {
    var d, r := a / p, a % p;
    var e, c := d / q, d % q;
    assert a == d * p + r && d == e * q + c;
    AtLeast(q - c, p);
    assert (q - c) * p == p * q - c * p && c * p >= 0;
    assert (e * q) * p == e * (p * q);
    DivModUnique(a, e, c * p + r, p * q);
  }

  /** At least two, so that an error of two shrinks to one. */
  lemma ErrorShrinks(a: int, b: int, p: int)
    requires p >= 2 && a - 2 <= b <= a
    ensures a / p - 1 <= b / p <= a / p
  {
    DivMonotone(b, a, p);
    DivMonotone(a - p, b, p);
    DivModUnique(a - p, a / p - 1, a % p, p);
  }

  lemma DivMonotone(a: int, b: int, p: int)
    requires p > 0 && a <= b
    ensures a / p <= b / p
  {
    if a / p > b / p { Gap(a / p, b / p, p); }
  }

  lemma Gap(d: int, e: int, p: int)
    requires d > e && p > 0
    ensures d * p >= e * p + p
  {
    AtLeast(d - e, p);
  }

  ghost predicate ReducedRows(x: seq<int>, m: seq<Modulus>, value: int) {
    |x| <= |m| && forall i :: 0 <= i < |x| ==> 0 <= x[i] < m[i].q && Cong(x[i], value, m[i].q)
  }

  lemma {:induction false} RoundsMeaning(x: seq<int>, m: seq<Modulus>, inverses: seq<seq<int>>, chains: nat, value: int, s: nat)
    returns (quotient: int)
    requires Base(m) && (forall i :: 0 <= i < |m| ==> m[i].q > 1) && SpecialSizes(m, chains)
    requires |x| == |m| && ReducedRows(x, m, value) && chains + s <= |x| && ValidInverses(inverses, m, |x|, s)
    ensures Shape(|x|, inverses, s) && Represents(Rounds(x, m, inverses, s), m, chains, quotient)
    ensures Removed(m, |x|, s) > 0
    ensures value / Removed(m, |x|, s) - 2 <= quotient <= value / Removed(m, |x|, s)
    ensures s <= 1 ==> quotient == value / Removed(m, |x|, s)
  {
    hide MontModulus, Cong, InverseConstant, Scalar, Round, Represents;
    ShapeOf(inverses, m, |x|, s);
    if s == 0 {
      quotient := value;
      StartRepresents(x, m, chains, value);
    } else {
      var before := RoundsMeaning(x, m, inverses, chains, value, s - 1);
      var p := m[|x| - s].q;
      var rows := Rounds(x, m, inverses, s - 1);
      quotient := RoundMeaning(rows, m, inverses[s - 1], chains, before);
      var product := Removed(m, |x|, s - 1);
      NestedDivision(value, product, p);
      ErrorShrinks(value / product, before, p);
    }
  }

  lemma StartRepresents(x: seq<int>, m: seq<Modulus>, chains: nat, value: int)
    requires Base(m) && ReducedRows(x, m, value)
    ensures Represents(x, m, chains, value)
  {
    hide MontModulus, Cong;
  }

  /** mod_down on one coefficient. */
  ghost function Down(x: seq<int>, m: seq<Modulus>, inverses: seq<seq<int>>, s: nat, i: nat): int
    requires |x| <= |m| && Shape(|x|, inverses, s) && i + s < |x|
  {
    var y := Rounds(x, m, inverses, s)[i];
    Scalar(MakeUnsignedReduce, y, y, y, m[i].q, m[i].k)
  }

  /** From canonical residues of any integer, with the special primes last, mod_down leaves on every
      remaining modulus the canonical residue of one common integer, which is the rounded-down quotient
      by the product of the special primes or at most two below it, and exact for one special prime. */
  lemma ModDownQuotient(x: seq<int>, m: seq<Modulus>, inverses: seq<seq<int>>, chains: nat, value: int)
    returns (quotient: int)
    requires Base(m) && (forall i :: 0 <= i < |m| ==> m[i].q > 1) && SpecialSizes(m, chains)
    requires |x| == |m| && chains <= |m| && ReducedRows(x, m, value)
    requires ValidInverses(inverses, m, |m|, |m| - chains)
    ensures Shape(|m|, inverses, |m| - chains)
    ensures forall i :: 0 <= i < chains ==> Down(x, m, inverses, |m| - chains, i) == quotient % m[i].q
    ensures var p := Removed(m, |m|, |m| - chains);
      p > 0 && value / p - 2 <= quotient <= value / p && (chains + 1 >= |m| ==> quotient == value / p)
  {
    hide MontModulus, Cong, Rounds, Scalar;
    quotient := RoundsMeaning(x, m, inverses, chains, value, |m| - chains);
    forall i | 0 <= i < chains ensures Down(x, m, inverses, |m| - chains, i) == quotient % m[i].q {
      var y := Rounds(x, m, inverses, |m| - chains)[i];
      BaseAt(m, i);
      MakeUnsigned(y, m[i].q, m[i].k);
      CanonicalResidue(Scalar(MakeUnsignedReduce, y, y, y, m[i].q, m[i].k), y, quotient, m[i].q);
    }
  }

  lemma CanonicalResidue(r: int, y: int, value: int, q: int)
    requires 0 <= r < q && Cong(r, y, q) && Cong(y, value, q)
    ensures r == value % q
  {
  }

  // ---------- the loops over rows ----------

  /** Row i of the buffer after s rounds, for all coefficients at once. */
  ghost predicate RowIs(row: seq<int>, xs: seq<seq<int>>, m: seq<Modulus>, inverses: seq<seq<int>>, s: nat, i: nat) {
    && |row| == |xs|
    && forall t :: 0 <= t < |row| ==>
         |xs[t]| <= |m| && Shape(|xs[t]|, inverses, s) && i + s < |xs[t]| && row[t] == Rounds(xs[t], m, inverses, s)[i]
  }

  lemma RowStep(row: seq<int>, last: seq<int>, row': seq<int>, xs: seq<seq<int>>, m: seq<Modulus>, inverses: seq<seq<int>>, s: nat, n: nat, i: nat)
    requires i < n - 1 - s && RowIs(row, xs, m, inverses, s, i) && RowIs(last, xs, m, inverses, s, n - 1 - s)
    requires n <= |m| && Shape(n, inverses, s + 1) && forall t :: 0 <= t < |xs| ==> |xs[t]| == n
    requires row' == Apply(SubEnter(inverses[s][i]), row, last, row, m[i].q, m[i].k)
    ensures RowIs(row', xs, m, inverses, s + 1, i)
  {
    hide Scalar;
  }

  lemma RowStart(row: seq<int>, xs: seq<seq<int>>, m: seq<Modulus>, inverses: seq<seq<int>>, i: nat)
    requires |row| == |xs| && forall t :: 0 <= t < |row| ==> i < |xs[t]| <= |m| && row[t] == xs[t][i]
    ensures RowIs(row, xs, m, inverses, 0, i)
  {
  }

  lemma RowEnd(row: seq<int>, row': seq<int>, y: seq<int>, xs: seq<seq<int>>, m: seq<Modulus>, inverses: seq<seq<int>>, s: nat, i: nat)
    requires RowIs(row, xs, m, inverses, s, i) && |y| == |row| && i < |m|
    requires row' == Apply(MakeUnsignedReduce, row, row, y, m[i].q, m[i].k)
    ensures |row'| == |xs|
    ensures forall t :: 0 <= t < |xs| ==>
      |xs[t]| <= |m| && Shape(|xs[t]|, inverses, s) && i + s < |xs[t]| && row'[t] == Down(xs[t], m, inverses, s, i)
  {
    hide Rounds;
  }

  /** The rounds of mod_down, in place on the rows of x, and the final reduction into y. */
  method Divide(x: seq<array<int>>, y: seq<array<int>>, m: seq<Modulus>, inverses: seq<seq<int>>, s: nat, n: nat)
    requires |x| == |m| && s <= |x| && |y| == |x| - s && Shape(|x|, inverses, s)
    requires Rows(x, n) && Rows(y, n) && Apart(x, y)
    modifies x, y
    ensures forall t, i :: 0 <= t < n && 0 <= i < |y| ==>
      y[i][t] == Down(Column(old(Contents(x)), t), m, inverses, s, i)
  {
    hide Down, RowIs, Scalar, Apply, Contents, Column;
    ghost var rows := Contents(x);
    ghost var xs := seq(n, t requires 0 <= t < n => Column(rows, t));
    forall i | 0 <= i < |x| ensures RowIs(x[i][..], xs, m, inverses, 0, i) {
      RowStart(x[i][..], xs, m, inverses, i);
    }
    var reduced := |x|;
    for c := 0 to s
      invariant reduced == |x| - c
      invariant forall i :: 0 <= i < reduced ==> RowIs(x[i][..], xs, m, inverses, c, i)
    {
      reduced := reduced - 1;
      for i := 0 to reduced
        invariant forall j :: 0 <= j < i ==> RowIs(x[j][..], xs, m, inverses, c + 1, j)
        invariant forall j :: i <= j <= reduced ==> RowIs(x[j][..], xs, m, inverses, c, j)
      {
        ghost var row := x[i][..];
        Run(SubEnter(inverses[c][i]), x[i], x[reduced], x[i], m[i].q, m[i].k);
        RowStep(row, x[reduced][..], x[i][..], xs, m, inverses, c, |x|, i);
      }
    }
    for i := 0 to reduced
      invariant forall j :: 0 <= j < reduced ==> RowIs(x[j][..], xs, m, inverses, s, j)
      invariant forall j, t :: 0 <= j < i && 0 <= t < n ==> y[j][t] == Down(xs[t], m, inverses, s, j)
    {
      ghost var before := y[i][..];
      Run(MakeUnsignedReduce, x[i], x[i], y[i], m[i].q, m[i].k);
      RowEnd(x[i][..], y[i][..], before, xs, m, inverses, s, i);
      assert forall t :: 0 <= t < n ==> y[i][t] == y[i][..][t];
    }
    forall t, i | 0 <= t < n && 0 <= i < |y| ensures y[i][t] == Down(Column(rows, t), m, inverses, s, i) {
      assert xs[t] == Column(rows, t);
    }
  }
}
