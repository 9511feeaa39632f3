/** rescale_once_ (src/ckks/core_rescale.cpp): division by the first modulus, rounded to nearest.

    The rounding bit is taken from the residue that goes away; every other row is divided exactly and
    then incremented by it. */
module Rescale {
  import opened Congruence
  import opened Montgomery
  import opened Kernels
  import opened Arithmetic
  import opened ResidueBase
  import opened BaseExtension
  import ModDown

  /** The word of one remaining modulus after the first `step` of the five kernels that follow
      get_rounder; x0 is the residue modulo the modulus that goes away. */
  function Word(step: nat, x0: int, x: int, scale: int, q0: int, m: Modulus): int
    requires step <= 5
  {
    if step == 0 then x
    else
      var w := Word(step - 1, x0, x, scale, q0, m);
      if step == 1 then Scalar(MontSubtract, w, x0, w, m.q, m.k)
      else if step == 3 then Scalar(MontEnter(scale), w, w, w, m.q, m.k)
      else if step == 4 then Scalar(MontAdd, w, Scalar(GetRounder, x0, x0, w, q0, 0), w, m.q, m.k)
      else Scalar(Reduce, w, w, w, m.q, m.k)
  }

  function Rescaled(x0: int, x: int, scale: int, q0: int, m: Modulus): int {
    Word(5, x0, x, scale, q0, m)
  }

  function RoundToNearest(value: int, q0: int): int
    requires q0 > 0
  {
    (2 * value + q0) / (2 * q0)
  }

  /** Removing the residue and adding the rounding bit rounds to nearest; a residue equal to the
      modulus counts as a full step. */
  lemma RoundingBit(value: int, x0: int, quotient: int, q0: int)
    requires q0 > 0 && q0 % 2 == 1 && 0 <= x0 <= q0 && value == quotient * q0 + x0
    ensures RoundToNearest(value, q0) == quotient + (if x0 > q0 / 2 then 1 else 0)
  {
    var bit := if x0 > q0 / 2 then 1 else 0;
    var rest := 2 * x0 + q0 - bit * (2 * q0);
    assert 2 * value + q0 == (quotient + bit) * (2 * q0) + rest by {
      assert (quotient + bit) * (2 * q0) == 2 * (quotient * q0) + bit * (2 * q0);
    }
    DivModUnique(2 * value + q0, quotient + bit, rest, 2 * q0);
  }

  /** The first two kernels: a representative of the difference, reduced if the moduli are close. */
  lemma DifferenceWord(x0: int, x: int, scale: int, q0: int, m: Modulus)
    requires 0 < m.q && 4 * m.q <= R && 0 < q0 && 4 * q0 <= R && 0 <= x0 <= q0 && 0 <= x <= m.q
    ensures var w := Word(2, x0, x, scale, q0, m);
      Cong(w, x - x0, m.q) && -q0 <= w < 2 * m.q && (q0 <= 2 * m.q ==> 0 <= w < m.q)
  {
    var d := x - x0;
    var a := if d >= 0 then d else d + 2 * m.q;
    assert Word(1, x0, x, scale, q0, m) == a;
    assert Word(2, x0, x, scale, q0, m) == Guard(a, m.q);
    FromQuotient(Guard(a, m.q), d, m.q, (if d >= 0 then 0 else 2) - (if a < m.q then 0 else 1));
  }

  /** The last three kernels. */
  lemma QuotientWord(w: int, bit: int, x0: int, x: int, scale: int, q0: int, m: Modulus)
    requires MontModulus(m.q, m.k) && 0 < q0 && 4 * q0 <= R && InverseConstant(scale, q0, m.q)
    requires w == Word(2, x0, x, scale, q0, m) && -q0 <= w < 2 * m.q && bit == if x0 < 0 || x0 > q0 / 2 then 1 else 0
    ensures var t := MontMultScalar(w, scale, m.q, m.k);
      && Cong(t * q0, w, m.q) && ModDown.Window(t, m.q) && (w >= 0 ==> t >= 0)
      && Word(4, x0, x, scale, q0, m) == AddGuard(t, bit, 2 * m.q)
      && Rescaled(x0, x, scale, q0, m) == Guard(AddGuard(t, bit, 2 * m.q), m.q)
  {
    var t := MontMultScalar(w, scale, m.q, m.k);
    assert Word(3, x0, x, scale, q0, m) == t;
    assert Word(4, x0, x, scale, q0, m) == AddGuard(t, bit, 2 * m.q);
    hide MontMultScalar, Cong, Word;
    MontByConstant(w, scale, m.q, m.k);
    ModDown.QuotientWindow(t, w, scale, m.q, q0);
    var j := RadixInverse(m.q, m.k);
    QuotientAlgebra(t, w, scale, q0, j, m.q);
  }

  /** From any integer with the given residues in [0, q], one remaining modulus receives a
      representative of round-to-nearest of the quotient, canonical if q0 <= 2q. */
  lemma RescaleRounds(value: int, x0: int, x: int, scale: int, q0: int, m: Modulus)
    requires MontModulus(m.q, m.k) && 0 < q0 && 4 * q0 <= R && q0 % 2 == 1 && InverseConstant(scale, q0, m.q)
    requires 0 <= x0 <= q0 && 0 <= x <= m.q && Cong(value, x0, q0) && Cong(value, x, m.q)
    ensures Cong(Rescaled(x0, x, scale, q0, m), RoundToNearest(value, q0), m.q)
    ensures q0 <= 2 * m.q ==> Rescaled(x0, x, scale, q0, m) == RoundToNearest(value, q0) % m.q
  {
    hide Cong, Word, MontMultScalar, Rescaled, RoundToNearest;
    var bit := if x0 > q0 / 2 then 1 else 0;
    DifferenceWord(x0, x, scale, q0, m);
    var w := Word(2, x0, x, scale, q0, m);
    QuotientWord(w, bit, x0, x, scale, q0, m);
    var t := MontMultScalar(w, scale, m.q, m.k);
    var quotient := Quotient(value, x0, q0);
    RoundingBit(value, x0, quotient, q0);
    Sym(value, x, m.q);
    DifferenceAlgebra(t, x, x0, w, value, quotient, scale, q0, m);
    Bit(t, bit, quotient, m.q);
    if q0 <= 2 * m.q { Canonical(Rescaled(x0, x, scale, q0, m), RoundToNearest(value, q0), m.q); }
  }

  /** Rescaling with row c of the computed table divides by modulus c: on every later modulus the word
      stands for the nearest integer to value / m[c].q, of which there is only one. */
  lemma RescaleWithTable(m: seq<Modulus>, scales: seq<seq<int>>, c: nat, i: nat, x0: int, x: int, value: int) returns (nearest: int)
    requires Base(m) && |scales| == |m| - 1 && c < |scales| && |scales[c]| == |m| - 1 - c && i < |scales[c]|
    requires Invertible(m[c].q, m[c + 1 + i].q)
    requires forall b, j :: 0 <= b < |scales| && 0 <= j < |scales[b]| && b + 1 + j < |m| && Invertible(m[b].q, m[b + 1 + j].q) ==>
      0 <= scales[b][j] < m[b + 1 + j].q && (scales[b][j] * m[b].q) % m[b + 1 + j].q == R % m[b + 1 + j].q
    requires 0 <= x0 <= m[c].q && Cong(value, x0, m[c].q) && 0 <= x <= m[c + 1 + i].q && Cong(value, x, m[c + 1 + i].q)
    ensures -m[c].q < 2 * (value - nearest * m[c].q) < m[c].q
    ensures forall other :: -m[c].q < 2 * (value - other * m[c].q) < m[c].q ==> other == nearest
    ensures var word, q := Rescaled(x0, x, scales[c][i], m[c].q, m[c + 1 + i]), m[c + 1 + i].q;
      q > 0 && word % q == nearest % q && (m[c].q <= 2 * q ==> word == nearest % q)
  {
    hide Cong, Invertible, Rescaled, RoundToNearest, MontModulus;
    BaseAt(m, c);
    BaseAt(m, c + 1 + i);
    OddModulus(m, c);
    nearest := RoundToNearest(value, m[c].q);
    NearestIs(value, m[c].q);
    forall other | -m[c].q < 2 * (value - other * m[c].q) < m[c].q ensures other == nearest {
      OneNearest(value, other, nearest, m[c].q);
    }
    WordWithConstant(value, x0, x, scales[c][i], m[c].q, m[c + 1 + i]);
  }

  lemma OneNearest(value: int, a: int, b: int, q: int)
    requires q > 0 && -q < 2 * (value - a * q) < q && -q < 2 * (value - b * q) < q
    ensures a == b
  {
    if a < b { AtLeast(b - a, q); ApartBy(a, b, q); }
    if b < a { AtLeast(a - b, q); ApartBy(b, a, q); }
  }

  lemma ApartBy(a: int, b: int, q: int)
    ensures (b - a) * q == b * q - a * q
  {
  }

  lemma WordWithConstant(value: int, x0: int, x: int, scale: int, q0: int, m: Modulus)
    requires MontModulus(m.q, m.k) && 0 < q0 && 4 * q0 <= R && q0 % 2 == 1
    requires 0 <= scale < m.q && (scale * q0) % m.q == R % m.q
    requires 0 <= x0 <= q0 && 0 <= x <= m.q && Cong(value, x0, q0) && Cong(value, x, m.q)
    ensures var word, q, nearest := Rescaled(x0, x, scale, q0, m), m.q, RoundToNearest(value, q0);
      q > 0 && word % q == nearest % q && (q0 <= 2 * q ==> word == nearest % q)
  {
    hide Rescaled, RoundToNearest;
    InverseWritten(scale, q0, m.q);
    RescaleRounds(value, x0, x, scale, q0, m);
    SameRemainder(Rescaled(x0, x, scale, q0, m), RoundToNearest(value, q0), m.q);
  }

  lemma InverseWritten(c: int, p: int, q: int)
    requires q > 0 && 0 <= c < q && (c * p) % q == R % q
    ensures InverseConstant(c, p, q)
  {
  }

  lemma SameRemainder(a: int, b: int, q: int)
    requires Cong(a, b, q)
    ensures q > 0 && a % q == b % q
  {
  }

  /** For an odd modulus no number lies halfway. */
  lemma NearestIs(value: int, q0: int)
    requires q0 > 0 && q0 % 2 == 1
    ensures -q0 < 2 * (value - RoundToNearest(value, q0) * q0) < q0
  {
    var n, rest := RoundToNearest(value, q0), (2 * value + q0) % (2 * q0);
    assert 2 * value + q0 == n * (2 * q0) + rest;
    Doubled(n, q0);
  }

  lemma Doubled(n: int, q: int)
    ensures n * (2 * q) == 2 * (n * q)
  {
  }

  lemma Canonical(r: int, value: int, q: int)
    requires 0 <= r < q && Cong(r, value, q)
    ensures r == value % q
  {
  }

  lemma DifferenceAlgebra(t: int, x: int, x0: int, w: int, value: int, quotient: int, scale: int, q0: int, m: Modulus)
    requires MontModulus(m.q, m.k) && InverseConstant(scale, q0, m.q) && value == quotient * q0 + x0
    requires Cong(t * q0, w, m.q) && Cong(w, x - x0, m.q) && Cong(x, value, m.q)
    ensures Cong(t, quotient, m.q)
  {
    hide Cong;
    Trans(t * q0, w, x - x0, m.q);
    ModDown.RowQuotient(t, x, x0, value, quotient, scale, q0, m.q, m.k);
  }

  lemma Bit(t: int, bit: int, quotient: int, q: int)
    requires 0 < q && 4 * q <= R && ModDown.Window(t, q) && 0 <= bit <= 1 && Cong(t, quotient, q)
    ensures var r := Guard(AddGuard(t, bit, 2 * q), q); Cong(r, quotient + bit, q) && (t >= 0 ==> 0 <= r < q)
  {
    var sum := AddGuard(t, bit, 2 * q);
    var r := Guard(sum, q);
    FromQuotient(r, t + bit, q, (if t + bit < 2 * q then 0 else -2) + (if sum < q then 0 else -1));
    hide *;
    Refl(bit, q);
    Add(t, quotient, bit, bit, q);
    Trans(r, t + bit, quotient + bit, q);
  }

  /** When the word of one modulus is negative, with u the quotient modulo q: the difference stays
      negative after 2q has been added, its quotient lies below zero, and no rounding bit lifts it to 0. */
  predicate Negative(u: int, x0: int, x: int, scale: int, q0: int, q: int) {
    x0 > x + 2 * q && (q - u) * R <= (x0 - x - 2 * q) * scale && !(u == q - 1 && x0 > q0 / 2)
  }

  /** A quotient word between -q/2 and 3q/2 is negative exactly if the product is small enough. */
  lemma NegativeWord(t: int, w: int, c: int, u: int, q: int)
    requires 0 < q && ModDown.Window(t, q) && Cong(t, u, q) && 0 <= u < q && 0 <= c
    requires w * c <= t * R && t * R <= w * c + q * (R - 1) && (w >= 0 ==> t >= 0)
    ensures t < 0 <==> w < 0 && (q - u) * R <= -w * c
    ensures t < 0 ==> t == u - q
  {
    hide *;
    WindowBound(t, q);
    RadixAtLeastOne();
    if t < 0 {
      Shift(t, u, q);
      Unique(t + q, u, 0, q);
      NegatedSum(t, u, q, w, c);
    } else if (q - u) * R <= -w * c {
      var k := Quotient(t, u, q);
      NotBelow(t, u, q, k);
      TimesMonotone(u, t, R);
      NegatedSum(u - q, u, q, w, c);
      PositiveExcess(u, q, w, c, t);
    }
  }

  lemma WindowBound(t: int, q: int)
    requires ModDown.Window(t, q)
    ensures -q < t
  {
  }

  lemma RadixAtLeastOne()
    ensures R >= 1
  {
  }

  lemma Shift(t: int, u: int, q: int)
    requires Cong(t, u, q)
    ensures Cong(t + q, u, q)
  {
    var k := Quotient(t, u, q);
    assert (k + 1) * q == k * q + q;
    FromQuotient(t + q, u, q, k + 1);
  }

  lemma NegatedSum(t: int, u: int, q: int, w: int, c: int)
    ensures t == u - q ==> (q - u) * R == -(t * R) && (w * c <= t * R <==> (q - u) * R <= -w * c)
  {
    assert (-w) * c == -(w * c);
    assert (q - u) == -(u - q);
    TimesNegated(u - q, R);
  }

  lemma NotBelow(t: int, u: int, q: int, k: int)
    requires t == u + k * q && 0 <= t && 0 <= u < q
    ensures t >= u
  {
    if k < 0 { TimesMonotone(k, -1, q); } else { TimesMonotone(0, k, q); }
  }

  lemma PositiveExcess(u: int, q: int, w: int, c: int, t: int)
    requires q > 0 && (q - u) * R <= -w * c && t * R <= w * c + q * (R - 1)
    ensures t * R < u * R
  {
    assert (-w) * c == -(w * c);
    assert (q - u) * R == q * R - u * R && q * (R - 1) == q * R - q;
  }

  /** The exact condition: the word is the canonical residue of the nearest integer unless it is negative,
      and then it is below it by the modulus. Below x + 2q no residue that goes away makes it negative. */
  lemma CanonicalUnlessNegative(value: int, x0: int, x: int, scale: int, q0: int, m: Modulus)
    requires MontModulus(m.q, m.k) && 0 < q0 && 4 * q0 <= R && q0 % 2 == 1 && InverseConstant(scale, q0, m.q)
    requires 0 <= x0 <= q0 && 0 <= x <= m.q && Cong(value, x0, q0) && Cong(value, x, m.q)
    ensures var u, r, nearest := ((value - x0) / q0) % m.q, Rescaled(x0, x, scale, q0, m), RoundToNearest(value, q0) % m.q;
      && (r < 0 <==> Negative(u, x0, x, scale, q0, m.q))
      && (r == nearest <==> !Negative(u, x0, x, scale, q0, m.q))
      && (r < 0 ==> r == nearest - m.q)
    ensures x0 <= x + 2 * m.q ==> Rescaled(x0, x, scale, q0, m) == RoundToNearest(value, q0) % m.q
  {
    hide Cong, Word, MontMultScalar, Rescaled, RoundToNearest;
    var bit := if x0 > q0 / 2 then 1 else 0;
    RescaleRounds(value, x0, x, scale, q0, m);
    DifferenceWord(x0, x, scale, q0, m);
    DifferenceSign(x0, x, scale, q0, m);
    var w := Word(2, x0, x, scale, q0, m);
    QuotientWord(w, bit, x0, x, scale, q0, m);
    var t := MontMultScalar(w, scale, m.q, m.k);
    var quotient := Quotient(value, x0, q0);
    QuotientIs(value, x0, quotient, q0);
    Sym(value, x, m.q);
    DifferenceAlgebra(t, x, x0, w, value, quotient, scale, q0, m);
    var u := quotient % m.q;
    Residue(quotient, m.q);
    Trans(t, quotient, u, m.q);
    MontByConstant(w, scale, m.q, m.k);
    NegativeWord(t, w, scale, u, m.q);
    NegativeIs(w, u, x0, x, scale, q0, m.q);
    hide *;
    Final(t, bit, u, Rescaled(x0, x, scale, q0, m), RoundToNearest(value, q0), m.q, w < 0 && (m.q - u) * R <= -w * scale);
  }

  lemma DifferenceSign(x0: int, x: int, scale: int, q0: int, m: Modulus)
    requires 0 < m.q && 4 * m.q <= R && 0 < q0 && 4 * q0 <= R && 0 <= x0 <= q0 && 0 <= x <= m.q
    ensures var w := Word(2, x0, x, scale, q0, m); (w < 0 <==> x0 > x + 2 * m.q) && (w < 0 ==> w == x - x0 + 2 * m.q)
  {
    var d := x - x0;
    var a := if d >= 0 then d else d + 2 * m.q;
    assert Word(1, x0, x, scale, q0, m) == a;
    assert Word(2, x0, x, scale, q0, m) == Guard(a, m.q);
  }

  lemma QuotientIs(value: int, x0: int, quotient: int, q0: int)
    requires q0 > 0 && value == x0 + quotient * q0
    ensures (value - x0) / q0 == quotient
  {
    DivModUnique(value - x0, quotient, 0, q0);
  }

  lemma NegativeIs(w: int, u: int, x0: int, x: int, scale: int, q0: int, q: int)
    requires (w < 0 <==> x0 > x + 2 * q) && (w < 0 ==> w == x - x0 + 2 * q)
    ensures Negative(u, x0, x, scale, q0, q) <==> (w < 0 && (q - u) * R <= -w * scale && !(u == q - 1 && x0 > q0 / 2))
  {
  }

  /** The rounding bit turns the quotient -1 into 0. */
  lemma Final(t: int, bit: int, u: int, r: int, nearest: int, q: int, small: bool)
    requires 0 < q && 4 * q <= R && ModDown.Window(t, q) && 0 <= bit <= 1 && 0 <= u < q && Cong(t, u, q)
    requires (t < 0 <==> small) && (t < 0 ==> t == u - q) && r == Guard(AddGuard(t, bit, 2 * q), q) && Cong(r, nearest, q)
    ensures r < 0 <==> small && !(u == q - 1 && bit == 1)
    ensures if r < 0 then r == nearest % q - q else r == nearest % q
  {
    hide Cong;
    Bit(t, bit, u, q);
    if t < 0 {
      assert r == t + bit;
      if r < 0 {
        Shift(r, nearest, q);
        Canonical(r + q, nearest, q);
      } else {
        Canonical(r, nearest, q);
      }
    } else {
      Canonical(r, nearest, q);
    }
  }

  /** A real case, for 16384 coefficients: the 60-bit prime inserted at moduli id 0 goes away, and the word
      of the 40-bit prime after it is negative. */
  lemma NotCanonicalBelow()
    ensures var q0, m := 1152921504606683137, Modulus(1099510054913, 4179339079808712703);
      var x0, x, scale := 562460430631906956, 979374294952, 909118082962;
      var value := x0 + q0 * 1047260945164;
      && MontModulus(m.q, m.k) && 4 * q0 <= R && InverseConstant(scale, q0, m.q)
      && Cong(value, x0, q0) && Cong(value, x, m.q) && 0 <= x0 < q0 && 0 <= x < m.q
      && Rescaled(x0, x, scale, q0, m) == -52249109749
  {
    hide *;
    CaseIsReal();
    CanonicalUnlessNegative(562460430631906956 + 1152921504606683137 * 1047260945164, 562460430631906956, 979374294952, 909118082962,
                            1152921504606683137, Modulus(1099510054913, 4179339079808712703));
    CaseQuotient();
    CaseNegative();
    CaseNearest();
  }

  lemma CaseIsReal()
    ensures MontModulus(1099510054913, 4179339079808712703) && InverseConstant(909118082962, 1152921504606683137, 1099510054913)
    ensures Cong(562460430631906956 + 1152921504606683137 * 1047260945164, 979374294952, 1099510054913)
    ensures Cong(562460430631906956 + 1152921504606683137 * 1047260945164, 562460430631906956, 1152921504606683137)
    ensures 4 * 1152921504606683137 <= R
  {
    FromQuotient(562460430631906956 + 1152921504606683137 * 1047260945164, 562460430631906956, 1152921504606683137, 1047260945164);
  }

  lemma CaseQuotient()
    ensures (562460430631906956 + 1152921504606683137 * 1047260945164 - 562460430631906956) / 1152921504606683137 == 1047260945164
  {
  }

  lemma CaseNegative()
    ensures Negative(1047260945164, 562460430631906956, 979374294952, 909118082962, 1152921504606683137, 1099510054913)
  {
  }

  lemma CaseNearest()
    ensures RoundToNearest(562460430631906956 + 1152921504606683137 * 1047260945164, 1152921504606683137) == 1047260945164
  {
  }

  // ---------- the loops over rows ----------

  ghost predicate RowIs(row: seq<int>, x0: seq<int>, x: seq<int>, step: nat, scale: int, q0: int, m: Modulus) {
    && step <= 5 && |row| == |x0| == |x|
    && forall t :: 0 <= t < |row| ==> row[t] == Word(step, x0[t], x[t], scale, q0, m)
  }

  function KernelAt(step: nat, scale: int): Op {
    if step == 0 then MontSubtract else if step == 2 then MontEnter(scale) else if step == 3 then MontAdd else Reduce
  }

  /** The second source of the kernel. */
  ghost predicate SecondIs(second: seq<int>, row: seq<int>, x0: seq<int>, step: nat, q0: int) {
    && |second| == |row| == |x0|
    && (step == 0 ==> second == x0)
    && (step == 3 ==> forall t :: 0 <= t < |x0| ==> second[t] == Scalar(GetRounder, x0[t], x0[t], x0[t], q0, 0))
  }

  lemma RowStep(row: seq<int>, second: seq<int>, y: seq<int>, row': seq<int>, x0: seq<int>, x: seq<int>, step: nat, scale: int, q0: int, m: Modulus)
    requires step < 5 && RowIs(row, x0, x, step, scale, q0, m) && SecondIs(second, row, x0, step, q0) && |y| == |row|
    requires row' == Apply(KernelAt(step, scale), row, second, y, m.q, m.k)
    ensures RowIs(row', x0, x, step + 1, scale, q0, m)
  {
    hide MontMultScalar;
    forall t | 0 <= t < |row| ensures row'[t] == Word(step + 1, x0[t], x[t], scale, q0, m) {
      assert row[t] == Word(step, x0[t], x[t], scale, q0, m);
    }
  }

  /** rescale_once_: x holds one row more than y; rounder is scratch. */
  method RescaleOnce(x: seq<array<int>>, y: seq<array<int>>, rounder: array<int>, q0: int, m: seq<Modulus>, scale: seq<int>, n: nat)
    requires |y| == |m| == |scale| && |x| == |y| + 1 && Rows(y, n) && Apart(x, y)
    requires rounder.Length == n && forall i :: 0 <= i < |x| ==> x[i].Length == n
    requires (forall i :: 0 <= i < |x| ==> x[i] != rounder) && forall i :: 0 <= i < |y| ==> y[i] != rounder
    modifies y, rounder
    ensures forall i, t :: 0 <= i < |y| && 0 <= t < n ==> y[i][t] == Rescaled(x[0][t], x[i + 1][t], scale[i], q0, m[i])
    ensures Contents(x) == old(Contents(x))
  {
    hide Scalar, Apply, RowIs, Word, SecondIs, Contents;
    ghost var rows := Contents(x);
    ghost var scratch := rounder[..];
    Run(GetRounder, x[0], x[0], rounder, q0, 0);
    ghost var bits := rounder[..];
    for i := 0 to |y|
      invariant forall j :: 0 <= j < i ==> RowIs(y[j][..], rows[0], rows[j + 1], 1, scale[j], q0, m[j])
      invariant Contents(x) == rows && rounder[..] == bits
    {
      ghost var before := y[i][..];
      Run(MontSubtract, x[i + 1], x[0], y[i], m[i].q, m[i].k);
      FirstStep(x[i + 1][..], rows[0], before, y[i][..], scale[i], q0, m[i]);
    }
    for step := 1 to 5
      invariant forall j :: 0 <= j < |y| ==> RowIs(y[j][..], rows[0], rows[j + 1], step, scale[j], q0, m[j])
      invariant Contents(x) == rows && rounder[..] == bits
    {
      for i := 0 to |y|
        invariant forall j :: 0 <= j < i ==> RowIs(y[j][..], rows[0], rows[j + 1], step + 1, scale[j], q0, m[j])
        invariant forall j :: i <= j < |y| ==> RowIs(y[j][..], rows[0], rows[j + 1], step, scale[j], q0, m[j])
        invariant Contents(x) == rows && rounder[..] == bits
      {
        ghost var before := y[i][..];
        Run(KernelAt(step, scale[i]), y[i], if step == 3 then rounder else y[i], y[i], m[i].q, m[i].k);
        RoundStep(rows[0], bits, scratch, before, if step == 3 then bits else before, step, q0);
        RowStep(before, if step == 3 then bits else before, before, y[i][..], rows[0], rows[i + 1], step, scale[i], q0, m[i]);
      }
    }
    forall i, t | 0 <= i < |y| && 0 <= t < n ensures y[i][t] == Rescaled(x[0][t], x[i + 1][t], scale[i], q0, m[i]) {
      RowEnd(y[i][..], rows[0], rows[i + 1], scale[i], q0, m[i], t);
    }
  }

  lemma FirstStep(x: seq<int>, x0: seq<int>, before: seq<int>, row: seq<int>, scale: int, q0: int, m: Modulus)
    requires |x| == |x0| == |before| && row == Apply(MontSubtract, x, x0, before, m.q, m.k)
    ensures RowIs(row, x0, x, 1, scale, q0, m)
  {
    hide MontMultScalar;
    forall t | 0 <= t < |row| ensures row[t] == Word(1, x0[t], x[t], scale, q0, m) {
      assert Word(0, x0[t], x[t], scale, q0, m) == x[t];
    }
  }

  lemma RoundStep(x0: seq<int>, bits: seq<int>, scratch: seq<int>, row: seq<int>, second: seq<int>, step: nat, q0: int)
    requires |scratch| == |x0| == |row| == |second| && step > 0 && (step == 3 ==> second == bits)
    requires bits == Apply(GetRounder, x0, x0, scratch, q0, 0)
    ensures SecondIs(second, row, x0, step, q0)
  {
  }

  lemma RowEnd(row: seq<int>, x0: seq<int>, x: seq<int>, scale: int, q0: int, m: Modulus, t: nat)
    requires RowIs(row, x0, x, 5, scale, q0, m) && t < |row|
    ensures row[t] == Rescaled(x0[t], x[t], scale, q0, m)
  {
    hide Word;
  }
}
