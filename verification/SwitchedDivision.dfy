/** From the rows before mod_down to the switched ciphertext (src/ckks/core_key_switch.cpp): what is left
    after the division is the old product plus an integer error, the same for every chain. */
module SwitchedDivision {
  import opened Congruence
  import opened Montgomery
  import opened Arithmetic
  import opened ResidueBase
  import opened BaseExtension
  import opened SwitchedRows
  import opened NegacyclicProduct
  import ModDown

  // ---------- products of integer polynomials ----------

  lemma {:induction false} CoefficientCong(a: seq<int>, a': seq<int>, b: seq<int>, i: nat, n: nat, q: int)
    requires q > 0 && n <= |a| == |a'| == |b| && i < |b| && forall c :: 0 <= c < |a| ==> Cong(a[c], a'[c], q)
    ensures Cong(Coefficient(a, b, i, n), Coefficient(a', b, i, n), q)
  {
    if n > 0 {
      CoefficientCong(a, a', b, i, n - 1, q);
      hide Cong;
      MulRight(a[n - 1], a'[n - 1], Wrapped(b, i - (n - 1)), q);
      Add(Coefficient(a, b, i, n - 1), Coefficient(a', b, i, n - 1), a[n - 1] * Wrapped(b, i - (n - 1)), a'[n - 1] * Wrapped(b, i - (n - 1)), q);
    }
  }

  lemma {:induction false} CoefficientLinear(a: seq<int>, p: int, y: seq<int>, r: seq<int>, b: seq<int>, i: nat, n: nat)
    requires n <= |a| == |y| == |r| == |b| && i < |b| && forall c :: 0 <= c < |a| ==> a[c] == p * y[c] + r[c]
    ensures Coefficient(a, b, i, n) == p * Coefficient(y, b, i, n) + Coefficient(r, b, i, n)
  {
    if n > 0 {
      CoefficientLinear(a, p, y, r, b, i, n - 1);
      LinearStep(p, y[n - 1], r[n - 1], Wrapped(b, i - (n - 1)), Coefficient(y, b, i, n - 1));
    }
  }

  lemma LinearStep(p: int, y: int, r: int, w: int, before: int)
    ensures (p * y + r) * w == p * (y * w) + r * w && p * (before + y * w) == p * before + p * (y * w)
  {
  }

  /** Every coefficient of a product is at most N times the bounds of its factors. */
  lemma {:induction false} CoefficientBound(a: seq<int>, b: seq<int>, i: nat, n: nat, top: int, small: int)
    requires n <= |a| == |b| && i < |b| && (forall c :: 0 <= c < |a| ==> -top <= a[c] <= top) && forall c :: 0 <= c < |b| ==> -small <= b[c] <= small
    ensures -(n * (top * small)) <= Coefficient(a, b, i, n) <= n * (top * small)
  {
    if n > 0 {
      CoefficientBound(a, b, i, n - 1, top, small);
      TermBound(a[n - 1], Wrapped(b, i - (n - 1)), top, small);
      assert n * (top * small) == (n - 1) * (top * small) + top * small;
    }
  }

  lemma TermBound(x: int, y: int, top: int, small: int)
    requires -top <= x <= top && -small <= y <= small
    ensures -(top * small) <= x * y <= top * small
  {
    var s: int, t: int := Abs(x), Abs(y);
    TimesMonotone(s, top, t);
    TimesMonotone(t, small, top);
    TimesCommute(t, top);
    TimesCommute(small, top);
    assert x * y == s * t || x * y == -(s * t);
  }

  lemma TimesAt(a: seq<int>, b: seq<int>, c: nat)
    requires |a| == |b| && c < |a|
    ensures Times(a, b)[c] == Coefficient(a, b, c, |a|)
  {
  }

  // ---------- the product of the special primes ----------

  lemma {:induction false} RemovedVanishes(m: seq<Modulus>, s: nat, i: nat)
    requires Base(m) && s <= |m| && |m| - s <= i < |m|
    ensures Cong(ModDown.Removed(m, |m|, s), 0, m[i].q)
  {
    BaseAt(m, i);
    var before, q := ModDown.Removed(m, |m|, s - 1), m[|m| - s].q;
    if i == |m| - s {
      FromQuotient(before * q, 0, q, before);
    } else {
      RemovedVanishes(m, s - 1, i);
      MulRight(before, 0, q, m[i].q);
    }
  }

  lemma {:induction false} RemovedInvertible(m: seq<Modulus>, s: nat, i: nat)
    requires PairwiseCoprime(m) && s <= |m| && i < |m| - s
    ensures Invertible(ModDown.Removed(m, |m|, s), m[i].q)
  {
    assert m[i].q > 1;
    if s == 0 {
      Refl(1, m[i].q);
      Invert(1, 1, m[i].q);
    } else {
      RemovedInvertible(m, s - 1, i);
      assert Invertible(m[|m| - s].q, m[i].q);
      hide Invertible;
      InvertibleProduct(ModDown.Removed(m, |m|, s - 1), m[|m| - s].q, m[i].q);
    }
  }

  /** What vanishes modulo every special prime is a multiple of their product. */
  lemma {:induction false} SpecialsDivide(value: int, m: seq<Modulus>, s: nat)
    requires PairwiseCoprime(m) && s <= |m| && forall i :: |m| - s <= i < |m| ==> Cong(value, 0, m[i].q)
    ensures Cong(value, 0, ModDown.Removed(m, |m|, s)) && ModDown.Removed(m, |m|, s) > 0
  {
    if s == 0 {
      FromQuotient(value, 0, 1, value);
    } else {
      SpecialsDivide(value, m, s - 1);
      RemovedInvertible(m, s - 1, |m| - s);
      hide Invertible, Cong;
      CombineModuli(value, 0, ModDown.Removed(m, |m|, s - 1), m[|m| - s].q);
    }
  }

  // ---------- one coefficient ----------

  /** The integer behind a column, its quotient, and the remainder that the division drops. */
  lemma Divided(column: seq<int>, m: seq<Modulus>, inverses: seq<seq<int>>, chains: nat) returns (value: int, y: int, r: int)
    requires Base(m) && PairwiseCoprime(m) && ModDown.SpecialSizes(m, chains) && chains <= |m| == |column|
    requires ModDown.ValidInverses(inverses, m, |m|, |m| - chains) && forall i :: 0 <= i < |m| ==> 0 <= column[i] < m[i].q
    ensures ModDown.Shape(|m|, inverses, |m| - chains) && ModDown.Removed(m, |m|, |m| - chains) > 0
    ensures forall i :: 0 <= i < chains ==> m[i].q > 0 && ModDown.Down(column, m, inverses, |m| - chains, i) == y % m[i].q
    ensures forall i :: 0 <= i < |m| ==> Cong(value, column[i], m[i].q)
    ensures var p := ModDown.Removed(m, |m|, |m| - chains); value == p * y + r && 0 <= r < 3 * p
  {
    hide MontModulus, Cong, Invertible, ModDown.Removed, ModDown.Down, ModDown.Shape, ModDown.ValidInverses;
    PairwiseIsCoprime(m);
    value := ValueExists(column, m, |m|);
    forall i | 0 <= i < |m| ensures Cong(column[i], value, m[i].q) { Sym(value, column[i], m[i].q); }
    y := ModDown.ModDownQuotient(column, m, inverses, chains, value);
    r := value - ModDown.Removed(m, |m|, |m| - chains) * y;
    RemainderRange(value, y, ModDown.Removed(m, |m|, |m| - chains));
  }

  lemma RemainderRange(value: int, y: int, p: int)
    requires p > 0 && value / p - 2 <= y <= value / p
    ensures 0 <= value - p * y < 3 * p
  {
    var d := value / p;
    assert value == p * d + value % p;
    TimesMonotone(y, d, p);
    TimesMonotone(d - 2, y, p);
    assert (d - 2) * p == d * p - 2 * p;
    TimesCommute(p, y);
    TimesCommute(p, d);
  }

  ghost predicate Rows(w: seq<seq<int>>, m: seq<Modulus>, n: nat) {
    |w| == |m| && forall i :: 0 <= i < |m| ==> |w[i]| == n && forall c :: 0 <= c < n ==> 0 <= w[i][c] < m[i].q
  }

  /** What one division has done to all coefficients of a row stack. */
  ghost predicate IsDivided(w: seq<seq<int>>, m: seq<Modulus>, inverses: seq<seq<int>>, chains: nat, n: nat,
                            values: seq<int>, y: seq<int>, r: seq<int>)
    requires chains <= |m| && Rows(w, m, n)
  {
    && |values| == |y| == |r| == n && ModDown.Shape(|m|, inverses, |m| - chains)
    && forall c :: 0 <= c < n ==> CoefficientDivided(Column(w, c), m, inverses, chains, values[c], y[c], r[c])
  }

  ghost predicate CoefficientDivided(column: seq<int>, m: seq<Modulus>, inverses: seq<seq<int>>, chains: nat, value: int, y: int, r: int)
    requires chains <= |m|
  {
    && |column| == |m| && ModDown.Shape(|m|, inverses, |m| - chains)
    && (forall i :: 0 <= i < chains ==> m[i].q > 0 && ModDown.Down(column, m, inverses, |m| - chains, i) == y % m[i].q)
    && (forall i :: 0 <= i < |m| ==> Cong(value, column[i], m[i].q))
    && var p := ModDown.Removed(m, |m|, |m| - chains); value == p * y + r && 0 <= r < 3 * p
  }

  lemma DividedRows(w: seq<seq<int>>, m: seq<Modulus>, inverses: seq<seq<int>>, chains: nat, n: nat)
    returns (values: seq<int>, y: seq<int>, r: seq<int>)
    requires Base(m) && PairwiseCoprime(m) && ModDown.SpecialSizes(m, chains) && chains <= |m| && Rows(w, m, n)
    requires ModDown.ValidInverses(inverses, m, |m|, |m| - chains)
    ensures IsDivided(w, m, inverses, chains, n, values, y, r)
  {
    hide MontModulus, Cong, Invertible, ModDown.Removed, ModDown.Down, ModDown.Shape, ModDown.SpecialSizes, CoefficientDivided;
    values, y, r := [], [], [];
    ModDown.ShapeOf(inverses, m, |m|, |m| - chains);
    for c := 0 to n
      invariant |values| == |y| == |r| == c
      invariant forall k :: 0 <= k < c ==> CoefficientDivided(Column(w, k), m, inverses, chains, values[k], y[k], r[k])
    {
      var value, quotient, rest := Divided(Column(w, c), m, inverses, chains);
      DividedIs(Column(w, c), m, inverses, chains, value, quotient, rest);
      values, y, r := values + [value], y + [quotient], r + [rest];
    }
  }

  lemma DividedIs(column: seq<int>, m: seq<Modulus>, inverses: seq<seq<int>>, chains: nat, value: int, y: int, r: int)
    requires chains <= |m| == |column| && ModDown.Shape(|m|, inverses, |m| - chains)
    requires forall i :: 0 <= i < chains ==> m[i].q > 0 && ModDown.Down(column, m, inverses, |m| - chains, i) == y % m[i].q
    requires forall i :: 0 <= i < |m| ==> Cong(value, column[i], m[i].q)
    requires var p := ModDown.Removed(m, |m|, |m| - chains); value == p * y + r && 0 <= r < 3 * p
    ensures CoefficientDivided(column, m, inverses, chains, value, y, r)
  {
    hide Cong, ModDown.Removed, ModDown.Down, ModDown.Shape;
  }

  // ---------- the switched ciphertext ----------

  /** The identity before the division, for every modulus and coefficient; x and f are arbitrary for the
      special primes, where the product of the special primes vanishes. */
  ghost predicate BeforeDivision(m: seq<Modulus>, chains: nat, w0: seq<seq<int>>, w1: seq<seq<int>>, secret: seq<int>, sum: seq<int>,
                                 x: seq<seq<int>>, f: seq<int>, n: nat)
    requires chains <= |m|
  {
    && Rows(w0, m, n) && Rows(w1, m, n) && Rectangle(x, |m|, n) && |secret| == |sum| == |f| == n
    && forall i, c :: 0 <= i < |m| && 0 <= c < n ==> IdentityAt(m, chains, w0, w1, secret, sum, x, f, i, c)
  }

  ghost predicate IdentityAt(m: seq<Modulus>, chains: nat, w0: seq<seq<int>>, w1: seq<seq<int>>, secret: seq<int>, sum: seq<int>,
                             x: seq<seq<int>>, f: seq<int>, i: nat, c: nat)
    requires chains <= |m|
  {
    && i < |m| == |w0| == |w1| == |x| && |w0[i]| == |w1[i]| == |secret| == |sum| == |x[i]| == |f| && c < |sum|
    && Cong(Plus(w0[i], 1, Times(w1[i], secret))[c],
            Plus(sum, ModDown.Removed(m, |m|, |m| - chains), Times(x[i], f))[c], m[i].q)
  }

  /** What the division leaves of the sum of products: the part that has to be a multiple of P. */
  ghost function Leftover(sum: seq<int>, r0: seq<int>, r1: seq<int>, secret: seq<int>): (e: seq<int>)
    requires |sum| == |r0| == |r1| == |secret|
    ensures |e| == |sum|
  {
    Plus(Plus(sum, -1, r0), -1, Times(r1, secret))
  }

  lemma LeftoverAt(sum: seq<int>, r0: seq<int>, r1: seq<int>, secret: seq<int>, c: nat)
    requires |sum| == |r0| == |r1| == |secret| && c < |sum|
    ensures Leftover(sum, r0, r1, secret)[c] == sum[c] - r0[c] - Times(r1, secret)[c]
  {
    hide Times;
  }

  lemma PlusAt(a: seq<int>, w: int, b: seq<int>, c: nat)
    requires |a| == |b| && c < |a|
    ensures Plus(a, w, b)[c] == a[c] + w * b[c]
  {
  }

  /** Modulo every modulus: P * (Y0 + Y1 * S) is the leftover plus P * x * F. */
  lemma Multiplied(m: seq<Modulus>, inverses: seq<seq<int>>, chains: nat, w0: seq<seq<int>>, w1: seq<seq<int>>, secret: seq<int>, sum: seq<int>,
                   x: seq<seq<int>>, f: seq<int>, n: nat, v0: seq<int>, y0: seq<int>, r0: seq<int>, v1: seq<int>, y1: seq<int>, r1: seq<int>, i: nat, c: nat)
    requires Base(m) && chains <= |m| && BeforeDivision(m, chains, w0, w1, secret, sum, x, f, n) && i < |m| && c < n
    requires IsDivided(w0, m, inverses, chains, n, v0, y0, r0) && IsDivided(w1, m, inverses, chains, n, v1, y1, r1)
    ensures |y0| == |y1| == |r0| == |r1| == |sum| == |secret| == |f| == n && |x| == |m| && |x[i]| == n
    ensures var p := ModDown.Removed(m, |m|, |m| - chains);
      Cong(p * (y0[c] + Times(y1, secret)[c]), Leftover(sum, r0, r1, secret)[c] + p * Times(x[i], f)[c], m[i].q)
  {
    hide MontModulus, Cong, ModDown.Removed, ModDown.Down, ModDown.Shape, Times, Plus, CoefficientDivided, IdentityAt, Leftover;
    var p, q := ModDown.Removed(m, |m|, |m| - chains), m[i].q;
    BaseAt(m, i);
    assert IdentityAt(m, chains, w0, w1, secret, sum, x, f, i, c);
    IdentityMeans(m, chains, w0, w1, secret, sum, x, f, i, c);
    forall k | 0 <= k < n ensures Cong(w1[i][k], v1[k], q) && v1[k] == p * y1[k] + r1[k] {
      assert CoefficientDivided(Column(w1, k), m, inverses, chains, v1[k], y1[k], r1[k]);
      DividedMeans(w1, m, inverses, chains, v1[k], y1[k], r1[k], i, k);
    }
    assert CoefficientDivided(Column(w0, c), m, inverses, chains, v0[c], y0[c], r0[c]);
    DividedMeans(w0, m, inverses, chains, v0[c], y0[c], r0[c], i, c);
    TimesAt(w1[i], secret, c);
    TimesAt(v1, secret, c);
    TimesAt(y1, secret, c);
    TimesAt(r1, secret, c);
    CoefficientCong(w1[i], v1, secret, c, n, q);
    CoefficientLinear(v1, p, y1, r1, secret, c, n);
    LeftoverAt(sum, r0, r1, secret, c);
    hide *;
    MultipliedAlgebra(w0[i][c], Times(w1[i], secret)[c], v0[c], Times(v1, secret)[c], p, y0[c], r0[c], Times(y1, secret)[c], Times(r1, secret)[c],
                      sum[c], Times(x[i], f)[c], q);
  }

  lemma IdentityMeans(m: seq<Modulus>, chains: nat, w0: seq<seq<int>>, w1: seq<seq<int>>, secret: seq<int>, sum: seq<int>,
                      x: seq<seq<int>>, f: seq<int>, i: nat, c: nat)
    requires chains <= |m| && IdentityAt(m, chains, w0, w1, secret, sum, x, f, i, c)
    ensures i < |m| == |w0| == |w1| == |x| && |w0[i]| == |w1[i]| == |secret| == |sum| == |x[i]| == |f| && c < |sum|
    ensures Cong(w0[i][c] + Times(w1[i], secret)[c], sum[c] + ModDown.Removed(m, |m|, |m| - chains) * Times(x[i], f)[c], m[i].q)
  {
    hide Cong, Times, ModDown.Removed, Plus;
    PlusAt(w0[i], 1, Times(w1[i], secret), c);
    PlusAt(sum, ModDown.Removed(m, |m|, |m| - chains), Times(x[i], f), c);
  }

  lemma DividedMeans(w: seq<seq<int>>, m: seq<Modulus>, inverses: seq<seq<int>>, chains: nat, value: int, y: int, r: int, i: nat, c: nat)
    requires chains <= |m| == |w| && i < |m| && (forall k :: 0 <= k < |w| ==> c < |w[k]|)
    requires CoefficientDivided(Column(w, c), m, inverses, chains, value, y, r)
    ensures Cong(w[i][c], value, m[i].q) && value == ModDown.Removed(m, |m|, |m| - chains) * y + r
  {
    hide ModDown.Removed, ModDown.Down, ModDown.Shape;
    Sym(value, Column(w, c)[i], m[i].q);
  }

  lemma MultipliedAlgebra(w0: int, t1: int, v0: int, t2: int, p: int, y: int, r: int, ty: int, tr: int, sum: int, xf: int, q: int)
    requires Cong(w0 + t1, sum + p * xf, q) && Cong(w0, v0, q) && Cong(t1, t2, q) && v0 == p * y + r && t2 == p * ty + tr
    ensures Cong(p * (y + ty), (sum - r - tr) + p * xf, q)
  {
    hide *;
    Add(w0, v0, t1, t2, q);
    Sym(w0 + t1, v0 + t2, q);
    Trans(v0 + t2, w0 + t1, sum + p * xf, q);
    RingOf(w0, v0, q);
    Refl(r + tr, q);
    Sub(v0 + t2, sum + p * xf, r + tr, r + tr, q);
    assert p * (y + ty) == p * y + p * ty;
  }

  /** Key switching is correct up to an error. From rows that satisfy the identity before the division,
      mod_down leaves on every chain the canonical residues of two integer polynomials Y0 and Y1 with
      Y0 + Y1 * S = x * F + error; the error is one integer polynomial for all chains, exactly the sum of
      the products D_p * E_p, less what the two divisions drop, divided by P. */
  lemma DivisionSwitches(m: seq<Modulus>, inverses: seq<seq<int>>, chains: nat, w0: seq<seq<int>>, w1: seq<seq<int>>, secret: seq<int>, sum: seq<int>,
                         x: seq<seq<int>>, f: seq<int>, n: nat)
    returns (v0: seq<int>, y0: seq<int>, r0: seq<int>, v1: seq<int>, y1: seq<int>, r1: seq<int>, error: seq<int>)
    requires Base(m) && PairwiseCoprime(m) && ModDown.SpecialSizes(m, chains) && chains <= |m|
    requires ModDown.ValidInverses(inverses, m, |m|, |m| - chains)
    requires BeforeDivision(m, chains, w0, w1, secret, sum, x, f, n)
    ensures IsDivided(w0, m, inverses, chains, n, v0, y0, r0) && IsDivided(w1, m, inverses, chains, n, v1, y1, r1)
    ensures Switched(m, chains, secret, sum, x, f, n, y0, r0, y1, r1, error)
  {
    hide MontModulus, Cong, Invertible, ModDown.Removed, ModDown.ValidInverses, ModDown.SpecialSizes, IsDivided, IdentityAt, Leftover, Times, SwitchedAt, Rows;
    v0, y0, r0 := DividedRows(w0, m, inverses, chains, n);
    v1, y1, r1 := DividedRows(w1, m, inverses, chains, n);
    DividedSizes(w0, m, inverses, chains, n, v0, y0, r0);
    DividedSizes(w1, m, inverses, chains, n, v1, y1, r1);
    var p := ModDown.Removed(m, |m|, |m| - chains);
    error := [];
    for c := 0 to n
      invariant |error| == c
      invariant forall k :: 0 <= k < c ==> SwitchedAt(m, chains, secret, sum, x, f, n, y0, r0, y1, r1, error[k], k)
    {
      var left := Leftover(sum, r0, r1, secret)[c];
      var right := y0[c] + Times(y1, secret)[c];
      forall i | 0 <= i < |m| ensures |x| == |m| && |x[i]| == n && Cong(p * right, left + p * Times(x[i], f)[c], m[i].q) {
        Multiplied(m, inverses, chains, w0, w1, secret, sum, x, f, n, v0, y0, r0, v1, y1, r1, i, c);
      }
      forall i | chains <= i < |m| ensures Cong(left, 0, m[i].q) {
        RemovedVanishes(m, |m| - chains, i);
        VanishingSpecial(p, right, left, Times(x[i], f)[c], m[i].q);
      }
      SpecialsDivide(left, m, |m| - chains);
      var part := Quotient(left, 0, p);
      forall i | 0 <= i < chains ensures Cong(right, part + Times(x[i], f)[c], m[i].q) {
        RemovedInvertible(m, |m| - chains, i);
        CancelProduct(p, right, left, part, Times(x[i], f)[c], m[i].q);
      }
      TimesCommute(part, p);
      SwitchedFrom(m, chains, secret, sum, x, f, n, y0, r0, y1, r1, part, c);
      error := error + [part];
    }
    DividedRange(w0, m, inverses, chains, n, v0, y0, r0);
    DividedRange(w1, m, inverses, chains, n, v1, y1, r1);
  }

  lemma DividedSizes(w: seq<seq<int>>, m: seq<Modulus>, inverses: seq<seq<int>>, chains: nat, n: nat, values: seq<int>, y: seq<int>, r: seq<int>)
    requires chains <= |m| && Rows(w, m, n) && IsDivided(w, m, inverses, chains, n, values, y, r)
    ensures |values| == |y| == |r| == n
  {
  }

  lemma DividedRange(w: seq<seq<int>>, m: seq<Modulus>, inverses: seq<seq<int>>, chains: nat, n: nat, values: seq<int>, y: seq<int>, r: seq<int>)
    requires chains <= |m| && Rows(w, m, n) && IsDivided(w, m, inverses, chains, n, values, y, r)
    ensures |r| == n && forall c :: 0 <= c < n ==> 0 <= r[c] < 3 * ModDown.Removed(m, |m|, |m| - chains)
  {
    hide ModDown.Removed, ModDown.Down, ModDown.Shape, Cong;
    forall c | 0 <= c < n ensures 0 <= r[c] < 3 * ModDown.Removed(m, |m|, |m| - chains) {
      assert CoefficientDivided(Column(w, c), m, inverses, chains, values[c], y[c], r[c]);
    }
  }

  ghost predicate SwitchedAt(m: seq<Modulus>, chains: nat, secret: seq<int>, sum: seq<int>, x: seq<seq<int>>, f: seq<int>, n: nat,
                             y0: seq<int>, r0: seq<int>, y1: seq<int>, r1: seq<int>, error: int, c: nat) {
    && chains <= |m| == |x| && |secret| == |sum| == |f| == |y0| == |r0| == |y1| == |r1| == n && c < n
    && (forall i :: 0 <= i < |m| ==> |x[i]| == n)
    && ModDown.Removed(m, |m|, |m| - chains) * error == Leftover(sum, r0, r1, secret)[c]
    && forall i :: 0 <= i < chains ==> Cong(y0[c] + Times(y1, secret)[c], error + Times(x[i], f)[c], m[i].q)
  }

  ghost predicate Switched(m: seq<Modulus>, chains: nat, secret: seq<int>, sum: seq<int>, x: seq<seq<int>>, f: seq<int>, n: nat,
                           y0: seq<int>, r0: seq<int>, y1: seq<int>, r1: seq<int>, error: seq<int>) {
    && chains <= |m| && |error| == n && |r0| == |r1| == n
    && (forall c :: 0 <= c < n ==> SwitchedAt(m, chains, secret, sum, x, f, n, y0, r0, y1, r1, error[c], c))
    && (forall c :: 0 <= c < n ==> 0 <= r0[c] < 3 * ModDown.Removed(m, |m|, |m| - chains))
    && forall c :: 0 <= c < n ==> 0 <= r1[c] < 3 * ModDown.Removed(m, |m|, |m| - chains)
  }

  lemma SwitchedFrom(m: seq<Modulus>, chains: nat, secret: seq<int>, sum: seq<int>, x: seq<seq<int>>, f: seq<int>, n: nat,
                     y0: seq<int>, r0: seq<int>, y1: seq<int>, r1: seq<int>, error: int, c: nat)
    requires chains <= |m| == |x| && |secret| == |sum| == |f| == |y0| == |r0| == |y1| == |r1| == n && c < n
    requires forall i :: 0 <= i < |m| ==> |x[i]| == n
    requires ModDown.Removed(m, |m|, |m| - chains) * error == Leftover(sum, r0, r1, secret)[c]
    requires forall i :: 0 <= i < chains ==> Cong(y0[c] + Times(y1, secret)[c], error + Times(x[i], f)[c], m[i].q)
    ensures SwitchedAt(m, chains, secret, sum, x, f, n, y0, r0, y1, r1, error, c)
  {
    hide Cong, Times, Leftover, ModDown.Removed;
  }

  lemma VanishingSpecial(p: int, right: int, left: int, xf: int, q: int)
    requires Cong(p * right, left + p * xf, q) && Cong(p, 0, q)
    ensures Cong(left, 0, q)
  {
    hide *;
    MulRight(p, 0, right, q);
    MulRight(p, 0, xf, q);
    Sub(p * right, left + p * xf, p * xf, 0 * xf, q);
    Sub(p * right, 0 * right, p * xf, 0 * xf, q);
    RingOf(p, 0, q);
    Refl(p * xf, q);
    Sub(p * right, left + p * xf, p * xf, p * xf, q);
    Sym(p * right - p * xf, left, q);
    Trans(left, p * right - p * xf, 0 * right - 0 * xf, q);
  }

  lemma CancelProduct(p: int, right: int, left: int, part: int, xf: int, q: int)
    requires Cong(p * right, left + p * xf, q) && left == 0 + part * p && Invertible(p, q)
    ensures Cong(right, part + xf, q)
  {
    var y := ResidueBase.InverseOf(p, q);
    hide *;
    assert left + p * xf == p * (part + xf) by { assert p * (part + xf) == p * part + p * xf; TimesCommute(part, p); }
    Cancel(p, y, right, part + xf, q);
  }

  // ---------- the size of the error ----------

  ghost predicate Small(s: seq<int>, bound: int) {
    forall c :: 0 <= c < |s| ==> -bound <= s[c] <= bound
  }

  /** |sum of D_p * E_p| <= N * E * (sum of the bounds of the D_p). */
  ghost function Bounds(tops: seq<int>, n: nat): int
    requires n <= |tops|
  {
    if n == 0 then 0 else Bounds(tops, n - 1) + tops[n - 1]
  }

  lemma {:induction false} SumBound(d: seq<seq<int>>, e: seq<seq<int>>, n: nat, size: nat, tops: seq<int>, small: int, c: nat)
    requires n <= |d| && n <= |e| && n <= |tops| && (forall i :: 0 <= i < n ==> |d[i]| == |e[i]| == size) && c < size
    requires forall i :: 0 <= i < n ==> Small(d[i], tops[i]) && Small(e[i], small)
    ensures -(size * (Bounds(tops, n) * small)) <= SumOfProducts(d, e, n, size)[c] <= size * (Bounds(tops, n) * small)
  {
    if n == 0 {
      assert 0 * small == 0 && size * 0 == 0;
    } else {
      SumBound(d, e, n - 1, size, tops, small, c);
      hide Times, Plus;
      PlusAt(SumOfProducts(d, e, n - 1, size), 1, Times(d[n - 1], e[n - 1]), c);
      TimesAt(d[n - 1], e[n - 1], c);
      CoefficientBound(d[n - 1], e[n - 1], c, size, tops[n - 1], small);
      BoundStep(size, Bounds(tops, n - 1), tops[n - 1], small);
    }
  }

  lemma BoundStep(size: int, before: int, top: int, small: int)
    ensures size * ((before + top) * small) == size * (before * small) + size * (top * small)
  {
    assert (before + top) * small == before * small + top * small;
  }

  /** The error of a switch: P * |error| is at most N * E * (sum of the bounds of the lifted digits) for the
      key's noise, and 3P * (1 + N * S) for the two divisions, with E and S bounds of the errors and the
      secret. */
  lemma ErrorBound(m: seq<Modulus>, chains: nat, secret: seq<int>, d: seq<seq<int>>, e: seq<seq<int>>, x: seq<seq<int>>, f: seq<int>, n: nat,
                   y0: seq<int>, r0: seq<int>, y1: seq<int>, r1: seq<int>, error: seq<int>, tops: seq<int>, noise: int, key: int, c: nat)
    requires |d| == |e| == |tops| && (forall i :: 0 <= i < |d| ==> |d[i]| == |e[i]| == n) && c < n
    requires Switched(m, chains, secret, SumOfProducts(d, e, |d|, n), x, f, n, y0, r0, y1, r1, error) && |error| == n && |secret| == n
    requires (forall i :: 0 <= i < |d| ==> Small(d[i], tops[i]) && Small(e[i], noise)) && Small(secret, key) && key >= 0
    ensures chains <= |m|
    ensures var p := ModDown.Removed(m, |m|, |m| - chains);
      var bound := n * (Bounds(tops, |d|) * noise) + 3 * p + n * ((3 * p) * key);
      -bound <= p * error[c] <= bound
  {
    hide Cong, Times, Leftover, SumOfProducts, ModDown.Removed;
    var p, sum := ModDown.Removed(m, |m|, |m| - chains), SumOfProducts(d, e, |d|, n);
    assert SwitchedAt(m, chains, secret, sum, x, f, n, y0, r0, y1, r1, error[c], c);
    LeftoverAt(sum, r0, r1, secret, c);
    SumBound(d, e, |d|, n, tops, noise, c);
    TimesAt(r1, secret, c);
    RemainderBound(r1, p);
    CoefficientBound(r1, secret, c, n, 3 * p, key);
  }

  lemma RemainderBound(r: seq<int>, p: int)
    requires forall c :: 0 <= c < |r| ==> 0 <= r[c] < 3 * p
    ensures Small(r, 3 * p)
  {
  }
}
