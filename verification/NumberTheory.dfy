/** Prime moduli: inverses, Fermat's little theorem, square roots of one and the bound on the number
    of roots of a polynomial.

    The loops over primes in src/arithmetic rest on these. */
module NumberTheory {
  import opened Congruence
  import opened Polynomial

  ghost predicate Divides(d: int, n: int) {
    d > 0 && n % d == 0
  }

  ghost predicate Prime(q: int) {
    q > 1 && forall d :: Divides(d, q) ==> d == 1 || d == q
  }

  lemma DividesMultiple(k: int, d: int)
    requires d > 0
    ensures Divides(d, k * d)
  {
    DivModUnique(k * d, k, 0, d);
  }

  // ---------- inverses ----------

  lemma {:induction false} Bezout(a: nat, b: nat) returns (g: int, u: int, v: int, i: int, j: int)
    requires b > 0
    ensures g > 0 && g == u * a + v * b && a == i * g && b == j * g
    decreases b
  {
    var d, c := a / b, a % b;
    assert a == d * b + c;
    if c == 0 {
      g, u, v, i, j := b, 0, 1, d, 1;
    } else {
      var u', v', i', j';
      g, u', v', i', j' := Bezout(b, c);
      u, v, i, j := v', u' - v' * d, d * i' + j', i';
      BezoutAlgebra(a, b, c, d, g, u', v', i', j');
    }
  }

  lemma BezoutAlgebra(a: int, b: int, c: int, d: int, g: int, u: int, v: int, i: int, j: int)
    requires a == d * b + c && g == u * b + v * c && b == i * g && c == j * g
    ensures g == v * a + (u - v * d) * b && a == (d * i + j) * g
  {
    assert v * a == v * (d * b) + v * c;
    assert v * (d * b) == (v * d) * b && d * (i * g) == (d * i) * g;
  }

  lemma PrimeInverse(a: int, q: int) returns (y: int)
    requires Prime(q) && !Cong(a, 0, q)
    ensures Cong(a * y, 1, q)
  {
    var r := a % q;
    Residue(a, q);
    assert r != 0;
    hide Cong;
    var g, u, v, i, j := Bezout(r, q);
    DividesMultiple(j, g);
    assert g == 1 by { if g == q { Reduced(i, q, r); } }
    y := u;
    FromQuotient(r * u, 1, q, -v);
    MulRight(a, r, u, q);
    Trans(a * u, r * u, 1, q);
  }

  lemma Reduced(i: int, q: int, r: int)
    requires 0 < r < q
    ensures r != i * q
  {
    if i >= 1 { AtLeast(i, q); } else { assert i * q <= 0; }
  }

  /** Euclid's lemma. */
  lemma ZeroProduct(a: int, b: int, q: int)
    requires Prime(q) && Cong(a * b, 0, q)
    ensures Cong(a, 0, q) || Cong(b, 0, q)
  {
    if !Cong(a, 0, q) {
      var y := PrimeInverse(a, q);
      hide *;
      assert a * 0 == 0;
      Cancel(a, y, b, 0, q);
    }
  }

  lemma DifferenceZero(a: int, b: int, q: int)
    requires Cong(a - b, 0, q)
    ensures Cong(a, b, q)
  {
    var k := Quotient(a - b, 0, q);
    FromQuotient(a, b, q, k);
  }

  /** Modulo a prime, one has only the two obvious square roots. */
  lemma SquareRootOfOne(x: int, q: int)
    requires Prime(q) && Cong(x * x, 1, q)
    ensures Cong(x, 1, q) || Cong(x, -1, q)
  {
    Refl(1, q);
    hide Cong, Prime;
    Sub(x * x, 1, 1, 1, q);
    assert (x - 1) * (x + 1) == x * x - 1;
    ZeroProduct(x - 1, x + 1, q);
    if Cong(x - 1, 0, q) { DifferenceZero(x, 1, q); } else { DifferenceZero(x, -1, q); }
  }

  // ---------- Fermat's little theorem ----------

  function Choose(n: nat, k: nat): nat {
    if k == 0 then 1 else if n == 0 then 0 else Choose(n - 1, k - 1) + Choose(n - 1, k)
  }

  lemma {:induction false} ChooseEdge(n: nat, k: nat)
    requires k >= n
    ensures Choose(n, k) == if k == n then 1 else 0
  {
    if n > 0 {
      ChooseEdge(n - 1, k - 1);
      ChooseEdge(n - 1, k);
    }
  }

  lemma {:induction false} Absorption(n: nat, k: nat)
    requires n > 0 && k > 0
    ensures k * Choose(n, k) == n * Choose(n - 1, k - 1)
  {
    if n == 1 {
      ChooseEdge(1, k);
      ChooseEdge(0, k - 1);
    } else {
      Absorption(n - 1, k);
      if k > 1 { Absorption(n - 1, k - 1); }
      AbsorptionStep(n, k, Choose(n - 1, k - 1), Choose(n - 1, k), Choose(n - 2, k - 1),
                     if k > 1 then Choose(n - 2, k - 2) else 0);
    }
  }

  lemma AbsorptionStep(n: int, k: int, left: int, right: int, below: int, corner: int)
    requires k * right == (n - 1) * below && (k - 1) * left == (n - 1) * corner && left == corner + below
    ensures k * (left + right) == n * left
  {
    assert (n - 1) * left == (n - 1) * corner + (n - 1) * below;
  }

  function Row(n: nat): (row: seq<int>)
    ensures |row| == n + 1
  {
    seq(n + 1, k requires 0 <= k => Choose(n, k))
  }

  lemma {:induction false} BinomialTheorem(n: nat, z: int, q: int)
    requires q > 0
    ensures Cong(Eval(Row(n), z), Pow(1 + z, n), q)
  {
    if n == 0 {
      assert Row(0) == [1];
    } else {
      BinomialTheorem(n - 1, z, q);
      RowStep(n, z, q);
      BinomialStep(Eval(Row(n), z), Eval(Row(n - 1), z), Pow(1 + z, n - 1), z, q);
    }
  }

  lemma RowStep(n: nat, z: int, q: int)
    requires n > 0 && q > 0
    ensures Cong(Eval(Row(n), z), Eval(Row(n - 1), z) + 1 * (z * Eval(Row(n - 1), z)), q)
  {
    hide *;
    var row := Row(n - 1);
    forall k | 0 <= k <= n ensures Cong(Row(n)[k], (row + [0])[k] + 1 * ([0] + row)[k], q) {
      RowEntry(n, k);
      Refl(Row(n)[k], q);
    }
    EvalLinear(Row(n), row + [0], 1, [0] + row, z, q);
    EvalConcat(row, [0], z);
    EvalConcat([0], row, z);
    EvalConstant(0, z);
    PowPeel(z, 1);
    PowPeel(z, 0);
  }

  lemma RowEntry(n: nat, k: nat)
    requires n > 0 && k <= n
    ensures Row(n)[k] == (Row(n - 1) + [0])[k] + 1 * ([0] + Row(n - 1))[k]
  {
    if k == n { ChooseEdge(n - 1, n); }
  }

  lemma BinomialStep(e: int, r: int, p: int, z: int, q: int)
    requires Cong(e, r + 1 * (z * r), q) && Cong(r, p, q)
    ensures Cong(e, (1 + z) * p, q)
  {
    hide *;
    Scale(1 + z, r, p, q);
    assert (1 + z) * r == r + 1 * (z * r);
    Trans(e, (1 + z) * r, (1 + z) * p, q);
  }

  lemma MiddleZero(q: int, k: int)
    requires Prime(q) && 0 < k < q
    ensures Cong(Choose(q, k), 0, q)
  {
    hide *;
    Absorption(q, k);
    FromQuotient(k * Choose(q, k), 0, q, Choose(q - 1, k - 1));
    ZeroProduct(k, Choose(q, k), q);
    ReducedNotZero(k, q);
  }

  lemma FreshmansDream(z: int, q: int)
    requires Prime(q)
    ensures Cong(Pow(1 + z, q), 1 + Pow(z, q), q)
  {
    var zeros := seq(q - 1, i => 0);
    var ends := ([1] + zeros) + [1];
    forall k | 0 <= k <= q ensures Cong(Row(q)[k], 1 * ends[k], q) {
      if 0 < k < q { MiddleZero(q, k); }
      if k == q { ChooseEdge(q, q); }
    }
    EvalScaled(Row(q), 1, ends, z, q);
    EnvelopeValue(zeros, q, z);
    BinomialTheorem(q, z, q);
  }

  lemma EnvelopeValue(zeros: seq<int>, q: nat, z: int)
    requires q > 0 && zeros == seq(q - 1, i => 0)
    ensures Eval(([1] + zeros) + [1], z) == 1 + Pow(z, q)
  {
    EvalConcat([1] + zeros, [1], z);
    EvalConcat([1], zeros, z);
    EvalZeros(q - 1, z);
    assert Eval([1], z) == 1;
  }

  lemma {:induction false} FermatNat(a: nat, q: int)
    requires Prime(q)
    ensures Cong(Pow(a, q), a, q)
  {
    if a > 0 {
      FermatNat(a - 1, q);
      FreshmansDream(a - 1, q);
      Refl(1, q);
      hide *;
      Add(1, 1, Pow(a - 1, q), a - 1, q) by { Positive(q); }
      Trans(Pow(a, q), 1 + Pow(a - 1, q), a, q);
    } else {
      assert Pow(0, q) == 0 * Pow(0, q - 1);
    }
  }

  lemma Positive(q: int)
    requires Prime(q)
    ensures q > 1
  {
  }

  lemma Fermat(a: int, q: int)
    requires Prime(q) && !Cong(a, 0, q)
    ensures Cong(Pow(a, q - 1), 1, q)
  {
    var y := PrimeInverse(a, q);
    var r := a % q;
    Residue(a, q);
    FermatNat(r, q);
    hide Cong, Prime;
    PowCong(a, r, q, q);
    Trans(Pow(a, q), Pow(r, q), r, q);
    Trans(Pow(a, q), r, a, q);
    PowPeel(a, q);
    Cancel(a, y, Pow(a, q - 1), 1, q);
  }

  lemma PowPeel(a: int, e: nat)
    ensures e > 0 ==> Pow(a, e) == a * Pow(a, e - 1)
    ensures a * 1 == a && Pow(a, 0) == 1
  {
  }

  // ---------- the number of roots ----------

  /** The quotient of s - s(r) by X - r. */
  function Deflate(s: seq<int>, r: int): (t: seq<int>)
    ensures |s| >= 1 ==> |t| == |s| - 1
  {
    if |s| <= 1 then [] else [Eval(s[1..], r)] + Deflate(s[1..], r)
  }

  lemma {:induction false} DeflateTop(s: seq<int>, r: int)
    requires |s| >= 2
    ensures Deflate(s, r)[|s| - 2] == s[|s| - 1]
  {
    if |s| == 2 {
      assert Eval(s[1..], r) == s[1] + r * Eval([], r);
    } else {
      DeflateTop(s[1..], r);
    }
  }

  lemma {:induction false} DeflateValue(s: seq<int>, r: int, z: int)
    ensures Eval(s, z) == Eval(s, r) + (z - r) * Eval(Deflate(s, r), z)
  {
    if |s| > 1 {
      DeflateValue(s[1..], r, z);
      var tail := Deflate(s[1..], r);
      assert Deflate(s, r)[1..] == tail;
      DeflateAlgebra(s[0], z, r, Eval(s[1..], z), Eval(s[1..], r), Eval(tail, z));
    }
  }

  lemma DeflateAlgebra(c: int, z: int, r: int, e: int, f: int, t: int)
    requires e == f + (z - r) * t
    ensures c + z * e == (c + r * f) + (z - r) * (f + z * t)
  {
    assert z * ((z - r) * t) == (z - r) * (z * t);
    assert z * e == z * f + z * ((z - r) * t);
  }

  /** A polynomial with more roots among 1..m than its degree has leading coefficient zero. */
  lemma {:induction false} TooManyRoots(s: seq<int>, m: int, q: int)
    requires Prime(q) && 1 <= |s| <= m < q
    requires forall z :: 1 <= z <= m ==> Cong(Eval(s, z), 0, q)
    ensures Cong(s[|s| - 1], 0, q)
    decreases |s|
  {
    if |s| == 1 {
      assert Eval(s, 1) == s[0];
    } else {
      var t := Deflate(s, m);
      forall z | 1 <= z <= m - 1 ensures Cong(Eval(t, z), 0, q) {
        OtherRoot(s, m, z, q);
      }
      DeflateTop(s, m);
      TooManyRoots(t, m - 1, q);
    }
  }

  lemma OtherRoot(s: seq<int>, m: int, z: int, q: int)
    requires Prime(q) && 1 <= z < m < q
    requires Cong(Eval(s, z), 0, q) && Cong(Eval(s, m), 0, q)
    ensures Cong(Eval(Deflate(s, m), z), 0, q)
  {
    DeflateValue(s, m, z);
    Sub(Eval(s, z), 0, Eval(s, m), 0, q);
    ZeroProduct(z - m, Eval(Deflate(s, m), z), q);
    if Cong(z - m, 0, q) {
      DifferenceZero(z, m, q);
      Unique(z, m, 0, q);
    }
  }

  /** Not every residue has h-th power one when h < q - 1. */
  lemma PowerNotOne(h: nat, q: int) returns (a: int)
    requires Prime(q) && 0 < h < q - 1
    ensures 1 < a < q && !Cong(Pow(a, h), 1, q)
  {
    if forall z :: 1 <= z <= q - 1 ==> Cong(Pow(z, h), 1, q) {
      var s := ([-1] + seq(h - 1, i => 0)) + [1];
      forall z | 1 <= z <= q - 1 ensures Cong(Eval(s, z), 0, q) {
        PowerPolynomial(h, z);
        Refl(1, q);
        Sub(Pow(z, h), 1, 1, 1, q);
      }
      TooManyRoots(s, q - 1, q);
      OneIsNotZero(q);
      assert false;
    }
    a :| 1 <= a <= q - 1 && !Cong(Pow(a, h), 1, q);
    PowOne(h);
  }

  lemma PowerPolynomial(h: nat, z: int)
    requires h > 0
    ensures Eval(([-1] + seq(h - 1, i => 0)) + [1], z) == Pow(z, h) - 1
  {
    EvalConcat([-1] + seq(h - 1, i => 0), [1], z);
    EvalConcat([-1], seq(h - 1, i => 0), z);
    EvalZeros(h - 1, z);
    assert Eval([1], z) == 1 && Eval([-1], z) == -1;
  }
}
