/** Residue number systems: bases of moduli, mixed-radix values and the Chinese remainder theorem.

    Existence is shown by the algorithms that compute the value; uniqueness is shown here. */
module ResidueBase {
  import opened Congruence
  import opened Montgomery
  import opened Arithmetic

  /** One modulus with its Montgomery constant. */
  datatype Modulus = Modulus(q: int, k: int)

  ghost predicate Base(m: seq<Modulus>) {
    forall i :: 0 <= i < |m| ==> MontModulus(m[i].q, m[i].k)
  }

  lemma BaseAt(m: seq<Modulus>, i: nat)
    requires Base(m) && i < |m|
    ensures MontModulus(m[i].q, m[i].k) && 0 < m[i].q && 4 * m[i].q <= R
  {
  }

  lemma OddModulus(m: seq<Modulus>, i: nat)
    requires Base(m) && i < |m|
    ensures m[i].q % 2 == 1
  {
    var k, q := m[i].k, m[i].q;
    BaseAt(m, i);
    var c := Quotient(k * q, -1, R);
    if q % 2 == 0 {
      Even(k, q / 2, c);
    }
  }

  lemma Even(k: int, h: int, c: int)
    ensures k * (2 * h) != -1 + c * R
  {
    assert k * (2 * h) == 2 * (k * h);
  }

  /** Earlier moduli are invertible modulo later ones. */
  ghost predicate Coprime(m: seq<Modulus>) {
    forall i, j :: 0 <= i < j < |m| ==> Invertible(m[i].q, m[j].q)
  }

  /** Every modulus is invertible modulo every other one. */
  ghost predicate PairwiseCoprime(m: seq<Modulus>) {
    && (forall i :: 0 <= i < |m| ==> m[i].q > 1)
    && forall i, j :: 0 <= i < |m| && 0 <= j < |m| && i != j ==> Invertible(m[i].q, m[j].q)
  }

  /** The product of the first n moduli. */
  function Product(m: seq<Modulus>, n: nat): int
    requires n <= |m|
  {
    if n == 0 then 1 else Product(m, n - 1) * m[n - 1].q
  }

  lemma ProductStep(m: seq<Modulus>, n: nat)
    requires n < |m|
    ensures Product(m, n + 1) == Product(m, n) * m[n].q && Product(m, 0) == 1
  {
  }

  lemma {:induction false} ProductPositive(m: seq<Modulus>, n: nat)
    requires Base(m) && n <= |m|
    ensures Product(m, n) > 0
  {
    if n > 0 {
      ProductPositive(m, n - 1);
      hide *;
      BaseAt(m, n - 1);
      ProductStep(m, n - 1);
      PositiveProduct(Product(m, n - 1), m[n - 1].q);
    } else {
      assert Product(m, 0) == 1;
    }
  }

  lemma PositiveProduct(a: int, b: int)
    requires a > 0 && b > 0
    ensures a * b > 0
  {
  }

  lemma InvertibleProduct(a: int, b: int, q: int)
    requires Invertible(a, q) && Invertible(b, q)
    ensures Invertible(a * b, q)
  {
    var x :| Cong(a * x, 1, q);
    var y :| Cong(b * y, 1, q);
    hide *;
    Mul(a * x, 1, b * y, 1, q);
    Exchange(a, x, b, y);
    Invert(a * b, x * y, q);
  }

  /** The product of the moduli before j is invertible modulo the j-th. */
  lemma {:induction false} ProductInvertible(m: seq<Modulus>, n: nat, j: nat)
    requires Base(m) && Coprime(m) && n <= j < |m|
    ensures Invertible(Product(m, n), m[j].q)
  {
    BaseAt(m, j);
    if n == 0 {
      Refl(1, m[j].q);
      assert Product(m, 0) == 1;
      Invert(1, 1, m[j].q);
    } else {
      ProductInvertible(m, n - 1, j);
      assert Invertible(m[n - 1].q, m[j].q);
      hide *;
      InvertibleProduct(Product(m, n - 1), m[n - 1].q, m[j].q);
      ProductStep(m, n - 1);
    }
  }

  /** Later products vanish modulo an earlier modulus. */
  lemma {:induction false} ProductVanishes(m: seq<Modulus>, i: nat, n: nat)
    requires Base(m) && i < n <= |m|
    ensures Cong(Product(m, n), 0, m[i].q)
  {
    BaseAt(m, i);
    if i == n - 1 {
      FromQuotient(Product(m, n), 0, m[i].q, Product(m, n - 1));
    } else {
      ProductVanishes(m, i, n - 1);
      MulRight(Product(m, n - 1), 0, m[n - 1].q, m[i].q);
    }
  }

  // ---------- mixed radix ----------

  /** d[0] + d[1] * q[0] + d[2] * q[0] * q[1] + ..., n terms. */
  function MixedValue(d: seq<int>, m: seq<Modulus>, n: nat): int
    requires n <= |m| && n <= |d|
  {
    if n == 0 then 0 else MixedValue(d, m, n - 1) + d[n - 1] * Product(m, n - 1)
  }

  lemma MixedStep(d: seq<int>, m: seq<Modulus>, n: nat)
    requires n < |m| && n < |d|
    ensures MixedValue(d, m, n + 1) == MixedValue(d, m, n) + d[n] * Product(m, n)
    ensures MixedValue(d, m, 0) == 0
  {
  }

  lemma {:induction false} MixedPrefix(d: seq<int>, e: seq<int>, m: seq<Modulus>, n: nat)
    requires n <= |m| && n <= |d| && n <= |e|
    requires forall i :: 0 <= i < n ==> d[i] == e[i]
    ensures MixedValue(d, m, n) == MixedValue(e, m, n)
  {
    if n > 0 { MixedPrefix(d, e, m, n - 1); }
  }

  /** Digits of a mixed-radix value; the first one may be as large as its modulus. */
  ghost predicate Digits(d: seq<int>, m: seq<Modulus>, n: nat) {
    n <= |d| && n <= |m| && forall i :: 0 <= i < n ==> 0 <= d[i] <= m[i].q && (i > 0 ==> d[i] < m[i].q)
  }

  lemma {:induction false} MixedRange(d: seq<int>, m: seq<Modulus>, n: nat)
    requires Base(m) && Digits(d, m, n)
    ensures 0 <= MixedValue(d, m, n) <= Product(m, n)
    ensures n > 0 && d[0] < m[0].q ==> MixedValue(d, m, n) < Product(m, n)
  {
    ProductOne(m);
    if n == 1 {
      MixedStep(d, m, 0);
      ProductStep(m, 0);
    } else if n > 1 {
      MixedRange(d, m, n - 1);
      ProductPositive(m, n - 1);
      RangeStep(MixedValue(d, m, n - 1), d[n - 1], Product(m, n - 1), m[n - 1].q);
    }
  }

  lemma RangeStep(v: int, d: int, p: int, q: int)
    requires 0 <= v <= p && 0 < p && 0 <= d < q
    ensures 0 <= v + d * p <= p * q && (v < p ==> v + d * p < p * q)
  {
    AtLeast(q - d, p);
    assert (q - d) * p == p * q - d * p;
    assert d * p >= 0;
  }

  /** Modulo an early modulus only the early digits count. */
  lemma {:induction false} MixedResidue(d: seq<int>, m: seq<Modulus>, i: nat, n: nat)
    requires Base(m) && i < n <= |m| && n <= |d|
    ensures Cong(MixedValue(d, m, n), MixedValue(d, m, i + 1), m[i].q)
  {
    BaseAt(m, i);
    if n == i + 1 {
      Refl(MixedValue(d, m, n), m[i].q);
    } else {
      MixedResidue(d, m, i, n - 1);
      ProductVanishes(m, i, n - 1);
      hide *;
      MixedStep(d, m, n - 1);
      Scale(d[n - 1], Product(m, n - 1), 0, m[i].q);
      assert d[n - 1] * 0 == 0;
      Add(MixedValue(d, m, n - 1), MixedValue(d, m, i + 1), d[n - 1] * Product(m, n - 1), 0, m[i].q);
    }
  }

  // ---------- the Chinese remainder theorem ----------

  ghost predicate Residues(value: int, x: seq<int>, m: seq<Modulus>, n: nat) {
    n <= |x| && n <= |m| && forall i :: 0 <= i < n ==> Cong(value, x[i], m[i].q)
  }

  lemma CombineModuli(a: int, b: int, p: int, q: int)
    requires p > 0 && Cong(a, b, p) && Cong(a, b, q) && Invertible(p, q)
    ensures p * q > 0 && Cong(a, b, p * q)
  {
    var y :| Cong(p * y, 1, q);
    var k := Quotient(a, b, p);
    Sub(a, b, b, b, q);
    assert a - b == p * k && p * 0 == 0;
    Cancel(p, y, k, 0, q);
    var l := Quotient(k, 0, q);
    PositiveProduct(p, q);
    assert (l * q) * p == l * (p * q);
    FromQuotient(a, b, p * q, l);
  }

  lemma {:induction false} SameResidues(a: int, b: int, m: seq<Modulus>, n: nat)
    requires Base(m) && Coprime(m) && n <= |m|
    requires forall i :: 0 <= i < n ==> Cong(a, b, m[i].q)
    ensures Cong(a, b, Product(m, n))
  {
    if n == 0 {
      FromQuotient(a, b, 1, a - b);
      assert Product(m, 0) == 1;
    } else {
      SameResidues(a, b, m, n - 1);
      ProductPositive(m, n - 1);
      ProductInvertible(m, n - 1, n - 1);
      CombineModuli(a, b, Product(m, n - 1), m[n - 1].q);
    }
  }

  /** At most one value in [0, product) has given residues. */
  lemma UniqueValue(a: int, b: int, x: seq<int>, m: seq<Modulus>, n: nat)
    requires Base(m) && Coprime(m) && Residues(a, x, m, n) && Residues(b, x, m, n)
    requires 0 <= a < Product(m, n) && 0 <= b < Product(m, n)
    ensures a == b
  {
    hide Product, MontModulus;
    forall i | 0 <= i < n ensures Cong(a, b, m[i].q) {
      Sym(b, x[i], m[i].q);
      Trans(a, x[i], b, m[i].q);
    }
    SameResidues(a, b, m, n);
    Unique(a, b, 0, Product(m, n));
  }

  lemma ProductOne(m: seq<Modulus>)
    ensures Product(m, 0) == 1
  {
  }

  lemma PairwiseIsCoprime(m: seq<Modulus>)
    requires PairwiseCoprime(m)
    ensures Coprime(m)
  {
    hide Invertible;
  }

  /** Some integer has given residues. */
  lemma {:induction false} ValueExists(x: seq<int>, m: seq<Modulus>, n: nat) returns (value: int)
    requires Base(m) && Coprime(m) && n <= |m| && n <= |x|
    ensures Residues(value, x, m, n)
  {
    hide MontModulus, Invertible, Product, Cong;
    value := 0;
    if n > 0 {
      var before := ValueExists(x, m, n - 1);
      BaseAt(m, n - 1);
      ProductInvertible(m, n - 1, n - 1);
      var y := InverseOf(Product(m, n - 1), m[n - 1].q);
      var p, q := Product(m, n - 1), m[n - 1].q;
      value := before + p * (y * (x[n - 1] - before));
      NewResidue(before, x[n - 1], p, y, q);
      forall i | 0 <= i < n ensures Cong(value, x[i], m[i].q) {
        if i < n - 1 {
          ProductVanishes(m, i, n - 1);
          KeepsResidue(before, p, y * (x[n - 1] - before), x[i], m[i].q);
        }
      }
    }
  }

  lemma InverseOf(a: int, q: int) returns (y: int)
    requires Invertible(a, q)
    ensures Cong(a * y, 1, q)
  {
    y :| Cong(a * y, 1, q);
  }

  lemma NewResidue(before: int, x: int, p: int, y: int, q: int)
    requires Cong(p * y, 1, q)
    ensures Cong(before + p * (y * (x - before)), x, q)
  {
    hide *;
    MulRight(p * y, 1, x - before, q);
    Associate(p, y, x - before);
    Shift(before, p * (y * (x - before)), x, q);
  }

  lemma Shift(before: int, d: int, x: int, q: int)
    requires Cong(d, x - before, q)
    ensures Cong(before + d, x, q)
  {
    RingOf(d, x - before, q);
    hide *;
    Refl(before, q);
    Add(before, before, d, x - before, q);
  }

  lemma RingOf(a: int, b: int, q: int)
    requires Cong(a, b, q)
    ensures q > 0
  {
  }

  lemma KeepsResidue(before: int, p: int, d: int, x: int, q: int)
    requires Cong(before, x, q) && Cong(p, 0, q)
    ensures Cong(before + p * d, x, q)
  {
    hide *;
    MulRight(p, 0, d, q);
    Add(before, x, p * d, 0 * d, q);
  }
}
