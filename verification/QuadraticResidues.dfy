/** Quadratic residues: Gauss's lemma, Euler's criterion, the symbol of two and reciprocity. */
module QuadraticResidues {
  import opened Congruence
  import opened Arithmetic
  import opened NumberTheory
  import Cycles

  predicate Odd(n: int) {
    n > 0 && n % 2 == 1
  }

  // ---------- signed residues ----------

  /** The sign of the absolutely least residue. */
  function Sign(y: int, n: int): (s: int)
    requires n > 0
    ensures s == 1 || s == -1
  {
    if 2 * (y % n) > n then -1 else 1
  }

  /** The size of the absolutely least residue. */
  function Fold(y: int, n: int): int
    requires n > 0
  {
    if 2 * (y % n) > n then n - y % n else y % n
  }

  lemma FoldMeaning(y: int, n: int)
    requires Odd(n)
    ensures 0 <= Fold(y, n) <= n / 2 && Cong(y, Sign(y, n) * Fold(y, n), n)
  {
    Residue(y, n);
    hide Cong;
    var r := y % n;
    if 2 * r > n {
      FromQuotient(r, -(n - r), n, 1);
      Trans(y, r, -1 * (n - r), n);
    }
  }

  lemma FoldUnique(y: int, s: int, f: int, n: int)
    requires Odd(n) && (s == 1 || s == -1) && 1 <= f <= n / 2 && Cong(y, s * f, n)
    ensures Sign(y, n) == s && Fold(y, n) == f
  {
    var k := Quotient(y, s * f, n);
    if s == 1 {
      DivModUnique(y, k, f, n);
    } else {
      assert y == (k - 1) * n + (n - f) by { assert (k - 1) * n == k * n - n; }
      DivModUnique(y, k - 1, n - f, n);
    }
  }

  lemma SameSign(y: int, z: int, n: int)
    requires Cong(y, z, n)
    ensures Sign(y, n) == Sign(z, n)
  {
  }

  // ---------- products over 1..m ----------

  ghost function Product(f: int -> int, m: nat): int {
    if m == 0 then 1 else Product(f, m - 1) * f(m)
  }

  lemma {:induction false} ProductSame(f: int -> int, g: int -> int, m: nat)
    requires forall x :: 1 <= x <= m ==> f(x) == g(x)
    ensures Product(f, m) == Product(g, m)
  {
    if m > 0 { ProductSame(f, g, m - 1); }
  }

  lemma {:induction false} ProductTimes(f: int -> int, g: int -> int, h: int -> int, m: nat)
    requires forall x :: 1 <= x <= m ==> h(x) == f(x) * g(x)
    ensures Product(h, m) == Product(f, m) * Product(g, m)
  {
    if m > 0 {
      ProductTimes(f, g, h, m - 1);
      Exchange(Product(f, m - 1), Product(g, m - 1), f(m), g(m));
    }
  }

  lemma {:induction false} ProductCong(f: int -> int, g: int -> int, m: nat, n: int)
    requires n > 0 && forall x :: 1 <= x <= m ==> Cong(f(x), g(x), n)
    ensures Cong(Product(f, m), Product(g, m), n)
  {
    if m > 0 {
      ProductCong(f, g, m - 1, n);
      Mul(Product(f, m - 1), Product(g, m - 1), f(m), g(m), n);
    }
  }

  ghost predicate IsSign(s: int) {
    s == 1 || s == -1
  }

  lemma {:induction false} ProductOfSigns(f: int -> int, m: nat)
    requires forall x :: 1 <= x <= m ==> IsSign(f(x))
    ensures IsSign(Product(f, m))
  {
    if m > 0 { ProductOfSigns(f, m - 1); }
  }

  ghost predicate Permutes(p: int -> int, m: nat) {
    && (forall x :: 1 <= x <= m ==> 1 <= p(x) <= m)
    && forall x, y :: 1 <= x < y <= m ==> p(x) != p(y)
  }

  lemma Reaches(p: int -> int, m: nat, y: int) returns (x: int)
    requires Permutes(p, m) && 1 <= y <= m
    ensures 1 <= x <= m && p(x) == y
  {
    var c := seq(m, i requires 0 <= i < m => (p(i + 1) - 1) as nat);
    Cycles.Pigeonhole(c, m);
    var z: nat := y - 1;
    assert z in c;
    var i :| 0 <= i < |c| && c[i] == z;
    x := i + 1;
  }

  /** Trading one factor for another. */
  lemma {:induction false} ProductTrade(f: int -> int, g: int -> int, m: nat, j: int)
    requires 1 <= j <= m && forall x :: 1 <= x <= m && x != j ==> f(x) == g(x)
    ensures Product(f, m) * g(j) == Product(g, m) * f(j)
  {
    if j == m {
      ProductSame(f, g, m - 1);
      Swap(Product(f, m - 1), f(m), g(m));
    } else {
      ProductTrade(f, g, m - 1, j);
      Swap(Product(f, m - 1), f(m), g(j));
      Swap(Product(g, m - 1), f(m), f(j));
    }
  }

  lemma Swap(a: int, b: int, c: int)
    ensures a * b * c == a * c * b
  {
  }

  /** A product does not depend on the order of its factors. */
  lemma {:induction false} ProductPermuted(g: int -> int, p: int -> int, m: nat)
    requires Permutes(p, m)
    ensures Product(x => g(p(x)), m) == Product(g, m)
  {
    hide *;
    if m == 0 {
      ProductNone(x => g(p(x)), g);
    } else {
      var j := Reaches(p, m, m);
      var c := p(m);
      var p' := x => if x == j then c else p(x);
      FewerPermutes(p, p', m, j);
      ProductPermuted(g, p', m - 1);
      LastFactor(g, x => g(p(x)), x => g(p'(x)), m, j);
    }
  }

  lemma ProductNone(f: int -> int, g: int -> int)
    ensures Product(f, 0) == Product(g, 0)
  {
  }

  lemma FewerPermutes(p: int -> int, p': int -> int, m: nat, j: int)
    requires Permutes(p, m) && 1 <= j <= m && p(j) == m && forall x :: 1 <= x < m ==> p'(x) == if x == j then p(m) else p(x)
    ensures Permutes(p', m - 1)
  {
  }

  lemma LastFactor(g: int -> int, f: int -> int, f': int -> int, m: nat, j: int)
    requires 1 <= j <= m && f(j) == g(m) && Product(f', m - 1) == Product(g, m - 1)
    requires forall x :: 1 <= x < m ==> f'(x) == if x == j then f(m) else f(x)
    ensures Product(f, m) == Product(g, m)
  {
    if j == m {
      ProductSame(f, f', m - 1);
    } else {
      ProductTrade(f, f', m - 1, j);
    }
  }

  // ---------- multiplication permutes the lower half ----------

  lemma InverseOf(a: int, n: int) returns (y: int)
    requires Invertible(a, n)
    ensures Cong(a * y, 1, n)
  {
    y :| Cong(a * y, 1, n);
  }

  lemma CancelUnit(a: int, x: int, y: int, n: int)
    requires Invertible(a, n) && Cong(a * x, a * y, n)
    ensures Cong(x, y, n)
  {
    var i := InverseOf(a, n);
    Cancel(a, i, x, y, n);
  }

  lemma FoldPositive(a: int, x: int, n: int)
    requires Odd(n) && Invertible(a, n) && 1 <= x <= n / 2
    ensures 1 <= Fold(a * x, n) <= n / 2 && Cong(a * x, Sign(a * x, n) * Fold(a * x, n), n)
  {
    FoldMeaning(a * x, n);
    hide Invertible, Sign, Fold;
    if Fold(a * x, n) == 0 {
      assert Cong(a * x, a * 0, n);
      CancelUnit(a, x, 0, n);
    }
  }

  lemma FoldInjective(a: int, x: int, y: int, n: int)
    requires Odd(n) && Invertible(a, n) && 1 <= x <= n / 2 && 1 <= y <= n / 2 && Fold(a * x, n) == Fold(a * y, n)
    ensures x == y
  {
    FoldPositive(a, x, n);
    FoldPositive(a, y, n);
    hide Invertible, Fold;
    var f, s, t := Fold(a * x, n), Sign(a * x, n), Sign(a * y, n);
    hide *;
    if s == t {
      Sym(a * y, t * f, n);
      Trans(a * x, s * f, a * y, n);
      CancelUnit(a, x, y, n);
      Unique(x, y, 0, n);
    } else {
      Scale(-1, a * y, t * f, n);
      assert -1 * (t * f) == s * f && -1 * (a * y) == a * (-y);
      Sym(a * (-y), s * f, n);
      Trans(a * x, s * f, a * (-y), n);
      CancelUnit(a, x, -y, n);
      Refl(y, n);
      Add(x, -y, y, y, n);
      ReducedNotZero(x + y, n);
    }
  }

  lemma FoldPermutes(a: int, n: int)
    requires Odd(n) && Invertible(a, n)
    ensures Permutes(x => Fold(a * x, n), n / 2)
  {
    hide Invertible, Fold;
    forall x | 1 <= x <= n / 2 ensures 1 <= Fold(a * x, n) <= n / 2 { FoldPositive(a, x, n); }
    forall x, y | 1 <= x < y <= n / 2 ensures Fold(a * x, n) != Fold(a * y, n) {
      if Fold(a * x, n) == Fold(a * y, n) { FoldInjective(a, x, y, n); }
    }
  }

  // ---------- the symbol ----------

  /** The product of the signs of a, 2a, ..., (n / 2) a. */
  ghost function Signs(a: int, n: int): int
    requires n > 0
  {
    Product(x => Sign(a * x, n), n / 2)
  }

  ghost function Symbol(a: int, n: int): int
    requires n > 0
  {
    if Invertible(a, n) then Signs(a, n) else 0
  }

  lemma SignsAre(a: int, n: int)
    requires n > 0
    ensures IsSign(Signs(a, n))
  {
    ProductOfSigns(x => Sign(a * x, n), n / 2);
  }

  lemma SymbolResidue(a: int, b: int, n: int)
    requires n > 0 && Cong(a, b, n)
    ensures Symbol(a, n) == Symbol(b, n)
  {
    Sym(a, b, n);
    if Invertible(b, n) { InvertibleResidue(a, b, n); }
    if Invertible(a, n) { InvertibleResidue(b, a, n); }
    forall x ensures Sign(a * x, n) == Sign(b * x, n) {
      MulRight(a, b, x, n);
      SameSign(a * x, b * x, n);
    }
    hide Sign, Invertible, Cong;
    ProductSame(x => Sign(a * x, n), x => Sign(b * x, n), n / 2);
  }

  lemma InvertibleResidue(a: int, b: int, n: int)
    requires Cong(a, b, n) && Invertible(b, n)
    ensures Invertible(a, n)
  {
    var y := InverseOf(b, n);
    hide *;
    MulRight(a, b, y, n);
    Trans(a * y, b * y, 1, n);
    Invert(a, y, n);
  }

  lemma InvertibleTimes(a: int, b: int, n: int)
    requires n > 0
    ensures Invertible(a * b, n) <==> Invertible(a, n) && Invertible(b, n)
  {
    if Invertible(a * b, n) {
      var y := InverseOf(a * b, n);
      assert (a * b) * y == a * (b * y) && (a * b) * y == b * (a * y);
      Invert(a, b * y, n);
      Invert(b, a * y, n);
    }
    if Invertible(a, n) && Invertible(b, n) {
      var y := InverseOf(a, n);
      var z := InverseOf(b, n);
      hide *;
      Mul(a * y, 1, b * z, 1, n);
      Exchange(a, b, y, z);
      Invert(a * b, y * z, n);
    }
  }

  lemma SignTimes(a: int, b: int, x: int, n: int)
    requires Odd(n) && Invertible(a, n) && Invertible(b, n) && 1 <= x <= n / 2
    ensures Sign((a * b) * x, n) == Sign(b * x, n) * Sign(a * Fold(b * x, n), n)
  {
    var s, f := Sign(b * x, n), Fold(b * x, n);
    FoldPositive(b, x, n);
    FoldPositive(a, f, n);
    var t, g := Sign(a * f, n), Fold(a * f, n);
    hide *;
    SignAlgebra(a, b, x, s, f, t, g, n);
    ProductSign(s, t);
    FoldUnique((a * b) * x, s * t, g, n);
  }

  lemma SignAlgebra(a: int, b: int, x: int, s: int, f: int, t: int, g: int, n: int)
    requires Cong(b * x, s * f, n) && Cong(a * f, t * g, n)
    ensures Cong((a * b) * x, (s * t) * g, n)
  {
    hide *;
    Scale(a, b * x, s * f, n);
    Scale(s, a * f, t * g, n);
    Associate(a, b, x);
    Associate(s, t, g);
    assert a * (s * f) == s * (a * f);
    Trans((a * b) * x, s * (a * f), (s * t) * g, n);
  }

  lemma ProductSign(s: int, t: int)
    requires (s == 1 || s == -1) && (t == 1 || t == -1)
    ensures s * t == 1 || s * t == -1
  {
  }

  /** Multiplicative in the numerator. */
  lemma SymbolTimes(a: int, b: int, n: int)
    requires Odd(n)
    ensures Symbol(a * b, n) == Symbol(a, n) * Symbol(b, n)
  {
    InvertibleTimes(a, b, n);
    if Invertible(a, n) && Invertible(b, n) {
      SignsTimes(a, b, n);
    }
  }

  lemma SignsTimes(a: int, b: int, n: int)
    requires Odd(n) && Invertible(a, n) && Invertible(b, n)
    ensures Signs(a * b, n) == Signs(a, n) * Signs(b, n)
  {
    hide Invertible, Sign, Fold;
    var m := n / 2;
    var signA, p := x => Sign(a * x, n), x => Fold(b * x, n);
    forall x | 1 <= x <= m ensures Sign((a * b) * x, n) == Sign(b * x, n) * signA(p(x)) {
      SignTimes(a, b, x, n);
    }
    ProductTimes(x => Sign(b * x, n), x => signA(p(x)), x => Sign((a * b) * x, n), m);
    FoldPermutes(b, n);
    ProductPermuted(signA, p, m);
    TimesCommute(Signs(a, n), Signs(b, n));
  }

  // ---------- Euler's criterion ----------

  lemma {:induction false} ScaledProduct(a: int, m: nat)
    ensures Product(x => a * x, m) == Pow(a, m) * Product(x => x, m)
  {
    if m > 0 {
      ScaledProduct(a, m - 1);
      Exchange(Pow(a, m - 1), Product(x => x, m - 1), a, m);
      TimesCommute(Pow(a, m - 1), a);
    }
  }

  lemma {:induction false} FactorialUnit(m: nat, n: int)
    requires Prime(n) && m < n
    ensures !Cong(Product(x => x, m), 0, n)
  {
    if m > 0 {
      FactorialUnit(m - 1, n);
      ReducedNotZero(m, n);
      if Cong(Product(x => x, m - 1) * m, 0, n) { ZeroProduct(Product(x => x, m - 1), m, n); }
    }
  }

  /** Euler's criterion, by Gauss's lemma: modulo an odd prime the symbol is a to the power (n - 1) / 2. */
  lemma EulerCriterion(a: int, n: int)
    requires Prime(n) && Odd(n) && Invertible(a, n)
    ensures Cong(Pow(a, n / 2), Symbol(a, n), n)
  {
    var m := n / 2;
    hide Prime, Invertible, Sign, Fold, Cong;
    var signs, p := x => Sign(a * x, n), x => Fold(a * x, n);
    var signed := x => signs(x) * p(x);
    forall x | 1 <= x <= m ensures Cong(a * x, signed(x), n) { FoldPositive(a, x, n); }
    ProductCong(x => a * x, signed, m, n);
    ScaledProduct(a, m);
    ProductTimes(signs, p, signed, m);
    FoldPermutes(a, n);
    ProductPermuted(x => x, p, m);
    ProductSame(x => (z => z)(p(x)), p, m);
    FactorialUnit(m, n);
    var f := Product(x => x, m);
    var i := PrimeInverse(f, n);
    TimesCommute(Pow(a, m), f);
    TimesCommute(Signs(a, n), f);
    Cancel(f, i, Pow(a, m), Signs(a, n), n);
  }

  // ---------- the symbol of two ----------

  function Alternates(k: int): (s: int) {
    if k % 2 == 0 then 1 else -1
  }

  lemma AlternatesAdd(a: int, b: int)
    ensures Alternates(a + b) == Alternates(a) * Alternates(b)
  {
  }

  /** The signs of 2, 4, ..., 2m: minus above a quarter of n. */
  function TwoSigns(n: int, m: int): int {
    Alternates(if m <= n / 4 then 0 else m - n / 4)
  }

  lemma TwoSignsStep(n: int, m: int)
    requires Odd(n) && 1 <= m <= n / 2
    ensures TwoSigns(n, m) == TwoSigns(n, m - 1) * Sign(2 * m, n)
  {
    DivModUnique(2 * m, 0, 2 * m, n);
    hide *;
    TwoSignsIs(n, m, Sign(2 * m, n));
  }

  lemma TwoSignsIs(n: int, m: int, s: int)
    requires Odd(n) && 1 <= m && s == if 2 * (2 * m) > n then -1 else 1
    ensures TwoSigns(n, m) == TwoSigns(n, m - 1) * s
  {
  }

  lemma {:induction false} TwoProduct(n: int, m: nat)
    requires Odd(n) && m <= n / 2
    ensures Product(x => Sign(2 * x, n), m) == TwoSigns(n, m)
  {
    hide Sign, TwoSigns;
    if m > 0 {
      TwoProduct(n, m - 1);
      TwoSignsStep(n, m);
    } else {
      TwoSignsNone(n);
    }
  }

  lemma TwoSignsNone(n: int)
    requires Odd(n)
    ensures TwoSigns(n, 0) == 1
  {
  }

  lemma SymbolTwo(n: int)
    requires Odd(n)
    ensures Symbol(2, n) == if n % 8 == 1 || n % 8 == 7 then 1 else -1
  {
    TwoProduct(n, n / 2);
    TwoUnit(n);
    HalfSigns(n);
    hide Sign, Invertible, TwoSigns, Product;
  }

  lemma HalfSigns(n: int)
    requires Odd(n)
    ensures TwoSigns(n, n / 2) == if n % 8 == 1 || n % 8 == 7 then 1 else -1
  {
    Eighths(n, n / 8, n % 8);
    hide *;
    HalfSignsOf(n / 8, n % 8, n / 2, n / 4);
    TwoSignsHalf(n);
  }

  lemma Eighths(n: int, k: int, r: int)
    requires Odd(n) && k == n / 8 && r == n % 8
    ensures n / 2 == 4 * k + r / 2 && n / 4 == 2 * k + r / 4 && k >= 0 && 0 <= r < 8 && r % 2 == 1
  {
    assert n == 8 * k + r;
    DivModUnique(n, 4 * k + r / 2, r % 2, 2);
    DivModUnique(n, 2 * k + r / 4, r % 4, 4);
  }

  lemma TwoSignsHalf(n: int)
    requires Odd(n)
    ensures TwoSigns(n, n / 2) == Alternates(if n / 2 <= n / 4 then 0 else n / 2 - n / 4)
  {
    hide Alternates;
  }

  lemma HalfSignsOf(k: int, r: int, half: int, quarter: int)
    requires k >= 0 && 0 <= r < 8 && r % 2 == 1 && half == 4 * k + r / 2 && quarter == 2 * k + r / 4
    ensures Alternates(if half <= quarter then 0 else half - quarter) == if r == 1 || r == 7 then 1 else -1
  {
    DivModUnique(half - quarter, k + (r / 2 - r / 4) / 2, (r / 2 - r / 4) % 2, 2);
  }

  lemma TwoUnit(n: int)
    requires Odd(n)
    ensures Invertible(2, n)
  {
    FromQuotient(2 * (n / 2 + 1), 1, n, 1);
    Invert(2, n / 2 + 1, n);
  }

  // ---------- reciprocity ----------

  lemma AlternatesSquare(s: int, t: int, p: int)
    requires IsSign(s) && IsSign(t) && IsSign(p) && p == t * (s * p)
    ensures s == t
  {
  }

  /** x has the parity of the quotient, plus one for an upper remainder, plus the folded remainder. */
  lemma ParitySplit(m: int, x: int, n: int)
    requires Odd(n) && Odd(m)
    ensures Alternates(x) == Alternates((m * x) / n) * (Sign(m * x, n) * Alternates(Fold(m * x, n)))
  {
    var q, r := (m * x) / n, (m * x) % n;
    assert m * x == n * q + r;
    OddTimes(m, x);
    OddTimes(n, q);
    hide *;
    ParityIs(x, q, r, n, m * x, n * q);
    SignIs(m * x, n);
  }

  lemma OddTimes(m: int, x: int)
    requires Odd(m)
    ensures (m * x) % 2 == x % 2
  {
    OddProduct(m, m / 2, x);
    Parity(m * x, m / 2 * x, x);
  }

  lemma OddProduct(m: int, k: int, x: int)
    requires m == 2 * k + 1
    ensures m * x == 2 * (k * x) + x
  {
  }

  lemma Parity(a: int, half: int, x: int)
    requires a == 2 * half + x
    ensures a % 2 == x % 2
  {
  }

  lemma SignIs(y: int, n: int)
    requires n > 0
    ensures Sign(y, n) == (if 2 * (y % n) > n then -1 else 1) && Fold(y, n) == if 2 * (y % n) > n then n - y % n else y % n
  {
  }

  lemma ParityIs(x: int, q: int, r: int, n: int, mx: int, nq: int)
    requires n % 2 == 1 && mx == nq + r && mx % 2 == x % 2 && nq % 2 == q % 2
    ensures Alternates(x) == Alternates(q) * ((if 2 * r > n then -1 else 1) * Alternates(if 2 * r > n then n - r else r))
  {
  }

  /** (m * 1) / n + ... + (m * t) / n. */
  ghost function FloorSum(m: int, n: int, t: nat): int
    requires n > 0
  {
    if t == 0 then 0 else FloorSum(m, n, t - 1) + (m * t) / n
  }

  lemma {:induction false} FloorProduct(m: int, n: int, t: nat)
    requires n > 0
    ensures Product(x => Alternates((m * x) / n), t) == Alternates(FloorSum(m, n, t))
  {
    if t > 0 {
      FloorProduct(m, n, t - 1);
      AlternatesAdd(FloorSum(m, n, t - 1), (m * t) / n);
    }
  }

  /** For odd numerators the signs have the parity of the sum of the quotients. */
  lemma SignsAreFloors(m: int, n: int)
    requires Odd(m) && Odd(n) && Invertible(m, n)
    ensures Signs(m, n) == Alternates(FloorSum(m, n, n / 2))
  {
    hide Invertible, Sign, Fold, Alternates, FloorSum;
    var h := n / 2;
    var floors, signs, p := x => Alternates((m * x) / n), x => Sign(m * x, n), x => Fold(m * x, n);
    var folded := x => Alternates(p(x));
    var rest := x => signs(x) * folded(x);
    forall x | 1 <= x <= h ensures Alternates(x) == floors(x) * rest(x) { ParitySplit(m, x, n); }
    ProductTimes(floors, rest, x => Alternates(x), h);
    ProductTimes(signs, folded, rest, h);
    FoldPermutes(m, n);
    ProductPermuted(x => Alternates(x), p, h);
    ProductSame(x => (z => Alternates(z))(p(x)), folded, h);
    FloorProduct(m, n, h);
    SignsAre(m, n);
    forall x ensures IsSign(Alternates(x)) { AlternatesSign(x); }
    ProductOfSigns(x => Alternates(x), h);
    AlternatesSquare(Signs(m, n), Alternates(FloorSum(m, n, h)), Product(x => Alternates(x), h));
  }

  lemma AlternatesSign(x: int)
    ensures IsSign(Alternates(x))
  {
  }

  /** The y in 1..k with n * y < m * x. */
  ghost function Under(m: int, n: int, x: int, k: nat): int {
    if k == 0 then 0 else Under(m, n, x, k - 1) + if n * k < m * x then 1 else 0
  }

  ghost predicate Apart(m: int, n: int, h: nat, k: nat) {
    forall x, y :: 1 <= x <= h && 1 <= y <= k ==> Differ(m, x, n, y)
  }

  predicate Differ(m: int, x: int, n: int, y: int) {
    m * x != n * y
  }

  lemma {:induction false} UnderIs(m: int, n: int, x: int, k: nat)
    requires n > 0 && m * x >= 0 && forall y :: 1 <= y <= k ==> Differ(m, x, n, y)
    ensures Under(m, n, x, k) == if (m * x) / n <= k then (m * x) / n else k
  {
    var p, q := m * x, (m * x) / n;
    assert 0 <= p - n * q < n;
    if k > 0 {
      UnderIs(m, n, x, k - 1);
      assert Differ(m, x, n, k);
      if q >= k {
        TimesMonotone(k, q, n);
      } else {
        TimesMonotone(q + 1, k, n);
      }
    } else {
      QuotientSign(p, n, q);
    }
  }

  lemma QuotientSign(p: int, n: int, q: int)
    requires p >= 0 && n > 0 && 0 <= p - n * q < n
    ensures q >= 0
  {
    if q < 0 { TimesMonotone(q, -1, n); }
  }

  ghost function Rows(m: int, n: int, h: nat, k: nat): int {
    if h == 0 then 0 else Rows(m, n, h - 1, k) + Under(m, n, h, k)
  }

  /** One more column. */
  lemma {:induction false} RowsColumn(m: int, n: int, h: nat, k: nat)
    requires k > 0 && forall x :: 1 <= x <= h ==> Differ(m, x, n, k)
    ensures Rows(m, n, h, k) + Under(n, m, k, h) == Rows(m, n, h, k - 1) + h
  {
    if h > 0 {
      RowsColumn(m, n, h - 1, k);
      assert Differ(m, h, n, k);
    }
  }

  lemma {:induction false} RowsNone(m: int, n: int, h: nat)
    ensures Rows(m, n, h, 0) == 0
  {
    if h > 0 { RowsNone(m, n, h - 1); }
  }

  /** Every point of the rectangle lies on one side of the diagonal. */
  lemma {:induction false} Lattice(m: int, n: int, h: nat, k: nat)
    requires Apart(m, n, h, k)
    ensures Rows(m, n, h, k) + Rows(n, m, k, h) == h * k
  {
    if k == 0 {
      RowsNone(m, n, h);
    } else {
      Lattice(m, n, h, k - 1);
      RowsColumn(m, n, h, k);
      assert h * k == h * (k - 1) + h;
    }
  }

  lemma {:induction false} RowsAreFloors(m: int, n: int, h: nat, k: nat)
    requires n > 0 && m > 0 && Apart(m, n, h, k) && forall x :: 1 <= x <= h ==> Reach(m, x, n, k)
    ensures Rows(m, n, h, k) == FloorSum(m, n, h)
  {
    if h > 0 {
      RowsAreFloors(m, n, h - 1, k);
      assert Reach(m, h, n, k);
      TimesMonotone(0, h, m);
      TimesCommute(m, h);
      UnderIs(m, n, h, k);
    }
  }

  predicate Reach(m: int, x: int, n: int, k: int)
    requires n > 0
  {
    (m * x) / n <= k
  }

  lemma ReachHalf(m: int, x: int, n: int)
    requires Odd(m) && Odd(n) && 1 <= x <= n / 2
    ensures Reach(m, x, n, m / 2)
  {
    var h, k := n / 2, m / 2;
    var q := (m * x) / n;
    assert n * q <= m * x;
    hide *;
    if q > k {
      TimesMonotone(k + 1, q, n);
      TimesMonotone(x, h, m);
      Corner(h, k, m, n);
      TimesCommute(m, x);
      TimesCommute(n, q);
      assert false;
    }
    ReachIs(m, x, n, k, q);
  }

  lemma ReachIs(m: int, x: int, n: int, k: int, q: int)
    requires n > 0 && q == (m * x) / n && q <= k
    ensures Reach(m, x, n, k)
  {
  }

  lemma Corner(h: int, k: int, m: int, n: int)
    requires Odd(m) && Odd(n) && h == n / 2 && k == m / 2
    ensures h * m < (k + 1) * n
  {
    assert m == 2 * k + 1 && n == 2 * h + 1;
    assert h * (2 * k + 1) == 2 * (h * k) + h && (k + 1) * (2 * h + 1) == 2 * (h * k) + 2 * h + k + 1;
  }

  lemma ApartHalves(m: int, n: int)
    requires Odd(m) && Odd(n) && Invertible(m, n)
    ensures Apart(m, n, n / 2, m / 2)
  {
    hide Invertible;
    forall x, y | 1 <= x <= n / 2 && 1 <= y <= m / 2 ensures Differ(m, x, n, y) {
      if m * x == n * y {
        TimesCommute(n, y);
        FromQuotient(m * x, m * 0, n, y);
        CancelUnit(m, x, 0, n);
        ReducedNotZero(x, n);
      }
    }
  }

  lemma ApartTurned(m: int, n: int, h: nat, k: nat)
    requires Apart(m, n, h, k)
    ensures Apart(n, m, k, h)
  {
    forall y, x | 1 <= y <= k && 1 <= x <= h ensures Differ(n, y, m, x) { assert Differ(m, x, n, y); }
  }

  lemma InvertibleTurned(m: int, n: int)
    requires m > 0 && n > 0 && Invertible(m, n)
    ensures Invertible(n, m)
  {
    var y := InverseOf(m, n);
    var k := Quotient(m * y, 1, n);
    assert n * (-k) == 1 + (-y) * m by { assert n * (-k) == -(k * n) && (-y) * m == -(m * y); }
    FromQuotient(n * (-k), 1, m, -y);
    Invert(n, -k, m);
  }

  /** Quadratic reciprocity. */
  lemma Reciprocity(m: int, n: int)
    requires Odd(m) && Odd(n)
    ensures Symbol(m, n) == Alternates((m / 2) * (n / 2)) * Symbol(n, m)
  {
    if Invertible(m, n) {
      InvertibleTurned(m, n);
      var h, k := n / 2, m / 2;
      hide Invertible, Alternates, Apart;
      ApartHalves(m, n);
      ApartTurned(m, n, h, k);
      Lattice(m, n, h, k);
      forall x | 1 <= x <= h ensures Reach(m, x, n, k) { ReachHalf(m, x, n); }
      RowsAreFloors(m, n, h, k);
      forall y | 1 <= y <= k ensures Reach(n, y, m, h) { ReachHalf(n, y, m); }
      RowsAreFloors(n, m, k, h);
      SignsAreFloors(m, n);
      SignsAreFloors(n, m);
      AlternatesAdd(FloorSum(m, n, h), FloorSum(n, m, k));
      TimesCommute(h, k);
      SignsAre(m, n);
      SignsAre(n, m);
      SignsMove(Signs(m, n), Signs(n, m), Alternates(k * h));
    } else if Invertible(n, m) {
      InvertibleTurned(n, m);
    }
  }

  lemma SignsMove(s: int, t: int, a: int)
    requires IsSign(s) && IsSign(t) && s * t == a
    ensures s == a * t
  {
  }
}
