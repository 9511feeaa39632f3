/** Products and decryption of ciphertexts on one chain (src/ckks/core.cpp:124-194, 284-314). */
module Ciphertexts {
  import opened Congruence
  import opened Montgomery
  import opened Kernels
  import opened ResidueBase
  import opened BaseExtension
  import opened Polynomial
  import opened Tables
  import opened SwitchedRows
  import NttTheory
  import Transform
  import Interpolation

  // ---------- rows in transform form ----------

  /** Lazily reduced slots that stand, in the Montgomery domain, for the values of a polynomial. */
  ghost predicate Stands(t: Derived, psi: int, u: seq<int>, p: seq<int>) {
    |u| == |p| == Pow2(t.e) && InRange(u, 0, 2 * t.q) && forall j :: 0 <= j < |u| ==> SlotStands(t, psi, u, p, j)
  }

  ghost predicate SlotStands(t: Derived, psi: int, u: seq<int>, p: seq<int>, j: nat) {
    j < |u| && Cong(u[j], R * Eval(p, NttTheory.Point(psi, t.e, j)), t.q)
  }

  lemma StandsAt(t: Derived, psi: int, u: seq<int>, p: seq<int>, j: nat)
    requires Stands(t, psi, u, p) && j < |u|
    ensures |u| == |p| == Pow2(t.e) && 0 <= u[j] < 2 * t.q && Cong(u[j], R * Eval(p, NttTheory.Point(psi, t.e, j)), t.q)
  {
    hide Cong, Eval, NttTheory.Point, Pow2;
    assert SlotStands(t, psi, u, p, j);
  }

  lemma StandsFrom(t: Derived, psi: int, u: seq<int>, p: seq<int>)
    requires |u| == |p| == Pow2(t.e)
    requires forall j :: 0 <= j < |u| ==> 0 <= u[j] < 2 * t.q && Cong(u[j], R * Eval(p, NttTheory.Point(psi, t.e, j)), t.q)
    ensures Stands(t, psi, u, p)
  {
    hide Cong, Eval, NttTheory.Point, Pow2;
  }

  lemma StandsSize(t: Derived, psi: int, u: seq<int>, p: seq<int>)
    requires Stands(t, psi, u, p)
    ensures |u| == |p| == Pow2(t.e) && InRange(u, 0, 2 * t.q)
  {
  }

  /** to_ntt_ leaves words that stand for its input. */
  lemma FormStands(t: Derived, psi: int, psiInverse: int, z: seq<int>)
    requires Valid(t, psi, psiInverse) && |z| == Pow2(t.e) && InRange(z, 0, 2 * t.q)
    ensures Stands(t, psi, Transform.NttForm(t, z), z)
  {
    hide *;
    forall j | 0 <= j < |z|
      ensures var w := Transform.NttForm(t, z)[j]; 0 <= w < 2 * t.q && Cong(w, R * Eval(z, NttTheory.Point(psi, t.e, j)), t.q)
    {
      Transform.NttFormValue(t, psi, psiInverse, z, j);
    }
    StandsFrom(t, psi, Transform.NttForm(t, z), z);
  }

  /** Any lazily reduced words stand for what to_intt_ makes of them. */
  lemma StandsForm(t: Derived, psi: int, psiInverse: int, u: seq<int>)
    requires Valid(t, psi, psiInverse) && |u| == Pow2(t.e) && InRange(u, 0, 2 * t.q)
    ensures Stands(t, psi, u, Transform.CoeffForm(t, u)) && AtMost(Transform.CoeffForm(t, u), t.q)
  {
    hide *;
    var p := Transform.CoeffForm(t, u);
    forall j | 0 <= j < |u|
      ensures 0 <= u[j] < 2 * t.q && Cong(u[j], R * Eval(p, NttTheory.Point(psi, t.e, j)), t.q) && 0 <= p[j] <= t.q
    {
      Interpolation.RangeAt(u, t.q, j);
      Interpolation.CoeffFormValue(t, psi, psiInverse, u, j);
    }
    StandsFrom(t, psi, u, p);
    AtMostFrom(p, t.q);
  }

  ghost predicate AtMost(s: seq<int>, q: int) {
    forall i :: 0 <= i < |s| ==> 0 <= s[i] <= q
  }

  lemma AtMostFrom(s: seq<int>, q: int)
    requires forall i :: 0 <= i < |s| ==> 0 <= s[i] <= q
    ensures AtMost(s, q)
  {
  }

  /** to_intt_ returns the coefficients that the words stand for. */
  lemma Coefficients(t: Derived, psi: int, psiInverse: int, u: seq<int>, p: seq<int>, c: nat)
    requires Valid(t, psi, psiInverse) && Stands(t, psi, u, p) && c < |p|
    ensures |p| == |u| && Cong(Transform.CoeffForm(t, u)[c], p[c], t.q) && 0 <= Transform.CoeffForm(t, u)[c] <= t.q
  {
    hide *;
    StandsSize(t, psi, u, p);
    StandsForm(t, psi, psiInverse, u);
    var form := Transform.CoeffForm(t, u);
    forall j | 0 <= j < |form| ensures Interpolation.SameSlot(t, psi, form, p, j) {
      StandsAt(t, psi, u, p, j);
      StandsAt(t, psi, u, form, j);
      SameValue(t, psi, psiInverse, u[j], Eval(form, NttTheory.Point(psi, t.e, j)), Eval(p, NttTheory.Point(psi, t.e, j)));
      SameFrom(t, psi, form, p, j);
    }
    Interpolation.SlotsDetermine(t, psi, psiInverse, form, p, c);
    AtMostAt(form, t.q, c);
  }

  lemma AtMostAt(s: seq<int>, q: int, c: nat)
    requires AtMost(s, q) && c < |s|
    ensures 0 <= s[c] <= q
  {
  }

  lemma SameValue(t: Derived, psi: int, psiInverse: int, u: int, a: int, b: int)
    requires Valid(t, psi, psiInverse) && Cong(u, R * a, t.q) && Cong(u, R * b, t.q)
    ensures Cong(a, b, t.q)
  {
    hide *;
    ValidModulus(t, psi, psiInverse);
    var j := RadixInverse(t.q, t.k);
    Sym(u, R * a, t.q);
    Trans(R * a, u, R * b, t.q);
    Cancel(R, j, a, b, t.q);
  }

  // ---------- slotwise products and sums ----------

  /** mont_mult of two rows. */
  function ProductRow(t: Derived, x: seq<int>, y: seq<int>): (z: seq<int>)
    requires |x| == |y|
    ensures |z| == |x|
  {
    Apply(MontMult, x, y, x, t.q, t.k)
  }

  /** mont_add_reduce_2q_to_q of two rows. */
  function SumRow(t: Derived, x: seq<int>, y: seq<int>): (z: seq<int>)
    requires |x| == |y|
    ensures |z| == |x|
  {
    Apply(AddReduce, x, y, x, t.q, t.k)
  }

  lemma ProductStands(t: Derived, psi: int, psiInverse: int, x: seq<int>, a: seq<int>, y: seq<int>, b: seq<int>)
    requires Valid(t, psi, psiInverse) && Stands(t, psi, x, a) && Stands(t, psi, y, b)
    ensures |x| == |y| == |a| == |b| && Stands(t, psi, ProductRow(t, x, y), Times(a, b))
  {
    hide *;
    ValidModulus(t, psi, psiInverse);
    StandsSize(t, psi, x, a);
    StandsSize(t, psi, y, b);
    forall j | 0 <= j < |x|
      ensures var w := ProductRow(t, x, y)[j]; 0 <= w < 2 * t.q && Cong(w, R * Eval(Times(a, b), NttTheory.Point(psi, t.e, j)), t.q)
    {
      var z := NttTheory.Point(psi, t.e, j);
      StandsAt(t, psi, x, a, j);
      StandsAt(t, psi, y, b, j);
      NttTheory.PointPower(t, psi, psiInverse, j);
      TimesValue(a, b, z, t.q);
      ProductAt(t, x, y, j);
      ProductWord(x[j], y[j], Eval(a, z), Eval(b, z), Eval(Times(a, b), z), t.q, t.k);
    }
    StandsFrom(t, psi, ProductRow(t, x, y), Times(a, b));
  }

  lemma ProductAt(t: Derived, x: seq<int>, y: seq<int>, j: nat)
    requires |x| == |y| && j < |x|
    ensures ProductRow(t, x, y)[j] == MontMultScalar(x[j], y[j], t.q, t.k)
  {
    hide MontMultScalar;
  }

  lemma ProductWord(x: int, y: int, a: int, b: int, p: int, q: int, k: int)
    requires MontModulus(q, k) && 0 <= x < 2 * q && 0 <= y < 2 * q && Cong(x, R * a, q) && Cong(y, R * b, q) && Cong(p, a * b, q)
    ensures var w := MontMultScalar(x, y, q, k); 0 <= w < 2 * q && Cong(w, R * p, q)
  {
    hide *;
    var w := MontMultScalar(x, y, q, k);
    MontLazy(x, y, q, k);
    TimesCommute(R, a);
    MontMeaning(w, x, y, q, k, a);
    Scale(a, y, R * b, q);
    Trans(w, a * y, a * (R * b), q);
    Scale(R, p, a * b, q);
    MiddleOut(a, R, b);
    Sym(R * p, R * (a * b), q);
    Trans(w, a * (R * b), R * p, q);
  }

  lemma MiddleOut(a: int, r: int, b: int)
    ensures a * (r * b) == r * (a * b)
  {
  }

  lemma SumStands(t: Derived, psi: int, psiInverse: int, x: seq<int>, a: seq<int>, y: seq<int>, b: seq<int>)
    requires Valid(t, psi, psiInverse) && Stands(t, psi, x, a) && Stands(t, psi, y, b)
    ensures |x| == |y| == |a| == |b| && Stands(t, psi, SumRow(t, x, y), Plus(a, 1, b))
  {
    hide *;
    ValidModulus(t, psi, psiInverse);
    StandsSize(t, psi, x, a);
    StandsSize(t, psi, y, b);
    forall j | 0 <= j < |x|
      ensures var w := SumRow(t, x, y)[j]; 0 <= w < 2 * t.q && Cong(w, R * Eval(Plus(a, 1, b), NttTheory.Point(psi, t.e, j)), t.q)
    {
      var z := NttTheory.Point(psi, t.e, j);
      StandsAt(t, psi, x, a, j);
      StandsAt(t, psi, y, b, j);
      PlusValue(a, 1, b, z, t.q);
      SumAt(t, x, y, j);
      SumOfValues(SumRow(t, x, y)[j], x[j], y[j], Eval(a, z), Eval(b, z), Eval(Plus(a, 1, b), z), t.q);
    }
    StandsFrom(t, psi, SumRow(t, x, y), Plus(a, 1, b));
  }

  /** The sum of two lazily reduced words is canonical. */
  lemma SumAt(t: Derived, x: seq<int>, y: seq<int>, j: nat)
    requires |x| == |y| && j < |x| && 0 < t.q && 4 * t.q <= R && 0 <= x[j] < 2 * t.q && 0 <= y[j] < 2 * t.q
    ensures 0 <= SumRow(t, x, y)[j] < t.q && Cong(SumRow(t, x, y)[j], x[j] + y[j], t.q)
  {
    hide Cong, Guard, AddGuard;
    AddGuardOnce(x[j], y[j], t.q);
    GuardOnce(AddGuard(x[j], y[j], 2 * t.q), t.q);
    Trans(SumRow(t, x, y)[j], AddGuard(x[j], y[j], 2 * t.q), x[j] + y[j], t.q);
  }

  lemma SumOfValues(w: int, x: int, y: int, a: int, b: int, p: int, q: int)
    requires Cong(w, x + y, q) && Cong(x, R * a, q) && Cong(y, R * b, q) && Cong(p, a + 1 * b, q)
    ensures Cong(w, R * p, q)
  {
    hide *;
    Add(x, R * a, y, R * b, q);
    Trans(w, x + y, R * a + R * b, q);
    Scale(R, p, a + b, q);
    Distribute(R, a, b);
    Sym(R * p, R * a + R * b, q);
    Trans(w, R * a + R * b, R * p, q);
  }

  lemma Distribute(r: int, a: int, b: int)
    ensures r * (a + b) == r * a + r * b
  {
  }

  // ---------- what ciphertexts decrypt to ----------

  /** c0 + c1 * s. */
  function Linear(c0: seq<int>, c1: seq<int>, s: seq<int>): (p: seq<int>)
    requires |c0| == |c1| == |s|
    ensures |p| == |s|
  {
    Plus(c0, 1, Times(c1, s))
  }

  /** c0 + c1 * s + c2 * s * s. */
  function Quadratic(c0: seq<int>, c1: seq<int>, c2: seq<int>, s: seq<int>): (p: seq<int>)
    requires |c0| == |c1| == |c2| == |s|
    ensures |p| == |s|
  {
    Plus(Linear(c0, c1, s), 1, Times(c2, Times(s, s)))
  }

  /** The same at values; kept apart from the proofs about polynomials. */
  function LinearAtSecret(c0: int, c1: int, s: int): int {
    c0 + c1 * s
  }

  function SquareAtSecret(c2: int, s: int): int {
    c2 * (s * s)
  }

  function QuadraticAtSecret(c0: int, c1: int, c2: int, s: int): int {
    LinearAtSecret(c0, c1, s) + SquareAtSecret(c2, s)
  }

  lemma LinearValue(c0: seq<int>, c1: seq<int>, s: seq<int>, z: int, q: int)
    requires q > 0 && |c0| == |c1| == |s| && Cong(Pow(z, |s|), -1, q)
    ensures Cong(Eval(Linear(c0, c1, s), z), LinearAtSecret(Eval(c0, z), Eval(c1, z), Eval(s, z)), q)
  {
    hide *;
    LinearSum(c0, c1, s, z, q);
    TimesValue(c1, s, z, q);
    LinearLast(Eval(Linear(c0, c1, s), z), Eval(Times(c1, s), z), Eval(c0, z), Eval(c1, z), Eval(s, z), q);
  }

  lemma LinearSum(c0: seq<int>, c1: seq<int>, s: seq<int>, z: int, q: int)
    requires q > 0 && |c0| == |c1| == |s|
    ensures Cong(Eval(Linear(c0, c1, s), z), Eval(c0, z) + Eval(Times(c1, s), z), q)
  {
    hide Cong, Eval, Times, Plus;
    PlusValue(c0, 1, Times(c1, s), z, q);
  }

  lemma LinearLast(left: int, product: int, c0: int, c1: int, s: int, q: int)
    requires Cong(left, c0 + product, q) && Cong(product, c1 * s, q)
    ensures Cong(left, LinearAtSecret(c0, c1, s), q)
  {
    hide Cong;
    RingOf(left, c0 + product, q);
    Refl(c0, q);
    Add(c0, c0, product, c1 * s, q);
    Trans(left, c0 + product, c0 + c1 * s, q);
  }

  lemma QuadraticValue(c0: seq<int>, c1: seq<int>, c2: seq<int>, s: seq<int>, z: int, q: int)
    requires q > 0 && |c0| == |c1| == |c2| == |s| && Cong(Pow(z, |s|), -1, q)
    ensures Cong(Eval(Quadratic(c0, c1, c2, s), z),
                 QuadraticAtSecret(Eval(c0, z), Eval(c1, z), Eval(c2, z), Eval(s, z)), q)
  {
    hide *;
    LinearValue(c0, c1, s, z, q);
    SquareValue(c2, s, z, q);
    QuadraticSum(c0, c1, c2, s, z, q, Eval(c0, z), Eval(c1, z), Eval(c2, z), Eval(s, z));
  }

  lemma QuadraticLast(left: int, linear: int, product: int, c0: int, c1: int, c2: int, s: int, q: int)
    requires Cong(left, linear + product, q) && Cong(linear, LinearAtSecret(c0, c1, s), q) && Cong(product, SquareAtSecret(c2, s), q)
    ensures Cong(left, QuadraticAtSecret(c0, c1, c2, s), q)
  {
    hide Cong, LinearAtSecret, SquareAtSecret;
    Add(linear, LinearAtSecret(c0, c1, s), product, SquareAtSecret(c2, s), q);
    Trans(left, linear + product, LinearAtSecret(c0, c1, s) + SquareAtSecret(c2, s), q);
  }

  lemma QuadraticSum(c0: seq<int>, c1: seq<int>, c2: seq<int>, s: seq<int>, z: int, q: int, v0: int, v1: int, v2: int, v: int)
    requires |c0| == |c1| == |c2| == |s| && Cong(Eval(Linear(c0, c1, s), z), LinearAtSecret(v0, v1, v), q)
    requires Cong(Eval(Times(c2, Times(s, s)), z), SquareAtSecret(v2, v), q)
    ensures Cong(Eval(Quadratic(c0, c1, c2, s), z), QuadraticAtSecret(v0, v1, v2, v), q)
  {
    RingOf(Eval(Linear(c0, c1, s), z), LinearAtSecret(v0, v1, v), q);
    hide Cong, Eval, Times, Plus, Linear, LinearAtSecret, SquareAtSecret, QuadraticAtSecret;
    PlusValue(Linear(c0, c1, s), 1, Times(c2, Times(s, s)), z, q);
    QuadraticLast(Eval(Quadratic(c0, c1, c2, s), z), Eval(Linear(c0, c1, s), z), Eval(Times(c2, Times(s, s)), z), v0, v1, v2, v, q);
  }

  lemma SquareValue(c2: seq<int>, s: seq<int>, z: int, q: int)
    requires q > 0 && |c2| == |s| && Cong(Pow(z, |s|), -1, q)
    ensures Cong(Eval(Times(c2, Times(s, s)), z), SquareAtSecret(Eval(c2, z), Eval(s, z)), q)
  {
    hide *;
    TimesValue(s, s, z, q);
    TimesValue(c2, Times(s, s), z, q);
    SquareLast(Eval(Times(c2, Times(s, s)), z), Eval(c2, z), Eval(Times(s, s), z), Eval(s, z), q);
  }

  lemma SquareLast(product: int, c: int, square: int, s: int, q: int)
    requires Cong(product, c * square, q) && Cong(square, s * s, q)
    ensures Cong(product, SquareAtSecret(c, s), q)
  {
    hide Cong;
    Scale(c, square, s * s, q);
    Trans(product, c * square, c * (s * s), q);
  }

  /** The product of what two ciphertexts decrypt to. */
  lemma ProductOfLinears(t: Derived, psi: int, psiInverse: int, a0: seq<int>, a1: seq<int>, b0: seq<int>, b1: seq<int>, s: seq<int>, c: nat)
    requires Valid(t, psi, psiInverse) && |a0| == |a1| == |b0| == |b1| == |s| == Pow2(t.e) && c < |s|
    ensures Cong(Quadratic(Times(a0, b0), Plus(Times(a0, b1), 1, Times(a1, b0)), Times(a1, b1), s)[c],
                 Times(Linear(a0, a1, s), Linear(b0, b1, s))[c], t.q)
  {
    hide *;
    ValidModulus(t, psi, psiInverse);
    var c0, c1, c2 := Times(a0, b0), Plus(Times(a0, b1), 1, Times(a1, b0)), Times(a1, b1);
    var left, right := Quadratic(c0, c1, c2, s), Times(Linear(a0, a1, s), Linear(b0, b1, s));
    forall j | 0 <= j < |left| ensures Interpolation.SameSlot(t, psi, left, right, j) {
      NttTheory.PointPower(t, psi, psiInverse, j);
      var z := NttTheory.Point(psi, t.e, j);
      QuadraticValue(c0, c1, c2, s, z, t.q);
      TimesValue(a0, b0, z, t.q);
      TimesValue(a0, b1, z, t.q);
      TimesValue(a1, b0, z, t.q);
      TimesValue(a1, b1, z, t.q);
      PlusValue(Times(a0, b1), 1, Times(a1, b0), z, t.q);
      LinearValue(a0, a1, s, z, t.q);
      LinearValue(b0, b1, s, z, t.q);
      TimesValue(Linear(a0, a1, s), Linear(b0, b1, s), z, t.q);
      CrossTerms(Eval(c1, z), Eval(Times(a0, b1), z), Eval(Times(a1, b0), z), Eval(a0, z) * Eval(b1, z), Eval(a1, z) * Eval(b0, z), t.q);
      ProductAlgebra(Eval(left, z), Eval(right, z), Eval(c0, z), Eval(c1, z), Eval(c2, z), Eval(Linear(a0, a1, s), z), Eval(Linear(b0, b1, s), z),
                     Eval(a0, z), Eval(a1, z), Eval(b0, z), Eval(b1, z), Eval(s, z), t.q);
      SameFrom(t, psi, left, right, j);
    }
    Interpolation.SlotsDetermine(t, psi, psiInverse, left, right, c);
  }

  lemma CrossTerms(c: int, x: int, y: int, x': int, y': int, q: int)
    requires Cong(c, x + 1 * y, q) && Cong(x, x', q) && Cong(y, y', q)
    ensures Cong(c, x' + y', q)
  {
    hide *;
    Add(x, x', y, y', q);
    Trans(c, x + y, x' + y', q);
  }

  lemma ProductAlgebra(left: int, right: int, c0: int, c1: int, c2: int, x: int, y: int, a0: int, a1: int, b0: int, b1: int, s: int, q: int)
    requires Cong(left, QuadraticAtSecret(c0, c1, c2, s), q) && Cong(c0, a0 * b0, q) && Cong(c1, a0 * b1 + a1 * b0, q) && Cong(c2, a1 * b1, q)
    requires Cong(right, x * y, q) && Cong(x, LinearAtSecret(a0, a1, s), q) && Cong(y, LinearAtSecret(b0, b1, s), q)
    ensures Cong(left, right, q)
  {
    assert QuadraticAtSecret(c0, c1, c2, s) == c0 + c1 * s + c2 * (s * s);
    assert LinearAtSecret(a0, a1, s) == a0 + a1 * s && LinearAtSecret(b0, b1, s) == b0 + b1 * s;
    hide *;
    MulRight(c1, a0 * b1 + a1 * b0, s, q);
    MulRight(c2, a1 * b1, s * s, q);
    Add(c0, a0 * b0, c1 * s, (a0 * b1 + a1 * b0) * s, q);
    Add(c0 + c1 * s, a0 * b0 + (a0 * b1 + a1 * b0) * s, c2 * (s * s), (a1 * b1) * (s * s), q);
    Mul(x, a0 + a1 * s, y, b0 + b1 * s, q);
    Expand(a0, a1, b0, b1, s);
    Trans(right, x * y, (a0 + a1 * s) * (b0 + b1 * s), q);
    Trans(left, c0 + c1 * s + c2 * (s * s), a0 * b0 + (a0 * b1 + a1 * b0) * s + (a1 * b1) * (s * s), q);
    Sym(right, (a0 + a1 * s) * (b0 + b1 * s), q);
    Trans(left, (a0 + a1 * s) * (b0 + b1 * s), right, q);
  }

  lemma Expand(a0: int, a1: int, b0: int, b1: int, s: int)
    ensures (a0 + a1 * s) * (b0 + b1 * s) == a0 * b0 + (a0 * b1 + a1 * b0) * s + (a1 * b1) * (s * s)
  {
    var x, y := a1 * s, b1 * s;
    assert (a0 + x) * (b0 + y) == a0 * b0 + a0 * y + x * b0 + x * y;
    assert a0 * y == (a0 * b1) * s && x * b0 == (a1 * b0) * s;
    assert (a0 * b1 + a1 * b0) * s == (a0 * b1) * s + (a1 * b0) * s;
    Exchange(a1, s, b1, s);
  }

  // ---------- multiply ----------

  /** multiply: three rows from two pairs, on one chain. */
  method Multiply(t: Derived, x0: array<int>, x1: array<int>, y0: array<int>, y1: array<int>,
                  z0: array<int>, z1: array<int>, z2: array<int>)
    requires x0.Length == x1.Length == y0.Length == y1.Length == z0.Length == z1.Length == z2.Length
    requires z0 != x0 && z0 != x1 && z0 != y0 && z0 != y1 && z1 != x0 && z1 != x1 && z1 != y0 && z1 != y1
    requires z2 != x0 && z2 != x1 && z2 != y0 && z2 != y1 && z0 != z1 && z0 != z2 && z1 != z2
    modifies z0, z1, z2
    ensures z0[..] == ProductRow(t, x0[..], y0[..]) && z2[..] == ProductRow(t, x1[..], y1[..])
    ensures z1[..] == SumRow(t, ProductRow(t, x0[..], y1[..]), ProductRow(t, x1[..], y0[..]))
  {
    hide Scalar;
    var z3 := new int[z1.Length];
    Destination(MontMult, x0[..], y0[..], z0[..], t);
    Destination(MontMult, x0[..], y1[..], z1[..], t);
    Destination(MontMult, x1[..], y0[..], z3[..], t);
    Destination(MontMult, x1[..], y1[..], z2[..], t);
    Run(MontMult, x0, y0, z0, t.q, t.k);
    Run(MontMult, x0, y1, z1, t.q, t.k);
    Run(MontMult, x1, y0, z3, t.q, t.k);
    Run(AddReduce, z1, z3, z1, t.q, t.k);
    Run(MontMult, x1, y1, z2, t.q, t.k);
  }

  /** These kernels do not look at the destination. */
  lemma Destination(op: Op, x: seq<int>, y: seq<int>, z: seq<int>, t: Derived)
    requires (op.MontMult? || op.AddReduce?) && |x| == |y| == |z|
    ensures Apply(op, x, y, z, t.q, t.k) == Apply(op, x, y, x, t.q, t.k)
  {
    hide MontMultScalar, AddGuard, Guard;
  }

  /** The rows of a product stand for the three products of the polynomials. */
  lemma MultiplyStands(t: Derived, psi: int, psiInverse: int, x0: seq<int>, a0: seq<int>, x1: seq<int>, a1: seq<int>,
                       y0: seq<int>, b0: seq<int>, y1: seq<int>, b1: seq<int>)
    requires Valid(t, psi, psiInverse) && Stands(t, psi, x0, a0) && Stands(t, psi, x1, a1) && Stands(t, psi, y0, b0) && Stands(t, psi, y1, b1)
    ensures |x0| == |x1| == |y0| == |y1| == |a0| == |a1| == |b0| == |b1|
    ensures Stands(t, psi, ProductRow(t, x0, y0), Times(a0, b0)) && Stands(t, psi, ProductRow(t, x1, y1), Times(a1, b1))
    ensures Stands(t, psi, SumRow(t, ProductRow(t, x0, y1), ProductRow(t, x1, y0)), Plus(Times(a0, b1), 1, Times(a1, b0)))
  {
    hide *;
    ProductStands(t, psi, psiInverse, x0, a0, y0, b0);
    ProductStands(t, psi, psiInverse, x0, a0, y1, b1);
    ProductStands(t, psi, psiInverse, x1, a1, y0, b0);
    ProductStands(t, psi, psiInverse, x1, a1, y1, b1);
    SumStands(t, psi, psiInverse, ProductRow(t, x0, y1), Times(a0, b1), ProductRow(t, x1, y0), Times(a1, b0));
  }

  // ---------- decrypt ----------

  /** decrypt_duo on one chain. */
  function DecryptedDuo(t: Derived, z0: seq<int>, z1: seq<int>, s: seq<int>): (p: seq<int>)
    requires |z0| == |z1| == |s| == Pow2(t.e)
    ensures |p| == Pow2(t.e)
  {
    SumRow(t, z0, Transform.CoeffForm(t, ProductRow(t, Transform.NttForm(t, z1), s)))
  }

  method DecryptDuo(t: Derived, z0: array<int>, z1: array<int>, s: array<int>, p: array<int>)
    requires t.e >= 1 && z0.Length == z1.Length == s.Length == p.Length == Pow2(t.e) && |t.root| == |t.rootInverse| == Pow2(t.e) - 1
    requires p != z0 && p != z1 && p != s
    modifies p
    ensures p[..] == DecryptedDuo(t, z0[..], z1[..], s[..])
  {
    hide Scalar, Transform.NttForm, Transform.CoeffForm;
    Transform.ToNtt(t, z1, p);
    Run(MontMult, p, s, p, t.q, t.k);
    Transform.ToIntt(t, p, p);
    ghost var product := p[..];
    Run(AddReduce, z0, p, p, t.q, t.k);
    Destination(AddReduce, z0[..], product, product, t);
  }

  /** Its words are the canonical residues of z0 + z1 * S. */
  lemma DecryptDuoMeans(t: Derived, psi: int, psiInverse: int, z0: seq<int>, z1: seq<int>, s: seq<int>, secret: seq<int>, c: nat)
    requires Valid(t, psi, psiInverse) && Stands(t, psi, s, secret) && |z0| == |z1| == Pow2(t.e) && c < Pow2(t.e)
    requires InRange(z0, 0, 2 * t.q) && InRange(z1, 0, 2 * t.q)
    ensures |s| == |secret| == Pow2(t.e) && t.q > 0 && DecryptedDuo(t, z0, z1, s)[c] == Linear(z0, z1, secret)[c] % t.q
  {
    hide *;
    ValidModulus(t, psi, psiInverse);
    StandsSize(t, psi, s, secret);
    FormStands(t, psi, psiInverse, z1);
    var u := ProductRow(t, Transform.NttForm(t, z1), s);
    ProductStands(t, psi, psiInverse, Transform.NttForm(t, z1), z1, s, secret);
    Coefficients(t, psi, psiInverse, u, Times(z1, secret), c);
    Interpolation.RangeAt(z0, t.q, c);
    SumAt(t, z0, Transform.CoeffForm(t, u), c);
    DuoIs(t, z0, z1, s);
    LinearAt(z0, z1, secret, c);
    CanonicalSum(DecryptedDuo(t, z0, z1, s)[c], z0[c], Transform.CoeffForm(t, u)[c], z0[c], Times(z1, secret)[c], t.q);
  }

  lemma DuoIs(t: Derived, z0: seq<int>, z1: seq<int>, s: seq<int>)
    requires |z0| == |z1| == |s| == Pow2(t.e)
    ensures DecryptedDuo(t, z0, z1, s) == SumRow(t, z0, Transform.CoeffForm(t, ProductRow(t, Transform.NttForm(t, z1), s)))
  {
  }

  lemma LinearAt(c0: seq<int>, c1: seq<int>, s: seq<int>, c: nat)
    requires |c0| == |c1| == |s| && c < |s|
    ensures Linear(c0, c1, s)[c] == c0[c] + Times(c1, s)[c]
  {
    hide Times;
  }

  lemma CanonicalSum(w: int, x: int, y: int, a: int, b: int, q: int)
    requires 0 <= w < q && Cong(w, x + y, q) && (x == a || Cong(x, a, q)) && Cong(y, b, q)
    ensures w == (a + b) % q
  {
    hide *;
    if x == a { Refl(x, q); }
    Add(x, a, y, b, q);
    Trans(w, x + y, a + b, q);
    CanonicalIs(w, a + b, q);
  }

  lemma CanonicalIs(w: int, v: int, q: int)
    requires 0 <= w < q && Cong(w, v, q)
    ensures w == v % q
  {
  }

  /** decrypt_trio on one chain. */
  function DecryptedTrio(t: Derived, u0: seq<int>, u1: seq<int>, u2: seq<int>, s: seq<int>): (p: seq<int>)
    requires |u0| == |u1| == |u2| == |s| == Pow2(t.e)
    ensures |p| == Pow2(t.e)
  {
    var sum := SumRow(t, Transform.CoeffForm(t, u0), Transform.CoeffForm(t, ProductRow(t, u1, s)));
    SumRow(t, sum, Transform.CoeffForm(t, ProductRow(t, u2, ProductRow(t, s, s))))
  }

  method DecryptTrio(t: Derived, u0: array<int>, u1: array<int>, u2: array<int>, s: array<int>, p: array<int>)
    requires t.e >= 1 && u0.Length == u1.Length == u2.Length == s.Length == p.Length == Pow2(t.e) && |t.rootInverse| == Pow2(t.e) - 1
    requires p != u0 && p != u1 && p != u2 && p != s
    modifies p
    ensures p[..] == DecryptedTrio(t, u0[..], u1[..], u2[..], s[..])
  {
    hide Scalar, Transform.CoeffForm;
    var squared := new int[p.Length];
    Destination(MontMult, s[..], s[..], squared[..], t);
    Run(MontMult, s, s, squared, t.q, t.k);
    Destination(MontMult, u1[..], s[..], p[..], t);
    Run(MontMult, u1, s, p, t.q, t.k);
    Transform.ToIntt(t, p, p);
    var first := new int[p.Length];
    Transform.ToIntt(t, u0, first);
    Destination(AddReduce, first[..], p[..], p[..], t);
    Run(AddReduce, first, p, p, t.q, t.k);
    var last := new int[p.Length];
    Destination(MontMult, u2[..], squared[..], last[..], t);
    Run(MontMult, u2, squared, last, t.q, t.k);
    Transform.ToIntt(t, last, last);
    Run(AddReduce, p, last, p, t.q, t.k);
  }

  /** Its words are the canonical residues of c0 + c1 * S + c2 * S * S. */
  lemma DecryptTrioMeans(t: Derived, psi: int, psiInverse: int, u0: seq<int>, c0: seq<int>, u1: seq<int>, c1: seq<int>, u2: seq<int>, c2: seq<int>,
                         s: seq<int>, secret: seq<int>, c: nat)
    requires Valid(t, psi, psiInverse) && Stands(t, psi, u0, c0) && Stands(t, psi, u1, c1) && Stands(t, psi, u2, c2) && Stands(t, psi, s, secret)
    requires c < Pow2(t.e)
    ensures |u0| == |u1| == |u2| == |s| == |c0| == |c1| == |c2| == |secret| == Pow2(t.e) && t.q > 0
    ensures DecryptedTrio(t, u0, u1, u2, s)[c] == Quadratic(c0, c1, c2, secret)[c] % t.q
  {
    hide *;
    ValidModulus(t, psi, psiInverse);
    StandsSize(t, psi, u0, c0);
    StandsSize(t, psi, s, secret);
    ProductStands(t, psi, psiInverse, u1, c1, s, secret);
    ProductStands(t, psi, psiInverse, s, secret, s, secret);
    ProductStands(t, psi, psiInverse, u2, c2, ProductRow(t, s, s), Times(secret, secret));
    var x, y := Transform.CoeffForm(t, u0), Transform.CoeffForm(t, ProductRow(t, u1, s));
    var z := Transform.CoeffForm(t, ProductRow(t, u2, ProductRow(t, s, s)));
    Coefficients(t, psi, psiInverse, u0, c0, c);
    Coefficients(t, psi, psiInverse, ProductRow(t, u1, s), Times(c1, secret), c);
    Coefficients(t, psi, psiInverse, ProductRow(t, u2, ProductRow(t, s, s)), Times(c2, Times(secret, secret)), c);
    SumAt(t, x, y, c);
    SumAt(t, SumRow(t, x, y), z, c);
    CanonicalSum(SumRow(t, x, y)[c], x[c], y[c], c0[c], Times(c1, secret)[c], t.q);
    LinearAt(c0, c1, secret, c);
    Residue(Linear(c0, c1, secret)[c], t.q);
    QuadraticAt(c0, c1, c2, secret, c);
    TrioIs(t, u0, u1, u2, s);
    CanonicalSum(SumRow(t, SumRow(t, x, y), z)[c], SumRow(t, x, y)[c], z[c], Linear(c0, c1, secret)[c], Times(c2, Times(secret, secret))[c], t.q);
  }

  lemma QuadraticAt(c0: seq<int>, c1: seq<int>, c2: seq<int>, s: seq<int>, c: nat)
    requires |c0| == |c1| == |c2| == |s| && c < |s|
    ensures Quadratic(c0, c1, c2, s)[c] == Linear(c0, c1, s)[c] + Times(c2, Times(s, s))[c]
  {
    hide Times, Linear;
  }

  lemma TrioIs(t: Derived, u0: seq<int>, u1: seq<int>, u2: seq<int>, s: seq<int>)
    requires |u0| == |u1| == |u2| == |s| == Pow2(t.e)
    ensures DecryptedTrio(t, u0, u1, u2, s) ==
      SumRow(t, SumRow(t, Transform.CoeffForm(t, u0), Transform.CoeffForm(t, ProductRow(t, u1, s))),
             Transform.CoeffForm(t, ProductRow(t, u2, ProductRow(t, s, s))))
  {
  }
}
