/** to_ntt_ and to_intt_ for one chain (src/ckks/core_ntt.cpp), and multiplication through them.

    Only the branch for equal moduli is modelled; the other one belongs to flexible chains, which are
    never active. */
module Transform {
  import opened Congruence
  import opened Montgomery
  import opened NttReference
  import opened Tables
  import opened Polynomial
  import opened Kernels
  import NttLoops
  import NttTheory
  import NttInverse
  import NegacyclicProduct

  /** What to_ntt_ leaves in a chain: enter the Montgomery domain, then transform. */
  function NttForm(t: Derived, x: seq<int>): (y: seq<int>)
    requires |x| == Pow2(t.e)
    ensures |y| == |x|
  {
    Tree(Apply(MontEnter(t.rSquared), x, x, x, t.q, t.k), t.e, 1, t.root, t.q, t.k)
  }

  /** What to_intt_ leaves in a chain: transform back, then divide by N and leave the domain. */
  function CoeffForm(t: Derived, x: seq<int>): (y: seq<int>)
    ensures |y| == |x|
  {
    var joined := Joined(x, t.e, t.e, t.rootInverse, t.q, t.k);
    Apply(EnterExit(t.coeffCountInverse), joined, joined, joined, t.q, t.k)
  }

  method ToNtt(t: Derived, x: array<int>, y: array<int>)
    requires t.e >= 1 && x.Length == y.Length == Pow2(t.e) && |t.root| == Pow2(t.e) - 1
    modifies y
    ensures y[..] == NttForm(t, old(x[..]))
  {
    ghost var before := x[..];
    ApplyOneSource(MontEnter(t.rSquared), before, y[..], t.q, t.k);
    Run(MontEnter(t.rSquared), x, x, y, t.q, t.k);
    NttLoops.Ntt(y, y, t.root, 2 * t.q, t.q, t.k, y.Length, t.e);
  }

  method ToIntt(t: Derived, x: array<int>, y: array<int>)
    requires t.e >= 1 && x.Length == y.Length == Pow2(t.e) && |t.rootInverse| == Pow2(t.e) - 1
    modifies y
    ensures y[..] == CoeffForm(t, old(x[..]))
  {
    NttLoops.Intt(x, y, t.rootInverse, 2 * t.q, t.q, t.k, y.Length, t.e);
    Run(EnterExit(t.coeffCountInverse), y, y, y, t.q, t.k);
  }

  /** Entering does not look at the destination. */
  lemma ApplyOneSource(op: Op, x: seq<int>, y: seq<int>, q: int, k: int)
    requires (op.MontEnter? || op.EnterExit?) && |x| == |y|
    ensures Apply(op, x, x, y, q, k) == Apply(op, x, x, x, q, k)
  {
  }

  // ---------- the domain ----------

  /** Entering: a lazily reduced representative of R times the input. */
  lemma EnterMeaning(t: Derived, psi: int, psiInverse: int, x: seq<int>)
    requires Valid(t, psi, psiInverse) && InRange(x, 0, 2 * t.q)
    ensures var y := Apply(MontEnter(t.rSquared), x, x, x, t.q, t.k);
      InRange(y, 0, 2 * t.q) && CongSeq(y, R, x, t.q)
  {
    hide MontMultScalar, MontModulus, NegacyclicRoot, RootTable, InverseTable, Cong, Pow2;
    forall i | 0 <= i < |x|
      ensures var v := MontMultScalar(x[i], t.rSquared, t.q, t.k); 0 <= v < 2 * t.q && Cong(v, R * x[i], t.q)
    {
      EnterScalar(t, psi, psiInverse, x[i]);
    }
  }

  lemma EnterScalar(t: Derived, psi: int, psiInverse: int, x: int)
    requires Valid(t, psi, psiInverse) && 0 <= x < 2 * t.q
    ensures var v := MontMultScalar(x, t.rSquared, t.q, t.k); 0 <= v < 2 * t.q && Cong(v, R * x, t.q)
  {
    hide MontMultScalar, NegacyclicRoot, RootTable, InverseTable, Cong, Pow2;
    Enter(x, t.rSquared, t.q, t.k);
  }

  /** Leaving after the inverse transform: if the value stands for c * N * s, the result r satisfies
      r * R = c * s, and r lies in [0, q] with q only for multiples of q. */
  lemma ExitScalar(t: Derived, psi: int, psiInverse: int, x: int, c: int, s: int)
    requires Valid(t, psi, psiInverse) && 0 <= x < 2 * t.q && Cong(x, (c * Pow2(t.e)) * s, t.q)
    ensures var r := Scalar(EnterExit(t.coeffCountInverse), x, x, x, t.q, t.k);
      0 <= r <= t.q && Cong(r * R, c * s, t.q)
  {
    hide MontMultScalar, MontExitScalar, NegacyclicRoot, RootTable, InverseTable, Cong, Pow2;
    var entered := MontMultScalar(x, t.coeffCountInverse, t.q, t.k);
    var r := MontMultScalar(entered, 1, t.q, t.k);
    MontLazy(x, t.coeffCountInverse, t.q, t.k);
    ExitIsMultByOne(entered, t.q, t.k);
    MontExact(entered, 1, t.q, t.k);
    var j := RadixInverse(t.q, t.k);
    hide *;
    ExitAlgebra(entered, x, t.coeffCountInverse, c, Pow2(t.e), s, j, t.q);
    Trans(r * R, entered, c * s, t.q);
  }

  lemma ExitAlgebra(entered: int, x: int, constant: int, c: int, n: int, s: int, j: int, q: int)
    requires Cong(entered * R, x * constant, q) && Cong(x, (c * n) * s, q) && Cong(constant * n, R, q)
    requires Cong(R * j, 1, q)
    ensures Cong(entered, c * s, q)
  {
    hide *;
    MulRight(x, (c * n) * s, constant, q);
    MulRight(constant * n, R, c * s, q);
    Reorder(c, n, s, constant);
    Trans(x * constant, ((c * n) * s) * constant, R * (c * s), q);
    Trans(entered * R, x * constant, R * (c * s), q);
    assert entered * R == R * entered;
    Cancel(R, j, entered, c * s, q);
  }

  lemma Reorder(c: int, n: int, s: int, constant: int)
    ensures ((c * n) * s) * constant == (constant * n) * (c * s)
  {
    assert (c * n) * s == n * (c * s);
    assert (n * (c * s)) * constant == (constant * n) * (c * s);
  }

  // ---------- the theorems ----------

  /** Slot j after to_ntt_ stands, in the Montgomery domain, for the polynomial's value at
      psi^(2 rev(j) + 1), lazily reduced. */
  lemma NttFormValue(t: Derived, psi: int, psiInverse: int, x: seq<int>, j: nat)
    requires Valid(t, psi, psiInverse) && |x| == Pow2(t.e) && InRange(x, 0, 2 * t.q) && j < |x|
    ensures 0 <= NttForm(t, x)[j] < 2 * t.q
    ensures Cong(NttForm(t, x)[j], R * Eval(x, NttTheory.Point(psi, t.e, j)), t.q)
  {
    var y := Apply(MontEnter(t.rSquared), x, x, x, t.q, t.k);
    var z := NttTheory.Point(psi, t.e, j);
    assert NttForm(t, x) == Tree(y, t.e, 1, t.root, t.q, t.k);
    assert t.q > 0;
    hide *;
    EnterMeaning(t, psi, psiInverse, x);
    NttTheory.Evaluation(t, psi, psiInverse, y, j);
    EvalScaled(y, R, x, z, t.q);
    Trans(NttForm(t, x)[j], Eval(y, z), R * Eval(x, z), t.q);
  }

  /** to_intt_ applied to any lazily reduced representatives u of c times the transform of s. */
  lemma CoeffFormMeaning(t: Derived, psi: int, psiInverse: int, s: seq<int>, u: seq<int>, c: int, i: nat)
    requires Valid(t, psi, psiInverse) && |s| == |u| == Pow2(t.e) && InRange(s, 0, 2 * t.q) && i < |s|
    requires NttInverse.Multiple(u, c, Tree(s, t.e, 1, t.root, t.q, t.k), t.q)
    ensures 0 <= CoeffForm(t, u)[i] <= t.q && Cong(CoeffForm(t, u)[i] * R, c * s[i], t.q)
  {
    hide *;
    NttInverse.RoundTrip(t, psi, psiInverse, s, u, c);
    CoeffFormAt(t, u, i);
    var joined := Joined(u, t.e, t.e, t.rootInverse, t.q, t.k);
    MultipleAt(joined, c * Pow2(t.e), s, t.q, i);
    ExitScalar(t, psi, psiInverse, joined[i], c, s[i]);
  }

  lemma CoeffFormAt(t: Derived, u: seq<int>, i: nat)
    requires i < |u|
    ensures var joined := Joined(u, t.e, t.e, t.rootInverse, t.q, t.k);
      CoeffForm(t, u)[i] == Scalar(EnterExit(t.coeffCountInverse), joined[i], joined[i], joined[i], t.q, t.k)
  {
    hide Joined, Scalar;
  }

  lemma MultipleAt(u: seq<int>, c: int, s: seq<int>, q: int, i: nat)
    requires NttInverse.Multiple(u, c, s, q) && i < |s|
    ensures |u| == |s| && 0 <= u[i] < 2 * q && Cong(u[i], c * s[i], q)
  {
  }

  /** The transform of s, as representatives of itself. */
  lemma MultipleSelf(t: Derived, psi: int, psiInverse: int, s: seq<int>)
    requires Valid(t, psi, psiInverse) && |s| == Pow2(t.e) && InRange(s, 0, 2 * t.q)
    ensures var y := Tree(s, t.e, 1, t.root, t.q, t.k); NttInverse.Multiple(y, 1, y, t.q)
  {
    var y := Tree(s, t.e, 1, t.root, t.q, t.k);
    ValidModulus(t, psi, psiInverse);
    hide Tree, Cong, Valid;
    forall j | 0 <= j < |y| ensures 0 <= y[j] < 2 * t.q && Cong(y[j], 1 * y[j], t.q) {
      NttTheory.Evaluation(t, psi, psiInverse, s, j);
      Refl(y[j], t.q);
    }
  }

  /** Round trip: to_intt_ after to_ntt_ returns every coefficient modulo q, in [0, q], and q itself
      only for a coefficient congruent to 0. */
  lemma TransformRoundTrip(t: Derived, psi: int, psiInverse: int, x: seq<int>, i: nat)
    requires Valid(t, psi, psiInverse) && |x| == Pow2(t.e) && InRange(x, 0, 2 * t.q) && i < |x|
    ensures 0 <= CoeffForm(t, NttForm(t, x))[i] <= t.q
    ensures Cong(CoeffForm(t, NttForm(t, x))[i], x[i], t.q)
    ensures CoeffForm(t, NttForm(t, x))[i] == t.q ==> Cong(x[i], 0, t.q)
  {
    var s := Apply(MontEnter(t.rSquared), x, x, x, t.q, t.k);
    assert NttForm(t, x) == Tree(s, t.e, 1, t.root, t.q, t.k);
    hide *;
    ValidModulus(t, psi, psiInverse);
    EnterMeaning(t, psi, psiInverse, x);
    MultipleSelf(t, psi, psiInverse, s);
    CoeffFormMeaning(t, psi, psiInverse, s, NttForm(t, x), 1, i);
    CongSeqAt(s, R, x, t.q, i);
    LeaveDomain(t, CoeffForm(t, NttForm(t, x))[i], s[i], x[i]);
    ZeroAtModulus(t.q, x[i]);
  }

  lemma CongSeqAt(s: seq<int>, c: int, t: seq<int>, q: int, i: nat)
    requires CongSeq(s, c, t, q) && i < |s|
    ensures |s| == |t| && Cong(s[i], c * t[i], q)
  {
  }

  lemma LeaveDomain(t: Derived, r: int, s: int, x: int)
    requires MontModulus(t.q, t.k) && Cong(r * R, 1 * s, t.q) && Cong(s, R * x, t.q)
    ensures Cong(r, x, t.q)
  {
    hide *;
    var j := RadixInverse(t.q, t.k);
    Trans(r * R, s, R * x, t.q);
    assert r * R == R * r;
    Cancel(R, j, r, x, t.q);
  }

  lemma ZeroAtModulus(q: int, x: int)
    requires q > 0
    ensures Cong(q, x, q) ==> Cong(x, 0, q)
  {
    FromQuotient(q, 0, q, 1);
  }

  /** Negacyclic multiplication: transforming two polynomials, multiplying slot by slot with
      mont_mult and transforming back gives their product in Z_q[X]/(X^N + 1). */
  lemma NegacyclicMultiplication(t: Derived, psi: int, psiInverse: int, a: seq<int>, b: seq<int>, i: nat)
    requires Valid(t, psi, psiInverse) && |a| == |b| == Pow2(t.e) && i < |a|
    requires InRange(a, 0, 2 * t.q) && InRange(b, 0, 2 * t.q)
    ensures var f, g := NttForm(t, a), NttForm(t, b);
      var r := CoeffForm(t, Apply(MontMult, f, g, f, t.q, t.k))[i];
      0 <= r <= t.q && Cong(r, NegacyclicProduct.Product(a, b, |a|)[i], t.q)
  {
    var f, g := NttForm(t, a), NttForm(t, b);
    var u := Apply(MontMult, f, g, f, t.q, t.k);
    var product := NegacyclicProduct.Product(a, b, |a|);
    hide *;
    ValidModulus(t, psi, psiInverse);
    var s := Representatives(product, t.q);
    SlotwiseProduct(t, psi, psiInverse, a, b, s);
    CoeffFormMeaning(t, psi, psiInverse, s, u, 1, i);
    CongSeqAt(s, R, product, t.q, i);
    LeaveDomain(t, CoeffForm(t, u)[i], s[i], product[i]);
  }

  /** Reduced representatives of R times a polynomial. */
  lemma Representatives(p: seq<int>, q: int) returns (s: seq<int>)
    requires q > 0
    ensures |s| == |p| && InRange(s, 0, 2 * q) && CongSeq(s, R, p, q)
  {
    s := seq(|p|, i requires 0 <= i < |p| => (R * p[i]) % q);
    forall i | 0 <= i < |p| ensures 0 <= s[i] < 2 * q && Cong(s[i], R * p[i], q) {
      Residue(R * p[i], q);
    }
  }

  lemma SlotwiseProduct(t: Derived, psi: int, psiInverse: int, a: seq<int>, b: seq<int>, s: seq<int>)
    requires Valid(t, psi, psiInverse) && |a| == |b| == |s| == Pow2(t.e)
    requires InRange(a, 0, 2 * t.q) && InRange(b, 0, 2 * t.q) && InRange(s, 0, 2 * t.q)
    requires CongSeq(s, R, NegacyclicProduct.Product(a, b, |a|), t.q)
    ensures var f, g := NttForm(t, a), NttForm(t, b);
      NttInverse.Multiple(Apply(MontMult, f, g, f, t.q, t.k), 1, Tree(s, t.e, 1, t.root, t.q, t.k), t.q)
  {
    var f, g, y := NttForm(t, a), NttForm(t, b), Tree(s, t.e, 1, t.root, t.q, t.k);
    var u := Apply(MontMult, f, g, f, t.q, t.k);
    hide NttForm, Tree, Cong, Valid, MontMultScalar, CongSeq, Pow2, NegacyclicProduct.Product;
    forall j | 0 <= j < |u| ensures 0 <= u[j] < 2 * t.q && Cong(u[j], 1 * y[j], t.q) {
      SlotProduct(t, psi, psiInverse, a, b, s, j);
    }
  }

  lemma SlotProduct(t: Derived, psi: int, psiInverse: int, a: seq<int>, b: seq<int>, s: seq<int>, j: nat)
    requires Valid(t, psi, psiInverse) && |a| == |b| == |s| == Pow2(t.e) && j < |s|
    requires InRange(a, 0, 2 * t.q) && InRange(b, 0, 2 * t.q) && InRange(s, 0, 2 * t.q)
    requires CongSeq(s, R, NegacyclicProduct.Product(a, b, |a|), t.q)
    ensures var v := MontMultScalar(NttForm(t, a)[j], NttForm(t, b)[j], t.q, t.k);
      0 <= v < 2 * t.q && Cong(v, Tree(s, t.e, 1, t.root, t.q, t.k)[j], t.q)
  {
    hide *;
    ValidModulus(t, psi, psiInverse);
    var z := NttTheory.Point(psi, t.e, j);
    var f, g, y := NttForm(t, a)[j], NttForm(t, b)[j], Tree(s, t.e, 1, t.root, t.q, t.k)[j];
    var product := NegacyclicProduct.Product(a, b, |a|);
    var v := MontMultScalar(f, g, t.q, t.k);
    NttFormValue(t, psi, psiInverse, a, j);
    NttFormValue(t, psi, psiInverse, b, j);
    NttTheory.Evaluation(t, psi, psiInverse, s, j);
    MontLazy(f, g, t.q, t.k);
    MontMeaning(v, f, g, t.q, t.k, Eval(a, z)) by { assert R * Eval(a, z) == Eval(a, z) * R; }
    NttTheory.PointPower(t, psi, psiInverse, j);
    NegacyclicProduct.ProductValue(a, b, z, t.q);
    EvalScaled(s, R, product, z, t.q);
    SlotAlgebra(v, g, Eval(a, z), Eval(b, z), Eval(product, z), Eval(s, z), y, t.q);
  }

  lemma SlotAlgebra(v: int, g: int, a: int, b: int, p: int, s: int, y: int, q: int)
    requires Cong(v, a * g, q) && Cong(g, R * b, q) && Cong(p, a * b, q) && Cong(s, R * p, q) && Cong(y, s, q)
    ensures Cong(v, y, q)
  {
    hide *;
    Scale(a, g, R * b, q);
    Scale(R, p, a * b, q);
    assert a * (R * b) == R * (a * b);
    Trans(v, a * g, R * (a * b), q);
    Sym(R * p, R * (a * b), q);
    Trans(v, R * (a * b), R * p, q);
    Trans(y, s, R * p, q);
    Sym(y, R * p, q);
    Trans(v, R * p, y, q);
  }
}
