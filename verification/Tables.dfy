/** The per-modulus tables of src/ckks/derived_parameters.cpp and what they are meant to hold.

    Valid says it once, for the constructor that fills the tables and for the transforms. */
module Tables {
  import opened Congruence
  import opened Montgomery
  import opened BitReversal

  /** For 2^e coefficients modulo q. */
  datatype Derived = Derived(e: nat, q: int, k: int, rSquared: int, coeffCountInverse: int,
                             root: seq<int>, rootInverse: seq<int>)

  /** psi is a 2^e-th root of -1 with inverse psiInverse. */
  ghost predicate NegacyclicRoot(psi: int, psiInverse: int, e: nat, q: int) {
    Cong(Pow(psi, Pow2(e)), -1, q) && Cong(psi * psiInverse, 1, q)
  }

  /** Powers of psi in bit-reversed order without the first one, carrying the radix, not fully reduced. */
  ghost predicate RootTable(root: seq<int>, psi: int, e: nat, q: int) {
    && |root| == Pow2(e) - 1
    && forall i :: 0 <= i < |root| ==> 0 <= root[i] < 2 * q && Cong(root[i], Pow(psi, Rev(e, i + 1)) * R, q)
  }

  /** get_backward_paint: the heap indices of the nodes in the order in which the levels of intt
      use them, the nodes of height 1 first. */
  function BackwardPaint(e: nat, h: nat): (paint: seq<nat>)
    requires h <= e
    ensures |paint| == Pow2(e) - Pow2(e - h)
  {
    if h == 0 then [] else BackwardPaint(e, h - 1) + seq(Pow2(e - h), i => Pow2(e - h) + i)
  }

  /** Powers of the inverse root, ordered by the paint. */
  ghost predicate InverseTable(rootInverse: seq<int>, psiInverse: int, e: nat, q: int) {
    && |rootInverse| == Pow2(e) - 1 == |BackwardPaint(e, e)|
    && forall i :: 0 <= i < |rootInverse| ==>
         && 0 <= rootInverse[i] < 2 * q
         && Cong(rootInverse[i], Pow(psiInverse, Rev(e, BackwardPaint(e, e)[i])) * R, q)
  }

  ghost predicate Valid(t: Derived, psi: int, psiInverse: int) {
    && t.e >= 1 && MontModulus(t.q, t.k)
    && NegacyclicRoot(psi, psiInverse, t.e, t.q)
    && RootTable(t.root, psi, t.e, t.q)
    && InverseTable(t.rootInverse, psiInverse, t.e, t.q)
    && 0 <= t.rSquared < t.q && Cong(t.rSquared, R * R, t.q)
    && 0 <= t.coeffCountInverse < t.q && Cong(t.coeffCountInverse * Pow2(t.e), R, t.q)
  }

  /** What hides behind Valid, for callers that do not look inside. */
  lemma ValidModulus(t: Derived, psi: int, psiInverse: int)
    requires Valid(t, psi, psiInverse)
    ensures MontModulus(t.q, t.k) && 0 < t.q && 4 * t.q <= R && t.e >= 1
    ensures |t.root| == |t.rootInverse| == Pow2(t.e) - 1
  {
  }

  lemma ValidRoots(t: Derived, psi: int, psiInverse: int)
    requires Valid(t, psi, psiInverse)
    ensures Cong(Pow(psi, Pow2(t.e)), -1, t.q) && Cong(psi * psiInverse, 1, t.q)
    ensures RootTable(t.root, psi, t.e, t.q)
  {
  }
}
