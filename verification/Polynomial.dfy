/** Polynomials as coefficient sequences, lowest degree first, and their values modulo q.

    Two sequences are compared through their values, so coefficients need not be reduced. */
module Polynomial {
  import opened Congruence

  function Eval(s: seq<int>, z: int): int {
    if s == [] then 0 else s[0] + z * Eval(s[1..], z)
  }

  lemma {:induction false} EvalConcat(a: seq<int>, b: seq<int>, z: int)
    ensures Eval(a + b, z) == Eval(a, z) + Pow(z, |a|) * Eval(b, z)
  {
    if a == [] {
      assert a + b == b;
    } else {
      assert (a + b)[1..] == a[1..] + b;
      EvalConcat(a[1..], b, z);
      HornerStep(z, Eval(a[1..], z), Pow(z, |a| - 1), Eval(b, z));
    }
  }

  lemma HornerStep(z: int, e: int, p: int, f: int)
    ensures z * (e + p * f) == z * e + (z * p) * f
  {
  }

  /** A pointwise relation s = a + w * b carries over to values. */
  lemma {:induction false} EvalLinear(s: seq<int>, a: seq<int>, w: int, b: seq<int>, z: int, q: int)
    requires q > 0 && |s| == |a| == |b|
    requires forall i :: 0 <= i < |s| ==> Cong(s[i], a[i] + w * b[i], q)
    ensures Cong(Eval(s, z), Eval(a, z) + w * Eval(b, z), q)
  {
    hide Cong;
    if s == [] {
      Refl(0, q);
    } else {
      EvalLinear(s[1..], a[1..], w, b[1..], z, q);
      var e, f := Eval(a[1..], z), Eval(b[1..], z);
      Scale(z, Eval(s[1..], z), e + w * f, q);
      Add(s[0], a[0] + w * b[0], z * Eval(s[1..], z), z * (e + w * f), q);
      LinearStep(a[0], b[0], w, z, e, f);
    }
  }

  lemma LinearStep(a: int, b: int, w: int, z: int, e: int, f: int)
    ensures a + w * b + z * (e + w * f) == (a + z * e) + w * (b + z * f)
  {
    assert z * (e + w * f) == z * e + w * (z * f);
  }

  lemma EvalScaled(s: seq<int>, c: int, t: seq<int>, z: int, q: int)
    requires q > 0 && CongSeq(s, c, t, q)
    ensures Cong(Eval(s, z), c * Eval(t, z), q)
  {
    var zeros := seq(|s|, i => 0);
    EvalLinear(s, zeros, c, t, z, q);
    EvalZeros(|s|, z);
  }

  lemma {:induction false} EvalZeros(n: nat, z: int)
    ensures Eval(seq(n, i => 0), z) == 0
  {
    if n > 0 {
      assert seq(n, i => 0)[1..] == seq(n - 1, i => 0);
      EvalZeros(n - 1, z);
    }
  }

  /** Equal points modulo q give equal values. */
  lemma {:induction false} EvalPoint(s: seq<int>, z: int, z': int, q: int)
    requires q > 0 && Cong(z, z', q)
    ensures Cong(Eval(s, z), Eval(s, z'), q)
  {
    hide Cong;
    if s == [] {
      Refl(0, q);
    } else {
      EvalPoint(s[1..], z, z', q);
      Mul(z, z', Eval(s[1..], z), Eval(s[1..], z'), q);
      Refl(s[0], q);
      Add(s[0], s[0], z * Eval(s[1..], z), z' * Eval(s[1..], z'), q);
    }
  }

  /** Changing one coefficient. */
  lemma {:induction false} EvalUpdate(s: seq<int>, p: nat, v: int, z: int)
    requires p < |s|
    ensures Eval(s[p := v], z) == Eval(s, z) + (v - s[p]) * Pow(z, p)
  {
    if p > 0 {
      assert s[p := v][1..] == s[1..][p - 1 := v];
      EvalUpdate(s[1..], p - 1, v, z);
      HornerStep(z, Eval(s[1..], z), v - s[p], Pow(z, p - 1));
      assert (z * (v - s[p])) * Pow(z, p - 1) == (v - s[p]) * (z * Pow(z, p - 1));
    } else {
      assert s[0 := v][1..] == s[1..];
      assert Pow(z, 0) == 1;
    }
  }

  lemma EvalConstant(c: int, z: int)
    ensures Eval([c], z) == c
  {
  }
}
