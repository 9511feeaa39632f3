/** Rotating a polynomial moves every slot of the encoder (src/ckks/encode.cpp:44-56, 345-361, 513-573). */
module SlotRotation {
  import opened Congruence
  import opened Polynomial
  import opened Rotation

  // ---------- exponents ----------

  /** Powers of five repeat after half as many steps as there are complex positions. */
  lemma PowersRepeat(e: nat, a: nat, b: nat)
    requires e >= 1 && Cong(a, b, Pow2(e - 1))
    ensures Cong(Pow(5, a), Pow(5, b), Pow2(e + 1))
  {
    hide *;
    if a <= b {
      PowersAhead(e, a, b);
    } else {
      Sym(a, b, Pow2(e - 1));
      PowersAhead(e, b, a);
      Sym(Pow(5, b), Pow(5, a), Pow2(e + 1));
    }
  }

  lemma PowersAhead(e: nat, a: nat, b: nat)
    requires e >= 1 && Cong(a, b, Pow2(e - 1)) && a <= b
    ensures Cong(Pow(5, a), Pow(5, b), Pow2(e + 1))
  {
    var h := Pow2(e - 1);
    Sym(a, b, h);
    var c := Quotient(b, a, h);
    if c <= -1 { AtLeast(-c, h); }
    hide *;
    FiveOrder(e - 1);
    PowMul(5, h, c);
    PowCong(Pow(5, h), 1, c, Pow2(e + 1));
    PowOne(c);
    TimesCommute(c, h);
    PowAdd(5, a, h * c);
    Scale(Pow(5, a), Pow(5, h * c), 1, Pow2(e + 1));
    Sym(Pow(5, b), Pow(5, a), Pow2(e + 1));
  }

  lemma Steps(s: nat, delta: int, h: int)
    requires h > 0
    ensures 0 <= delta % (4 * h) < 4 * h && 0 <= (s - delta) % h < h
    ensures Cong(s + (4 * h - delta % (4 * h)), (s - delta) % h, h)
  {
    var m := 4 * h;
    var k, shift := delta / m, delta % m;
    assert delta == k * m + shift;
    TurnsOfFour(k, h);
    FromQuotient(s + (m - shift), s - delta, h, 4 * k + 4);
    Residue(s - delta, h);
    hide Cong;
    Trans(s + (m - shift), s - delta, (s - delta) % h, h);
  }

  lemma TurnsOfFour(k: int, h: int)
    ensures k * (4 * h) == 4 * (k * h) && (4 * k + 4) * h == 4 * (k * h) + 4 * h
  {
  }

  lemma QuarterSize(e: nat)
    requires e >= 1
    ensures Pow2(e + 1) == 4 * Pow2(e - 1) && Pow2(e) == 2 * Pow2(e - 1) && Pow2(e - 1) >= 1
  {
    Pow2Double(e);
    Pow2Double(e - 1);
  }

  /** The jump of a rotation takes the exponent of slot s to the exponent of slot s - delta, and the jump
      of the conjugation to the exponent of the mirrored position, where the conjugate of slot s is. */
  lemma RotationMovesSlots(pre: seq<nat>, e: nat, jump: int, delta: int, s: nat)
    requires e >= 1 && |pre| == Pow2(e) && s < Pow2(e - 1) && JumpOf(jump, delta, Pow2(e + 1))
    requires forall r :: 0 <= r < Pow2(e - 1) ==> r < |pre| && (2 * pre[r] + 1) % Pow2(e + 1) == Pow(5, r) % Pow2(e + 1)
    ensures var t := (s - delta) % Pow2(e - 1);
      0 <= t < Pow2(e - 1) <= |pre| &&
      (delta % Pow2(e + 1) != Pow2(e + 1) - 1 ==> ((2 * pre[s] + 1) * jump) % Pow2(e + 1) == (2 * pre[t] + 1) % Pow2(e + 1))
    ensures delta % Pow2(e + 1) == Pow2(e + 1) - 1 ==>
      s < |pre| && ((2 * pre[s] + 1) * jump) % Pow2(e + 1) == (2 * (|pre| - 1 - pre[s]) + 1) % Pow2(e + 1)
  {
    QuarterSize(e);
    var h, m := Pow2(e - 1), Pow2(e + 1);
    Steps(s, delta, h);
    var t := (s - delta) % h;
    if delta % m != m - 1 {
      RotatedExponent(2 * pre[s] + 1, 2 * pre[t] + 1, jump, s, t, m - delta % m, e);
    } else {
      MirroredExponent(pre[s], |pre|, jump, m);
    }
  }

  lemma RotatedExponent(x: int, y: int, jump: int, s: nat, t: nat, steps: nat, e: nat)
    requires e >= 1 && x % Pow2(e + 1) == Pow(5, s) % Pow2(e + 1) && y % Pow2(e + 1) == Pow(5, t) % Pow2(e + 1)
    requires Cong(jump, Pow(5, steps), Pow2(e + 1)) && Cong(s + steps, t, Pow2(e - 1))
    ensures (x * jump) % Pow2(e + 1) == y % Pow2(e + 1)
  {
    var m := Pow2(e + 1);
    assert Cong(x, Pow(5, s), m) && Cong(Pow(5, t), y, m);
    hide *;
    PowersRepeat(e, s + steps, t);
    PowAdd(5, s, steps);
    Mul(x, Pow(5, s), jump, Pow(5, steps), m);
    Trans(x * jump, Pow(5, s + steps), Pow(5, t), m);
    Trans(x * jump, Pow(5, t), y, m);
    RemaindersOf(x * jump, y, m);
  }

  lemma RemaindersOf(a: int, b: int, m: int)
    requires Cong(a, b, m)
    ensures m > 0 && a % m == b % m
  {
  }

  lemma MirroredExponent(x: int, n: int, jump: int, m: int)
    requires m == 2 * n && n > 0 && jump == m - 1
    ensures ((2 * x + 1) * jump) % m == (2 * (n - 1 - x) + 1) % m
  {
    assert (2 * x + 1) * jump == (2 * x + 1) * m - (2 * x + 1);
    FromQuotient((2 * x + 1) * jump, 2 * (n - 1 - x) + 1, m, 2 * x);
  }

  // ---------- values ----------

  /** The jump of every rotation is invertible. */
  lemma JumpsFor(delta: int, jump: int, e: nat) returns (inverse: int)
    requires 1 <= e <= 29 && JumpOf(jump, delta, Pow2(e + 1))
    ensures Jumps(jump, inverse, Pow2(e))
  {
    Divides32(e);
    Pow2Double(e);
    var m := Pow2(e + 1);
    if delta % m == m - 1 {
      inverse := m - 1;
      MinusOneSquared(m);
    } else {
      var steps: nat := m - delta % m;
      var l := FiveInverse(e + 1, steps);
      inverse := Pow(5, l) % m;
      hide Pow, Pow2, Cong;
      Residue(Pow(5, l), m);
      Mul(jump, Pow(5, steps), inverse, Pow(5, l), m);
      Trans(jump * inverse, Pow(5, steps) * Pow(5, l), 1, m);
    }
  }

  lemma MinusOneSquared(m: int)
    requires m > 0
    ensures Cong((m - 1) * (m - 1), 1, m)
  {
    assert (m - 1) * (m - 1) == 1 + (m - 2) * m;
    FromQuotient((m - 1) * (m - 1), 1, m, m - 2);
  }

  lemma OddRoot(zeta: int, n: nat, a: nat, q: int)
    requires Cong(Pow(zeta, n), -1, q) && a % 2 == 1
    ensures Cong(Pow(Pow(zeta, a), n), -1, q)
  {
    hide *;
    PowMul(zeta, a, n);
    TimesCommute(a, n);
    PowMul(zeta, n, a);
    PowCong(Pow(zeta, n), -1, a, q);
    OddPowerOfMinusOne(a);
  }

  lemma JumpedPoint(zeta: int, n: nat, a: nat, b: nat, jump: nat, q: int)
    requires n >= 1 && Cong(Pow(zeta, n), -1, q) && (a * jump) % (2 * n) == b % (2 * n)
    ensures Cong(Pow(Pow(zeta, a), jump), Pow(zeta, b), q)
  {
    assert Cong(a * jump, b, 2 * n);
    hide *;
    PowMul(zeta, a, jump);
    SamePoint(zeta, n, a * jump, b, q);
  }

  /** Rotation by delta: with zeta any N-th root of -1, the polynomial that rotate_polynomial leaves has at
      the point of slot s the value that the original has at the point of slot s - delta. */
  lemma RotationMovesValues(pre: seq<nat>, e: nat, jump: int, delta: int, s: nat, t: nat, zeta: int, q: int, x: seq<int>, rotated: seq<int>)
    requires 1 <= e <= 29 && |pre| == Pow2(e) && s < Pow2(e - 1) && t == (s - delta) % Pow2(e - 1) && JumpOf(jump, delta, Pow2(e + 1))
    requires forall r :: 0 <= r < Pow2(e - 1) ==> r < |pre| && (2 * pre[r] + 1) % Pow2(e + 1) == Pow(5, r) % Pow2(e + 1)
    requires delta % Pow2(e + 1) != Pow2(e + 1) - 1
    requires q > 0 && Cong(Pow(zeta, Pow2(e)), -1, q) && |x| == Pow2(e) && IsRotated(rotated, x, jump, Pow2(e))
    ensures s < |pre| && t < |pre|
    ensures Cong(Eval(rotated, Pow(zeta, 2 * pre[s] + 1)), Eval(x, Pow(zeta, 2 * pre[t] + 1)), q)
  {
    hide *;
    QuarterSize(e);
    RotationMovesSlots(pre, e, jump, delta, s);
    ValueMoves(zeta, e, jump, delta, pre[s], pre[t], q, x, rotated);
  }

  /** Conjugation: at the point of slot s it has the value that the original has at the point of the mirrored
      position. */
  lemma ConjugationMovesValues(pre: seq<nat>, e: nat, jump: int, delta: int, s: nat, zeta: int, q: int, x: seq<int>, rotated: seq<int>)
    requires 1 <= e <= 29 && |pre| == Pow2(e) && s < Pow2(e - 1) && JumpOf(jump, delta, Pow2(e + 1))
    requires forall r :: 0 <= r < Pow2(e - 1) ==> r < |pre| && (2 * pre[r] + 1) % Pow2(e + 1) == Pow(5, r) % Pow2(e + 1)
    requires s < |pre| && pre[s] < |pre| && delta % Pow2(e + 1) == Pow2(e + 1) - 1
    requires q > 0 && Cong(Pow(zeta, Pow2(e)), -1, q) && |x| == Pow2(e) && IsRotated(rotated, x, jump, Pow2(e))
    ensures Cong(Eval(rotated, Pow(zeta, 2 * pre[s] + 1)), Eval(x, Pow(zeta, 2 * (|pre| - 1 - pre[s]) + 1)), q)
  {
    hide *;
    QuarterSize(e);
    RotationMovesSlots(pre, e, jump, delta, s);
    ValueMoves(zeta, e, jump, delta, pre[s], |pre| - 1 - pre[s], q, x, rotated);
  }

  lemma ValueMoves(zeta: int, e: nat, jump: int, delta: int, from: nat, to: nat, q: int, x: seq<int>, rotated: seq<int>)
    requires 1 <= e <= 29 && JumpOf(jump, delta, Pow2(e + 1))
    requires ((2 * from + 1) * jump) % Pow2(e + 1) == (2 * to + 1) % Pow2(e + 1)
    requires q > 0 && Cong(Pow(zeta, Pow2(e)), -1, q) && |x| == Pow2(e) && IsRotated(rotated, x, jump, Pow2(e))
    ensures Cong(Eval(rotated, Pow(zeta, 2 * from + 1)), Eval(x, Pow(zeta, 2 * to + 1)), q)
  {
    hide *;
    var a: nat, b: nat := 2 * from + 1, 2 * to + 1;
    Pow2Double(e);
    JumpRange(jump, delta, Pow2(e + 1));
    var inverse := JumpsFor(delta, jump, e);
    OddRoot(zeta, Pow2(e), a, q);
    RotatedValue(x, rotated, jump, inverse, Pow(zeta, a), q);
    JumpedPoint(zeta, Pow2(e), a, b, jump, q);
    EvalPoint(x, Pow(Pow(zeta, a), jump), Pow(zeta, b), q);
    Trans(Eval(rotated, Pow(zeta, a)), Eval(x, Pow(Pow(zeta, a), jump)), Eval(x, Pow(zeta, b)), q);
  }
}
