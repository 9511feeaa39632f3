/** What the two bootstrapping transforms compute (src/operation/bootstrap.cpp:35-122): slot_to_coeff turns the
    coefficients of a polynomial, in bit-reversed order, into its values at the roots zeta^(5^j) of the
    slots, and coeff_to_slot turns these values back. The table of roots, a table of complex exponentials
    in the source, holds the powers of any root of -1 in any commutative ring. */
module SlotTransform {
  import opened Congruence
  import opened BitReversal
  import opened Rings
  import opened Butterflies
  import opened Stages
  import opened TwiddleFactors
  import Rotation
  import SlotOrder

  // ---------- powers in the ring ----------

  function Power<C>(r: Ring<C>, z: C, k: nat): C {
    if k == 0 then r.one else r.mul(z, Power(r, z, k - 1))
  }

  lemma {:induction false} PowerAdd<C(!new)>(r: Ring<C>, z: C, a: nat, b: nat)
    requires Laws(r)
    ensures Power(r, z, a + b) == r.mul(Power(r, z, a), Power(r, z, b))
  {
    hide Laws;
    if a == 0 {
      MulOne(r, Power(r, z, b));
    } else {
      PowerAdd(r, z, a - 1, b);
      MulAssociates(r, z, Power(r, z, a - 1), Power(r, z, b));
    }
  }

  lemma {:induction false} PowerOne<C(!new)>(r: Ring<C>, k: nat)
    requires Laws(r)
    ensures Power(r, r.one, k) == r.one
  {
    hide Laws;
    if k > 0 {
      PowerOne(r, k - 1);
      MulOne(r, r.one);
    }
  }

  lemma {:induction false} PowerTimes<C(!new)>(r: Ring<C>, z: C, a: nat, b: nat)
    requires Laws(r)
    ensures a * b >= 0 && Power(r, z, a * b) == Power(r, Power(r, z, a), b)
  {
    hide Laws;
    if b == 0 {
      assert a * b == 0;
    } else {
      PowerTimes(r, z, a, b - 1);
      assert a * b == a + a * (b - 1);
      PowerAdd(r, z, a, a * (b - 1));
    }
  }

  lemma {:induction false} PowerInverse<C(!new)>(r: Ring<C>, z: C, w: C, k: nat)
    requires Laws(r) && r.mul(z, w) == r.one
    ensures r.mul(Power(r, z, k), Power(r, w, k)) == r.one
  {
    hide Laws;
    if k == 0 {
      MulOne(r, r.one);
    } else {
      PowerInverse(r, z, w, k - 1);
      MulExchanges(r, z, Power(r, z, k - 1), w, Power(r, w, k - 1));
      MulOne(r, r.one);
    }
  }

  lemma MulExchanges<C(!new)>(r: Ring<C>, a: C, b: C, c: C, d: C)
    requires Laws(r)
    ensures r.mul(r.mul(a, b), r.mul(c, d)) == r.mul(r.mul(a, c), r.mul(b, d))
  {
    hide *;
    MulAssociates(r, a, b, r.mul(c, d));
    MulAssociates(r, b, c, d);
    MulCommutes(r, b, c);
    MulAssociates(r, c, b, d);
    MulAssociates(r, a, c, r.mul(b, d));
  }

  /** zeta is a root of -1 of order 2n, that is a primitive 4n-th root of one, for n slots. */
  ghost predicate SlotRoot<C>(r: Ring<C>, zeta: C, n: nat) {
    Power(r, zeta, 2 * n) == r.neg(r.one)
  }

  lemma SlotRootIs<C>(r: Ring<C>, zeta: C, n: nat)
    requires SlotRoot(r, zeta, n)
    ensures Power(r, zeta, 2 * n) == r.neg(r.one)
  {
  }

  lemma FullCircle<C(!new)>(r: Ring<C>, zeta: C, n: nat)
    requires Laws(r) && SlotRoot(r, zeta, n)
    ensures Power(r, zeta, 4 * n) == r.one
  {
    hide *;
    SlotRootIs(r, zeta, n);
    PowerAdd(r, zeta, 2 * n, 2 * n);
    MulNegative(r, r.one, r.neg(r.one));
    NegativeTwice(r, r.one);
    MulOne(r, r.neg(r.one));
  }

  /** Exponents count modulo 4n. */
  lemma SamePower<C(!new)>(r: Ring<C>, zeta: C, n: nat, a: nat, b: nat)
    requires Laws(r) && SlotRoot(r, zeta, n) && n > 0 && Cong(a, b, 4 * n)
    ensures Power(r, zeta, a) == Power(r, zeta, b)
  {
    hide *;
    if a <= b {
      LaterPower(r, zeta, n, a, b);
    } else {
      Sym(a, b, 4 * n);
      LaterPower(r, zeta, n, b, a);
    }
  }

  lemma LaterPower<C(!new)>(r: Ring<C>, zeta: C, n: nat, a: nat, b: nat)
    requires Laws(r) && SlotRoot(r, zeta, n) && n > 0 && Cong(a, b, 4 * n) && a <= b
    ensures Power(r, zeta, a) == Power(r, zeta, b)
  {
    hide *;
    var c := TurnsBetween(a, b, 4 * n);
    FullCircle(r, zeta, n);
    PowerTimes(r, zeta, 4 * n, c);
    PowerOne(r, c);
    PowerAdd(r, zeta, a, (4 * n) * c);
    MulOne(r, Power(r, zeta, a));
  }

  lemma TurnsBetween(a: nat, b: nat, m: nat) returns (c: nat)
    requires Cong(a, b, m) && a <= b
    ensures m * c >= 0 && b == a + m * c
  {
    Sym(a, b, m);
    var k := Quotient(b, a, m);
    if k <= -1 { AtLeast(-k, m); }
    c := k;
    TimesCommute(k, m);
  }

  /** Half a circle on, the sign turns. */
  lemma OppositePower<C(!new)>(r: Ring<C>, zeta: C, n: nat, a: nat, b: nat)
    requires Laws(r) && SlotRoot(r, zeta, n) && n > 0 && Cong(b, a + 2 * n, 4 * n)
    ensures Power(r, zeta, b) == r.neg(Power(r, zeta, a))
  {
    hide *;
    SamePower(r, zeta, n, b, a + 2 * n);
    PowerAdd(r, zeta, a, 2 * n);
    SlotRootIs(r, zeta, n);
    MulNegative(r, Power(r, zeta, a), r.one);
    MulOne(r, Power(r, zeta, a));
  }

  // ---------- the values of the levels ----------

  /** The values of a level with the given reach and number of blocks: powers of five times the number of
      blocks, the power masked with eight times the reach. */
  function LevelValues<C>(r: Ring<C>, root: C, jump: nat, count: nat): (values: seq<C>)
    requires jump >= 1
    ensures |values| == jump
  {
    seq(jump, t requires 0 <= t < jump => Power(r, root, LevelExponent(t, jump, count)))
  }

  function LevelExponent(t: nat, jump: nat, count: nat): (e: nat)
    requires jump >= 1
  {
    (Pow(5, t) % (8 * jump)) * count
  }

  function SplitValues<C>(r: Ring<C>, root: C, log: nat): (values: seq<seq<C>>)
    ensures |values| == log
  {
    seq(log, l requires 0 <= l < log => LevelValues(r, root, Pow2(log - l - 1), Pow2(l)))
  }

  function JoinValues<C>(r: Ring<C>, root: C, log: nat): (values: seq<seq<C>>)
    ensures |values| == log
  {
    seq(log, l requires 0 <= l < log => LevelValues(r, root, Pow2(l), Pow2(log - l - 1)))
  }

  lemma ValuesAreOpposite<C(!new)>(r: Ring<C>, zeta: C, inverse: C, log: nat)
    requires Laws(r) && r.mul(inverse, zeta) == r.one
    ensures Opposite(r, SplitValues(r, inverse, log), JoinValues(r, zeta, log))
  {
    hide Laws, Power, Pow2, LevelExponent;
    var p, q := SplitValues(r, inverse, log), JoinValues(r, zeta, log);
    forall l | 0 <= l < log ensures Inverses(r, p[l], q[log - 1 - l]) {
      assert log - (log - 1 - l) - 1 == l && log - l - 1 == log - 1 - l;
      forall t | 0 <= t < |p[l]| ensures r.mul(p[l][t], q[log - 1 - l][t]) == r.one {
        PowerInverse(r, inverse, zeta, LevelExponent(t, Pow2(log - l - 1), Pow2(l)));
      }
    }
  }

  // ---------- exponents ----------

  /** 5^(2^h) is one plus 2^(h + 2) modulo 2^(h + 3). */
  lemma FiveHalfway(h: nat)
    ensures Cong(Pow(5, Pow2(h)), 1 + Pow2(h + 2), Pow2(h + 3))
  {
    var m, x := Pow2(h + 2), Pow(5, Pow2(h));
    Rotation.FiveOrder(h);
    var c := Quotient(x, 1, m);
    Pow2Double(h + 2);
    if c % 2 == 0 {
      FromQuotient(x, 1, Pow2(h + 3), c / 2) by { EvenTurns(c, m); }
      SlotOrder.FiveExactOrder(h + 1, Pow2(h));
      Pow2Double(h);
      SmallRemainder(Pow2(h), Pow2(h + 1));
    } else {
      FromQuotient(x, 1 + m, Pow2(h + 3), c / 2) by { OddTurns(c, m); }
    }
  }

  lemma SmallRemainder(a: int, m: int)
    requires 0 < a < m
    ensures a % m != 0
  {
  }

  lemma EvenTurns(c: int, m: int)
    requires c % 2 == 0
    ensures c * m == (c / 2) * (2 * m)
  {
  }

  lemma OddTurns(c: int, m: int)
    requires c % 2 == 1
    ensures c * m == m + (c / 2) * (2 * m)
  {
    assert c == 2 * (c / 2) + 1;
  }

  lemma CongTimes(a: int, b: int, c: int, m: int)
    requires Cong(a, b, m) && c > 0
    ensures c * m > 0 && Cong(c * a, c * b, c * m)
  {
    var k := Quotient(a, b, m);
    PositiveTimes(c, m);
    assert c * a == c * b + k * (c * m);
    FromQuotient(c * a, c * b, c * m, k);
  }

  lemma PositiveTimes(a: int, b: int)
    requires a > 0 && b > 0
    ensures a * b > 0
  {
  }

  /** The sizes around a level: n slots, blocks of twice the reach. */
  lemma LevelSizes(log: nat, h: nat)
    requires h < log
    ensures Pow2(log - h - 1) * (8 * Pow2(h)) == 4 * Pow2(log) && Pow2(log - h - 1) * (4 * Pow2(h)) == 2 * Pow2(log)
    ensures 8 * Pow2(h) == Pow2(h + 3) && 4 * Pow2(h) == Pow2(h + 2) && Pow2(log - h) == 2 * Pow2(log - h - 1)
  {
    Blocks(log, h);
    Pow2Double(h);
    Pow2Double(h + 1);
    Pow2Double(h + 2);
    Pow2Double(log - h - 1);
    hide *;
    EightTimes(Pow2(log - h - 1), Pow2(h));
  }

  lemma EightTimes(a: int, b: int)
    ensures a * (8 * b) == 4 * (a * (2 * b)) && a * (4 * b) == 2 * (a * (2 * b))
  {
  }

  /** Masking the power of five does not change the root. */
  lemma MaskedExponent(log: nat, h: nat, t: nat)
    requires h < log
    ensures Pow2(log - h - 1) * Pow(5, t) >= 0
    ensures Cong(LevelExponent(t, Pow2(h), Pow2(log - h - 1)), Pow2(log - h - 1) * Pow(5, t), 4 * Pow2(log))
  {
    LevelSizes(log, h);
    FivePositive(t);
    var a, m := Pow2(log - h - 1), 8 * Pow2(h);
    Residue(Pow(5, t), m);
    CongTimes(Pow(5, t) % m, Pow(5, t), a, m);
    TimesCommute(Pow(5, t) % m, a);
    PositiveTimes(a, Pow(5, t));
  }

  lemma {:induction false} FivePositive(t: nat)
    ensures Pow(5, t) > 0 && Pow(5, t) % 2 == 1
  {
    if t > 0 { FivePositive(t - 1); }
  }

  /** In the upper half of a block the root is the opposite one. */
  lemma UpperExponent(log: nat, h: nat, i: nat)
    requires h < log
    ensures Cong(Pow2(log - h - 1) * Pow(5, Pow2(h) + i), Pow2(log - h - 1) * Pow(5, i) + 2 * Pow2(log), 4 * Pow2(log))
  {
    LevelSizes(log, h);
    FiveHalfway(h);
    FivePositive(i);
    var a, j, f := Pow2(log - h - 1), Pow2(h), Pow(5, i);
    PowAdd(5, j, i);
    hide *;
    MulRight(Pow(5, j), 1 + 4 * j, f, 8 * j);
    OddMultiple(f, j);
    Trans(Pow(5, j) * f, (1 + 4 * j) * f, f + 4 * j, 8 * j);
    CongTimes(Pow(5, j) * f, f + 4 * j, a, 8 * j);
    Spread(a, f, 4 * j);
  }

  lemma Spread(a: int, b: int, c: int)
    ensures a * (b + c) == a * b + a * c
  {
  }

  lemma OddMultiple(f: int, j: nat)
    requires f % 2 == 1 && j > 0
    ensures Cong((1 + 4 * j) * f, f + 4 * j, 8 * j)
  {
    var c := f / 2;
    assert (1 + 4 * j) * f == f + 4 * j + c * (8 * j) by { assert f == 2 * c + 1; ExpandOdd(c, j); }
    FromQuotient((1 + 4 * j) * f, f + 4 * j, 8 * j, c);
  }

  lemma ExpandOdd(c: int, j: int)
    ensures (1 + 4 * j) * (2 * c + 1) == (2 * c + 1) + 4 * j + c * (8 * j)
  {
  }

  // ---------- evaluation ----------

  /** The polynomial whose coefficients are the entries from base on in bit-reversed order, at z: the even
      coefficients come first, then the odd ones. */
  ghost function Value<C>(r: Ring<C>, v: seq<C>, base: nat, h: nat, z: C): C
    requires base + Pow2(h) <= |v|
    decreases h
  {
    if h == 0 then v[base]
    else
      Pow2Double(h - 1);
      r.add(Value(r, v, base, h - 1, r.mul(z, z)), r.mul(z, Value(r, v, base + Pow2(h - 1), h - 1, r.mul(z, z))))
  }

  lemma ValueStep<C>(r: Ring<C>, v: seq<C>, base: nat, h: nat, z: C)
    requires base + Pow2(h + 1) <= |v|
    ensures base + 2 * Pow2(h) <= |v| && Pow2(h + 1) == 2 * Pow2(h)
    ensures Value(r, v, base, h + 1, z) == r.add(Value(r, v, base, h, r.mul(z, z)), r.mul(z, Value(r, v, base + Pow2(h), h, r.mul(z, z))))
  {
    Pow2Double(h);
  }

  /** The root of slot j in blocks of 2^h. */
  function BlockRoot<C>(r: Ring<C>, zeta: C, log: nat, h: nat, j: nat): C
    requires h <= log
  {
    Power(r, zeta, RootExponent(log, h, j))
  }

  function RootExponent(log: nat, h: nat, j: nat): (e: nat)
    requires h <= log
  {
    FivePositive(j);
    PositiveTimes(Pow2(log - h), Pow(5, j));
    Pow2(log - h) * Pow(5, j)
  }

  lemma RootExponentIs(log: nat, h: nat, j: nat)
    requires h <= log
    ensures RootExponent(log, h, j) == Pow2(log - h) * Pow(5, j)
  {
  }

  /** One level down the root is squared. */
  lemma RootSquared<C(!new)>(r: Ring<C>, zeta: C, log: nat, h: nat, j: nat)
    requires Laws(r) && h < log
    ensures r.mul(BlockRoot(r, zeta, log, h + 1, j), BlockRoot(r, zeta, log, h + 1, j)) == BlockRoot(r, zeta, log, h, j)
  {
    hide *;
    LevelSizes(log, h);
    RootExponentIs(log, h, j);
    RootExponentIs(log, h + 1, j);
    TwiceProduct(Pow2(log - h - 1), Pow(5, j));
    var e := RootExponent(log, h + 1, j);
    PowerAdd(r, zeta, e, e);
    BlockRootIs(r, zeta, log, h, j);
    BlockRootIs(r, zeta, log, h + 1, j);
  }

  lemma BlockRootIs<C>(r: Ring<C>, zeta: C, log: nat, h: nat, j: nat)
    requires h <= log
    ensures BlockRoot(r, zeta, log, h, j) == Power(r, zeta, RootExponent(log, h, j))
  {
  }

  lemma TwiceProduct(a: int, b: int)
    ensures (2 * a) * b == a * b + a * b
  {
  }

  lemma UpperRoot<C(!new)>(r: Ring<C>, zeta: C, log: nat, h: nat, i: nat)
    requires Laws(r) && SlotRoot(r, zeta, Pow2(log)) && h < log
    ensures BlockRoot(r, zeta, log, h + 1, Pow2(h) + i) == r.neg(BlockRoot(r, zeta, log, h + 1, i))
  {
    hide *;
    UpperExponent(log, h, i);
    RootExponentIs(log, h + 1, i);
    RootExponentIs(log, h + 1, Pow2(h) + i);
    SizePositive(log);
    OppositePower(r, zeta, Pow2(log), RootExponent(log, h + 1, i), RootExponent(log, h + 1, Pow2(h) + i));
    BlockRootIs(r, zeta, log, h + 1, i);
    BlockRootIs(r, zeta, log, h + 1, Pow2(h) + i);
  }

  lemma SizePositive(log: nat)
    ensures Pow2(log) > 0
  {
  }

  lemma ValueIsRoot<C(!new)>(r: Ring<C>, zeta: C, log: nat, h: nat, i: nat, values: seq<C>)
    requires Laws(r) && SlotRoot(r, zeta, Pow2(log)) && h < log && i < Pow2(h) && values == LevelValues(r, zeta, Pow2(h), Pow2(log - h - 1))
    ensures values[i] == BlockRoot(r, zeta, log, h + 1, i)
  {
    hide *;
    MaskedExponent(log, h, i);
    RootExponentIs(log, h + 1, i);
    SizePositive(log);
    SamePower(r, zeta, Pow2(log), LevelExponent(i, Pow2(h), Pow2(log - h - 1)), RootExponent(log, h + 1, i));
    BlockRootIs(r, zeta, log, h + 1, i);
    LevelValueAt(r, zeta, Pow2(h), Pow2(log - h - 1), i);
  }

  lemma LevelValueAt<C>(r: Ring<C>, root: C, jump: nat, count: nat, t: nat)
    requires jump >= 1 && t < jump
    ensures LevelValues(r, root, jump, count)[t] == Power(r, root, LevelExponent(t, jump, count))
  {
  }

  lemma JoinValuesAt<C>(r: Ring<C>, root: C, log: nat, l: nat)
    requires l < log
    ensures JoinValues(r, root, log)[l] == LevelValues(r, root, Pow2(l), Pow2(log - l - 1))
  {
    hide LevelValues, Pow2;
  }

  predicate Aligned(base: nat, size: nat) {
    size > 0 && base % size == 0
  }

  /** After the levels below h, place j of the block at base holds the value of the block's polynomial. */
  ghost predicate Evaluates<C(!new)>(r: Ring<C>, net: Network<C>, zeta: C, h: nat, v: seq<C>, base: nat, j: nat) {
    && IsNetwork(net) && h <= net.log && |v| == Pow2(net.log) && base + Pow2(h) <= |v| && j < Pow2(h)
    && Chain(r, net, 0, h, v)[base + j] == Value(r, v, base, h, BlockRoot(r, zeta, net.log, h, j))
  }

  lemma EvaluatesFrom<C(!new)>(r: Ring<C>, net: Network<C>, zeta: C, h: nat, v: seq<C>, base: nat, j: nat, place: C, value: C)
    requires IsNetwork(net) && h <= net.log && |v| == Pow2(net.log) && base + Pow2(h) <= |v| && j < Pow2(h)
    requires place == Chain(r, net, 0, h, v)[base + j] && value == Value(r, v, base, h, BlockRoot(r, zeta, net.log, h, j)) && place == value
    ensures Evaluates(r, net, zeta, h, v, base, j)
  {
    hide Chain, Value, BlockRoot, Pow2, IsNetwork;
  }

  lemma EvaluatesMeans<C(!new)>(r: Ring<C>, net: Network<C>, zeta: C, h: nat, v: seq<C>, base: nat, j: nat)
    requires Evaluates(r, net, zeta, h, v, base, j)
    ensures IsNetwork(net) && h <= net.log && |v| == Pow2(net.log) && base + Pow2(h) <= |v| && j < Pow2(h)
    ensures Chain(r, net, 0, h, v)[base + j] == Value(r, v, base, h, BlockRoot(r, zeta, net.log, h, j))
  {
    hide Chain, Value, BlockRoot, Pow2, IsNetwork;
  }

  /** All places of all blocks, level by level. */
  lemma {:induction false} JoinsEvaluate<C(!new)>(r: Ring<C>, net: Network<C>, zeta: C, h: nat, v: seq<C>, base: nat, j: nat)
    requires Laws(r) && SlotRoot(r, zeta, Pow2(net.log)) && JoinNetwork(r, net, JoinValues(r, zeta, net.log)) && h <= net.log
    requires |v| == Pow2(net.log) && j < Pow2(h) && Aligned(base, Pow2(h)) && base + Pow2(h) <= |v|
    ensures Evaluates(r, net, zeta, h, v, base, j)
  {
    hide *;
    if h == 0 {
      JoinNetworkIs(r, net, JoinValues(r, zeta, net.log));
      FirstBlock(r, net, zeta, v, base, j);
    } else {
      Pow2Double(h - 1);
      var jump := Pow2(h - 1);
      HalfBlocks(base, jump);
      var i := if j < jump then j else j - jump;
      JoinsEvaluate(r, net, zeta, h - 1, v, base, i);
      JoinsEvaluate(r, net, zeta, h - 1, v, base + jump, i);
      if j < jump {
        JoinLower(r, net, zeta, h - 1, v, base, i);
      } else {
        JoinUpper(r, net, zeta, h - 1, v, base, i);
      }
    }
  }

  lemma HalfBlocks(base: nat, jump: nat)
    requires jump >= 1 && Aligned(base, 2 * jump)
    ensures Aligned(base, jump) && Aligned(base + jump, jump)
  {
    var c := base / (2 * jump);
    Parts(base, 2 * jump);
    assert base == (2 * c) * jump by { TwiceProduct(c, jump); assert c * (2 * jump) == 2 * (c * jump); }
    DivModUnique(base, 2 * c, 0, jump);
    assert base + jump == (2 * c + 1) * jump;
    DivModUnique(base + jump, 2 * c + 1, 0, jump);
  }

  lemma JoinNetworkIs<C(!new)>(r: Ring<C>, net: Network<C>, values: seq<seq<C>>)
    requires JoinNetwork(r, net, values)
    ensures IsNetwork(net) && net.order == SlotToCoeff && |values| == net.log == |net.factors|
    ensures forall l :: 0 <= l < net.log ==> Joins(r, net.factors[l], Pow2(l), values[l], Pow2(net.log))
  {
    hide Joins;
  }

  lemma FirstBlock<C(!new)>(r: Ring<C>, net: Network<C>, zeta: C, v: seq<C>, base: nat, j: nat)
    requires IsNetwork(net) && |v| == Pow2(net.log) && base + Pow2(0) <= |v| && j < Pow2(0)
    ensures Evaluates(r, net, zeta, 0, v, base, j)
  {
    hide BlockRoot, IsNetwork;
  }

  lemma LowerLast<C(!new)>(r: Ring<C>, v: seq<C>, base: nat, h: nat, z: C, y: C, a: C, b: C, joined: C)
    requires Laws(r) && base + 2 * Pow2(h) <= |v| && base + Pow2(h + 1) <= |v| && r.mul(z, z) == y
    requires a == Value(r, v, base, h, y) && b == Value(r, v, base + Pow2(h), h, y) && joined == r.add(a, r.mul(z, b))
    ensures joined == Value(r, v, base, h + 1, z)
  {
    hide *;
    ValueStep(r, v, base, h, z);
  }

  lemma UpperLast<C(!new)>(r: Ring<C>, v: seq<C>, base: nat, h: nat, z: C, y: C, a: C, b: C, joined: C)
    requires Laws(r) && base + 2 * Pow2(h) <= |v| && base + Pow2(h + 1) <= |v| && r.mul(z, z) == y
    requires a == Value(r, v, base, h, y) && b == Value(r, v, base + Pow2(h), h, y) && joined == r.add(a, r.neg(r.mul(z, b)))
    ensures joined == Value(r, v, base, h + 1, r.neg(z))
  {
    hide *;
    UpperValue(r, v, base, h, z);
  }

  /** One level more: two half blocks are joined. */
  lemma JoinLower<C(!new)>(r: Ring<C>, net: Network<C>, zeta: C, h: nat, v: seq<C>, base: nat, i: nat)
    requires Laws(r) && SlotRoot(r, zeta, Pow2(net.log)) && JoinNetwork(r, net, JoinValues(r, zeta, net.log)) && h < net.log
    requires Evaluates(r, net, zeta, h, v, base, i) && Evaluates(r, net, zeta, h, v, base + Pow2(h), i) && Aligned(base, 2 * Pow2(h))
    ensures Evaluates(r, net, zeta, h + 1, v, base, i)
  {
    hide *;
    EvaluatesMeans(r, net, zeta, h, v, base, i);
    EvaluatesMeans(r, net, zeta, h, v, base + Pow2(h), i);
    Pow2Double(h);
    RootSquared(r, zeta, net.log, h, i);
    var z, y := BlockRoot(r, zeta, net.log, h + 1, i), BlockRoot(r, zeta, net.log, h, i);
    var w := Chain(r, net, 0, h, v);
    JoinedPair(r, net, zeta, h, v, base, i, w, Chain(r, net, 0, h + 1, v), z);
    var a, b := w[base + i], w[base + Pow2(h) + i];
    LowerLast(r, v, base, h, z, y, a, b, r.add(a, r.mul(z, b)));
    EvaluatesFrom(r, net, zeta, h + 1, v, base, i, r.add(a, r.mul(z, b)), Value(r, v, base, h + 1, z));
  }

  lemma JoinUpper<C(!new)>(r: Ring<C>, net: Network<C>, zeta: C, h: nat, v: seq<C>, base: nat, i: nat)
    requires Laws(r) && SlotRoot(r, zeta, Pow2(net.log)) && JoinNetwork(r, net, JoinValues(r, zeta, net.log)) && h < net.log
    requires Evaluates(r, net, zeta, h, v, base, i) && Evaluates(r, net, zeta, h, v, base + Pow2(h), i) && Aligned(base, 2 * Pow2(h))
    ensures Evaluates(r, net, zeta, h + 1, v, base, Pow2(h) + i)
  {
    hide *;
    EvaluatesMeans(r, net, zeta, h, v, base, i);
    EvaluatesMeans(r, net, zeta, h, v, base + Pow2(h), i);
    Pow2Double(h);
    RootSquared(r, zeta, net.log, h, i);
    UpperRoot(r, zeta, net.log, h, i);
    var z, y := BlockRoot(r, zeta, net.log, h + 1, i), BlockRoot(r, zeta, net.log, h, i);
    var w := Chain(r, net, 0, h, v);
    JoinedPair(r, net, zeta, h, v, base, i, w, Chain(r, net, 0, h + 1, v), z);
    var a, b := w[base + i], w[base + Pow2(h) + i];
    UpperLast(r, v, base, h, z, y, a, b, r.add(a, r.neg(r.mul(z, b))));
    EvaluatesFrom(r, net, zeta, h + 1, v, base, Pow2(h) + i, r.add(a, r.neg(r.mul(z, b))), Value(r, v, base, h + 1, r.neg(z)));
  }

  /** What level h makes of the two places i of a block. */
  lemma JoinedPair<C(!new)>(r: Ring<C>, net: Network<C>, zeta: C, h: nat, v: seq<C>, base: nat, i: nat, w: seq<C>, joined: seq<C>, z: C)
    requires Laws(r) && SlotRoot(r, zeta, Pow2(net.log)) && JoinNetwork(r, net, JoinValues(r, zeta, net.log)) && h < net.log && IsNetwork(net)
    requires |v| == Pow2(net.log) && w == Chain(r, net, 0, h, v) && joined == Chain(r, net, 0, h + 1, v) && z == BlockRoot(r, zeta, net.log, h + 1, i)
    requires i < Pow2(h) && Aligned(base, 2 * Pow2(h)) && base + Pow2(h) + i < |w| == |joined| && base + 2 * Pow2(h) <= |v|
    ensures joined[base + i] == r.add(w[base + i], r.mul(z, w[base + Pow2(h) + i]))
    ensures joined[base + Pow2(h) + i] == r.add(w[base + i], r.neg(r.mul(z, w[base + Pow2(h) + i])))
  {
    hide *;
    JoinNetworkIs(r, net, JoinValues(r, zeta, net.log));
    ChainTop(r, net, h, v);
    Blocks(net.log, h);
    JoinValuesAt(r, zeta, net.log, h);
    ValueIsRoot(r, zeta, net.log, h, i, JoinValues(r, zeta, net.log)[h]);
    BlockPair(r, net.factors[h], Pow2(h), JoinValues(r, zeta, net.log)[h], w, base, i, Pow2(net.log - h - 1));
  }

  lemma BlockPair<C(!new)>(r: Ring<C>, f: Factor<C>, jump: nat, values: seq<C>, w: seq<C>, base: nat, i: nat, c: nat)
    requires Laws(r) && |w| == c * (2 * jump) && Joins(r, f, jump, values, |w|) && i < jump
    requires Aligned(base, 2 * jump) && base + 2 * jump <= |w|
    ensures Sized(f, |w|) && i < |values|
    ensures Butterfly(r, f, jump, w)[base + i] == r.add(w[base + i], r.mul(values[i], w[base + jump + i]))
    ensures Butterfly(r, f, jump, w)[base + jump + i] == r.add(w[base + i], r.neg(r.mul(values[i], w[base + jump + i])))
  {
    hide *;
    PlaceInBlock(base, jump, i);
    PlaceInBlock(base, jump, jump + i);
    JoinAt(r, f, jump, values, w, base + i, c);
    JoinAt(r, f, jump, values, w, base + jump + i, c);
  }

  lemma UpperValue<C(!new)>(r: Ring<C>, v: seq<C>, base: nat, h: nat, z: C)
    requires Laws(r) && base + Pow2(h + 1) <= |v|
    ensures base + 2 * Pow2(h) <= |v| && Pow2(h + 1) == 2 * Pow2(h)
    ensures Value(r, v, base, h + 1, r.neg(z)) ==
      r.add(Value(r, v, base, h, r.mul(z, z)), r.neg(r.mul(z, Value(r, v, base + Pow2(h), h, r.mul(z, z)))))
  {
    hide *;
    ValueStep(r, v, base, h, r.neg(z));
    NegativeSquare(r, z);
    MulNegative(r, z, Value(r, v, base + Pow2(h), h, r.mul(z, z)));
  }

  lemma PlaceInBlock(base: nat, jump: nat, j: nat)
    requires jump >= 1 && Aligned(base, 2 * jump) && j < 2 * jump
    ensures (base + j) % (2 * jump) == j
  {
    Parts(base, 2 * jump);
    DivModUnique(base + j, base / (2 * jump), j, 2 * jump);
  }

  lemma NegativeSquare<C(!new)>(r: Ring<C>, z: C)
    requires Laws(r)
    ensures r.mul(r.neg(z), r.neg(z)) == r.mul(z, z)
  {
    hide *;
    MulNegative(r, z, r.neg(z));
    MulNegative(r, z, z);
    NegativeTwice(r, r.mul(z, z));
  }

  // ---------- the value as a sum ----------

  ghost function ValueTerms<C>(r: Ring<C>, v: seq<C>, base: nat, h: nat, z: C): int -> C
  {
    k => if 0 <= k && base + Rev(h, k) < |v| then r.mul(v[base + Rev(h, k)], Power(r, z, k)) else r.zero
  }

  /** The sum of the coefficients in bit-reversed order times the powers. */
  lemma {:induction false} ValueIsSum<C(!new)>(r: Ring<C>, v: seq<C>, base: nat, h: nat, z: C)
    requires Laws(r) && base + Pow2(h) <= |v|
    ensures Value(r, v, base, h, z) == Sum(r, ValueTerms(r, v, base, h, z), 0, Pow2(h))
    decreases h
  {
    hide *;
    if h == 0 {
      OneTerm(r, v, base, z);
    } else {
      Pow2Double(h - 1);
      var m, y := Pow2(h - 1), r.mul(z, z);
      ValueIsSum(r, v, base, h - 1, y);
      ValueIsSum(r, v, base + m, h - 1, y);
      ValueStep(r, v, base, h - 1, z);
      var even, odd := ValueTerms(r, v, base, h - 1, y), ValueTerms(r, v, base + m, h - 1, y);
      var all := ValueTerms(r, v, base, h, z);
      forall k: nat | k < m ensures all(2 * k) == even(k) && all(2 * k + 1) == r.mul(z, odd(k)) {
        PairOfTerms(r, v, base, h - 1, z, k);
      }
      SumPairs(r, all, even, odd, z, m);
    }
  }

  lemma OneTerm<C(!new)>(r: Ring<C>, v: seq<C>, base: nat, z: C)
    requires Laws(r) && base + Pow2(0) <= |v|
    ensures Value(r, v, base, 0, z) == Sum(r, ValueTerms(r, v, base, 0, z), 0, Pow2(0))
  {
    hide *;
    FirstTerm(r, v, base, z);
    SumFirst(r, ValueTerms(r, v, base, 0, z), 0, 1);
    SumNone(r, ValueTerms(r, v, base, 0, z), 1);
    MulOne(r, v[base]);
    AddZero(r, v[base]);
  }

  lemma SumNone<C>(r: Ring<C>, f: int -> C, low: int)
    ensures Sum(r, f, low, low) == r.zero
  {
  }

  lemma FirstTerm<C>(r: Ring<C>, v: seq<C>, base: nat, z: C)
    requires base + Pow2(0) <= |v|
    ensures Pow2(0) == 1 && Value(r, v, base, 0, z) == v[base]
    ensures ValueTerms(r, v, base, 0, z)(0) == r.mul(v[base], r.one)
  {
  }

  lemma PairOfTerms<C(!new)>(r: Ring<C>, v: seq<C>, base: nat, h: nat, z: C, k: nat)
    requires Laws(r) && base + 2 * Pow2(h) <= |v| && k < Pow2(h)
    ensures var y := r.mul(z, z);
      && ValueTerms(r, v, base, h + 1, z)(2 * k) == ValueTerms(r, v, base, h, y)(k)
      && ValueTerms(r, v, base, h + 1, z)(2 * k + 1) == r.mul(z, ValueTerms(r, v, base + Pow2(h), h, y)(k))
  {
    hide *;
    RevRange(h, k);
    RevPair(h, k);
    EvenPower(r, z, k);
    PowerStep(r, z, 2 * k);
    MulLeft(r, z, v[base + Pow2(h) + Rev(h, k)], Power(r, r.mul(z, z), k));
    TermAt(r, v, base, h + 1, z, 2 * k);
    TermAt(r, v, base, h + 1, z, 2 * k + 1);
    TermAt(r, v, base, h, r.mul(z, z), k);
    TermAt(r, v, base + Pow2(h), h, r.mul(z, z), k);
  }

  lemma RevPair(h: nat, k: nat)
    ensures Rev(h + 1, 2 * k) == Rev(h, k) && Rev(h + 1, 2 * k + 1) == Pow2(h) + Rev(h, k)
  {
    assert (2 * k) / 2 == k && (2 * k + 1) / 2 == k;
  }

  lemma PowerStep<C>(r: Ring<C>, z: C, k: nat)
    ensures Power(r, z, k + 1) == r.mul(z, Power(r, z, k)) && Power(r, z, 0) == r.one
  {
  }

  lemma TermAt<C>(r: Ring<C>, v: seq<C>, base: nat, h: nat, z: C, k: nat)
    requires base + Rev(h, k) < |v|
    ensures ValueTerms(r, v, base, h, z)(k) == r.mul(v[base + Rev(h, k)], Power(r, z, k))
  {
    hide Rev, Power;
  }

  lemma EvenPower<C(!new)>(r: Ring<C>, z: C, k: nat)
    requires Laws(r)
    ensures Power(r, z, 2 * k) == Power(r, r.mul(z, z), k)
  {
    hide *;
    PowerStep(r, z, 1);
    PowerStep(r, z, 0);
    MulOne(r, z);
    PowerTimes(r, z, 2, k);
  }

  lemma MulLeft<C(!new)>(r: Ring<C>, z: C, a: C, b: C)
    requires Laws(r)
    ensures r.mul(a, r.mul(z, b)) == r.mul(z, r.mul(a, b))
  {
    hide *;
    MulAssociates(r, a, z, b);
    MulCommutes(r, a, z);
    MulAssociates(r, z, a, b);
  }

  lemma {:induction false} SumPairs<C(!new)>(r: Ring<C>, all: int -> C, even: int -> C, odd: int -> C, z: C, m: nat)
    requires Laws(r) && forall k: nat :: k < m ==> all(2 * k) == even(k) && all(2 * k + 1) == r.mul(z, odd(k))
    ensures Sum(r, all, 0, 2 * m) == r.add(Sum(r, even, 0, m), r.mul(z, Sum(r, odd, 0, m)))
  {
    hide Laws;
    if m == 0 {
      MulZero(r, z);
      AddZero(r, r.zero);
    } else {
      SumPairs(r, all, even, odd, z, m - 1);
      assert all(2 * (m - 1)) == even(m - 1);
      var a, b := Sum(r, even, 0, m - 1), Sum(r, odd, 0, m - 1);
      assert Sum(r, all, 0, 2 * m) == r.add(Sum(r, all, 0, 2 * m - 1), all(2 * m - 1));
      assert Sum(r, all, 0, 2 * m - 1) == r.add(Sum(r, all, 0, 2 * m - 2), all(2 * m - 2));
      Distributes(r, z, b, odd(m - 1));
      AddAssociates(r, r.add(a, r.mul(z, b)), even(m - 1), r.mul(z, odd(m - 1)));
      AddExchanges(r, a, r.mul(z, b), even(m - 1), r.mul(z, odd(m - 1)));
    }
  }

  // ---------- building the factors ----------

  ghost predicate Empty<C>(r: Ring<C>, center: seq<C>, left: seq<C>, right: seq<C>, s: nat) {
    s < |center| == |left| == |right| && center[s] == r.zero && left[s] == r.zero && right[s] == r.zero
  }

  lemma NoBlocks(size: nat)
    ensures 0 * size == 0
  {
  }

  lemma BlockBounds(b: nat, count: nat, jump: nat)
    requires b < count && jump >= 1
    ensures b * (2 * jump) >= 0 && Aligned(b * (2 * jump), 2 * jump)
    ensures (b + 1) * (2 * jump) == b * (2 * jump) + 2 * jump <= count * (2 * jump)
  {
    DivModUnique(b * (2 * jump), b, 0, 2 * jump);
    TwiddleFactors.NonNegative(b, 2 * jump);
    TimesMonotone(b + 1, count, 2 * jump);
    NextMultiple(b, 2 * jump);
  }

  lemma NextMultiple(b: int, m: int)
    ensures (b + 1) * m == b * m + m
  {
  }

  /** The exponents of a level: powers of five, masked with eight times the reach. */
  method LevelExponents(jumpSize: nat, jumpCount: nat) returns (phiIndex: seq<nat>)
    requires jumpSize >= 1
    ensures |phiIndex| == jumpSize && forall t: nat :: t < jumpSize ==> phiIndex[t] == LevelExponent(t, jumpSize, jumpCount)
  {
    phiIndex := [];
    var powerOfFive: nat := 1;
    FirstPower(jumpSize);
    for slotIndex := 0 to jumpSize
      invariant |phiIndex| == slotIndex && powerOfFive == Pow(5, slotIndex) % (8 * jumpSize)
      invariant forall t: nat :: t < slotIndex ==> phiIndex[t] == LevelExponent(t, jumpSize, jumpCount)
    {
      phiIndex := phiIndex + [powerOfFive * jumpCount];
      NextPower(slotIndex, 8 * jumpSize);
      powerOfFive := powerOfFive * 5;
      powerOfFive := powerOfFive % (8 * jumpSize);
    }
  }

  lemma FirstPower(jumpSize: nat)
    requires jumpSize >= 1
    ensures Pow(5, 0) % (8 * jumpSize) == 1
  {
    DivModUnique(1, 0, 1, 8 * jumpSize);
  }

  lemma NextPower(k: nat, m: nat)
    requires m > 0
    ensures ((Pow(5, k) % m) * 5) % m == Pow(5, k + 1) % m
  {
    Residue(Pow(5, k), m);
    MulRight(Pow(5, k) % m, Pow(5, k), 5, m);
    assert Pow(5, k + 1) == 5 * Pow(5, k);
  }

  /** The factors of one level. */
  method SplitFactor<C(!new)>(r: Ring<C>, phi: seq<C>, phiIndex: seq<nat>, jumpSize: nat, jumpCount: nat, slotCount: nat, ghost values: seq<C>)
    returns (f: Factor<C>)
    requires jumpSize >= 1 && slotCount == jumpCount * (2 * jumpSize) && |phiIndex| == |values| == jumpSize
    requires forall t :: 0 <= t < jumpSize ==> phiIndex[t] < |phi| && phi[phiIndex[t]] == values[t]
    ensures Splits(r, f, jumpSize, values, slotCount)
  {
    var center := seq(slotCount, i => r.zero);
    var left := seq(slotCount, i => r.zero);
    var right := seq(slotCount, i => r.zero);
    NoBlocks(2 * jumpSize);
    for jumpIndex := 0 to jumpCount
      invariant |center| == |left| == |right| == slotCount && jumpIndex * (2 * jumpSize) >= 0
      invariant forall s: nat :: s < slotCount ==>
        if s < jumpIndex * (2 * jumpSize) then SplitEntry(r, Factor(center, left, right), jumpSize, values, s) else Empty(r, center, left, right, s)
    {
      var start: nat := jumpIndex * (2 * jumpSize);
      BlockBounds(jumpIndex, jumpCount, jumpSize);
      var index: nat := start;
      for slotIndex := 0 to jumpSize
        invariant |center| == |left| == |right| == slotCount && index == start + slotIndex
        invariant forall s: nat :: s < slotCount ==>
          if s < start || start <= s < index || start + jumpSize <= s < index + jumpSize
          then SplitEntry(r, Factor(center, left, right), jumpSize, values, s) else Empty(r, center, left, right, s)
      {
        var value := phi[phiIndex[slotIndex]];
        ghost var before := Factor(center, left, right);
        center := center[index := r.one];
        center := center[jumpSize + index := r.neg(value)];
        left := left[index := r.one];
        right := right[jumpSize + index := value];
        SplitPlaced(r, before, Factor(center, left, right), jumpSize, values, start, slotIndex);
        index := index + 1;
      }
    }
    f := Factor(center, left, right);
  }

  lemma SplitPlaced<C(!new)>(r: Ring<C>, before: Factor<C>, f: Factor<C>, jump: nat, values: seq<C>, start: nat, t: nat)
    requires t < jump == |values| && Aligned(start, 2 * jump) && Sized(before, |before.center|) && start + 2 * jump <= |before.center|
    requires Empty(r, before.center, before.left, before.right, start + t) && Empty(r, before.center, before.left, before.right, start + jump + t)
    requires f.center == before.center[start + t := r.one][jump + (start + t) := r.neg(values[t])]
    requires f.left == before.left[start + t := r.one] && f.right == before.right[jump + (start + t) := values[t]]
    ensures SplitEntry(r, f, jump, values, start + t) && SplitEntry(r, f, jump, values, start + jump + t)
    ensures forall s: nat :: s < |before.center| && s != start + t && s != start + jump + t ==>
      (SplitEntry(r, before, jump, values, s) ==> SplitEntry(r, f, jump, values, s)) &&
      (Empty(r, before.center, before.left, before.right, s) ==> Empty(r, f.center, f.left, f.right, s))
  {
    PlaceInBlock(start, jump, t);
    PlaceInBlock(start, jump, jump + t);
    hide Aligned;
  }

  /** The factors of one level. */
  method JoinFactor<C(!new)>(r: Ring<C>, phi: seq<C>, phiIndex: seq<nat>, jumpSize: nat, jumpCount: nat, slotCount: nat, ghost values: seq<C>)
    returns (f: Factor<C>)
    requires jumpSize >= 1 && slotCount == jumpCount * (2 * jumpSize) && |phiIndex| == |values| == jumpSize
    requires forall t :: 0 <= t < jumpSize ==> phiIndex[t] < |phi| && phi[phiIndex[t]] == values[t]
    ensures Joins(r, f, jumpSize, values, slotCount)
  {
    var center := seq(slotCount, i => r.zero);
    var left := seq(slotCount, i => r.zero);
    var right := seq(slotCount, i => r.zero);
    NoBlocks(2 * jumpSize);
    for jumpIndex := 0 to jumpCount
      invariant |center| == |left| == |right| == slotCount && jumpIndex * (2 * jumpSize) >= 0
      invariant forall s: nat :: s < slotCount ==>
        if s < jumpIndex * (2 * jumpSize) then JoinEntry(r, Factor(center, left, right), jumpSize, values, s) else Empty(r, center, left, right, s)
    {
      var start: nat := jumpIndex * (2 * jumpSize);
      BlockBounds(jumpIndex, jumpCount, jumpSize);
      var index: nat := start;
      for slotIndex := 0 to jumpSize
        invariant |center| == |left| == |right| == slotCount && index == start + slotIndex
        invariant forall s: nat :: s < slotCount ==>
          if s < start || start <= s < index || start + jumpSize <= s < index + jumpSize
          then JoinEntry(r, Factor(center, left, right), jumpSize, values, s) else Empty(r, center, left, right, s)
      {
        var value := phi[phiIndex[slotIndex]];
        ghost var before := Factor(center, left, right);
        center := center[index := r.one];
        center := center[jumpSize + index := r.neg(value)];
        left := left[index := value];
        right := right[jumpSize + index := r.one];
        JoinPlaced(r, before, Factor(center, left, right), jumpSize, values, start, slotIndex);
        index := index + 1;
      }
    }
    f := Factor(center, left, right);
  }

  lemma JoinPlaced<C(!new)>(r: Ring<C>, before: Factor<C>, f: Factor<C>, jump: nat, values: seq<C>, start: nat, t: nat)
    requires t < jump == |values| && Aligned(start, 2 * jump) && Sized(before, |before.center|) && start + 2 * jump <= |before.center|
    requires Empty(r, before.center, before.left, before.right, start + t) && Empty(r, before.center, before.left, before.right, start + jump + t)
    requires f.center == before.center[start + t := r.one][jump + (start + t) := r.neg(values[t])]
    requires f.left == before.left[start + t := values[t]] && f.right == before.right[jump + (start + t) := r.one]
    ensures JoinEntry(r, f, jump, values, start + t) && JoinEntry(r, f, jump, values, start + jump + t)
    ensures forall s: nat :: s < |before.center| && s != start + t && s != start + jump + t ==>
      (JoinEntry(r, before, jump, values, s) ==> JoinEntry(r, f, jump, values, s)) &&
      (Empty(r, before.center, before.left, before.right, s) ==> Empty(r, f.center, f.left, f.right, s))
  {
    PlaceInBlock(start, jump, t);
    PlaceInBlock(start, jump, jump + t);
    hide Aligned;
  }

  lemma ExponentBound(t: nat, jump: nat, count: nat, size: nat)
    requires jump >= 1 && count >= 1 && count * (8 * jump) == size
    ensures LevelExponent(t, jump, count) < size
  {
    var e := Pow(5, t) % (8 * jump);
    TimesMonotone(e + 1, 8 * jump, count);
    NextMultiple(e, count);
    TimesCommute(8 * jump, count);
  }

  method SplitLevel<C(!new)>(r: Ring<C>, phi: seq<C>, jumpSize: nat, jumpCount: nat, slotCount: nat, ghost root: C) returns (f: Factor<C>)
    requires jumpSize >= 1 && slotCount == jumpCount * (2 * jumpSize) && slotCount >= 1 && |phi| == 4 * slotCount
    requires forall i: nat :: i < |phi| ==> phi[i] == Power(r, root, i)
    ensures Splits(r, f, jumpSize, LevelValues(r, root, jumpSize, jumpCount), slotCount)
  {
    hide Splits, Power, LevelValues, LevelExponent;
    var phiIndex := LevelExponents(jumpSize, jumpCount);
    ghost var values := LevelValues(r, root, jumpSize, jumpCount);
    TableSize(jumpCount, jumpSize, slotCount);
    forall t: nat | t < jumpSize ensures phiIndex[t] < |phi| && phi[phiIndex[t]] == values[t] {
      ExponentBound(t, jumpSize, jumpCount, 4 * slotCount);
      LevelValueAt(r, root, jumpSize, jumpCount, t);
    }
    f := SplitFactor(r, phi, phiIndex, jumpSize, jumpCount, slotCount, values);
  }

  ghost predicate SplitLevels<C>(r: Ring<C>, factors: seq<Factor<C>>, values: seq<seq<C>>, slots: nat) {
    |factors| <= |values| && forall i :: 0 <= i < |factors| ==> Splits(r, factors[i], Pow2(|values| - i - 1), values[i], slots)
  }

  lemma NoSplits<C(!new)>(r: Ring<C>, values: seq<seq<C>>, slots: nat)
    ensures SplitLevels(r, [], values, slots)
  {
  }

  lemma NextSplits<C(!new)>(r: Ring<C>, factors: seq<Factor<C>>, f: Factor<C>, values: seq<seq<C>>, slots: nat)
    requires SplitLevels(r, factors, values, slots) && |factors| < |values|
    requires Splits(r, f, Pow2(|values| - |factors| - 1), values[|factors|], slots)
    ensures SplitLevels(r, factors + [f], values, slots)
  {
    hide Splits, Pow2;
  }

  lemma SplitsMake<C(!new)>(r: Ring<C>, factors: seq<Factor<C>>, values: seq<seq<C>>)
    requires SplitLevels(r, factors, values, Pow2(|values|)) && |factors| == |values|
    ensures SplitNetwork(r, Network(CoeffToSlot, |values|, factors), values)
  {
    hide Splits, Pow2;
    forall l | 0 <= l < |values| ensures Sized(factors[l], Pow2(|values|)) {
      SplitSize(r, factors[l], Pow2(|values| - l - 1), values[l], Pow2(|values|));
    }
  }

  lemma SplitValuesAt<C>(r: Ring<C>, root: C, log: nat, l: nat)
    requires l < log
    ensures SplitValues(r, root, log)[l] == LevelValues(r, root, Pow2(log - l - 1), Pow2(l))
  {
    hide LevelValues, Pow2;
  }

  /** get_twiddle_factor, from a table of the 4n powers of a root. */
  method GetTwiddleFactor<C(!new)>(r: Ring<C>, phi: seq<C>, slotCount: nat, logSlotCount: nat, ghost root: C) returns (net: Network<C>)
    requires slotCount == Pow2(logSlotCount) && |phi| == 4 * slotCount && forall i: nat :: i < |phi| ==> phi[i] == Power(r, root, i)
    ensures net.log == logSlotCount && SplitNetwork(r, net, SplitValues(r, root, logSlotCount))
  {
    hide *;
    var factors: seq<Factor<C>> := [];
    var jumpSize := slotCount;
    ghost var values := SplitValues(r, root, logSlotCount);
    NoSplits(r, values, slotCount);
    for l := 0 to logSlotCount
      invariant |factors| == l && jumpSize == Pow2(logSlotCount - l) && SplitLevels(r, factors, values, slotCount)
    {
      var jumpCount := Pow2(l);
      Pow2Double(logSlotCount - l - 1);
      jumpSize := jumpSize / 2;
      Blocks(logSlotCount, l);
      SplitValuesAt(r, root, logSlotCount, l);
      var f := SplitLevel(r, phi, jumpSize, jumpCount, slotCount, root);
      NextSplits(r, factors, f, values, slotCount);
      factors := factors + [f];
    }
    SplitsMake(r, factors, values);
    net := Network(CoeffToSlot, logSlotCount, factors);
  }

  lemma TableSize(count: nat, jump: nat, slots: nat)
    requires slots == count * (2 * jump)
    ensures count * (8 * jump) == 4 * slots
  {
  }

  method JoinLevel<C(!new)>(r: Ring<C>, phi: seq<C>, jumpSize: nat, jumpCount: nat, slotCount: nat, ghost root: C) returns (f: Factor<C>)
    requires jumpSize >= 1 && slotCount == jumpCount * (2 * jumpSize) && slotCount >= 1 && |phi| == 4 * slotCount
    requires forall i: nat :: i < |phi| ==> phi[i] == Power(r, root, i)
    ensures Joins(r, f, jumpSize, LevelValues(r, root, jumpSize, jumpCount), slotCount)
  {
    hide Joins, Power, LevelValues, LevelExponent;
    var phiIndex := LevelExponents(jumpSize, jumpCount);
    ghost var values := LevelValues(r, root, jumpSize, jumpCount);
    TableSize(jumpCount, jumpSize, slotCount);
    forall t: nat | t < jumpSize ensures phiIndex[t] < |phi| && phi[phiIndex[t]] == values[t] {
      ExponentBound(t, jumpSize, jumpCount, 4 * slotCount);
      LevelValueAt(r, root, jumpSize, jumpCount, t);
    }
    f := JoinFactor(r, phi, phiIndex, jumpSize, jumpCount, slotCount, values);
  }

  ghost predicate JoinLevels<C>(r: Ring<C>, factors: seq<Factor<C>>, values: seq<seq<C>>, slots: nat) {
    |factors| <= |values| && forall i :: 0 <= i < |factors| ==> Joins(r, factors[i], Pow2(i), values[i], slots)
  }

  lemma NoJoins<C(!new)>(r: Ring<C>, values: seq<seq<C>>, slots: nat)
    ensures JoinLevels(r, [], values, slots)
  {
  }

  lemma NextJoins<C(!new)>(r: Ring<C>, factors: seq<Factor<C>>, f: Factor<C>, values: seq<seq<C>>, slots: nat)
    requires JoinLevels(r, factors, values, slots) && |factors| < |values|
    requires Joins(r, f, Pow2(|factors|), values[|factors|], slots)
    ensures JoinLevels(r, factors + [f], values, slots)
  {
    hide Joins, Pow2;
  }

  lemma JoinsMake<C(!new)>(r: Ring<C>, factors: seq<Factor<C>>, values: seq<seq<C>>)
    requires JoinLevels(r, factors, values, Pow2(|values|)) && |factors| == |values|
    ensures JoinNetwork(r, Network(SlotToCoeff, |values|, factors), values)
  {
    hide Joins, Pow2;
    forall l | 0 <= l < |values| ensures Sized(factors[l], Pow2(|values|)) {
      JoinSize(r, factors[l], Pow2(l), values[l], Pow2(|values|));
    }
  }

  /** get_inverse_twiddle_factor. The source counts the levels down and doubles the reach. */
  method GetInverseTwiddleFactor<C(!new)>(r: Ring<C>, inversePhi: seq<C>, slotCount: nat, logSlotCount: nat, ghost root: C) returns (net: Network<C>)
    requires slotCount == Pow2(logSlotCount) && |inversePhi| == 4 * slotCount
    requires forall i: nat :: i < |inversePhi| ==> inversePhi[i] == Power(r, root, i)
    ensures net.log == logSlotCount && JoinNetwork(r, net, JoinValues(r, root, logSlotCount))
  {
    hide *;
    var factors: seq<Factor<C>> := [];
    var jumpSize := 1;
    ghost var values := JoinValues(r, root, logSlotCount);
    SizeOfOne();
    NoJoins(r, values, slotCount);
    var logSlotIndex := logSlotCount;
    while logSlotIndex > 0
      invariant 0 <= logSlotIndex <= logSlotCount && |factors| == logSlotCount - logSlotIndex && jumpSize == Pow2(|factors|)
      invariant JoinLevels(r, factors, values, slotCount)
    {
      logSlotIndex := logSlotIndex - 1;
      var jumpCount := Pow2(logSlotIndex);
      Blocks(logSlotCount, |factors|);
      Pow2Double(|factors|);
      JoinValuesAt(r, root, logSlotCount, |factors|);
      var f := JoinLevel(r, inversePhi, jumpSize, jumpCount, slotCount, root);
      NextJoins(r, factors, f, values, slotCount);
      factors := factors + [f];
      jumpSize := jumpSize * 2;
    }
    JoinsMake(r, factors, values);
    net := Network(SlotToCoeff, logSlotCount, factors);
  }

  lemma SizeOfOne()
    ensures Pow2(0) == 1
  {
  }

  // ---------- the transforms ----------

  /** k ones. */
  function Whole<C>(r: Ring<C>, k: nat): C {
    if k == 0 then r.zero else r.add(Whole(r, k - 1), r.one)
  }

  lemma {:induction false} WholeAdd<C(!new)>(r: Ring<C>, a: nat, b: nat)
    requires Laws(r)
    ensures Whole(r, a + b) == r.add(Whole(r, a), Whole(r, b))
  {
    hide Laws;
    if b == 0 {
      AddZero(r, Whole(r, a));
    } else {
      WholeAdd(r, a, b - 1);
      AddAssociates(r, Whole(r, a), Whole(r, b - 1), r.one);
    }
  }

  lemma {:induction false} DoubledIs<C(!new)>(r: Ring<C>, v: seq<C>, m: nat, s: nat)
    requires Laws(r) && s < |v|
    ensures Doubled(r, v, m)[s] == r.mul(Whole(r, Pow2(m)), v[s])
  {
    hide Laws;
    if m == 0 {
      AddZero(r, r.one);
      assert Whole(r, 1) == r.add(Whole(r, 0), r.one) == r.add(r.zero, r.one);
      AddCommutes(r, r.zero, r.one);
      MulOne(r, v[s]);
    } else {
      DoubledIs(r, v, m - 1, s);
      hide Twice, Whole;
      var a := Whole(r, Pow2(m - 1));
      WholeAdd(r, Pow2(m - 1), Pow2(m - 1));
      TwiceAt(r, Doubled(r, v, m - 1), s);
      Distributes(r, v[s], a, a);
    }
  }

  /** slot_to_coeff: slot j of the result is the value at zeta^(5^j) of the polynomial that has the slots as
      its coefficients in bit-reversed order. */
  lemma SlotToCoeffEvaluates<C(!new)>(r: Ring<C>, net: Network<C>, zeta: C, v: seq<C>, j: nat)
    requires Laws(r) && SlotRoot(r, zeta, Pow2(net.log)) && JoinNetwork(r, net, JoinValues(r, zeta, net.log))
    requires |v| == Pow2(net.log) && j < |v|
    ensures IsNetwork(net) && Pow(5, j) > 0
    ensures Chain(r, net, 0, net.log, v)[j] == Sum(r, ValueTerms(r, v, 0, net.log, Power(r, zeta, Pow(5, j))), 0, |v|)
  {
    hide *;
    FivePositive(j);
    WholeBlock(net.log);
    JoinsEvaluate(r, net, zeta, net.log, v, 0, j);
    EvaluatesMeans(r, net, zeta, net.log, v, 0, j);
    BlockRootIs(r, zeta, net.log, net.log, j);
    RootExponentIs(net.log, net.log, j);
    ValueIsSum(r, v, 0, net.log, Power(r, zeta, Pow(5, j)));
  }

  lemma WholeBlock(log: nat)
    ensures Aligned(0, Pow2(log)) && Pow2(log - log) == 1
  {
  }

  /** coeff_to_slot takes these values back: with the two tables of opposite roots, it returns the coefficients
      times the number of slots. */
  lemma CoeffToSlotInverts<C(!new)>(r: Ring<C>, split: Network<C>, join: Network<C>, zeta: C, inverse: C, v: seq<C>, s: nat)
    requires Laws(r) && r.mul(inverse, zeta) == r.one && split.log == join.log && |v| == Pow2(split.log) && s < |v|
    requires SplitNetwork(r, split, SplitValues(r, inverse, split.log)) && JoinNetwork(r, join, JoinValues(r, zeta, join.log))
    ensures IsNetwork(split) && IsNetwork(join)
    ensures Chain(r, split, 0, split.log, Chain(r, join, 0, join.log, v))[s] == r.mul(Whole(r, |v|), v[s])
    ensures Chain(r, join, 0, join.log, Chain(r, split, 0, split.log, v))[s] == r.mul(Whole(r, |v|), v[s])
  {
    hide *;
    var p, q := SplitValues(r, inverse, split.log), JoinValues(r, zeta, split.log);
    ValuesAreOpposite(r, zeta, inverse, split.log);
    NetworksOf(r, split, join, p, q);
    SplitsAfterJoins(r, split, join, p, q, split.log, v);
    JoinsAfterSplits(r, split, join, p, q, split.log, v);
    ChainNone(r, split, v);
    ChainNone(r, join, v);
    DoubledIs(r, v, split.log, s);
  }
}
