/** The baby-step/giant-step product of a plain matrix and a ciphertext: the diagonals of
    src/processor/parallel.h combined by src/ckks/engine_multiply_matrix.cpp, with the slots of a
    ciphertext as a vector over any commutative ring. */
module MatrixProduct {
  import opened Congruence
  import opened Rings

  // ---------- vectors of slots ----------

  function Mod(a: int, n: int): (m: int)
    requires n > 0
    ensures 0 <= m < n
  {
    a % n
  }

  lemma ModSmall(a: int, n: int)
    requires 0 <= a < n
    ensures Mod(a, n) == a
  {
  }

  lemma ModTurn(a: int, b: int, n: int)
    requires n > 0 && Cong(a, b, n)
    ensures Mod(a, n) == Mod(b, n)
  {
  }

  lemma ModShift(a: int, b: int, n: int)
    requires n > 0
    ensures Mod(Mod(a, n) + b, n) == Mod(a + b, n)
  {
    Residue(a, n);
    hide Cong;
    Refl(b, n);
    Add(Mod(a, n), a, b, b, n);
    ModTurn(Mod(a, n) + b, a + b, n);
  }

  /** Rotation moves every slot up by delta. */
  function Rotate<C>(v: seq<C>, delta: int): (w: seq<C>)
    ensures |w| == |v|
  {
    seq(|v|, k requires 0 <= k < |v| => v[Mod(k - delta, |v|)])
  }

  function AddSlots<C>(r: Ring<C>, v: seq<C>, w: seq<C>): (s: seq<C>)
    requires |v| == |w|
    ensures |s| == |v|
  {
    seq(|v|, k requires 0 <= k < |v| => r.add(v[k], w[k]))
  }

  function MultiplySlots<C>(r: Ring<C>, v: seq<C>, w: seq<C>): (s: seq<C>)
    requires |v| == |w|
    ensures |s| == |v|
  {
    seq(|v|, k requires 0 <= k < |v| => r.mul(v[k], w[k]))
  }

  /** The ordinary product: entry k is the sum over all columns of the matrix, stored by rows. */
  ghost function Entry<C>(r: Ring<C>, matrix: seq<C>, v: seq<C>, k: nat): C
    requires |matrix| == |v| * |v| && k < |v|
  {
    Sum(r, c => Term(r, matrix, v, k, c), 0, |v|)
  }

  ghost function Term<C>(r: Ring<C>, matrix: seq<C>, v: seq<C>, k: nat, c: int): C
    requires |matrix| == |v| * |v| && k < |v|
  {
    if 0 <= c < |v| then
      IndexBound(k, c, |v|);
      r.mul(v[c], matrix[k * |v| + c])
    else r.zero
  }

  lemma IndexBound(k: nat, c: int, n: int)
    requires k < n && 0 <= c < n
    ensures 0 <= k * n + c < n * n
  {
    AtLeast(n - k, n);
    assert (n - k) * n == n * n - k * n && k * n >= 0;
  }

  // ---------- the order of the columns ----------

  function Down(start: int, l: int, n: int): (c: int)
    requires n > 0
    ensures 0 <= c < n
  {
    Mod(start - l, n)
  }

  lemma DownIs(start: int, l: int, n: int)
    requires 0 <= l < n
    ensures Down(start, l, n) == if l <= Mod(start, n) then Mod(start, n) - l else Mod(start, n) - l + n
  {
    var a := Mod(start, n);
    hide *;
    ModShift(start, -l, n);
    DownMod(start, l, n);
    if l <= a {
      ModSmall(a - l, n);
    } else {
      FromQuotient(a - l, a - l + n, n, -1);
      ModTurn(a - l, a - l + n, n);
      ModSmall(a - l + n, n);
    }
  }

  lemma DownMod(start: int, l: int, n: int)
    requires n > 0
    ensures Down(start, l, n) == Mod(start + -l, n)
  {
  }

  /** Walking down from any start, modulo n, visits every column once. */
  lemma WalkDown<C(!new)>(r: Ring<C>, f: int -> C, g: int -> C, start: int, n: nat)
    requires Laws(r) && n > 0 && forall l :: 0 <= l < n ==> g(l) == f(Down(start, l, n))
    ensures Sum(r, g, 0, n) == Sum(r, f, 0, n)
  {
    hide *;
    var a := Mod(start, n);
    forall l | 0 <= l < n ensures g(l) == f(if l <= a then a - l else a + n - l) {
      DownIs(start, l, n);
    }
    SumSplit(r, g, 0, a + 1, n);
    SumReverse(r, g, f, 0, a + 1, a);
    SumReverse(r, g, f, a + 1, n, a + n);
    SumSplit(r, f, 0, a + 1, n);
    AddCommutes(r, Sum(r, f, 0, a + 1), Sum(r, f, a + 1, n));
  }

  // ---------- the diagonals ----------

  /** outer_loop_index - outer_loop_count / 2, times the inner loop count. */
  function Offset(outer: nat, inner: nat, o: int): int {
    (o - outer / 2) * inner
  }

  /** Where the entry of diagonal (o, i) at slot d comes from. */
  function Source(outer: nat, inner: nat, o: int, i: int, d: int, n: int): (q: int)
    requires n > 0
    ensures 0 <= q < n * n
  {
    IndexBound(Mod(d + Offset(outer, inner, o), n), Mod(d - i, n), n);
    Mod(d + Offset(outer, inner, o), n) * n + Mod(d - i, n)
  }

  /** The flat layout: diagonal o * inner + i, then slot. */
  ghost predicate IsDiagonal<C>(y: seq<C>, x: seq<C>, outer: nat, inner: nat, n: nat, q: nat)
    requires n > 0 && inner > 0 && |x| == n * n && q < |y|
  {
    y[q] == x[Source(outer, inner, q / n / inner, q / n % inner, q % n, n)]
  }

  ghost predicate AreDiagonals<C>(y: seq<C>, x: seq<C>, outer: nat, inner: nat) {
    && outer > 0 && inner > 0 && outer * inner > 0 && |x| == |y| == (outer * inner) * (outer * inner)
    && forall q: nat :: q < |y| ==> IsDiagonal(y, x, outer, inner, outer * inner, q)
  }

  /** Adding 2n before masking does not change the residue. */
  lemma Masked(a: int, n: int)
    requires n > 0
    ensures Mod(a + 2 * n, n) == Mod(a, n)
  {
    FromQuotient(a + 2 * n, a, n, 2);
  }

  lemma SourceIs(outer: nat, inner: nat, o: int, i: int, d: int, n: int)
    requires n > 0
    ensures var delta, diagonal := Mod(-Offset(outer, inner, o) + 2 * n, n), Mod(Offset(outer, inner, o) + i + 2 * n, n);
      Source(outer, inner, o, i, d, n) == Mod(d - delta + 2 * n, n) * n + Mod(d - delta - diagonal + 2 * n, n)
  {
    var offset := Offset(outer, inner, o);
    hide Mod;
    Masked(-offset, n);
    Masked(offset + i, n);
    var delta, diagonal := Mod(-offset, n), Mod(offset + i, n);
    Masked(d - delta, n);
    Masked(d - delta - diagonal, n);
    SubMod(d, -offset, n);
    SubMod(d - delta, offset + i, n);
    SubMod(d - (offset + i), -offset, n);
  }

  lemma SubMod(a: int, b: int, n: int)
    requires n > 0
    ensures Mod(a - Mod(b, n), n) == Mod(a - b, n)
  {
    Residue(b, n);
    hide Cong;
    Refl(a, n);
    Sub(a, a, Mod(b, n), b, n);
    ModTurn(a - Mod(b, n), a - b, n);
  }

  lemma FlatIndex(l: nat, d: nat, n: nat)
    requires d < n
    ensures l * n + d >= 0 && (l * n + d) / n == l && (l * n + d) % n == d
    ensures l < n ==> l * n + d < n * n
    ensures (l + 1) * n == l * n + n
  {
    DivModUnique(l * n + d, l, d, n);
    if l < n { IndexBound(l, d, n); }
  }

  lemma LoopIndex(o: nat, i: nat, outer: nat, inner: nat)
    requires o < outer && i < inner
    ensures o * inner + i >= 0 && (o * inner + i) / inner == o && (o * inner + i) % inner == i && o * inner + i < outer * inner
    ensures (o + 1) * inner == o * inner + inner <= outer * inner
  {
    DivModUnique(o * inner + i, o, i, inner);
    AtLeast(outer - o, inner);
    assert (outer - o) * inner == outer * inner - o * inner;
  }

  /** The first `count` entries of the flat layout are in place. */
  ghost predicate Filled<C>(y: seq<C>, x: seq<C>, outer: nat, inner: nat, n: nat, count: int) {
    && n > 0 && inner > 0 && |x| == |y| == n * n && count <= |y|
    && forall q: nat :: q < count ==> IsDiagonal(y, x, outer, inner, n, q)
  }

  lemma FillOne<C>(y: seq<C>, y': seq<C>, x: seq<C>, outer: nat, inner: nat, n: nat, o: nat, i: nat, d: nat, l: nat)
    requires o < outer && i < inner && n == outer * inner && d < n && l == o * inner + i
    requires l * n + d >= 0 && Filled(y, x, outer, inner, n, l * n + d)
    requires l * n + d < |y| && y' == y[l * n + d := x[Source(outer, inner, o, i, d, n)]]
    ensures Filled(y', x, outer, inner, n, l * n + d + 1)
  {
    hide Mod, Source;
    FlatIndex(l, d, n);
    LoopIndex(o, i, outer, inner);
    var p: nat := l * n + d;
    assert p / n == l && p % n == d && l / inner == o && l % inner == i;
    hide *;
    FillAt(y, y', x, outer, inner, n, o, i, d, p);
  }

  lemma FillAt<C>(y: seq<C>, y': seq<C>, x: seq<C>, outer: nat, inner: nat, n: nat, o: nat, i: nat, d: nat, p: nat)
    requires Filled(y, x, outer, inner, n, p) && p < |y|
    requires p / n / inner == o && p / n % inner == i && p % n == d
    requires y' == y[p := x[Source(outer, inner, o, i, d, n)]]
    ensures Filled(y', x, outer, inner, n, p + 1)
  {
    hide Source;
    forall q: nat | q < p + 1 ensures IsDiagonal(y', x, outer, inner, n, q) {
      if q < p { assert IsDiagonal(y, x, outer, inner, n, q); }
    }
  }

  /** ExtractDiagonalsTask::process. The slot count is a power of two, so masking is the residue. */
  method ExtractDiagonals<C>(x: array<C>, y: array<C>, outer: nat, inner: nat)
    requires outer > 0 && inner > 0 && x != y
    requires outer * inner > 0 && x.Length == y.Length == (outer * inner) * (outer * inner)
    modifies y
    ensures AreDiagonals(y[..], x[..], outer, inner)
  {
    hide Mod, Source, Filled, IsDiagonal, Offset;
    var slotCount := outer * inner;
    ghost var matrix := x[..];
    FilledStart(y[..], matrix, outer, inner, slotCount);
    for o := 0 to outer
      invariant Filled(y[..], matrix, outer, inner, slotCount, (o * inner) * slotCount)
    {
      LoopIndex(o, 0, outer, inner);
      var delta := Mod(-Offset(outer, inner, o) + 2 * slotCount, slotCount);
      for i := 0 to inner
        invariant Filled(y[..], matrix, outer, inner, slotCount, (o * inner + i) * slotCount)
      {
        var diagonalIndex := Mod(Offset(outer, inner, o) + i + 2 * slotCount, slotCount);
        LoopIndex(o, i, outer, inner);
        ExtractDiagonal(x, y, outer, inner, o, i, delta, diagonalIndex, o * inner + i, slotCount);
      }
    }
    FilledEnd(y[..], matrix, outer, inner, slotCount);
  }

  lemma FilledStart<C>(y: seq<C>, x: seq<C>, outer: nat, inner: nat, n: nat)
    requires n > 0 && inner > 0 && |x| == |y| == n * n
    ensures Filled(y, x, outer, inner, n, (0 * inner) * n)
  {
    assert (0 * inner) * n == 0;
  }

  lemma FilledEnd<C>(y: seq<C>, x: seq<C>, outer: nat, inner: nat, n: nat)
    requires outer > 0 && n == outer * inner && Filled(y, x, outer, inner, n, n * n)
    ensures AreDiagonals(y, x, outer, inner)
  {
    hide IsDiagonal;
  }

  /** The innermost loop: one diagonal. */
  method ExtractDiagonal<C>(x: array<C>, y: array<C>, outer: nat, inner: nat, o: nat, i: nat, delta: int, diagonalIndex: int,
                            loopIndex: nat, slotCount: nat)
    requires o < outer && i < inner && slotCount == outer * inner && loopIndex == o * inner + i < slotCount && x != y
    requires x.Length == y.Length == slotCount * slotCount
    requires delta == Mod(-Offset(outer, inner, o) + 2 * slotCount, slotCount)
    requires diagonalIndex == Mod(Offset(outer, inner, o) + i + 2 * slotCount, slotCount)
    requires Filled(y[..], x[..], outer, inner, slotCount, loopIndex * slotCount)
    modifies y
    ensures Filled(y[..], x[..], outer, inner, slotCount, (loopIndex + 1) * slotCount)
  {
    hide Mod, Source, Filled, IsDiagonal, Offset;
    ghost var matrix := x[..];
    FlatIndex(loopIndex, 0, slotCount);
    for d := 0 to slotCount
      invariant x[..] == matrix
      invariant Filled(y[..], matrix, outer, inner, slotCount, loopIndex * slotCount + d)
    {
      FlatIndex(loopIndex, d, slotCount);
      SourceIs(outer, inner, o, i, d, slotCount);
      var row := Mod(d - delta + 2 * slotCount, slotCount);
      var column := Mod(d - delta - diagonalIndex + 2 * slotCount, slotCount);
      ghost var before := y[..];
      y[loopIndex * slotCount + d] := x[row * slotCount + column];
      FillOne(before, y[..], matrix, outer, inner, slotCount, o, i, d, loopIndex);
    }
  }

  // ---------- the product ----------

  /** The l-th term of slot k, in the order of the two loops. */
  ghost function LoopTerm<C>(r: Ring<C>, x: seq<C>, v: seq<C>, half: int, k: nat, l: int): C
    requires |x| == |v| * |v| && k < |v|
  {
    Term(r, x, v, k, Down(k + half, l, |v|))
  }

  ghost function LoopSum<C>(r: Ring<C>, x: seq<C>, v: seq<C>, half: int, k: nat, low: int, high: int): C
    requires |x| == |v| * |v| && k < |v|
  {
    Sum(r, l => LoopTerm(r, x, v, half, k, l), low, high)
  }

  lemma LoopSumStep<C(!new)>(r: Ring<C>, x: seq<C>, v: seq<C>, half: int, k: nat, low: int, high: int)
    requires Laws(r) && |x| == |v| * |v| && k < |v|
    ensures LoopSum(r, x, v, half, k, low, low) == r.zero
    ensures low <= high ==>
      LoopSum(r, x, v, half, k, low, high + 1) == r.add(LoopSum(r, x, v, half, k, low, high), LoopTerm(r, x, v, half, k, high))
  {
  }

  lemma LoopSumSplit<C(!new)>(r: Ring<C>, x: seq<C>, v: seq<C>, half: int, k: nat, middle: int, high: int)
    requires Laws(r) && |x| == |v| * |v| && k < |v| && 0 <= middle <= high
    ensures LoopSum(r, x, v, half, k, 0, high) == r.add(LoopSum(r, x, v, half, k, 0, middle), LoopSum(r, x, v, half, k, middle, high))
  {
    hide Laws, LoopTerm;
    SumSplit(r, l => LoopTerm(r, x, v, half, k, l), 0, middle, high);
  }

  /** All terms in loop order are all terms in column order. */
  lemma LoopSumIsEntry<C(!new)>(r: Ring<C>, x: seq<C>, v: seq<C>, half: int, k: nat)
    requires Laws(r) && |x| == |v| * |v| && k < |v|
    ensures LoopSum(r, x, v, half, k, 0, |v|) == Entry(r, x, v, k)
  {
    hide Laws, Term;
    WalkDown(r, c => Term(r, x, v, k, c), l => LoopTerm(r, x, v, half, k, l), k + half, |v|);
  }

  lemma DiagonalAt<C>(y: seq<C>, x: seq<C>, outer: nat, inner: nat, o: nat, i: nat, d: nat)
    requires AreDiagonals(y, x, outer, inner) && o < outer && i < inner && d < outer * inner
    ensures var n, l := outer * inner, o * inner + i;
      0 <= l < n && 0 <= l * n + d < |y| && l * n + n <= |y| && y[l * n + d] == x[Source(outer, inner, o, i, d, n)]
  {
    hide Source;
    var n, l := outer * inner, o * inner + i;
    LoopIndex(o, i, outer, inner);
    FlatIndex(l, d, n);
    FlatIndex(l, n - 1, n);
    assert IsDiagonal(y, x, outer, inner, n, l * n + d);
  }

  lemma DiagonalSizes<C>(y: seq<C>, x: seq<C>, outer: nat, inner: nat, n: nat)
    requires AreDiagonals(y, x, outer, inner) && n == outer * inner
    ensures |x| == |y| == n * n && outer > 0 && inner > 0
  {
  }

  /** What one multiplication of the inner loop puts in slot d. */
  lemma InnerTerm<C>(r: Ring<C>, x: seq<C>, v: seq<C>, outer: nat, inner: nat, o: nat, i: nat, d: nat)
    requires |v| == outer * inner > 0 && |x| == |v| * |v| && d < |v|
    ensures var k := Mod(d + Offset(outer, inner, o), |v|);
      k < |v| && r.mul(v[Mod(d - i, |v|)], x[Source(outer, inner, o, i, d, |v|)]) ==
      LoopTerm(r, x, v, outer / 2 * inner, k, o * inner + i)
  {
    var n, offset := |v|, Offset(outer, inner, o);
    var k := Mod(d + offset, n);
    hide Mod;
    OffsetIs(outer, inner, o);
    ModShift(d + offset, outer / 2 * inner - (o * inner + i), n);
    DownMod(k + outer / 2 * inner, o * inner + i, n);
  }

  lemma OffsetIs(outer: nat, inner: nat, o: int)
    ensures Offset(outer, inner, o) == o * inner - outer / 2 * inner
  {
    hide *;
    OffsetSplit(o, outer / 2, inner);
    OffsetDef(outer, inner, o);
  }

  lemma OffsetSplit(o: int, h: int, inner: int)
    ensures (o - h) * inner == o * inner - h * inner
  {
  }

  lemma OffsetDef(outer: nat, inner: nat, o: int)
    ensures Offset(outer, inner, o) == (o - outer / 2) * inner
  {
  }

  /** Rotating the inner sum back to its rows. */
  lemma RowSlot(k: nat, offset: int, n: nat)
    requires k < n
    ensures Mod(Mod(k - Mod(offset, n), n) + offset, n) == k
  {
    hide Mod;
    SubMod(k, offset, n);
    ModShift(k - offset, offset, n);
    ModSmall(k, n);
  }

  /** One pass of the outer loop before its rotation. */
  method InnerSum<C(!new)>(r: Ring<C>, v: seq<C>, rotated: seq<seq<C>>, y: seq<C>, ghost x: seq<C>, outer: nat, inner: nat, o: nat)
    returns (innerSum: seq<C>)
    requires Laws(r) && |v| == outer * inner > 0 && o < outer && AreDiagonals(y, x, outer, inner)
    requires |rotated| == inner && forall i :: 0 <= i < inner ==> rotated[i] == Rotate(v, i)
    ensures |innerSum| == |v|
    ensures forall d :: 0 <= d < |v| ==>
      innerSum[d] == LoopSum(r, x, v, outer / 2 * inner, Mod(d + Offset(outer, inner, o), |v|), o * inner, o * inner + inner)
  {
    hide Laws, Mod, Offset, LoopSum, LoopTerm, Source, AreDiagonals;
    DiagonalSizes(y, x, outer, inner, |v|);
    ghost var half := outer / 2 * inner;
    var slotCount := |v|;
    innerSum := [];
    for i := 0 to inner
      invariant i > 0 ==> |innerSum| == |v|
      invariant i > 0 ==> forall d :: 0 <= d < |v| ==>
        innerSum[d] == LoopSum(r, x, v, half, Mod(d + Offset(outer, inner, o), |v|), o * inner, o * inner + i)
    {
      var loopIndex := o * inner + i;
      DiagonalAt(y, x, outer, inner, o, i, 0);
      var diagonal := y[loopIndex * slotCount..loopIndex * slotCount + slotCount];
      var multiplied := MultiplySlots(r, rotated[i], diagonal);
      ghost var before := innerSum;
      if i == 0 {
        innerSum := multiplied;
      } else {
        innerSum := AddSlots(r, innerSum, multiplied);
      }
      forall d | 0 <= d < |v|
        ensures innerSum[d] == LoopSum(r, x, v, half, Mod(d + Offset(outer, inner, o), |v|), o * inner, o * inner + (i + 1))
      {
        DiagonalAt(y, x, outer, inner, o, i, d);
        InnerTerm(r, x, v, outer, inner, o, i, d);
        var k := Mod(d + Offset(outer, inner, o), |v|);
        LoopSumStep(r, x, v, half, k, o * inner, o * inner + i);
        AddZero(r, LoopTerm(r, x, v, half, k, o * inner + i));
      }
    }
  }

  /** multiply_plain_matrix: for every matrix and vector, the baby steps and giant steps add up to the
      ordinary matrix-vector product. */
  method MultiplyPlainMatrix<C(!new)>(r: Ring<C>, v: seq<C>, y: seq<C>, ghost x: seq<C>, outer: nat, inner: nat) returns (outerSum: seq<C>)
    requires Laws(r) && |v| == outer * inner > 0 && AreDiagonals(y, x, outer, inner)
    ensures |outerSum| == |v| && forall k :: 0 <= k < |v| ==> outerSum[k] == Entry(r, x, v, k)
  {
    hide Laws, Mod, Offset, LoopSum, Entry, AreDiagonals;
    DiagonalSizes(y, x, outer, inner, |v|);
    ghost var half := outer / 2 * inner;
    var rotatedInputs := seq(inner, i requires 0 <= i < inner => Rotate(v, i));
    outerSum := [];
    for o := 0 to outer
      invariant o > 0 ==> |outerSum| == |v|
      invariant o > 0 ==> forall k :: 0 <= k < |v| ==> outerSum[k] == LoopSum(r, x, v, half, k, 0, o * inner)
    {
      var delta := Mod(Offset(outer, inner, o), |v|);
      var innerSum := InnerSum(r, v, rotatedInputs, y, x, outer, inner, o);
      var rotated := Rotate(innerSum, delta);
      LoopIndex(o, 0, outer, inner);
      ghost var before := outerSum;
      if o == 0 {
        outerSum := rotated;
      } else {
        outerSum := AddSlots(r, outerSum, rotated);
      }
      forall k | 0 <= k < |v| ensures outerSum[k] == LoopSum(r, x, v, half, k, 0, (o + 1) * inner) {
        RowSlot(k, Offset(outer, inner, o), |v|);
        LoopSumSplit(r, x, v, half, k, o * inner, (o + 1) * inner);
        LoopSumStep(r, x, v, half, k, 0, 0);
        AddZero(r, LoopSum(r, x, v, half, k, o * inner, (o + 1) * inner));
        ZeroTimes(inner);
      }
    }
    forall k | 0 <= k < |v| ensures outerSum[k] == Entry(r, x, v, k) {
      LoopSumIsEntry(r, x, v, half, k);
    }
  }

  lemma ZeroTimes(inner: nat)
    ensures 0 * inner == 0
  {
  }

  /** make_plain_matrix: with a power-of-two slot count the two loop counts multiply to it. */
  lemma LoopCounts(logSlotCount: nat)
    ensures var slotCount := Pow2(logSlotCount);
      var outer := slotCount / Pow2(logSlotCount / 2);
      outer >= 1 && outer * (slotCount / outer) == slotCount && slotCount / outer >= 1
  {
    var half := logSlotCount / 2;
    Pow2Add(logSlotCount - half, half);
    hide Pow2;
    DivModUnique(Pow2(logSlotCount), Pow2(logSlotCount - half), 0, Pow2(half));
    TimesCommute(Pow2(half), Pow2(logSlotCount - half));
    DivModUnique(Pow2(logSlotCount), Pow2(half), 0, Pow2(logSlotCount - half));
  }
}
