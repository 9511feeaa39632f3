/** The array kernels of src/montgomery/unit.cpp and src/montgomery/compound.cpp.

    All of them are the same pointer-advancing loop around a different scalar expression. */
module Kernels {
  import opened Montgomery

  datatype Op =
    | MontMult | MontEnter(constant: int) | Reduce | MontAdd | MontSubtract | GetRounder
    | EnterAdd(constant: int) | EnterAddReduce(constant: int) | MultAdd
    | SubEnterReduce(constant: int) | SubEnter(constant: int) | EnterExit(constant: int)
    | AddReduce | SubReduce | MakeUnsignedReduce

  /** What one iteration stores: x1 and x2 are read through the source pointers, y is the old value
      at the destination. */
  function Scalar(op: Op, x1: int, x2: int, y: int, q: int, k: int): int {
    match op
    case MontMult => MontMultScalar(x1, x2, q, k)
    case MontEnter(constant) => MontMultScalar(x1, constant, q, k)
    case Reduce => Guard(x1, q)
    case MontAdd => AddGuard(x1, x2, 2 * q)
    case MontSubtract =>
      var subtracted := ToInt64(x1 - x2);
      if subtracted >= 0 then subtracted else ToInt64(subtracted + 2 * q)
    case GetRounder => if x1 < 0 || x1 > q / 2 then 1 else 0 // the half is unsigned: a negative word counts as large
    case EnterAdd(constant) => AddGuard(MontMultScalar(x1, constant, q, k), y, 2 * q)
    case EnterAddReduce(constant) => Guard(AddGuard(MontMultScalar(x1, constant, q, k), y, 2 * q), q)
    case MultAdd => AddGuard(MontMultScalar(x1, x2, q, k), y, 2 * q)
    case SubEnterReduce(constant) => Guard(MontMultScalar(SubGuard(x1, x2, 2 * q), constant, q, k), q)
    case SubEnter(constant) => MontMultScalar(SubGuard(x1, x2, 2 * q), constant, q, k)
    case EnterExit(constant) => MontExitScalar(MontMultScalar(x1, constant, q, k), q, k)
    case AddReduce => Guard(AddGuard(x1, x2, 2 * q), q)
    case SubReduce => Guard(SubGuard(x1, x2, 2 * q), q)
    case MakeUnsignedReduce => if x1 < 0 then ToInt64(x1 + q) else Guard(x1, q)
  }

  /** A kernel applied to whole buffers. */
  function Apply(op: Op, x1: seq<int>, x2: seq<int>, y: seq<int>, q: int, k: int): (z: seq<int>)
    requires |x1| == |x2| == |y|
    ensures |z| == |y|
  {
    seq(|y|, i requires 0 <= i < |y| => Scalar(op, x1[i], x2[i], y[i], q, k))
  }

  /** The loop; sources and destination may be the same buffer. A kernel with one source is run with
      x2 == x1. */
  method Run(op: Op, x1: array<int>, x2: array<int>, y: array<int>, q: int, k: int)
    requires x1.Length == x2.Length == y.Length
    modifies y
    ensures y[..] == Apply(op, old(x1[..]), old(x2[..]), old(y[..]), q, k)
  {
    hide Scalar;
    for i := 0 to y.Length
      invariant forall j :: 0 <= j < i ==> y[j] == Scalar(op, old(x1[j]), old(x2[j]), old(y[j]), q, k)
      invariant forall j :: i <= j < y.Length ==> y[j] == old(y[j]) && x1[j] == old(x1[j]) && x2[j] == old(x2[j])
    {
      y[i] := Scalar(op, x1[i], x2[i], y[i], q, k);
    }
  }
}
