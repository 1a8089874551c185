/** Vectors of exact reals: products, squared distances, sums. */
module Vectors {
  type Vector = seq<real>

  function Dot(x: Vector, y: Vector): real
    requires |x| == |y|
  {
    if x == [] then 0.0 else x[0] * y[0] + Dot(x[1..], y[1..])
  }

  /** The squared distance between two points. */
  function Dist2(x: Vector, y: Vector): (d: real)
    requires |x| == |y|
    ensures 0.0 <= d
  {
    if x == [] then 0.0 else Square(x[0] - y[0]) + Dist2(x[1..], y[1..])
  }

  function Square(a: real): (s: real)
    ensures 0.0 <= s
  {
    a * a
  }

  lemma SquareOfNonzero(a: real)
    ensures Square(a) == 0.0 <==> a == 0.0
  {
    if a != 0.0 {
      calc {
        Square(a);
      ==
        a * a;
      >  { Positive(a); }
        0.0;
      }
    }
  }

  lemma Positive(a: real)
    requires a != 0.0
    ensures 0.0 < a * a
  {
  }

  function Add(x: Vector, y: Vector): (sum: Vector)
    requires |x| == |y|
    ensures |sum| == |x|
  {
    seq(|x|, i requires 0 <= i < |x| => x[i] + y[i])
  }

  function Divide(x: Vector, n: nat): (part: Vector)
    requires n != 0
    ensures |part| == |x|
  {
    seq(|x|, i requires 0 <= i < |x| => x[i] / n as real)
  }

  function Times(n: nat, a: real): real {
    n as real * a
  }

  function Zero(dimension: nat): (zero: Vector)
    ensures |zero| == dimension
  {
    seq(dimension, _ => 0.0)
  }

  lemma {:induction false} DotZero(x: Vector)
    ensures Dot(Zero(|x|), x) == 0.0
  {
    if x != [] {
      assert Zero(|x|)[1..] == Zero(|x| - 1);
      DotZero(x[1..]);
    }
  }

  lemma {:induction false} DotAdd(x: Vector, y: Vector, z: Vector)
    requires |x| == |y| == |z|
    ensures Dot(Add(x, y), z) == Dot(x, z) + Dot(y, z)
  {
    if x != [] {
      assert Add(x, y)[1..] == Add(x[1..], y[1..]);
      DotAdd(x[1..], y[1..], z[1..]);
    }
  }

  lemma {:induction false} DotDivide(x: Vector, n: nat, z: Vector)
    requires |x| == |z| && n != 0
    ensures Times(n, Dot(Divide(x, n), z)) == Dot(x, z)
  {
    if x != [] {
      assert Divide(x, n)[1..] == Divide(x[1..], n);
      DotDivide(x[1..], n, z[1..]);
      DivideTimes(n, x[0], z[0], Dot(Divide(x[1..], n), z[1..]));
    }
  }

  lemma DivideTimes(n: nat, a: real, b: real, c: real)
    requires n != 0
    ensures Times(n, (a / n as real) * b + c) == a * b + Times(n, c)
  {
  }

  /** The squared distance, multiplied out. */
  lemma {:induction false} Expansion(x: Vector, y: Vector)
    requires |x| == |y|
    ensures Dist2(x, y) == Dot(x, x) - 2.0 * Dot(x, y) + Dot(y, y)
  {
    if x != [] {
      Expansion(x[1..], y[1..]);
      assert Square(x[0] - y[0]) == x[0] * x[0] - 2.0 * (x[0] * y[0]) + y[0] * y[0];
    }
  }

  lemma {:induction false} ZeroDistance(x: Vector, y: Vector)
    requires |x| == |y|
    ensures Dist2(x, y) == 0.0 <==> x == y
  {
    if x != [] {
      SquareOfNonzero(x[0] - y[0]);
      ZeroDistance(x[1..], y[1..]);
      assert x == [x[0]] + x[1..] && y == [y[0]] + y[1..];
    }
  }

  /** Every vector has `dimension` entries. */
  predicate Rectangular(rows: seq<Vector>, dimension: nat) {
    forall i | 0 <= i < |rows| :: |rows[i]| == dimension
  }

  /** The squared distance adds up over the coordinates, each adding the square of its difference. */
  lemma {:induction false} DistancesAddUp(x: Vector, y: Vector, a: Vector, b: Vector)
    requires |x| == |y| && |a| == |b|
    ensures Dist2(x + a, y + b) == Dist2(x, y) + Dist2(a, b)
    ensures |x| == 1 ==> Dist2(x, y) == (x[0] - y[0]) * (x[0] - y[0])
  {
    if x == [] {
      assert x + a == a && y + b == b;
    } else {
      assert (x + a)[1..] == x[1..] + a && (y + b)[1..] == y[1..] + b;
      DistancesAddUp(x[1..], y[1..], a, b);
    }
  }
}
