/** What the crossing count means for a convex polygon. */
module Convex {
  import opened Polygon

  /* ---------------------------------------------------------------- sides */

  /** The vertex before vertex `i`, where side `i` begins. */
  function From(vertices: seq<Point>, i: nat): Point
    requires i < |vertices|
  {
    if i == 0 then vertices[|vertices| - 1] else vertices[i - 1]
  }

  function Before(n: nat, i: nat): nat
    requires i < n
  {
    if i == 0 then n - 1 else i - 1
  }

  /** Every side has all other vertices on its left. */
  predicate StrictlyConvex(vertices: seq<Point>) {
    3 <= |vertices| && forall i: nat, j: nat | i < |vertices| && j < |vertices| && j != i && j != Before(|vertices|, i) ::
      0.0 < Cross(From(vertices, i), vertices[i], vertices[j])
  }

  /** The point is on the left of every side. */
  predicate LeftOfAll(vertices: seq<Point>, p: Point) {
    forall i: nat | i < |vertices| :: 0.0 < Cross(From(vertices, i), vertices[i], p)
  }

  predicate Touched(vertices: seq<Point>, p: Point)
    requires vertices != []
  {
    Around(vertices, Touching(p)) != 0
  }

  /** The sum over the first `n` sides. */
  function SumSides(vertices: seq<Point>, f: Side, n: nat): nat
    requires n <= |vertices|
  {
    if n == 0 then 0 else SumSides(vertices, f, n - 1) + f(From(vertices, n - 1), vertices[n - 1])
  }

  lemma {:induction false} SumOfChain(vertices: seq<Point>, f: Side, n: nat)
    requires 1 <= n <= |vertices|
    ensures SumSides(vertices, f, n) == f(From(vertices, 0), vertices[0]) + Along(vertices[..n], f)
  {
    if n == 1 {
      assert SumSides(vertices, f, 0) == 0;
    } else {
      var last: nat := n - 1;
      SumOfChain(vertices, f, last);
      assert vertices[..n][..last] == vertices[..last];
    }
  }

  lemma AroundIsSum(vertices: seq<Point>, f: Side)
    requires vertices != []
    ensures Around(vertices, f) == SumSides(vertices, f, |vertices|)
  {
    SumOfChain(vertices, f, |vertices|);
    assert vertices[..|vertices|] == vertices;
  }

  lemma {:induction false} NoSide(vertices: seq<Point>, f: Side, n: nat)
    requires n <= |vertices| && forall i: nat | i < n :: f(From(vertices, i), vertices[i]) == 0
    ensures SumSides(vertices, f, n) == 0
  {
    if n != 0 {
      NoSide(vertices, f, n - 1);
    }
  }

  /** Two sides make up the whole sum if the others count nothing. */
  lemma {:induction false} TwoSides(vertices: seq<Point>, f: Side, n: nat, i: nat, j: nat)
    requires n <= |vertices| && i < |vertices| && j < |vertices| && i != j
    requires forall k: nat | k < n && k != i && k != j :: f(From(vertices, k), vertices[k]) == 0
    ensures SumSides(vertices, f, n)
         == (if i < n then f(From(vertices, i), vertices[i]) else 0) + (if j < n then f(From(vertices, j), vertices[j]) else 0)
  {
    if n != 0 {
      TwoSides(vertices, f, n - 1, i, j);
    }
  }

  lemma TouchedAt(vertices: seq<Point>, p: Point, i: nat)
    requires i < |vertices| && OnSegment(From(vertices, i), vertices[i], p)
    ensures Touched(vertices, p)
  {
    TouchedSomewhere(vertices, p, i);
  }

  /* ---------------------------------------------------------------- one side at the height of the point */

  predicate Rises(a: Point, b: Point, p: Point) {
    a.y <= p.y < b.y
  }

  predicate Falls(a: Point, b: Point, p: Point) {
    b.y <= p.y < a.y
  }

  lemma Product(a: real, b: real)
    requires 0.0 < a && 0.0 < b
    ensures 0.0 < a * b
  {
  }

  /** How far a point at that height is from the side. */
  lemma CrossAtHeight(a: Point, b: Point, p: Point, x: real)
    requires b.y != a.y
    ensures Cross(a, b, Point(x, p.y)) == (b.y - a.y) * (Meeting(a, b, p) - x)
  {
    var n, d := (b.x - a.x) * (p.y - a.y), b.y - a.y;
    Divided(n, d);
    var q := n / d;
    assert q * d == n;
    assert d * (q + a.x - x) == q * d - d * (x - a.x);
  }

  lemma SignOfProduct(d: real, e: real)
    requires d != 0.0
    ensures 0.0 < d ==> (0.0 < d * e <==> 0.0 < e) && (d * e == 0.0 <==> e == 0.0)
    ensures d < 0.0 ==> (0.0 < d * e <==> e < 0.0) && (d * e == 0.0 <==> e == 0.0)
  {
    if 0.0 < e {
      if 0.0 < d {
        Product(d, e);
      } else {
        Product(-d, e);
        assert (-d) * e == -(d * e);
      }
    } else if e < 0.0 {
      if 0.0 < d {
        Product(d, -e);
        assert d * (-e) == -(d * e);
      } else {
        Product(-d, -e);
        assert (-d) * (-e) == d * e;
      }
    }
  }

  /** Of points at that height, those to the left of where a rising side passes are on its left, and for
      a falling side those to the right. */
  lemma LeftMeans(a: Point, b: Point, p: Point, x: real)
    requires Straddles(a, b, p)
    ensures Rises(a, b, p) || Falls(a, b, p)
    ensures Rises(a, b, p) ==> (0.0 < Cross(a, b, Point(x, p.y)) <==> x < Meeting(a, b, p))
    ensures Falls(a, b, p) ==> (0.0 < Cross(a, b, Point(x, p.y)) <==> Meeting(a, b, p) < x)
    ensures Cross(a, b, Point(x, p.y)) == 0.0 <==> x == Meeting(a, b, p)
  {
    CrossAtHeight(a, b, p, x);
    SignOfProduct(b.y - a.y, Meeting(a, b, p) - x);
  }

  /** Where a side passes that height it divides itself. */
  lemma MeetingDivides(a: Point, b: Point, p: Point) returns (t: real)
    requires Straddles(a, b, p)
    ensures 0.0 <= t <= 1.0 && Point(Meeting(a, b, p), p.y) == OnSide(a, b, t)
    ensures Rises(a, b, p) ==> t < 1.0
    ensures Falls(a, b, p) ==> 0.0 < t
  {
    var height, total, width := p.y - a.y, b.y - a.y, b.x - a.x;
    t := height / total;
    Divided(height, total);
    Quotient(t, height, total);
    DividedProduct(width, height, total);
    Commute(t, width);
  }

  /** Along a side the distance from a line changes evenly. */
  lemma CrossAlong(c: Point, d: Point, a: Point, b: Point, t: real)
    ensures Cross(c, d, OnSide(a, b, t)) == (1.0 - t) * Cross(c, d, a) + t * Cross(c, d, b)
  {
    var u, v := d.x - c.x, d.y - c.y;
    var x, y, w, z := a.x - c.x, a.y - c.y, b.x - c.x, b.y - c.y;
    EvenlyMixed(u, v, x, y, w, z, t);
  }

  lemma EvenlyMixed(u: real, v: real, x: real, y: real, w: real, z: real, t: real)
    ensures u * (y + t * (z - y)) - v * (x + t * (w - x)) == (1.0 - t) * (u * y - v * x) + t * (u * z - v * w)
  {
  }

  /** A mixture of two numbers that are not negative. */
  lemma Mixed(t: real, x: real, y: real)
    requires 0.0 <= t <= 1.0 && 0.0 <= x && 0.0 <= y
    ensures 0.0 <= (1.0 - t) * x + t * y
    ensures t < 1.0 && 0.0 < x ==> 0.0 < (1.0 - t) * x + t * y
    ensures 0.0 < t && 0.0 < y ==> 0.0 < (1.0 - t) * x + t * y
  {
    NotNegative(1.0 - t, x);
    NotNegative(t, y);
  }

  lemma NotNegative(a: real, b: real)
    requires 0.0 <= a && 0.0 <= b
    ensures 0.0 <= a * b && (0.0 < a && 0.0 < b ==> 0.0 < a * b)
  {
    if 0.0 < a && 0.0 < b {
      Product(a, b);
    }
  }

  /** What lies between two points that are not on the right of a line is not on the right of it. */
  lemma LeftAlong(c: Point, d: Point, a: Point, b: Point, t: real, from: real, to: real)
    requires from == Cross(c, d, a) && to == Cross(c, d, b) && 0.0 <= t <= 1.0 && 0.0 <= from && 0.0 <= to
    ensures 0.0 <= Cross(c, d, OnSide(a, b, t))
    ensures t < 1.0 && 0.0 < from ==> 0.0 < Cross(c, d, OnSide(a, b, t))
    ensures 0.0 < t && 0.0 < to ==> 0.0 < Cross(c, d, OnSide(a, b, t))
  {
    var cross := MixedCross(c, d, a, b, t, from, to);
    Mixed(t, from, to);
    assert cross == Cross(c, d, OnSide(a, b, t));
  }

  lemma MixedCross(c: Point, d: Point, a: Point, b: Point, t: real, from: real, to: real) returns (cross: real)
    requires from == Cross(c, d, a) && to == Cross(c, d, b)
    ensures cross == Cross(c, d, OnSide(a, b, t)) && cross == (1.0 - t) * from + t * to
  {
    cross := Cross(c, d, OnSide(a, b, t));
    CrossAlong(c, d, a, b, t);
  }

  /* ---------------------------------------------------------------- in a convex polygon */

  lemma CornersHaveNoCross(a: Point, b: Point)
    ensures Cross(a, b, a) == 0.0 && Cross(a, b, b) == 0.0
  {
    var u, v := b.x - a.x, b.y - a.y;
    Commute(u, v);
    assert Cross(a, b, b) == u * v - v * u;
  }

  /** No vertex is on the right of a side, and only its ends are on its line. */
  lemma VertexIsLeft(vertices: seq<Point>, i: nat, j: nat)
    requires StrictlyConvex(vertices) && i < |vertices| && j < |vertices|
    ensures 0.0 <= Cross(From(vertices, i), vertices[i], vertices[j])
    ensures Cross(From(vertices, i), vertices[i], vertices[j]) == 0.0 <==> j == i || j == Before(|vertices|, i)
  {
    CornersHaveNoCross(From(vertices, i), vertices[i]);
  }

  /** Nor is any point of another side on the right of it. */
  lemma SideIsLeft(vertices: seq<Point>, i: nat, k: nat, t: real)
    requires StrictlyConvex(vertices) && i < |vertices| && k < |vertices| && 0.0 <= t <= 1.0
    ensures var cross := Cross(From(vertices, i), vertices[i], OnSide(From(vertices, k), vertices[k], t));
      && 0.0 <= cross
      && (t < 1.0 && 0.0 < Cross(From(vertices, i), vertices[i], From(vertices, k)) ==> 0.0 < cross)
      && (0.0 < t && 0.0 < Cross(From(vertices, i), vertices[i], vertices[k]) ==> 0.0 < cross)
  {
    var before := Before(|vertices|, k);
    VertexIsLeft(vertices, i, before);
    VertexIsLeft(vertices, i, k);
    var c, d, a, b := From(vertices, i), vertices[i], From(vertices, k), vertices[k];
    LeftAlong(c, d, a, b, t, Cross(c, d, a), Cross(c, d, b));
  }

  /** Side `i` passes the height of the point, and where. */
  predicate Passes(vertices: seq<Point>, p: Point, i: nat) {
    i < |vertices| && Straddles(From(vertices, i), vertices[i], p)
  }

  predicate Up(vertices: seq<Point>, p: Point, i: nat) {
    i < |vertices| && Rises(From(vertices, i), vertices[i], p)
  }

  predicate Down(vertices: seq<Point>, p: Point, i: nat) {
    i < |vertices| && Falls(From(vertices, i), vertices[i], p)
  }

  function Place(vertices: seq<Point>, p: Point, i: nat): real
    requires Passes(vertices, p, i)
  {
    Meeting(From(vertices, i), vertices[i], p)
  }

  /** Where one side passes is not on the right of another side that passes. */
  lemma PlaceIsLeft(vertices: seq<Point>, p: Point, i: nat, k: nat)
    requires StrictlyConvex(vertices) && i < |vertices| && Passes(vertices, p, k)
    ensures 0.0 <= Cross(From(vertices, i), vertices[i], Point(Place(vertices, p, k), p.y))
    ensures Up(vertices, p, k) && 0.0 < Cross(From(vertices, i), vertices[i], From(vertices, k)) ==>
              0.0 < Cross(From(vertices, i), vertices[i], Point(Place(vertices, p, k), p.y))
    ensures Down(vertices, p, k) && 0.0 < Cross(From(vertices, i), vertices[i], vertices[k]) ==>
              0.0 < Cross(From(vertices, i), vertices[i], Point(Place(vertices, p, k), p.y))
  {
    var t := MeetingDivides(From(vertices, k), vertices[k], p);
    SideIsLeft(vertices, i, k, t);
  }

  lemma OnlyOneUp(vertices: seq<Point>, p: Point, i: nat, k: nat)
    requires StrictlyConvex(vertices) && Up(vertices, p, i) && Up(vertices, p, k)
    ensures i == k
  {
    if i != k {
      UpIsLeftOfUp(vertices, p, i, k);
      UpIsLeftOfUp(vertices, p, k, i);
    }
  }

  lemma UpIsLeftOfUp(vertices: seq<Point>, p: Point, i: nat, k: nat)
    requires StrictlyConvex(vertices) && Up(vertices, p, i) && Up(vertices, p, k) && i != k
    ensures Place(vertices, p, k) < Place(vertices, p, i)
  {
    VertexIsLeft(vertices, i, Before(|vertices|, k));
    PlaceIsLeft(vertices, p, i, k);
    LeftMeans(From(vertices, i), vertices[i], p, Place(vertices, p, k));
  }

  lemma OnlyOneDown(vertices: seq<Point>, p: Point, i: nat, k: nat)
    requires StrictlyConvex(vertices) && Down(vertices, p, i) && Down(vertices, p, k)
    ensures i == k
  {
    if i != k {
      DownIsRightOfDown(vertices, p, i, k);
      DownIsRightOfDown(vertices, p, k, i);
    }
  }

  lemma DownIsRightOfDown(vertices: seq<Point>, p: Point, i: nat, k: nat)
    requires StrictlyConvex(vertices) && Down(vertices, p, i) && Down(vertices, p, k) && i != k
    ensures Place(vertices, p, i) < Place(vertices, p, k)
  {
    VertexIsLeft(vertices, i, k);
    PlaceIsLeft(vertices, p, i, k);
    LeftMeans(From(vertices, i), vertices[i], p, Place(vertices, p, k));
  }

  /** The side that falls passes on the left of the side that rises. */
  lemma DownBeforeUp(vertices: seq<Point>, p: Point, i: nat, j: nat)
    requires StrictlyConvex(vertices) && Up(vertices, p, i) && Down(vertices, p, j)
    ensures Place(vertices, p, j) <= Place(vertices, p, i)
  {
    PlaceIsLeft(vertices, p, i, j);
    LeftMeans(From(vertices, i), vertices[i], p, Place(vertices, p, j));
  }

  /* ---------------------------------------------------------------- between the two */

  /** A point between two others at its height that are not on the right of a line is on its left, or
      all three are on it. */
  lemma BetweenTwo(c: Point, d: Point, left: Point, right: Point, p: Point)
    requires left.y == p.y == right.y && left.x < p.x < right.x
    requires 0.0 <= Cross(c, d, left) && 0.0 <= Cross(c, d, right)
    ensures 0.0 < Cross(c, d, p) || (Cross(c, d, left) == 0.0 && Cross(c, d, right) == 0.0)
  {
    var s := Share(left.x, p.x, right.x);
    assert OnSide(left, right, s) == p;
    LeftAlong(c, d, left, right, s, Cross(c, d, left), Cross(c, d, right));
  }

  /** Between where the two sides pass, the point is on the left of every side or on it. */
  lemma BetweenIsLeft(vertices: seq<Point>, p: Point, i: nat, j: nat, e: nat)
    requires StrictlyConvex(vertices) && Up(vertices, p, i) && Down(vertices, p, j) && e < |vertices|
    requires Place(vertices, p, j) < p.x < Place(vertices, p, i)
    ensures 0.0 < Cross(From(vertices, e), vertices[e], p) || On(From(vertices, e), vertices[e], p)
  {
    var left, right := Point(Place(vertices, p, j), p.y), Point(Place(vertices, p, i), p.y);
    var c, d := From(vertices, e), vertices[e];
    PlaceIsLeft(vertices, p, e, i);
    PlaceIsLeft(vertices, p, e, j);
    BetweenTwo(c, d, left, right, p);
    if Cross(c, d, left) == 0.0 && Cross(c, d, right) == 0.0 {
      LevelLine(c, d, p.y, left.x, right.x);
      LevelSide(vertices, p, i, j, e);
    }
  }

  lemma Share(from: real, x: real, to: real) returns (s: real)
    requires from < x < to
    ensures 0.0 < s < 1.0 && from + s * (to - from) == x
  {
    var part, total := x - from, to - from;
    s := part / total;
    Divided(part, total);
    SignOfProduct(total, s);
    SignOfProduct(total, 1.0 - s);
    assert total * (1.0 - s) == total - s * total && total * s == s * total;
  }

  /** A line through two points at one height is level. */
  lemma LevelLine(c: Point, d: Point, y: real, x: real, z: real)
    requires x != z && Cross(c, d, Point(x, y)) == 0.0 && Cross(c, d, Point(z, y)) == 0.0
    ensures c.y == d.y && (c.x != d.x ==> c.y == y)
  {
    var v := d.y - c.y;
    assert v * (x - z) == 0.0;
    if v != 0.0 {
      SignOfProduct(v, x - z);
    }
    var u := d.x - c.x;
    if u != 0.0 {
      SignOfProduct(u, y - c.y);
    }
  }

  /** If a side lies at the height of the point, the others pass there at its ends. */
  lemma LevelSide(vertices: seq<Point>, p: Point, i: nat, j: nat, e: nat)
    requires StrictlyConvex(vertices) && Up(vertices, p, i) && Down(vertices, p, j) && e < |vertices|
    requires Place(vertices, p, j) < p.x < Place(vertices, p, i)
    requires From(vertices, e).y == vertices[e].y && (From(vertices, e).x != vertices[e].x ==> vertices[e].y == p.y)
    ensures On(From(vertices, e), vertices[e], p)
  {
    EndsAreThere(vertices, p, i, j, e);
    LevelTouch(From(vertices, e), vertices[e], p);
  }

  lemma LevelTouch(c: Point, d: Point, p: Point)
    requires c.y == d.y == p.y && Min(c.x, d.x) <= p.x <= Max(c.x, d.x)
    ensures On(c, d, p)
  {
    LevelCross(c, d, p);
  }

  lemma EndsAreThere(vertices: seq<Point>, p: Point, i: nat, j: nat, e: nat)
    requires StrictlyConvex(vertices) && Up(vertices, p, i) && Down(vertices, p, j) && e < |vertices|
    requires Place(vertices, p, j) < p.x < Place(vertices, p, i)
    requires From(vertices, e).y == vertices[e].y && (From(vertices, e).x != vertices[e].x ==> vertices[e].y == p.y)
    ensures vertices[e].y == p.y
    ensures Min(From(vertices, e).x, vertices[e].x) <= p.x <= Max(From(vertices, e).x, vertices[e].x)
  {
    var c, d, before := From(vertices, e), vertices[e], Before(|vertices|, i);
    SomeOtherVertex(vertices, e);
    assert c.x != d.x;
    LowEnd(vertices, p, i, e, before);
    LowEnd(vertices, p, i, e, j);
    PlaceAtStart(From(vertices, i), vertices[i], p);
    PlaceAtEnd(From(vertices, j), vertices[j], p);
  }

  /** A side has two different ends. */
  lemma SomeOtherVertex(vertices: seq<Point>, e: nat)
    requires StrictlyConvex(vertices) && e < |vertices|
    ensures From(vertices, e) != vertices[e]
  {
    var other: nat := if e != 0 && Before(|vertices|, e) != 0 then 0 else if e != 1 && Before(|vertices|, e) != 1 then 1 else 2;
    assert 0.0 < Cross(From(vertices, e), vertices[e], vertices[other]);
    PointHasNoLeft(vertices[e], vertices[other]);
  }

  lemma PointHasNoLeft(c: Point, v: Point)
    ensures Cross(c, c, v) == 0.0
  {
  }

  /** With a side at that height and a vertex above, a vertex that is not above is an end of the side. */
  lemma LowEnd(vertices: seq<Point>, p: Point, high: nat, e: nat, low: nat)
    requires StrictlyConvex(vertices) && e < |vertices| && high < |vertices| && low < |vertices|
    requires From(vertices, e).y == vertices[e].y == p.y < vertices[high].y && vertices[low].y <= p.y
    requires From(vertices, e).x != vertices[e].x
    ensures vertices[low] == From(vertices, e) || vertices[low] == vertices[e]
  {
    VertexIsLeft(vertices, e, high);
    VertexIsLeft(vertices, e, low);
    LowIsOnTheLine(From(vertices, e), vertices[e], vertices[high], vertices[low]);
  }

  lemma LowIsOnTheLine(c: Point, d: Point, high: Point, low: Point)
    requires c.y == d.y < high.y && low.y <= c.y && c.x != d.x && 0.0 <= Cross(c, d, high) && 0.0 <= Cross(c, d, low)
    ensures Cross(c, d, low) == 0.0
  {
    LevelCross(c, d, high);
    LevelCross(c, d, low);
    var u, up, down := d.x - c.x, high.y - c.y, low.y - c.y;
    SignOfProduct(u, up);
    SignOfProduct(u, down);
    assert u * up == Cross(c, d, high) && u * down == Cross(c, d, low);
  }

  lemma LevelCross(c: Point, d: Point, v: Point)
    requires c.y == d.y
    ensures Cross(c, d, v) == (d.x - c.x) * (v.y - c.y)
  {
  }

  lemma PlaceAtStart(a: Point, b: Point, p: Point)
    requires Straddles(a, b, p) && a.y == p.y
    ensures Meeting(a, b, p) == a.x
  {
    LeftMeans(a, b, p, a.x);
    CornersHaveNoCross(a, b);
  }

  lemma PlaceAtEnd(a: Point, b: Point, p: Point)
    requires Straddles(a, b, p) && b.y == p.y
    ensures Meeting(a, b, p) == b.x
  {
    LeftMeans(a, b, p, b.x);
    CornersHaveNoCross(a, b);
  }

  /* ---------------------------------------------------------------- how many sides pass */

  function Rising(p: Point): Side {
    (a, b) => if Rises(a, b, p) then 1 else 0
  }

  function Falling(p: Point): Side {
    (a, b) => if Falls(a, b, p) then 1 else 0
  }

  function Above(v: Point, p: Point): int {
    if p.y < v.y then 1 else 0
  }

  /** Going round, one comes down as often as one goes up. */
  lemma {:induction false} UpsAndDowns(vertices: seq<Point>, p: Point, n: nat)
    requires 1 <= n <= |vertices|
    ensures SumSides(vertices, Rising(p), n) - SumSides(vertices, Falling(p), n)
         == Above(vertices[n - 1], p) - Above(vertices[|vertices| - 1], p)
  {
    if n == 1 {
      assert SumSides(vertices, Rising(p), 0) == 0 && SumSides(vertices, Falling(p), 0) == 0;
    } else {
      UpsAndDowns(vertices, p, n - 1);
    }
  }

  lemma {:induction false} PartOfSum(vertices: seq<Point>, f: Side, n: nat, i: nat)
    requires i < n <= |vertices|
    ensures f(From(vertices, i), vertices[i]) <= SumSides(vertices, f, n)
  {
    if i < n - 1 {
      PartOfSum(vertices, f, n - 1, i);
    }
  }

  lemma NobodyRises(vertices: seq<Point>, p: Point)
    requires forall l: nat | l < |vertices| :: !Up(vertices, p, l)
    ensures SumSides(vertices, Rising(p), |vertices|) == 0
  {
    forall l: nat | l < |vertices|
      ensures Rising(p)(From(vertices, l), vertices[l]) == 0
    {
      assert !Up(vertices, p, l);
    }
    NoSide(vertices, Rising(p), |vertices|);
  }

  lemma NobodyFalls(vertices: seq<Point>, p: Point)
    requires forall l: nat | l < |vertices| :: !Down(vertices, p, l)
    ensures SumSides(vertices, Falling(p), |vertices|) == 0
  {
    forall l: nat | l < |vertices|
      ensures Falling(p)(From(vertices, l), vertices[l]) == 0
    {
      assert !Down(vertices, p, l);
    }
    NoSide(vertices, Falling(p), |vertices|);
  }

  lemma NobodyCrosses(vertices: seq<Point>, p: Point)
    requires forall l: nat | l < |vertices| :: !Passes(vertices, p, l)
    ensures SumSides(vertices, Crossing(p), |vertices|) == 0
  {
    forall l: nat | l < |vertices|
      ensures Crossing(p)(From(vertices, l), vertices[l]) == 0
    {
      assert !Passes(vertices, p, l);
    }
    NoSide(vertices, Crossing(p), |vertices|);
  }

  /** Where some side passes, one rises and one falls. */
  lemma BothPass(vertices: seq<Point>, p: Point, k: nat) returns (i: nat, j: nat)
    requires Passes(vertices, p, k)
    ensures Up(vertices, p, i) && Down(vertices, p, j)
  {
    var n := |vertices|;
    UpsAndDowns(vertices, p, n);
    if Up(vertices, p, k) {
      i := k;
      PartOfSum(vertices, Rising(p), n, k);
      if forall l: nat | l < n :: !Down(vertices, p, l) {
        NobodyFalls(vertices, p);
      }
      j :| Down(vertices, p, j);
    } else {
      j := k;
      PartOfSum(vertices, Falling(p), n, k);
      if forall l: nat | l < n :: !Up(vertices, p, l) {
        NobodyRises(vertices, p);
      }
      i :| Up(vertices, p, i);
    }
  }

  lemma CrossingAt(vertices: seq<Point>, p: Point, i: nat)
    requires Passes(vertices, p, i)
    ensures Crossing(p)(From(vertices, i), vertices[i]) == if p.x < Place(vertices, p, i) then 1 else 0
  {
  }

  lemma OthersDoNotCross(vertices: seq<Point>, p: Point, i: nat, j: nat, k: nat)
    requires StrictlyConvex(vertices) && Up(vertices, p, i) && Down(vertices, p, j) && k < |vertices| && k != i && k != j
    ensures Crossing(p)(From(vertices, k), vertices[k]) == 0
  {
    if Up(vertices, p, k) {
      OnlyOneUp(vertices, p, i, k);
    }
    if Down(vertices, p, k) {
      OnlyOneDown(vertices, p, j, k);
    }
  }

  lemma OddBetween(x: real, left: real, right: real, sum: nat)
    requires left <= right && sum == (if x < right then 1 else 0) + (if x < left then 1 else 0)
    ensures sum % 2 == 1 <==> left <= x < right
  {
  }

  /** With one side that rises and one that falls, the ray crosses an odd number of sides exactly from
      points between them. */
  lemma CrossedBetween(vertices: seq<Point>, p: Point, i: nat, j: nat)
    requires StrictlyConvex(vertices) && Up(vertices, p, i) && Down(vertices, p, j)
    ensures Around(vertices, Crossing(p)) % 2 == 1 <==> Place(vertices, p, j) <= p.x < Place(vertices, p, i)
  {
    forall k: nat | k < |vertices| && k != i && k != j
      ensures Crossing(p)(From(vertices, k), vertices[k]) == 0
    {
      OthersDoNotCross(vertices, p, i, j, k);
    }
    TwoSides(vertices, Crossing(p), |vertices|, i, j);
    AroundIsSum(vertices, Crossing(p));
    CrossingAt(vertices, p, i);
    CrossingAt(vertices, p, j);
    DownBeforeUp(vertices, p, i, j);
    OddBetween(p.x, Place(vertices, p, j), Place(vertices, p, i), Around(vertices, Crossing(p)));
  }

  lemma NoneCrossed(vertices: seq<Point>, p: Point)
    requires vertices != [] && forall k: nat | k < |vertices| :: !Passes(vertices, p, k)
    ensures Around(vertices, Crossing(p)) == 0
  {
    NobodyCrosses(vertices, p);
    AroundIsSum(vertices, Crossing(p));
  }

  /* ---------------------------------------------------------------- where no side passes */

  lemma {:induction false} AllAlike(vertices: seq<Point>, p: Point, n: nat)
    requires vertices != [] && (forall k: nat | k < |vertices| :: !Passes(vertices, p, k)) && n <= |vertices|
    ensures forall i | 0 <= i < n :: p.y < vertices[i].y <==> p.y < vertices[|vertices| - 1].y
  {
    if n != 0 {
      AllAlike(vertices, p, n - 1);
      assert !Passes(vertices, p, n - 1);
    }
  }

  lemma {:induction false} Lowest(vertices: seq<Point>, n: nat) returns (m: nat)
    requires 1 <= n <= |vertices|
    ensures m < n && forall i | 0 <= i < n :: vertices[m].y <= vertices[i].y
  {
    m := 0;
    for i := 1 to n
      invariant m < i && forall k | 0 <= k < i :: vertices[m].y <= vertices[k].y
    {
      if vertices[i].y < vertices[m].y {
        m := i;
      }
    }
  }

  lemma {:induction false} Highest(vertices: seq<Point>, n: nat) returns (m: nat)
    requires 1 <= n <= |vertices|
    ensures m < n && forall i | 0 <= i < n :: vertices[i].y <= vertices[m].y
  {
    m := 0;
    for i := 1 to n
      invariant m < i && forall k | 0 <= k < i :: vertices[k].y <= vertices[m].y
    {
      if vertices[m].y < vertices[i].y {
        m := i;
      }
    }
  }

  /** A point as a mixture of the two sides of a corner. */
  lemma CornerMixes(u: Point, m: Point, w: Point, p: Point)
    ensures Cross(u, m, w) * (p.y - m.y) == Cross(u, m, p) * (w.y - m.y) + Cross(m, w, p) * (u.y - m.y)
  {
    var a, b, c, d, e, f := u.x - m.x, u.y - m.y, w.x - m.x, w.y - m.y, p.x - m.x, p.y - m.y;
    assert Cross(u, m, w) == c * b - d * a;
    assert Cross(u, m, p) == e * b - f * a;
    assert Cross(m, w, p) == c * f - d * e;
    SixTerms(a, b, c, d, e, f);
  }

  lemma SixTerms(a: real, b: real, c: real, d: real, e: real, f: real)
    ensures (c * b - d * a) * f == (e * b - f * a) * d + (c * f - d * e) * b
  {
  }

  lemma CornerNotBelow(u: Point, m: Point, w: Point, p: Point)
    requires 0.0 < Cross(u, m, w) && 0.0 < Cross(u, m, p) && 0.0 < Cross(m, w, p) && m.y <= u.y && m.y <= w.y
    ensures m.y <= p.y
  {
    CornerMixes(u, m, w, p);
    var corner, one, other := Cross(u, m, w), Cross(u, m, p), Cross(m, w, p);
    NotNegative(one, w.y - m.y);
    NotNegative(other, u.y - m.y);
    SignOfProduct(corner, m.y - p.y);
    assert corner * (m.y - p.y) == -(corner * (p.y - m.y));
  }

  lemma CornerNotAbove(u: Point, m: Point, w: Point, p: Point)
    requires 0.0 < Cross(u, m, w) && 0.0 < Cross(u, m, p) && 0.0 < Cross(m, w, p) && u.y <= m.y && w.y <= m.y
    ensures p.y < m.y
  {
    CornerMixes(u, m, w, p);
    var corner, one, other := Cross(u, m, w), Cross(u, m, p), Cross(m, w, p);
    CornerIsNotLevel(u, m, w);
    NotNegative(one, m.y - w.y);
    NotNegative(other, m.y - u.y);
    assert one * (m.y - w.y) == -(one * (w.y - m.y)) && other * (m.y - u.y) == -(other * (u.y - m.y));
    SignOfProduct(corner, m.y - p.y);
    assert corner * (m.y - p.y) == -(corner * (p.y - m.y));
  }

  lemma CornerIsNotLevel(u: Point, m: Point, w: Point)
    requires 0.0 < Cross(u, m, w)
    ensures u.y != m.y || w.y != m.y
  {
  }

  function After(n: nat, i: nat): nat
    requires i < n
  {
    if i + 1 == n then 0 else i + 1
  }

  lemma CornerOf(vertices: seq<Point>, m: nat)
    requires StrictlyConvex(vertices) && m < |vertices|
    ensures var next := After(|vertices|, m);
      From(vertices, next) == vertices[m] && 0.0 < Cross(From(vertices, m), vertices[m], vertices[next])
  {
  }

  /** From the left of every side some side passes at that height. */
  lemma SomeSidePasses(vertices: seq<Point>, p: Point)
    requires StrictlyConvex(vertices) && LeftOfAll(vertices, p)
    ensures exists k: nat :: Passes(vertices, p, k)
  {
    var n := |vertices|;
    var low := Lowest(vertices, n);
    var high := Highest(vertices, n);
    CornerOf(vertices, low);
    CornerOf(vertices, high);
    var lowNext, highNext := After(n, low), After(n, high);
    assert 0.0 < Cross(From(vertices, lowNext), vertices[lowNext], p) && 0.0 < Cross(From(vertices, highNext), vertices[highNext], p);
    CornerNotBelow(From(vertices, low), vertices[low], vertices[lowNext], p);
    CornerNotAbove(From(vertices, high), vertices[high], vertices[highNext], p);
    if forall k: nat | k < n :: !Passes(vertices, p, k) {
      AllAlike(vertices, p, n);
    }
  }

  /* ---------------------------------------------------------------- the answer */

  lemma LeftIsBetween(vertices: seq<Point>, p: Point, i: nat, j: nat)
    requires LeftOfAll(vertices, p) && Up(vertices, p, i) && Down(vertices, p, j)
    ensures Place(vertices, p, j) < p.x < Place(vertices, p, i)
  {
    LeftMeans(From(vertices, i), vertices[i], p, p.x);
    LeftMeans(From(vertices, j), vertices[j], p, p.x);
    assert Point(p.x, p.y) == p;
  }

  /** The point lies on some side, without any tolerance. */
  predicate OnSomeSide(vertices: seq<Point>, p: Point) {
    exists i: nat :: i < |vertices| && On(From(vertices, i), vertices[i], p)
  }

  lemma SomeSideIsTouched(vertices: seq<Point>, p: Point)
    requires OnSomeSide(vertices, p)
    ensures vertices != [] && Touched(vertices, p)
  {
    var i: nat :| i < |vertices| && On(From(vertices, i), vertices[i], p);
    StraightInTheBox(From(vertices, i), vertices[i], p);
    TouchedAt(vertices, p, i);
  }

  lemma OnWhereItPasses(vertices: seq<Point>, p: Point, j: nat)
    requires Passes(vertices, p, j) && p.x == Place(vertices, p, j)
    ensures OnSomeSide(vertices, p)
  {
    var t := MeetingDivides(From(vertices, j), vertices[j], p);
    Polygon.SideIsTouched(From(vertices, j), vertices[j], t);
    assert Point(p.x, p.y) == p;
  }

  lemma BetweenIsInside(vertices: seq<Point>, p: Point, i: nat, j: nat)
    requires StrictlyConvex(vertices) && Up(vertices, p, i) && Down(vertices, p, j)
    requires Place(vertices, p, j) <= p.x < Place(vertices, p, i)
    ensures OnSomeSide(vertices, p) || LeftOfAll(vertices, p)
  {
    if p.x == Place(vertices, p, j) {
      OnWhereItPasses(vertices, p, j);
    } else {
      forall e: nat | e < |vertices|
        ensures OnSomeSide(vertices, p) || 0.0 < Cross(From(vertices, e), vertices[e], p)
      {
        BetweenIsLeft(vertices, p, i, j, e);
      }
    }
  }

  /** Whatever lies on the left of every side is crossed oddly, and whatever is crossed oddly lies there or
      on a side. */
  lemma OddConvex(vertices: seq<Point>, p: Point)
    requires StrictlyConvex(vertices)
    ensures LeftOfAll(vertices, p) ==> Around(vertices, Crossing(p)) % 2 == 1
    ensures Around(vertices, Crossing(p)) % 2 == 1 ==> OnSomeSide(vertices, p) || LeftOfAll(vertices, p)
  {
    if k: nat :| Passes(vertices, p, k) {
      var i, j := BothPass(vertices, p, k);
      CrossedBetween(vertices, p, i, j);
      if LeftOfAll(vertices, p) {
        LeftIsBetween(vertices, p, i, j);
      }
      if Place(vertices, p, j) <= p.x < Place(vertices, p, i) {
        BetweenIsInside(vertices, p, i, j);
      }
    } else {
      NoneCrossed(vertices, p);
      if LeftOfAll(vertices, p) {
        SomeSidePasses(vertices, p);
      }
    }
  }

  /** For a convex polygon whose vertices go round counter-clockwise: a point is inside exactly if it
      touches a side or lies on the left of every side. */
  lemma InsideConvex(vertices: seq<Point>, p: Point)
    requires StrictlyConvex(vertices)
    ensures Inside(vertices, p) <==> Touched(vertices, p) || LeftOfAll(vertices, p)
  {
    OddConvex(vertices, p);
    if OnSomeSide(vertices, p) {
      SomeSideIsTouched(vertices, p);
    }
  }

  /** Every triangle whose corners go round counter-clockwise is convex. */
  lemma TriangleIsConvex(a: Point, b: Point, c: Point)
    requires 0.0 < Cross(a, b, c)
    ensures StrictlyConvex([a, b, c])
  {
    assert Cross(b, c, a) == Cross(a, b, c) == Cross(c, a, b);
  }

  /* ---------------------------------------------------------------- clockwise */

  predicate RightOfAll(vertices: seq<Point>, p: Point) {
    forall i: nat | i < |vertices| :: Cross(From(vertices, i), vertices[i], p) < 0.0
  }

  lemma {:induction false} ReversedAt(s: seq<Point>, k: nat)
    requires k < |s|
    ensures Reversed(s)[k] == s[|s| - 1 - k]
  {
    if k != 0 {
      ReversedAt(s[..|s| - 1], k - 1);
    }
  }

  /** The side that the `i`th side of the reversed polygon is the reverse of. */
  function Opposite(n: nat, i: nat): nat
    requires i < n
  {
    if i == 0 then 0 else n - i
  }

  lemma ReversedPlaces(s: seq<Point>)
    ensures forall k | 0 <= k < |s| :: Reversed(s)[k] == s[|s| - 1 - k]
  {
    forall k | 0 <= k < |s|
      ensures Reversed(s)[k] == s[|s| - 1 - k]
    {
      ReversedAt(s, k);
    }
  }

  lemma ReversedSide(vertices: seq<Point>, turned: seq<Point>, i: nat)
    requires i < |vertices| == |turned| && forall k | 0 <= k < |turned| :: turned[k] == vertices[|vertices| - 1 - k]
    ensures var k := Opposite(|vertices|, i); From(turned, i) == vertices[k] && turned[i] == From(vertices, k)
  {
  }

  lemma RightIsLeftOfReversed(vertices: seq<Point>, p: Point)
    ensures RightOfAll(vertices, p) <==> LeftOfAll(Reversed(vertices), p)
  {
    ReversedPlaces(vertices);
    forall i: nat | i < |vertices|
      ensures var k := Opposite(|vertices|, i);
        && (0.0 < Cross(From(Reversed(vertices), i), Reversed(vertices)[i], p) <==> Cross(From(vertices, k), vertices[k], p) < 0.0)
        && Opposite(|vertices|, k) == i
    {
      var k := Opposite(|vertices|, i);
      ReversedSide(vertices, Reversed(vertices), i);
      CrossTurns(From(vertices, k), vertices[k], p);
    }
    if LeftOfAll(Reversed(vertices), p) {
      forall k: nat | k < |vertices|
        ensures Cross(From(vertices, k), vertices[k], p) < 0.0
      {
        var i := Opposite(|vertices|, k);
        assert 0.0 < Cross(From(Reversed(vertices), i), Reversed(vertices)[i], p);
      }
    }
  }

  /** If the vertices go round clockwise, the inside is on the right of every side. */
  lemma InsideClockwise(vertices: seq<Point>, p: Point)
    requires StrictlyConvex(Reversed(vertices))
    ensures Inside(vertices, p) <==> Touched(vertices, p) || RightOfAll(vertices, p)
  {
    InsideConvex(Reversed(vertices), p);
    SidesTurn(p);
    ReversalKeepsSum(vertices, Touching(p));
    ReversalKeepsSum(vertices, Crossing(p));
    RightIsLeftOfReversed(vertices, p);
  }
}
