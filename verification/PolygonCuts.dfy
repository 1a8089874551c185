/** What the crossing count means for any polygon: cut it into triangles and count those that hold
    the point. */
module PolygonCuts {
  import opened Convex
  import opened Polygon

  /* ---------------------------------------------------------------- cutting along a chord */

  /** The part of a polygon from vertex `i` to vertex `j`, closed by the chord between them. */
  function Between(vertices: seq<Point>, i: nat, j: nat): seq<Point>
    requires i <= j < |vertices|
  {
    vertices[i..j + 1]
  }

  /** The other part, closed by the same chord. */
  function Beyond(vertices: seq<Point>, i: nat, j: nat): seq<Point>
    requires i <= j < |vertices|
  {
    vertices[..i + 1] + vertices[j..]
  }

  lemma {:induction false} AlongSplit(chain: seq<Point>, f: Side, k: nat)
    requires k < |chain|
    ensures Along(chain, f) == Along(chain[..k + 1], f) + Along(chain[k..], f)
  {
    var before, at, after := chain[..k], [chain[k]], chain[k + 1..];
    assert chain[..k + 1] == before + at && chain[k..] == at + after;
    if k != 0 {
      AlongJoin(before, at, f);
    } else {
      assert chain[..1] == at && chain[0..] == chain;
    }
    if after != [] && k != 0 {
      assert chain == before + chain[k..];
      AlongJoin(before, chain[k..], f);
    } else if after == [] {
      assert chain[..k + 1] == chain;
    }
  }

  /** Both parts together have the sides of the whole and the chord twice. */
  lemma CutSums(vertices: seq<Point>, f: Side, i: nat, j: nat)
    requires i < j < |vertices|
    ensures Around(Between(vertices, i, j), f) + Around(Beyond(vertices, i, j), f)
         == Around(vertices, f) + f(vertices[i], vertices[j]) + f(vertices[j], vertices[i])
  {
    AlongSplit(vertices, f, j);
    AlongSplit(vertices[..j + 1], f, i);
    assert vertices[..j + 1][..i + 1] == vertices[..i + 1];
    AlongJoin(vertices[..i + 1], vertices[j..], f);
  }

  lemma OddOfTwo(one: nat, other: nat, whole: nat, chord: nat)
    requires one + other == whole + 2 * chord
    ensures whole % 2 == 1 <==> (one % 2 == 1) != (other % 2 == 1)
  {
    assert (one + other) % 2 == whole % 2;
  }

  lemma CutCrossings(vertices: seq<Point>, p: Point, i: nat, j: nat)
    requires i < j < |vertices|
    ensures Around(vertices, Crossing(p)) % 2 == 1 <==>
            (Around(Between(vertices, i, j), Crossing(p)) % 2 == 1) != (Around(Beyond(vertices, i, j), Crossing(p)) % 2 == 1)
  {
    CutSums(vertices, Crossing(p), i, j);
    CrossesTurns(vertices[i], vertices[j], p);
    OddOfTwo(Around(Between(vertices, i, j), Crossing(p)), Around(Beyond(vertices, i, j), Crossing(p)),
             Around(vertices, Crossing(p)), Crossing(p)(vertices[i], vertices[j]));
  }

  /** If a polygon is cut along a chord between two of its vertices, then of the points on no border,
      the whole holds exactly those that one part holds and the other does not. */
  lemma Cutting(vertices: seq<Point>, p: Point, i: nat, j: nat)
    requires i < j < |vertices| && !Touched(vertices, p) && !OnSegment(vertices[i], vertices[j], p)
    ensures !Touched(Between(vertices, i, j), p) && !Touched(Beyond(vertices, i, j), p)
    ensures Inside(vertices, p) <==> (Inside(Between(vertices, i, j), p) != Inside(Beyond(vertices, i, j), p))
  {
    CutSums(vertices, Touching(p), i, j);
    OnSegmentTurns(vertices[i], vertices[j], p);
    CutCrossings(vertices, p, i, j);
  }

  /* ---------------------------------------------------------------- triangles */

  /** The point is on the left of all three sides, or on the right of all three. */
  predicate InTriangle(a: Point, b: Point, c: Point, p: Point) {
    || (0.0 < Cross(a, b, p) && 0.0 < Cross(b, c, p) && 0.0 < Cross(c, a, p))
    || (Cross(a, b, p) < 0.0 && Cross(b, c, p) < 0.0 && Cross(c, a, p) < 0.0)
  }

  /** The three areas add up to that of the triangle. */
  lemma AreasAddUp(a: Point, b: Point, c: Point, p: Point)
    ensures Cross(a, b, p) + Cross(b, c, p) + Cross(c, a, p) == Cross(a, b, c)
  {
  }

  lemma TriangleAround(a: Point, b: Point, c: Point, f: Side)
    ensures Around([a, b, c], f) == f(a, b) + f(b, c) + f(c, a)
  {
    assert [a, b, c][..2] == [a, b] && [a, b][..1] == [a];
    assert Along([a], f) == 0;
    assert Along([a, b], f) == f(a, b);
  }

  lemma TriangleSides(a: Point, b: Point, c: Point, p: Point)
    ensures LeftOfAll([a, b, c], p) <==> 0.0 < Cross(a, b, p) && 0.0 < Cross(b, c, p) && 0.0 < Cross(c, a, p)
    ensures RightOfAll([a, b, c], p) <==> Cross(a, b, p) < 0.0 && Cross(b, c, p) < 0.0 && Cross(c, a, p) < 0.0
  {
    var t := [a, b, c];
    assert From(t, 0) == c && From(t, 1) == a && From(t, 2) == b;
    if LeftOfAll(t, p) {
      assert 0.0 < Cross(From(t, 0), t[0], p) && 0.0 < Cross(From(t, 1), t[1], p) && 0.0 < Cross(From(t, 2), t[2], p);
    }
    if RightOfAll(t, p) {
      assert Cross(From(t, 0), t[0], p) < 0.0 && Cross(From(t, 1), t[1], p) < 0.0 && Cross(From(t, 2), t[2], p) < 0.0;
    }
  }

  lemma ReversedTriangle(a: Point, b: Point, c: Point)
    ensures Reversed([a, b, c]) == [c, b, a]
  {
    ReversedPlaces([a, b, c]);
  }

  /** Three points of one line, and a fourth that is on the line of the first two. */
  lemma SameLine(a: Point, b: Point, c: Point, q: Point)
    requires Cross(a, b, c) == 0.0 && Cross(a, b, q) == 0.0 && a.y != b.y
    ensures Cross(b, c, q) == 0.0
  {
    var x, y, u, v, w, z := b.x - a.x, b.y - a.y, c.x - b.x, c.y - b.y, q.x - b.x, q.y - b.y;
    assert x * v == y * u;
    assert x * z == y * w;
    Parallel(x, y, u, v, w, z);
  }

  lemma Parallel(x: real, y: real, u: real, v: real, w: real, z: real)
    requires x * v == y * u && x * z == y * w && y != 0.0
    ensures u * z - v * w == 0.0
  {
    assert y * (u * z - v * w) == (y * u) * z - v * (y * w);
    assert (x * v) * z == v * (x * z);
    SameTimes(u * z - v * w, 0.0, y);
  }

  lemma SameMeeting(a: Point, b: Point, c: Point, p: Point)
    requires Cross(a, b, c) == 0.0 && Straddles(a, b, p) && Straddles(b, c, p)
    ensures Meeting(a, b, p) == Meeting(b, c, p)
  {
    var x := Meeting(a, b, p);
    LeftMeans(a, b, p, x);
    SameLine(a, b, c, Point(x, p.y));
    LeftMeans(b, c, p, x);
  }

  /** A triangle without an inside is crossed at one place, twice or not at all. */
  lemma FlatIsCrossedEvenly(a: Point, b: Point, c: Point, p: Point)
    requires Cross(a, b, c) == 0.0
    ensures (Crossing(p)(a, b) + Crossing(p)(b, c) + Crossing(p)(c, a)) % 2 == 0
  {
    assert Cross(b, c, a) == 0.0 && Cross(c, a, b) == 0.0;
    if Straddles(a, b, p) && Straddles(b, c, p) {
      SameMeeting(a, b, c, p);
    } else if Straddles(b, c, p) && Straddles(c, a, p) {
      SameMeeting(b, c, a, p);
    } else if Straddles(c, a, p) && Straddles(a, b, p) {
      SameMeeting(c, a, b, p);
    }
  }

  lemma OnTurns(a: Point, b: Point, p: Point)
    ensures On(b, a, p) == On(a, b, p)
  {
    CrossTurns(a, b, p);
  }

  lemma OffTriangle(a: Point, b: Point, c: Point, p: Point)
    requires !On(a, b, p) && !On(b, c, p) && !On(c, a, p)
    ensures !OnSomeSide([a, b, c], p)
  {
    var t := [a, b, c];
    assert From(t, 0) == c && From(t, 1) == a && From(t, 2) == b;
  }

  lemma OddLeft(a: Point, b: Point, c: Point, p: Point)
    requires 0.0 < Cross(a, b, c) && !On(a, b, p) && !On(b, c, p) && !On(c, a, p)
    ensures Around([a, b, c], Crossing(p)) % 2 == 1 <==> InTriangle(a, b, c, p)
  {
    AreasAddUp(a, b, c, p);
    TriangleSides(a, b, c, p);
    TriangleIsConvex(a, b, c);
    OffTriangle(a, b, c, p);
    OddConvex([a, b, c], p);
  }

  lemma TriangleTurns(a: Point, b: Point, c: Point)
    ensures Cross(c, b, a) == -Cross(a, b, c)
  {
    TurnedProducts(b.x - a.x, b.y - a.y, c.x - a.x, c.y - a.y);
    assert b.x - c.x == (b.x - a.x) - (c.x - a.x) && b.y - c.y == (b.y - a.y) - (c.y - a.y);
    assert a.x - c.x == -(c.x - a.x) && a.y - c.y == -(c.y - a.y);
  }

  lemma TurnedProducts(u: real, v: real, x: real, y: real)
    ensures (u - x) * (-y) - (v - y) * (-x) == -(u * y - v * x)
  {
  }

  lemma OddRight(a: Point, b: Point, c: Point, p: Point)
    requires Cross(a, b, c) < 0.0 && !On(a, b, p) && !On(b, c, p) && !On(c, a, p)
    ensures Around([a, b, c], Crossing(p)) % 2 == 1 <==> InTriangle(a, b, c, p)
  {
    TriangleTurns(a, b, c);
    OnTurns(a, b, p);
    OnTurns(b, c, p);
    OnTurns(c, a, p);
    OddLeft(c, b, a, p);
    ReversedTriangle(a, b, c);
    SidesTurn(p);
    ReversalKeepsSum([a, b, c], Crossing(p));
    CrossTurns(a, b, p);
    CrossTurns(b, c, p);
    CrossTurns(c, a, p);
  }

  /** The ray from a point on no side of a triangle crosses oddly exactly if the triangle holds the point. */
  lemma OddTriangle(a: Point, b: Point, c: Point, p: Point)
    requires !On(a, b, p) && !On(b, c, p) && !On(c, a, p)
    ensures Around([a, b, c], Crossing(p)) % 2 == 1 <==> InTriangle(a, b, c, p)
  {
    if 0.0 < Cross(a, b, c) {
      OddLeft(a, b, c, p);
    } else if Cross(a, b, c) < 0.0 {
      OddRight(a, b, c, p);
    } else {
      AreasAddUp(a, b, c, p);
      TriangleAround(a, b, c, Crossing(p));
      FlatIsCrossedEvenly(a, b, c, p);
    }
  }

  /* ---------------------------------------------------------------- all triangles around a point */

  /** The triangles between `q` and a side that hold the point, by the number of the side. */
  function Holding(vertices: seq<Point>, q: Point, p: Point, n: nat): set<nat>
    requires n <= |vertices|
  {
    set k: nat | k < n && InTriangle(q, From(vertices, k), vertices[k], p)
  }

  /** The point is on no line from `q` to a vertex. */
  predicate OffTheLines(vertices: seq<Point>, q: Point, p: Point) {
    forall k: nat | k < |vertices| :: !On(q, vertices[k], p)
  }

  /** The sum over the sides of the first `n` triangles. */
  function SumTriangles(vertices: seq<Point>, q: Point, f: Side, n: nat): nat
    requires n <= |vertices|
  {
    if n == 0 then 0 else SumTriangles(vertices, q, f, n - 1) + SumTriangle(q, From(vertices, n - 1), vertices[n - 1], f)
  }

  function SumTriangle(a: Point, b: Point, c: Point, f: Side): nat {
    f(a, b) + f(b, c) + f(c, a)
  }

  /** Every line from `q` belongs to two triangles. */
  lemma {:induction false} LinesCountTwice(vertices: seq<Point>, q: Point, f: Side, n: nat) returns (lines: nat)
    requires 1 <= n <= |vertices| && Symmetric(f)
    ensures SumTriangles(vertices, q, f, n) + f(q, vertices[n - 1])
         == SumSides(vertices, f, n) + f(q, vertices[|vertices| - 1]) + 2 * lines
  {
    var last := vertices[n - 1];
    assert f(last, q) == f(q, last);
    if n == 1 {
      assert SumTriangles(vertices, q, f, 0) == 0 && SumSides(vertices, f, 0) == 0;
      lines := f(q, last);
    } else {
      var fewer := LinesCountTwice(vertices, q, f, n - 1);
      lines := fewer + f(q, last);
    }
  }

  lemma HoldingStep(vertices: seq<Point>, q: Point, p: Point, n: nat, next: nat)
    requires n < |vertices| && next == n + 1
    ensures |Holding(vertices, q, p, next)|
         == |Holding(vertices, q, p, n)| + if InTriangle(q, From(vertices, n), vertices[n], p) then 1 else 0
  {
    var fewer := Holding(vertices, q, p, n);
    assert n !in fewer;
    assert Holding(vertices, q, p, next)
        == if InTriangle(q, From(vertices, n), vertices[n], p) then fewer + {n} else fewer;
  }

  /** The sides of this triangle count oddly exactly if the triangle holds the point. */
  predicate CountsOddly(sum: nat, holds: bool) {
    if holds then sum == 1 || sum == 3 else sum == 0 || sum == 2
  }

  lemma {:induction false} OddTriangles(vertices: seq<Point>, q: Point, p: Point, f: Side, n: nat) returns (half: int)
    requires n <= |vertices|
    requires forall k: nat | k < n ::
               CountsOddly(SumTriangle(q, From(vertices, k), vertices[k], f), InTriangle(q, From(vertices, k), vertices[k], p))
    ensures SumTriangles(vertices, q, f, n) == |Holding(vertices, q, p, n)| + 2 * half
  {
    if n == 0 {
      assert Holding(vertices, q, p, 0) == {};
      half := 0;
    } else {
      var last: nat := n - 1;
      var fewer := OddTriangles(vertices, q, p, f, last);
      HoldingStep(vertices, q, p, last, n);
      half := fewer + if SumTriangle(q, From(vertices, last), vertices[last], f) < 2 then 0 else 1;
    }
  }

  lemma TriangleIsOdd(a: Point, b: Point, c: Point, p: Point)
    requires !On(a, b, p) && !On(b, c, p) && !On(c, a, p)
    ensures CountsOddly(SumTriangle(a, b, c, Crossing(p)), InTriangle(a, b, c, p))
  {
    TriangleAround(a, b, c, Crossing(p));
    OddTriangle(a, b, c, p);
  }

  lemma TrianglesAreOdd(vertices: seq<Point>, q: Point, p: Point)
    requires !OnSomeSide(vertices, p) && OffTheLines(vertices, q, p)
    ensures forall k: nat | k < |vertices| ::
              CountsOddly(SumTriangle(q, From(vertices, k), vertices[k], Crossing(p)),
                          InTriangle(q, From(vertices, k), vertices[k], p))
  {
    forall k: nat | k < |vertices|
      ensures CountsOddly(SumTriangle(q, From(vertices, k), vertices[k], Crossing(p)),
                          InTriangle(q, From(vertices, k), vertices[k], p))
    {
      var a, b := From(vertices, k), vertices[k];
      assert a == vertices[Before(|vertices|, k)];
      OnTurns(q, b, p);
      TriangleIsOdd(q, a, b, p);
    }
  }

  lemma SameParity(held: nat, crossed: nat, pairs: int)
    requires held == crossed + 2 * pairs
    ensures held % 2 == crossed % 2
  {
  }

  /** A point that touches no side is inside exactly if an odd number of the triangles between the sides
      and any one point `q` hold it. With a vertex for `q` these are the triangles of a fan. */
  lemma InsideIsOdd(vertices: seq<Point>, q: Point, p: Point)
    requires vertices != [] && !Touched(vertices, p) && OffTheLines(vertices, q, p)
    ensures Inside(vertices, p) <==> |Holding(vertices, q, p, |vertices|)| % 2 == 1
  {
    var n := |vertices|;
    SidesTurn(p);
    if OnSomeSide(vertices, p) {
      SomeSideIsTouched(vertices, p);
    }
    var lines := LinesCountTwice(vertices, q, Crossing(p), n);
    TrianglesAreOdd(vertices, q, p);
    var half := OddTriangles(vertices, q, p, Crossing(p), n);
    AroundIsSum(vertices, Crossing(p));
    SameParity(|Holding(vertices, q, p, n)|, Around(vertices, Crossing(p)), lines - half);
  }

  /* ---------------------------------------------------------------- some point sees all vertices */

  /** Seen from the point, no vertex is as steep as this. */
  predicate Steeper(m: real, v: Point, p: Point) {
    v.x != p.x ==> Abs(v.y - p.y) < m * Abs(v.x - p.x)
  }

  lemma StillSteeper(m: real, more: real, v: Point, p: Point)
    requires Steeper(m, v, p) && m <= more
    ensures Steeper(more, v, p)
  {
    NotNegative(more - m, Abs(v.x - p.x));
    Distributed(more, m, Abs(v.x - p.x));
  }

  lemma Distributed(a: real, b: real, c: real)
    ensures (a - b) * c == a * c - b * c
  {
  }

  lemma SteepEnough(v: Point, p: Point) returns (m: real)
    ensures Steeper(m, v, p)
  {
    m := 0.0;
    if v.x != p.x {
      var rise, run := Abs(v.y - p.y), Abs(v.x - p.x);
      var slope := rise / run;
      Divided(rise, run);
      m := slope + 1.0;
      OneMoreRun(m, slope, run);
    }
  }

  lemma OneMoreRun(m: real, slope: real, run: real)
    requires m == slope + 1.0
    ensures m * run == slope * run + run
  {
  }

  lemma {:induction false} Steepest(vertices: seq<Point>, p: Point) returns (m: real)
    ensures forall v | v in vertices :: Steeper(m, v, p)
  {
    if vertices == [] {
      m := 0.0;
    } else {
      var rest := Steepest(vertices[1..], p);
      var first := SteepEnough(vertices[0], p);
      m := Max(rest, first);
      StillSteeper(first, m, vertices[0], p);
      forall v | v in vertices[1..]
        ensures Steeper(m, v, p)
      {
        StillSteeper(rest, m, v, p);
      }
    }
  }

  lemma SeesPast(q: Point, v: Point, p: Point, m: real)
    requires Steeper(m, v, p) && v != p && q == Point(p.x + 1.0, p.y + m)
    ensures Cross(q, v, p) != 0.0
  {
    var run, rise := v.x - p.x, v.y - p.y;
    SlantedCross(run, rise, m);
    assert Cross(q, v, p) == (run - 1.0) * (-m) - (rise - m) * (-1.0);
    if run < 0.0 {
      Commute(m, run);
      assert m * (-run) == -(m * run);
    }
  }

  lemma SlantedCross(run: real, rise: real, m: real)
    ensures (run - 1.0) * (-m) - (rise - m) * (-1.0) == rise - m * run
  {
  }

  /** So every point that touches no side is told by some `q`, and all of them tell alike. */
  lemma SomePointTells(vertices: seq<Point>, p: Point) returns (q: Point)
    requires vertices != [] && !Touched(vertices, p)
    ensures OffTheLines(vertices, q, p)
    ensures Inside(vertices, p) <==> |Holding(vertices, q, p, |vertices|)| % 2 == 1
  {
    var m := Steepest(vertices, p);
    q := Point(p.x + 1.0, p.y + m);
    forall k: nat | k < |vertices|
      ensures !On(q, vertices[k], p)
    {
      if vertices[k] == p {
        CornersHaveNoCross(From(vertices, k), p);
        StraightInTheBox(From(vertices, k), p, p);
        TouchedAt(vertices, p, k);
      }
      SeesPast(q, vertices[k], p, m);
    }
    InsideIsOdd(vertices, q, p);
  }
}
