/** Whether a point lies in a polygon or on its border, by counting crossings of a ray. */
module Polygon {
  datatype Point = Point(x: real, y: real)

  datatype Result = Answer(inside: bool) | TooFewVertices

  const TOLERANCE: real := 0.000000000001

  function Abs(a: real): real {
    if a < 0.0 then -a else a
  }

  function Max(a: real, b: real): real {
    if a < b then b else a
  }

  function Min(a: real, b: real): real {
    if a < b then a else b
  }

  /* ---------------------------------------------------------------- one side */

  /** The greatest magnitude among the coordinates at hand, but at least 1. */
  function SideScale(a: Point, b: Point, p: Point): real {
    Max(Abs(a.x), Max(Abs(a.y), Max(Abs(b.x), Max(Abs(b.y), Max(Abs(p.x), Max(Abs(p.y), 1.0))))))
  }

  /** Twice the signed area of the triangle. */
  function Cross(a: Point, b: Point, p: Point): real {
    (b.x - a.x) * (p.y - a.y) - (b.y - a.y) * (p.x - a.x)
  }

  /** The area is nearly nothing, and the point is nearly in the box around the side. */
  predicate Close(cross: real, scale: real, a: Point, b: Point, p: Point) {
    var slack := scale * TOLERANCE;
    && Abs(cross) <= scale * scale * TOLERANCE
    && Min(a.x, b.x) - slack <= p.x <= Max(a.x, b.x) + slack
    && Min(a.y, b.y) - slack <= p.y <= Max(a.y, b.y) + slack
  }

  predicate OnSegment(a: Point, b: Point, p: Point) {
    Close(Cross(a, b, p), SideScale(a, b, p), a, b, p)
  }

  /** One end lies above the height of the point and the other does not. */
  predicate Straddles(a: Point, b: Point, p: Point) {
    (a.y > p.y) != (b.y > p.y)
  }

  /** Where the side is at the height of the point. */
  function Meeting(a: Point, b: Point, p: Point): real
    requires b.y != a.y
  {
    (b.x - a.x) * (p.y - a.y) / (b.y - a.y) + a.x
  }

  predicate Crosses(a: Point, b: Point, p: Point) {
    Straddles(a, b, p) && p.x < Meeting(a, b, p)
  }

  /** No coordinate has a greater magnitude, and it is at least 1. */
  predicate Bounds(scale: real, a: Point, b: Point, p: Point) {
    && 1.0 <= scale
    && -scale <= a.x <= scale && -scale <= a.y <= scale && -scale <= b.x <= scale && -scale <= b.y <= scale
    && -scale <= p.x <= scale && -scale <= p.y <= scale
  }

  lemma ScaleIsLeast(a: Point, b: Point, p: Point)
    ensures Bounds(SideScale(a, b, p), a, b, p)
    ensures forall scale | Bounds(scale, a, b, p) :: SideScale(a, b, p) <= scale
  {
  }

  /** A point touches a side if the area of their triangle is at most a 10^12th of the square of the
      scale, and the point leaves the box around the side by at most a 10^12th of the scale each way.
      The scale is the least bound of all coordinates. */
  lemma TouchingMeans(a: Point, b: Point, p: Point, scale: real, slack: real)
    requires Bounds(scale, a, b, p) && forall other | Bounds(other, a, b, p) :: scale <= other
    requires slack == scale * 0.000000000001
    ensures OnSegment(a, b, p) <==>
            && -(scale * slack) <= Cross(a, b, p) <= scale * slack
            && (a.x <= p.x + slack || b.x <= p.x + slack) && (p.x <= a.x + slack || p.x <= b.x + slack)
            && (a.y <= p.y + slack || b.y <= p.y + slack) && (p.y <= a.y + slack || p.y <= b.y + slack)
  {
    ScaleIsLeast(a, b, p);
    assert scale == SideScale(a, b, p);
    ShareOfSquare(scale, slack);
    CloseMeans(Cross(a, b, p), scale, slack, a, b, p);
  }

  lemma ShareOfSquare(scale: real, slack: real)
    requires slack == scale * TOLERANCE
    ensures scale * scale * TOLERANCE == scale * slack
  {
  }

  lemma CloseMeans(area: real, scale: real, slack: real, a: Point, b: Point, p: Point)
    requires slack == scale * TOLERANCE && 0.0 <= slack && scale * scale * TOLERANCE == scale * slack
    ensures Close(area, scale, a, b, p) <==>
            && -(scale * slack) <= area <= scale * slack
            && (a.x <= p.x + slack || b.x <= p.x + slack) && (p.x <= a.x + slack || p.x <= b.x + slack)
            && (a.y <= p.y + slack || b.y <= p.y + slack) && (p.y <= a.y + slack || p.y <= b.y + slack)
  {
  }

  lemma CrossTurns(a: Point, b: Point, p: Point)
    ensures Cross(b, a, p) == -Cross(a, b, p)
  {
  }

  lemma ScaleTurns(a: Point, b: Point, p: Point)
    ensures SideScale(b, a, p) == SideScale(a, b, p)
  {
  }

  lemma CloseTurns(cross: real, scale: real, a: Point, b: Point, p: Point)
    ensures Close(-cross, scale, b, a, p) == Close(cross, scale, a, b, p)
  {
  }

  lemma OnSegmentTurns(a: Point, b: Point, p: Point)
    ensures OnSegment(b, a, p) == OnSegment(a, b, p)
  {
    CrossTurns(a, b, p);
    ScaleTurns(a, b, p);
    CloseTurns(Cross(a, b, p), SideScale(a, b, p), a, b, p);
  }

  lemma Quotient(t: real, height: real, total: real)
    requires t * total == height && total != 0.0
    requires (0.0 < total && 0.0 <= height <= total) || (total < 0.0 && total <= height <= 0.0)
    ensures 0.0 <= t <= 1.0
  {
  }

  /** A straddling side meets the height of the point between its ends. */
  lemma MeetingIsBetween(a: Point, b: Point, p: Point)
    requires Straddles(a, b, p)
    ensures Min(a.x, b.x) <= Meeting(a, b, p) <= Max(a.x, b.x)
  {
    var height, total, width := p.y - a.y, b.y - a.y, b.x - a.x;
    var t := height / total;
    Divided(height, total);
    Quotient(t, height, total);
    var part := PartOf(width, t);
    BetweenEnds(a.x, b.x, part);
    PartIsProduct(width, height, total, t, part);
    MeetingIs(a, b, p, part);
  }

  lemma PartIsProduct(width: real, height: real, total: real, t: real, part: real)
    requires total != 0.0 && t == height / total && part == width * t
    ensures width * height / total == part
  {
    DividedProduct(width, height, total);
  }

  lemma MeetingIs(a: Point, b: Point, p: Point, part: real)
    requires b.y != a.y && (b.x - a.x) * (p.y - a.y) / (b.y - a.y) == part
    ensures Meeting(a, b, p) == part + a.x
  {
  }

  lemma Divided(height: real, total: real)
    requires total != 0.0
    ensures (height / total) * total == height
  {
  }

  lemma DividedProduct(width: real, height: real, total: real)
    requires total != 0.0
    ensures width * height / total == width * (height / total)
  {
  }

  lemma PartOf(width: real, t: real) returns (part: real)
    requires 0.0 <= t <= 1.0
    ensures part == width * t
    ensures 0.0 <= width ==> 0.0 <= part <= width
    ensures width < 0.0 ==> width <= part <= 0.0
  {
    part := width * t;
    if 0.0 <= width {
      Shrunk(width, t);
    } else {
      Shrunk(-width, t);
      assert (-width) * t == -part;
    }
  }

  lemma Shrunk(width: real, t: real)
    requires 0.0 <= t <= 1.0 && 0.0 <= width
    ensures 0.0 <= width * t <= width
  {
  }

  lemma BetweenEnds(from: real, to: real, part: real)
    requires 0.0 <= to - from ==> 0.0 <= part <= to - from
    requires to - from < 0.0 ==> to - from <= part <= 0.0
    ensures Min(from, to) <= part + from <= Max(from, to)
  {
  }

  /** The side meets that height in the same place, whichever end comes first. */
  lemma MeetingTurns(a: Point, b: Point, p: Point)
    requires Straddles(a, b, p)
    ensures Meeting(b, a, p) == Meeting(a, b, p)
  {
    var width, height, total := b.x - a.x, p.y - a.y, b.y - a.y;
    OtherEnd(width, height, total);
    assert (a.x - b.x) * (p.y - b.y) == (-width) * (height - total) && a.y - b.y == -total;
  }

  lemma OtherEnd(width: real, height: real, total: real)
    requires total != 0.0
    ensures (-width) * (height - total) / (-total) == width * height / total - width
  {
    calc {
      (-width) * (height - total) / (-total);
    ==  { assert (-width) * (height - total) == -(width * height - width * total); }
      (-(width * height - width * total)) / (-total);
    ==  { BothNegative(width * height - width * total, total); }
      (width * height - width * total) / total;
    ==  { DifferenceDivided(width * height, width, total); }
      width * height / total - width;
    }
  }

  lemma BothNegative(n: real, d: real)
    requires d != 0.0
    ensures (-n) / (-d) == n / d
  {
    Divided(n, d);
    Divided(-n, -d);
    SameTimes((-n) / (-d), n / d, d);
  }

  lemma DifferenceDivided(n: real, w: real, d: real)
    requires d != 0.0
    ensures (n - w * d) / d == n / d - w
  {
    Divided(n, d);
    Divided(n - w * d, d);
    SameTimes((n - w * d) / d, n / d - w, d);
  }

  lemma SameTimes(x: real, y: real, d: real)
    requires d != 0.0 && x * d == y * d
    ensures x == y
  {
    assert (x - y) * d == 0.0;
  }

  lemma CrossesTurns(a: Point, b: Point, p: Point)
    ensures Crosses(b, a, p) == Crosses(a, b, p)
  {
    if Straddles(a, b, p) {
      MeetingTurns(a, b, p);
    }
  }

  /* ---------------------------------------------------------------- all sides */

  type Side = (Point, Point) -> nat

  /** 1 for a side the point lies on. */
  function Touching(p: Point): Side {
    (a, b) => if OnSegment(a, b, p) then 1 else 0
  }

  /** 1 for a side the ray from the point crosses. */
  function Crossing(p: Point): Side {
    (a, b) => if Crosses(a, b, p) then 1 else 0
  }

  /** The sum over the sides of an open chain of vertices. */
  function Along(chain: seq<Point>, f: Side): nat {
    if |chain| < 2 then 0 else Along(chain[..|chain| - 1], f) + f(chain[|chain| - 2], chain[|chain| - 1])
  }

  /** The sum over all sides of the polygon, the one that closes it included. */
  function Around(vertices: seq<Point>, f: Side): nat
    requires vertices != []
  {
    f(vertices[|vertices| - 1], vertices[0]) + Along(vertices, f)
  }

  predicate Inside(vertices: seq<Point>, p: Point)
    requires vertices != []
  {
    Around(vertices, Touching(p)) != 0 || Around(vertices, Crossing(p)) % 2 == 1
  }

  /** Goes round the polygon looking for a side the point lies on. */
  method OnBorder(vertices: seq<Point>, p: Point) returns (touched: bool)
    requires vertices != []
    ensures touched <==> Around(vertices, Touching(p)) != 0
  {
    var j := |vertices| - 1;
    for i := 0 to |vertices|
      invariant j == if i == 0 then |vertices| - 1 else i - 1
      invariant i != 0 ==> Touching(p)(vertices[|vertices| - 1], vertices[0]) + Along(vertices[..i], Touching(p)) == 0
    {
      assert i != 0 ==> vertices[..i + 1][..i] == vertices[..i];
      if OnSegment(vertices[j], vertices[i], p) {
        TouchedSomewhere(vertices, p, i);
        return true;
      }
      j := i;
    }
    assert vertices[..|vertices|] == vertices;
    return false;
  }

  /** Goes round the polygon, changing its mind at every crossing. */
  method OddlyCrossed(vertices: seq<Point>, p: Point) returns (inside: bool)
    requires vertices != []
    ensures inside <==> Around(vertices, Crossing(p)) % 2 == 1
  {
    inside := false;
    var j := |vertices| - 1;
    for i := 0 to |vertices|
      invariant j == if i == 0 then |vertices| - 1 else i - 1
      invariant i == 0 ==> !inside
      invariant i != 0 ==>
        inside == ((Crossing(p)(vertices[|vertices| - 1], vertices[0]) + Along(vertices[..i], Crossing(p))) % 2 == 1)
    {
      assert i != 0 ==> vertices[..i + 1][..i] == vertices[..i];
      CrossesTurns(vertices[i], vertices[j], p);
      if Crosses(vertices[i], vertices[j], p) {
        inside := !inside;
      }
      j := i;
    }
    assert vertices[..|vertices|] == vertices;
  }

  /** First the border, then the number of crossings. */
  method ContainsPoint(vertices: seq<Point>, p: Point) returns (r: Result)
    ensures r.TooFewVertices? <==> |vertices| < 3
    ensures r.Answer? ==> r.inside == Inside(vertices, p)
  {
    if |vertices| < 3 {
      return TooFewVertices;
    }
    var touched := OnBorder(vertices, p);
    if touched {
      return Answer(true);
    }
    var odd := OddlyCrossed(vertices, p);
    return Answer(odd);
  }

  lemma {:induction false} PartOfChain(chain: seq<Point>, f: Side, i: nat)
    requires 0 < i < |chain|
    ensures f(chain[i - 1], chain[i]) <= Along(chain, f)
  {
    if i < |chain| - 1 {
      PartOfChain(chain[..|chain| - 1], f, i);
    }
  }

  lemma TouchedSomewhere(vertices: seq<Point>, p: Point, i: nat)
    requires i < |vertices| && OnSegment(vertices[if i == 0 then |vertices| - 1 else i - 1], vertices[i], p)
    ensures Around(vertices, Touching(p)) != 0
  {
    if i != 0 {
      PartOfChain(vertices, Touching(p), i);
    }
  }

  /* ---------------------------------------------------------------- rotation and reversal */

  lemma {:induction false} AlongJoin(a: seq<Point>, b: seq<Point>, f: Side)
    requires a != [] && b != []
    ensures Along(a + b, f) == Along(a, f) + f(a[|a| - 1], b[0]) + Along(b, f)
  {
    var whole := a + b;
    assert whole[..|whole| - 1] == a + b[..|b| - 1];
    if |b| == 1 {
      assert a + b[..0] == a;
    } else {
      AlongJoin(a, b[..|b| - 1], f);
    }
  }

  /** It does not matter at which vertex the list starts. */
  lemma RotationKeepsSum(a: seq<Point>, b: seq<Point>, f: Side)
    requires a != [] && b != []
    ensures Around(b + a, f) == Around(a + b, f)
  {
    AlongJoin(a, b, f);
    AlongJoin(b, a, f);
  }

  function Reversed(s: seq<Point>): (r: seq<Point>)
    ensures |r| == |s|
  {
    if s == [] then [] else [s[|s| - 1]] + Reversed(s[..|s| - 1])
  }

  lemma {:induction false} ReversedEnds(s: seq<Point>)
    requires s != []
    ensures Reversed(s)[0] == s[|s| - 1] && Reversed(s)[|s| - 1] == s[0]
  {
    if |s| > 1 {
      ReversedEnds(s[..|s| - 1]);
    }
  }

  ghost predicate Symmetric(f: Side) {
    forall a, b :: f(a, b) == f(b, a)
  }

  lemma {:induction false} ReversalKeepsAlong(chain: seq<Point>, f: Side)
    requires Symmetric(f)
    ensures Along(Reversed(chain), f) == Along(chain, f)
  {
    if |chain| > 1 {
      var last := |chain| - 1;
      ReversalKeepsAlong(chain[..last], f);
      ReversedEnds(chain[..last]);
      AlongJoin([chain[last]], Reversed(chain[..last]), f);
    }
  }

  /** Nor in which direction it goes round. */
  lemma ReversalKeepsSum(vertices: seq<Point>, f: Side)
    requires vertices != [] && Symmetric(f)
    ensures Around(Reversed(vertices), f) == Around(vertices, f)
  {
    ReversalKeepsAlong(vertices, f);
    ReversedEnds(vertices);
  }

  lemma SidesTurn(p: Point)
    ensures Symmetric(Touching(p)) && Symmetric(Crossing(p))
  {
    forall a, b
      ensures Touching(p)(a, b) == Touching(p)(b, a) && Crossing(p)(a, b) == Crossing(p)(b, a)
    {
      OnSegmentTurns(a, b, p);
      CrossesTurns(a, b, p);
    }
  }

  /** The answer does not depend on where the list of vertices starts, nor on its direction. */
  lemma AnswerKeeps(a: seq<Point>, b: seq<Point>, p: Point)
    requires a != [] && b != []
    ensures Inside(b + a, p) == Inside(a + b, p)
    ensures Inside(Reversed(a + b), p) == Inside(a + b, p)
  {
    SidesTurn(p);
    RotationKeepsSum(a, b, Touching(p));
    RotationKeepsSum(a, b, Crossing(p));
    ReversalKeepsSum(a + b, Touching(p));
    ReversalKeepsSum(a + b, Crossing(p));
  }

  /* ---------------------------------------------------------------- far outside */

  function Magnitude(p: Point): real {
    Max(Abs(p.x), Abs(p.y))
  }

  /** The greatest magnitude among all coordinates, but at least 1. */
  function Scale(vertices: seq<Point>, p: Point): real {
    if vertices == [] then Max(Magnitude(p), 1.0)
    else Max(Magnitude(vertices[0]), Scale(vertices[1..], p))
  }

  lemma {:induction false} ScaleCovers(vertices: seq<Point>, p: Point, a: Point)
    requires a in vertices
    ensures Magnitude(a) <= Scale(vertices, p) && Magnitude(p) <= Scale(vertices, p) && 1.0 <= Scale(vertices, p)
  {
    if a != vertices[0] {
      ScaleCovers(vertices[1..], p, a);
    } else {
      ScaleCoversPoint(vertices, p);
    }
  }

  lemma {:induction false} ScaleCoversPoint(vertices: seq<Point>, p: Point)
    ensures Magnitude(p) <= Scale(vertices, p) && 1.0 <= Scale(vertices, p)
  {
    if vertices != [] {
      ScaleCoversPoint(vertices[1..], p);
    }
  }

  /** All vertices lie on one side of the point, farther from it than any tolerance. */
  predicate FarOutside(vertices: seq<Point>, p: Point) {
    var slack := Scale(vertices, p) * TOLERANCE;
    || (forall v | v in vertices :: v.x + slack < p.x)
    || (forall v | v in vertices :: p.x < v.x - slack)
    || (forall v | v in vertices :: v.y + slack < p.y)
    || (forall v | v in vertices :: p.y < v.y - slack)
  }

  lemma FarSidesAreNotTouched(vertices: seq<Point>, p: Point, a: Point, b: Point)
    requires FarOutside(vertices, p) && a in vertices && b in vertices
    ensures !OnSegment(a, b, p)
  {
    ScaleCovers(vertices, p, a);
    ScaleCovers(vertices, p, b);
    assert SideScale(a, b, p) <= Scale(vertices, p);
  }

  /** 1 for a side with one end above the height of the point. */
  function Straddling(p: Point): Side {
    (a, b) => if Straddles(a, b, p) then 1 else 0
  }

  lemma {:induction false} AlongSame(chain: seq<Point>, f: Side, g: Side)
    requires forall a, b | a in chain && b in chain :: f(a, b) == g(a, b)
    ensures Along(chain, f) == Along(chain, g)
  {
    if 1 < |chain| {
      AlongSame(chain[..|chain| - 1], f, g);
    }
  }

  lemma {:induction false} AlongNone(chain: seq<Point>, f: Side)
    requires forall a, b | a in chain && b in chain :: f(a, b) == 0
    ensures Along(chain, f) == 0
  {
    if 1 < |chain| {
      AlongNone(chain[..|chain| - 1], f);
    }
  }

  /** Going along a chain, one passes the height of the point an odd number of times exactly when one
      ends on the other side of it. */
  lemma {:induction false} StraddlingAlternates(chain: seq<Point>, p: Point)
    requires chain != []
    ensures Along(chain, Straddling(p)) % 2 == Straddling(p)(chain[0], chain[|chain| - 1])
  {
    if 1 < |chain| {
      StraddlingAlternates(chain[..|chain| - 1], p);
    }
  }

  /** A closed polygon passes any height an even number of times. */
  lemma ClosedPassesEvenly(vertices: seq<Point>, p: Point)
    requires vertices != []
    ensures Around(vertices, Straddling(p)) % 2 == 0
  {
    StraddlingAlternates(vertices, p);
  }

  /** What the ray meets when all vertices lie on one side: everything that straddles if they lie
      ahead of the point, otherwise nothing. */
  lemma FarSideCrossing(vertices: seq<Point>, p: Point, a: Point, b: Point)
    requires FarOutside(vertices, p) && a in vertices && b in vertices
    ensures (forall v | v in vertices :: p.x < v.x) ==> Crossing(p)(a, b) == Straddling(p)(a, b)
    ensures !(forall v | v in vertices :: p.x < v.x) ==> Crossing(p)(a, b) == 0
  {
    ScaleCovers(vertices, p, a);
    if Straddles(a, b, p) {
      MeetingIsBetween(a, b, p);
    }
  }

  lemma FarUntouched(vertices: seq<Point>, p: Point)
    requires vertices != [] && FarOutside(vertices, p)
    ensures Around(vertices, Touching(p)) == 0
  {
    forall a, b | a in vertices && b in vertices
      ensures Touching(p)(a, b) == 0
    {
      FarSidesAreNotTouched(vertices, p, a, b);
    }
    AlongNone(vertices, Touching(p));
  }

  lemma FarCrossedEvenly(vertices: seq<Point>, p: Point)
    requires vertices != [] && FarOutside(vertices, p)
    ensures Around(vertices, Crossing(p)) % 2 == 0
  {
    forall a, b | a in vertices && b in vertices
      ensures (forall v | v in vertices :: p.x < v.x) ==> Crossing(p)(a, b) == Straddling(p)(a, b)
      ensures !(forall v | v in vertices :: p.x < v.x) ==> Crossing(p)(a, b) == 0
    {
      FarSideCrossing(vertices, p, a, b);
    }
    if forall v | v in vertices :: p.x < v.x {
      AlongSame(vertices, Crossing(p), Straddling(p));
      ClosedPassesEvenly(vertices, p);
    } else {
      AlongNone(vertices, Crossing(p));
    }
  }

  /** A point that lies far outside the box around the vertices is not in the polygon. */
  lemma FarPointsAreOutside(vertices: seq<Point>, p: Point)
    requires vertices != [] && FarOutside(vertices, p)
    ensures !Inside(vertices, p)
  {
    FarUntouched(vertices, p);
    FarCrossedEvenly(vertices, p);
  }

  /* ---------------------------------------------------------------- on the border */

  /** The point that divides a side in the proportion `t`. */
  function OnSide(a: Point, b: Point, t: real): Point {
    Point(a.x + t * (b.x - a.x), a.y + t * (b.y - a.y))
  }

  lemma SideHasNoCross(a: Point, b: Point, t: real)
    ensures Cross(a, b, OnSide(a, b, t)) == 0.0
  {
  }

  lemma SideIsInItsBox(from: real, to: real, t: real)
    requires 0.0 <= t <= 1.0
    ensures Min(from, to) <= from + t * (to - from) <= Max(from, to)
  {
    var part := PartOf(to - from, t);
    BetweenEnds(from, to, part);
    Commute(t, to - from);
  }

  lemma Commute(t: real, width: real)
    ensures t * width == width * t
  {
  }

  /** The point lies on the side, without any tolerance. */
  predicate On(a: Point, b: Point, p: Point) {
    && Cross(a, b, p) == 0.0
    && Min(a.x, b.x) <= p.x <= Max(a.x, b.x) && Min(a.y, b.y) <= p.y <= Max(a.y, b.y)
  }

  lemma StraightInTheBox(a: Point, b: Point, p: Point)
    requires On(a, b, p)
    ensures OnSegment(a, b, p)
  {
  }

  lemma SideIsTouched(a: Point, b: Point, t: real)
    requires 0.0 <= t <= 1.0
    ensures On(a, b, OnSide(a, b, t)) && OnSegment(a, b, OnSide(a, b, t))
  {
    SideHasNoCross(a, b, t);
    SideIsInItsBox(a.x, b.x, t);
    SideIsInItsBox(a.y, b.y, t);
    StraightInTheBox(a, b, OnSide(a, b, t));
  }

  /** Every point of the border, vertices included, counts as inside. */
  lemma BorderIsInside(vertices: seq<Point>, i: nat, t: real)
    requires i < |vertices| && 0.0 <= t <= 1.0
    ensures Inside(vertices, OnSide(vertices[if i == 0 then |vertices| - 1 else i - 1], vertices[i], t))
  {
    var a := vertices[if i == 0 then |vertices| - 1 else i - 1];
    SideIsTouched(a, vertices[i], t);
    TouchedSomewhere(vertices, OnSide(a, vertices[i], t), i);
  }
}
