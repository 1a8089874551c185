/** K-means over exact reals: assigning points to the nearest centroid, moving centroids to the mean
    of their points, and repeating. */
module KMeans {
  import opened Vectors
  import opened Arithmetic

  /* ---------------------------------------------------------------- the nearest centroid */

  /** The first position of a smallest value. */
  ghost predicate FirstSmallest(values: seq<real>, j: nat) {
    && j < |values|
    && (forall i | 0 <= i < |values| :: values[j] <= values[i])
    && (forall i | 0 <= i < j :: values[j] < values[i])
  }

  method ArgMin(values: seq<real>) returns (j: nat)
    requires values != []
    ensures FirstSmallest(values, j)
  {
    j := 0;
    for i := 1 to |values|
      invariant j < i && FirstSmallest(values[..i], j)
    {
      if values[i] < values[j] {
        j := i;
      }
    }
    assert values[..|values|] == values;
  }

  /** `j` is the nearest centroid, the first of these if several are equally near. */
  ghost predicate Nearest(x: Vector, centres: seq<Vector>, j: nat)
    requires Rectangular(centres, |x|)
  {
    && j < |centres|
    && (forall i | 0 <= i < |centres| :: Dist2(x, centres[j]) <= Dist2(x, centres[i]))
    && (forall i | 0 <= i < j :: Dist2(x, centres[j]) < Dist2(x, centres[i]))
  }

  /** What the comparison looks at: the squared distance without the point's own norm. */
  function Reduced(x: Vector, c: Vector): real
    requires |x| == |c|
  {
    Dot(c, c) - 2.0 * Dot(x, c)
  }

  /** Leaving the point's norm out of the expanded distance does not change which centroid is nearest. */
  lemma ReducedFindsNearest(x: Vector, centres: seq<Vector>, values: seq<real>, j: nat)
    requires Rectangular(centres, |x|) && |values| == |centres|
    requires forall i | 0 <= i < |centres| :: values[i] == Reduced(x, centres[i])
    requires FirstSmallest(values, j)
    ensures Nearest(x, centres, j)
  {
    forall i | 0 <= i < |centres|
      ensures Dist2(x, centres[i]) == values[i] + Dot(x, x)
    {
      Expansion(x, centres[i]);
    }
  }

  lemma NearestIsUnique(x: Vector, centres: seq<Vector>, j: nat, k: nat)
    requires Rectangular(centres, |x|) && Nearest(x, centres, j) && Nearest(x, centres, k)
    ensures j == k
  {
    var toJ, toK := Dist2(x, centres[j]), Dist2(x, centres[k]);
    assert toJ <= toK && toK <= toJ;
  }

  ghost predicate Assigned(data: seq<Vector>, centres: seq<Vector>, labels: seq<nat>, dimension: nat)
    requires Rectangular(data, dimension) && Rectangular(centres, dimension)
  {
    && |labels| == |data|
    && (forall i | 0 <= i < |data| :: Nearest(data[i], centres, labels[i]))
  }

  /** Labels every point with its nearest centroid, `block` points at a time; how the points are cut
      into blocks makes no difference. */
  method Assign(data: seq<Vector>, centres: seq<Vector>, block: nat, ghost dimension: nat) returns (labels: array<nat>)
    requires 1 <= block && centres != [] && Rectangular(data, dimension) && Rectangular(centres, dimension)
    ensures fresh(labels) && Assigned(data, centres, labels[..], dimension)
  {
    var norms := Norms(centres);
    labels := new nat[|data|];
    var start := 0;
    while start < |data|
      invariant start <= |data| + block
      invariant forall i | 0 <= i < Least(start, |data|) :: Nearest(data[i], centres, labels[i])
      decreases |data| - start
    {
      var end := Least(start + block, |data|);
      AssignBlock(data, centres, norms, labels, start, end, dimension);
      start := start + block;
    }
  }

  method Norms(centres: seq<Vector>) returns (norms: seq<real>)
    ensures |norms| == |centres| && forall j | 0 <= j < |centres| :: norms[j] == Dot(centres[j], centres[j])
  {
    norms := seq(|centres|, j requires 0 <= j < |centres| => Dot(centres[j], centres[j]));
  }

  method AssignBlock(data: seq<Vector>, centres: seq<Vector>, norms: seq<real>, labels: array<nat>, start: nat, end: nat,
                     ghost dimension: nat)
    requires start <= end <= |data| == labels.Length && centres != [] && |norms| == |centres|
    requires Rectangular(data, dimension) && Rectangular(centres, dimension)
    requires forall j | 0 <= j < |centres| :: norms[j] == Dot(centres[j], centres[j])
    modifies labels
    ensures forall i | 0 <= i < labels.Length && !(start <= i < end) :: labels[i] == old(labels[i])
    ensures forall i | start <= i < end :: Nearest(data[i], centres, labels[i])
  {
    for i := start to end
      invariant forall j | 0 <= j < labels.Length && !(start <= j < i) :: labels[j] == old(labels[j])
      invariant forall j | start <= j < i :: Nearest(data[j], centres, labels[j])
    {
      var x := data[i];
      var distances := seq(|centres|, j requires 0 <= j < |centres| && |x| == |centres[j]| => norms[j] - 2.0 * Dot(x, centres[j]));
      var best := ArgMin(distances);
      ReducedFindsNearest(x, centres, distances, best);
      labels[i] := best;
    }
  }

  /* ---------------------------------------------------------------- what an assignment costs */

  /** The points and the centroids have the same dimension, and every label is a centroid. */
  ghost predicate Shaped(data: seq<Vector>, labels: seq<nat>, centres: seq<Vector>, dimension: nat) {
    && Rectangular(data, dimension) && Rectangular(centres, dimension)
    && |labels| == |data| && (forall i | 0 <= i < |labels| :: labels[i] < |centres|)
  }

  /** The squared distances of the first `n` points to the centroids they are labelled with. */
  ghost function Cost(data: seq<Vector>, labels: seq<nat>, centres: seq<Vector>, dimension: nat, n: nat): real
    requires Shaped(data, labels, centres, dimension) && n <= |data|
  {
    if n == 0 then 0.0
    else Cost(data, labels, centres, dimension, n - 1) + Dist2(data[n - 1], centres[labels[n - 1]])
  }

  ghost function Count(labels: seq<nat>, j: nat, n: nat): nat
    requires n <= |labels|
  {
    if n == 0 then 0 else Count(labels, j, n - 1) + if labels[n - 1] == j then 1 else 0
  }

  ghost function Sum(data: seq<Vector>, labels: seq<nat>, j: nat, dimension: nat, n: nat): (sum: Vector)
    requires Rectangular(data, dimension) && n <= |data| == |labels|
    ensures |sum| == dimension
  {
    if n == 0 then Zero(dimension)
    else
      var before := Sum(data, labels, j, dimension, n - 1);
      if labels[n - 1] == j then Add(before, data[n - 1]) else before
  }

  lemma TimesNext(n: nat, a: real)
    ensures Times(n + 1, a) == Times(n, a) + a && Times(0, a) == 0.0
  {
  }

  /** Replacing one centroid changes the cost only through the number and the sum of its points. */
  lemma {:induction false} ReplacingOne(data: seq<Vector>, labels: seq<nat>, centres: seq<Vector>, dimension: nat,
                                        j: nat, m: Vector, n: nat)
    requires Shaped(data, labels, centres, dimension) && j < |centres| && |m| == dimension && n <= |data|
    ensures var c := centres[j]; var s := Sum(data, labels, j, dimension, n);
      Cost(data, labels, centres, dimension, n) - Cost(data, labels, centres[j := m], dimension, n)
      == Times(Count(labels, j, n), Dot(c, c) - Dot(m, m)) - 2.0 * (Dot(s, c) - Dot(s, m))
  {
    var c := centres[j];
    if n == 0 {
      DotZero(c);
      DotZero(m);
      TimesNext(0, Dot(c, c) - Dot(m, m));
    } else {
      ReplacingOne(data, labels, centres, dimension, j, m, n - 1);
      if labels[n - 1] == j {
        var x, s := data[n - 1], Sum(data, labels, j, dimension, n - 1);
        Expansion(x, c);
        Expansion(x, m);
        DotAdd(s, x, c);
        DotAdd(s, x, m);
        TimesNext(Count(labels, j, n - 1), Dot(c, c) - Dot(m, m));
      }
    }
  }

  /** The mean of the points labelled `j`. */
  ghost function Mean(data: seq<Vector>, labels: seq<nat>, j: nat, dimension: nat): (mean: Vector)
    requires Rectangular(data, dimension) && |data| == |labels| && Count(labels, j, |labels|) != 0
    ensures |mean| == dimension
  {
    Divide(Sum(data, labels, j, dimension, |data|), Count(labels, j, |labels|))
  }

  lemma MeanAlgebra(n: nat, cc: real, mm: real, mc: real)
    ensures Times(n, cc - mm) - 2.0 * (Times(n, mc) - Times(n, mm)) == Times(n, mm - 2.0 * mc + cc)
  {
  }

  /** Moving a centroid to the mean of its points saves, for each of them, the square of the way it moves. */
  lemma MovingToTheMean(data: seq<Vector>, labels: seq<nat>, centres: seq<Vector>, dimension: nat, j: nat)
    requires Shaped(data, labels, centres, dimension) && j < |centres| && Count(labels, j, |data|) != 0
    ensures var m := Mean(data, labels, j, dimension);
      Cost(data, labels, centres[j := m], dimension, |data|) + Times(Count(labels, j, |data|), Dist2(m, centres[j]))
      == Cost(data, labels, centres, dimension, |data|)
  {
    var m, c, n := Mean(data, labels, j, dimension), centres[j], Count(labels, j, |data|);
    var s := Sum(data, labels, j, dimension, |data|);
    ReplacingOne(data, labels, centres, dimension, j, m, |data|);
    DotDivide(s, n, c);
    DotDivide(s, n, m);
    Expansion(m, c);
    MeanAlgebra(n, Dot(c, c), Dot(m, m), Dot(m, c));
  }

  /** A centroid without points costs nothing wherever it is. */
  lemma {:induction false} EmptyCostsNothing(data: seq<Vector>, labels: seq<nat>, centres: seq<Vector>, dimension: nat,
                                             j: nat, p: Vector, n: nat)
    requires Shaped(data, labels, centres, dimension) && j < |centres| && |p| == dimension && n <= |data|
    requires Count(labels, j, n) == 0
    ensures Cost(data, labels, centres[j := p], dimension, n) == Cost(data, labels, centres, dimension, n)
  {
    if n != 0 {
      EmptyCostsNothing(data, labels, centres, dimension, j, p, n - 1);
    }
  }

  /** Every centroid with points has moved to their mean. */
  ghost predicate Averaged(data: seq<Vector>, labels: seq<nat>, centres: seq<Vector>, moved: seq<Vector>, dimension: nat)
    requires Shaped(data, labels, centres, dimension)
  {
    && |moved| == |centres| && Rectangular(moved, dimension)
    && (forall j | 0 <= j < |centres| && Count(labels, j, |labels|) != 0 :: moved[j] == Mean(data, labels, j, dimension))
  }

  /** What moving the first `t` centroids saves. */
  ghost function Saved(labels: seq<nat>, centres: seq<Vector>, moved: seq<Vector>, dimension: nat, t: nat): (saved: real)
    requires |moved| == |centres| && Rectangular(centres, dimension) && Rectangular(moved, dimension) && t <= |centres|
    ensures 0.0 <= saved
  {
    if t == 0 then 0.0
    else Saved(labels, centres, moved, dimension, t - 1)
         + Times(Count(labels, t - 1, |labels|), Dist2(moved[t - 1], centres[t - 1]))
  }

  lemma {:induction false} MovingSome(data: seq<Vector>, labels: seq<nat>, centres: seq<Vector>, moved: seq<Vector>, dimension: nat, t: nat)
    requires Shaped(data, labels, centres, dimension) && Averaged(data, labels, centres, moved, dimension) && t <= |centres|
    ensures Cost(data, labels, moved[..t] + centres[t..], dimension, |data|) + Saved(labels, centres, moved, dimension, t)
         == Cost(data, labels, centres, dimension, |data|)
  {
    if t == 0 {
      assert moved[..0] + centres[0..] == centres;
    } else {
      var before := moved[..t - 1] + centres[t - 1..];
      MovingSome(data, labels, centres, moved, dimension, t - 1);
      assert before[t - 1 := moved[t - 1]] == moved[..t] + centres[t..];
      if Count(labels, t - 1, |labels|) != 0 {
        MovingToTheMean(data, labels, before, dimension, t - 1);
      } else {
        EmptyCostsNothing(data, labels, before, dimension, t - 1, moved[t - 1], |data|);
        TimesNext(0, Dist2(moved[t - 1], centres[t - 1]));
      }
    }
  }

  /** Averaging lowers the cost by exactly what the moves save. */
  lemma AveragingSaves(data: seq<Vector>, labels: seq<nat>, centres: seq<Vector>, moved: seq<Vector>, dimension: nat)
    requires Shaped(data, labels, centres, dimension) && Averaged(data, labels, centres, moved, dimension)
    ensures Shaped(data, labels, moved, dimension)
    ensures Cost(data, labels, moved, dimension, |data|) + Saved(labels, centres, moved, dimension, |centres|)
         == Cost(data, labels, centres, dimension, |data|)
  {
    MovingSome(data, labels, centres, moved, dimension, |centres|);
    assert moved[..|centres|] + centres[|centres|..] == moved;
  }

  /* ---------------------------------------------------------------- moving the centroids */

  /** `chosen` are different rows, and no other row has a greater distance than any of them. */
  ghost predicate Farthest(distances: seq<real>, chosen: seq<nat>) {
    && (forall e | 0 <= e < |chosen| :: chosen[e] < |distances|)
    && (forall e, f | 0 <= e < f < |chosen| :: chosen[e] != chosen[f])
    && (forall e, i | 0 <= e < |chosen| && 0 <= i < |distances| && i !in chosen :: distances[i] <= distances[chosen[e]])
  }

  /** The first of the farthest rows that are not chosen yet. */
  ghost predicate FirstLeft(distances: seq<real>, chosen: seq<nat>, best: nat) {
    && best < |distances| && best !in chosen
    && (forall i | 0 <= i < |distances| && i !in chosen :: distances[i] <= distances[best])
    && (forall i | 0 <= i < best && i !in chosen :: distances[i] < distances[best])
  }

  /** The farthest rows in order, the first one first where several are equally far. */
  ghost predicate FarthestFirst(distances: seq<real>, chosen: seq<nat>) {
    forall e | 0 <= e < |chosen| :: FirstLeft(distances, chosen[..e], chosen[e])
  }

  /** The `count` rows with the greatest distances. */
  method TakeFarthest(distances: seq<real>, count: nat) returns (chosen: seq<nat>)
    requires count <= |distances|
    ensures |chosen| == count && Farthest(distances, chosen) && FarthestFirst(distances, chosen)
  {
    chosen := [];
    while |chosen| < count
      invariant |chosen| <= count && Farthest(distances, chosen) && FarthestFirst(distances, chosen)
      decreases count - |chosen|
    {
      var best := FarthestLeft(distances, chosen);
      OneMoreFarthest(distances, chosen, best);
      chosen := chosen + [best];
    }
  }

  lemma OneMoreFarthest(distances: seq<real>, chosen: seq<nat>, best: nat)
    requires FarthestFirst(distances, chosen) && FirstLeft(distances, chosen, best)
    ensures FarthestFirst(distances, chosen + [best])
  {
    var more := chosen + [best];
    forall e | 0 <= e < |more|
      ensures FirstLeft(distances, more[..e], more[e])
    {
      assert more[..e] == chosen[..e];
      assert chosen[..|chosen|] == chosen;
    }
  }

  method FarthestLeft(distances: seq<real>, chosen: seq<nat>) returns (best: nat)
    requires |chosen| < |distances| && Farthest(distances, chosen)
    ensures FirstLeft(distances, chosen, best)
  {
    ghost var free := SomeoneIsLeft(|distances|, chosen);
    best := |distances|;
    for i := 0 to |distances|
      invariant best <= |distances|
      invariant best == |distances| ==> forall k | 0 <= k < i :: k in chosen
      invariant best < |distances| ==>
        && best < i && best !in chosen
        && (forall k | 0 <= k < i && k !in chosen :: distances[k] <= distances[best])
        && (forall k | 0 <= k < best && k !in chosen :: distances[k] < distances[best])
    {
      if i !in chosen && (best == |distances| || distances[best] < distances[i]) {
        best := i;
      }
    }
  }

  lemma {:induction false} SomeoneIsLeft(n: nat, chosen: seq<nat>) returns (free: nat)
    requires |chosen| < n
    ensures free < n && free !in chosen
    decreases n
  {
    if n - 1 !in chosen {
      return n - 1;
    }
    var e :| 0 <= e < |chosen| && chosen[e] == n - 1;
    var others := chosen[..e] + chosen[e + 1..];
    free := SomeoneIsLeft(n - 1, others);
    assert chosen == others[..e] + [n - 1] + others[e..];
  }

  /** The sums and the numbers of the points of every centroid. */
  method Accumulate(data: seq<Vector>, labels: seq<nat>, centres: seq<Vector>, dimension: nat)
    returns (sums: array<Vector>, counts: array<nat>)
    requires Shaped(data, labels, centres, dimension)
    ensures sums.Length == counts.Length == |centres|
    ensures forall j | 0 <= j < |centres| ::
              sums[j] == Sum(data, labels, j, dimension, |data|) && counts[j] == Count(labels, j, |labels|)
  {
    sums := new Vector[|centres|](_ => Zero(dimension));
    counts := new nat[|centres|](_ => 0);
    for i := 0 to |data|
      invariant forall j | 0 <= j < |centres| ::
                  sums[j] == Sum(data, labels, j, dimension, i) && counts[j] == Count(labels, j, i)
    {
      var j := labels[i];
      sums[j] := Add(sums[j], data[i]);
      counts[j] := counts[j] + 1;
    }
  }

  /** The centroids without points, in order. */
  ghost predicate Empties(labels: seq<nat>, k: nat, empty: seq<nat>) {
    && (forall e | 0 <= e < |empty| :: empty[e] < k)
    && (forall e, f | 0 <= e < f < |empty| :: empty[e] < empty[f])
    && (forall j: nat | j < k :: j in empty <==> Count(labels, j, |labels|) == 0)
  }

  lemma {:induction false} EmptiesAreFew(empty: seq<nat>, k: nat)
    requires forall e | 0 <= e < |empty| :: empty[e] < k
    requires forall e, f | 0 <= e < f < |empty| :: empty[e] < empty[f]
    ensures |empty| <= k
  {
    if empty != [] {
      var last := |empty| - 1;
      EmptiesAreFew(empty[..last], empty[last]);
    }
  }

  /** How far every point is from its centroid. */
  ghost function Distances(data: seq<Vector>, labels: seq<nat>, centres: seq<Vector>, dimension: nat): seq<real>
    requires Shaped(data, labels, centres, dimension)
  {
    seq(|data|, i requires 0 <= i < |data| => Dist2(data[i], centres[labels[i]]))
  }

  /** Where the centroids go: to the mean of their points, or, without points, to the rows that are
      farthest from their own centroids, each to another row. */
  ghost predicate Recentred(data: seq<Vector>, labels: seq<nat>, centres: seq<Vector>, moved: seq<Vector>,
                            dimension: nat, empty: seq<nat>, chosen: seq<nat>)
    requires Shaped(data, labels, centres, dimension)
  {
    && Averaged(data, labels, centres, moved, dimension) && Shaped(data, labels, moved, dimension)
    && Empties(labels, |centres|, empty)
    && |chosen| == |empty| && Farthest(Distances(data, labels, moved, dimension), chosen)
    && (forall e | 0 <= e < |empty| :: moved[empty[e]] == data[chosen[e]])
  }

  lemma {:induction false} LabelIsOccupied(labels: seq<nat>, i: nat, n: nat)
    requires i < n <= |labels|
    ensures Count(labels, labels[i], n) != 0
  {
    if i < n - 1 {
      LabelIsOccupied(labels, i, n - 1);
    }
  }

  method MoveToMeans(data: seq<Vector>, labels: seq<nat>, centres: seq<Vector>, dimension: nat)
    returns (moved: array<Vector>, vacant: seq<nat>)
    requires Shaped(data, labels, centres, dimension)
    ensures fresh(moved) && Averaged(data, labels, centres, moved[..], dimension) && Empties(labels, |centres|, vacant)
  {
    var accumulatedSums, accumulatedCounts := Accumulate(data, labels, centres, dimension);
    var sums, counts := accumulatedSums[..], accumulatedCounts[..];
    moved := new Vector[|centres|](j requires 0 <= j < |centres| => centres[j]);
    vacant := [];
    for j := 0 to |centres|
      invariant forall i | 0 <= i < |centres| :: |moved[i]| == dimension
      invariant forall i | 0 <= i < j && Count(labels, i, |labels|) != 0 :: moved[i] == Mean(data, labels, i, dimension)
      invariant Empties(labels, j, vacant)
    {
      if counts[j] != 0 {
        moved[j] := Divide(sums[j], counts[j]);
      } else {
        vacant := vacant + [j];
      }
    }
  }

  /** Puts each empty centroid on its row. */
  method Reseat(data: seq<Vector>, moved: array<Vector>, vacant: seq<nat>, worst: seq<nat>)
    requires |worst| == |vacant| && forall e | 0 <= e < |vacant| :: vacant[e] < moved.Length && worst[e] < |data|
    requires forall e, f | 0 <= e < f < |vacant| :: vacant[e] < vacant[f]
    modifies moved
    ensures forall j | 0 <= j < moved.Length && j !in vacant :: moved[j] == old(moved[j])
    ensures forall e | 0 <= e < |vacant| :: moved[vacant[e]] == data[worst[e]]
  {
    for e := 0 to |vacant|
      invariant forall j | 0 <= j < moved.Length && j !in vacant[..e] :: moved[j] == old(moved[j])
      invariant forall f | 0 <= f < e :: moved[vacant[f]] == data[worst[f]]
    {
      moved[vacant[e]] := data[worst[e]];
    }
    assert vacant[..|vacant|] == vacant;
  }

  /** With at least as many points as centroids there is always a row for every empty centroid. */
  method Average(data: seq<Vector>, labels: seq<nat>, centres: seq<Vector>, dimension: nat)
    returns (moved: array<Vector>, ghost empty: seq<nat>, ghost chosen: seq<nat>)
    requires Shaped(data, labels, centres, dimension) && |centres| <= |data|
    ensures fresh(moved) && Recentred(data, labels, centres, moved[..], dimension, empty, chosen)
    ensures FarthestFirst(Distances(data, labels, moved[..], dimension), chosen)
  {
    var vacant;
    moved, vacant := MoveToMeans(data, labels, centres, dimension);
    var means := moved[..];
    var distances := seq(|data|, i requires 0 <= i < |data| => Dist2(data[i], means[labels[i]]));
    EmptiesAreFew(vacant, |centres|);
    var worst := TakeFarthest(distances, |vacant|);
    Reseat(data, moved, vacant, worst);
    empty, chosen := vacant, worst;
    EmptyPlacesDoNotMatter(data, labels, means, moved[..], dimension, vacant);
  }

  /** Distances to the centroids with points stay the same when only empty centroids move. */
  lemma EmptyPlacesDoNotMatter(data: seq<Vector>, labels: seq<nat>, means: seq<Vector>, moved: seq<Vector>, dimension: nat, vacant: seq<nat>)
    requires Shaped(data, labels, means, dimension) && Shaped(data, labels, moved, dimension) && |means| == |moved|
    requires Empties(labels, |means|, vacant)
    requires forall j | 0 <= j < |means| && j !in vacant :: moved[j] == means[j]
    ensures Distances(data, labels, means, dimension) == Distances(data, labels, moved, dimension)
  {
    forall i | 0 <= i < |data|
      ensures moved[labels[i]] == means[labels[i]]
    {
      LabelIsOccupied(labels, i, |labels|);
    }
  }

  /* ---------------------------------------------------------------- one iteration */

  /** The squared distance to the nearest of some centroids. */
  function NearestDist2(x: Vector, centres: seq<Vector>): real
    requires centres != [] && Rectangular(centres, |x|)
  {
    var last := Dist2(x, centres[|centres| - 1]);
    if |centres| == 1 then last
    else
      var others := NearestDist2(x, centres[..|centres| - 1]);
      if last < others then last else others
  }

  lemma {:induction false} NearestDist2Is(x: Vector, centres: seq<Vector>)
    requires centres != [] && Rectangular(centres, |x|)
    ensures forall i | 0 <= i < |centres| :: NearestDist2(x, centres) <= Dist2(x, centres[i])
    ensures exists i :: 0 <= i < |centres| && NearestDist2(x, centres) == Dist2(x, centres[i])
  {
    var n := |centres| - 1;
    if n != 0 {
      NearestDist2Is(x, centres[..n]);
      var i :| 0 <= i < n && NearestDist2(x, centres[..n]) == Dist2(x, centres[..n][i]);
      assert Dist2(x, centres[i]) == NearestDist2(x, centres[..n]);
    } else {
      assert Dist2(x, centres[0]) == NearestDist2(x, centres);
    }
  }

  /** The squared distances of the first `n` points to their nearest centroids. */
  ghost function Potential(data: seq<Vector>, centres: seq<Vector>, dimension: nat, n: nat): real
    requires Rectangular(data, dimension) && Rectangular(centres, dimension) && centres != [] && n <= |data|
  {
    if n == 0 then 0.0 else Potential(data, centres, dimension, n - 1) + NearestDist2(data[n - 1], centres)
  }

  /** No labelling costs less than the nearest centroids, and labelling with these costs as much. */
  lemma {:induction false} NearestCostsLeast(data: seq<Vector>, labels: seq<nat>, centres: seq<Vector>, dimension: nat, n: nat)
    requires Shaped(data, labels, centres, dimension) && centres != [] && n <= |data|
    ensures Potential(data, centres, dimension, n) <= Cost(data, labels, centres, dimension, n)
    ensures Assigned(data, centres, labels, dimension) ==>
              Potential(data, centres, dimension, n) == Cost(data, labels, centres, dimension, n)
  {
    if n != 0 {
      NearestCostsLeast(data, labels, centres, dimension, n - 1);
      NearestDist2Is(data[n - 1], centres);
    }
  }

  /** What the chosen rows cost before an empty centroid was put on each. */
  ghost function Spared(distances: seq<real>, chosen: seq<nat>, n: nat): real
    requires n <= |distances|
  {
    if n == 0 then 0.0 else Spared(distances, chosen, n - 1) + if n - 1 in chosen then distances[n - 1] else 0.0
  }

  /** A row costs no more than before, and one with an empty centroid put on it nothing. */
  lemma ReseatedRow(data: seq<Vector>, labels: seq<nat>, centres: seq<Vector>, moved: seq<Vector>,
                    dimension: nat, empty: seq<nat>, chosen: seq<nat>, i: nat)
    requires Shaped(data, labels, centres, dimension) && Recentred(data, labels, centres, moved, dimension, empty, chosen)
    requires centres != [] && i < |data|
    ensures NearestDist2(data[i], moved) <= (if i in chosen then 0.0 else Dist2(data[i], moved[labels[i]]))
  {
    NearestDist2Is(data[i], moved);
    if i in chosen {
      var e :| 0 <= e < |chosen| && chosen[e] == i;
      ZeroDistance(data[i], moved[empty[e]]);
    }
  }

  lemma {:induction false} RowsAddUp(data: seq<Vector>, labels: seq<nat>, moved: seq<Vector>, dimension: nat, chosen: seq<nat>, n: nat)
    requires Shaped(data, labels, moved, dimension) && moved != [] && n <= |data|
    requires forall i | 0 <= i < |data| ::
               NearestDist2(data[i], moved) <= (if i in chosen then 0.0 else Dist2(data[i], moved[labels[i]]))
    ensures Potential(data, moved, dimension, n) + Spared(Distances(data, labels, moved, dimension), chosen, n)
         <= Cost(data, labels, moved, dimension, n)
  {
    if n != 0 {
      RowsAddUp(data, labels, moved, dimension, chosen, n - 1);
    }
  }

  /** Putting an empty centroid on a row spares the whole distance of that row. */
  lemma ReseatingSpares(data: seq<Vector>, labels: seq<nat>, centres: seq<Vector>, moved: seq<Vector>,
                        dimension: nat, empty: seq<nat>, chosen: seq<nat>)
    requires Shaped(data, labels, centres, dimension) && Recentred(data, labels, centres, moved, dimension, empty, chosen)
    requires centres != []
    ensures Potential(data, moved, dimension, |data|) + Spared(Distances(data, labels, moved, dimension), chosen, |data|)
         <= Cost(data, labels, moved, dimension, |data|)
  {
    forall i | 0 <= i < |data|
      ensures NearestDist2(data[i], moved) <= (if i in chosen then 0.0 else Dist2(data[i], moved[labels[i]]))
    {
      ReseatedRow(data, labels, centres, moved, dimension, empty, chosen, i);
    }
    RowsAddUp(data, labels, moved, dimension, chosen, |data|);
  }

  lemma {:induction false} SparedIsNotNegative(distances: seq<real>, chosen: seq<nat>, n: nat)
    requires n <= |distances| && forall i | 0 <= i < |distances| :: 0.0 <= distances[i]
    ensures 0.0 <= Spared(distances, chosen, n)
  {
    if n != 0 {
      SparedIsNotNegative(distances, chosen, n - 1);
    }
  }

  /** An iteration lowers the total squared distance by at least what the means save and what the
      moved empty centroids spare. */
  lemma IterationLowersCost(data: seq<Vector>, labels: seq<nat>, centres: seq<Vector>, moved: seq<Vector>,
                            dimension: nat, empty: seq<nat>, chosen: seq<nat>)
    requires Shaped(data, labels, centres, dimension) && Assigned(data, centres, labels, dimension) && centres != []
    requires Recentred(data, labels, centres, moved, dimension, empty, chosen)
    ensures Potential(data, moved, dimension, |data|)
            + Saved(labels, centres, moved, dimension, |centres|)
            + Spared(Distances(data, labels, moved, dimension), chosen, |data|)
         <= Potential(data, centres, dimension, |data|)
    ensures Potential(data, moved, dimension, |data|) <= Potential(data, centres, dimension, |data|)
  {
    NearestCostsLeast(data, labels, centres, dimension, |data|);
    AveragingSaves(data, labels, centres, moved, dimension);
    ReseatingSpares(data, labels, centres, moved, dimension, empty, chosen);
    SparedIsNotNegative(Distances(data, labels, moved, dimension), chosen, |data|);
  }

  /* ---------------------------------------------------------------- the codebook */

  /** No centroid moves farther than the tolerance, which has to be a distance. */
  predicate Settled(centres: seq<Vector>, moved: seq<Vector>, tolerance: real, dimension: nat)
    requires |centres| == |moved| && Rectangular(centres, dimension) && Rectangular(moved, dimension)
  {
    0.0 <= tolerance && forall j | 0 <= j < |centres| :: Dist2(moved[j], centres[j]) <= Square(tolerance)
  }

  /** One iteration takes some centroids to others. */
  ghost predicate Step(data: seq<Vector>, centres: seq<Vector>, moved: seq<Vector>, dimension: nat)
    requires Rectangular(data, dimension) && Rectangular(centres, dimension)
  {
    exists labels, empty, chosen ::
      && Shaped(data, labels, centres, dimension) && Assigned(data, centres, labels, dimension)
      && Recentred(data, labels, centres, moved, dimension, empty, chosen)
  }

  /** A way to sort distances and take the rows of the greatest: on equal distances it takes the same rows. */
  type Sorting = (seq<real>, nat) -> seq<nat>

  /** One iteration with these labels, in which empty centroids go where the sorting says. */
  ghost predicate Round(data: seq<Vector>, centres: seq<Vector>, moved: seq<Vector>, dimension: nat, labels: seq<nat>, sort: Sorting)
    requires Rectangular(data, dimension) && Rectangular(centres, dimension)
  {
    && Shaped(data, labels, centres, dimension) && Assigned(data, centres, labels, dimension)
    && |moved| == |centres| && Shaped(data, labels, moved, dimension)
    && exists empty ::
         Recentred(data, labels, centres, moved, dimension, empty, sort(Distances(data, labels, moved, dimension), |empty|))
  }

  lemma RoundIsStep(data: seq<Vector>, centres: seq<Vector>, moved: seq<Vector>, dimension: nat, labels: seq<nat>, sort: Sorting)
    requires Rectangular(data, dimension) && Rectangular(centres, dimension) && Round(data, centres, moved, dimension, labels, sort)
    ensures Step(data, centres, moved, dimension)
  {
  }

  /** As many centroids at every time. */
  ghost predicate Courses(k: nat, history: seq<seq<Vector>>, dimension: nat) {
    history != [] && forall t | 0 <= t < |history| :: |history[t]| == k && Rectangular(history[t], dimension)
  }

  ghost predicate StepAt(data: seq<Vector>, k: nat, history: seq<seq<Vector>>, dimension: nat, t: nat)
    requires Rectangular(data, dimension) && Courses(k, history, dimension) && t < |history| - 1
  {
    Step(data, history[t], history[t + 1], dimension)
  }

  /** The centroids from the seeds on: each follows from those before by one iteration. */
  ghost predicate Steps(data: seq<Vector>, k: nat, history: seq<seq<Vector>>, dimension: nat)
    requires Rectangular(data, dimension)
  {
    Courses(k, history, dimension) && forall t | 0 <= t < |history| - 1 :: StepAt(data, k, history, dimension, t)
  }

  ghost predicate RoundAt(data: seq<Vector>, k: nat, history: seq<seq<Vector>>, dimension: nat, labellings: seq<seq<nat>>, sort: Sorting, t: nat)
    requires Rectangular(data, dimension) && Courses(k, history, dimension) && t < |history| - 1
  {
    t < |labellings| && Round(data, history[t], history[t + 1], dimension, labellings[t], sort)
  }

  /** The labels of each iteration, all of which sort distances in the same way. */
  ghost predicate Rounds(data: seq<Vector>, k: nat, history: seq<seq<Vector>>, dimension: nat, labellings: seq<seq<nat>>, sort: Sorting)
    requires Rectangular(data, dimension)
  {
    && Courses(k, history, dimension) && |labellings| == |history| - 1
    && (forall t | 0 <= t < |history| - 1 :: RoundAt(data, k, history, dimension, labellings, sort, t))
  }

  /** Sorting in which rows that are equally far keep their order. */
  ghost function FirstFarthest(distances: seq<real>, count: nat): seq<nat> {
    if chosen :| |chosen| == count && FarthestFirst(distances, chosen) then chosen else []
  }

  ghost function ByPosition(): Sorting {
    (distances: seq<real>, count: nat) => FirstFarthest(distances, count)
  }

  lemma {:induction false} FarthestFirstIsUnique(distances: seq<real>, chosen: seq<nat>, others: seq<nat>, n: nat)
    requires FarthestFirst(distances, chosen) && FarthestFirst(distances, others) && n <= |chosen| == |others|
    ensures chosen[..n] == others[..n]
  {
    if n != 0 {
      var last: nat := n - 1;
      FarthestFirstIsUnique(distances, chosen, others, last);
      assert FirstLeft(distances, chosen[..last], chosen[last]) && FirstLeft(distances, others[..last], others[last]);
      assert chosen[..n] == chosen[..last] + [chosen[last]] && others[..n] == others[..last] + [others[last]];
    }
  }

  lemma RoundByPosition(data: seq<Vector>, centres: seq<Vector>, moved: seq<Vector>, dimension: nat, labels: seq<nat>,
                        empty: seq<nat>, chosen: seq<nat>)
    requires Shaped(data, labels, centres, dimension) && Assigned(data, centres, labels, dimension)
    requires Recentred(data, labels, centres, moved, dimension, empty, chosen)
    requires FarthestFirst(Distances(data, labels, moved, dimension), chosen)
    ensures Round(data, centres, moved, dimension, labels, ByPosition())
  {
    var distances := Distances(data, labels, moved, dimension);
    var first := FirstFarthest(distances, |chosen|);
    FarthestFirstIsUnique(distances, chosen, first, |chosen|);
    assert chosen[..|chosen|] == chosen && first[..|chosen|] == first;
    assert ByPosition()(distances, |empty|) == chosen;
  }

  /** The centroids settled in iteration `t`. */
  ghost predicate SettledAt(data: seq<Vector>, k: nat, history: seq<seq<Vector>>, tolerance: real, dimension: nat, t: nat)
    requires Rectangular(data, dimension) && Steps(data, k, history, dimension) && t < |history| - 1
  {
    Settled(history[t], history[t + 1], tolerance, dimension)
  }

  /** The iterations end with the first in which the centroids settle, or when they are used up. */
  ghost predicate Stopped(data: seq<Vector>, k: nat, history: seq<seq<Vector>>, maxIterations: nat, tolerance: real, dimension: nat)
    requires Rectangular(data, dimension) && Steps(data, k, history, dimension)
  {
    && |history| <= maxIterations + 1
    && (forall t | 0 <= t < |history| - 2 :: !SettledAt(data, k, history, tolerance, dimension, t))
    && (|history| == maxIterations + 1
        || (2 <= |history| && SettledAt(data, k, history, tolerance, dimension, |history| - 2)))
  }

  lemma StepLowersCost(data: seq<Vector>, centres: seq<Vector>, moved: seq<Vector>, dimension: nat)
    requires Rectangular(data, dimension) && Rectangular(centres, dimension) && Rectangular(moved, dimension)
    requires centres != [] && |moved| == |centres| && Step(data, centres, moved, dimension)
    ensures Potential(data, moved, dimension, |data|) <= Potential(data, centres, dimension, |data|)
  {
    var labels, empty, chosen :|
      && Shaped(data, labels, centres, dimension) && Assigned(data, centres, labels, dimension)
      && Recentred(data, labels, centres, moved, dimension, empty, chosen);
    IterationLowersCost(data, labels, centres, moved, dimension, empty, chosen);
  }

  /** However long it goes on, the total squared distance never rises. */
  lemma {:induction false} StepsLowerCost(data: seq<Vector>, k: nat, history: seq<seq<Vector>>, dimension: nat, s: nat, t: nat)
    requires Rectangular(data, dimension) && Steps(data, k, history, dimension) && k != 0 && s <= t < |history|
    ensures Potential(data, history[t], dimension, |data|) <= Potential(data, history[s], dimension, |data|)
  {
    if s < t {
      var last: nat := t - 1;
      StepsLowerCost(data, k, history, dimension, s, last);
      assert StepAt(data, k, history, dimension, last);
      StepLowersCost(data, history[last], history[t], dimension);
    }
  }

  /* ---------------------------------------------------------------- how long iterating can take */

  /** The centroid is the nearest one of some point. */
  ghost predicate HasPoints(data: seq<Vector>, centres: seq<Vector>, dimension: nat, j: nat)
    requires Rectangular(data, dimension) && Rectangular(centres, dimension)
  {
    exists i :: 0 <= i < |data| && Nearest(data[i], centres, j)
  }

  ghost predicate Occupied(data: seq<Vector>, centres: seq<Vector>, dimension: nat)
    requires Rectangular(data, dimension) && Rectangular(centres, dimension)
  {
    forall j | 0 <= j < |centres| :: HasPoints(data, centres, dimension, j)
  }

  lemma PointsAreCounted(data: seq<Vector>, labels: seq<nat>, centres: seq<Vector>, dimension: nat, j: nat)
    requires Shaped(data, labels, centres, dimension) && Assigned(data, centres, labels, dimension)
    requires HasPoints(data, centres, dimension, j)
    ensures Count(labels, j, |labels|) != 0
  {
    var i :| 0 <= i < |data| && Nearest(data[i], centres, j);
    NearestIsUnique(data[i], centres, labels[i], j);
    LabelIsOccupied(labels, i, |labels|);
  }

  lemma TimesAtLeast(n: nat, a: real)
    requires n != 0 && 0.0 <= a
    ensures a <= Times(n, a)
  {
    TimesNext(n - 1, a);
    assert 0.0 <= Times(n - 1, a);
  }

  lemma {:induction false} OneMoveSaves(labels: seq<nat>, centres: seq<Vector>, moved: seq<Vector>, dimension: nat, j: nat, t: nat)
    requires |moved| == |centres| && Rectangular(centres, dimension) && Rectangular(moved, dimension) && j < t <= |centres|
    requires Count(labels, j, |labels|) != 0
    ensures Dist2(moved[j], centres[j]) <= Saved(labels, centres, moved, dimension, t)
  {
    var last: nat := t - 1;
    if j == last {
      TimesAtLeast(Count(labels, j, |labels|), Dist2(moved[j], centres[j]));
    } else {
      OneMoveSaves(labels, centres, moved, dimension, j, last);
      assert 0.0 <= Times(Count(labels, last, |labels|), Dist2(moved[last], centres[last]));
    }
  }

  lemma UnsettledMovesSave(data: seq<Vector>, labels: seq<nat>, centres: seq<Vector>, moved: seq<Vector>, tolerance: real, dimension: nat)
    requires Shaped(data, labels, centres, dimension) && Assigned(data, centres, labels, dimension)
    requires |moved| == |centres| && Rectangular(moved, dimension)
    requires Occupied(data, centres, dimension) && 0.0 <= tolerance && !Settled(centres, moved, tolerance, dimension)
    ensures Square(tolerance) < Saved(labels, centres, moved, dimension, |centres|)
  {
    var j: nat :| j < |centres| && Square(tolerance) < Dist2(moved[j], centres[j]);
    PointsAreCounted(data, labels, centres, dimension, j);
    OneMoveSaves(labels, centres, moved, dimension, j, |centres|);
  }

  /** An iteration of occupied centroids that does not settle saves more than the square of the tolerance. */
  lemma UnsettledStepSaves(data: seq<Vector>, centres: seq<Vector>, moved: seq<Vector>, tolerance: real, dimension: nat)
    requires Rectangular(data, dimension) && Rectangular(centres, dimension) && Rectangular(moved, dimension)
    requires centres != [] && |moved| == |centres| && Step(data, centres, moved, dimension)
    requires Occupied(data, centres, dimension) && 0.0 <= tolerance && !Settled(centres, moved, tolerance, dimension)
    ensures Potential(data, moved, dimension, |data|) + Square(tolerance) < Potential(data, centres, dimension, |data|)
  {
    var labels, empty, chosen :|
      && Shaped(data, labels, centres, dimension) && Assigned(data, centres, labels, dimension)
      && Recentred(data, labels, centres, moved, dimension, empty, chosen);
    UnsettledMovesSave(data, labels, centres, moved, tolerance, dimension);
    SparedIsNotNegative(Distances(data, labels, moved, dimension), chosen, |data|);
    IterationLowersCost(data, labels, centres, moved, dimension, empty, chosen);
  }

  /** No centroid ever loses all of its points. */
  ghost predicate AlwaysOccupied(data: seq<Vector>, k: nat, history: seq<seq<Vector>>, dimension: nat)
    requires Rectangular(data, dimension) && Courses(k, history, dimension)
  {
    forall t | 0 <= t < |history| - 1 :: Occupied(data, history[t], dimension)
  }

  lemma {:induction false} StepsSave(data: seq<Vector>, k: nat, history: seq<seq<Vector>>, tolerance: real, dimension: nat, t: nat)
    requires Rectangular(data, dimension) && Unsettled(data, k, history, tolerance, dimension) && k != 0
    requires AlwaysOccupied(data, k, history, dimension) && 0.0 <= tolerance && t < |history|
    ensures Potential(data, history[t], dimension, |data|) + Times(t, Square(tolerance))
         <= Potential(data, history[0], dimension, |data|)
  {
    TimesNext(0, Square(tolerance));
    if t != 0 {
      var last: nat := t - 1;
      StepsSave(data, k, history, tolerance, dimension, last);
      assert StepAt(data, k, history, dimension, last) && !SettledAt(data, k, history, tolerance, dimension, last);
      UnsettledStepSaves(data, history[last], history[t], tolerance, dimension);
      TimesNext(last, Square(tolerance));
    }
  }

  lemma {:induction false} PotentialIsNotNegative(data: seq<Vector>, centres: seq<Vector>, dimension: nat, n: nat)
    requires Rectangular(data, dimension) && Rectangular(centres, dimension) && centres != [] && n <= |data|
    ensures 0.0 <= Potential(data, centres, dimension, n)
  {
    if n != 0 {
      PotentialIsNotNegative(data, centres, dimension, n - 1);
      NearestDist2Is(data[n - 1], centres);
    }
  }

  /** However many iterations are allowed: while no centroid loses all of its points, only so many can
      pass without settling as squares of the tolerance fit into the cost of the seeds. */
  lemma UnsettledRoundsAreFew(data: seq<Vector>, k: nat, history: seq<seq<Vector>>, tolerance: real, dimension: nat)
    requires Rectangular(data, dimension) && Unsettled(data, k, history, tolerance, dimension) && k != 0
    requires AlwaysOccupied(data, k, history, dimension) && 0.0 <= tolerance
    ensures Times(|history| - 1, Square(tolerance)) <= Potential(data, history[0], dimension, |data|)
  {
    var last: nat := |history| - 1;
    StepsSave(data, k, history, tolerance, dimension, last);
    PotentialIsNotNegative(data, history[last], dimension, |data|);
  }

  /* ---------------------------------------------------------------- the loop */

  lemma OneMoreCourse(k: nat, history: seq<seq<Vector>>, dimension: nat, moved: seq<Vector>)
    requires Courses(k, history, dimension) && |moved| == k && Rectangular(moved, dimension)
    ensures Courses(k, history + [moved], dimension)
  {
  }

  /** The iterations so far, none of which settled. */
  ghost predicate Unsettled(data: seq<Vector>, k: nat, history: seq<seq<Vector>>, tolerance: real, dimension: nat)
    requires Rectangular(data, dimension)
  {
    && Steps(data, k, history, dimension)
    && (forall t | 0 <= t < |history| - 1 :: !SettledAt(data, k, history, tolerance, dimension, t))
  }

  lemma OneMoreStep(data: seq<Vector>, k: nat, history: seq<seq<Vector>>, maxIterations: nat, tolerance: real, dimension: nat,
                    moved: seq<Vector>)
    requires Rectangular(data, dimension) && Unsettled(data, k, history, tolerance, dimension) && |history| <= maxIterations
    requires |moved| == k && Rectangular(moved, dimension) && Step(data, history[|history| - 1], moved, dimension)
    ensures Steps(data, k, history + [moved], dimension)
    ensures Settled(history[|history| - 1], moved, tolerance, dimension) ==>
              Stopped(data, k, history + [moved], maxIterations, tolerance, dimension)
    ensures !Settled(history[|history| - 1], moved, tolerance, dimension) ==>
              Unsettled(data, k, history + [moved], tolerance, dimension)
  {
    var after, n := history + [moved], |history|;
    OneMoreCourse(k, history, dimension, moved);
    forall t | 0 <= t < n
      ensures StepAt(data, k, after, dimension, t)
      ensures t < n - 1 ==> !Settled(after[t], after[t + 1], tolerance, dimension)
    {
      if t < n - 1 {
        assert StepAt(data, k, history, dimension, t) && !SettledAt(data, k, history, tolerance, dimension, t);
      }
    }
  }

  lemma OneMoreRound(data: seq<Vector>, k: nat, history: seq<seq<Vector>>, dimension: nat, labellings: seq<seq<nat>>, sort: Sorting,
                     labels: seq<nat>, moved: seq<Vector>)
    requires Rectangular(data, dimension) && Rounds(data, k, history, dimension, labellings, sort)
    requires |moved| == k && Rectangular(moved, dimension)
    requires Round(data, history[|history| - 1], moved, dimension, labels, sort)
    ensures Rounds(data, k, history + [moved], dimension, labellings + [labels], sort)
  {
    var after, all := history + [moved], labellings + [labels];
    OneMoreCourse(k, history, dimension, moved);
    forall t | 0 <= t < |after| - 1
      ensures RoundAt(data, k, after, dimension, all, sort, t)
    {
      if t < |history| - 1 {
        assert RoundAt(data, k, history, dimension, labellings, sort, t);
      }
    }
  }

  /** Iterates from some seeds until the centroids settle or the iterations are used up. */
  method Iterate(data: seq<Vector>, seeds: seq<Vector>, maxIterations: nat, tolerance: real, block: nat, dimension: nat)
    returns (centres: seq<Vector>, ghost history: seq<seq<Vector>>, ghost labellings: seq<seq<nat>>)
    requires Rectangular(data, dimension) && Rectangular(seeds, dimension) && 1 <= block
    requires 1 <= |seeds| <= |data|
    ensures Rounds(data, |seeds|, history, dimension, labellings, ByPosition())
    ensures Steps(data, |seeds|, history, dimension)
    ensures history[0] == seeds && history[|history| - 1] == centres
    ensures Stopped(data, |seeds|, history, maxIterations, tolerance, dimension)
    ensures |centres| == |seeds| && Rectangular(centres, dimension)
    ensures Potential(data, centres, dimension, |data|) <= Potential(data, seeds, dimension, |data|)
  {
    centres, history, labellings := seeds, [seeds], [];
    for i := 0 to maxIterations
      invariant Unsettled(data, |seeds|, history, tolerance, dimension) && |history| == i + 1
      invariant history[0] == seeds && history[i] == centres
      invariant Rounds(data, |seeds|, history, dimension, labellings, ByPosition())
    {
      var labels := Assign(data, centres, block, dimension);
      var moved, empty, chosen := Average(data, labels[..], centres, dimension);
      RoundByPosition(data, centres, moved[..], dimension, labels[..], empty, chosen);
      OneMoreRound(data, |seeds|, history, dimension, labellings, ByPosition(), labels[..], moved[..]);
      OneMoreStep(data, |seeds|, history, maxIterations, tolerance, dimension, moved[..]);
      history, labellings := history + [moved[..]], labellings + [labels[..]];
      var done := Settled(centres, moved[..], tolerance, dimension);
      centres := moved[..];
      if done {
        break;
      }
    }
    StepsLowerCost(data, |seeds|, history, dimension, 0, |history| - 1);
  }
}
