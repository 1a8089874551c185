/** How long k-means can go on, empty centroids or not. */
module Settling {
  import opened Vectors
  import opened KMeans
  import opened Collections

  /* ---------------------------------------------------------------- an iteration depends on its labels alone */

  ghost predicate Ascending(a: seq<nat>) {
    forall e, f | 0 <= e < f < |a| :: a[e] < a[f]
  }

  lemma LastIsGreatest(a: seq<nat>, last: nat, x: nat)
    requires Ascending(a) && |a| == last + 1
    ensures a[last] in a && Ascending(a[..last]) && (x in a ==> x <= a[last])
    ensures x in a[..last] <==> x in a && x != a[last]
  {
    if x in a && x != a[last] {
      var e :| 0 <= e < |a| && a[e] == x;
      assert a[..last][e] == x;
    }
  }

  ghost predicate SameMembers(a: seq<nat>, b: seq<nat>) {
    forall x :: x in a <==> x in b
  }

  lemma SameGreatest(a: seq<nat>, m: nat, b: seq<nat>, n: nat)
    requires Ascending(a) && Ascending(b) && SameMembers(a, b) && |a| == m + 1 && |b| == n + 1
    ensures a[m] == b[n] && SameMembers(a[..m], b[..n])
  {
    LastIsGreatest(a, m, b[n]);
    LastIsGreatest(b, n, a[m]);
    forall x
      ensures x in a[..m] <==> x in b[..n]
    {
      LastIsGreatest(a, m, x);
      LastIsGreatest(b, n, x);
    }
  }

  lemma {:induction false} SameMembersInOrder(a: seq<nat>, b: seq<nat>)
    requires Ascending(a) && Ascending(b) && SameMembers(a, b)
    ensures a == b
  {
    assert (a != [] ==> a[0] in b) && (b != [] ==> b[0] in a);
    if a != [] {
      var m: nat, n: nat := |a| - 1, |b| - 1;
      SameGreatest(a, m, b, n);
      SameMembersInOrder(a[..m], b[..n]);
      assert a == a[..m] + [a[m]] && b == b[..n] + [b[n]];
    }
  }

  lemma SameEmpties(labels: seq<nat>, k: nat, empty: seq<nat>, others: seq<nat>)
    requires Empties(labels, k, empty) && Empties(labels, k, others)
    ensures empty == others
  {
    forall j: nat
      ensures j in empty <==> j in others
    {
    }
    SameMembersInOrder(empty, others);
  }

  lemma SameDistances(data: seq<Vector>, labels: seq<nat>, centres: seq<Vector>, others: seq<Vector>, moved: seq<Vector>, after: seq<Vector>, dimension: nat)
    requires Shaped(data, labels, centres, dimension) && Averaged(data, labels, centres, moved, dimension)
    requires Shaped(data, labels, others, dimension) && Averaged(data, labels, others, after, dimension)
    ensures Shaped(data, labels, moved, dimension) && Shaped(data, labels, after, dimension)
    ensures Distances(data, labels, moved, dimension) == Distances(data, labels, after, dimension)
  {
    forall i | 0 <= i < |data|
      ensures moved[labels[i]] == after[labels[i]]
    {
      LabelIsOccupied(labels, i, |labels|);
    }
  }

  /** The labels say where the centroids go, wherever they come from. */
  lemma SameLabelsSameCentres(data: seq<Vector>, centres: seq<Vector>, moved: seq<Vector>, others: seq<Vector>, after: seq<Vector>,
                              dimension: nat, labels: seq<nat>, sort: Sorting)
    requires Rectangular(data, dimension) && Rectangular(centres, dimension) && Rectangular(others, dimension)
    requires Round(data, centres, moved, dimension, labels, sort) && Round(data, others, after, dimension, labels, sort)
    requires |centres| == |others|
    ensures moved == after
  {
    var empty :| Recentred(data, labels, centres, moved, dimension, empty, sort(Distances(data, labels, moved, dimension), |empty|));
    var vacant :| Recentred(data, labels, others, after, dimension, vacant, sort(Distances(data, labels, after, dimension), |vacant|));
    SameEmpties(labels, |centres|, empty, vacant);
    SameDistances(data, labels, centres, others, moved, after, dimension);
    forall j | 0 <= j < |centres|
      ensures moved[j] == after[j]
    {
      if Count(labels, j, |labels|) == 0 {
        var e :| 0 <= e < |empty| && empty[e] == j;
      }
    }
  }

  /* ---------------------------------------------------------------- iterations that save nothing */

  lemma {:induction false} OneRowSpares(distances: seq<real>, chosen: seq<nat>, i: nat, n: nat)
    requires i < n <= |distances| && i in chosen && forall r | 0 <= r < |distances| :: 0.0 <= distances[r]
    ensures distances[i] <= Spared(distances, chosen, n)
  {
    var last: nat := n - 1;
    if i < last {
      OneRowSpares(distances, chosen, i, last);
    } else {
      SparedIsNotNegative(distances, chosen, last);
    }
  }

  /** Where nothing is saved, centroids with points stay, and empty ones go where one of those is. */
  lemma FreeRound(data: seq<Vector>, labels: seq<nat>, centres: seq<Vector>, moved: seq<Vector>, dimension: nat,
                  empty: seq<nat>, chosen: seq<nat>)
    requires Shaped(data, labels, centres, dimension) && Assigned(data, centres, labels, dimension) && centres != []
    requires Recentred(data, labels, centres, moved, dimension, empty, chosen)
    requires Potential(data, moved, dimension, |data|) == Potential(data, centres, dimension, |data|)
    ensures forall j | 0 <= j < |centres| && Count(labels, j, |labels|) != 0 :: moved[j] == centres[j]
    ensures forall e | 0 <= e < |chosen| :: data[chosen[e]] == moved[labels[chosen[e]]]
  {
    var distances := Distances(data, labels, moved, dimension);
    IterationLowersCost(data, labels, centres, moved, dimension, empty, chosen);
    SparedIsNotNegative(distances, chosen, |data|);
    forall j | 0 <= j < |centres| && Count(labels, j, |labels|) != 0
      ensures moved[j] == centres[j]
    {
      OneMoveSaves(labels, centres, moved, dimension, j, |centres|);
      ZeroDistance(moved[j], centres[j]);
    }
    forall e | 0 <= e < |chosen|
      ensures data[chosen[e]] == moved[labels[chosen[e]]]
    {
      OneRowSpares(distances, chosen, chosen[e], |data|);
      ZeroDistance(data[chosen[e]], moved[labels[chosen[e]]]);
    }
  }

  /** So no centroid is nearer to any point than before. */
  lemma NothingNearer(data: seq<Vector>, labels: seq<nat>, centres: seq<Vector>, moved: seq<Vector>, dimension: nat,
                      empty: seq<nat>, chosen: seq<nat>, i: nat, j: nat)
    requires Shaped(data, labels, centres, dimension) && Assigned(data, centres, labels, dimension) && centres != []
    requires Recentred(data, labels, centres, moved, dimension, empty, chosen)
    requires forall c | 0 <= c < |centres| && Count(labels, c, |labels|) != 0 :: moved[c] == centres[c]
    requires forall e | 0 <= e < |chosen| :: data[chosen[e]] == moved[labels[chosen[e]]]
    requires i < |data| && j < |centres|
    ensures Dist2(data[i], moved[labels[i]]) <= Dist2(data[i], moved[j])
  {
    LabelIsOccupied(labels, i, |labels|);
    assert Nearest(data[i], centres, labels[i]);
    if Count(labels, j, |labels|) == 0 {
      var e :| 0 <= e < |empty| && empty[e] == j;
      var c := labels[chosen[e]];
      LabelIsOccupied(labels, chosen[e], |labels|);
      assert moved[j] == moved[c] == centres[c];
    }
  }

  /** No point's label rises after an iteration that saves nothing. */
  lemma LabelsFall(data: seq<Vector>, centres: seq<Vector>, moved: seq<Vector>, dimension: nat, labels: seq<nat>, next: seq<nat>, sort: Sorting)
    requires Rectangular(data, dimension) && Rectangular(centres, dimension) && centres != []
    requires Round(data, centres, moved, dimension, labels, sort) && Assigned(data, moved, next, dimension)
    requires Potential(data, moved, dimension, |data|) == Potential(data, centres, dimension, |data|)
    ensures forall i | 0 <= i < |data| :: next[i] <= labels[i]
  {
    var empty :| Recentred(data, labels, centres, moved, dimension, empty, sort(Distances(data, labels, moved, dimension), |empty|));
    var chosen := sort(Distances(data, labels, moved, dimension), |empty|);
    FreeRound(data, labels, centres, moved, dimension, empty, chosen);
    forall i | 0 <= i < |data|
      ensures next[i] <= labels[i]
    {
      NothingNearer(data, labels, centres, moved, dimension, empty, chosen, i, next[i]);
      assert Nearest(data[i], moved, next[i]);
    }
  }

  /* ---------------------------------------------------------------- no labelling comes twice */

  lemma RoundsAreSteps(data: seq<Vector>, k: nat, history: seq<seq<Vector>>, dimension: nat, labellings: seq<seq<nat>>, sort: Sorting)
    requires Rectangular(data, dimension) && Rounds(data, k, history, dimension, labellings, sort)
    ensures Steps(data, k, history, dimension)
  {
    forall t | 0 <= t < |history| - 1
      ensures StepAt(data, k, history, dimension, t)
    {
      assert RoundAt(data, k, history, dimension, labellings, sort, t);
      RoundIsStep(data, history[t], history[t + 1], dimension, labellings[t], sort);
    }
  }

  /** Between equal costs there is nothing but equal costs. */
  lemma CostStays(data: seq<Vector>, k: nat, history: seq<seq<Vector>>, dimension: nat, s: nat, t: nat, u: nat, next: nat)
    requires Rectangular(data, dimension) && Steps(data, k, history, dimension) && k != 0
    requires s <= u && next == u + 1 <= t < |history| && history[s] == history[t]
    ensures Potential(data, history[u], dimension, |data|) == Potential(data, history[next], dimension, |data|)
  {
    StepsLowerCost(data, k, history, dimension, s, u);
    StepsLowerCost(data, k, history, dimension, u, next);
    StepsLowerCost(data, k, history, dimension, next, t);
  }

  predicate NotAbove(low: seq<nat>, high: seq<nat>) {
    |low| == |high| && forall i | 0 <= i < |low| :: low[i] <= high[i]
  }

  lemma TheRound(data: seq<Vector>, k: nat, history: seq<seq<Vector>>, dimension: nat, labellings: seq<seq<nat>>, sort: Sorting,
                 t: nat, next: nat)
    requires Rectangular(data, dimension) && Rounds(data, k, history, dimension, labellings, sort) && next == t + 1 < |history|
    ensures t < |labellings| && |history[t]| == |history[next]| == k && Rectangular(history[t], dimension)
    ensures Rectangular(history[next], dimension) && Round(data, history[t], history[next], dimension, labellings[t], sort)
  {
    assert RoundAt(data, k, history, dimension, labellings, sort, t);
  }

  lemma TheLabels(data: seq<Vector>, k: nat, history: seq<seq<Vector>>, dimension: nat, labellings: seq<seq<nat>>, sort: Sorting,
                  t: nat, next: nat)
    requires Rectangular(data, dimension) && Rounds(data, k, history, dimension, labellings, sort) && next == t + 1 < |history|
    ensures t < |labellings| && Rectangular(history[t], dimension) && Assigned(data, history[t], labellings[t], dimension)
  {
    TheRound(data, k, history, dimension, labellings, sort, t, next);
  }

  /** After an iteration that saves nothing the labels only fall. */
  lemma NextLabelsFall(data: seq<Vector>, k: nat, history: seq<seq<Vector>>, dimension: nat, labellings: seq<seq<nat>>,
                       sort: Sorting, s: nat, t: nat, u: nat, next: nat, labels: seq<nat>)
    requires Rectangular(data, dimension) && Rounds(data, k, history, dimension, labellings, sort) && k != 0
    requires s <= u && next == u + 1 <= t < |history| && history[s] == history[t]
    requires Assigned(data, history[next], labels, dimension)
    ensures NotAbove(labels, labellings[u])
  {
    TheRound(data, k, history, dimension, labellings, sort, u, next);
    RoundsAreSteps(data, k, history, dimension, labellings, sort);
    CostStays(data, k, history, dimension, s, t, u, next);
    LabelsFall(data, history[u], history[next], dimension, labellings[u], labels, sort);
  }

  /** Where the centroids come back to where they were, the labels only fall on the way. */
  lemma {:induction false} LabelsFallAlong(data: seq<Vector>, k: nat, history: seq<seq<Vector>>, dimension: nat, labellings: seq<seq<nat>>,
                                           sort: Sorting, s: nat, t: nat, u: nat, next: nat)
    requires Rectangular(data, dimension) && Rounds(data, k, history, dimension, labellings, sort) && k != 0
    requires s <= u && next == u + 1 <= t < |history| && history[s] == history[t]
    ensures NotAbove(labellings[u], labellings[s])
    decreases u
  {
    TheLabels(data, k, history, dimension, labellings, sort, u, next);
    if s < u {
      var before: nat := u - 1;
      LabelsFallAlong(data, k, history, dimension, labellings, sort, s, t, before, u);
      NextLabelsFall(data, k, history, dimension, labellings, sort, s, t, before, u, labellings[u]);
      FallingOn(labellings[u], labellings[before], labellings[s]);
    }
  }

  lemma FallingOn(low: seq<nat>, middle: seq<nat>, high: seq<nat>)
    requires NotAbove(low, middle) && NotAbove(middle, high)
    ensures NotAbove(low, high)
  {
  }

  /** Where the centroids come back to where they were, the labels on the way back are those at the start. */
  lemma ComingBackIsStaying(data: seq<Vector>, k: nat, history: seq<seq<Vector>>, dimension: nat, labellings: seq<seq<nat>>,
                            sort: Sorting, s: nat, t: nat, last: nat)
    requires Rectangular(data, dimension) && Rounds(data, k, history, dimension, labellings, sort) && k != 0
    requires s <= last && last + 1 == t < |history| && history[s] == history[t]
    ensures labellings[last] == labellings[s]
  {
    LabelsFallAlong(data, k, history, dimension, labellings, sort, s, t, last, t);
    var next: nat := s + 1;
    TheLabels(data, k, history, dimension, labellings, sort, s, next);
    NextLabelsFall(data, k, history, dimension, labellings, sort, s, t, last, t, labellings[s]);
  }

  lemma NothingMoved(centres: seq<Vector>, moved: seq<Vector>, tolerance: real, dimension: nat)
    requires Rectangular(centres, dimension) && centres == moved && 0.0 <= tolerance
    ensures Settled(centres, moved, tolerance, dimension)
  {
    forall j | 0 <= j < |centres|
      ensures Dist2(moved[j], centres[j]) <= Square(tolerance)
    {
      ZeroDistance(moved[j], centres[j]);
    }
  }

  /** The centroids settle in none of the first `n` iterations. */
  ghost predicate NotYetSettled(data: seq<Vector>, k: nat, history: seq<seq<Vector>>, tolerance: real, dimension: nat, n: nat)
    requires Rectangular(data, dimension)
  {
    && Steps(data, k, history, dimension) && n < |history|
    && forall t | 0 <= t < n :: !SettledAt(data, k, history, tolerance, dimension, t)
  }

  /** Before the centroids settle, no two iterations label all points alike. */
  lemma NoLabellingTwice(data: seq<Vector>, k: nat, history: seq<seq<Vector>>, tolerance: real, dimension: nat, labellings: seq<seq<nat>>,
                         sort: Sorting, n: nat, s: nat, t: nat)
    requires Rectangular(data, dimension) && Rounds(data, k, history, dimension, labellings, sort) && k != 0
    requires NotYetSettled(data, k, history, tolerance, dimension, n) && 0.0 <= tolerance && s < t < n
    ensures labellings[s] != labellings[t]
  {
    var a, b := s + 1, t + 1;
    if labellings[s] == labellings[t] {
      SameLabelsSamePlaces(data, k, history, dimension, labellings, sort, s, a, t, b);
      ComingBackIsStaying(data, k, history, dimension, labellings, sort, a, b, t);
      var c := a + 1;
      SameLabelsSamePlaces(data, k, history, dimension, labellings, sort, s, a, a, c);
      assert !SettledAt(data, k, history, tolerance, dimension, a);
      NothingMoved(history[a], history[c], tolerance, dimension);
    }
  }

  lemma SameLabelsSamePlaces(data: seq<Vector>, k: nat, history: seq<seq<Vector>>, dimension: nat, labellings: seq<seq<nat>>,
                             sort: Sorting, s: nat, a: nat, t: nat, b: nat)
    requires Rectangular(data, dimension) && Rounds(data, k, history, dimension, labellings, sort)
    requires a == s + 1 < |history| && b == t + 1 < |history| && labellings[s] == labellings[t]
    ensures history[a] == history[b]
  {
    TheRound(data, k, history, dimension, labellings, sort, s, a);
    TheRound(data, k, history, dimension, labellings, sort, t, b);
    SameLabelsSameCentres(data, history[s], history[a], history[t], history[b], dimension, labellings[s], sort);
  }

  /* ---------------------------------------------------------------- how many labellings there are */

  function Power(k: nat, n: nat): nat {
    if n == 0 then 1 else k * Power(k, n - 1)
  }

  /** The labels as the digits of a number. */
  function Code(labels: seq<nat>, k: nat): nat {
    if labels == [] then 0 else k * Code(labels[..|labels| - 1], k) + labels[|labels| - 1]
  }

  predicate Digits(labels: seq<nat>, k: nat) {
    forall i | 0 <= i < |labels| :: labels[i] < k
  }

  lemma {:induction false} ProductGrows(k: nat, a: nat, b: nat)
    requires a < b
    ensures k * a + k <= k * b
  {
    if a + 1 < b {
      ProductGrows(k, a, b - 1);
    }
    ProductStep(k, b - 1);
  }

  lemma ProductStep(k: nat, a: nat)
    ensures k * (a + 1) == k * a + k
  {
  }

  lemma LastDigit(k: nat, a: nat, x: nat, b: nat, y: nat)
    requires x < k && y < k && k * a + x == k * b + y
    ensures a == b && x == y
  {
    if a < b {
      ProductGrows(k, a, b);
    } else if b < a {
      ProductGrows(k, b, a);
    }
  }

  lemma {:induction false} CodeBelowPower(labels: seq<nat>, k: nat)
    requires Digits(labels, k)
    ensures Code(labels, k) < Power(k, |labels|)
  {
    if labels != [] {
      var last: nat := |labels| - 1;
      CodeBelowPower(labels[..last], k);
      ProductGrows(k, Code(labels[..last], k), Power(k, last));
    }
  }

  lemma {:induction false} CodesDiffer(labels: seq<nat>, others: seq<nat>, k: nat)
    requires Digits(labels, k) && Digits(others, k) && |labels| == |others| && Code(labels, k) == Code(others, k)
    ensures labels == others
  {
    if labels != [] {
      var last: nat := |labels| - 1;
      LastDigit(k, Code(labels[..last], k), labels[last], Code(others[..last], k), others[last]);
      CodesDiffer(labels[..last], others[..last], k);
      assert labels == labels[..last] + [labels[last]] && others == others[..last] + [others[last]];
    }
  }

  lemma FewLabellings(labellings: seq<seq<nat>>, k: nat, n: nat)
    requires Different(labellings) && forall t | 0 <= t < |labellings| :: |labellings[t]| == n && Digits(labellings[t], k)
    ensures |labellings| <= Power(k, n)
  {
    var codes := seq(|labellings|, t requires 0 <= t < |labellings| => Code(labellings[t], k));
    forall t | 0 <= t < |codes|
      ensures codes[t] < Power(k, n)
    {
      CodeBelowPower(labellings[t], k);
    }
    forall s, t | 0 <= s < t < |codes|
      ensures codes[s] != codes[t]
    {
      if codes[s] == codes[t] {
        CodesDiffer(labellings[s], labellings[t], k);
      }
    }
    FewDifferentBelow(codes, Power(k, n));
  }

  /* ---------------------------------------------------------------- every run settles */

  /** However many iterations are allowed, and however the distances are sorted: at most as many pass
      without settling as there are ways to label the points. */
  lemma EveryRunSettles(data: seq<Vector>, k: nat, history: seq<seq<Vector>>, tolerance: real, dimension: nat, labellings: seq<seq<nat>>,
                        sort: Sorting, n: nat)
    requires Rectangular(data, dimension) && Rounds(data, k, history, dimension, labellings, sort) && k != 0
    requires NotYetSettled(data, k, history, tolerance, dimension, n) && 0.0 <= tolerance
    ensures n <= Power(k, |data|)
  {
    var first := labellings[..n];
    forall t | 0 <= t < |first|
      ensures |first[t]| == |data| && Digits(first[t], k)
    {
      assert RoundAt(data, k, history, dimension, labellings, sort, t);
    }
    forall s, t | 0 <= s < t < |first|
      ensures first[s] != first[t]
    {
      NoLabellingTwice(data, k, history, tolerance, dimension, labellings, sort, n, s, t);
    }
    FewLabellings(first, k, |data|);
  }

  /** So the loop ends by itself after at most one iteration more. */
  lemma IterationsAreFew(data: seq<Vector>, k: nat, history: seq<seq<Vector>>, maxIterations: nat, tolerance: real, dimension: nat,
                         labellings: seq<seq<nat>>, sort: Sorting)
    requires Rectangular(data, dimension) && Rounds(data, k, history, dimension, labellings, sort) && k != 0
    requires Steps(data, k, history, dimension) && Stopped(data, k, history, maxIterations, tolerance, dimension) && 0.0 <= tolerance
    ensures |history| - 1 <= Power(k, |data|) + 1
    ensures Power(k, |data|) + 1 < maxIterations ==>
              2 <= |history| && SettledAt(data, k, history, tolerance, dimension, |history| - 2)
  {
    if 2 <= |history| {
      EveryRunSettles(data, k, history, tolerance, dimension, labellings, sort, |history| - 2);
    }
  }

  /* ---------------------------------------------------------------- if ties were broken differently each time */

  const POINTS: seq<Vector> := [[0.0], [0.0], [10.0]]
  const NEAR: seq<Vector> := [[0.0], [10.0], [0.0]]
  const FAR: seq<Vector> := [[0.0], [10.0], [10.0]]
  const LABELS: seq<nat> := [0, 0, 1]

  lemma MeansOfPoints()
    ensures Count(LABELS, 0, 3) == 2 && Count(LABELS, 1, 3) == 1 && Count(LABELS, 2, 3) == 0
    ensures Mean(POINTS, LABELS, 0, 1) == [0.0] && Mean(POINTS, LABELS, 1, 1) == [10.0]
  {
    assert Count(LABELS, 0, 1) == 1 && Count(LABELS, 1, 1) == 0 && Count(LABELS, 2, 1) == 0;
    assert Count(LABELS, 0, 2) == 2 && Count(LABELS, 1, 2) == 0 && Count(LABELS, 2, 2) == 0;
    assert Zero(1) == [0.0];
    assert Sum(POINTS, LABELS, 0, 1, 1) == [0.0] && Sum(POINTS, LABELS, 1, 1, 1) == [0.0];
    assert Sum(POINTS, LABELS, 0, 1, 2) == [0.0] && Sum(POINTS, LABELS, 1, 1, 2) == [0.0];
    assert Sum(POINTS, LABELS, 0, 1, 3) == [0.0] && Sum(POINTS, LABELS, 1, 1, 3) == [10.0];
  }

  lemma Line(x: real, y: real)
    ensures Dist2([x], [y]) == Square(x - y)
  {
    assert [x][1..] == [] && [y][1..] == [];
  }

  lemma PointsAssigned(centres: seq<Vector>)
    requires centres == NEAR || centres == FAR
    ensures Rectangular(POINTS, 1) && Rectangular(centres, 1) && Assigned(POINTS, centres, LABELS, 1)
  {
    Line(0.0, 0.0);
    Line(0.0, 10.0);
    Line(10.0, 0.0);
    Line(10.0, 10.0);
  }

  lemma NobodyIsFar(moved: seq<Vector>, row: nat)
    requires (moved == NEAR || moved == FAR) && row < 3
    ensures Shaped(POINTS, LABELS, moved, 1) && Farthest(Distances(POINTS, LABELS, moved, 1), [row])
  {
    Line(0.0, 0.0);
    Line(10.0, 10.0);
    assert Distances(POINTS, LABELS, moved, 1) == [0.0, 0.0, 0.0];
  }

  lemma OneStepBetween(centres: seq<Vector>, moved: seq<Vector>, row: nat)
    requires (centres == NEAR && moved == FAR && row == 2) || (centres == FAR && moved == NEAR && row == 0)
    ensures Rectangular(POINTS, 1) && Rectangular(centres, 1) && Step(POINTS, centres, moved, 1)
  {
    MeansOfPoints();
    PointsAssigned(centres);
    NobodyIsFar(moved, row);
    assert Recentred(POINTS, LABELS, centres, moved, 1, [2], [row]);
  }

  lemma SquareGrows(a: real, b: real)
    requires 0.0 <= a < b
    ensures Square(a) < Square(b)
  {
    var way, sum := b - a, b + a;
    var product := way * sum;
    assert 0.0 < product by {
      PositiveProduct(way, sum);
    }
    assert product == b * b - a * a;
  }

  lemma PositiveProduct(x: real, y: real)
    requires 0.0 < x && 0.0 < y
    ensures 0.0 < x * y
  {
  }

  lemma FarApart(tolerance: real)
    requires 0.0 <= tolerance < 10.0
    ensures Square(tolerance) < Dist2(FAR[2], NEAR[2]) && Square(tolerance) < Dist2(NEAR[2], FAR[2])
  {
    Line(10.0, 0.0);
    Line(0.0, 10.0);
    SquareGrows(tolerance, 10.0);
  }

  /** That ties are always broken alike is needed: if empty centroids could go to any of the farthest
      rows, one could go back and forth for ever. */
  lemma TiesMatter(tolerance: real)
    requires 0.0 <= tolerance < 10.0
    ensures Rectangular(POINTS, 1) && Rectangular(NEAR, 1) && Rectangular(FAR, 1)
    ensures Step(POINTS, NEAR, FAR, 1) && Step(POINTS, FAR, NEAR, 1)
    ensures !Settled(NEAR, FAR, tolerance, 1) && !Settled(FAR, NEAR, tolerance, 1)
  {
    OneStepBetween(NEAR, FAR, 2);
    OneStepBetween(FAR, NEAR, 0);
    FarApart(tolerance);
  }
}
