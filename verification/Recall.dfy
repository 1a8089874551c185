/** Recall of an approximate nearest-neighbour search against the exact one, with and without regard
    to ties at the last place. */
module Recall {
  import opened Arithmetic
  import opened Collections

  type Rid = nat

  datatype Neighbour = Neighbour(rid: Rid, distance: real)

  datatype Measured = Measured(strict: real, tieAware: real) | BadResults

  function Ids(list: seq<Neighbour>): set<Rid> {
    set n | n in list :: n.rid
  }

  function Rids(list: seq<Neighbour>): seq<Rid> {
    seq(|list|, i requires 0 <= i < |list| => list[i].rid)
  }

  predicate NoRepeats(list: seq<Neighbour>) {
    Different(Rids(list))
  }

  /** The neighbours closer than the last one of the exact search. */
  function Closer(exact: seq<Neighbour>, threshold: real): set<Rid> {
    set n | n in exact && n.distance < threshold :: n.rid
  }

  /** How many of the results are exactly at the threshold. */
  function TiesIn(list: seq<Neighbour>, threshold: real): nat {
    if list == [] then 0
    else TiesIn(list[..|list| - 1], threshold) + if list[|list| - 1].distance == threshold then 1 else 0
  }

  function StrictHits(obtained: seq<Neighbour>, exact: seq<Neighbour>): nat {
    |Ids(obtained) * Ids(exact)|
  }

  /** The closer rows that were found, and ties for as many of the other places as there are. */
  function TieAwareHits(obtained: seq<Neighbour>, exact: seq<Neighbour>, k: nat): int
    requires exact != []
  {
    var threshold := exact[|exact| - 1].distance;
    var closer := Closer(exact, threshold);
    |Ids(obtained) * closer| + Least(k - |closer|, TiesIn(obtained, threshold))
  }

  /** Both measures of `obtained` against the `k` exact neighbours. */
  function Evaluate(obtained: seq<Neighbour>, exact: seq<Neighbour>, k: nat): Measured
    requires exact != [] && 1 <= k
  {
    if !NoRepeats(obtained) || k < |obtained| then BadResults
    else Measured(StrictHits(obtained, exact) as real / k as real, TieAwareHits(obtained, exact, k) as real / k as real)
  }

  /* ---------------------------------------------------------------- what the lists are */

  /** The results are rows of the table, each at its own distance. */
  ghost predicate Measures(list: seq<Neighbour>, distance: map<Rid, real>) {
    forall n | n in list :: n.rid in distance && distance[n.rid] == n.distance
  }

  /** The `k` rows nearest to the query, nearest first; which of several equally near rows come last
      is open. */
  ghost predicate Nearest(exact: seq<Neighbour>, distance: map<Rid, real>, k: nat) {
    && |exact| == k && NoRepeats(exact) && Measures(exact, distance)
    && (forall i, j | 0 <= i < j < k :: exact[i].distance <= exact[j].distance)
    && (forall n, rid | n in exact && rid in distance && rid !in Ids(exact) :: n.distance <= distance[rid])
  }

  /** As many rows as asked for, and none that is farther than a row that was left out. */
  ghost predicate AsNearAsAny(obtained: seq<Neighbour>, distance: map<Rid, real>, k: nat) {
    && |obtained| == k
    && (forall n, rid | n in obtained && rid in distance && rid !in Ids(obtained) :: n.distance <= distance[rid])
  }

  /* ---------------------------------------------------------------- counting */

  lemma IdsAreCounted(list: seq<Neighbour>)
    requires NoRepeats(list)
    ensures |Ids(list)| == |list|
  {
    DifferentAreCounted(Rids(list));
    IdsAreElements(list);
  }

  /** All but the last row of a list. */
  lemma LastIsNew(list: seq<Neighbour>, last: nat)
    requires NoRepeats(list) && |list| == last + 1
    ensures NoRepeats(list[..last]) && list[last].rid !in Ids(list[..last]) && list == list[..last] + [list[last]]
  {
    assert Rids(list[..last]) == Rids(list)[..last];
    forall n | n in list[..last]
      ensures n.rid != list[last].rid
    {
      var i :| 0 <= i < last && list[i] == n;
      assert Rids(list)[i] != Rids(list)[last];
    }
  }

  /** The places of the list whose rows are among these. */
  function PlacesOf(list: seq<Neighbour>, rids: set<Rid>): set<nat> {
    set i: nat | i < |list| && list[i].rid in rids
  }

  lemma IdsAreElements(list: seq<Neighbour>)
    ensures Ids(list) == Elements(Rids(list))
  {
    forall rid
      ensures rid in Ids(list) <==> rid in Rids(list)
    {
      if rid in Ids(list) {
        var n :| n in list && n.rid == rid;
        var i :| 0 <= i < |list| && list[i] == n;
        assert Rids(list)[i] == rid;
      }
    }
  }

  lemma PlacesAreCounted(list: seq<Neighbour>, rids: set<Rid>)
    requires NoRepeats(list)
    ensures |Ids(list) * rids| == |PlacesOf(list, rids)|
  {
    IdsAreElements(list);
    MarkedAreCounted(Rids(list), rids);
    assert MarkedPlaces(Rids(list), rids) == PlacesOf(list, rids);
  }

  /** The rows of the list at the threshold. */
  function AtThreshold(list: seq<Neighbour>, threshold: real): set<Rid> {
    set n | n in list && n.distance == threshold :: n.rid
  }

  lemma {:induction false} TiesAreCounted(list: seq<Neighbour>, threshold: real)
    requires NoRepeats(list)
    ensures TiesIn(list, threshold) == |AtThreshold(list, threshold)|
  {
    if list == [] {
      assert AtThreshold(list, threshold) == {};
    } else {
      var last: nat := |list| - 1;
      var fewer, n := list[..last], list[last];
      LastIsNew(list, last);
      TiesAreCounted(fewer, threshold);
      if n.distance == threshold {
        assert AtThreshold(list, threshold) == AtThreshold(fewer, threshold) + {n.rid};
        assert n.rid !in AtThreshold(fewer, threshold);
      } else {
        assert AtThreshold(list, threshold) == AtThreshold(fewer, threshold);
      }
    }
  }

  /** A row of a measured list is in a part of it exactly when its distance says so. */
  lemma InList(list: seq<Neighbour>, distance: map<Rid, real>, threshold: real, rid: Rid)
    requires Measures(list, distance)
    ensures rid in Ids(list) ==> rid in distance
    ensures rid in Closer(list, threshold) <==> rid in Ids(list) && distance[rid] < threshold
    ensures rid in AtThreshold(list, threshold) <==> rid in Ids(list) && distance[rid] == threshold
  {
  }

  /** The exact neighbours are the closer rows and, for the places that are left, rows at the threshold. */
  lemma ExactParts(exact: seq<Neighbour>, distance: map<Rid, real>, k: nat)
    requires Nearest(exact, distance, k) && 1 <= k
    ensures var t := exact[k - 1].distance;
      && Ids(exact) == Closer(exact, t) + AtThreshold(exact, t) && Closer(exact, t) !! AtThreshold(exact, t)
      && |Closer(exact, t)| + |AtThreshold(exact, t)| == k && |Closer(exact, t)| < k
  {
    var t := exact[k - 1].distance;
    var closer, ties := Closer(exact, t), AtThreshold(exact, t);
    forall rid
      ensures rid in Ids(exact) <==> rid in closer || rid in ties
      ensures !(rid in closer && rid in ties)
    {
      InOnePart(exact, distance, k, rid);
    }
    IdsAreCounted(exact);
    assert exact[k - 1] in exact && exact[k - 1].rid in ties;
    PartsAddUp(Ids(exact), closer, ties, exact[k - 1].rid);
  }

  lemma InOnePart(exact: seq<Neighbour>, distance: map<Rid, real>, k: nat, rid: Rid)
    requires Nearest(exact, distance, k) && 1 <= k
    ensures var t := exact[k - 1].distance;
      && (rid in Ids(exact) <==> rid in Closer(exact, t) || rid in AtThreshold(exact, t))
      && !(rid in Closer(exact, t) && rid in AtThreshold(exact, t))
  {
    var t := exact[k - 1].distance;
    InList(exact, distance, t, rid);
    if rid in Ids(exact) {
      var n :| n in exact && n.rid == rid;
      assert n.distance <= t;
    }
  }

  lemma PartsAddUp<T(!new)>(all: set<T>, some: set<T>, others: set<T>, other: T)
    requires (forall x :: x in all <==> x in some || x in others) && (forall x :: !(x in some && x in others)) && other in others
    ensures all == some + others && some !! others && |some| + |others| == |all| && |some| < |all|
  {
    assert all == some + others;
    assert |others - {other}| == |others| - 1;
  }

  /** Every row closer than the threshold is among the exact neighbours. */
  lemma NothingCloserIsMissed(exact: seq<Neighbour>, distance: map<Rid, real>, k: nat, rid: Rid)
    requires Nearest(exact, distance, k) && 1 <= k && rid in distance
    ensures distance[rid] < exact[k - 1].distance <==> rid in Closer(exact, exact[k - 1].distance)
  {
  }

  /* ---------------------------------------------------------------- the two measures */

  lemma SplitCount<T>(o: set<T>, c: set<T>, t: set<T>)
    requires c !! t
    ensures |o * (c + t)| == |o * c| + |o * t|
  {
    assert o * (c + t) == o * c + o * t;
  }

  lemma OverlapsCompare<T>(o: set<T>, all: set<T>, c: set<T>, t: set<T>, ties: nat, k: nat)
    requires all == c + t && c !! t && |c| + |t| <= k && |o * t| <= ties
    ensures |o * all| <= |o * c| + Least(k - |c|, ties) <= k
  {
    SplitCount(o, c, t);
    FewerIn(o * c, c);
    FewerIn(o * t, t);
  }

  /** Exact neighbours at the threshold that were found are results at the threshold. */
  lemma FoundTies(obtained: seq<Neighbour>, exact: seq<Neighbour>, distance: map<Rid, real>, t: real)
    requires Measures(exact, distance) && Measures(obtained, distance) && NoRepeats(obtained)
    ensures |Ids(obtained) * AtThreshold(exact, t)| <= TiesIn(obtained, t)
  {
    forall rid | rid in Ids(obtained) * AtThreshold(exact, t)
      ensures rid in AtThreshold(obtained, t)
    {
      InList(exact, distance, t, rid);
      InList(obtained, distance, t, rid);
    }
    FewerIn(Ids(obtained) * AtThreshold(exact, t), AtThreshold(obtained, t));
    TiesAreCounted(obtained, t);
  }

  /** An exact list of all there is can be shorter than `k`. */
  lemma PartsCompare(obtained: seq<Neighbour>, exact: seq<Neighbour>, distance: map<Rid, real>, m: nat, k: nat, t: real)
    requires Nearest(exact, distance, m) && 1 <= m <= k && Measures(obtained, distance) && NoRepeats(obtained)
    requires t == exact[m - 1].distance
    ensures |Ids(obtained) * Ids(exact)|
         <= |Ids(obtained) * Closer(exact, t)| + Least(k - |Closer(exact, t)|, TiesIn(obtained, t)) <= k
  {
    ExactParts(exact, distance, m);
    FoundTies(obtained, exact, distance, t);
    OverlapsCompare(Ids(obtained), Ids(exact), Closer(exact, t), AtThreshold(exact, t), TiesIn(obtained, t), k);
  }

  lemma TieAwareHitsAre(obtained: seq<Neighbour>, exact: seq<Neighbour>, m: nat, k: nat, t: real)
    requires 1 <= m == |exact| && t == exact[m - 1].distance
    ensures TieAwareHits(obtained, exact, k)
         == |Ids(obtained) * Closer(exact, t)| + Least(k - |Closer(exact, t)|, TiesIn(obtained, t))
  {
    var last: nat := |exact| - 1;
    assert last == m - 1 && exact[last].distance == t;
  }

  /** The hits behind both measures, and how they compare. */
  lemma HitsCompare(obtained: seq<Neighbour>, exact: seq<Neighbour>, distance: map<Rid, real>, m: nat, k: nat)
    requires Nearest(exact, distance, m) && 1 <= m <= k && Measures(obtained, distance) && NoRepeats(obtained)
    ensures StrictHits(obtained, exact) <= TieAwareHits(obtained, exact, k) <= k
  {
    var t := exact[m - 1].distance;
    PartsCompare(obtained, exact, distance, m, k, t);
    TieAwareHitsAre(obtained, exact, m, k, t);
  }

  lemma SharesCompare(a: int, b: int, k: nat) returns (strict: real, tieAware: real)
    requires 0 <= a <= b <= k && 1 <= k
    ensures strict == a as real / k as real && tieAware == b as real / k as real
    ensures 0.0 <= strict <= tieAware <= 1.0 && (tieAware == 1.0 <==> b == k)
  {
    strict, tieAware := a as real / k as real, b as real / k as real;
    assert tieAware * k as real == b as real;
  }

  /** Both measures are shares, and regard for ties never lowers the recall, for exact lists of `k` rows
      and shorter ones. */
  lemma StrictIsAtMostTieAware(obtained: seq<Neighbour>, exact: seq<Neighbour>, distance: map<Rid, real>, m: nat, k: nat)
    requires Nearest(exact, distance, m) && 1 <= m <= k && Measures(obtained, distance)
    requires NoRepeats(obtained) && |obtained| <= k
    ensures Evaluate(obtained, exact, k).Measured?
    ensures 0.0 <= Evaluate(obtained, exact, k).strict <= Evaluate(obtained, exact, k).tieAware <= 1.0
    ensures Evaluate(obtained, exact, k).tieAware == 1.0 <==> TieAwareHits(obtained, exact, k) == k
  {
    HitsCompare(obtained, exact, distance, m, k);
    var strict, tieAware := SharesCompare(StrictHits(obtained, exact), TieAwareHits(obtained, exact, k), k);
    assert Evaluate(obtained, exact, k) == Measured(strict, tieAware);
  }

  /** The places of the results whose rows the exact list has. */
  function Found(obtained: seq<Neighbour>, exact: seq<Neighbour>): set<nat> {
    set i: nat | i < |obtained| && exists j :: 0 <= j < |exact| && exact[j].rid == obtained[i].rid
  }

  /** Those whose rows it has nearer than the threshold. */
  function FoundCloser(obtained: seq<Neighbour>, exact: seq<Neighbour>, threshold: real): set<nat> {
    set i: nat | i < |obtained| && exists j :: 0 <= j < |exact| && exact[j].rid == obtained[i].rid && exact[j].distance < threshold
  }

  /** The places of a list nearer than the threshold, and those at it. */
  function PlacesBelow(list: seq<Neighbour>, threshold: real): set<nat> {
    set i: nat | i < |list| && list[i].distance < threshold
  }

  function PlacesAt(list: seq<Neighbour>, threshold: real): set<nat> {
    set i: nat | i < |list| && list[i].distance == threshold
  }

  lemma OneMoreTie(fewer: seq<Neighbour>, n: Neighbour, threshold: real)
    ensures |PlacesAt(fewer + [n], threshold)| == |PlacesAt(fewer, threshold)| + if n.distance == threshold then 1 else 0
  {
    var list := fewer + [n];
    if n.distance == threshold {
      assert PlacesAt(list, threshold) == PlacesAt(fewer, threshold) + {|fewer|};
    } else {
      assert PlacesAt(list, threshold) == PlacesAt(fewer, threshold);
    }
  }

  lemma {:induction false} TiesArePlaces(list: seq<Neighbour>, threshold: real)
    ensures TiesIn(list, threshold) == |PlacesAt(list, threshold)|
  {
    if list == [] {
      assert PlacesAt(list, threshold) == {};
    } else {
      var last: nat := |list| - 1;
      assert list == list[..last] + [list[last]];
      TiesArePlaces(list[..last], threshold);
      OneMoreTie(list[..last], list[last], threshold);
    }
  }

  lemma CloserAreThose(list: seq<Neighbour>, threshold: real, rid: Rid)
    ensures rid in Closer(list, threshold) <==> exists j :: 0 <= j < |list| && list[j].rid == rid && list[j].distance < threshold
  {
    if j :| 0 <= j < |list| && list[j].rid == rid && list[j].distance < threshold {
      assert list[j] in list;
    }
  }

  lemma FoundAreThose(obtained: seq<Neighbour>, exact: seq<Neighbour>, threshold: real)
    ensures Found(obtained, exact) == PlacesOf(obtained, Ids(exact))
    ensures FoundCloser(obtained, exact, threshold) == PlacesOf(obtained, Closer(exact, threshold))
  {
    forall rid
      ensures rid in Closer(exact, threshold) <==> exists j :: 0 <= j < |exact| && exact[j].rid == rid && exact[j].distance < threshold
    {
      CloserAreThose(exact, threshold, rid);
    }
    forall i: nat | i < |obtained|
      ensures i in Found(obtained, exact) <==> i in PlacesOf(obtained, Ids(exact))
    {
      if j :| 0 <= j < |exact| && exact[j].rid == obtained[i].rid {
        assert exact[j] in exact;
      }
    }
  }

  lemma BelowAreCloser(exact: seq<Neighbour>, threshold: real)
    requires NoRepeats(exact)
    ensures |Closer(exact, threshold)| == |PlacesBelow(exact, threshold)|
  {
    PlacesAreCounted(exact, Closer(exact, threshold));
    assert Ids(exact) * Closer(exact, threshold) == Closer(exact, threshold);
    forall i: nat | i < |exact|
      ensures exact[i].rid in Closer(exact, threshold) <==> exact[i].distance < threshold
    {
      CloserAreThose(exact, threshold, exact[i].rid);
      assert forall j | 0 <= j < |exact| && exact[j].rid == exact[i].rid :: Rids(exact)[j] == Rids(exact)[i];
    }
    assert PlacesOf(exact, Closer(exact, threshold)) == PlacesBelow(exact, threshold);
  }

  lemma HitsByPlaces(obtained: seq<Neighbour>, exact: seq<Neighbour>, k: nat, t: real)
    requires exact != [] && NoRepeats(exact) && NoRepeats(obtained) && t == exact[|exact| - 1].distance
    ensures StrictHits(obtained, exact) == |Found(obtained, exact)|
    ensures TieAwareHits(obtained, exact, k)
         == |FoundCloser(obtained, exact, t)| + Least(k - |PlacesBelow(exact, t)|, |PlacesAt(obtained, t)|)
  {
    PlacesAreCounted(obtained, Ids(exact));
    PlacesAreCounted(obtained, Closer(exact, t));
    FoundAreThose(obtained, exact, t);
    BelowAreCloser(exact, t);
    TiesArePlaces(obtained, t);
  }

  /** Both measures by counting places: the strict one has the results that the exact list has; the
      tie-aware one those it has nearer than its last row, and besides results as far as that, up to
      as many as there are places left. */
  lemma MeasuresCount(obtained: seq<Neighbour>, exact: seq<Neighbour>, k: nat)
    requires exact != [] && 1 <= k && NoRepeats(exact) && NoRepeats(obtained) && |obtained| <= k
    ensures var t := exact[|exact| - 1].distance;
      var tieAware := |FoundCloser(obtained, exact, t)| + Least(k - |PlacesBelow(exact, t)|, |PlacesAt(obtained, t)|);
      Evaluate(obtained, exact, k) == Measured(|Found(obtained, exact)| as real / k as real, tieAware as real / k as real)
  {
    HitsByPlaces(obtained, exact, k, exact[|exact| - 1].distance);
  }

  lemma FullOverlap<T>(o: set<T>, c: set<T>, ties: nat, k: nat)
    requires |c| <= k
    ensures |o * c| + Least(k - |c|, ties) == k <==> c <= o && k - |c| <= ties
  {
    FewerIn(o * c, c);
    if |o * c| == |c| {
      AllOf(o, c);
    }
    assert c <= o ==> o * c == c;
  }

  lemma FullHitsMean(obtained: seq<Neighbour>, exact: seq<Neighbour>, m: nat, k: nat, t: real)
    requires 1 <= m == |exact| && t == exact[m - 1].distance && |Closer(exact, t)| <= k
    ensures TieAwareHits(obtained, exact, k) == k <==>
              Closer(exact, t) <= Ids(obtained) && k - |Closer(exact, t)| <= TiesIn(obtained, t)
  {
    TieAwareHitsAre(obtained, exact, m, k, t);
    FullOverlap(Ids(obtained), Closer(exact, t), TiesIn(obtained, t), k);
  }

  /** The tie-aware recall is full exactly when every closer row was found and the places that are
      left went to rows at the threshold. */
  lemma FullRecallMeans(obtained: seq<Neighbour>, exact: seq<Neighbour>, distance: map<Rid, real>, m: nat, k: nat)
    requires Nearest(exact, distance, m) && 1 <= m <= k && Measures(obtained, distance)
    requires NoRepeats(obtained) && |obtained| <= k
    ensures var t := exact[m - 1].distance;
      Evaluate(obtained, exact, k).tieAware == 1.0 <==>
        Closer(exact, t) <= Ids(obtained) && k - |Closer(exact, t)| <= TiesIn(obtained, t)
  {
    StrictIsAtMostTieAware(obtained, exact, distance, m, k);
    ExactParts(exact, distance, m);
    FullHitsMean(obtained, exact, m, k, exact[m - 1].distance);
  }

  lemma AllOf<T>(a: set<T>, b: set<T>)
    requires |a * b| == |b|
    ensures b <= a
  {
    if x :| x in b && x !in a {
      FewerIn(a * b, b - {x});
    }
  }

  /* ---------------------------------------------------------------- what full recall is worth */

  /** Closer rows and enough ties: the results are as near as any. */
  lemma ThenAsNearAsAny(obtained: seq<Neighbour>, exact: seq<Neighbour>, distance: map<Rid, real>, k: nat)
    requires Nearest(exact, distance, k) && 1 <= k && Measures(obtained, distance) && NoRepeats(obtained) && |obtained| <= k
    requires Closer(exact, exact[k - 1].distance) <= Ids(obtained)
    requires k - |Closer(exact, exact[k - 1].distance)| <= TiesIn(obtained, exact[k - 1].distance)
    ensures AsNearAsAny(obtained, distance, k)
  {
    var t := exact[k - 1].distance;
    var closer, ties, ids := Closer(exact, t), AtThreshold(obtained, t), Ids(obtained);
    TiesAreCounted(obtained, t);
    IdsAreCounted(obtained);
    forall rid | rid in closer || rid in ties
      ensures rid in ids && !(rid in closer && rid in ties)
    {
      InList(obtained, distance, t, rid);
      InList(exact, distance, t, rid);
    }
    assert |closer + ties| == |closer| + |ties|;
    SameSize(closer + ties, ids);
    forall n, rid | n in obtained && rid in distance && rid !in ids
      ensures n.distance <= distance[rid]
    {
      assert n.rid in ids;
      InList(obtained, distance, t, n.rid);
      InList(exact, distance, t, n.rid);
      NothingCloserIsMissed(exact, distance, k, rid);
    }
  }

  /** Results that are as near as any hold every closer row. */
  lemma AsNearHoldsCloser(obtained: seq<Neighbour>, exact: seq<Neighbour>, distance: map<Rid, real>, k: nat)
    requires Nearest(exact, distance, k) && 1 <= k && Measures(obtained, distance) && NoRepeats(obtained)
    requires AsNearAsAny(obtained, distance, k)
    ensures Closer(exact, exact[k - 1].distance) <= Ids(obtained)
  {
    var t := exact[k - 1].distance;
    var closer, ids := Closer(exact, t), Ids(obtained);
    ExactParts(exact, distance, k);
    IdsAreCounted(obtained);
    if c :| c in closer && c !in ids {
      InList(exact, distance, t, c);
      forall rid | rid in ids
        ensures rid in closer
      {
        var n :| n in obtained && n.rid == rid;
        NothingCloserIsMissed(exact, distance, k, rid);
      }
      FewerIn(ids, closer);
      assert false;
    }
  }

  /** And nothing beyond the threshold. */
  lemma AsNearEndsAtThreshold(obtained: seq<Neighbour>, exact: seq<Neighbour>, distance: map<Rid, real>, k: nat, n: Neighbour)
    requires Nearest(exact, distance, k) && 1 <= k && Measures(obtained, distance) && NoRepeats(obtained)
    requires AsNearAsAny(obtained, distance, k) && n in obtained
    ensures n.distance <= exact[k - 1].distance
  {
    ExactIsWithin(exact, distance, k);
    assert n.rid in Ids(obtained);
    if n.rid !in Ids(exact) {
      OneIsMissing(obtained, exact, k, n.rid);
    }
  }

  lemma OneIsMissing(obtained: seq<Neighbour>, exact: seq<Neighbour>, k: nat, other: Rid)
    requires NoRepeats(obtained) && NoRepeats(exact) && |obtained| == |exact| == k
    requires other in Ids(obtained) && other !in Ids(exact)
    ensures exists rid :: rid in Ids(exact) && rid !in Ids(obtained)
  {
    IdsAreCounted(obtained);
    IdsAreCounted(exact);
    if Ids(exact) <= Ids(obtained) {
      SameSize(Ids(exact), Ids(obtained));
    }
  }

  lemma AsNearHasTies(obtained: seq<Neighbour>, exact: seq<Neighbour>, distance: map<Rid, real>, k: nat)
    requires Nearest(exact, distance, k) && 1 <= k && Measures(obtained, distance) && NoRepeats(obtained)
    requires AsNearAsAny(obtained, distance, k)
    ensures k - |Closer(exact, exact[k - 1].distance)| <= TiesIn(obtained, exact[k - 1].distance)
  {
    var t := exact[k - 1].distance;
    var closer, ties, ids := Closer(exact, t), AtThreshold(obtained, t), Ids(obtained);
    IdsAreCounted(obtained);
    TiesAreCounted(obtained, t);
    forall rid | rid in ids
      ensures rid in closer || rid in ties
    {
      var n :| n in obtained && n.rid == rid;
      AsNearEndsAtThreshold(obtained, exact, distance, k, n);
      InList(obtained, distance, t, rid);
      NothingCloserIsMissed(exact, distance, k, rid);
    }
    FewerIn(ids, closer + ties);
  }

  /** Full tie-aware recall says what it should: the results are `k` rows than which no row left out
      is nearer, whichever of equally near rows the exact search happened to list. */
  lemma FullRecallIsExactSearch(obtained: seq<Neighbour>, exact: seq<Neighbour>, distance: map<Rid, real>, k: nat)
    requires Nearest(exact, distance, k) && 1 <= k && Measures(obtained, distance)
    requires NoRepeats(obtained) && |obtained| <= k
    ensures Evaluate(obtained, exact, k).tieAware == 1.0 <==> AsNearAsAny(obtained, distance, k)
  {
    FullRecallMeans(obtained, exact, distance, k, k);
    if AsNearAsAny(obtained, distance, k) {
      AsNearHoldsCloser(obtained, exact, distance, k);
      AsNearHasTies(obtained, exact, distance, k);
    }
    if Evaluate(obtained, exact, k).tieAware == 1.0 {
      ThenAsNearAsAny(obtained, exact, distance, k);
    }
  }

  datatype Case = Case(success: bool, missing: set<Rid>)

  /** A gallery case is a success when its tie-aware recall is full. */
  function Classify(obtained: seq<Neighbour>, exact: seq<Neighbour>, k: nat): Case
    requires exact != [] && 1 <= k
  {
    Case(TieAwareHits(obtained, exact, k) as real / k as real == 1.0, Ids(exact) - Ids(obtained))
  }

  /** Of validated results: a success is an exact answer, and exact neighbours can only be missing
      from one because equally near rows took their places. */
  lemma SuccessMeans(obtained: seq<Neighbour>, exact: seq<Neighbour>, distance: map<Rid, real>, k: nat)
    requires Nearest(exact, distance, k) && 1 <= k && Measures(obtained, distance) && NoRepeats(obtained) && |obtained| == k
    ensures Classify(obtained, exact, k).success <==> AsNearAsAny(obtained, distance, k)
    ensures Classify(obtained, exact, k).success ==>
              forall rid | rid in Classify(obtained, exact, k).missing :: rid in distance && distance[rid] == exact[k - 1].distance
  {
    FullRecallIsExactSearch(obtained, exact, distance, k);
    if Classify(obtained, exact, k).success {
      AsNearHoldsCloser(obtained, exact, distance, k);
      ExactParts(exact, distance, k);
      forall rid | rid in Ids(exact) - Ids(obtained)
        ensures rid in distance && distance[rid] == exact[k - 1].distance
      {
        InList(exact, distance, exact[k - 1].distance, rid);
      }
    }
  }

  /* ---------------------------------------------------------------- when strict recall is fair */

  /** The rows no farther than the threshold. */
  function Within(distance: map<Rid, real>, threshold: real): set<Rid> {
    set rid | rid in distance && distance[rid] <= threshold
  }

  lemma ExactIsWithin(exact: seq<Neighbour>, distance: map<Rid, real>, k: nat)
    requires Nearest(exact, distance, k) && 1 <= k
    ensures Ids(exact) <= Within(distance, exact[k - 1].distance) && |Ids(exact)| == k
    ensures k <= |Within(distance, exact[k - 1].distance)|
  {
    var t := exact[k - 1].distance;
    IdsAreCounted(exact);
    forall rid | rid in Ids(exact)
      ensures rid in Within(distance, t)
    {
      var n :| n in exact && n.rid == rid;
      var i :| 0 <= i < k && exact[i] == n;
      assert exact[i].distance <= t;
    }
    FewerIn(Ids(exact), Within(distance, t));
  }

  /** Where no row left out is as near as the last one, results as near as any are the same rows. */
  lemma OnlyOneAnswer(obtained: seq<Neighbour>, exact: seq<Neighbour>, distance: map<Rid, real>, k: nat)
    requires Nearest(exact, distance, k) && 1 <= k && Measures(obtained, distance) && NoRepeats(obtained)
    requires AsNearAsAny(obtained, distance, k) && |Within(distance, exact[k - 1].distance)| == k
    ensures Ids(obtained) == Ids(exact)
  {
    var within := Within(distance, exact[k - 1].distance);
    ExactIsWithin(exact, distance, k);
    SameSize(Ids(exact), within);
    IdsAreCounted(obtained);
    forall rid | rid in Ids(obtained)
      ensures rid in within
    {
      var n :| n in obtained && n.rid == rid;
      AsNearEndsAtThreshold(obtained, exact, distance, k, n);
    }
    SameSize(Ids(obtained), within);
  }

  /** Another row at the threshold can take the last place. */
  lemma AnotherAnswer(exact: seq<Neighbour>, distance: map<Rid, real>, k: nat) returns (other: seq<Neighbour>)
    requires Nearest(exact, distance, k) && 1 <= k && |Within(distance, exact[k - 1].distance)| != k
    ensures Nearest(other, distance, k) && Ids(other) != Ids(exact)
  {
    var t, last := exact[k - 1].distance, exact[k - 1];
    ExactIsWithin(exact, distance, k);
    var w := ExtraMember(Ids(exact), Within(distance, t));
    assert last in exact && distance[w] == t;
    other := Replaced(exact, Neighbour(w, t));
    LastReplaced(exact, distance, k, Neighbour(w, t));
    ReplacedIds(exact, Neighbour(w, t));
    assert last.rid in Ids(exact) && last.rid !in Ids(other);
  }

  lemma ExtraMember<T>(few: set<T>, many: set<T>) returns (extra: T)
    requires few <= many && |few| != |many|
    ensures extra in many && extra !in few
  {
    assert few != many;
    extra :| extra in many && extra !in few;
  }

  /** The list with another row in its last place. */
  function Replaced(exact: seq<Neighbour>, w: Neighbour): (other: seq<Neighbour>)
    requires exact != []
    ensures |other| == |exact| && other[|exact| - 1] == w
    ensures forall i | 0 <= i < |exact| - 1 :: other[i] == exact[i]
  {
    exact[|exact| - 1 := w]
  }

  lemma ReplacedIds(exact: seq<Neighbour>, w: Neighbour)
    requires exact != [] && NoRepeats(exact) && w.rid !in Ids(exact)
    ensures NoRepeats(Replaced(exact, w))
    ensures forall rid :: rid in Ids(Replaced(exact, w)) <==> rid == w.rid || (rid in Ids(exact) && rid != exact[|exact| - 1].rid)
  {
    var other, k := Replaced(exact, w), |exact|;
    LastIsNew(exact, k - 1);
    assert Rids(other) == Rids(exact[..k - 1]) + [w.rid];
    forall i | 0 <= i < k
      ensures exact[i].rid in Ids(exact) && other[i].rid in Ids(other)
    {
      assert exact[i] in exact && other[i] in other;
    }
    forall rid | rid in Ids(exact) && rid != exact[k - 1].rid
      ensures rid in Ids(other)
    {
      var n :| n in exact && n.rid == rid;
      var i :| 0 <= i < k && exact[i] == n;
      assert other[i] == n;
    }
  }

  lemma LastReplaced(exact: seq<Neighbour>, distance: map<Rid, real>, k: nat, w: Neighbour)
    requires Nearest(exact, distance, k) && 1 <= k && w.rid !in Ids(exact)
    requires w.rid in distance && distance[w.rid] == w.distance == exact[k - 1].distance
    ensures Nearest(Replaced(exact, w), distance, k)
  {
    var last := exact[k - 1];
    var other := Replaced(exact, w);
    ReplacedIds(exact, w);
    forall n | n in other
      ensures n.distance <= last.distance && n.rid in distance && distance[n.rid] == n.distance
    {
      var i :| 0 <= i < k && other[i] == n;
      assert exact[i] in exact;
    }
    forall rid | rid in distance && rid !in Ids(other)
      ensures last.distance <= distance[rid]
    {
      assert last in exact;
    }
  }

  /** Which rows the exact search lists is settled exactly when no row left out is as near as the last. */
  lemma ExactListIsSettled(exact: seq<Neighbour>, distance: map<Rid, real>, k: nat)
    requires Nearest(exact, distance, k) && 1 <= k
    ensures (forall other | Nearest(other, distance, k) :: Ids(other) == Ids(exact))
       <==> |Within(distance, exact[k - 1].distance)| == k
  {
    if |Within(distance, exact[k - 1].distance)| == k {
      forall other | Nearest(other, distance, k)
        ensures Ids(other) == Ids(exact)
      {
        OnlyOneAnswer(other, exact, distance, k);
      }
    } else {
      var other := AnotherAnswer(exact, distance, k);
    }
  }

  /** Strict recall is full exactly for the very rows of the exact list. */
  lemma FullStrictRecallMeans(obtained: seq<Neighbour>, exact: seq<Neighbour>, distance: map<Rid, real>, k: nat)
    requires Nearest(exact, distance, k) && 1 <= k && Measures(obtained, distance) && NoRepeats(obtained) && |obtained| <= k
    ensures Evaluate(obtained, exact, k).Measured?
    ensures Evaluate(obtained, exact, k).strict == 1.0 <==> Ids(obtained) == Ids(exact)
  {
    IdsAreCounted(obtained);
    IdsAreCounted(exact);
    var hits := StrictHits(obtained, exact);
    if hits == k {
      AllOf(Ids(obtained), Ids(exact));
      SameSize(Ids(exact), Ids(obtained));
    }
    if Ids(obtained) == Ids(exact) {
      assert Ids(obtained) * Ids(exact) == Ids(exact);
    }
    FewerIn(Ids(obtained) * Ids(exact), Ids(exact));
    var strict, same := SharesCompare(hits, hits, k);
    assert Evaluate(obtained, exact, k).strict == strict;
  }

  /** Strict recall does every answer of an exact search justice exactly when no row left out of the
      list it measures against is as near as the last one in it. */
  lemma StrictIsFairExactly(exact: seq<Neighbour>, distance: map<Rid, real>, k: nat)
    requires Nearest(exact, distance, k) && 1 <= k
    ensures (forall obtained | Measures(obtained, distance) && NoRepeats(obtained) && AsNearAsAny(obtained, distance, k) ::
               Evaluate(obtained, exact, k).Measured? && Evaluate(obtained, exact, k).strict == 1.0)
       <==> |Within(distance, exact[k - 1].distance)| == k
  {
    if |Within(distance, exact[k - 1].distance)| == k {
      forall obtained | Measures(obtained, distance) && NoRepeats(obtained) && AsNearAsAny(obtained, distance, k)
        ensures Evaluate(obtained, exact, k).Measured? && Evaluate(obtained, exact, k).strict == 1.0
      {
        OnlyOneAnswer(obtained, exact, distance, k);
        FullStrictRecallMeans(obtained, exact, distance, k);
      }
    } else {
      var other := AnotherAnswer(exact, distance, k);
      assert AsNearAsAny(other, distance, k);
      FullStrictRecallMeans(other, exact, distance, k);
    }
  }

  /** Strict recall depends on which of equally near rows the exact search lists: it can be nothing
      while the results are as near as any. */
  lemma StrictCanMissTies(exact: seq<Neighbour>, obtained: seq<Neighbour>)
    requires exact == [Neighbour(0, 1.0)] && obtained == [Neighbour(1, 1.0)]
    ensures Nearest(exact, map[0 := 1.0, 1 := 1.0], 1) && Measures(obtained, map[0 := 1.0, 1 := 1.0])
    ensures StrictHits(obtained, exact) == 0 && TieAwareHits(obtained, exact, 1) == 1
  {
    TwoAtOnePlace(exact, obtained);
    assert Ids(obtained) * Ids(exact) == {};
    TieAwareHitsAre(obtained, exact, 1, 1, 1.0);
  }

  lemma TwoAtOnePlace(exact: seq<Neighbour>, obtained: seq<Neighbour>)
    requires exact == [Neighbour(0, 1.0)] && obtained == [Neighbour(1, 1.0)]
    ensures Ids(exact) == {0} && Ids(obtained) == {1} && Closer(exact, 1.0) == {} && TiesIn(obtained, 1.0) == 1
  {
  }
}
