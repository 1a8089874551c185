/** A bounded uniform sample of rows that arrive one by one. */
module Reservoir {
  import opened Arithmetic
  import opened Collections

  /** The positions of the sampled rows, after as many rows as fill the sample and one more for each
      number drawn. */
  function Kept(capacity: nat, draws: seq<nat>): (kept: seq<nat>)
    ensures |kept| == capacity
  {
    if draws == [] then seq(capacity, i => i)
    else
      var last := |draws| - 1;
      var before := Kept(capacity, draws[..last]);
      if draws[last] < capacity then before[draws[last] := capacity + last] else before
  }

  /** The sample holds different rows. */
  lemma {:induction false} KeptAreDifferent(capacity: nat, draws: seq<nat>)
    ensures forall i | 0 <= i < capacity :: Kept(capacity, draws)[i] < capacity + |draws|
    ensures forall i, j | 0 <= i < j < capacity :: Kept(capacity, draws)[i] != Kept(capacity, draws)[j]
  {
    if draws != [] {
      KeptAreDifferent(capacity, draws[..|draws| - 1]);
    }
  }

  /** Number `n` is the last one drawn that is `p`. */
  predicate LastOf(draws: seq<nat>, p: nat, n: nat) {
    n < |draws| && draws[n] == p && forall m | n < m < |draws| :: draws[m] != p
  }

  /** The place `p` of the sample ends with the last row that drew it, or with its first row if none did. */
  lemma {:induction false} KeptIsLastDrawn(capacity: nat, draws: seq<nat>, p: nat, i: nat)
    requires p < capacity
    ensures Kept(capacity, draws)[p] == i <==>
            (i == p && p !in draws) || exists n :: LastOf(draws, p, n) && i == capacity + n
  {
    if draws != [] {
      var last: nat := |draws| - 1;
      var before := draws[..last];
      KeptIsLastDrawn(capacity, before, p, i);
      assert draws == before + [draws[last]];
      assert draws[last] == p ==> LastOf(draws, p, last);
      forall n: nat
        ensures LastOf(draws, p, n) <==> if draws[last] == p then n == last else LastOf(before, p, n)
      {
        LastOfMore(draws, p, n, last);
      }
    }
  }

  lemma LastOfMore(draws: seq<nat>, p: nat, n: nat, last: nat)
    requires |draws| == last + 1
    ensures LastOf(draws, p, n) <==> if draws[last] == p then n == last else LastOf(draws[..last], p, n)
  {
  }

  /** One number for each row after the first `capacity`, each at most the position of its row. */
  predicate Drawn(capacity: nat, draws: seq<nat>) {
    forall i | 0 <= i < |draws| :: draws[i] <= capacity + i
  }

  /** Goes through the rows once, with a random number for each row that finds the sample full. As
      long as there is room every row is taken. */
  method Sample<T>(rows: seq<T>, capacity: nat) returns (sample: seq<T>, ghost draws: seq<nat>)
    ensures Drawn(capacity, draws)
    ensures |sample| == if |rows| < capacity then |rows| else capacity
    ensures forall row | row in sample :: row in rows
    ensures |rows| <= capacity ==> sample == rows && draws == []
    ensures capacity <= |rows| ==>
              && |draws| == |rows| - capacity && |sample| == capacity
              && forall i | 0 <= i < capacity ::
                   Kept(capacity, draws)[i] < |rows| && sample[i] == rows[Kept(capacity, draws)[i]]
  {
    sample, draws := [], [];
    for position := 0 to |rows|
      invariant Drawn(capacity, draws)
      invariant position <= capacity ==> sample == rows[..position] && draws == []
      invariant capacity <= position ==>
        && |draws| == position - capacity && |sample| == capacity
        && forall i | 0 <= i < capacity ::
             Kept(capacity, draws)[i] < position && sample[i] == rows[Kept(capacity, draws)[i]]
    {
      if position < capacity {
        sample := sample + [rows[position]];
      } else {
        var chosen: nat :| chosen < position + 1;
        ghost var before := draws;
        draws := draws + [chosen];
        assert draws[..|before|] == before;
        if chosen < capacity {
          sample := sample[chosen := rows[position]];
        }
      }
    }
  }

  /* ---------------------------------------------------------------- all the ways to draw */

  /** `draws` continued with each of the numbers below `m`. */
  function Continued(draws: seq<nat>, m: nat): (all: seq<seq<nat>>)
    ensures |all| == m
  {
    if m == 0 then [] else Continued(draws, m - 1) + [draws + [m - 1]]
  }

  lemma {:induction false} ContinuedAt(draws: seq<nat>, m: nat)
    ensures forall i | 0 <= i < m :: Continued(draws, m)[i] == draws + [i]
  {
    if m != 0 {
      ContinuedAt(draws, m - 1);
    }
  }

  function ContinuedAll(some: seq<seq<nat>>, m: nat): seq<seq<nat>> {
    if some == [] then []
    else ContinuedAll(some[..|some| - 1], m) + Continued(some[|some| - 1], m)
  }

  /** Every way to draw for `n` rows, once each; they are equally likely. */
  function AllDraws(capacity: nat, n: nat): seq<seq<nat>> {
    if n <= capacity then [[]] else ContinuedAll(AllDraws(capacity, n - 1), n)
  }

  lemma {:induction false} InContinued(some: seq<seq<nat>>, m: nat, draws: seq<nat>)
    ensures draws in ContinuedAll(some, m) <==> draws != [] && draws[..|draws| - 1] in some && draws[|draws| - 1] < m
  {
    if some != [] {
      var last := |some| - 1;
      InContinued(some[..last], m, draws);
      ContinuedAt(some[last], m);
      assert some == some[..last] + [some[last]];
      if draws != [] {
        assert draws == draws[..|draws| - 1] + [draws[|draws| - 1]];
        if draws[..|draws| - 1] == some[last] && draws[|draws| - 1] < m {
          assert Continued(some[last], m)[draws[|draws| - 1]] == draws;
        }
      }
    }
  }

  lemma DrawnOneMore(capacity: nat, draws: seq<nat>)
    requires draws != []
    ensures Drawn(capacity, draws) <==>
              Drawn(capacity, draws[..|draws| - 1]) && draws[|draws| - 1] < capacity + |draws|
  {
  }

  /** The list is complete and holds nothing else. */
  lemma {:induction false} AllDrawsAreAll(capacity: nat, n: nat, draws: seq<nat>)
    requires capacity <= n
    ensures draws in AllDraws(capacity, n) <==> capacity + |draws| == n && Drawn(capacity, draws)
  {
    if n != capacity {
      InContinued(AllDraws(capacity, n - 1), n, draws);
      if draws != [] {
        AllDrawsAreAll(capacity, n - 1, draws[..|draws| - 1]);
        DrawnOneMore(capacity, draws);
      }
    }
  }

  /** No way to draw is listed twice. */
  lemma {:induction false} AllDrawsAreDifferent(capacity: nat, n: nat)
    ensures Different(AllDraws(capacity, n))
  {
    if n > capacity {
      AllDrawsAreDifferent(capacity, n - 1);
      ContinuedAreDifferent(AllDraws(capacity, n - 1), n);
    }
  }

  lemma {:induction false} ContinuedAreDifferent(some: seq<seq<nat>>, m: nat)
    requires Different(some)
    ensures Different(ContinuedAll(some, m))
  {
    if some != [] {
      var last := |some| - 1;
      var fewer := some[..last];
      ContinuedAreDifferent(fewer, m);
      ContinuedAt(some[last], m);
      forall i, j | 0 <= i < |ContinuedAll(fewer, m)| && 0 <= j < m
        ensures ContinuedAll(fewer, m)[i] != Continued(some[last], m)[j]
      {
        var draws := ContinuedAll(fewer, m)[i];
        assert draws in ContinuedAll(fewer, m);
        InContinued(fewer, m, draws);
        assert (some[last] + [j])[..|some[last]|] == some[last];
      }
      forall i, j | 0 <= i < j < m
        ensures Continued(some[last], m)[i] != Continued(some[last], m)[j]
      {
        assert Continued(some[last], m)[i][|some[last]|] == i;
      }
      JoinDifferent(ContinuedAll(fewer, m), Continued(some[last], m));
    }
  }

  lemma JoinDifferent<T>(a: seq<T>, b: seq<T>)
    requires Different(a) && Different(b)
    requires forall i, j | 0 <= i < |a| && 0 <= j < |b| :: a[i] != b[j]
    ensures Different(a + b)
  {
  }

  /* ---------------------------------------------------------------- counting */

  /** How many of these ways to draw have the property. */
  function Count(some: seq<seq<nat>>, has: seq<nat> -> bool): nat {
    if some == [] then 0
    else Count(some[..|some| - 1], has) + if has(some[|some| - 1]) then 1 else 0
  }

  /** How many of the numbers below `m`, drawn next, give the property. */
  function CountNext(draws: seq<nat>, m: nat, has: seq<nat> -> bool): nat {
    if m == 0 then 0 else CountNext(draws, m - 1, has) + if has(draws + [m - 1]) then 1 else 0
  }

  lemma {:induction false} CountJoin(a: seq<seq<nat>>, b: seq<seq<nat>>, has: seq<nat> -> bool)
    ensures Count(a + b, has) == Count(a, has) + Count(b, has)
  {
    if b == [] {
      assert a + b == a;
    } else {
      var last := |b| - 1;
      assert (a + b)[..|a + b| - 1] == a + b[..last];
      CountJoin(a, b[..last], has);
    }
  }

  lemma {:induction false} CountIsNext(draws: seq<nat>, m: nat, has: seq<nat> -> bool)
    ensures Count(Continued(draws, m), has) == CountNext(draws, m, has)
  {
    if m != 0 {
      CountIsNext(draws, m - 1, has);
      assert Continued(draws, m)[..m - 1] == Continued(draws, m - 1);
    }
  }

  lemma {:induction false} ContinuedAllSize(some: seq<seq<nat>>, m: nat)
    ensures |ContinuedAll(some, m)| == Multiple(m, |some|)
  {
    if some != [] {
      ContinuedAllSize(some[..|some| - 1], m);
    }
  }

  /** How many ways, continued in every way, give the property. */
  function CountAfter(some: seq<seq<nat>>, m: nat, has: seq<nat> -> bool): nat {
    if some == [] then 0
    else CountAfter(some[..|some| - 1], m, has) + CountNext(some[|some| - 1], m, has)
  }

  lemma {:induction false} CountIsAfter(some: seq<seq<nat>>, m: nat, has: seq<nat> -> bool)
    ensures Count(ContinuedAll(some, m), has) == CountAfter(some, m, has)
  {
    if some != [] {
      var last := |some| - 1;
      CountIsAfter(some[..last], m, has);
      CountJoin(ContinuedAll(some[..last], m), Continued(some[last], m), has);
      CountIsNext(some[last], m, has);
    }
  }

  /** If `yes` of the next numbers do for a way that has the old property, and `no` for any other,
      the two kinds of ways count accordingly. */
  lemma {:induction false} CountContinued(some: seq<seq<nat>>, m: nat, had: seq<nat> -> bool, has: seq<nat> -> bool, yes: nat, no: nat)
    requires forall way | way in some :: CountNext(way, m, has) == if had(way) then yes else no
    ensures Count(some, had) <= |some|
    ensures CountAfter(some, m, has) == Multiple(yes, Count(some, had)) + Multiple(no, |some| - Count(some, had))
  {
    if some != [] {
      CountContinued(some[..|some| - 1], m, had, has, yes, no);
    }
  }

  /* ---------------------------------------------------------------- how often a row is kept */

  function Keeper(capacity: nat, row: nat): seq<nat> -> bool {
    draws => row in Kept(capacity, draws)
  }

  /** One more draw keeps the newest row where it hits a place of the sample, and any other row where
      it does not hit that row's place. */
  lemma OneMoreDraw(capacity: nat, draws: seq<nat>, row: nat, draw: nat)
    requires row <= capacity + |draws|
    ensures row == capacity + |draws| ==> (row in Kept(capacity, draws + [draw]) <==> draw < capacity)
    ensures row < capacity + |draws| ==>
              (row in Kept(capacity, draws + [draw]) <==>
                row in Kept(capacity, draws) && !(draw < capacity && Kept(capacity, draws)[draw] == row))
  {
    KeptAreDifferent(capacity, draws);
    var before, after := Kept(capacity, draws), Kept(capacity, draws + [draw]);
    assert (draws + [draw])[..|draws|] == draws;
    if row in before {
      var place :| 0 <= place < capacity && before[place] == row;
      assert draw != place ==> after[place] == row;
    }
    if draw < capacity {
      assert after[draw] == capacity + |draws|;
    }
  }

  lemma {:induction false} NewestKept(capacity: nat, draws: seq<nat>, m: nat)
    ensures CountNext(draws, m, Keeper(capacity, capacity + |draws|)) == if m <= capacity then m else capacity
  {
    if m != 0 {
      NewestKept(capacity, draws, m - 1);
      OneMoreDraw(capacity, draws, capacity + |draws|, m - 1);
    }
  }

  /** How many of the first `m` places hold the row. */
  function Places(kept: seq<nat>, row: nat, m: nat): nat {
    if m == 0 then 0 else Places(kept, row, m - 1) + if m - 1 < |kept| && kept[m - 1] == row then 1 else 0
  }

  lemma {:induction false} OnePlace(kept: seq<nat>, row: nat, place: nat, m: nat)
    requires Different(kept) && place < |kept| && kept[place] == row
    ensures Places(kept, row, m) == if place < m then 1 else 0
  {
    if m != 0 {
      OnePlace(kept, row, place, m - 1);
    }
  }

  /** A kept row is turned out by the numbers of its places and stays for all others. */
  lemma {:induction false} OlderKept(capacity: nat, draws: seq<nat>, row: nat, m: nat)
    requires row in Kept(capacity, draws) && row < capacity + |draws|
    ensures CountNext(draws, m, Keeper(capacity, row)) + Places(Kept(capacity, draws), row, m) == m
  {
    if m != 0 {
      OlderKept(capacity, draws, row, m - 1);
      OneMoreDraw(capacity, draws, row, m - 1);
    }
  }

  lemma {:induction false} LostStaysLost(capacity: nat, draws: seq<nat>, row: nat, m: nat)
    requires row < capacity + |draws| && row !in Kept(capacity, draws)
    ensures CountNext(draws, m, Keeper(capacity, row)) == 0
  {
    if m != 0 {
      LostStaysLost(capacity, draws, row, m - 1);
      OneMoreDraw(capacity, draws, row, m - 1);
    }
  }

  lemma OlderKeptOnce(capacity: nat, draws: seq<nat>, row: nat)
    requires row in Kept(capacity, draws)
    ensures forall m | capacity <= m :: Places(Kept(capacity, draws), row, m) == 1
  {
    var kept := Kept(capacity, draws);
    KeptAreDifferent(capacity, draws);
    var place :| 0 <= place < capacity && kept[place] == row;
    forall m | capacity <= m
      ensures Places(kept, row, m) == 1
    {
      OnePlace(kept, row, place, m);
    }
  }

  /** Of the numbers that can be drawn next, `capacity` take the newest row in, and all but one keep
      a row that is in the sample. */
  lemma NextKept(capacity: nat, draws: seq<nat>, row: nat, m: nat)
    requires row < m == capacity + |draws| + 1
    ensures CountNext(draws, m, Keeper(capacity, row))
         == if row == capacity + |draws| then capacity else if Keeper(capacity, row)(draws) then m - 1 else 0
  {
    if row == capacity + |draws| {
      NewestKept(capacity, draws, m);
    } else if row in Kept(capacity, draws) {
      OlderKept(capacity, draws, row, m);
      OlderKeptOnce(capacity, draws, row);
    } else {
      LostStaysLost(capacity, draws, row, m);
    }
  }

  /** A property that a row has in this sampling: the early rows have it at the start, and then it
      comes and stays as a place in the sample does. */
  ghost predicate Fair(capacity: nat, row: nat, has: seq<nat> -> bool) {
    && (row < capacity ==> has([]))
    && forall way, n: nat | Drawn(capacity, way) && row < n == capacity + |way| + 1 :: FairNext(capacity, row, has, way, n)
  }

  /** What the `n`-th row does to a way to draw for the rows before it. */
  predicate FairNext(capacity: nat, row: nat, has: seq<nat> -> bool, way: seq<nat>, n: nat) {
    CountNext(way, n, has) == if row == n - 1 then capacity else if has(way) && 0 < n then n - 1 else 0
  }

  lemma KeepingIsFair(capacity: nat, row: nat)
    ensures Fair(capacity, row, Keeper(capacity, row))
  {
    if row < capacity {
      assert Kept(capacity, [])[row] == row;
    }
    forall way, n: nat | Drawn(capacity, way) && row < n == capacity + |way| + 1
      ensures FairNext(capacity, row, Keeper(capacity, row), way, n)
    {
      NextKept(capacity, way, row, n);
    }
  }

  /** The totals after one more row, from the totals before it. */
  lemma Totals(before: seq<seq<nat>>, m: nat, has: seq<nat> -> bool, yes: nat, no: nat)
    requires forall way | way in before :: CountNext(way, m, has) == if has(way) then yes else no
    ensures Count(before, has) <= |before| && |ContinuedAll(before, m)| == Multiple(m, |before|)
    ensures Count(ContinuedAll(before, m), has) == Multiple(yes, Count(before, has)) + Multiple(no, |before| - Count(before, has))
  {
    ContinuedAllSize(before, m);
    CountIsAfter(before, m, has);
    CountContinued(before, m, has, has, yes, no);
  }

  lemma Regroup(a: nat, b: nat, c: nat)
    ensures a * (b * c) == b * (a * c)
  {
  }

  /** The newest row gets its share at once. */
  lemma NewShare(capacity: nat, m: nat, have: nat, all: nat)
    requires have <= all
    ensures Multiple(m, Multiple(capacity, have) + Multiple(capacity, all - have)) == Multiple(capacity, Multiple(m, all))
  {
    MultipleIsProduct(capacity, have);
    MultipleIsProduct(capacity, all - have);
    assert capacity * have + capacity * (all - have) == capacity * all;
    MultipleIsProduct(m, capacity * all);
    MultipleIsProduct(m, all);
    MultipleIsProduct(capacity, m * all);
    Regroup(m, capacity, all);
  }

  /** The other rows keep theirs. */
  lemma OldShare(capacity: nat, n: nat, have: nat, all: nat)
    requires 0 < n && have <= all && Multiple(n - 1, have) == Multiple(capacity, all)
    ensures Multiple(n, Multiple(n - 1, have) + Multiple(0, all - have)) == Multiple(capacity, Multiple(n, all))
  {
    MultipleIsProduct(0, all - have);
    MultipleIsProduct(capacity, all);
    MultipleIsProduct(n, capacity * all);
    MultipleIsProduct(n, all);
    MultipleIsProduct(capacity, n * all);
    Regroup(n, capacity, all);
  }

  lemma NewStep(before: seq<seq<nat>>, m: nat, has: seq<nat> -> bool, capacity: nat)
    requires forall way | way in before :: CountNext(way, m, has) == capacity
    ensures Multiple(m, Count(ContinuedAll(before, m), has)) == Multiple(capacity, |ContinuedAll(before, m)|)
  {
    Totals(before, m, has, capacity, capacity);
    NewShare(capacity, m, Count(before, has), |before|);
  }

  lemma OldStep(before: seq<seq<nat>>, n: nat, has: seq<nat> -> bool, capacity: nat)
    requires 0 < n && forall way | way in before :: CountNext(way, n, has) == if has(way) then n - 1 else 0
    requires Multiple(n - 1, Count(before, has)) == Multiple(capacity, |before|)
    ensures Multiple(n, Count(ContinuedAll(before, n), has)) == Multiple(capacity, |ContinuedAll(before, n)|)
  {
    Totals(before, n, has, n - 1, 0);
    OldShare(capacity, n, Count(before, has), |before|);
  }

  /** `capacity` in `n` of the ways have the property. */
  predicate Share(n: nat, capacity: nat, ways: seq<seq<nat>>, has: seq<nat> -> bool) {
    Multiple(n, Count(ways, has)) == Multiple(capacity, |ways|)
  }

  lemma FairToAll(capacity: nat, row: nat, has: seq<nat> -> bool, before: seq<seq<nat>>, n: nat)
    requires Fair(capacity, row, has) && row < n && capacity < n
    requires forall way | way in before :: capacity + |way| == n - 1 && Drawn(capacity, way)
    ensures forall way | way in before :: FairNext(capacity, row, has, way, n)
  {
  }

  lemma NextShare(capacity: nat, row: nat, has: seq<nat> -> bool, before: seq<seq<nat>>, n: nat)
    requires forall way | way in before :: FairNext(capacity, row, has, way, n)
    requires row < n && (row < n - 1 ==> Share(n - 1, capacity, before, has))
    ensures Share(n, capacity, ContinuedAll(before, n), has)
  {
    if row == n - 1 {
      NewStep(before, n, has, capacity);
    } else {
      OldStep(before, n, has, capacity);
    }
  }

  lemma AllAreDrawn(capacity: nat, n: nat)
    requires capacity <= n
    ensures forall way | way in AllDraws(capacity, n) :: capacity + |way| == n && Drawn(capacity, way)
  {
    forall way | way in AllDraws(capacity, n)
      ensures capacity + |way| == n && Drawn(capacity, way)
    {
      AllDrawsAreAll(capacity, n, way);
    }
  }

  lemma AllAreFair(capacity: nat, n: nat, row: nat, has: seq<nat> -> bool)
    requires row < n && capacity < n && Fair(capacity, row, has)
    ensures forall way | way in AllDraws(capacity, n - 1) :: FairNext(capacity, row, has, way, n)
  {
    AllAreDrawn(capacity, n - 1);
    FairToAll(capacity, row, has, AllDraws(capacity, n - 1), n);
  }

  lemma {:induction false} SameShare(capacity: nat, n: nat, row: nat, has: seq<nat> -> bool)
    requires row < n && capacity <= n && Fair(capacity, row, has)
    ensures Share(n, capacity, AllDraws(capacity, n), has)
    decreases n
  {
    if n == capacity {
      assert AllDraws(capacity, n)[..0] == [];
    } else {
      if row < n - 1 {
        SameShare(capacity, n - 1, row, has);
      }
      AllAreFair(capacity, n, row, has);
      NextShare(capacity, row, has, AllDraws(capacity, n - 1), n);
    }
  }

  /** The sample is uniform: of all the ways to draw, every one of `n` rows is kept in the same share,
      `capacity` in `n`. */
  lemma EveryRowHasTheSameChance(capacity: nat, n: nat, row: nat)
    requires row < n && capacity <= n
    ensures n * Count(AllDraws(capacity, n), Keeper(capacity, row)) == capacity * |AllDraws(capacity, n)|
  {
    KeepingIsFair(capacity, row);
    SameShare(capacity, n, row, Keeper(capacity, row));
    MultipleIsProduct(n, Count(AllDraws(capacity, n), Keeper(capacity, row)));
    MultipleIsProduct(capacity, |AllDraws(capacity, n)|);
  }
}
