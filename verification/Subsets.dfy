/** A sample is uniform as a whole: every set of rows of the right size is as likely as any other. */
module Subsets {
  import opened Arithmetic
  import opened Collections
  import opened Reservoir

  function Factorial(n: nat): nat {
    if n == 0 then 1 else Multiple(n, Factorial(n - 1))
  }

  /** The rows in the sample. */
  function KeptSet(capacity: nat, draws: seq<nat>): set<nat> {
    Elements(Kept(capacity, draws))
  }

  predicate Keeps(capacity: nat, rows: set<nat>, draws: seq<nat>) {
    KeptSet(capacity, draws) == rows
  }

  function Sampler(capacity: nat, rows: set<nat>): seq<nat> -> bool {
    draws => Keeps(capacity, rows, draws)
  }

  lemma KeptSetSize(capacity: nat, draws: seq<nat>)
    ensures |KeptSet(capacity, draws)| == capacity
    ensures forall row | row in KeptSet(capacity, draws) :: row < capacity + |draws|
  {
    KeptAreDifferent(capacity, draws);
    DifferentAreCounted(Kept(capacity, draws));
  }

  /** A draw that hits a place puts the newest row there; any other draw changes nothing. */
  lemma NextSet(capacity: nat, draws: seq<nat>, draw: nat)
    ensures capacity <= draw ==> KeptSet(capacity, draws + [draw]) == KeptSet(capacity, draws)
    ensures draw < capacity ==>
              KeptSet(capacity, draws + [draw])
              == KeptSet(capacity, draws) - {Kept(capacity, draws)[draw]} + {capacity + |draws|}
  {
    KeptAreDifferent(capacity, draws);
    var before, after := Kept(capacity, draws), Kept(capacity, draws + [draw]);
    assert (draws + [draw])[..|draws|] == draws;
    if draw < capacity {
      ReplacedElements(before, draw, capacity + |draws|);
    }
  }

  lemma ReplacedElements<T>(s: seq<T>, i: nat, x: T)
    requires i < |s| && Different(s)
    ensures Elements(s[i := x]) == Elements(s) - {s[i]} + {x}
  {
    var after := s[i := x];
    assert after[i] == x;
    forall y | y in Elements(s) - {s[i]}
      ensures y in Elements(after)
    {
      var j :| 0 <= j < |s| && s[j] == y;
      assert after[j] == y;
    }
  }

  /* ---------------------------------------------------------------- which next draws do */

  lemma {:induction false} NoneNext(draws: seq<nat>, m: nat, has: seq<nat> -> bool)
    requires forall draw: nat | draw < m :: !has(draws + [draw])
    ensures CountNext(draws, m, has) == 0
  {
    if m != 0 {
      NoneNext(draws, m - 1, has);
    }
  }

  lemma {:induction false} OneNext(draws: seq<nat>, m: nat, has: seq<nat> -> bool, place: nat)
    requires forall draw: nat | draw < m :: has(draws + [draw]) <==> draw == place
    ensures CountNext(draws, m, has) == if place < m then 1 else 0
  {
    if m != 0 {
      OneNext(draws, m - 1, has, place);
    }
  }

  lemma {:induction false} LateNext(draws: seq<nat>, m: nat, has: seq<nat> -> bool, from: nat)
    requires forall draw: nat | draw < m :: has(draws + [draw]) <==> from <= draw
    ensures CountNext(draws, m, has) == if from <= m then m - from else 0
  {
    if m != 0 {
      LateNext(draws, m - 1, has, from);
    }
  }

  /** Without the newest row, the sample stays when the draw misses it. */
  lemma NextWithout(capacity: nat, rows: set<nat>, draws: seq<nat>, m: nat, misses: nat)
    requires m == capacity + |draws| + 1 == capacity + misses && capacity + |draws| !in rows
    ensures CountNext(draws, m, Sampler(capacity, rows)) == if Keeps(capacity, rows, draws) then misses else 0
  {
    forall draw: nat | draw < m
      ensures Keeps(capacity, rows, draws + [draw]) <==> capacity <= draw && Keeps(capacity, rows, draws)
    {
      NextSet(capacity, draws, draw);
    }
    if Keeps(capacity, rows, draws) {
      LateNext(draws, m, Sampler(capacity, rows), capacity);
    } else {
      NoneNext(draws, m, Sampler(capacity, rows));
    }
  }

  /** The sample holds all of these rows; it has one more. */
  predicate Includes(capacity: nat, rows: set<nat>, draws: seq<nat>) {
    rows <= KeptSet(capacity, draws)
  }

  /** Only the draw that hits the place of the one row too many puts the newest row in the set. */
  lemma HitsTheOddOne(capacity: nat, others: set<nat>, draws: seq<nat>, odd: nat, place: nat, draw: nat)
    requires KeptSet(capacity, draws) == others + {odd} && odd !in others && capacity + |draws| !in others + {odd}
    requires place < capacity && Kept(capacity, draws)[place] == odd
    ensures Keeps(capacity, others + {capacity + |draws|}, draws + [draw]) <==> draw == place
  {
    var kept, newest := Kept(capacity, draws), capacity + |draws|;
    NextSet(capacity, draws, draw);
    KeptAreDifferent(capacity, draws);
    if draw < capacity && draw != place {
      assert odd in KeptSet(capacity, draws + [draw]) && odd !in others + {newest};
    } else if draw == place {
      assert others + {odd} - {odd} + {newest} == others + {newest};
    } else {
      assert newest !in KeptSet(capacity, draws) && newest in others + {newest};
    }
  }

  /** A sample that lacks one of the other rows does not get it back. */
  lemma LacksStill(capacity: nat, others: set<nat>, draws: seq<nat>, draw: nat)
    requires !Includes(capacity, others, draws) && forall row | row in others :: row < capacity + |draws|
    ensures !Keeps(capacity, others + {capacity + |draws|}, draws + [draw])
  {
    var missing :| missing in others && missing !in KeptSet(capacity, draws);
    NextSet(capacity, draws, draw);
    assert missing !in KeptSet(capacity, draws + [draw]) && missing in others + {capacity + |draws|};
  }

  /** A sample of all but one of the right rows has one place that the newest row has to hit. */
  lemma NextWith(capacity: nat, others: set<nat>, draws: seq<nat>, m: nat)
    requires m == capacity + |draws| + 1 && |others| + 1 == capacity && forall row | row in others :: row < capacity + |draws|
    ensures CountNext(draws, m, Sampler(capacity, others + {capacity + |draws|}))
         == if Includes(capacity, others, draws) then 1 else 0
  {
    var newest := capacity + |draws|;
    if Includes(capacity, others, draws) {
      KeptSetSize(capacity, draws);
      var odd := OddOneOut(others, KeptSet(capacity, draws));
      var place :| 0 <= place < capacity && Kept(capacity, draws)[place] == odd;
      forall draw: nat | draw < m
        ensures Sampler(capacity, others + {newest})(draws + [draw]) <==> draw == place
      {
        HitsTheOddOne(capacity, others, draws, odd, place, draw);
      }
      OneNext(draws, m, Sampler(capacity, others + {newest}), place);
    } else {
      forall draw: nat | draw < m
        ensures !Sampler(capacity, others + {newest})(draws + [draw])
      {
        LacksStill(capacity, others, draws, draw);
      }
      NoneNext(draws, m, Sampler(capacity, others + {newest}));
    }
  }

  lemma OddOneOut<T>(few: set<T>, more: set<T>) returns (odd: T)
    requires few <= more && |few| + 1 == |more|
    ensures odd in more && odd !in few && more == few + {odd}
  {
    assert |more - few| == 1;
    odd :| odd in more - few;
    assert more - few == {odd} by {
      assert |more - few - {odd}| == 0;
    }
  }

  /* ---------------------------------------------------------------- which sets one row short */

  /** The sample is these rows and one more, which is among the first `i`. */
  predicate OneMore(capacity: nat, others: set<nat>, i: nat, draws: seq<nat>) {
    exists x: nat :: x < i && x !in others && Keeps(capacity, others + {x}, draws)
  }

  function OneMoreTester(capacity: nat, others: set<nat>, i: nat): seq<nat> -> bool {
    draws => OneMore(capacity, others, i, draws)
  }

  /** How many of the first `i` rows are not among these. */
  function Outside(rows: set<nat>, i: nat): nat {
    if i == 0 then 0 else Outside(rows, i - 1) + if i - 1 in rows then 0 else 1
  }

  lemma {:induction false} OutsideIs(rows: set<nat>, i: nat)
    requires forall row | row in rows :: row < i
    ensures Outside(rows, i) + |rows| == i
  {
    if i == 0 {
      assert rows == {};
    } else {
      var last: nat := i - 1;
      OutsideMore(rows, last);
      OutsideIs(rows - {last}, last);
    }
  }

  lemma {:induction false} OutsideMore(rows: set<nat>, i: nat)
    ensures Outside(rows, i) == Outside(rows - {i}, i)
  {
    OutsideAgree(rows, rows - {i}, i);
  }

  lemma {:induction false} OutsideAgree(rows: set<nat>, same: set<nat>, i: nat)
    requires forall row: nat | row < i :: row in rows <==> row in same
    ensures Outside(rows, i) == Outside(same, i)
  {
    if i != 0 {
      OutsideAgree(rows, same, i - 1);
    }
  }

  lemma {:induction false} CountAgree(some: seq<seq<nat>>, p: seq<nat> -> bool, q: seq<nat> -> bool)
    requires forall way | way in some :: p(way) <==> q(way)
    ensures Count(some, p) == Count(some, q)
  {
    if some != [] {
      CountAgree(some[..|some| - 1], p, q);
    }
  }

  lemma {:induction false} CountEither(some: seq<seq<nat>>, p: seq<nat> -> bool, q: seq<nat> -> bool, either: seq<nat> -> bool)
    requires forall way | way in some :: (either(way) <==> p(way) || q(way)) && !(p(way) && q(way))
    ensures Count(some, either) == Count(some, p) + Count(some, q)
  {
    if some != [] {
      CountEither(some[..|some| - 1], p, q, either);
    }
  }

  lemma {:induction false} CountNone(some: seq<seq<nat>>, p: seq<nat> -> bool)
    requires forall way | way in some :: !p(way)
    ensures Count(some, p) == 0
  {
    if some != [] {
      CountNone(some[..|some| - 1], p);
    }
  }

  /** Which row is the one more settles which set it is. */
  lemma OneMoreNext(capacity: nat, others: set<nat>, i: nat, next: nat, draws: seq<nat>)
    requires next == i + 1
    ensures i in others ==> (OneMore(capacity, others, next, draws) <==> OneMore(capacity, others, i, draws))
    ensures i !in others ==>
              && (OneMore(capacity, others, next, draws) <==> OneMore(capacity, others, i, draws) || Keeps(capacity, others + {i}, draws))
              && !(OneMore(capacity, others, i, draws) && Keeps(capacity, others + {i}, draws))
  {
    forall x: nat | x < i && i !in others
      ensures others + {x} != others + {i}
    {
      assert i !in others + {x};
    }
    assert i < next;
  }

  /** If every set of the right size is kept equally often, so are the sets with one row open. */
  lemma {:induction false} CountOneMore(some: seq<seq<nat>>, capacity: nat, others: set<nat>, i: nat, share: nat)
    requires forall x: nat | x < i && x !in others :: Count(some, Sampler(capacity, others + {x})) == share
    ensures Count(some, OneMoreTester(capacity, others, i)) == Multiple(share, Outside(others, i))
  {
    if i == 0 {
      CountNone(some, OneMoreTester(capacity, others, 0));
    } else {
      var last: nat := i - 1;
      CountOneMore(some, capacity, others, last, share);
      forall way
        ensures last in others ==> (OneMore(capacity, others, i, way) <==> OneMore(capacity, others, last, way))
        ensures last !in others ==>
                  && (OneMore(capacity, others, i, way) <==> OneMore(capacity, others, last, way) || Keeps(capacity, others + {last}, way))
                  && !(OneMore(capacity, others, last, way) && Keeps(capacity, others + {last}, way))
      {
        OneMoreNext(capacity, others, last, i, way);
      }
      if last in others {
        CountAgree(some, OneMoreTester(capacity, others, i), OneMoreTester(capacity, others, last));
      } else {
        CountEither(some, OneMoreTester(capacity, others, last), Sampler(capacity, others + {last}), OneMoreTester(capacity, others, i));
      }
    }
  }

  /** A sample that includes all but one of its rows is these and one more. */
  lemma IncludesIsOneMore(capacity: nat, others: set<nat>, draws: seq<nat>)
    requires |others| + 1 == capacity
    ensures Includes(capacity, others, draws) <==> OneMore(capacity, others, capacity + |draws|, draws)
  {
    KeptSetSize(capacity, draws);
    if Includes(capacity, others, draws) {
      var odd := OddOneOut(others, KeptSet(capacity, draws));
      assert Keeps(capacity, others + {odd}, draws);
    }
  }

  /* ---------------------------------------------------------------- every set equally often */

  /** Any `capacity` of the first `n` rows. */
  predicate Eligible(capacity: nat, n: nat, rows: set<nat>) {
    |rows| == capacity && forall row | row in rows :: row < n
  }

  lemma {:induction false} FirstRowsOnly(capacity: nat, rows: set<nat>)
    requires Eligible(capacity, capacity, rows)
    ensures rows == KeptSet(capacity, [])
  {
    KeptSetSize(capacity, []);
    forall row | row in rows
      ensures row in KeptSet(capacity, [])
    {
      assert Kept(capacity, [])[row] == row;
    }
    SameSize(rows, KeptSet(capacity, []));
  }

  lemma AllDrawsNext(capacity: nat, n: nat, m: nat)
    requires capacity <= n && m == n + 1
    ensures AllDraws(capacity, m) == ContinuedAll(AllDraws(capacity, n), m)
    ensures WaysFor(capacity, n, AllDraws(capacity, n))
  {
    AllAreDrawn(capacity, n);
  }

  lemma CountNextWays(ways: seq<seq<nat>>, m: nat, had: seq<nat> -> bool, has: seq<nat> -> bool, yes: nat)
    requires forall way | way in ways :: CountNext(way, m, has) == if had(way) then yes else 0
    ensures Count(ContinuedAll(ways, m), has) == Multiple(yes, Count(ways, had))
  {
    CountIsAfter(ways, m, has);
    CountContinued(ways, m, had, has, yes, 0);
    MultipleIsProduct(0, |ways| - Count(ways, had));
  }

  /** These are ways to draw for `n` rows. */
  predicate WaysFor(capacity: nat, n: nat, ways: seq<seq<nat>>) {
    forall way | way in ways :: capacity + |way| == n
  }

  lemma WithoutInEach(capacity: nat, n: nat, m: nat, misses: nat, rows: set<nat>, ways: seq<seq<nat>>)
    requires m == n + 1 == capacity + misses && n !in rows && WaysFor(capacity, n, ways)
    ensures forall way | way in ways :: CountNext(way, m, Sampler(capacity, rows)) == if Sampler(capacity, rows)(way) then misses else 0
  {
    forall way | way in ways
      ensures CountNext(way, m, Sampler(capacity, rows)) == if Sampler(capacity, rows)(way) then misses else 0
    {
      NextWithout(capacity, rows, way, m, misses);
    }
  }

  /** The newest row is not in the set. */
  lemma SetsWithout(capacity: nat, n: nat, m: nat, misses: nat, rows: set<nat>, ways: seq<seq<nat>>, share: nat)
    requires m == n + 1 == capacity + misses && n !in rows && WaysFor(capacity, n, ways)
    requires Count(ways, Sampler(capacity, rows)) == share
    ensures Count(ContinuedAll(ways, m), Sampler(capacity, rows)) == Multiple(misses, share)
  {
    WithoutInEach(capacity, n, m, misses, rows, ways);
    CountNextWays(ways, m, Sampler(capacity, rows), Sampler(capacity, rows), misses);
  }

  lemma WithInEach(capacity: nat, n: nat, m: nat, others: set<nat>, ways: seq<seq<nat>>)
    requires m == n + 1 && WaysFor(capacity, n, ways)
    requires |others| + 1 == capacity && forall row | row in others :: row < n
    ensures forall way | way in ways ::
              CountNext(way, m, Sampler(capacity, others + {n})) == if OneMoreTester(capacity, others, n)(way) then 1 else 0
  {
    forall way | way in ways
      ensures CountNext(way, m, Sampler(capacity, others + {n})) == if OneMoreTester(capacity, others, n)(way) then 1 else 0
    {
      NextWith(capacity, others, way, m);
      IncludesIsOneMore(capacity, others, way);
    }
  }

  /** The newest row is in the set. */
  lemma SetsWith(capacity: nat, n: nat, m: nat, misses: nat, others: set<nat>, ways: seq<seq<nat>>, share: nat)
    requires m == n + 1 == capacity + misses && WaysFor(capacity, n, ways)
    requires |others| + 1 == capacity && forall row | row in others :: row < n
    requires forall x: nat | x < n && x !in others :: Count(ways, Sampler(capacity, others + {x})) == share
    ensures Count(ContinuedAll(ways, m), Sampler(capacity, others + {n})) == Multiple(share, misses)
  {
    var had := OneMoreTester(capacity, others, n);
    WithInEach(capacity, n, m, others, ways);
    CountNextWays(ways, m, had, Sampler(capacity, others + {n}), 1);
    MultipleIsProduct(1, Count(ways, had));
    CountOneMore(ways, capacity, others, n, share);
    OutsideIs(others, n);
  }

  lemma MultipleSwaps(a: nat, b: nat)
    ensures Multiple(a, b) == Multiple(b, a)
  {
    MultipleIsProduct(a, b);
    MultipleIsProduct(b, a);
  }

  /** Without a row to spare there is one way to draw, and it keeps the first rows. */
  lemma NoneToSpare(capacity: nat, rows: set<nat>)
    requires Eligible(capacity, capacity, rows)
    ensures Count(AllDraws(capacity, capacity), Sampler(capacity, rows)) == 1
  {
    FirstRowsOnly(capacity, rows);
    assert AllDraws(capacity, capacity)[..0] == [];
    assert Sampler(capacity, rows)([]);
  }

  /** Each set of `capacity` of the first `n` rows is the sample in as many of the ways. */
  ghost predicate Uniform(capacity: nat, n: nat, ways: seq<seq<nat>>, share: nat) {
    forall rows | Eligible(capacity, n, rows) :: Count(ways, Sampler(capacity, rows)) == share
  }

  lemma EligibleParts(capacity: nat, n: nat, m: nat, rows: set<nat>)
    requires m == n + 1 && Eligible(capacity, m, rows)
    ensures n !in rows ==> Eligible(capacity, n, rows)
    ensures n in rows ==>
              var others := rows - {n};
              && others + {n} == rows && |others| + 1 == capacity && (forall row | row in others :: row < n)
              && forall x: nat | x < n && x !in others :: Eligible(capacity, n, others + {x})
  {
  }

  lemma UniformForOne(capacity: nat, n: nat, m: nat, misses: nat, ways: seq<seq<nat>>, share: nat, rows: set<nat>)
    requires m == n + 1 == capacity + misses && WaysFor(capacity, n, ways) && Uniform(capacity, n, ways, share)
    requires Eligible(capacity, m, rows)
    ensures Count(ContinuedAll(ways, m), Sampler(capacity, rows)) == Multiple(misses, share)
  {
    EligibleParts(capacity, n, m, rows);
    if n in rows {
      SetsWith(capacity, n, m, misses, rows - {n}, ways, share);
      MultipleSwaps(share, misses);
    } else {
      SetsWithout(capacity, n, m, misses, rows, ways, share);
    }
  }

  /** One more row keeps it so. */
  lemma UniformNext(capacity: nat, n: nat, m: nat, misses: nat, ways: seq<seq<nat>>, share: nat)
    requires m == n + 1 == capacity + misses && WaysFor(capacity, n, ways) && Uniform(capacity, n, ways, share)
    ensures Uniform(capacity, m, ContinuedAll(ways, m), Multiple(misses, share))
  {
    forall rows | Eligible(capacity, m, rows)
      ensures Count(ContinuedAll(ways, m), Sampler(capacity, rows)) == Multiple(misses, share)
    {
      UniformForOne(capacity, n, m, misses, ways, share, rows);
    }
  }

  lemma FirstDrawIsUniform(capacity: nat)
    ensures Uniform(capacity, capacity, AllDraws(capacity, capacity), 1)
  {
    forall rows | Eligible(capacity, capacity, rows)
      ensures Count(AllDraws(capacity, capacity), Sampler(capacity, rows)) == 1
    {
      NoneToSpare(capacity, rows);
    }
  }

  lemma FactorialNext(fewer: nat, n: nat)
    requires n == fewer + 1
    ensures Factorial(n) == Multiple(n, Factorial(fewer)) && Factorial(0) == 1
  {
  }

  lemma {:induction false} DrawsAreUniform(capacity: nat, n: nat, spare: nat, share: nat)
    requires n == capacity + spare && share == Factorial(spare)
    ensures Uniform(capacity, n, AllDraws(capacity, n), share)
    decreases spare
  {
    if spare == 0 {
      FirstDrawIsUniform(capacity);
    } else {
      var before: nat, fewer: nat := n - 1, spare - 1;
      FactorialNext(fewer, spare);
      DrawsAreUniform(capacity, before, fewer, Factorial(fewer));
      AllDrawsNext(capacity, before, n);
      UniformNext(capacity, before, n, spare, AllDraws(capacity, before), Factorial(fewer));
    }
  }

  /** The sample is uniform: over all ways to draw, each set of `capacity` of the `n` rows is the
      sample in exactly as many as any other. */
  lemma EverySetHasTheSameChance(capacity: nat, n: nat, rows: set<nat>)
    requires capacity <= n && Eligible(capacity, n, rows)
    ensures Count(AllDraws(capacity, n), Sampler(capacity, rows)) == Factorial(n - capacity)
  {
    DrawsAreUniform(capacity, n, n - capacity, Factorial(n - capacity));
  }
}
