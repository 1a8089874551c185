/** When sessions block each other for good, and an order of tables that rules it out. */
module Deadlocks {
  import opened Locks
  import opened LockProtocol
  import Sessions
  import opened Collections
  import opened Wrappers

  /* ---------------------------------------------------------------- who waits for whom */

  /** Session `i` cannot have its next lock while session `j` holds that table. */
  predicate WaitsFor(s: State, i: nat, j: nat) {
    && i < |s.sessions| && j < |s.sessions| && i != j
    && Sound(s.sessions[i]) && Sound(s.sessions[j]) && Waiting(s.sessions[i])
    && var want := NextWant(s.sessions[i]);
      && want.table in Held(s.sessions[j])
      && (want.mode == Exclusive || At(s.locks, want.table).mode == Some(Exclusive))
  }

  /** A session waits in vain exactly when it waits for somebody. */
  lemma BlockedMeans(s: State, i: nat)
    requires Inv(s)
    ensures Blocked(s, i) <==> exists j :: WaitsFor(s, i, j)
  {
    if i < |s.sessions| && Waiting(s.sessions[i]) {
      var want := NextWant(s.sessions[i]);
      var lock := At(s.locks, want.table);
      assert Agrees(lock, s.sessions, want.table);
      TryGrantsWhatIsCompatible(lock, i, want.mode);
      if Blocked(s, i) {
        var j :| j in lock.owners && j != i;
        assert want.mode == Shared ==> lock.mode == Some(Exclusive) by {
          match lock.mode
          case None =>
          case Some(mode) => assert mode == Shared || mode == Exclusive;
        }
        assert WaitsFor(s, i, j);
      }
      if j :| WaitsFor(s, i, j) {
        assert j in lock.owners;
      }
    }
  }

  /** Everybody in the list waits for the next one, and the last for the first. */
  predicate Cycle(s: State, round: seq<nat>) {
    && round != []
    && (forall k | 0 <= k < |round| - 1 :: WaitsFor(s, round[k], round[k + 1]))
    && WaitsFor(s, round[|round| - 1], round[0])
  }

  /** The session after the `k`th in the round. */
  function Next(round: seq<nat>, k: nat): nat
    requires k < |round|
  {
    if k == |round| - 1 then round[0] else round[k + 1]
  }

  lemma NextWaits(s: State, round: seq<nat>, k: nat)
    requires Cycle(s, round) && k < |round|
    ensures WaitsFor(s, round[k], Next(round, k))
    ensures Next(round, k) in round
  {
  }

  /* ---------------------------------------------------------------- a round of waiting lasts */

  /** Whoever waits in vain can do nothing but lose patience. */
  lemma BlockedOnlyTimesOut(s: State, i: nat, step: Step)
    requires Blocked(s, i) && Enabled(s, i, step)
    ensures step == Timeout
  {
  }

  /** A step of a third session leaves one session waiting for another that waits as well. */
  lemma WaitingLasts(s: State, i: nat, j: nat, who: nat, step: Step)
    requires Inv(s) && WaitsFor(s, i, j) && Waiting(s.sessions[j])
    requires Enabled(s, who, step) && who != i && who != j
    ensures WaitsFor(Take(s, who, step), i, j)
  {
    StepKeepsInv(s, who, step);
    var after := Take(s, who, step);
    var n := NextWant(s.sessions[i]).table;
    assert Agrees(At(s.locks, n), s.sessions, n);
    assert Agrees(At(after.locks, n), after.sessions, n);
    assert after.sessions[i] == s.sessions[i] && after.sessions[j] == s.sessions[j];
  }

  /** Sessions that wait for each other in a round do so until one of them loses patience, whatever
      the others do. */
  lemma CycleLasts(s: State, round: seq<nat>, who: nat, step: Step)
    requires Inv(s) && Cycle(s, round) && Enabled(s, who, step)
    requires !(who in round && step == Timeout)
    ensures who !in round && Cycle(Take(s, who, step), round)
  {
    if who in round {
      var k :| 0 <= k < |round| && round[k] == who;
      NextWaits(s, round, k);
      BlockedMeans(s, who);
      BlockedOnlyTimesOut(s, who, step);
      assert false;
    }
    forall k | 0 <= k < |round|
      ensures WaitsFor(Take(s, who, step), round[k], Next(round, k))
    {
      NextWaits(s, round, k);
      var m :| 0 <= m < |round| && round[m] == Next(round, k);
      NextWaits(s, round, m);
      WaitingLasts(s, round[k], round[m], who, step);
    }
    forall k | 0 <= k < |round| - 1
      ensures WaitsFor(Take(s, who, step), round[k], round[k + 1])
    {
      assert round[k + 1] == Next(round, k);
    }
    assert round[0] == Next(round, |round| - 1);
  }

  /** No step of the run is the lost patience of somebody in the round. */
  predicate Patient(round: seq<nat>, run: seq<Move>) {
    forall m | m in run :: !(m.who in round && m.step == Timeout)
  }

  /** However long the others go on, nobody in the round gets anywhere. */
  lemma {:induction false} CycleLastsForever(s: State, round: seq<nat>, run: seq<Move>)
    requires Inv(s) && Cycle(s, round) && Legal(s, run) && Patient(round, run)
    ensures Cycle(After(s, run), round)
    ensures forall i | i in round :: i < |s.sessions| && After(s, run).sessions[i] == s.sessions[i]
    decreases |run|
  {
    forall i | i in round
      ensures i < |s.sessions|
    {
      var k :| 0 <= k < |round| && round[k] == i;
      NextWaits(s, round, k);
    }
    if run != [] {
      CycleLasts(s, round, run[0].who, run[0].step);
      StepKeepsInv(s, run[0].who, run[0].step);
      CycleLastsForever(Take(s, run[0].who, run[0].step), round, run[1..]);
    }
  }

  /* ---------------------------------------------------------------- standstill */

  /** Somebody is not done, and nobody can move except by losing patience. */
  ghost predicate Standstill(s: State) {
    && (exists i :: 0 <= i < |s.sessions| && !Done(s.sessions[i]))
    && (forall i: nat | i < |s.sessions| :: !CanMove(s, i))
  }

  /** Each session of the path waits for the next one. */
  predicate Path(s: State, path: seq<nat>) {
    && path != [] && Different(path)
    && (forall k | 0 <= k < |path| :: path[k] < |s.sessions|)
    && (forall k | 0 <= k < |path| - 1 :: WaitsFor(s, path[k], path[k + 1]))
  }

  /** At a standstill everybody who waits, waits for somebody who waits. */
  lemma SomebodyWaits(s: State, i: nat) returns (j: nat)
    requires Inv(s) && Standstill(s) && i < |s.sessions| && !Done(s.sessions[i])
    ensures WaitsFor(s, i, j) && !Done(s.sessions[j])
  {
    BlockedOrMoving(s, i);
    BlockedMeans(s, i);
    j :| WaitsFor(s, i, j);
  }

  lemma {:induction false} FollowPath(s: State, path: seq<nat>) returns (round: seq<nat>)
    requires Inv(s) && Standstill(s) && Path(s, path) && !Done(s.sessions[path[|path| - 1]])
    ensures Cycle(s, round)
    decreases |s.sessions| - |path|
  {
    FewDifferentBelow(path, |s.sessions|);
    var next := SomebodyWaits(s, path[|path| - 1]);
    if next in path {
      var k :| 0 <= k < |path| && path[k] == next;
      round := path[k..];
      forall m | 0 <= m < |round| - 1
        ensures WaitsFor(s, round[m], round[m + 1])
      {
        assert WaitsFor(s, path[k + m], path[k + m + 1]);
      }
    } else {
      var longer := path + [next];
      forall m | 0 <= m < |longer| - 1
        ensures WaitsFor(s, longer[m], longer[m + 1])
      {
        if m < |path| - 1 {
          assert WaitsFor(s, path[m], path[m + 1]);
        }
      }
      FewDifferentBelow(longer, |s.sessions|);
      round := FollowPath(s, longer);
    }
  }

  /** Whenever nobody can move, some sessions wait for each other in a round. */
  lemma StandstillHasACycle(s: State) returns (round: seq<nat>)
    requires Inv(s) && Standstill(s)
    ensures Cycle(s, round)
  {
    var i :| 0 <= i < |s.sessions| && !Done(s.sessions[i]);
    round := FollowPath(s, [i]);
  }

  /** Where nobody can move, work is left over exactly when some sessions wait for each other in a round. */
  lemma DeadlockIsACycle(s: State)
    requires Inv(s) && forall i: nat | i < |s.sessions| :: !CanMove(s, i)
    ensures (exists i :: 0 <= i < |s.sessions| && !Done(s.sessions[i])) <==> exists round :: Cycle(s, round)
  {
    if Standstill(s) {
      var round := StandstillHasACycle(s);
    }
    if round :| Cycle(s, round) {
      NextWaits(s, round, 0);
      assert !Done(s.sessions[round[0]]);
    }
  }

  /* ---------------------------------------------------------------- one order for everybody */

  /** A place for every table. */
  type Ranking = Name -> nat

  /** An earlier request for the same table asked for as much. */
  predicate Covered(p: Program, k: nat) {
    k < |p| && exists j :: 0 <= j < k && p[j].table == p[k].table && (p[j].mode == Exclusive || p[j].mode == p[k].mode)
  }

  predicate RanksAbove(p: Program, k: nat, rank: Ranking) {
    k < |p| && forall j | 0 <= j < k :: rank(p[j].table) < rank(p[k].table)
  }

  /** Whenever the program asks for something new, it is a table that comes after all it asked for so far. */
  predicate InOrder(p: Program, rank: Ranking) {
    forall k | 0 <= k < |p| :: Covered(p, k) || RanksAbove(p, k, rank)
  }

  predicate AllInOrder(s: State, rank: Ranking) {
    forall i, p | 0 <= i < |s.sessions| && p in s.sessions[i].script :: InOrder(p, rank)
  }

  /** What statements ask for outside a transaction: never more than shared locks, or one lock; and in
      order, where the tables of a SELECT are. Transactions that ask for one table over and over in the
      same mode are in order. */
  lemma StatementsKeepTheRules(names: seq<Name>, n: Name, rank: Ranking)
    ensures Disciplined(Sessions.SelectWants(names)) && Disciplined([Want(n, Exclusive)]) && InOrder([Want(n, Exclusive)], rank)
    ensures InOrder([Want(n, Exclusive), Want(n, Exclusive)], rank)
    ensures InOrder(Sessions.SelectWants(names), rank)
       <==> forall j, k | 0 <= j < k < |names| && names[k] !in names[..k] :: rank(names[j]) < rank(names[k])
  {
    var wants := Sessions.SelectWants(names);
    forall k | 0 <= k < |names|
      ensures Covered(wants, k) <==> names[k] in names[..k]
    {
      if names[k] in names[..k] {
        var j :| 0 <= j < k && names[..k][j] == names[k];
        assert wants[j].table == wants[k].table;
      }
    }
    if InOrder(wants, rank) {
      forall j, k | 0 <= j < k < |names| && names[k] !in names[..k]
        ensures rank(names[j]) < rank(names[k])
      {
        assert RanksAbove(wants, k, rank) && wants[j].table == names[j];
      }
    }
    var twice := [Want(n, Exclusive), Want(n, Exclusive)];
    assert twice[0].table == twice[1].table && Covered(twice, 1);
  }

  /** Nobody stands in the way of a request that an earlier one covers. */
  lemma CoveredIsGranted(s: State, i: nat, j: nat)
    requires Inv(s) && WaitsFor(s, i, j)
    ensures !Covered(s.sessions[i].script[0], s.sessions[i].phase.taken)
  {
    var me := s.sessions[i];
    var want, lock := NextWant(me), At(s.locks, NextWant(me).table);
    assert Agrees(lock, s.sessions, want.table);
    if Covered(me.script[0], me.phase.taken) {
      assert want.table in Held(me) && i in lock.owners && j in lock.owners;
      OnlyOwner(lock.owners, i);
    }
  }

  /** Whoever holds a table and waits, waits for one that comes later. */
  lemma HeldComesEarlier(me: Session, n: Name, rank: Ranking)
    requires Sound(me) && Waiting(me) && InOrder(me.script[0], rank) && n in Held(me)
    requires !Covered(me.script[0], me.phase.taken)
    ensures rank(n) < rank(NextWant(me).table)
  {
    assert RanksAbove(me.script[0], me.phase.taken, rank);
  }

  lemma RanksRise(s: State, i: nat, j: nat, k: nat, rank: Ranking)
    requires Inv(s) && AllInOrder(s, rank) && WaitsFor(s, i, j) && WaitsFor(s, j, k)
    ensures rank(NextWant(s.sessions[i]).table) < rank(NextWant(s.sessions[j]).table)
  {
    assert s.sessions[j].script[0] in s.sessions[j].script;
    CoveredIsGranted(s, j, k);
    HeldComesEarlier(s.sessions[j], NextWant(s.sessions[i]).table, rank);
  }

  lemma {:induction false} RanksRiseAlong(s: State, round: seq<nat>, rank: Ranking, k: nat)
    requires Inv(s) && AllInOrder(s, rank) && Cycle(s, round) && k < |round|
    ensures WaitsFor(s, round[k], Next(round, k)) && WaitsFor(s, round[0], Next(round, 0))
    ensures k == 0 || rank(NextWant(s.sessions[round[0]]).table) < rank(NextWant(s.sessions[round[k]]).table)
  {
    NextWaits(s, round, k);
    NextWaits(s, round, 0);
    if k != 0 {
      var before: nat := k - 1;
      RanksRiseAlong(s, round, rank, before);
      RanksRise(s, round[before], round[k], Next(round, k), rank);
    }
  }

  /** Where everybody keeps to one order, nobody waits in a round. */
  lemma OrderHasNoCycle(s: State, round: seq<nat>, rank: Ranking)
    requires Inv(s) && AllInOrder(s, rank)
    ensures !Cycle(s, round)
  {
    if Cycle(s, round) {
      var last: nat := |round| - 1;
      RanksRiseAlong(s, round, rank, last);
      RanksRise(s, round[last], round[0], Next(round, 0), rank);
    }
  }

  lemma OrderStays(s: State, i: nat, step: Step, rank: Ranking)
    requires Enabled(s, i, step) && AllInOrder(s, rank)
    ensures AllInOrder(Take(s, i, step), rank)
  {
  }

  lemma {:induction false} RunsKeepOrder(s: State, run: seq<Move>, rank: Ranking)
    requires Legal(s, run) && AllInOrder(s, rank)
    ensures AllInOrder(After(s, run), rank)
    decreases |run|
  {
    if run != [] {
      OrderStays(s, run[0].who, run[0].step, rank);
      RunsKeepOrder(Take(s, run[0].who, run[0].step), run[1..], rank);
    }
  }

  /** Programs that keep to one order, transactions included, finish: a run that nobody can continue,
      save by losing patience, has done all the work. */
  lemma OrderedRunsFinish(start: State, run: seq<Move>, rank: Ranking)
    requires Initial(start) && AllInOrder(start, rank) && Legal(start, run)
    requires forall i: nat | i < |start.sessions| :: !CanMove(After(start, run), i)
    ensures forall i | 0 <= i < |start.sessions| :: Done(After(start, run).sessions[i])
  {
    InitiallyInv(start);
    RunsKeep(start, run);
    RunsKeepOrder(start, run, rank);
    var end := After(start, run);
    if i :| 0 <= i < |start.sessions| && !Done(end.sessions[i]) {
      var round := StandstillHasACycle(end);
      OrderHasNoCycle(end, round, rank);
    }
  }
}
