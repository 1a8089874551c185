/** Which programs can block each other for good, told from the programs alone. */
module DeadlockRuns {
  import opened Locks
  import opened LockProtocol
  import opened Deadlocks

  /** `left` is what remains of a script when some programs are finished. */
  predicate LeftOf(left: seq<Program>, script: seq<Program>) {
    |left| <= |script| && left == script[|script| - |left|..]
  }

  /** Each session has finished some of its programs and taken the locks of a prefix of the next one. */
  predicate Prefixes(start: State, at: seq<Session>) {
    |at| == |start.sessions| && forall i | 0 <= i < |at| ::
      at[i].phase.Acquiring? && Sound(at[i]) && LeftOf(at[i].script, start.sessions[i].script)
  }

  /** What they hold does not conflict. */
  ghost predicate Possible(start: State, at: seq<Session>) {
    Prefixes(start, at) && Exclusion(at)
  }

  /** The next request of session `i` conflicts with what session `j` holds. */
  predicate Conflicts(at: seq<Session>, i: nat, j: nat) {
    && i < |at| && j < |at| && i != j && Sound(at[i]) && Sound(at[j]) && Waiting(at[i])
    && var want := NextWant(at[i]);
      want.table in Held(at[j]) && (want.mode == Exclusive || Exclusively(at[j], want.table))
  }

  predicate ConflictInARound(at: seq<Session>, round: seq<nat>) {
    && round != []
    && (forall k | 0 <= k < |round| - 1 :: Conflicts(at, round[k], round[k + 1]))
    && Conflicts(at, round[|round| - 1], round[0])
  }

  ghost predicate Quiet(sessions: seq<Session>) {
    forall i | 0 <= i < |sessions| :: Sound(sessions[i]) && sessions[i].phase.Acquiring?
  }

  /** Where nobody is giving back, who waits for whom can be told from the sessions alone. */
  lemma WaitingIsConflict(s: State, i: nat, j: nat)
    requires Inv(s) && Quiet(s.sessions)
    ensures WaitsFor(s, i, j) <==> Conflicts(s.sessions, i, j)
  {
    if i < |s.sessions| && j < |s.sessions| && Waiting(s.sessions[i]) {
      var n := NextWant(s.sessions[i]).table;
      assert Agrees(At(s.locks, n), s.sessions, n);
      assert Sound(s.sessions[j]) && s.sessions[j].phase.Acquiring?;
    }
  }

  lemma CycleIsConflict(s: State, round: seq<nat>)
    requires Inv(s) && Quiet(s.sessions)
    ensures Cycle(s, round) <==> ConflictInARound(s.sessions, round)
  {
    forall i: nat, j: nat
      ensures WaitsFor(s, i, j) <==> Conflicts(s.sessions, i, j)
    {
      WaitingIsConflict(s, i, j);
    }
  }

  /* ---------------------------------------------------------------- runs */

  lemma {:induction false} RunsJoin(s: State, run: seq<Move>, more: seq<Move>)
    requires Legal(s, run) && Legal(After(s, run), more)
    ensures Legal(s, run + more) && After(s, run + more) == After(After(s, run), more)
    decreases |run|
  {
    if run == [] {
      assert run + more == more;
    } else {
      var next := Take(s, run[0].who, run[0].step);
      RunsJoin(next, run[1..], more);
      assert (run + more)[1..] == run[1..] + more;
    }
  }

  lemma OneMove(s: State, i: nat, step: Step) returns (run: seq<Move>)
    requires Enabled(s, i, step)
    ensures Legal(s, run) && After(s, run) == Take(s, i, step)
  {
    run := [Move(i, step)];
    assert run[1..] == [] && Legal(Take(s, i, step), run[1..]);
  }

  lemma StepFirst(s: State, i: nat, step: Step, more: seq<Move>) returns (run: seq<Move>)
    requires Enabled(s, i, step) && Legal(Take(s, i, step), more)
    ensures Legal(s, run) && After(s, run) == After(Take(s, i, step), more)
  {
    run := OneMove(s, i, step);
    RunsJoin(s, run, more);
    run := run + more;
  }

  /* ---------------------------------------------------------------- finishing programs */

  /** Everybody but session `i` is between programs. */
  ghost predicate Alone(sessions: seq<Session>, i: nat) {
    i < |sessions| && forall j | 0 <= j < |sessions| && j != i :: Sound(sessions[j]) && sessions[j].phase == Acquiring(0)
  }

  lemma AloneCanMove(s: State, i: nat)
    requires Inv(s) && Alone(s.sessions, i) && !Done(s.sessions[i])
    ensures CanMove(s, i)
  {
    BlockedOrMoving(s, i);
    BlockedMeans(s, i);
  }

  /** A session that is alone comes to the end of any of its programs. */
  lemma {:induction false} FinishAlone(s: State, i: nat, left: seq<Program>) returns (run: seq<Move>)
    requires Inv(s) && Alone(s.sessions, i) && LeftOf(left, s.sessions[i].script)
    requires |left| == |s.sessions[i].script| ==> s.sessions[i].phase == Acquiring(0)
    ensures Legal(s, run) && After(s, run).sessions == s.sessions[i := Session(left, Acquiring(0))]
    decreases AllAhead(s.sessions)
  {
    var me := s.sessions[i];
    if |left| == |me.script| {
      run := [];
      assert me == Session(left, Acquiring(0));
    } else {
      AloneCanMove(s, i);
      var step :| step != Timeout && Enabled(s, i, step);
      StepsRunOut(s, i, step);
      var next := Take(s, i, step);
      assert next.sessions[i] == Moved(me, step);
      var more := FinishAlone(next, i, left);
      run := StepFirst(s, i, step, more);
    }
  }

  /** The first `k` sessions have finished their programs, the others have not begun. */
  ghost predicate Finished(start: State, s: State, at: seq<Session>, k: nat) {
    && |at| == |s.sessions| == |start.sessions| && k <= |at|
    && (forall i | 0 <= i < k :: s.sessions[i] == Session(at[i].script, Acquiring(0)))
    && (forall i | k <= i < |at| :: s.sessions[i] == start.sessions[i])
  }

  lemma {:induction false} FinishAll(start: State, at: seq<Session>, k: nat) returns (run: seq<Move>)
    requires Initial(start) && Prefixes(start, at) && k <= |at|
    ensures Legal(start, run) && Inv(After(start, run)) && Finished(start, After(start, run), at, k)
  {
    InitiallyInv(start);
    if k == 0 {
      run := [];
    } else {
      var before: nat := k - 1;
      run := FinishAll(start, at, before);
      var s := After(start, run);
      var more := FinishAlone(s, before, at[before].script);
      RunsKeep(s, more);
      RunsJoin(start, run, more);
      run := run + more;
    }
  }

  /* ---------------------------------------------------------------- taking the locks of the prefixes */

  /** Everybody is on the way to where they are in `at`, and busy with the same program. */
  ghost predicate Towards(sessions: seq<Session>, at: seq<Session>) {
    && |sessions| == |at|
    && (forall i | 0 <= i < |at| ::
          && Sound(sessions[i]) && Sound(at[i]) && sessions[i].phase.Acquiring? && at[i].phase.Acquiring?
          && sessions[i].script == at[i].script && sessions[i].phase.taken <= at[i].phase.taken)
  }

  lemma TowardsHolds(me: Session, goal: Session, n: Name)
    requires Sound(me) && Sound(goal) && me.phase.Acquiring? && goal.phase.Acquiring?
    requires me.script == goal.script && me.phase.taken <= goal.phase.taken
    ensures n in Held(me) ==> n in Held(goal)
    ensures Exclusively(me, n) ==> Exclusively(goal, n)
    ensures me.phase.taken < goal.phase.taken ==>
              && Waiting(me) && NextWant(me).table in Held(goal)
              && (NextWant(me).mode == Exclusive ==> Exclusively(goal, NextWant(me).table))
  {
    if me.script != [] {
      var p := me.script[0];
      assert p[..me.phase.taken] <= p[..goal.phase.taken];
      if me.phase.taken < goal.phase.taken {
        assert p[..goal.phase.taken][me.phase.taken] == NextWant(me);
      }
    }
  }

  lemma NobodyInTheWay(s: State, at: seq<Session>, i: nat, j: nat)
    requires Inv(s) && Towards(s.sessions, at) && Exclusion(at)
    requires i < |at| && s.sessions[i].phase.taken < at[i].phase.taken
    ensures !WaitsFor(s, i, j)
  {
    WaitingIsConflict(s, i, j);
    TowardsHolds(s.sessions[i], at[i], "");
    if j < |at| {
      TowardsHolds(s.sessions[j], at[j], NextWant(s.sessions[i]).table);
    }
  }

  /** Where the goal has no conflict, the next lock on the way there is free. */
  lemma NextIsGranted(s: State, at: seq<Session>, i: nat)
    requires Inv(s) && Towards(s.sessions, at) && Exclusion(at)
    requires i < |at| && s.sessions[i].phase.taken < at[i].phase.taken
    ensures Enabled(s, i, Grant)
  {
    var me := s.sessions[i];
    TowardsHolds(me, at[i], "");
    BlockedMeans(s, i);
    forall j
      ensures !WaitsFor(s, i, j)
    {
      NobodyInTheWay(s, at, i, j);
    }
  }

  lemma {:induction false} TakeAll(s: State, at: seq<Session>) returns (run: seq<Move>)
    requires Inv(s) && Towards(s.sessions, at) && Exclusion(at)
    ensures Legal(s, run) && After(s, run).sessions == at
    decreases AllAhead(s.sessions)
  {
    if i :| 0 <= i < |at| && s.sessions[i].phase.taken < at[i].phase.taken {
      NextIsGranted(s, at, i);
      StepsRunOut(s, i, Grant);
      var more := TakeAll(Take(s, i, Grant), at);
      run := StepFirst(s, i, Grant, more);
    } else {
      run := [];
      assert forall i | 0 <= i < |at| :: s.sessions[i] == at[i];
    }
  }

  /** Whatever prefixes do not conflict, the sessions can be brought to hold them. */
  lemma PossibleIsReached(start: State, at: seq<Session>) returns (run: seq<Move>)
    requires Initial(start) && Possible(start, at)
    ensures Legal(start, run) && Inv(After(start, run)) && After(start, run).sessions == at
  {
    run := FinishAll(start, at, |at|);
    var s := After(start, run);
    var more := TakeAll(s, at);
    RunsKeep(s, more);
    RunsJoin(start, run, more);
    run := run + more;
  }

  /* ---------------------------------------------------------------- to the standstill and back */

  /** A round of waiting ends in a standstill if nobody loses patience. */
  lemma {:induction false} RoundComesToAStandstill(s: State, round: seq<nat>) returns (run: seq<Move>)
    requires Inv(s) && Cycle(s, round)
    ensures Legal(s, run) && Standstill(After(s, run))
    decreases AllAhead(s.sessions)
  {
    if i: nat :| i < |s.sessions| && CanMove(s, i) {
      var step :| step != Timeout && Enabled(s, i, step);
      CycleLasts(s, round, i, step);
      StepsRunOut(s, i, step);
      var more := RoundComesToAStandstill(Take(s, i, step), round);
      run := StepFirst(s, i, step, more);
    } else {
      run := [];
      DeadlockIsACycle(s);
    }
  }

  lemma {:induction false} RunsLeave(s: State, run: seq<Move>, i: nat)
    requires Legal(s, run) && i < |s.sessions|
    ensures LeftOf(After(s, run).sessions[i].script, s.sessions[i].script)
    decreases |run|
  {
    if run != [] {
      RunsLeave(Take(s, run[0].who, run[0].step), run[1..], i);
    }
  }

  lemma StandstillIsPossible(start: State, run: seq<Move>)
    requires Initial(start) && Legal(start, run) && Standstill(After(start, run))
    ensures Inv(After(start, run)) && Quiet(After(start, run).sessions) && Possible(start, After(start, run).sessions)
  {
    var end := After(start, run);
    EveryRunIsSafeAndEnds(start, run);
    RunsKeep(start, run);
    forall i | 0 <= i < |end.sessions|
      ensures end.sessions[i].phase.Acquiring? && LeftOf(end.sessions[i].script, start.sessions[i].script)
    {
      RunsLeave(start, run, i);
      if !Done(end.sessions[i]) {
        BlockedOrMoving(end, i);
      }
    }
  }

  /** The run comes to a standstill. */
  ghost predicate EndsInDeadlock(start: State, run: seq<Move>) {
    Legal(start, run) && Standstill(After(start, run))
  }

  /** Prefixes that do not conflict, followed by requests that conflict in a round. */
  ghost predicate Deadlock(start: State, at: seq<Session>, round: seq<nat>) {
    Possible(start, at) && ConflictInARound(at, round)
  }

  lemma StandstillHasAConflict(start: State, run: seq<Move>) returns (at: seq<Session>, round: seq<nat>)
    requires Initial(start) && EndsInDeadlock(start, run)
    ensures Deadlock(start, at, round)
  {
    StandstillIsPossible(start, run);
    at := After(start, run).sessions;
    round := StandstillHasACycle(After(start, run));
    CycleIsConflict(After(start, run), round);
  }

  lemma ConflictLeadsToAStandstill(start: State, at: seq<Session>, round: seq<nat>) returns (run: seq<Move>)
    requires Initial(start) && Deadlock(start, at, round)
    ensures EndsInDeadlock(start, run)
  {
    run := PossibleIsReached(start, at);
    CycleIsConflict(After(start, run), round);
    var more := RoundComesToAStandstill(After(start, run), round);
    RunsJoin(start, run, more);
    run := run + more;
  }

  /** Some run comes to a standstill exactly if there are, for each session, a number of finished
      programs and a prefix of the next one, such that the prefixes do not conflict and the requests
      that follow them conflict in a round. */
  lemma DeadlocksExactly(start: State)
    requires Initial(start)
    ensures (exists run :: EndsInDeadlock(start, run)) <==> (exists at, round :: Deadlock(start, at, round))
  {
    if run :| EndsInDeadlock(start, run) {
      var at, round := StandstillHasAConflict(start, run);
    }
    if at, round :| Deadlock(start, at, round) {
      var run := ConflictLeadsToAStandstill(start, at, round);
    }
  }
}
