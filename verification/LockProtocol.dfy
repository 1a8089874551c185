/** Sessions that lock tables side by side: any interleaving of their steps over one lock table. */
module LockProtocol {
  import opened Locks
  import opened Wrappers

  /** The locks of one unit of work in the order in which it asks for them: a statement outside a
      transaction, or a whole transaction. They are given back when the unit ends. */
  type Program = seq<Want>

  datatype Phase = Acquiring(taken: nat) | Releasing(left: set<Name>)

  /** What a session still has to do; it is busy with the first program. */
  datatype Session = Session(script: seq<Program>, phase: Phase)

  datatype State = State(locks: LockTable, sessions: seq<Session>)

  datatype Step = Grant | Timeout | Work | GiveBack(table: Name) | Finish

  function Tables(p: Program): set<Name> {
    set w | w in p :: w.table
  }

  predicate Sound(s: Session) {
    match s.phase
    case Acquiring(taken) => if s.script == [] then taken == 0 else taken <= |s.script[0]|
    case Releasing(_) => s.script != []
  }

  /** The tables a session holds. */
  function Held(s: Session): set<Name>
    requires Sound(s)
  {
    match s.phase
    case Acquiring(taken) => if s.script == [] then {} else Tables(s.script[0][..taken])
    case Releasing(left) => left
  }

  /** The session waits for its next lock. */
  predicate Waiting(s: Session) {
    s.script != [] && s.phase.Acquiring? && s.phase.taken < |s.script[0]|
  }

  function NextWant(s: Session): Want
    requires Waiting(s)
  {
    s.script[0][s.phase.taken]
  }

  predicate Done(s: Session) {
    s.script == []
  }

  /* ---------------------------------------------------------------- steps */

  predicate Enabled(s: State, i: nat, step: Step) {
    && i < |s.sessions| && Sound(s.sessions[i])
    && var me := s.sessions[i];
    match step
    case Grant => Waiting(me) && Try(At(s.locks, NextWant(me).table), i, NextWant(me).mode).1
    case Timeout => Waiting(me) && !Try(At(s.locks, NextWant(me).table), i, NextWant(me).mode).1
    case Work => me.script != [] && me.phase == Acquiring(|me.script[0]|)
    case GiveBack(n) => me.phase.Releasing? && n in me.phase.left
    case Finish => me.phase == Releasing({})
  }

  /** What a step leaves of the session that takes it. */
  function Moved(me: Session, step: Step): Session
    requires Sound(me)
    requires step.Grant? || step.Timeout? ==> Waiting(me)
    requires step.Work? ==> me.script != []
    requires step.GiveBack? ==> me.phase.Releasing?
    requires step.Finish? ==> me.script != []
  {
    match step
    case Grant => me.(phase := Acquiring(me.phase.taken + 1))
    case Timeout => me.(phase := Releasing(Held(me)))
    case Work => me.(phase := Releasing(Tables(me.script[0])))
    case GiveBack(n) => me.(phase := Releasing(me.phase.left - {n}))
    case Finish => Session(me.script[1..], Acquiring(0))
  }

  function Take(s: State, i: nat, step: Step): State
    requires Enabled(s, i, step)
  {
    var me := s.sessions[i];
    var locks :=
      match step
      case Grant =>
        var n := NextWant(me).table;
        s.locks[n := Try(At(s.locks, n), i, NextWant(me).mode).0]
      case GiveBack(n) => s.locks[n := Drop(At(s.locks, n), i)]
      case _ => s.locks;
    State(locks, s.sessions[i := Moved(me, step)])
  }

  /* ---------------------------------------------------------------- the invariant */

  /** The session was granted exclusive use of the table and has not begun to give back. */
  predicate Exclusively(s: Session, n: Name)
    requires Sound(s)
  {
    s.phase.Acquiring? && s.script != [] && Want(n, Exclusive) in s.script[0][..s.phase.taken]
  }

  /** The lock is owned by the sessions that hold the table, and its mode is what they were granted. */
  ghost predicate Agrees(lock: LockState, sessions: seq<Session>, n: Name)
    requires forall i | 0 <= i < |sessions| :: Sound(sessions[i])
  {
    && WellFormed(lock)
    && (forall i: nat :: i in lock.owners <==> i < |sessions| && n in Held(sessions[i]))
    && (forall i: nat | i < |sessions| && Exclusively(sessions[i], n) :: lock.mode == Some(Exclusive))
    && (lock.mode == Some(Exclusive) ==>
          forall i: nat | i < |sessions| && n in Held(sessions[i]) ::
            Exclusively(sessions[i], n) || sessions[i].phase.Releasing?)
  }

  ghost predicate Inv(s: State) {
    && (forall i | 0 <= i < |s.sessions| :: Sound(s.sessions[i]))
    && (forall n :: Agrees(At(s.locks, n), s.sessions, n))
  }

  /** Nobody has started and every lock is free. */
  predicate Initial(s: State) {
    s.locks == map[] && forall i | 0 <= i < |s.sessions| :: s.sessions[i].phase == Acquiring(0)
  }

  lemma InitiallyInv(s: State)
    requires Initial(s)
    ensures Inv(s)
  {
  }

  /** Taking one more program entry adds its table to what is held. */
  lemma GrantHolds(me: Session)
    requires Sound(me) && Waiting(me)
    ensures Held(Moved(me, Grant)) == Held(me) + {NextWant(me).table}
    ensures forall n :: Exclusively(Moved(me, Grant), n) <==> Exclusively(me, n) || NextWant(me) == Want(n, Exclusive)
  {
  }

  lemma HeldAfter(me: Session, step: Step, n: Name)
    requires Sound(me)
    requires step.Grant? || step.Timeout? ==> Waiting(me)
    requires step.Work? ==> me.script != [] && me.phase == Acquiring(|me.script[0]|)
    requires step.GiveBack? ==> me.phase.Releasing?
    requires step.Finish? ==> me.phase == Releasing({}) && me.script != []
    ensures Sound(Moved(me, step))
    ensures !step.Grant? && step != GiveBack(n) ==>
              && (n in Held(Moved(me, step)) <==> n in Held(me))
              && !Exclusively(Moved(me, step), n)
              && (n in Held(me) ==> Moved(me, step).phase.Releasing?)
    ensures step == GiveBack(n) ==> n !in Held(Moved(me, step))
    ensures step.GiveBack? && step != GiveBack(n) ==> (n in Held(Moved(me, step)) <==> n in Held(me))
  {
  }

  /** A step that leaves a lock alone leaves who holds its table as it was. */
  lemma QuietStepAgrees(lock: LockState, sessions: seq<Session>, i: nat, after: Session, n: Name)
    requires i < |sessions| && (forall j | 0 <= j < |sessions| :: Sound(sessions[j])) && Sound(after)
    requires Agrees(lock, sessions, n)
    requires n in Held(after) <==> n in Held(sessions[i])
    requires Exclusively(after, n) ==> Exclusively(sessions[i], n)
    requires n in Held(after) && !Exclusively(after, n) ==> after.phase.Releasing? || !Exclusively(sessions[i], n)
    requires sessions[i].phase.Releasing? ==> after.phase.Releasing? || n !in Held(after)
    ensures Agrees(lock, sessions[i := after], n)
  {
  }

  lemma GrantAgrees(lock: LockState, sessions: seq<Session>, i: nat, n: Name)
    requires i < |sessions| && (forall j | 0 <= j < |sessions| :: Sound(sessions[j])) && Waiting(sessions[i])
    requires Agrees(lock, sessions, n) && NextWant(sessions[i]).table == n
    requires Try(lock, i, NextWant(sessions[i]).mode).1
    requires Sound(Moved(sessions[i], Grant))
    ensures Agrees(Try(lock, i, NextWant(sessions[i]).mode).0, sessions[i := Moved(sessions[i], Grant)], n)
  {
    var me := sessions[i];
    GrantHolds(me);
    TryGrantsWhatIsCompatible(lock, i, NextWant(me).mode);
    var granted := Try(lock, i, NextWant(me).mode).0;
    assert forall j: nat :: j in granted.owners <==> j in lock.owners || j == i;
    if granted.mode == Some(Exclusive) {
      OnlyOwner(granted.owners, i);
    }
  }

  lemma GiveBackAgrees(lock: LockState, sessions: seq<Session>, i: nat, n: Name)
    requires i < |sessions| && (forall j | 0 <= j < |sessions| :: Sound(sessions[j]))
    requires Agrees(lock, sessions, n) && sessions[i].phase.Releasing? && n in sessions[i].phase.left
    ensures Agrees(Drop(lock, i), sessions[i := Moved(sessions[i], GiveBack(n))], n)
  {
  }

  lemma StepKeepsAgreement(s: State, i: nat, step: Step, n: Name)
    requires Inv(s) && Enabled(s, i, step)
    requires forall j | 0 <= j < |s.sessions| :: Sound(Take(s, i, step).sessions[j])
    ensures Agrees(At(Take(s, i, step).locks, n), Take(s, i, step).sessions, n)
  {
    var me := s.sessions[i];
    var lock := At(s.locks, n);
    HeldAfter(me, step, n);
    if step.Grant? {
      GrantHolds(me);
    }
    if step.Grant? && NextWant(me).table == n {
      GrantAgrees(lock, s.sessions, i, n);
    } else if step == GiveBack(n) {
      GiveBackAgrees(lock, s.sessions, i, n);
    } else {
      QuietStepAgrees(lock, s.sessions, i, Moved(me, step), n);
    }
  }

  lemma StepKeepsInv(s: State, i: nat, step: Step)
    requires Inv(s) && Enabled(s, i, step)
    ensures Inv(Take(s, i, step))
  {
    HeldAfter(s.sessions[i], step, "");
    forall n
      ensures Agrees(At(Take(s, i, step).locks, n), Take(s, i, step).sessions, n)
    {
      StepKeepsAgreement(s, i, step, n);
    }
  }

  /** While a session has exclusive use of a table, nobody else holds that table. */
  ghost predicate Exclusion(sessions: seq<Session>) {
    && (forall i | 0 <= i < |sessions| :: Sound(sessions[i]))
    && (forall i, j, n | 0 <= i < |sessions| && 0 <= j < |sessions| && Exclusively(sessions[i], n) && n in Held(sessions[j]) ::
          i == j)
  }

  lemma InvExcludes(s: State)
    requires Inv(s)
    ensures Exclusion(s.sessions)
  {
    forall i: nat, j: nat, n | i < |s.sessions| && j < |s.sessions| && Exclusively(s.sessions[i], n) && n in Held(s.sessions[j])
      ensures i == j
    {
      var lock := At(s.locks, n);
      assert Agrees(lock, s.sessions, n);
      assert lock.mode == Some(Exclusive) && j in lock.owners;
      assert n in Held(s.sessions[i]) && i in lock.owners;
      OnlyOwner(lock.owners, i);
    }
  }

  /* ---------------------------------------------------------------- no deadlock */

  /** What statements ask for outside a transaction: any number of shared locks, or one exclusive. */
  predicate Disciplined(p: Program) {
    |p| <= 1 || forall w | w in p :: w.mode == Shared
  }

  predicate AllDisciplined(s: State) {
    forall i, p | 0 <= i < |s.sessions| && p in s.sessions[i].script :: Disciplined(p)
  }

  /** The session can move, and not merely because its patience is over. */
  ghost predicate CanMove(s: State, i: nat) {
    exists step :: step != Timeout && Enabled(s, i, step)
  }

  predicate Blocked(s: State, i: nat) {
    Enabled(s, i, Timeout)
  }

  /** A session that is not done either waits in vain or can move. */
  lemma BlockedOrMoving(s: State, i: nat)
    requires i < |s.sessions| && Sound(s.sessions[i]) && !Done(s.sessions[i])
    ensures Blocked(s, i) || CanMove(s, i)
  {
    var me := s.sessions[i];
    match me.phase
    case Acquiring(taken) =>
      if !Blocked(s, i) {
        assert Enabled(s, i, if taken == |me.script[0]| then Work else Grant);
      }
    case Releasing(left) =>
      if left == {} {
        assert Enabled(s, i, Finish);
      } else {
        var n :| n in left;
        assert Enabled(s, i, GiveBack(n));
      }
  }

  /** A session is blocked by another that holds the table, exclusively if only sharing was asked for. */
  lemma BlockedBySomeone(s: State, i: nat) returns (j: nat)
    requires Inv(s) && Blocked(s, i)
    ensures j < |s.sessions| && j != i && NextWant(s.sessions[i]).table in Held(s.sessions[j])
    ensures NextWant(s.sessions[i]).mode == Shared ==>
              Exclusively(s.sessions[j], NextWant(s.sessions[i]).table) || s.sessions[j].phase.Releasing?
  {
    var want := NextWant(s.sessions[i]);
    var lock := At(s.locks, want.table);
    assert Agrees(lock, s.sessions, want.table);
    TryGrantsWhatIsCompatible(lock, i, want.mode);
    j :| j in lock.owners && j != i;
    if want.mode == Shared {
      match lock.mode
      case None =>
      case Some(mode) => assert mode == Shared || mode == Exclusive;
    }
  }

  /** Who holds something and still waits has asked for shared locks only; who has exclusive use of
      a table has asked for nothing else. */
  lemma DisciplinedHolder(me: Session, n: Name)
    requires Sound(me) && !Done(me) && Disciplined(me.script[0]) && n in Held(me)
    ensures Waiting(me) ==> NextWant(me).mode == Shared
    ensures Exclusively(me, n) ==> !Waiting(me)
  {
  }

  /** As long as somebody is not done, somebody can move: no discipline of order is needed, because
      whoever waits while holding a lock only asks to share. */
  lemma NoDeadlock(s: State, a: nat) returns (mover: nat)
    requires Inv(s) && AllDisciplined(s) && a < |s.sessions| && !Done(s.sessions[a])
    ensures mover < |s.sessions| && CanMove(s, mover)
  {
    BlockedOrMoving(s, a);
    if CanMove(s, a) {
      return a;
    }
    var b := BlockedBySomeone(s, a);
    BlockedOrMoving(s, b);
    if CanMove(s, b) {
      return b;
    }
    var first := s.sessions[b];
    assert first.script[0] in first.script;
    DisciplinedHolder(first, NextWant(s.sessions[a]).table);
    mover := BlockedBySomeone(s, b);
    var second := s.sessions[mover];
    assert second.script[0] in second.script;
    DisciplinedHolder(second, NextWant(first).table);
    BlockedOrMoving(s, mover);
  }

  /* ---------------------------------------------------------------- runs end */

  /** An upper bound for the steps a session has before it. */
  function Ahead(s: Session): nat
    requires Sound(s)
  {
    if s.script == [] then 0
    else Later(s.script[1..]) + match s.phase
                                case Acquiring(taken) => 2 * |s.script[0]| + 2 - taken
                                case Releasing(left) => |left| + 1
  }

  function Later(script: seq<Program>): nat {
    if script == [] then 0 else 2 * |script[0]| + 2 + Later(script[1..])
  }

  function AllAhead(sessions: seq<Session>): nat
    requires forall i | 0 <= i < |sessions| :: Sound(sessions[i])
  {
    if sessions == [] then 0 else Ahead(sessions[0]) + AllAhead(sessions[1..])
  }

  lemma {:induction false} OneLess(sessions: seq<Session>, i: nat, after: Session)
    requires i < |sessions| && (forall j | 0 <= j < |sessions| :: Sound(sessions[j])) && Sound(after)
    requires Ahead(after) < Ahead(sessions[i])
    ensures AllAhead(sessions[i := after]) < AllAhead(sessions)
  {
    if i == 0 {
      assert sessions[i := after][1..] == sessions[1..];
    } else {
      OneLess(sessions[1..], i - 1, after);
      assert sessions[i := after][1..] == sessions[1..][i - 1 := after];
    }
  }

  lemma {:induction false} TablesAreFew(p: Program)
    ensures |Tables(p)| <= |p|
  {
    if p != [] {
      TablesAreFew(p[1..]);
      assert Tables(p) == {p[0].table} + Tables(p[1..]) by {
        assert p == [p[0]] + p[1..];
      }
    } else {
      assert Tables(p) == {};
    }
  }

  lemma StepsRunOut(s: State, i: nat, step: Step)
    requires Inv(s) && Enabled(s, i, step)
    ensures Inv(Take(s, i, step)) && AllAhead(Take(s, i, step).sessions) < AllAhead(s.sessions)
  {
    StepKeepsInv(s, i, step);
    var me := s.sessions[i];
    match step {
      case Timeout => TablesAreFew(me.script[0][..me.phase.taken]);
      case Work => TablesAreFew(me.script[0]);
      case _ =>
    }
    OneLess(s.sessions, i, Moved(me, step));
  }

  /* ---------------------------------------------------------------- runs */

  datatype Move = Move(who: nat, step: Step)

  ghost predicate Legal(s: State, run: seq<Move>)
    decreases |run|
  {
    run == [] || (Enabled(s, run[0].who, run[0].step) && Legal(Take(s, run[0].who, run[0].step), run[1..]))
  }

  ghost function After(s: State, run: seq<Move>): (end: State)
    requires Legal(s, run)
    ensures |end.sessions| == |s.sessions|
    decreases |run|
  {
    if run == [] then s else After(Take(s, run[0].who, run[0].step), run[1..])
  }

  lemma DisciplineStays(s: State, i: nat, step: Step)
    requires Enabled(s, i, step) && AllDisciplined(s)
    ensures AllDisciplined(Take(s, i, step))
  {
  }

  lemma {:induction false} RunsKeep(s: State, run: seq<Move>)
    requires Inv(s) && Legal(s, run)
    ensures Inv(After(s, run)) && |run| + AllAhead(After(s, run).sessions) <= AllAhead(s.sessions)
    ensures AllDisciplined(s) ==> AllDisciplined(After(s, run))
    decreases |run|
  {
    if run != [] {
      StepsRunOut(s, run[0].who, run[0].step);
      if AllDisciplined(s) {
        DisciplineStays(s, run[0].who, run[0].step);
      }
      RunsKeep(Take(s, run[0].who, run[0].step), run[1..]);
    }
  }

  /** Whatever the programs are, transactions included: at every moment of every run exclusive use
      is exclusive, and no run is longer than the work there was. */
  lemma EveryRunIsSafeAndEnds(start: State, run: seq<Move>)
    requires Initial(start) && Legal(start, run)
    ensures Exclusion(After(start, run).sessions) && Inv(start)
    ensures |run| <= AllAhead(start.sessions)
  {
    InitiallyInv(start);
    RunsKeep(start, run);
    InvExcludes(After(start, run));
  }

  /** A run of statements outside transactions that nobody can continue, save by losing patience,
      has done all the work, and every lock is free again. */
  lemma DisciplinedRunsFinish(start: State, run: seq<Move>)
    requires Initial(start) && AllDisciplined(start) && Legal(start, run)
    requires forall i: nat | i < |start.sessions| :: !CanMove(After(start, run), i)
    ensures forall i | 0 <= i < |start.sessions| :: Done(After(start, run).sessions[i])
    ensures forall n :: At(After(start, run).locks, n) == FREE
  {
    InitiallyInv(start);
    RunsKeep(start, run);
    var end := After(start, run);
    forall i | 0 <= i < |start.sessions|
      ensures Done(end.sessions[i])
    {
      if !Done(end.sessions[i]) {
        var mover := NoDeadlock(end, i);
      }
    }
    forall n
      ensures At(end.locks, n) == FREE
    {
      assert Agrees(At(end.locks, n), end.sessions, n);
      assert At(end.locks, n).owners == {};
    }
  }

  /* ---------------------------------------------------------------- transactions may deadlock */

  const READ_THEN_WRITE: Program := [Want("t", Shared), Want("t", Exclusive)]

  /** Both transactions have read the table, and both want to write it. */
  const STUCK := State(map["t" := LockState(Some(Shared), {0, 1})],
                       [Session([READ_THEN_WRITE], Acquiring(1)), Session([READ_THEN_WRITE], Acquiring(1))])

  lemma BothRead(start: State)
    requires Initial(start) && start.sessions == [Session([READ_THEN_WRITE], Acquiring(0)), Session([READ_THEN_WRITE], Acquiring(0))]
    ensures var run := [Move(0, Grant), Move(1, Grant)];
      Legal(start, run) && After(start, run) == STUCK
  {
    var once := Take(start, 0, Grant);
    assert {} + {0} == {0} && once.locks == map["t" := LockState(Some(Shared), {0})];
    assert once.sessions == [Session([READ_THEN_WRITE], Acquiring(1)), start.sessions[1]];
    assert Enabled(once, 1, Grant);
    var twice := Take(once, 1, Grant);
    assert {0} + {1} == {0, 1};
    assert Try(At(once.locks, "t"), 1, Shared) == (LockState(Some(Shared), {0, 1}), true);
    assert twice.locks == STUCK.locks;
    assert twice == STUCK;
    var run := [Move(0, Grant), Move(1, Grant)];
    assert run[1..] == [Move(1, Grant)] && run[1..][1..] == [];
    assert Legal(twice, []) && Legal(once, run[1..]);
  }

  /** Two transactions that read a table and then write it can block each other for good; only
      patience running out lets the other through. */
  lemma UpgradesDeadlock(start: State)
    requires Initial(start) && start.sessions == [Session([READ_THEN_WRITE], Acquiring(0)), Session([READ_THEN_WRITE], Acquiring(0))]
    ensures var run := [Move(0, Grant), Move(1, Grant)];
      && Legal(start, run)
      && (forall i: nat | i < 2 :: !CanMove(After(start, run), i) && !Done(After(start, run).sessions[i]))
      && Enabled(After(start, run), 0, Timeout)
    ensures var backing := Take(STUCK, 0, Timeout);
      Enabled(backing, 0, GiveBack("t")) && Enabled(Take(backing, 0, GiveBack("t")), 1, Grant)
  {
    BothRead(start);
    assert |{0, 1}| == 2;
    var backing := Take(STUCK, 0, Timeout);
    assert READ_THEN_WRITE[..1] == [Want("t", Shared)];
    var given := Take(backing, 0, GiveBack("t"));
    assert {0, 1} - {0} == {1};
  }
}
