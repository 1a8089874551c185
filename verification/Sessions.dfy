/** How statements lock tables: outside a transaction a statement gives back what it took, whatever
    happens; inside one, locks are kept until the transaction ends. */
module Sessions {
  import opened Locks
  import opened Collections
  import opened Wrappers

  /* ---------------------------------------------------------------- lock tables before and after */

  ghost predicate Same(before: LockTable, after: LockTable) {
    forall m :: At(after, m) == At(before, m)
  }

  /** A lock's state once it has been asked for, if it has. */
  function Asked(s: LockState, owner: Owner, mode: Mode, asked: bool): LockState {
    if asked then Try(s, owner, mode).0 else s
  }

  /** The tables were asked for in that mode, and no others. */
  ghost predicate AskedOf(before: LockTable, after: LockTable, owner: Owner, mode: Mode, tables: seq<Name>) {
    forall m :: At(after, m) == Asked(At(before, m), owner, mode, m in tables)
  }

  /** The owner gave the tables back, and no others. */
  ghost predicate GivenBack(before: LockTable, after: LockTable, owner: Owner, tables: seq<Name>) {
    forall m :: At(after, m) == if m in tables then Drop(At(before, m), owner) else At(before, m)
  }

  /** The owner, if there is one, left every lock. */
  ghost predicate Left(before: LockTable, after: LockTable, who: Option<Owner>) {
    forall m :: At(after, m) == if who.Some? then Drop(At(before, m), who.value) else At(before, m)
  }

  ghost predicate Absent(locks: LockTable, owner: Owner) {
    forall m :: owner !in At(locks, m).owners
  }

  ghost predicate InGoodOrder(locks: LockTable) {
    forall m :: WellFormed(At(locks, m))
  }

  /** What an owner remembers about its locks is right. */
  ghost predicate Remembers(locks: LockTable, owner: Owner, locked: map<Name, Mode>) {
    && (forall m :: owner in At(locks, m).owners <==> m in locked)
    && (forall m | m in locked && locked[m] == Exclusive :: At(locks, m).mode == Some(Exclusive))
  }

  /** What the owner remembers spares a request only where it would be granted without any change. */
  lemma RememberedIsGranted(locks: LockTable, owner: Owner, locked: map<Name, Mode>, n: Name, mode: Mode)
    requires Remembers(locks, owner, locked) && n in locked && (locked[n] == Exclusive || locked[n] == mode)
    ensures Try(At(locks, n), owner, mode) == (At(locks, n), true) && locks[n := At(locks, n)] == locks
  {
  }

  lemma GrantIsRemembered(locks: LockTable, owner: Owner, locked: map<Name, Mode>, n: Name, mode: Mode)
    requires InGoodOrder(locks) && Remembers(locks, owner, locked)
    requires !(n in locked && locked[n] == Exclusive)
    ensures var (after, granted) := Try(At(locks, n), owner, mode);
      Remembers(locks[n := after], owner, if granted then locked[n := mode] else locked)
  {
    TryGrantsWhatIsCompatible(At(locks, n), owner, mode);
  }

  lemma OneMoreAsked(before: LockTable, now: LockTable, owner: Owner, mode: Mode, tables: seq<Name>, n: Name)
    requires AskedOf(before, now, owner, mode, tables) && n !in tables
    ensures At(now, n) == At(before, n)
    ensures AskedOf(before, now[n := Try(At(now, n), owner, mode).0], owner, mode, tables + [n])
  {
    var after := now[n := Try(At(now, n), owner, mode).0];
    forall m
      ensures At(after, m) == Asked(At(before, m), owner, mode, m in tables + [n])
    {
      assert At(now, m) == Asked(At(before, m), owner, mode, m in tables);
    }
  }

  lemma OneAsked(before: LockTable, owner: Owner, mode: Mode, n: Name)
    ensures AskedOf(before, before[n := Try(At(before, n), owner, mode).0], owner, mode, [n])
  {
  }

  lemma RefusedAndLeft(before: LockTable, n: Name, after: LockTable, who: Option<Owner>)
    requires Left(before[n := At(before, n)], after, who)
    ensures Left(before, after, who)
  {
    forall m
      ensures At(before[n := At(before, n)], m) == At(before, m)
    {
    }
  }

  /** Whoever leaves every lock might as well not have asked. */
  lemma LeavingForgets(before: LockTable, now: LockTable, after: LockTable, owner: Owner, mode: Mode, tables: seq<Name>)
    requires InGoodOrder(before) && AskedOf(before, now, owner, mode, tables) && Left(now, after, Some(owner))
    ensures Left(before, after, Some(owner))
  {
    forall m
      ensures At(after, m) == Drop(At(before, m), owner)
    {
      DropForgetsTry(At(before, m), owner, mode);
    }
  }

  /** A stranger that asks and gives back leaves every lock as it was. */
  lemma StrangerLeavesNoTrace(before: LockTable, now: LockTable, after: LockTable, owner: Owner, mode: Mode, tables: seq<Name>)
    requires InGoodOrder(before) && Absent(before, owner)
    requires AskedOf(before, now, owner, mode, tables) && GivenBack(now, after, owner, tables)
    ensures Same(before, after) && Absent(after, owner)
  {
    forall m
      ensures At(after, m) == At(before, m)
    {
      DropForgetsTry(At(before, m), owner, mode);
    }
  }

  lemma GivingBackNothing(before: LockTable, now: LockTable, after: LockTable, who: Option<Owner>, owner: Owner, tables: seq<Name>)
    requires InGoodOrder(before) && Absent(before, owner) && Left(before, now, who) && GivenBack(now, after, owner, tables)
    ensures Left(before, after, who) && Absent(after, owner)
  {
    forall m
      ensures At(after, m) == At(now, m) && owner !in At(after, m).owners
    {
      if who.Some? {
        DropTakesOne(At(before, m), who.value);
      }
      DropTakesOne(At(now, m), owner);
    }
  }

  lemma LeftStaysAbsent(before: LockTable, after: LockTable, who: Option<Owner>, owner: Owner)
    requires Absent(before, owner) && Left(before, after, who)
    ensures Absent(after, owner)
  {
  }

  /** The owner left every lock but some. */
  ghost predicate LeftBut(before: LockTable, after: LockTable, owner: Owner, rest: set<Name>) {
    forall m :: At(after, m) == if m in rest then At(before, m) else Drop(At(before, m), owner)
  }

  lemma NoneLeft(locks: LockTable, owner: Owner, locked: map<Name, Mode>)
    requires InGoodOrder(locks) && Remembers(locks, owner, locked)
    ensures LeftBut(locks, locks, owner, locked.Keys)
  {
    forall m | m !in locked
      ensures Drop(At(locks, m), owner) == At(locks, m)
    {
      DropTakesOne(At(locks, m), owner);
    }
  }

  lemma OneMoreLeft(before: LockTable, now: LockTable, owner: Owner, n: Name, rest: set<Name>)
    requires n in rest && LeftBut(before, now, owner, rest)
    ensures LeftBut(before, now[n := Drop(At(now, n), owner)], owner, rest - {n})
  {
  }

  lemma AllLeft(before: LockTable, after: LockTable, owner: Owner)
    requires InGoodOrder(before) && LeftBut(before, after, owner, {})
    ensures Left(before, after, Some(owner)) && Remembers(after, owner, map[])
  {
    forall m
      ensures owner !in At(after, m).owners
    {
      DropTakesOne(At(before, m), owner);
    }
  }

  /* ---------------------------------------------------------------- transactions */

  class Transaction {
    const manager: LockManager
    const owner: Owner
    var locked: map<Name, Mode>

    /** It remembers exactly the locks its owner holds. */
    ghost predicate Valid()
      reads this, manager, manager.locks.Values
    {
      manager.Valid() && Remembers(manager.view, owner, locked)
    }

    constructor (manager: LockManager, owner: Owner)
      requires manager.Valid() && Absent(manager.view, owner)
      ensures Valid() && this.manager == manager && this.owner == owner && locked == map[]
    {
      this.manager, this.owner, locked := manager, owner, map[];
    }

    method EnsureLock(n: Name, mode: Mode) returns (granted: bool)
      requires Valid()
      modifies this, manager, manager.locks.Values
      ensures Valid() && fresh(manager.locks.Values - old(manager.locks.Values))
      ensures granted == Compatible(At(old(manager.view), n), owner, mode)
      ensures manager.view == old(manager.view)[n := Try(At(old(manager.view), n), owner, mode).0]
    {
      assert InGoodOrder(manager.view);
      TryGrantsWhatIsCompatible(At(manager.view, n), owner, mode);
      if n in locked && (locked[n] == Exclusive || locked[n] == mode) {
        RememberedIsGranted(manager.view, owner, locked, n, mode);
        return true;
      }
      GrantIsRemembered(manager.view, owner, locked, n, mode);
      granted := manager.Acquire(n, owner, mode);
      if granted {
        locked := locked[n := mode];
      }
    }

    method ReleaseLocks()
      requires Valid()
      modifies this, manager`view, manager.locks.Values
      ensures Valid() && locked == map[] && manager.locks == old(manager.locks)
      ensures Left(old(manager.view), manager.view, Some(owner))
    {
      var left := locked.Keys;
      assert InGoodOrder(manager.view);
      NoneLeft(manager.view, owner, locked);
      while left != {}
        invariant manager.Valid() && manager.locks == old(manager.locks) && LeftBut(old(manager.view), manager.view, owner, left)
        decreases left
      {
        var n :| n in left;
        OneMoreLeft(old(manager.view), manager.view, owner, n, left);
        manager.Release(n, owner);
        left := left - {n};
      }
      AllLeft(old(manager.view), manager.view, owner);
      locked := map[];
    }
  }

  /* ---------------------------------------------------------------- statements */

  /** What a SELECT asks for: shared use of its tables, in their order. */
  function SelectWants(names: seq<Name>): (wants: seq<Want>)
    ensures |wants| == |names| && forall i | 0 <= i < |names| :: wants[i] == Want(names[i], Shared)
  {
    seq(|names|, i requires 0 <= i < |names| => Want(names[i], Shared))
  }

  /** The requests made since `before` are the first ones of `program`, or all of them. */
  ghost predicate AskedFor(before: seq<Want>, now: seq<Want>, program: seq<Want>, all: bool) {
    exists i :: 0 <= i <= |program| && now == before + program[..i] && (all ==> i == |program|)
  }

  lemma AskedNext(before: seq<Want>, now: seq<Want>, names: seq<Name>, i: nat)
    requires i < |names| && now == before + SelectWants(names)[..i]
    ensures now + [Want(names[i], Shared)] == before + SelectWants(names)[..i + 1]
    ensures AskedFor(before, now + [Want(names[i], Shared)], SelectWants(names), false)
  {
  }

  datatype Outcome = Completed | TimedOut | Failed

  class Session {
    const manager: LockManager
    const autocommitOwner: Owner
    var transaction: Transaction?
    /** Every lock asked for so far, in order. */
    ghost var asked: seq<Want>

    /** The transaction, if there is one, is in order. */
    ghost predicate Steady()
      reads this, transaction, manager, manager.locks.Values
    {
      && manager.Valid()
      && (transaction != null ==>
            && transaction.manager == manager && transaction.owner != autocommitOwner
            && Remembers(manager.view, transaction.owner, transaction.locked))
    }

    /** Between statements the session holds locks only through its transaction. */
    ghost predicate Valid()
      reads this, transaction, manager, manager.locks.Values
    {
      Steady() && Absent(manager.view, autocommitOwner)
    }

    constructor (manager: LockManager, owner: Owner)
      requires manager.Valid() && Absent(manager.view, owner)
      ensures Valid() && this.manager == manager && autocommitOwner == owner && transaction == null
    {
      this.manager, autocommitOwner, transaction, asked := manager, owner, null, [];
    }

    /** In whose name the session asks for locks. */
    function Me(): Owner
      reads this, transaction
    {
      if transaction == null then autocommitOwner else transaction.owner
    }

    /** The owner behind the transaction, if there is one. */
    ghost function Enrolled(): Option<Owner>
      reads this, transaction
    {
      if transaction == null then None else Some(transaction.owner)
    }

    method FailInTransaction()
      requires Steady()
      modifies `transaction, transaction, manager`view, manager.locks.Values
      ensures Steady() && transaction == null && manager.locks == old(manager.locks)
      ensures Left(old(manager.view), manager.view, old(Enrolled()))
    {
      if transaction != null {
        var ended := transaction;
        transaction := null;
        ended.ReleaseLocks();
      }
    }

    method LockOrAbort(n: Name, mode: Mode) returns (granted: bool)
      requires Steady()
      modifies `transaction, `asked, transaction, manager, manager.locks.Values
      ensures Steady() && fresh(manager.locks.Values - old(manager.locks.Values))
      ensures asked == old(asked) + [Want(n, mode)]
      ensures granted == Compatible(At(old(manager.view), n), old(Me()), mode)
      ensures granted ==>
                && transaction == old(transaction)
                && manager.view == old(manager.view)[n := Try(At(old(manager.view), n), old(Me()), mode).0]
      ensures !granted ==> transaction == null && Left(old(manager.view), manager.view, old(Enrolled()))
    {
      assert InGoodOrder(manager.view);
      TryGrantsWhatIsCompatible(At(manager.view, n), Me(), mode);
      granted := Request(n, mode);
      if !granted {
        FailInTransaction();
        RefusedAndLeft(old(manager.view), n, manager.view, old(Enrolled()));
      }
    }

    /** Asks for a lock in the name of the transaction, or else of the session. */
    method Request(n: Name, mode: Mode) returns (granted: bool)
      requires Steady()
      modifies `asked, transaction, manager, manager.locks.Values
      ensures Steady() && fresh(manager.locks.Values - old(manager.locks.Values))
      ensures asked == old(asked) + [Want(n, mode)]
      ensures granted == Compatible(At(old(manager.view), n), old(Me()), mode)
      ensures manager.view == old(manager.view)[n := Try(At(old(manager.view), n), old(Me()), mode).0]
    {
      asked := asked + [Want(n, mode)];
      if transaction != null {
        granted := transaction.EnsureLock(n, mode);
      } else {
        granted := manager.Acquire(n, autocommitOwner, mode);
      }
    }

    method ReleaseAutocommit(n: Name)
      requires Steady()
      modifies manager`view, manager.locks.Values
      ensures Steady() && manager.locks == old(manager.locks)
      ensures manager.view == if transaction != null then old(manager.view)
                              else old(manager.view)[n := Drop(At(old(manager.view), n), autocommitOwner)]
    {
      if transaction == null {
        manager.Release(n, autocommitOwner);
      }
    }

    /** Takes shared locks in the order given, until one cannot be had. */
    method TakeShared(names: seq<Name>) returns (taken: seq<Name>, granted: bool)
      requires Steady() && Different(names)
      modifies `transaction, `asked, transaction, manager, manager.locks.Values
      ensures Steady() && fresh(manager.locks.Values - old(manager.locks.Values)) && taken <= names
      ensures AskedFor(old(asked), asked, SelectWants(names), granted)
      ensures granted <==> forall n | n in names :: Compatible(At(old(manager.view), n), old(Me()), Shared)
      ensures granted ==> transaction == old(transaction) && taken == names
      ensures granted || old(transaction) == null ==> AskedOf(old(manager.view), manager.view, old(Me()), Shared, taken)
      ensures !granted ==> transaction == null
      ensures !granted && old(transaction) != null ==> Left(old(manager.view), manager.view, Some(old(Me())))
    {
      ghost var before, me := manager.view, Me();
      assert InGoodOrder(before);
      for i := 0 to |names|
        invariant Steady() && fresh(manager.locks.Values - old(manager.locks.Values))
        invariant transaction == old(transaction)
        invariant asked == old(asked) + SelectWants(names)[..i]
        invariant AskedOf(before, manager.view, me, Shared, names[..i])
        invariant forall n | n in names[..i] :: Compatible(At(before, n), me, Shared)
      {
        assert names[..i + 1] == names[..i] + [names[i]];
        AskedNext(old(asked), asked, names, i);
        OneMoreAsked(before, manager.view, me, Shared, names[..i], names[i]);
        ghost var now := manager.view;
        var got := LockOrAbort(names[i], Shared);
        assert fresh(manager.locks.Values - old(manager.locks.Values));
        if !got {
          assert names[i] in names;
          if old(transaction) != null {
            LeavingForgets(before, now, manager.view, me, Shared, names[..i]);
          }
          return names[..i], false;
        }
      }
      return names, true;
    }

    /** Gives back, last first, what was taken outside a transaction. */
    method GiveBack(taken: seq<Name>)
      requires Steady()
      modifies manager`view, manager.locks.Values
      ensures Steady() && manager.locks == old(manager.locks)
      ensures if transaction == null then GivenBack(old(manager.view), manager.view, autocommitOwner, taken)
              else manager.view == old(manager.view)
    {
      for j := |taken| downto 0
        invariant Steady() && manager.locks == old(manager.locks)
        invariant if transaction == null then GivenBack(old(manager.view), manager.view, autocommitOwner, taken[j..])
                  else manager.view == old(manager.view)
      {
        ghost var now := manager.view;
        ReleaseAutocommit(taken[j]);
        if transaction == null {
          OneMoreGivenBack(old(manager.view), now, autocommitOwner, taken, j);
        }
      }
      assert taken[0..] == taken;
    }

    /** SELECT: shared locks on its tables in the order of their names, the query itself, which may
        fail, and the locks back. Outside a transaction every lock is afterwards as it was. */
    method Select(names: seq<Name>) returns (outcome: Outcome)
      requires Valid() && Different(names)
      modifies `transaction, `asked, transaction, manager, manager.locks.Values
      ensures Valid() && fresh(manager.locks.Values - old(manager.locks.Values))
      ensures AskedFor(old(asked), asked, SelectWants(names), outcome != TimedOut)
      ensures outcome != TimedOut <==> forall n | n in names :: Compatible(At(old(manager.view), n), old(Me()), Shared)
      ensures old(transaction) == null ==> transaction == null && Same(old(manager.view), manager.view)
      ensures old(transaction) != null && outcome != TimedOut ==>
                transaction == old(transaction) && AskedOf(old(manager.view), manager.view, Me(), Shared, names)
      ensures old(transaction) != null && outcome == TimedOut ==>
                transaction == null && Left(old(manager.view), manager.view, Some(old(Me())))
    {
      ghost var before, me := manager.view, Me();
      assert InGoodOrder(before);
      var taken, granted := TakeShared(names);
      if granted {
        var fails: bool := *;
        outcome := if fails then Failed else Completed;
      } else {
        outcome := TimedOut;
      }
      ghost var now := manager.view;
      GiveBack(taken);
      if old(transaction) == null {
        StrangerLeavesNoTrace(before, now, manager.view, me, Shared, taken);
      } else if granted {
        AskingKeepsAbsent(before, now, me, Shared, taken, autocommitOwner);
      } else {
        GivingBackNothing(before, now, manager.view, Some(me), autocommitOwner, taken);
      }
    }

    /** INSERT, DELETE and the like: one exclusive lock, the change itself, which may fail, and the
        lock back. A failure ends the transaction and gives all its locks back. */
    method Mutate(n: Name) returns (outcome: Outcome)
      requires Valid()
      modifies `transaction, `asked, transaction, manager, manager.locks.Values
      ensures Valid() && fresh(manager.locks.Values - old(manager.locks.Values))
      ensures asked == old(asked) + [Want(n, Exclusive)]
      ensures outcome != TimedOut <==> Compatible(At(old(manager.view), n), old(Me()), Exclusive)
      ensures old(transaction) == null ==> transaction == null && Same(old(manager.view), manager.view)
      ensures old(transaction) != null && outcome == Completed ==>
                transaction == old(transaction) && AskedOf(old(manager.view), manager.view, Me(), Exclusive, [n])
      ensures old(transaction) != null && outcome != Completed ==>
                transaction == null && Left(old(manager.view), manager.view, Some(old(Me())))
    {
      ghost var before, me := manager.view, Me();
      assert InGoodOrder(before);
      var granted := LockOrAbort(n, Exclusive);
      if !granted {
        LeftStaysAbsent(before, manager.view, old(Enrolled()), autocommitOwner);
        return TimedOut;
      }
      ghost var now := manager.view;
      OneAsked(before, me, Exclusive, n);
      if old(transaction) != null {
        AskingKeepsAbsent(before, now, me, Exclusive, [n], autocommitOwner);
      }
      var fails: bool := *;
      FinishMutation(n, fails);
      outcome := if fails then Failed else Completed;
      if old(transaction) == null {
        StrangerLeavesNoTrace(before, now, manager.view, me, Exclusive, [n]);
      } else if fails {
        LeavingForgets(before, now, manager.view, me, Exclusive, [n]);
        LeftStaysAbsent(before, manager.view, Some(me), autocommitOwner);
      }
    }

    /** The end of a statement that has its lock: a failure ends the transaction. */
    method FinishMutation(n: Name, fails: bool)
      requires Steady() && (transaction != null ==> Absent(manager.view, autocommitOwner))
      modifies `transaction, transaction, manager`view, manager.locks.Values
      ensures Steady() && manager.locks == old(manager.locks) && asked == old(asked)
      ensures old(transaction) == null ==>
                transaction == null && GivenBack(old(manager.view), manager.view, autocommitOwner, [n])
      ensures old(transaction) != null && !fails ==> transaction == old(transaction) && manager.view == old(manager.view)
      ensures old(transaction) != null && fails ==>
                transaction == null && Left(old(manager.view), manager.view, Some(old(Me())))
    {
      assert InGoodOrder(manager.view);
      if fails {
        FailInTransaction();
      }
      ghost var now := manager.view;
      ReleaseAutocommit(n);
      if old(transaction) != null && fails {
        GivingBackNothing(old(manager.view), now, manager.view, Some(old(Me())), autocommitOwner, [n]);
      }
    }

    method Begin(owner: Owner) returns (ok: bool)
      requires Valid() && owner != autocommitOwner && Absent(manager.view, owner)
      modifies `transaction
      ensures Valid() && ok == (old(transaction) == null)
      ensures if ok then transaction != null && fresh(transaction) && Me() == owner else transaction == old(transaction)
    {
      if transaction != null {
        return false;
      }
      transaction := new Transaction(manager, owner);
      return true;
    }

    /** Ends the transaction; only now its locks are given back. */
    method End() returns (ok: bool)
      requires Valid()
      modifies `transaction, transaction, manager`view, manager.locks.Values
      ensures Valid() && ok == (old(transaction) != null) && transaction == null
      ensures Left(old(manager.view), manager.view, old(Enrolled()))
    {
      ok := transaction != null;
      FailInTransaction();
      LeftStaysAbsent(old(manager.view), manager.view, old(Enrolled()), autocommitOwner);
    }
  }

  lemma OneMoreGivenBack(before: LockTable, now: LockTable, owner: Owner, taken: seq<Name>, j: nat)
    requires j < |taken| && GivenBack(before, now, owner, taken[j + 1..])
    ensures GivenBack(before, now[taken[j] := Drop(At(now, taken[j]), owner)], owner, taken[j..])
  {
    assert taken[j..] == [taken[j]] + taken[j + 1..];
    assert forall s :: Drop(Drop(s, owner), owner) == Drop(s, owner);
  }

  lemma AskingKeepsAbsent(before: LockTable, after: LockTable, who: Owner, mode: Mode, tables: seq<Name>, owner: Owner)
    requires InGoodOrder(before) && Absent(before, owner) && who != owner && AskedOf(before, after, who, mode, tables)
    ensures Absent(after, owner)
  {
    forall m
      ensures owner !in At(after, m).owners
    {
      TryGrantsWhatIsCompatible(At(before, m), who, mode);
    }
  }
}
