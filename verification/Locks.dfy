/** Table locks: shared or exclusive, by owner, reentrant, with upgrade from shared to exclusive. */
module Locks {
  import opened Wrappers

  type Owner = nat
  type Name = string

  datatype Mode = Shared | Exclusive

  /** One request for a lock. */
  datatype Want = Want(table: Name, mode: Mode)

  /** What one lock remembers. */
  datatype LockState = LockState(mode: Option<Mode>, owners: set<Owner>)

  const FREE := LockState(None, {})

  ghost predicate WellFormed(s: LockState) {
    && (s.mode == None <==> s.owners == {})
    && (s.mode == Some(Exclusive) ==> |s.owners| == 1)
  }

  /** One attempt to take the lock, and whether it succeeds. */
  function Try(s: LockState, owner: Owner, mode: Mode): (LockState, bool) {
    if owner in s.owners then
      if mode == Shared || s.mode == Some(Exclusive) then (s, true)
      else if |s.owners| == 1 then (s.(mode := Some(Exclusive)), true)
      else (s, false)
    else if s.mode == None then (LockState(Some(mode), s.owners + {owner}), true)
    else if s.mode == Some(Shared) && mode == Shared then (s.(owners := s.owners + {owner}), true)
    else (s, false)
  }

  function Drop(s: LockState, owner: Owner): LockState {
    var left := s.owners - {owner};
    if left == {} then LockState(None, {}) else s.(owners := left)
  }

  /** No other owner stands in the way. */
  predicate Compatible(s: LockState, owner: Owner, mode: Mode) {
    s.owners <= {owner} || (mode == Shared && s.mode == Some(Shared))
  }

  lemma OnlyOwner(owners: set<Owner>, owner: Owner)
    requires owner in owners
    ensures |owners| == 1 <==> owners == {owner}
  {
    if |owners| == 1 {
      assert |owners - {owner}| == 0;
    }
  }

  /** A request is granted exactly when no other owner stands in the way. Granted, its owner holds
      the lock in that mode or a stronger one, and everybody else what they held before; refused, it
      changes nothing. */
  lemma TryGrantsWhatIsCompatible(s: LockState, owner: Owner, mode: Mode)
    requires WellFormed(s)
    ensures var (after, granted) := Try(s, owner, mode);
      && WellFormed(after)
      && (granted <==> Compatible(s, owner, mode))
      && (granted ==> after.owners == s.owners + {owner})
      && (granted ==> after.mode == Some(mode) || (owner in s.owners && after.mode == Some(Exclusive)))
      && (!granted ==> after == s)
  {
    match s.mode
    case None =>
    case Some(current) =>
      var holder :| holder in s.owners;
      assert (current == Shared || current == Exclusive) && (mode == Shared || mode == Exclusive);
      OnlyOwner(s.owners, holder);
      if owner in s.owners {
        OnlyOwner(s.owners, owner);
        assert s.owners + {owner} == s.owners;
      }
  }

  /** Releasing takes away one owner and nobody else; for a stranger it does nothing. */
  lemma DropTakesOne(s: LockState, owner: Owner)
    requires WellFormed(s)
    ensures WellFormed(Drop(s, owner)) && Drop(s, owner).owners == s.owners - {owner}
    ensures owner !in s.owners ==> Drop(s, owner) == s
    ensures Drop(s, owner).owners != {} ==> Drop(s, owner).mode == s.mode
  {
  }

  /** After a release it does not matter what the owner asked for before: in particular, a lock
      taken by a newcomer and released is as it was. */
  lemma DropForgetsTry(s: LockState, owner: Owner, mode: Mode)
    requires WellFormed(s)
    ensures Drop(Try(s, owner, mode).0, owner) == Drop(s, owner)
    ensures owner !in s.owners ==> Drop(Try(s, owner, mode).0, owner) == s
  {
    TryGrantsWhatIsCompatible(s, owner, mode);
    DropTakesOne(s, owner);
    DropTakesOne(Try(s, owner, mode).0, owner);
    if owner in s.owners {
      OnlyOwner(s.owners, owner);
    }
    assert s.owners + {owner} - {owner} == s.owners - {owner};
  }

  class TableLock {
    var mode: Option<Mode>
    var owners: set<Owner>

    function State(): LockState
      reads this
    {
      LockState(mode, owners)
    }

    constructor ()
      ensures State() == FREE
    {
      mode, owners := None, {};
    }

    method TryAcquire(owner: Owner, wanted: Mode) returns (granted: bool)
      modifies this
      ensures (State(), granted) == Try(old(State()), owner, wanted)
    {
      if owner in owners {
        if wanted == Shared || mode == Some(Exclusive) {
          return true;
        }
        if |owners| == 1 {
          mode := Some(Exclusive);
          return true;
        }
        return false;
      }
      if mode == None {
        owners := owners + {owner};
        mode := Some(wanted);
        return true;
      }
      if mode == Some(Shared) && wanted == Shared {
        owners := owners + {owner};
        return true;
      }
      return false;
    }

    method Release(owner: Owner)
      modifies this
      ensures State() == Drop(old(State()), owner)
    {
      owners := owners - {owner};
      if owners == {} {
        mode := None;
      }
    }
  }

  /** The locks of some tables; a table nobody asked for is free. */
  type LockTable = map<Name, LockState>

  function At(locks: LockTable, n: Name): LockState {
    if n in locks then locks[n] else FREE
  }

  /** One lock a table, made when it is first asked for. */
  class LockManager {
    var locks: map<Name, TableLock>
    /** What the locks remember. */
    ghost var view: LockTable

    /** Every table has a lock of its own, in good order. */
    ghost predicate Valid()
      reads this, locks.Values
    {
      && (forall n, m | n in locks && m in locks && n != m :: locks[n] != locks[m])
      && (forall n | n in locks :: locks[n].State() == At(view, n))
      && (forall n | n !in locks :: At(view, n) == FREE)
      && (forall n :: WellFormed(At(view, n)))
    }

    constructor ()
      ensures Valid() && fresh(this) && locks == map[] && view == map[]
    {
      locks, view := map[], map[];
    }

    method LockFor(n: Name) returns (lock: TableLock)
      requires Valid()
      modifies `locks
      ensures Valid() && n in locks && locks[n] == lock
      ensures fresh(locks.Values - old(locks.Values))
    {
      if n !in locks {
        var made := new TableLock();
        locks := locks[n := made];
      }
      lock := locks[n];
    }

    /** Waits for the lock until it is granted or the time is over; here nobody else moves, so one
        attempt tells. */
    method Acquire(n: Name, owner: Owner, mode: Mode) returns (granted: bool)
      requires Valid()
      modifies this, locks.Values
      ensures Valid() && fresh(locks.Values - old(locks.Values))
      ensures granted == Compatible(At(old(view), n), owner, mode)
      ensures view == old(view)[n := Try(At(old(view), n), owner, mode).0]
    {
      var lock := LockFor(n);
      TryGrantsWhatIsCompatible(At(view, n), owner, mode);
      view := view[n := Try(At(view, n), owner, mode).0];
      granted := lock.TryAcquire(owner, mode);
    }

    method Release(n: Name, owner: Owner)
      requires Valid()
      modifies `view, locks.Values
      ensures Valid() && locks == old(locks)
      ensures view == old(view)[n := Drop(At(old(view), n), owner)]
    {
      DropTakesOne(At(view, n), owner);
      view := view[n := Drop(At(view, n), owner)];
      if n in locks {
        locks[n].Release(owner);
      }
    }
  }
}
