/** What holds after any run of insertions and removals, under any merge condition. */
module HashRuns {
  import opened Bits
  import opened HashLayout
  import opened HashBuckets
  import opened HashPlacement
  import opened HashTables
  import opened HashLaws
  import opened ExtendibleHash

  datatype Op = Put(h: Hash64) | Drop(h: Hash64)

  ghost function Step(s: Table, op: Op): (u: Table)
    requires Ok(s) && 1 <= s.c
    ensures Ok(u) && u.c == s.c && u.cond == s.cond
  {
    match op
    case Put(h) => InsertedOk(s, h); Inserted(s, h)
    case Drop(h) => RemovedOk(s, h); Removed(s, h)
  }

  ghost function Run(s: Table, ops: seq<Op>): (u: Table)
    requires Ok(s) && 1 <= s.c
    ensures Ok(u) && u.c == s.c && u.cond == s.cond
    decreases |ops|
  {
    if ops == [] then s else Step(Run(s, ops[..|ops| - 1]), ops[|ops| - 1])
  }

  ghost function Start(c: nat, cond: MergeCondition): (s: Table)
    ensures Ok(s) && s.c == c && s.cond == cond && s.contents == multiset{}
  {
    EmptyOk(c, cond);
    Empty(c, cond)
  }

  /** What a run does to a multiset. */
  ghost function Meaning(held: multiset<nat>, ops: seq<Op>): multiset<nat>
    decreases |ops|
  {
    if ops == [] then held
    else
      var before := Meaning(held, ops[..|ops| - 1]);
      match ops[|ops| - 1]
      case Put(h) => before + multiset{h}
      case Drop(h) => before - multiset{h}
  }

  /** The table refines a multiset: insertion adds one occurrence and removal takes one away. */
  lemma {:induction false} RunRefinesMultiset(s: Table, ops: seq<Op>)
    requires Ok(s) && 1 <= s.c
    ensures Run(s, ops).contents == Meaning(s.contents, ops)
    decreases |ops|
  {
    if ops != [] {
      RunRefinesMultiset(s, ops[..|ops| - 1]);
      var before := Run(s, ops[..|ops| - 1]);
      match ops[|ops| - 1]
      case Put(h) => InsertedOk(before, h);
      case Drop(h) => RemovedOk(before, h);
    }
  }

  /** How many removals of a run find two buckets that may merge. */
  ghost function MergingSteps(s: Table, ops: seq<Op>): nat
    requires Ok(s) && 1 <= s.c
    decreases |ops|
  {
    if ops == [] then 0
    else
      var front, last := ops[..|ops| - 1], ops[|ops| - 1];
      MergingSteps(s, front) + if last.Drop? && WillMerge(Run(s, front), last.h) then 1 else 0
  }

  lemma MergesOfStep(s: Table, op: Op)
    requires Ok(s) && 1 <= s.c
    ensures Step(s, op).tally.merges == s.tally.merges + if op.Drop? && WillMerge(s, op.h) then 1 else 0
  {
    match op
    case Put(h) => InsertedOk(s, h);
    case Drop(h) => MergesCounted(s, h);
  }

  /** The merges of a run are its removals that may merge, each counted once. */
  lemma {:induction false} MergesOfRun(s: Table, ops: seq<Op>)
    requires Ok(s) && 1 <= s.c
    ensures Run(s, ops).tally.merges == s.tally.merges + MergingSteps(s, ops)
    decreases |ops|
  {
    if ops != [] {
      MergesOfRun(s, ops[..|ops| - 1]);
      MergesOfStep(Run(s, ops[..|ops| - 1]), ops[|ops| - 1]);
    }
  }

  /** The tables some run leads to, from the empty one. */
  ghost predicate Reachable(s: Table) {
    1 <= s.c && exists ops :: s == Run(Start(s.c, s.cond), ops)
  }

  lemma ReachableIsOk(s: Table)
    requires Reachable(s)
    ensures Ok(s)
  {
  }

  /** The contents are what the buckets list, and every listed hash is in the bucket its own
      directory entry names. */
  lemma ReachableContents(s: Table)
    requires Reachable(s)
    ensures Ok(s) && s.contents == Bag(s.buckets, s.nextId)
    ensures forall b, h | b in s.buckets && h in s.buckets[b] :: Target(s, h) == b
  {
    ReachableIsOk(s);
    ContentsAreTheBuckets(s.shape, s.buckets, s.nextId, s.contents);
    forall b, h | b in s.buckets && h in s.buckets[b]
      ensures Target(s, h) == b
    {
      Routes(s.shape, h, b);
    }
  }

  /** The directory: its length, who shares an entry, and that no smaller one would do. */
  lemma ReachableDirectory(s: Table)
    requires Reachable(s)
    ensures var t := s.shape;
      && |t.dir| == Pow2(t.g) && t.g <= HASH_BITS
      && (forall i | 0 <= i < |t.dir| :: t.dir[i] in t.local && t.local[t.dir[i]] <= t.g)
      && (forall i: nat, j: nat | i < |t.dir| && j < |t.dir| ::
            t.dir[i] == t.dir[j]
            <==> i % Pow2(t.local[t.dir[i]]) == j % Pow2(t.local[t.dir[i]]))
      && (exists b :: b in t.local && t.local[b] == t.g)
  {
    ReachableIsOk(s);
    var t := s.shape;
    forall i: nat, j: nat | i < |t.dir| && j < |t.dir|
      ensures t.dir[i] in t.local
      ensures t.dir[i] == t.dir[j]
         <==> i % Pow2(t.local[t.dir[i]]) == j % Pow2(t.local[t.dir[i]])
    {
      EntriesAgree(t, i, j);
    }
    var deepest :| deepest in t.local && t.local[deepest] == t.g;
  }

  lemma EveryBucketHasItsShare(t: Layout)
    requires Consistent(t)
    ensures forall b | b in t.local :: t.local[b] <= t.g && Refs(t.dir, b) == Pow2(t.g - t.local[b])
  {
    forall b | b in t.local
      ensures t.local[b] <= t.g && Refs(t.dir, b) == Pow2(t.g - t.local[b])
    {
      ReferencesPerBucket(t, b);
    }
  }

  lemma SharesAddUp(s: Table)
    requires Ok(s)
    ensures Consistent(s.shape)
    ensures forall b | b in s.shape.local :: b < s.nextId && s.shape.local[b] <= s.shape.g
    ensures Shares(s.shape.g, s.shape.local, s.nextId) == Pow2(s.shape.g)
  {
    SharesCoverDirectory(s.shape, s.nextId);
  }

  lemma CountersAgree(s: Table)
    requires Ok(s)
    ensures |s.shape.local| == 1 + s.tally.splits - s.tally.merges
    ensures s.shape.g == s.tally.doublings - s.tally.halvings
    ensures s.nextId == 1 + s.tally.splits && s.tally.oscillations == 0
  {
  }

  /** The accounts: how often each bucket is named, how many there are, and what the counters say.
      No bucket number is ever given out twice, and the oscillation counter never moves. */
  lemma ReachableAccounts(s: Table)
    requires Reachable(s)
    ensures s.shape.local.Keys == set i | 0 <= i < |s.shape.dir| :: s.shape.dir[i]
    ensures forall b | b in s.shape.local ::
              b < s.nextId && s.shape.local[b] <= s.shape.g && Refs(s.shape.dir, b) == Pow2(s.shape.g - s.shape.local[b])
    ensures Shares(s.shape.g, s.shape.local, s.nextId) == Pow2(s.shape.g)
    ensures |s.shape.local| == 1 + s.tally.splits - s.tally.merges
    ensures s.shape.g == s.tally.doublings - s.tally.halvings
    ensures s.nextId == 1 + s.tally.splits && s.tally.oscillations == 0
  {
    ReachableIsOk(s);
    SharesAddUp(s);
    EveryBucketIsNamed(s.shape);
    EveryBucketHasItsShare(s.shape);
    CountersAgree(s);
  }

  /** No hash is inserted while it is stored. */
  ghost predicate Fresh(held: multiset<nat>, ops: seq<Op>)
    decreases |ops|
  {
    ops != [] ==>
      && Fresh(held, ops[..|ops| - 1])
      && (ops[|ops| - 1].Put? ==> ops[|ops| - 1].h !in Meaning(held, ops[..|ops| - 1]))
  }

  /** With room for two hashes on a page, different hashes never need an overflow page, and no
      bucket ever holds more than a page, provided that merging respects the page. */
  lemma {:induction false} FreshRunsStayTidy(s: Table, ops: seq<Op>)
    requires Ok(s) && 2 <= s.c && Respectful(s.cond, s.c) && Tidy(s)
    requires Fresh(s.contents, ops)
    ensures Tidy(Run(s, ops))
    decreases |ops|
  {
    if ops != [] {
      FreshRunsStayTidy(s, ops[..|ops| - 1]);
      RunRefinesMultiset(s, ops[..|ops| - 1]);
      var before := Run(s, ops[..|ops| - 1]);
      match ops[|ops| - 1]
      case Put(h) => InsertedOk(before, h);
      case Drop(h) => RemovedOk(before, h);
    }
  }

  /* ---------------------------------------------------------------- the measured conditions */

  datatype Condition = OneEmpty | QuarterPage | HalfPage | ThreeQuartersPage | WholePage

  function ConditionOf(name: Condition): MergeCondition {
    match name
    case OneEmpty => (a, b, c) => a == 0 || b == 0
    case QuarterPage => (a, b, c) => a + b <= c / 4
    case HalfPage => (a, b, c) => a + b <= c / 2
    case ThreeQuartersPage => (a, b, c) => a + b <= (3 * c) / 4
    case WholePage => (a, b, c) => a + b <= c
  }

  /** The conditions as shares of the page, and that none of them overfills it. */
  lemma MeasuredConditionsAreRespectful(name: Condition, c: nat)
    ensures Respectful(ConditionOf(name), c)
    ensures forall a: nat, b: nat ::
              ConditionOf(name)(a, b, c) <==>
              match name
              case OneEmpty => a == 0 || b == 0
              case QuarterPage => 4 * (a + b) <= c
              case HalfPage => 2 * (a + b) <= c
              case ThreeQuartersPage => 4 * (a + b) <= 3 * c
              case WholePage => a + b <= c
  {
  }

  lemma StartedRunsStayTidy(c: nat, cond: MergeCondition, ops: seq<Op>)
    requires 2 <= c && Respectful(cond, c) && Fresh(multiset{}, ops)
    ensures Tidy(Run(Start(c, cond), ops))
  {
    EmptyOk(c, cond);
    FreshRunsStayTidy(Start(c, cond), ops);
  }

  /** Under each of the five measured conditions, a run of different hashes leaves no overflow page
      and no bucket over its page. */
  lemma MeasuredRunsStayTidy(name: Condition, c: nat, ops: seq<Op>, s: Table)
    requires 2 <= c && Fresh(multiset{}, ops) && s == Run(Start(c, ConditionOf(name)), ops)
    ensures forall b | b in s.overflow :: s.overflow[b] == 0
    ensures forall b | b in s.buckets :: |s.buckets[b]| <= c
  {
    MeasuredConditionsAreRespectful(name, c);
    StartedRunsStayTidy(c, ConditionOf(name), ops);
    TidyMeans(s, c);
  }

  lemma TidyMeans(s: Table, c: nat)
    requires Tidy(s) && s.c == c
    ensures forall b | b in s.overflow :: s.overflow[b] == 0
    ensures forall b | b in s.buckets :: |s.buckets[b]| <= c
  {
  }

  /* ---------------------------------------------------------------- the measured scenario */

  datatype Request = Insertion(key: Key) | Deletion(key: Key)

  function KeyOf(r: Request): Key {
    match r
    case Insertion(k) => k
    case Deletion(k) => k
  }

  /** The keys a script leaves alive: insertions of live keys and deletions of dead ones are
      skipped. */
  function Alive(script: seq<Request>): set<Key> {
    if script == [] then {}
    else
      var before := Alive(script[..|script| - 1]);
      match script[|script| - 1]
      case Insertion(k) => before + {k}
      case Deletion(k) => before - {k}
  }

  /** What a script does to the table: requests that are skipped do nothing. */
  function Played(script: seq<Request>, hash: HashFunction): seq<Op> {
    if script == [] then []
    else
      var before := Played(script[..|script| - 1], hash);
      match script[|script| - 1]
      case Insertion(k) => if k in Alive(script[..|script| - 1]) then before else before + [Put(hash(k))]
      case Deletion(k) => if k in Alive(script[..|script| - 1]) then before + [Drop(hash(k))] else before
  }

  ghost predicate Separates(hash: HashFunction, keys: set<Key>) {
    forall k, l | k in keys && l in keys && hash(k) == hash(l) :: k == l
  }

  /** `contents` counts each hash as often as live keys have it. */
  ghost predicate HoldsHashes(contents: multiset<nat>, live: set<Key>, hash: HashFunction) {
    forall h: nat :: contents[h] == |KeysWith(live, hash, h)|
  }

  ghost function KeysWith(live: set<Key>, hash: HashFunction, h: nat): set<Key> {
    set k | k in live && hash(k) == h
  }

  lemma HoldsOneMore(contents: multiset<nat>, live: set<Key>, hash: HashFunction, key: Key)
    requires HoldsHashes(contents, live, hash) && key !in live
    ensures HoldsHashes(contents + multiset{hash(key)}, live + {key}, hash)
    ensures Separates(hash, live + {key}) ==> hash(key) !in contents
  {
    forall h: nat
      ensures (contents + multiset{hash(key)})[h] == |KeysWith(live + {key}, hash, h)|
    {
      var before, after := KeysWith(live, hash, h), KeysWith(live + {key}, hash, h);
      assert after == if hash(key) == h then before + {key} else before;
    }
    if Separates(hash, live + {key}) {
      assert KeysWith(live, hash, hash(key)) == {};
    }
  }

  lemma HoldsOneLess(contents: multiset<nat>, live: set<Key>, hash: HashFunction, key: Key)
    requires HoldsHashes(contents, live, hash) && key in live
    ensures HoldsHashes(contents - multiset{hash(key)}, live - {key}, hash)
  {
    forall h: nat
      ensures (contents - multiset{hash(key)})[h] == |KeysWith(live - {key}, hash, h)|
    {
      var before, after := KeysWith(live, hash, h), KeysWith(live - {key}, hash, h);
      assert after == before - {key};
      assert hash(key) == h ==> key in before;
    }
  }

  /** The table is what these operations lead to from an empty one. */
  ghost predicate After(s: Table, ops: seq<Op>) {
    1 <= s.c && s == Run(Start(s.c, s.cond), ops)
  }

  lemma AfterOneMore(s: Table, ops: seq<Op>, op: Op)
    requires After(s, ops)
    ensures Ok(s) && After(Step(s, op), ops + [op])
  {
    assert (ops + [op])[..|ops|] == ops;
  }

  /** The loop invariant of a scenario. */
  ghost predicate InStep(s: Table, name: Condition, live: set<Key>, hash: HashFunction, all: set<Key>) {
    && Ok(s) && 1 <= s.c && s.cond == ConditionOf(name)
    && HoldsHashes(s.contents, live, hash)
    && live <= all
    && (2 <= s.c && Separates(hash, all) ==> Tidy(s))
  }

  lemma InsertionStaysInStep(s: Table, name: Condition, live: set<Key>, hash: HashFunction, all: set<Key>, key: Key)
    requires InStep(s, name, live, hash, all) && key in all && key !in live
    ensures InStep(Inserted(s, hash(key)), name, live + {key}, hash, all)
  {
    InsertedOk(s, hash(key));
    HoldsOneMore(s.contents, live, hash, key);
  }

  lemma RemovalStaysInStep(s: Table, name: Condition, live: set<Key>, hash: HashFunction, all: set<Key>, key: Key)
    requires InStep(s, name, live, hash, all) && key in all && key in live
    ensures InStep(Removed(s, hash(key)), name, live - {key}, hash, all)
  {
    MeasuredConditionsAreRespectful(name, s.c);
    RemovedOk(s, hash(key));
    HoldsOneLess(s.contents, live, hash, key);
  }

  lemma StartsInStep(c: nat, name: Condition, hash: HashFunction, all: set<Key>)
    requires 1 <= c
    ensures InStep(Empty(c, ConditionOf(name)), name, {}, hash, all)
  {
    EmptyOk(c, ConditionOf(name));
    assert forall h: nat :: KeysWith({}, hash, h) == {};
  }

  method InsertKey(table: HashTable, live: set<Key>, key: Key, ghost name: Condition, ghost all: set<Key>, ghost ops: seq<Op>)
    requires InStep(table.State(), name, live, table.h64, all) && key in all && key !in live
    requires After(table.State(), ops)
    modifies table
    ensures After(table.State(), ops + [Put(table.h64(key))])
    ensures InStep(table.State(), name, live + {key}, table.h64, all)
  {
    InsertionStaysInStep(table.State(), name, live, table.h64, all, key);
    AfterOneMore(table.State(), ops, Put(table.h64(key)));
    table.Insert(key);
  }

  method RemoveKey(table: HashTable, live: set<Key>, key: Key, ghost name: Condition, ghost all: set<Key>, ghost ops: seq<Op>)
    requires InStep(table.State(), name, live, table.h64, all) && key in all && key in live
    requires After(table.State(), ops)
    modifies table
    ensures After(table.State(), ops + [Drop(table.h64(key))])
    ensures InStep(table.State(), name, live - {key}, table.h64, all)
  {
    RemovalStaysInStep(table.State(), name, live, table.h64, all, key);
    AfterOneMore(table.State(), ops, Drop(table.h64(key)));
    var _ := table.Remove(key);
  }

  lemma OneMoreRequest(script: seq<Request>, r: Request, hash: HashFunction)
    ensures Alive(script + [r]) == if r.Insertion? then Alive(script) + {r.key} else Alive(script) - {r.key}
    ensures (r.Insertion? <==> r.key in Alive(script)) ==> Played(script + [r], hash) == Played(script, hash)
    ensures r.Insertion? && r.key !in Alive(script) ==> Played(script + [r], hash) == Played(script, hash) + [Put(hash(r.key))]
    ensures r.Deletion? && r.key in Alive(script) ==> Played(script + [r], hash) == Played(script, hash) + [Drop(hash(r.key))]
  {
    assert (script + [r])[..|script|] == script;
  }

  method Apply(table: HashTable, live: set<Key>, r: Request, ghost name: Condition, ghost all: set<Key>, ghost script: seq<Request>)
    returns (after: set<Key>)
    requires InStep(table.State(), name, live, table.h64, all) && KeyOf(r) in all
    requires live == Alive(script) && After(table.State(), Played(script, table.h64))
    modifies table
    ensures InStep(table.State(), name, after, table.h64, all)
    ensures after == Alive(script + [r]) && After(table.State(), Played(script + [r], table.h64))
  {
    after := live;
    OneMoreRequest(script, r, table.h64);
    match r
    case Insertion(k) =>
      if k !in live {
        InsertKey(table, live, k, name, all, Played(script, table.h64));
        after := live + {k};
      }
    case Deletion(k) =>
      if k in live {
        RemoveKey(table, live, k, name, all, Played(script, table.h64));
        after := live - {k};
      }
  }

  method CountBuckets(table: HashTable) returns (count: nat)
    requires table.Valid()
    ensures count == 1 + table.splits - table.merges
    ensures table.oscillations == 0
  {
    EveryBucketIsNamed(table.Shape());
    var named := set i | 0 <= i < |table.dir| :: table.dir[i];
    count := |named|;
    assert named == table.Shape().local.Keys;
    assert |table.Shape().local| == |table.Shape().local.Keys|;
  }

  /** Runs a script against a table, request by request. */
  method Replay(table: HashTable, script: seq<Request>, ghost name: Condition, ghost all: set<Key>)
    returns (live: set<Key>)
    requires InStep(table.State(), name, {}, table.h64, all) && forall r | r in script :: KeyOf(r) in all
    requires After(table.State(), [])
    modifies table
    ensures InStep(table.State(), name, live, table.h64, all)
    ensures live == Alive(script) && After(table.State(), Played(script, table.h64))
  {
    live := {};
    for n := 0 to |script|
      invariant InStep(table.State(), name, live, table.h64, all)
      invariant live == Alive(script[..n]) && After(table.State(), Played(script[..n], table.h64))
    {
      assert script[..n] + [script[n]] == script[..n + 1];
      live := Apply(table, live, script[n], name, all, script[..n]);
    }
    assert script[..|script|] == script;
  }

  lemma StartsAfterNothing(c: nat, cond: MergeCondition)
    requires 1 <= c
    ensures After(Empty(c, cond), [])
  {
  }

  lemma MergesAfter(s: Table, ops: seq<Op>)
    requires After(s, ops)
    ensures s.tally.merges == MergingSteps(Start(s.c, s.cond), ops)
  {
    MergesOfRun(Start(s.c, s.cond), ops);
  }

  /** Runs a script against a new table, as the measurement does, and counts its buckets. */
  method Scenario(capacity: nat, name: Condition, hash: HashFunction, script: seq<Request>)
    returns (table: HashTable, live: set<Key>, count: nat)
    requires 1 <= capacity
    ensures table.Valid() && table.h64 == hash
    ensures table.State() == Run(Start(capacity, ConditionOf(name)), Played(script, hash))
    ensures table.merges == MergingSteps(Start(capacity, ConditionOf(name)), Played(script, hash))
    ensures live == Alive(script) && HoldsHashes(table.contents, live, hash)
    ensures count == 1 + table.splits - table.merges && table.oscillations == 0
    ensures 2 <= capacity && Separates(hash, set r | r in script :: KeyOf(r)) ==> Tidy(table.State())
  {
    ghost var all := set r | r in script :: KeyOf(r);
    table := new HashTable(capacity, ConditionOf(name), hash);
    StartsInStep(capacity, name, hash, all);
    StartsAfterNothing(capacity, ConditionOf(name));
    live := Replay(table, script, name, all);
    MergesAfter(table.State(), Played(script, hash));
    count := CountBuckets(table);
  }
}
