/** The extendible hash table whose merge conditions the repository measures: a directory of
    `2^g` entries, buckets with their own depth, splits, sibling merges, and overflow pages for
    buckets that no further bit would separate. Every method is proved equal to the function of
    the same operation in `HashTables`. */
module ExtendibleHash {
  import opened Bits
  import opened HashLayout
  import opened HashBuckets
  import opened HashPlacement
  import opened HashTables
  import opened HashGrowth
  import opened HashLaws

  /** Keys are packed into four bytes before hashing. */
  type Key = k: nat | k < 0x1_0000_0000
  type HashFunction = Key -> Hash64

  class HashTable {
    const c: nat
    const cond: MergeCondition
    const h64: HashFunction
    var g: nat
    var dir: seq<nat>
    var buckets: map<nat, seq<nat>>
    var local: map<nat, nat>
    var nextId: nat
    var overflow: map<nat, nat>
    var splits: nat
    var merges: nat
    var doublings: nat
    var halvings: nat
    var oscillations: nat
    var lastSplit: LastSplit
    /** The bits every entry of a bucket shares. */
    ghost var home: map<nat, nat>
    /** The hashes stored, with repetitions. */
    ghost var contents: multiset<nat>

    ghost function Shape(): Layout
      reads this
    {
      Layout(g, dir, local, home)
    }

    ghost function State(): Table
      reads this
    {
      Table(c, cond, Shape(), buckets, overflow, nextId,
            Tally(splits, merges, doublings, halvings, oscillations), lastSplit, contents)
    }

    ghost predicate Valid()
      reads this
    {
      Ok(State())
    }

    constructor (capacity: nat, condition: MergeCondition, hash: HashFunction)
      ensures h64 == hash
      ensures State() == Empty(capacity, condition) && Valid() && Tidy(State())
    {
      c, cond, h64 := capacity, condition, hash;
      g, dir, buckets, local, nextId := 0, [0], map[0 := []], map[0 := 0], 1;
      overflow := map[0 := 0];
      splits, merges, doublings, halvings, oscillations := 0, 0, 0, 0, 0;
      lastSplit := NoSplit;
      home, contents := map[0 := 0], multiset{};
      new;
      EmptyOk(capacity, condition);
    }

    function Idx(h: nat): nat
      reads this
    {
      Low(h, g)
    }

    predicate HasRoom(b: nat)
      requires b in buckets && b in overflow
      reads this
    {
      |buckets[b]| < Capacity(c, overflow[b])
    }

    /** Terminates for every capacity of at least one entry, repeated hashes included: the bucket
        that serves the hash either distinguishes one more of the 64 bits, or misses less room. */
    method Insert(key: Key)
      requires Valid() && 1 <= c
      modifies this
      ensures Valid() && State() == Inserted(old(State()), h64(key))
      ensures InsertedRightly(old(State()), State(), h64(key))
    {
      var h := h64(key);
      InsertedExactly(State(), h);
      InsertedOk(State(), h);
      while true
        invariant Valid() && Inserted(State(), h) == Inserted(old(State()), h)
        decreases HASH_BITS - State().shape.local[Target(State(), h)], Missing(State(), Target(State(), h))
      {
        ghost var target := Target(State(), h);
        var b := dir[Idx(h)];
        if HasRoom(b) {
          InsertEnd(State(), h);
          Append(b, h);
          return;
        }
        InsertTurn(State(), h);
        Grow(Idx(h), b);
      }
    }

    method Append(b: nat, h: nat)
      requires b in buckets
      modifies `buckets, `contents
      ensures State() == Appended(old(State()), b, h)
    {
      buckets := buckets[b := buckets[b] + [h]];
      contents := contents + multiset{h};
    }

    /** Make room in the full bucket `b`, which directory entry `i` names. */
    method Grow(i: nat, b: nat)
      requires CanGrow(State(), i, b)
      modifies `g, `dir, `doublings, `nextId, `local, `home, `overflow, `buckets
      modifies `splits, `oscillations, `lastSplit
      ensures State() == MadeRoom(old(State()), b)
    {
      OneHighMeansOneHash(buckets[b], local[b], home[b]);
      var k := local[b];
      var highs := set e | e in buckets[b] :: High(e, k);
      assert highs == Highs(buckets[b], k);
      if |highs| == 1 {
        AddPage(b);
      } else {
        SplitBucket(i, b);
      }
    }

    method AddPage(b: nat)
      requires b in overflow
      modifies `overflow
      ensures State() == PageAdded(old(State()), b)
    {
      overflow := overflow[b := overflow[b] + 1];
    }

    method SplitBucket(i: nat, b: nat)
      requires CanGrow(State(), i, b)
      modifies `g, `dir, `doublings, `nextId, `local, `home, `overflow, `buckets
      modifies `splits, `oscillations, `lastSplit
      ensures State() == SplitAt(old(State()), b)
    {
      Split(i, b);
    }

    method Split(i: nat, b: nat)
      requires b in local && b in home && b in buckets && b != nextId
      requires Low(i, local[b]) == home[b]
      modifies `g, `dir, `doublings, `nextId, `local, `home, `overflow, `buckets
      modifies `splits, `oscillations, `lastSplit
      ensures g == old(if local[b] == g then g + 1 else g)
      ensures doublings == old(if local[b] == g then doublings + 1 else doublings)
      ensures dir == old(Redirected(if local[b] == g then dir + dir else dir, local[b], home[b], b, nextId))
      ensures local == old(local[b := local[b] + 1][nextId := local[b] + 1]) && nextId == old(nextId) + 1
      ensures home == old(home[nextId := home[b] + Pow2(local[b])]) && overflow == old(overflow[b := 0][nextId := 0])
      ensures buckets == old(Divided(buckets, b, nextId, local[b]))
      ensures splits == old(splits) + 1 && lastSplit == SplitOf(b, old(local[b]))
      ensures oscillations == old(if lastSplit == SplitOf(b, local[b]) then oscillations + 1 else oscillations)
    {
      var k := local[b];
      if k == g {
        DoubleDirectory();
      }
      var born := AddBucket(b, k);
      RedirectEntries(Low(i, k), k, b, born);
      Distribute(k, b, born);
      CountSplit(b, k);
    }

    method DoubleDirectory()
      modifies `g, `dir, `doublings
      ensures g == old(g) + 1 && dir == old(dir + dir) && doublings == old(doublings) + 1
    {
      dir := dir + dir;
      g := g + 1;
      doublings := doublings + 1;
    }

    method AddBucket(b: nat, k: nat) returns (born: nat)
      requires b in home
      modifies `nextId, `local, `home, `overflow
      ensures born == old(nextId) && nextId == born + 1
      ensures local == old(local)[b := k + 1][born := k + 1]
      ensures home == old(home)[born := old(home[b]) + Pow2(k)]
      ensures overflow == old(overflow)[b := 0][born := 0]
    {
      born := nextId;
      nextId := nextId + 1;
      local := local[b := k + 1][born := k + 1];
      home := home[born := home[b] + Pow2(k)];
      overflow := overflow[b := 0][born := 0];
    }

    method RedirectEntries(low: nat, k: nat, b: nat, born: nat)
      modifies `dir
      ensures dir == Redirected(old(dir), k, low, b, born)
    {
      for j := 0 to |dir|
        invariant |dir| == |old(dir)|
        invariant forall m | 0 <= m < j :: dir[m] == Redirect(old(dir)[m], m, k, low, b, born)
        invariant forall m | j <= m < |dir| :: dir[m] == old(dir)[m]
      {
        if Low(j, k) == low {
          dir := dir[j := if Bit(j, k) == 1 then born else b];
        }
      }
    }

    method Distribute(k: nat, b: nat, born: nat)
      requires b != born && b in buckets
      modifies `buckets
      ensures buckets == Divided(old(buckets), b, born, k)
    {
      var entries := buckets[b];
      buckets := buckets[b := []][born := []];
      for n := 0 to |entries|
        invariant buckets == old(buckets)[b := Part(entries[..n], k, 0)][born := Part(entries[..n], k, 1)]
      {
        var e := entries[n];
        var target := if Bit(e, k) == 1 then born else b;
        assert entries[..n + 1][..n] == entries[..n];
        buckets := buckets[target := buckets[target] + [e]];
      }
      assert entries[..|entries|] == entries;
    }

    method CountSplit(b: nat, k: nat)
      modifies `splits, `oscillations, `lastSplit
      ensures splits == old(splits) + 1 && lastSplit == SplitOf(b, k)
      ensures oscillations == old(oscillations) + (if old(lastSplit) == SplitOf(b, k) then 1 else 0)
    {
      splits := splits + 1;
      if lastSplit == SplitOf(b, k) {
        oscillations := oscillations + 1;
      }
      lastSplit := SplitOf(b, k);
    }

    /** Removes one occurrence of the key's hash; says whether there was one. */
    method Remove(key: Key) returns (found: bool)
      requires Valid()
      modifies this
      ensures Valid() && State() == Removed(old(State()), h64(key))
      ensures found <==> h64(key) in old(contents)
      ensures RemovedRightly(old(State()), State(), h64(key))
      ensures merges == old(merges) + (if WillMerge(old(State()), h64(key)) then 1 else 0)
    {
      var h := h64(key);
      RemovedExactly(State(), h);
      MergesCounted(State(), h);
      ghost var target := Target(State(), h);
      RemoveFacts(State(), h);
      var b := dir[Idx(h)];
      found := h in buckets[b];
      if found {
        Take(b, h);
        Fuse(Idx(h), b);
      }
    }

    method Take(b: nat, h: nat)
      requires b in buckets && h in buckets[b]
      modifies `buckets, `contents
      ensures State() == Taken(old(State()), b, h)
    {
      buckets := buckets[b := RemoveFirst(buckets[b], h)];
      contents := contents - multiset{h};
    }

    /** Lets bucket `b`, named by entry `i`, take over its sibling if the merge condition allows.
        The entry that differs in one bit always exists and names another bucket. */
    method Fuse(i: nat, b: nat)
      requires Valid() && i < |dir| && b == dir[i] && b in local
      modifies `g, `dir, `buckets, `local, `home, `overflow, `merges, `halvings, `lastSplit
      ensures State() == Fused(old(State()), i, b)
    {
      if local[b] == 0 {
        return;
      }
      FuseFacts(State(), i, b);
      var other := dir[Flip(i, local[b] - 1)];
      if && local[other] == local[b]
         && overflow[b] == 0 && overflow[other] == 0
         && cond(|buckets[b]|, |buckets[other]|, c)
      {
        MergeWith(b, other);
      }
    }

    method MergeWith(b: nat, other: nat)
      requires Valid() && Siblings(Shape(), b, other) && CanTakeOver(State(), b, other)
      modifies `g, `dir, `buckets, `local, `home, `overflow, `merges, `halvings, `lastSplit
      ensures State() == Merged(old(State()), b, other)
    {
      MergeConsistent(Shape(), b, other);
      TakeOver(b, other);
      TightenDirectory();
    }

    method TightenDirectory()
      requires Consistent(Shape())
      modifies `g, `dir, `halvings
      ensures State() == Tightened(old(State()))
    {
      ShrinkDirectory();
    }

    method TakeOver(b: nat, other: nat)
      requires CanTakeOver(State(), b, other)
      modifies `dir, `buckets, `local, `home, `overflow, `merges, `lastSplit
      ensures State() == TakenOver(old(State()), b, other)
    {
      MoveEntries(b, other);
      merges := merges + 1;
      lastSplit := NoSplit;
    }

    method MoveEntries(b: nat, other: nat)
      requires b in local && b in home && b in buckets && other in buckets && 0 < local[b]
      modifies `dir, `buckets, `local, `home, `overflow
      ensures dir == old(Renamed(dir, other, b)) && local == old(local[b := local[b] - 1] - {other})
      ensures home == old(home[b := Low(home[b], local[b] - 1)] - {other})
      ensures buckets == old(Joined(buckets, b, other)) && overflow == old(overflow) - {other}
    {
      buckets := buckets[b := buckets[b] + buckets[other]];
      local := local[b := local[b] - 1];
      home := home[b := Low(home[b], local[b])];
      RenameEntries(other, b);
      Forget(other);
    }

    method Forget(b: nat)
      modifies `buckets, `local, `home, `overflow
      ensures buckets == old(buckets) - {b} && local == old(local) - {b}
      ensures home == old(home) - {b} && overflow == old(overflow) - {b}
    {
      buckets, local, overflow, home := buckets - {b}, local - {b}, overflow - {b}, home - {b};
    }

    method RenameEntries(from: nat, to: nat)
      modifies `dir
      ensures dir == Renamed(old(dir), from, to)
    {
      for j := 0 to |dir|
        invariant |dir| == |old(dir)|
        invariant forall m | 0 <= m < j :: dir[m] == if old(dir)[m] == from then to else old(dir)[m]
        invariant forall m | j <= m < |dir| :: dir[m] == old(dir)[m]
      {
        if dir[j] == from {
          dir := dir[j := to];
        }
      }
    }

    /** Halves the directory while no bucket distinguishes as many bits as it has. */
    method ShrinkDirectory()
      requires Consistent(Shape())
      modifies `g, `dir, `halvings
      ensures Shape() == Shrunk(old(Shape()))
      ensures halvings == old(halvings) + (old(g) - g)
    {
      while 0 < g && forall x | x in dir :: local[x] < g
        invariant Consistent(Shape()) && Shrunk(Shape()) == Shrunk(old(Shape()))
        invariant g <= old(g) && halvings == old(halvings) + (old(g) - g)
        decreases g
      {
        ShrinkTurn(Shape());
        HalveDirectory();
      }
    }

    method HalveDirectory()
      requires 0 < g && |dir| == Pow2(g)
      modifies `g, `dir, `halvings
      ensures Shape() == Halved(old(Shape())) && halvings == old(halvings) + 1
    {
      dir := dir[..|dir| / 2];
      g := g - 1;
      halvings := halvings + 1;
    }
  }
}
