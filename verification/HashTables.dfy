/** The state of an extendible hash table as a value, and its operations as functions on it: what
    `ExtendibleHash.HashTable` does to its fields, step by step, is proved equal to these. */
module HashTables {
  import opened Bits
  import opened Collections
  import opened HashLayout
  import opened HashBuckets
  import opened HashPlacement

  type Hash64 = h: nat | h < HASH_LIMIT

  /** `cond(a, b, c)`: may two siblings holding `a` and `b` entries merge when pages hold `c`? */
  type MergeCondition = (nat, nat, nat) -> bool

  datatype LastSplit = NoSplit | SplitOf(bucket: nat, depth: nat)

  datatype Tally = Tally(splits: nat, merges: nat, doublings: nat, halvings: nat, oscillations: nat)

  datatype Table = Table(
    c: nat,
    cond: MergeCondition,
    shape: Layout,
    buckets: map<nat, seq<nat>>,
    overflow: map<nat, nat>,
    nextId: nat,
    tally: Tally,
    lastSplit: LastSplit,
    contents: multiset<nat>)

  /** Every bucket ever made was made by a split, and every one that is gone by a merge; the
      directory has as many bits as it was doubled more often than halved. */
  ghost predicate Tallied(t: Layout, nextId: nat, tally: Tally) {
    && nextId == 1 + tally.splits
    && |t.local| + tally.merges == 1 + tally.splits
    && t.g + tally.halvings == tally.doublings
    && tally.oscillations == 0
  }

  /** The last split, if no merge followed it, is still visible in the depth of its bucket. */
  ghost predicate Remembered(t: Layout, last: LastSplit) {
    last.SplitOf? ==> last.bucket in t.local && t.local[last.bucket] == last.depth + 1
  }

  ghost predicate Ok(s: Table) {
    match s
    case Table(_, _, t, buckets, overflow, nextId, tally, last, contents) =>
      && Sound(t, buckets, nextId)
      && Tracks(t, buckets, contents)
      && overflow.Keys == t.local.Keys
      && Tallied(t, nextId, tally)
      && Remembered(t, last)
  }

  /** The basic facts about a bucket of a table that is in order. */
  lemma BucketFacts(s: Table, b: nat)
    requires Ok(s) && b in s.shape.local
    ensures b in s.buckets && b in s.overflow && b in s.shape.home && b < s.nextId
    ensures s.shape.local[b] <= s.shape.g && s.shape.local[b] <= HASH_BITS
    ensures s.nextId !in s.shape.local && Consistent(s.shape)
  {
  }

  ghost function Empty(c: nat, cond: MergeCondition): Table {
    Table(c, cond, Layout(0, [0], map[0 := 0], map[0 := 0]), map[0 := []], map[0 := 0], 1,
          Tally(0, 0, 0, 0, 0), NoSplit, multiset{})
  }

  lemma EmptyOk(c: nat, cond: MergeCondition)
    ensures Ok(Empty(c, cond)) && Tidy(Empty(c, cond))
  {
    var t := Empty(c, cond).shape;
    assert Low(0, 0) == 0;
    assert 0 in t.local && t.local[0] == t.g;
    assert t.local.Keys == {0};
    assert |t.local| == |t.local.Keys|;
  }

  /** The bucket that serves hash `h`. */
  ghost function Target(s: Table, h: nat): (b: nat)
    requires Ok(s)
    ensures Low(h, s.shape.g) < |s.shape.dir| && b == s.shape.dir[Low(h, s.shape.g)]
    ensures b in s.shape.local && b in s.shape.home && b in s.buckets && b in s.overflow
    ensures Low(h, s.shape.local[b]) == s.shape.home[b]
  {
    Routes(s.shape, h, s.shape.dir[0]);
    var b := s.shape.dir[Low(h, s.shape.g)];
    Routes(s.shape, h, b);
    b
  }

  /** A hash is stored exactly when the bucket its own directory entry names lists it. */
  lemma StoredWhereItPoints(s: Table, h: nat)
    requires Ok(s)
    ensures h in s.contents <==> h in s.buckets[Target(s, h)]
    ensures s.contents[h] == multiset(s.buckets[Target(s, h)])[h]
  {
  }

  /* ---------------------------------------------------------------- capacity */

  /** The entries a primary page and `extra` overflow pages take together. */
  function Capacity(c: nat, extra: nat): nat {
    c * (1 + extra)
  }

  lemma CapacityFacts(c: nat, extra: nat)
    ensures Capacity(c, 0) == c
    ensures Capacity(c, extra + 1) == Capacity(c, extra) + c
    ensures c <= Capacity(c, extra)
  {
  }

  ghost predicate Fits(s: Table, b: nat)
    requires b in s.buckets && b in s.overflow
  {
    |s.buckets[b]| < Capacity(s.c, s.overflow[b])
  }

  /** Pages must hold an entry for insertion to end: with pages that hold none no bucket of any table
      has room, and no step of an insertion changes the size of pages. */
  lemma RoomNeedsCapacity(c: nat)
    ensures c == 0 <==> forall s: Table, b | s.c == c && b in s.buckets && b in s.overflow :: !Fits(s, b)
    ensures forall s: Table, b | b in s.overflow :: PageAdded(s, b).c == s.c
    ensures forall s: Table, b | b in s.shape.local && b in s.shape.home && b in s.buckets :: SplitAt(s, b).c == s.c
  {
    var empty := Empty(c, (_, _, _) => false);
    assert 0 in empty.buckets && 0 in empty.overflow && Capacity(c, 0) == c;
    if c != 0 {
      assert Fits(empty, 0);
    }
    forall s: Table, b | c == 0 && s.c == c && b in s.buckets && b in s.overflow
      ensures !Fits(s, b)
    {
      assert Capacity(0, s.overflow[b]) == 0;
    }
  }

  /** No overflow pages, no bucket over its page, and no hash listed twice. */
  ghost predicate Tidy(s: Table) {
    match s
    case Table(c, _, _, buckets, overflow, _, _, _, _) =>
      && NoRepeats(buckets)
      && (forall b | b in overflow :: overflow[b] == 0)
      && (forall b | b in buckets :: |buckets[b]| <= c)
  }

  /* ---------------------------------------------------------------- inserting */

  ghost function Appended(s: Table, b: nat, h: nat): Table
    requires b in s.buckets
  {
    Table(s.c, s.cond, s.shape, s.buckets[b := s.buckets[b] + [h]], s.overflow, s.nextId,
          s.tally, s.lastSplit, s.contents + multiset{h})
  }

  lemma AppendedOk(s: Table, h: Hash64)
    requires Ok(s)
    ensures Ok(Appended(s, Target(s, h), h))
    ensures Tidy(s) && h !in s.contents && Fits(s, Target(s, h)) ==> Tidy(Appended(s, Target(s, h), h))
  {
    var b := Target(s, h);
    AppendSound(s.shape, s.buckets, s.nextId, b, h);
    AppendTracks(s.shape, s.buckets, s.nextId, b, h, s.contents);
    StoredWhereItPoints(s, h);
    CapacityFacts(s.c, 0);
  }

  ghost function PageAdded(s: Table, b: nat): Table
    requires b in s.overflow
  {
    Table(s.c, s.cond, s.shape, s.buckets, s.overflow[b := s.overflow[b] + 1], s.nextId,
          s.tally, s.lastSplit, s.contents)
  }

  ghost function SplitAt(s: Table, b: nat): Table
    requires b in s.shape.local && b in s.shape.home && b in s.buckets
  {
    var k := s.shape.local[b];
    Table(
      s.c,
      s.cond,
      Grown(s.shape, b, s.nextId),
      Divided(s.buckets, b, s.nextId, k),
      s.overflow[b := 0][s.nextId := 0],
      s.nextId + 1,
      Tally(
        s.tally.splits + 1,
        s.tally.merges,
        s.tally.doublings + (if k == s.shape.g then 1 else 0),
        s.tally.halvings,
        s.tally.oscillations + (if s.lastSplit == SplitOf(b, k) then 1 else 0)),
      SplitOf(b, k),
      s.contents)
  }

  lemma SplitAtOk(s: Table, h: nat)
    requires Ok(s)
    requires var b := Target(s, h); s.buckets[b] != [] && !AllEqual(s.buckets[b])
    ensures s.shape.local[Target(s, h)] < HASH_BITS
    ensures Ok(SplitAt(s, Target(s, h)))
    ensures Tidy(s) ==> Tidy(SplitAt(s, Target(s, h)))
  {
    var b := Target(s, h);
    BucketFacts(s, b);
    OneHighMeansOneHash(s.buckets[b], s.shape.local[b], s.shape.home[b]);
    SeparableIsShallow(s.buckets[b], s.shape.local[b], s.shape.home[b]);
    SplitSound(s.shape, s.buckets, s.nextId, b);
    SplitTracks(s.shape, s.buckets, b, s.nextId, s.contents);
    SplitAtTallied(s, b);
    if Tidy(s) {
      DividedTidy(s, b);
    }
  }

  /** After the split of its bucket, a hash is served by one of the two halves. */
  lemma SplitAtTarget(s: Table, h: nat)
    requires Ok(s) && Ok(SplitAt(s, Target(s, h)))
    ensures var u := SplitAt(s, Target(s, h));
      u.shape.local[Target(u, h)] == s.shape.local[Target(s, h)] + 1
  {
    BucketFacts(s, Target(s, h));
    GrownTarget(s.shape, Target(s, h), s.nextId, h);
  }

  lemma SplitAtTallied(s: Table, b: nat)
    requires b in s.shape.local && b in s.shape.home && b in s.buckets && s.nextId !in s.shape.local
    requires Tallied(s.shape, s.nextId, s.tally) && Remembered(s.shape, s.lastSplit)
    ensures var u := SplitAt(s, b);
      Tallied(u.shape, u.nextId, u.tally) && Remembered(u.shape, u.lastSplit)
  {
  }

  lemma DividedTidy(s: Table, b: nat)
    requires Tidy(s) && b in s.shape.local && b in s.shape.home && b in s.buckets && s.nextId !in s.buckets
    ensures Tidy(SplitAt(s, b))
  {
    PartMembers(s.buckets[b], s.shape.local[b], 0);
    PartMembers(s.buckets[b], s.shape.local[b], 1);
    PartNoRepeat(s.buckets[b], s.shape.local[b], 0);
    PartNoRepeat(s.buckets[b], s.shape.local[b], 1);
  }

  /** Room is made in a full bucket by an overflow page if all its entries are the same hash, and
      by a split on one more bit otherwise. */
  ghost function MadeRoom(s: Table, b: nat): Table
    requires b in s.shape.local && b in s.shape.home && b in s.buckets && b in s.overflow
  {
    if AllEqual(s.buckets[b]) then PageAdded(s, b) else SplitAt(s, b)
  }

  /** How many more entries the pages of bucket `b` would have to take for one more to fit. */
  ghost function Missing(s: Table, b: nat): nat
    requires b in s.buckets && b in s.overflow
  {
    if Fits(s, b) then 0 else |s.buckets[b]| - Capacity(s.c, s.overflow[b]) + 1
  }

  lemma MadeRoomOk(s: Table, h: nat)
    requires Ok(s) && 1 <= s.c && !Fits(s, Target(s, h))
    ensures var b, u := Target(s, h), MadeRoom(s, Target(s, h));
      && Ok(u) && u.c == s.c && u.contents == s.contents
      && (u.shape.local[Target(u, h)] == s.shape.local[b] + 1 <= HASH_BITS
          || (u.shape.local[Target(u, h)] == s.shape.local[b] && Missing(u, Target(u, h)) < Missing(s, b)))
      && (2 <= s.c && Tidy(s) ==> Tidy(u))
  {
    var b := Target(s, h);
    CapacityFacts(s.c, s.overflow[b]);
    if AllEqual(s.buckets[b]) {
      PageAddedOk(s, h);
    } else {
      SplitAtOk(s, h);
      SplitAtTarget(s, h);
    }
  }

  lemma PageAddedOk(s: Table, h: nat)
    requires Ok(s) && 1 <= s.c && !Fits(s, Target(s, h)) && AllEqual(s.buckets[Target(s, h)])
    ensures var b, u := Target(s, h), PageAdded(s, Target(s, h));
      && Ok(u) && Target(u, h) == b
      && Missing(u, b) < Missing(s, b)
      && !(2 <= s.c && Tidy(s))
  {
    var b := Target(s, h);
    CapacityFacts(s.c, s.overflow[b]);
    if Tidy(s) {
      EqualAndDifferentIsShort(s.buckets[b]);
    }
  }

  /** Insertion: make room until the bucket that serves the hash can take it. */
  ghost function Inserted(s: Table, h: Hash64): Table
    requires Ok(s) && 1 <= s.c
    decreases HASH_BITS - s.shape.local[Target(s, h)], Missing(s, Target(s, h))
  {
    var b := Target(s, h);
    BucketFacts(s, b);
    if Fits(s, b) then Appended(s, b, h)
    else
      MadeRoomOk(s, h);
      BucketFacts(MadeRoom(s, b), Target(MadeRoom(s, b), h));
      Inserted(MadeRoom(s, b), h)
  }

  lemma {:induction false} InsertedOk(s: Table, h: Hash64)
    requires Ok(s) && 1 <= s.c
    ensures var u := Inserted(s, h);
      && Ok(u)
      && u.c == s.c && u.cond == s.cond
      && u.contents == s.contents + multiset{h}
      && u.tally.merges == s.tally.merges && u.tally.halvings == s.tally.halvings
      && (2 <= s.c && Tidy(s) && h !in s.contents ==> Tidy(u))
    decreases HASH_BITS - s.shape.local[Target(s, h)], Missing(s, Target(s, h))
  {
    var b := Target(s, h);
    BucketFacts(s, b);
    if Fits(s, b) {
      AppendedOk(s, h);
    } else {
      MadeRoomOk(s, h);
      BucketFacts(MadeRoom(s, b), Target(MadeRoom(s, b), h));
      InsertedOk(MadeRoom(s, b), h);
    }
  }

  /** The last turn of the insertion loop. */
  lemma InsertEnd(s: Table, h: Hash64)
    requires Ok(s) && 1 <= s.c && Fits(s, Target(s, h))
    ensures Inserted(s, h) == Appended(s, Target(s, h), h)
    ensures Ok(Inserted(s, h))
  {
    AppendedOk(s, h);
  }

  /** One turn of the insertion loop on a full bucket: it leads to the same table, and the bucket
      that serves the hash either distinguishes one more of the 64 bits or misses less room. */
  lemma InsertTurn(s: Table, h: Hash64)
    requires Ok(s) && 1 <= s.c && !Fits(s, Target(s, h))
    ensures var b, u := Target(s, h), MadeRoom(s, Target(s, h));
      && Ok(u) && u.c == s.c
      && Inserted(u, h) == Inserted(s, h)
      && (HASH_BITS - u.shape.local[Target(u, h)] < HASH_BITS - s.shape.local[b]
          || (u.shape.local[Target(u, h)] == s.shape.local[b] && Missing(u, Target(u, h)) < Missing(s, b)))
      && u.shape.local[Target(u, h)] <= HASH_BITS
      && CanGrow(s, Low(h, s.shape.g), b)
  {
    var b := Target(s, h);
    MadeRoomOk(s, h);
    BucketFacts(MadeRoom(s, b), Target(MadeRoom(s, b), h));
    BucketFacts(s, b);
    LowOfLow(h, s.shape.local[b], s.shape.g);
    CapacityFacts(s.c, s.overflow[b]);
  }

  /** What making room in bucket `b`, named by entry `i`, relies on. */
  ghost predicate CanGrow(s: Table, i: nat, b: nat) {
    && b in s.shape.local && b in s.shape.home && b in s.buckets && b in s.overflow && b != s.nextId
    && Low(i, s.shape.local[b]) == s.shape.home[b]
    && s.buckets[b] != [] && forall e | e in s.buckets[b] :: Low(e, s.shape.local[b]) == s.shape.home[b]
  }

  /* ---------------------------------------------------------------- removing */

  ghost function Taken(s: Table, b: nat, h: nat): Table
    requires b in s.buckets && h in s.buckets[b]
  {
    Table(s.c, s.cond, s.shape, s.buckets[b := RemoveFirst(s.buckets[b], h)], s.overflow, s.nextId,
          s.tally, s.lastSplit, s.contents - multiset{h})
  }

  /** What removing a hash from the bucket that serves it leads to. */
  lemma RemoveFacts(s: Table, h: Hash64)
    requires Ok(s)
    ensures h in s.contents <==> h in s.buckets[Target(s, h)]
    ensures Ok(Removed(s, h))
    ensures h in s.buckets[Target(s, h)] ==>
              Ok(Taken(s, Target(s, h), h)) && Target(Taken(s, Target(s, h), h), h) == Target(s, h)
  {
    StoredWhereItPoints(s, h);
    RemovedOk(s, h);
    if h in s.buckets[Target(s, h)] {
      TakenOk(s, h);
    }
  }

  lemma TakenOk(s: Table, h: nat)
    requires Ok(s) && h in s.buckets[Target(s, h)]
    ensures var b, u := Target(s, h), Taken(s, Target(s, h), h);
      Ok(u) && Target(u, h) == b && (Tidy(s) ==> Tidy(u))
  {
    var b := Target(s, h);
    RemoveSound(s.shape, s.buckets, s.nextId, b, h);
    RemoveTracks(s.shape, s.buckets, s.nextId, b, h, s.contents);
    RemoveFirstBag(s.buckets[b], h);
    if Tidy(s) {
      RemoveFirstNoRepeat(s.buckets[b], h);
    }
  }

  /** The directory entry that differs from entry `i` in the highest bit bucket `b` distinguishes. */
  ghost function SiblingEntry(s: Table, i: nat, b: nat): (j: nat)
    requires Ok(s) && i < |s.shape.dir| && b == s.shape.dir[i]
    requires b in s.shape.local && 0 < s.shape.local[b]
    ensures j < |s.shape.dir| && s.shape.dir[j] != b && s.shape.dir[j] in s.shape.local
  {
    FlippedEntry(s.shape, i, b);
    Flip(i, s.shape.local[b] - 1)
  }

  /** May bucket `b`, named by entry `i`, take over its sibling? */
  ghost predicate Mergeable(s: Table, i: nat, b: nat)
    requires Ok(s) && i < |s.shape.dir| && b == s.shape.dir[i] && b in s.shape.local
  {
    && 0 < s.shape.local[b]
    && var other := s.shape.dir[SiblingEntry(s, i, b)];
       && s.shape.local[other] == s.shape.local[b]
       && s.overflow[b] == 0 && s.overflow[other] == 0
       && s.cond(|s.buckets[b]|, |s.buckets[other]|, s.c)
  }

  /** The table once bucket `b` has taken over its sibling. */
  ghost function TakenOver(s: Table, b: nat, other: nat): Table
    requires b in s.shape.local && b in s.shape.home && 0 < s.shape.local[b]
    requires b in s.buckets && other in s.buckets && b != other
  {
    Table(s.c, s.cond, Merge(s.shape, b, other), Joined(s.buckets, b, other), s.overflow - {other}, s.nextId,
          Tally(s.tally.splits, s.tally.merges + 1, s.tally.doublings, s.tally.halvings, s.tally.oscillations),
          NoSplit, s.contents)
  }

  /** The table with a directory that is no larger than it has to be. */
  ghost function Tightened(s: Table): Table
    requires Consistent(s.shape)
  {
    var u := Shrunk(s.shape);
    Table(s.c, s.cond, u, s.buckets, s.overflow, s.nextId,
          Tally(s.tally.splits, s.tally.merges, s.tally.doublings, s.tally.halvings + (s.shape.g - u.g), s.tally.oscillations),
          s.lastSplit, s.contents)
  }

  ghost function Merged(s: Table, b: nat, other: nat): Table
    requires Ok(s) && Siblings(s.shape, b, other)
  {
    MergeConsistent(s.shape, b, other);
    Tightened(TakenOver(s, b, other))
  }

  lemma MergedOk(s: Table, b: nat, other: nat)
    requires Ok(s) && Siblings(s.shape, b, other)
    ensures Ok(Merged(s, b, other))
  {
    MergeConsistent(s.shape, b, other);
    MergeSound(s.shape, s.buckets, s.nextId, b, other);
    MergeTracks(s.shape, s.buckets, s.nextId, b, other, s.contents);
    var m := Merge(s.shape, b, other);
    assert m.local.Keys == s.shape.local.Keys - {other};
    assert |m.local| == |m.local.Keys| && |s.shape.local| == |s.shape.local.Keys|;
  }

  /** Merging never fills a page beyond its capacity. */
  ghost predicate Respectful(cond: MergeCondition, c: nat) {
    forall a: nat, b: nat | a <= c && b <= c && cond(a, b, c) :: a + b <= c
  }

  lemma MergedTidy(s: Table, b: nat, other: nat)
    requires Ok(s) && Siblings(s.shape, b, other) && Tidy(s)
    requires |s.buckets[b]| + |s.buckets[other]| <= s.c
    ensures Tidy(Merged(s, b, other))
  {
    HomesDiffer(s.shape, b, other);
    var mine, theirs := s.buckets[b], s.buckets[other];
    forall i, j | 0 <= i < j < |mine + theirs|
      ensures (mine + theirs)[i] != (mine + theirs)[j]
    {
      if i < |mine| <= j {
        assert mine[i] in mine && theirs[j - |mine|] in theirs;
      }
    }
    assert Different(mine + theirs);
  }

  /** The table after an attempt to merge bucket `b`, named by entry `i`, with its sibling. */
  ghost function Fused(s: Table, i: nat, b: nat): Table
    requires Ok(s) && i < |s.shape.dir| && b == s.shape.dir[i] && b in s.shape.local
  {
    if Mergeable(s, i, b) then
      FlippedEntry(s.shape, i, b);
      Merged(s, b, s.shape.dir[SiblingEntry(s, i, b)])
    else s
  }

  lemma FusedOk(s: Table, i: nat, b: nat)
    requires Ok(s) && i < |s.shape.dir| && b == s.shape.dir[i] && b in s.shape.local
    ensures var u := Fused(s, i, b);
      && Ok(u)
      && u.c == s.c && u.cond == s.cond && u.contents == s.contents
      && (Respectful(s.cond, s.c) && Tidy(s) ==> Tidy(u))
  {
    if Mergeable(s, i, b) {
      FlippedEntry(s.shape, i, b);
      var other := s.shape.dir[SiblingEntry(s, i, b)];
      MergedOk(s, b, other);
      if Respectful(s.cond, s.c) && Tidy(s) {
        MergedTidy(s, b, other);
      }
    }
  }

  /** Everything the merging step needs to know when the merge condition holds or fails. */
  lemma FuseFacts(s: Table, i: nat, b: nat)
    requires Ok(s) && i < |s.shape.dir| && b == s.shape.dir[i] && b in s.shape.local
    requires 0 < s.shape.local[b]
    ensures var j := SiblingEntry(s, i, b); var other := s.shape.dir[j];
      && j == Flip(i, s.shape.local[b] - 1)
      && CanTakeOver(s, b, other)
      && (s.shape.local[other] == s.shape.local[b] ==> Siblings(s.shape, b, other))
  {
    FlippedEntry(s.shape, i, b);
  }

  ghost predicate CanTakeOver(s: Table, b: nat, other: nat) {
    && b in s.shape.local && b in s.shape.home && b in s.buckets && b in s.overflow
    && other in s.shape.local && other in s.buckets && other in s.overflow
    && b != other && 0 < s.shape.local[b]
  }

  ghost function Removed(s: Table, h: Hash64): Table
    requires Ok(s)
  {
    var b := Target(s, h);
    if h in s.buckets[b] then
      TakenOk(s, h);
      Fused(Taken(s, b, h), Low(h, s.shape.g), b)
    else s
  }

  lemma RemovedOk(s: Table, h: Hash64)
    requires Ok(s)
    ensures var u := Removed(s, h);
      && Ok(u)
      && u.c == s.c && u.cond == s.cond
      && u.contents == s.contents - multiset{h}
      && (Respectful(s.cond, s.c) && Tidy(s) ==> Tidy(u))
  {
    var b := Target(s, h);
    StoredWhereItPoints(s, h);
    if h in s.buckets[b] {
      TakenOk(s, h);
      FusedOk(Taken(s, b, h), Low(h, s.shape.g), b);
    }
  }
}
