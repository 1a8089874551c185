/** How far a bucket is split when a hash is inserted, and how many overflow pages it gets, said of the
    tables before and after. */
module HashGrowth {
  import opened Bits
  import opened HashLayout
  import opened HashBuckets
  import opened HashPlacement
  import opened HashTables
  import opened HashLaws

  /** The entries that agree with `h` on the low `d` bits, in their order. */
  function Agreeing(entries: seq<nat>, h: nat, d: nat): seq<nat> {
    if entries == [] then []
    else
      var last := entries[|entries| - 1];
      Agreeing(entries[..|entries| - 1], h, d) + if Low(last, d) == Low(h, d) then [last] else []
  }

  /** Pages hold `c` entries each; the primary page comes besides the extra ones. */
  predicate Enough(c: nat, held: nat, extra: nat) {
    held < c * (1 + extra)
  }

  ghost predicate Alike(entries: seq<nat>) {
    forall e, f | e in entries && f in entries :: e == f
  }

  /** With `d` bits distinguished no more splitting is called for: the entries that agree with `h` leave
      room for it, or no further bit would part them. */
  ghost predicate StopsAt(c: nat, entries: seq<nat>, h: nat, d: nat, extra: nat) {
    Enough(c, |Agreeing(entries, h, d)|, extra) || Alike(Agreeing(entries, h, d))
  }

  /** Splitting a bucket empties its overflow pages. */
  function ExtraAt(depth: nat, extra: nat, d: nat): nat {
    if d == depth then extra else 0
  }

  /** The bucket is split until no more splitting is called for, and no further, and has as many overflow
      pages as it then needs, and no more. */
  ghost predicate Settles(c: nat, entries: seq<nat>, h: nat, depth: nat, extra: nat, d: nat, pages: nat) {
    && depth <= d && StopsAt(c, entries, h, d, ExtraAt(depth, extra, d))
    && (forall e: nat | depth <= e < d :: !StopsAt(c, entries, h, e, ExtraAt(depth, extra, e)))
    && ExtraAt(depth, extra, d) <= pages && Enough(c, |Agreeing(entries, h, d)|, pages)
    && (forall q: nat | ExtraAt(depth, extra, d) <= q < pages :: !Enough(c, |Agreeing(entries, h, d)|, q))
  }

  function Larger(a: nat, b: nat): nat {
    if a < b then b else a
  }

  /** The hash is in a bucket that distinguishes `d` bits, behind the entries that agree with it on them. */
  ghost predicate Receives(s: Table, u: Table, h: nat, b: nat, t: nat, d: nat, pages: nat) {
    && b in s.shape.local && b in s.buckets && t in u.shape.local && t in u.buckets && t in u.overflow
    && u.shape.local[t] == d && u.overflow[t] == pages
    && u.buckets[t] == Agreeing(s.buckets[b], h, d) + [h]
  }

  /** Bucket `x` is as it was. */
  ghost predicate Keeps(s: Table, u: Table, x: nat) {
    && x in s.shape.local && x in s.buckets && x in s.overflow && x in u.shape.local && x in u.buckets && x in u.overflow
    && u.shape.local[x] == s.shape.local[x] && u.buckets[x] == s.buckets[x] && u.overflow[x] == s.overflow[x]
  }

  /** All buckets but `b` are as they were; what was split off it and does not serve the hash has no
      overflow pages. */
  ghost predicate LeavesOthers(s: Table, u: Table, b: nat, t: nat, depth: nat, d: nat) {
    && (forall x | x in s.shape.local && x != b :: x != t && Keeps(s, u, x))
    && (forall x | x in u.shape.local && (x == b || x !in s.shape.local) && x != t ::
          x in u.overflow && u.overflow[x] == 0 && depth < u.shape.local[x] <= d)
  }

  ghost predicate CountsSplits(s: Table, u: Table, splits: int) {
    && u.tally.splits == s.tally.splits + splits && |u.shape.local| == |s.shape.local| + splits
    && u.nextId == s.nextId + splits
    && u.tally.merges == s.tally.merges && u.tally.halvings == s.tally.halvings
    && u.tally.doublings - s.tally.doublings == u.shape.g - s.shape.g
  }

  /** The hash was served by bucket `b` and is now in `t`; nothing happened to the other buckets. */
  ghost predicate PutInto(s: Table, u: Table, h: nat, b: nat, t: nat, d: nat, pages: nat) {
    && Receives(s, u, h, b, t, d, pages)
    && LeavesOthers(s, u, b, t, s.shape.local[b], d)
    && CountsSplits(s, u, d - s.shape.local[b])
    && u.shape.g == Larger(s.shape.g, d)
  }

  /** An insertion splits and adds pages exactly as far as it should. */
  ghost predicate InsertedRightly(s: Table, u: Table, h: nat)
    requires Ok(s) && Ok(u)
  {
    var b, t := Serving(s, h), Serving(u, h);
    exists d: nat, pages: nat ::
      Settles(s.c, s.buckets[b], h, s.shape.local[b], s.overflow[b], d, pages) && PutInto(s, u, h, b, t, d, pages)
  }

  /* ---------------------------------------------------------------- entries that agree */

  lemma {:induction false} AgreeingAll(entries: seq<nat>, h: nat, d: nat)
    requires forall e | e in entries :: Low(e, d) == Low(h, d)
    ensures Agreeing(entries, h, d) == entries
  {
    if entries != [] {
      var front, last := entries[..|entries| - 1], entries[|entries| - 1];
      assert entries == front + [last];
      AgreeingAll(front, h, d);
      assert last in entries;
    }
  }

  lemma {:induction false} PartAgrees(entries: seq<nat>, h: nat, k: nat, next: nat)
    requires next == k + 1 && forall e | e in entries :: Low(e, k) == Low(h, k)
    ensures Part(entries, k, Bit(h, k)) == Agreeing(entries, h, next)
  {
    if entries != [] {
      var front, last := entries[..|entries| - 1], entries[|entries| - 1];
      assert entries == front + [last];
      PartAgrees(front, h, k, next);
      assert last in entries;
      LowStep(last, k);
      LowStep(h, k);
      LowBound(h, k);
    }
  }

  lemma AgreeingStep(entries: seq<nat>, last: nat, h: nat, d: nat)
    ensures Agreeing(entries + [last], h, d) == Agreeing(entries, h, d) + if Low(last, d) == Low(h, d) then [last] else []
  {
    assert (entries + [last])[..|entries|] == entries;
  }

  lemma MoreBits(e: nat, h: nat, d: nat, more: nat)
    requires d <= more && Low(e, more) == Low(h, more)
    ensures Low(e, d) == Low(h, d)
  {
    LowOfLow(e, d, more);
    LowOfLow(h, d, more);
  }

  lemma {:induction false} AgreeingTwice(entries: seq<nat>, h: nat, d: nat, more: nat)
    requires d <= more
    ensures Agreeing(Agreeing(entries, h, d), h, more) == Agreeing(entries, h, more)
  {
    if entries != [] {
      var front, last := entries[..|entries| - 1], entries[|entries| - 1];
      AgreeingTwice(front, h, d, more);
      if Low(last, d) == Low(h, d) {
        AgreeingStep(Agreeing(front, h, d), last, h, more);
      } else {
        assert Agreeing(entries, h, d) == Agreeing(front, h, d);
        if Low(last, more) == Low(h, more) {
          MoreBits(last, h, d, more);
        }
      }
    }
  }

  /* ---------------------------------------------------------------- settling */

  lemma SettlesAtOnce(c: nat, entries: seq<nat>, h: nat, depth: nat, extra: nat)
    requires Agreeing(entries, h, depth) == entries && Enough(c, |entries|, extra)
    ensures Settles(c, entries, h, depth, extra, depth, extra)
  {
  }

  lemma SettlesWithPage(c: nat, entries: seq<nat>, h: nat, depth: nat, extra: nat, next: nat, d: nat, pages: nat)
    requires Agreeing(entries, h, depth) == entries && !Enough(c, |entries|, extra) && Alike(entries)
    requires next == extra + 1 && Settles(c, entries, h, depth, next, d, pages)
    ensures d == depth && Settles(c, entries, h, depth, extra, d, pages)
  {
    if depth < d {
      assert StopsAt(c, entries, h, depth, ExtraAt(depth, next, depth));
    }
  }

  lemma SettlesDeeper(c: nat, entries: seq<nat>, h: nat, depth: nat, extra: nat, next: nat, half: seq<nat>, d: nat, pages: nat)
    requires Agreeing(entries, h, depth) == entries && !Enough(c, |entries|, extra) && !Alike(entries)
    requires next == depth + 1 && half == Agreeing(entries, h, next) && Settles(c, half, h, next, 0, d, pages)
    ensures Settles(c, entries, h, depth, extra, d, pages)
  {
    forall e: nat | next <= e
      ensures Agreeing(half, h, e) == Agreeing(entries, h, e)
    {
      AgreeingTwice(entries, h, next, e);
    }
    forall e: nat | depth <= e < d
      ensures !StopsAt(c, entries, h, e, ExtraAt(depth, extra, e))
    {
      if next <= e {
        assert !StopsAt(c, half, h, e, ExtraAt(next, 0, e));
      }
    }
  }

  /* ---------------------------------------------------------------- one turn of the insertion */

  lemma BucketAgrees(s: Table, h: nat)
    requires Ok(s)
    ensures var b := Target(s, h); Agreeing(s.buckets[b], h, s.shape.local[b]) == s.buckets[b]
    ensures forall e | e in s.buckets[Target(s, h)] :: Low(e, s.shape.local[Target(s, h)]) == Low(h, s.shape.local[Target(s, h)])
  {
    var b := Target(s, h);
    AgreeingAll(s.buckets[b], h, s.shape.local[b]);
  }

  lemma AlikeIsAllEqual(entries: seq<nat>)
    ensures Alike(entries) <==> AllEqual(entries)
  {
    if Alike(entries) {
      assert forall i | 0 <= i < |entries| :: entries[i] in entries;
    }
    if AllEqual(entries) {
      forall e, f | e in entries && f in entries
        ensures e == f
      {
        var i :| 0 <= i < |entries| && entries[i] == e;
        var j :| 0 <= j < |entries| && entries[j] == f;
        assert i < j ==> entries[i] == entries[j];
        assert j < i ==> entries[j] == entries[i];
      }
    }
  }

  lemma AppendedLeaves(s: Table, h: nat, b: nat)
    requires Ok(s) && b in s.shape.local
    ensures b in s.buckets && LeavesOthers(s, Appended(s, b, h), b, b, s.shape.local[b], s.shape.local[b])
    ensures CountsSplits(s, Appended(s, b, h), 0)
  {
    BucketFacts(s, b);
  }

  lemma AppendedReceives(s: Table, h: nat, b: nat)
    requires Ok(s) && b == Target(s, h)
    ensures Receives(s, Appended(s, b, h), h, b, b, s.shape.local[b], s.overflow[b])
    ensures s.shape.local[b] <= s.shape.g
  {
    BucketFacts(s, b);
    BucketAgrees(s, h);
  }

  lemma AppendedPut(s: Table, h: Hash64)
    requires Ok(s)
    ensures Ok(Appended(s, Target(s, h), h)) && Target(Appended(s, Target(s, h), h), h) == Target(s, h)
    ensures var b := Target(s, h); PutInto(s, Appended(s, b, h), h, b, b, s.shape.local[b], s.overflow[b])
  {
    var b := Target(s, h);
    AppendedOk(s, h);
    AppendedReceives(s, h, b);
    AppendedLeaves(s, h, b);
  }

  /** What splitting the bucket that serves `h` leaves. */
  ghost predicate SplitOff(s: Table, m: Table, h: nat, b: nat, t: nat, next: nat) {
    && b in s.shape.local && next == s.shape.local[b] + 1 && b in s.buckets
    && t in m.shape.local && t in m.buckets && t in m.overflow
    && m.shape.local[t] == next && m.overflow[t] == 0 && m.buckets[t] == Agreeing(s.buckets[b], h, next)
    && LeavesOthers(s, m, b, t, s.shape.local[b], next)
    && CountsSplits(s, m, 1)
    && m.shape.g == Larger(s.shape.g, next)
  }

  lemma DividedHalf(buckets: map<nat, seq<nat>>, b: nat, born: nat, k: nat, bit: nat)
    requires b in buckets && b != born && bit < 2
    ensures var t := if bit == 1 then born else b;
      t in Divided(buckets, b, born, k) && Divided(buckets, b, born, k)[t] == Part(buckets[b], k, bit)
  {
  }

  lemma SplitServes(s: Table, h: nat, b: nat)
    requires Ok(s) && b == Target(s, h) && Ok(SplitAt(s, b))
    ensures Target(SplitAt(s, b), h) == if Bit(h, s.shape.local[b]) == 1 then s.nextId else b
  {
    BucketFacts(s, b);
    GrownTarget(s.shape, b, s.nextId, h);
  }

  lemma SplitParts(s: Table, h: nat, b: nat, next: nat)
    requires Ok(s) && b == Target(s, h) && next == s.shape.local[b] + 1
    requires Ok(SplitAt(s, b))
    ensures var t := Target(SplitAt(s, b), h);
      && (t == b || t == s.nextId)
      && SplitAt(s, b).buckets[t] == Agreeing(s.buckets[b], h, next)
  {
    var k := s.shape.local[b];
    BucketFacts(s, b);
    SplitServes(s, h, b);
    BucketAgrees(s, h);
    PartAgrees(s.buckets[b], h, k, next);
    DividedHalf(s.buckets, b, s.nextId, k, Bit(h, k));
  }

  lemma SplitLeaves(s: Table, b: nat, t: nat, next: nat)
    requires Ok(s) && b in s.shape.local && (t == b || t == s.nextId) && next == s.shape.local[b] + 1
    ensures b in s.shape.home && b in s.buckets && LeavesOthers(s, SplitAt(s, b), b, t, s.shape.local[b], next)
  {
    BucketFacts(s, b);
  }

  lemma SplitCounts(s: Table, b: nat, next: nat)
    requires Ok(s) && b in s.shape.local && next == s.shape.local[b] + 1
    ensures b in s.shape.home && b in s.buckets && CountsSplits(s, SplitAt(s, b), 1)
    ensures SplitAt(s, b).shape.g == Larger(s.shape.g, next)
  {
    BucketFacts(s, b);
  }

  lemma SplitIsOff(s: Table, h: nat, b: nat, next: nat)
    requires Ok(s) && b == Target(s, h) && next == s.shape.local[b] + 1
    requires Ok(SplitAt(s, b))
    ensures SplitOff(s, SplitAt(s, b), h, b, Target(SplitAt(s, b), h), next)
  {
    BucketFacts(s, b);
    SplitParts(s, h, b, next);
    SplitLeaves(s, b, Target(SplitAt(s, b), h), next);
    SplitCounts(s, b, next);
  }

  /* ---------------------------------------------------------------- all turns */

  lemma LeavesOthersAfterAll(s: Table, m: Table, u: Table, b: nat, t: nat, w: nat, depth: nat, next: nat, d: nat)
    requires LeavesOthers(s, m, b, t, depth, next) && LeavesOthers(m, u, t, w, next, d) && next == depth + 1 <= d
    ensures LeavesOthers(s, u, b, w, depth, d)
  {
    forall x | x in s.shape.local && x != b
      ensures x != w && Keeps(s, u, x)
    {
      assert Keeps(s, m, x) && Keeps(m, u, x);
    }
    forall x | x in u.shape.local && (x == b || x !in s.shape.local) && x != w
      ensures x in u.overflow && u.overflow[x] == 0 && depth < u.shape.local[x] <= d
    {
      if x in m.shape.local && x != t {
        assert Keeps(m, u, x);
      }
    }
  }

  lemma ReceivesAfterAll(s: Table, m: Table, u: Table, h: nat, b: nat, t: nat, w: nat, next: nat, d: nat, pages: nat)
    requires b in s.shape.local && b in s.buckets && t in m.buckets && m.buckets[t] == Agreeing(s.buckets[b], h, next) && next <= d
    requires Receives(m, u, h, t, w, d, pages)
    ensures Receives(s, u, h, b, w, d, pages)
  {
    AgreeingTwice(s.buckets[b], h, next, d);
  }

  lemma CountsAfterAll(s: Table, m: Table, u: Table, more: int)
    requires CountsSplits(s, m, 1) && CountsSplits(m, u, more)
    ensures CountsSplits(s, u, 1 + more)
  {
  }

  lemma PutAfterSplit(s: Table, m: Table, u: Table, h: nat, b: nat, t: nat, w: nat, next: nat, d: nat, pages: nat)
    requires SplitOff(s, m, h, b, t, next) && PutInto(m, u, h, t, w, d, pages) && next <= d
    ensures PutInto(s, u, h, b, w, d, pages)
  {
    ReceivesAfterAll(s, m, u, h, b, t, w, next, d, pages);
    CountsAfterAll(s, m, u, d - next);
    LeavesOthersAfterAll(s, m, u, b, t, w, s.shape.local[b], next, d);
  }

  lemma PageKeepsOthers(s: Table, u: Table, b: nat, w: nat, depth: nat, d: nat)
    requires b in s.overflow && LeavesOthers(PageAdded(s, b), u, b, w, depth, d)
    ensures LeavesOthers(s, u, b, w, depth, d)
  {
    forall x | x in s.shape.local && x != b
      ensures x != w && Keeps(s, u, x)
    {
      assert Keeps(PageAdded(s, b), u, x);
    }
  }

  lemma PutAfterPage(s: Table, u: Table, h: nat, b: nat, w: nat, d: nat, pages: nat)
    requires b in s.overflow && PutInto(PageAdded(s, b), u, h, b, w, d, pages)
    ensures PutInto(s, u, h, b, w, d, pages)
  {
    PageKeepsOthers(s, u, b, w, s.shape.local[b], d);
  }

  lemma FullMeans(s: Table, b: nat)
    requires b in s.buckets && b in s.overflow
    ensures Fits(s, b) <==> Enough(s.c, |s.buckets[b]|, s.overflow[b])
  {
  }

  /** Where an insertion puts the hash, and how far it splits on the way. */
  lemma {:induction false} InsertedSettles(s: Table, h: Hash64) returns (d: nat, pages: nat)
    requires Ok(s) && 1 <= s.c
    ensures Ok(Inserted(s, h)) && PutInto(s, Inserted(s, h), h, Serving(s, h), Serving(Inserted(s, h), h), d, pages)
    ensures var b := Serving(s, h); Settles(s.c, s.buckets[b], h, s.shape.local[b], s.overflow[b], d, pages)
    decreases HASH_BITS - s.shape.local[Target(s, h)], Missing(s, Target(s, h))
  {
    var b := Target(s, h);
    BucketFacts(s, b);
    BucketAgrees(s, h);
    FullMeans(s, b);
    InsertedOk(s, h);
    var depth := s.shape.local[b];
    if Fits(s, b) {
      d, pages := depth, s.overflow[b];
      InsertEnd(s, h);
      AppendedPut(s, h);
      SettlesAtOnce(s.c, s.buckets[b], h, depth, s.overflow[b]);
    } else {
      InsertTurn(s, h);
      var m := MadeRoom(s, b);
      AlikeIsAllEqual(s.buckets[b]);
      d, pages := InsertedSettles(m, h);
      if AllEqual(s.buckets[b]) {
        PageAddedOk(s, h);
        SettlesWithPage(s.c, s.buckets[b], h, depth, s.overflow[b], m.overflow[b], d, pages);
        PutAfterPage(s, Inserted(s, h), h, b, Target(Inserted(s, h), h), d, pages);
      } else {
        var next := depth + 1;
        SplitIsOff(s, h, b, next);
        SettlesDeeper(s.c, s.buckets[b], h, depth, s.overflow[b], next, m.buckets[Target(m, h)], d, pages);
        PutAfterSplit(s, m, Inserted(s, h), h, b, Target(m, h), Target(Inserted(s, h), h), next, d, pages);
      }
    }
  }

  /** An insertion splits the bucket of its hash as far as it must and no further, gives it the overflow
      pages it needs and no more, and leaves all other buckets alone. */
  lemma InsertedExactly(s: Table, h: Hash64)
    requires Ok(s) && 1 <= s.c
    ensures Ok(Inserted(s, h)) && InsertedRightly(s, Inserted(s, h), h)
  {
    var d, pages := InsertedSettles(s, h);
  }
}
