/** When removing a hash merges two buckets, and what it leaves, said of the tables before and after. */
module HashLaws {
  import opened Bits
  import opened HashLayout
  import opened HashBuckets
  import opened HashPlacement
  import opened HashTables

  /** The bucket that the directory entry of `h` names. */
  ghost function Serving(s: Table, h: nat): (b: nat)
    requires Ok(s)
    ensures b == Target(s, h)
  {
    LowHighArithmetic(h, s.shape.g);
    LowBound(h, s.shape.g);
    s.shape.dir[h % Pow2(s.shape.g)]
  }

  /* ---------------------------------------------------------------- when a removal merges */

  /** The numbers differ in bit `k` and in no other. */
  predicate OneBitApart(i: nat, j: nat, k: nat) {
    || (i / Pow2(k) % 2 == 0 && j == i + Pow2(k))
    || (j / Pow2(k) % 2 == 0 && i == j + Pow2(k))
  }

  lemma {:induction false} FlipAdds(x: nat, k: nat)
    ensures Bit(x, k) == 0 ==> Flip(x, k) == x + Pow2(k)
    ensures Bit(x, k) == 1 ==> x == Flip(x, k) + Pow2(k)
  {
    if k != 0 {
      FlipAdds(x / 2, k - 1);
    }
  }

  lemma ApartIsFlipped(i: nat, j: nat, k: nat)
    ensures OneBitApart(i, j, k) <==> j == Flip(i, k)
  {
    LowHighArithmetic(i, k);
    LowHighArithmetic(j, k);
    LowHighArithmetic(Flip(i, k), k);
    FlipAdds(i, k);
    FlipAdds(j, k);
    FlipBits(i, k);
    FlipBits(j, k);
  }

  /** Some entry that differs from that of `h` in the highest bit that its bucket distinguishes names
      this other bucket. */
  ghost predicate NextTo(s: Table, h: nat, other: nat)
    requires Ok(s)
  {
    var depth := s.shape.local[Serving(s, h)];
    && 0 < depth
    && exists j: nat :: j < |s.shape.dir| && s.shape.dir[j] == other && OneBitApart(h % Pow2(s.shape.g), j, depth - 1)
  }

  /** Buckets of these depths, without overflow pages, may merge. */
  ghost predicate MayMerge(s: Table, b: nat, other: nat, size: int) {
    && b in s.shape.local && other in s.shape.local && b in s.buckets && other in s.buckets && b in s.overflow && other in s.overflow
    && s.shape.local[other] == s.shape.local[b]
    && s.overflow[b] == 0 && s.overflow[other] == 0
    && 0 <= size && s.cond(size, |s.buckets[other]|, s.c)
  }

  /** Removing `h` makes its bucket take over this other one: the hash is stored, both buckets distinguish
      equally many bits and have no overflow pages, and the condition holds of their sizes once the
      hash is gone. */
  ghost predicate MergesWith(s: Table, h: nat, other: nat)
    requires Ok(s)
  {
    var b := Serving(s, h);
    && h in s.buckets[b]
    && NextTo(s, h, other)
    && MayMerge(s, b, other, |s.buckets[b]| - 1)
  }

  ghost predicate WillMerge(s: Table, h: nat)
    requires Ok(s)
  {
    exists other :: MergesWith(s, h, other)
  }

  /** The hash is gone and nothing else has changed. */
  ghost predicate OnlyTaken(s: Table, u: Table, h: nat)
    requires Ok(s)
  {
    var b := Serving(s, h);
    && u.shape == s.shape && u.overflow == s.overflow && u.tally == s.tally && u.nextId == s.nextId
    && u.buckets.Keys == s.buckets.Keys
    && (forall x | x in s.buckets && x != b :: u.buckets[x] == s.buckets[x])
    && multiset(u.buckets[b]) == multiset(s.buckets[b]) - multiset{h}
  }

  /** Bucket `b` distinguishes one bit less, the other is gone, and `b` is named wherever the other was, by
      a directory that has as few entries as the buckets allow. */
  ghost predicate Inherits(t: Layout, u: Layout, b: nat, other: nat) {
    && b in t.local && b != other && 0 < t.local[b]
    && u.local == t.local[b := t.local[b] - 1] - {other}
    && |u.dir| == Pow2(u.g) && |u.dir| <= |t.dir|
    && (forall i | 0 <= i < |u.dir| :: u.dir[i] == if t.dir[i] == other then b else t.dir[i])
    && (exists x :: x in u.local && u.local[x] == u.g)
  }

  /** The entries of the other bucket are now in bucket `b`, without the hash. */
  ghost predicate Gathers(before: map<nat, seq<nat>>, after: map<nat, seq<nat>>, h: nat, b: nat, other: nat) {
    && b in before && other in before && b != other
    && after.Keys == before.Keys - {other}
    && (forall x | x in after && x != b :: after[x] == before[x])
    && multiset(after[b]) == multiset(before[b]) - multiset{h} + multiset(before[other])
  }

  /** One more merge is counted, there is one bucket fewer, and nothing else has happened besides
      halving the directory. */
  ghost predicate CountsMerge(s: Table, u: Table) {
    && u.tally.merges == s.tally.merges + 1 && |u.shape.local| == |s.shape.local| - 1
    && u.tally.splits == s.tally.splits && u.tally.doublings == s.tally.doublings && u.nextId == s.nextId
    && u.tally.halvings - s.tally.halvings == s.shape.g - u.shape.g
  }

  ghost predicate TookOver(s: Table, u: Table, h: nat, other: nat)
    requires Ok(s)
  {
    var b := Serving(s, h);
    && Inherits(s.shape, u.shape, b, other)
    && Gathers(s.buckets, u.buckets, h, b, other)
    && u.overflow == s.overflow - {other}
    && CountsMerge(s, u)
  }

  /** A removal merges exactly when it should, and then as it should. */
  ghost predicate RemovedRightly(s: Table, u: Table, h: nat)
    requires Ok(s)
  {
    && (forall other | MergesWith(s, h, other) :: TookOver(s, u, h, other))
    && (!WillMerge(s, h) ==> OnlyTaken(s, u, h))
  }

  lemma OnlyOneNextTo(s: Table, h: nat, other: nat)
    requires Ok(s)
    ensures Low(h, s.shape.g) < |s.shape.dir| && Serving(s, h) == s.shape.dir[Low(h, s.shape.g)]
    ensures NextTo(s, h, other) <==>
            0 < s.shape.local[Serving(s, h)] && other == s.shape.dir[SiblingEntry(s, Low(h, s.shape.g), Serving(s, h))]
  {
    LowHighArithmetic(h, s.shape.g);
    LowBound(h, s.shape.g);
    var i, b := Low(h, s.shape.g), Serving(s, h);
    if 0 < s.shape.local[b] {
      var k := s.shape.local[b] - 1;
      forall j: nat | j < |s.shape.dir|
        ensures OneBitApart(i, j, k) <==> j == Flip(i, k)
      {
        ApartIsFlipped(i, j, k);
      }
      FlippedEntry(s.shape, i, b);
    }
  }

  lemma MergeableMeans(s: Table, i: nat, b: nat)
    requires Ok(s) && i < |s.shape.dir| && b == s.shape.dir[i] && b in s.shape.local && 0 < s.shape.local[b]
    ensures b in s.buckets
    ensures Mergeable(s, i, b) <==> MayMerge(s, b, s.shape.dir[SiblingEntry(s, i, b)], |s.buckets[b]|)
  {
    BucketFacts(s, b);
    BucketFacts(s, s.shape.dir[SiblingEntry(s, i, b)]);
  }

  lemma TakenMayMerge(s: Table, h: nat, b: nat, other: nat)
    requires b in s.buckets && h in s.buckets[b] && other != b
    ensures MayMerge(Taken(s, b, h), b, other, |Taken(s, b, h).buckets[b]|) <==> MayMerge(s, b, other, |s.buckets[b]| - 1)
  {
    RemoveFirstBag(s.buckets[b], h);
  }

  /** The bucket next to that of `h`, if it distinguishes any bits. */
  ghost function Sibling(s: Table, h: nat): (other: nat)
    requires Ok(s) && 0 < s.shape.local[Target(s, h)]
  {
    s.shape.dir[SiblingEntry(s, Low(h, s.shape.g), Target(s, h))]
  }

  lemma SiblingIsNext(s: Table, h: nat)
    requires Ok(s)
    ensures forall other :: NextTo(s, h, other) <==> 0 < s.shape.local[Target(s, h)] && other == Sibling(s, h)
  {
    forall other
      ensures NextTo(s, h, other) <==> 0 < s.shape.local[Target(s, h)] && other == Sibling(s, h)
    {
      OnlyOneNextTo(s, h, other);
    }
  }

  /** What removing leads to, case by case. */
  lemma RemovedIs(s: Table, h: Hash64, b: nat)
    requires Ok(s) && b == Target(s, h) && h in s.buckets[b]
    ensures Ok(Taken(s, b, h)) && Target(Taken(s, b, h), h) == b
    ensures var taken := Taken(s, b, h);
      Removed(s, h) == if 0 < s.shape.local[b] && MayMerge(taken, b, Sibling(taken, h), |taken.buckets[b]|)
                          && Siblings(taken.shape, b, Sibling(taken, h))
                       then Merged(taken, b, Sibling(taken, h)) else taken
  {
    TakenOk(s, h);
    var taken, i := Taken(s, b, h), Low(h, s.shape.g);
    if 0 < s.shape.local[b] {
      MergeableMeans(taken, i, b);
      FlippedEntry(taken.shape, i, b);
    }
  }

  lemma {:induction false} ShrunkKeepsEntries(t: Layout)
    requires Consistent(t)
    ensures |Shrunk(t).dir| <= |t.dir| && forall i | 0 <= i < |Shrunk(t).dir| :: Shrunk(t).dir[i] == t.dir[i]
    decreases t.g
  {
    if Shrinkable(t) {
      HalvedConsistent(t);
      ShrunkKeepsEntries(Halved(t));
    }
  }

  lemma MergedInherits(t: Layout, b: nat, other: nat)
    requires Consistent(t) && Siblings(t, b, other)
    ensures Consistent(Merge(t, b, other)) && Inherits(t, Shrunk(Merge(t, b, other)), b, other)
  {
    MergeConsistent(t, b, other);
    ShrunkKeepsEntries(Merge(t, b, other));
  }

  lemma JoinedGathers(before: map<nat, seq<nat>>, h: nat, b: nat, other: nat)
    requires b in before && other in before && b != other && h in before[b]
    ensures Gathers(before, Joined(before[b := RemoveFirst(before[b], h)], b, other), h, b, other)
  {
    RemoveFirstBag(before[b], h);
  }

  lemma MergedCounts(s: Table, b: nat, other: nat)
    requires Ok(s) && Siblings(s.shape, b, other)
    ensures var u := Merged(s, b, other);
      && CountsMerge(s, u) && u.overflow == s.overflow - {other}
      && u.buckets == Joined(s.buckets, b, other)
      && Consistent(Merge(s.shape, b, other)) && u.shape == Shrunk(Merge(s.shape, b, other))
  {
    MergedOk(s, b, other);
    MergeConsistent(s.shape, b, other);
  }

  lemma MergedTakesOver(s: Table, h: Hash64, other: nat)
    requires Ok(s) && h in s.buckets[Target(s, h)] && Ok(Taken(s, Target(s, h), h))
    requires Siblings(s.shape, Target(s, h), other)
    ensures TookOver(s, Merged(Taken(s, Target(s, h), h), Target(s, h), other), h, other)
  {
    var b := Target(s, h);
    BucketFacts(s, b);
    BucketFacts(s, other);
    MergedInherits(s.shape, b, other);
    JoinedGathers(s.buckets, h, b, other);
    MergedCounts(Taken(s, b, h), b, other);
  }

  lemma SiblingsWhenMerging(s: Table, h: nat)
    requires Ok(s) && 0 < s.shape.local[Target(s, h)] && s.shape.local[Sibling(s, h)] == s.shape.local[Target(s, h)]
    ensures Siblings(s.shape, Target(s, h), Sibling(s, h))
  {
    FlippedEntry(s.shape, Low(h, s.shape.g), Target(s, h));
  }

  lemma SameSibling(s: Table, h: Hash64, b: nat)
    requires Ok(s) && b == Target(s, h) && h in s.buckets[b] && 0 < s.shape.local[b]
    requires Ok(Taken(s, b, h)) && Target(Taken(s, b, h), h) == b
    ensures Sibling(Taken(s, b, h), h) == Sibling(s, h) != b
  {
  }

  lemma MergesExactly(s: Table, h: Hash64, b: nat)
    requires Ok(s) && b == Target(s, h) && h in s.buckets[b]
    ensures forall other ::
              MergesWith(s, h, other) <==>
              0 < s.shape.local[b] && MayMerge(s, b, Sibling(s, h), |s.buckets[b]| - 1) && other == Sibling(s, h)
  {
    SiblingIsNext(s, h);
  }

  lemma RemovedWithMerge(s: Table, h: Hash64, b: nat)
    requires Ok(s) && b == Target(s, h) && h in s.buckets[b]
    requires 0 < s.shape.local[b] && MayMerge(s, b, Sibling(s, h), |s.buckets[b]| - 1)
    ensures TookOver(s, Removed(s, h), h, Sibling(s, h))
  {
    RemovedIs(s, h, b);
    SameSibling(s, h, b);
    TakenMayMerge(s, h, b, Sibling(s, h));
    SiblingsWhenMerging(s, h);
    MergedTakesOver(s, h, Sibling(s, h));
  }

  lemma RemovedWithoutMerge(s: Table, h: Hash64, b: nat)
    requires Ok(s) && b == Target(s, h) && h in s.buckets[b]
    requires 0 < s.shape.local[b] ==> !MayMerge(s, b, Sibling(s, h), |s.buckets[b]| - 1)
    ensures OnlyTaken(s, Removed(s, h), h)
  {
    RemovedIs(s, h, b);
    if 0 < s.shape.local[b] {
      SameSibling(s, h, b);
      TakenMayMerge(s, h, b, Sibling(s, h));
    }
    TakenOnly(s, h);
  }

  /** Exactly when a removal merges two buckets, and what it leaves. */
  lemma RemovedExactly(s: Table, h: Hash64)
    requires Ok(s)
    ensures RemovedRightly(s, Removed(s, h), h)
  {
    var b := Target(s, h);
    if h !in s.buckets[b] {
      NotTaken(s, h);
    } else {
      MergesExactly(s, h, b);
      if 0 < s.shape.local[b] && MayMerge(s, b, Sibling(s, h), |s.buckets[b]| - 1) {
        RemovedWithMerge(s, h, b);
        OnlyOneMerges(s, Removed(s, h), h, Sibling(s, h));
      } else {
        RemovedWithoutMerge(s, h, b);
        NoneMerges(s, Removed(s, h), h);
      }
    }
  }

  lemma OnlyOneMerges(s: Table, u: Table, h: nat, sibling: nat)
    requires Ok(s) && (forall other :: MergesWith(s, h, other) <==> other == sibling) && TookOver(s, u, h, sibling)
    ensures RemovedRightly(s, u, h)
  {
    assert MergesWith(s, h, sibling);
  }

  lemma NoneMerges(s: Table, u: Table, h: nat)
    requires Ok(s) && (forall other :: !MergesWith(s, h, other)) && OnlyTaken(s, u, h)
    ensures RemovedRightly(s, u, h)
  {
  }

  lemma TakenOnly(s: Table, h: nat)
    requires Ok(s) && h in s.buckets[Target(s, h)]
    ensures OnlyTaken(s, Taken(s, Target(s, h), h), h)
  {
    RemoveFirstBag(s.buckets[Target(s, h)], h);
  }

  lemma NotTaken(s: Table, h: nat)
    requires Ok(s) && h !in s.buckets[Target(s, h)]
    ensures OnlyTaken(s, s, h) && forall other :: !MergesWith(s, h, other)
  {
  }

  /** One merge is counted and one bucket is gone if two buckets merge, and none otherwise. */
  lemma MergesCounted(s: Table, h: Hash64)
    requires Ok(s)
    ensures var u := Removed(s, h);
      && u.tally.merges == s.tally.merges + (if WillMerge(s, h) then 1 else 0)
      && |u.shape.local| == |s.shape.local| - (if WillMerge(s, h) then 1 else 0)
  {
    RemovedExactly(s, h);
    if other :| MergesWith(s, h, other) {
      assert TookOver(s, Removed(s, h), h, other);
    }
  }
}
