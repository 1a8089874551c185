/** What the buckets of an extendible hash table must hold, and why each of its four changes keeps
    that: adding an entry, removing one, splitting a bucket, and merging two siblings. */
module HashPlacement {
  import opened Bits
  import opened HashLayout
  import opened HashBuckets

  /** Hashes are 64 bits wide. */
  const HASH_BITS: nat := 64
  const HASH_LIMIT: nat := 0x1_0000_0000_0000_0000

  lemma {:induction false} Pow2Sum(a: nat, b: nat)
    ensures Pow2(a + b) == Pow2(a) * Pow2(b)
  {
    if 0 < b {
      Pow2Sum(a, b - 1);
    }
  }

  lemma HashBound(h: nat)
    requires h < HASH_LIMIT
    ensures h < Pow2(HASH_BITS)
  {
    assert Pow2(8) == 0x100;
    Pow2Sum(8, 8);
    Pow2Sum(16, 16);
    Pow2Sum(32, 32);
  }

  /** Every entry is a hash that carries the shared bits of its bucket. */
  ghost predicate Placed(t: Layout, buckets: map<nat, seq<nat>>)
    requires buckets.Keys == t.local.Keys == t.home.Keys
  {
    forall b, e | b in t.local && e in buckets[b] ::
      e < HASH_LIMIT && Low(e, t.local[b]) == t.home[b]
  }

  /** A minimal directory over buckets that are all in use, and every entry where it belongs. */
  ghost predicate Sound(t: Layout, buckets: map<nat, seq<nat>>, nextId: nat) {
    match t
    case Layout(_, _, local, _) =>
      && Consistent(t) && Minimal(t)
      && buckets.Keys == local.Keys
      && Placed(t, buckets)
      && (forall b | b in local :: b < nextId && local[b] <= HASH_BITS)
  }

  /** `contents` counts each hash as often as the bucket that serves it lists it. */
  ghost predicate Tracks(t: Layout, buckets: map<nat, seq<nat>>, contents: multiset<nat>)
    requires buckets.Keys == t.local.Keys == t.home.Keys
  {
    match t
    case Layout(_, _, local, home) =>
      forall b, h: nat {:trigger multiset(buckets[b])[h]} | b in local && Low(h, local[b]) == home[b] ::
        contents[h] == multiset(buckets[b])[h]
  }

  /** What a table means is what its buckets hold together. */
  lemma ContentsAreTheBuckets(t: Layout, buckets: map<nat, seq<nat>>, nextId: nat, contents: multiset<nat>)
    requires Sound(t, buckets, nextId) && Tracks(t, buckets, contents)
    ensures contents == Bag(buckets, nextId)
  {
    forall h: nat
      ensures contents[h] == Bag(buckets, nextId)[h]
    {
      LowBound(h, t.g);
      var b := t.dir[Low(h, t.g)];
      Routes(t, h, b);
      forall x | x in buckets && h in buckets[x]
        ensures x == b
      {
        Routes(t, h, x);
      }
      BagAt(buckets, nextId, b, h);
    }
  }

  /* ---------------------------------------------------------------- adding and removing */

  lemma AppendSound(t: Layout, buckets: map<nat, seq<nat>>, nextId: nat, b: nat, h: nat)
    requires Sound(t, buckets, nextId) && b in t.local
    requires h < HASH_LIMIT && Low(h, t.local[b]) == t.home[b]
    ensures Sound(t, buckets[b := buckets[b] + [h]], nextId)
  {
  }

  lemma AppendTracks(t: Layout, buckets: map<nat, seq<nat>>, nextId: nat, b: nat, h: nat, contents: multiset<nat>)
    requires Sound(t, buckets, nextId) && Tracks(t, buckets, contents) && b in t.local
    requires Low(h, t.local[b]) == t.home[b]
    ensures Tracks(t, buckets[b := buckets[b] + [h]], contents + multiset{h})
  {
    forall x | x in t.local && Low(h, t.local[x]) == t.home[x]
      ensures x == b
    {
      Routes(t, h, x);
      Routes(t, h, b);
    }
  }

  lemma RemoveSound(t: Layout, buckets: map<nat, seq<nat>>, nextId: nat, b: nat, h: nat)
    requires Sound(t, buckets, nextId) && b in t.local && h in buckets[b]
    ensures Sound(t, buckets[b := RemoveFirst(buckets[b], h)], nextId)
  {
    RemoveFirstBag(buckets[b], h);
  }

  lemma RemoveTracks(t: Layout, buckets: map<nat, seq<nat>>, nextId: nat, b: nat, h: nat, contents: multiset<nat>)
    requires Sound(t, buckets, nextId) && Tracks(t, buckets, contents) && b in t.local && h in buckets[b]
    ensures Tracks(t, buckets[b := RemoveFirst(buckets[b], h)], contents - multiset{h})
  {
    RemoveFirstBag(buckets[b], h);
    forall x | x in t.local && Low(h, t.local[x]) == t.home[x]
      ensures x == b
    {
      Routes(t, h, x);
      Routes(t, h, b);
    }
  }

  /* ---------------------------------------------------------------- splitting */

  /** The buckets after the entries of `b` are shared out between `b` and `born`. */
  function Divided(buckets: map<nat, seq<nat>>, b: nat, born: nat, k: nat): map<nat, seq<nat>>
    requires b in buckets
  {
    buckets[b := Part(buckets[b], k, 0)][born := Part(buckets[b], k, 1)]
  }

  /** The directory after bucket `b` is split, doubled first if `b` uses all of its bits. */
  function Grown(t: Layout, b: nat, born: nat): Layout
    requires b in t.local && b in t.home
  {
    Split(if t.local[b] == t.g then Doubled(t) else t, b, born)
  }

  /** After the split of its bucket, a hash is served by one of the two halves. */
  lemma GrownTarget(t: Layout, b: nat, born: nat, h: nat)
    requires Consistent(t) && Minimal(t) && b in t.local && born !in t.local
    requires Low(h, t.local[b]) == t.home[b]
    ensures var u := Grown(t, b, born);
      && Consistent(u)
      && Low(h, u.g) < |u.dir|
      && u.dir[Low(h, u.g)] in u.local
      && u.local[u.dir[Low(h, u.g)]] == t.local[b] + 1
      && u.dir[Low(h, u.g)] == if Bit(h, t.local[b]) == 1 then born else b
  {
    var u := Grown(t, b, born);
    GrownShape(t, b, born);
    HalfBits(h, t.local[b], t.home[b]);
    Routes(u, h, b);
    Routes(u, h, born);
  }

  /** A bucket that the split test finds separable distinguishes fewer than 64 bits. */
  lemma SeparableIsShallow(s: seq<nat>, k: nat, home: nat)
    requires s != [] && |Highs(s, k)| != 1
    requires forall e | e in s :: e < HASH_LIMIT && Low(e, k) == home
    ensures k < HASH_BITS
  {
    OneHighMeansOneHash(s, k, home);
    if HASH_BITS <= k {
      forall i, j | 0 <= i < j < |s|
        ensures s[i] == s[j]
      {
        Pow2Monotone(HASH_BITS, k);
        assert s[i] in s && s[j] in s;
        HashBound(s[i]);
        HashBound(s[j]);
        LowFixed(s[i], k);
        LowFixed(s[j], k);
      }
    }
  }

  lemma SplitSound(t: Layout, buckets: map<nat, seq<nat>>, nextId: nat, b: nat)
    requires Sound(t, buckets, nextId) && b in t.local && t.local[b] < HASH_BITS
    ensures Sound(Grown(t, b, nextId), Divided(buckets, b, nextId, t.local[b]), nextId + 1)
  {
    GrownShape(t, b, nextId);
    SplitPlaced(t, buckets, b, nextId);
  }

  lemma GrownShape(t: Layout, b: nat, born: nat)
    requires Consistent(t) && Minimal(t) && b in t.local && born !in t.local
    ensures Consistent(Grown(t, b, born)) && Minimal(Grown(t, b, born))
  {
    var u := Grown(t, b, born);
    DoubledConsistent(t);
    SplitConsistent(if t.local[b] == t.g then Doubled(t) else t, b, born);
    var deepest :| deepest in t.local && t.local[deepest] == t.g;
    assert u.local[if t.local[b] == t.g then b else deepest] == u.g;
  }

  /** A number carries the shared bits of one half exactly when it carried those of the bucket
      and has the bit of that half. */
  lemma HalfBits(e: nat, k: nat, home: nat)
    requires home < Pow2(k)
    ensures Low(e, k + 1) == home <==> Low(e, k) == home && Bit(e, k) == 0
    ensures Low(e, k + 1) == home + Pow2(k) <==> Low(e, k) == home && Bit(e, k) == 1
  {
    LowStep(e, k);
    LowBound(e, k);
  }

  lemma SplitPlaced(t: Layout, buckets: map<nat, seq<nat>>, b: nat, born: nat)
    requires buckets.Keys == t.local.Keys == t.home.Keys
    requires Placed(t, buckets) && b in t.local && born !in t.local && t.home[b] < Pow2(t.local[b])
    ensures Placed(Grown(t, b, born), Divided(buckets, b, born, t.local[b]))
  {
    var k := t.local[b];
    PartMembers(buckets[b], k, 0);
    PartMembers(buckets[b], k, 1);
    forall e | e in buckets[b]
      ensures Low(e, k + 1) == t.home[b] + (if Bit(e, k) == 1 then Pow2(k) else 0)
    {
      HalfBits(e, k, t.home[b]);
    }
  }

  lemma SplitTracks(t: Layout, buckets: map<nat, seq<nat>>, b: nat, born: nat, contents: multiset<nat>)
    requires buckets.Keys == t.local.Keys == t.home.Keys
    requires Tracks(t, buckets, contents) && b in t.local && born !in t.local
    requires t.home[b] < Pow2(t.local[b])
    ensures Tracks(Grown(t, b, born), Divided(buckets, b, born, t.local[b]), contents)
  {
    var k := t.local[b];
    var u, after := Grown(t, b, born), Divided(buckets, b, born, k);
    forall x, h: nat | x in u.local && Low(h, u.local[x]) == u.home[x]
      ensures contents[h] == multiset(after[x])[h]
    {
      if x == b || x == born {
        HalfBits(h, k, t.home[b]);
        PartCount(buckets[b], k, h);
        assert contents[h] == multiset(buckets[b])[h];
      }
    }
  }

  /* ---------------------------------------------------------------- merging */

  /** The buckets after `b` takes over the entries of `other`. */
  function Joined(buckets: map<nat, seq<nat>>, b: nat, other: nat): map<nat, seq<nat>>
    requires b in buckets && other in buckets
  {
    buckets[b := buckets[b] + buckets[other]] - {other}
  }

  lemma MergePlaced(t: Layout, buckets: map<nat, seq<nat>>, b: nat, other: nat)
    requires Consistent(t) && Siblings(t, b, other) && buckets.Keys == t.local.Keys
    requires Placed(t, buckets)
    ensures Placed(Merge(t, b, other), Joined(buckets, b, other))
  {
    var k := t.local[b];
    forall e | e in buckets[b] + buckets[other]
      ensures Low(e, k - 1) == Low(t.home[b], k - 1)
    {
      LowOfLow(e, k - 1, k);
    }
  }

  lemma MergeSound(t: Layout, buckets: map<nat, seq<nat>>, nextId: nat, b: nat, other: nat)
    requires Sound(t, buckets, nextId) && Siblings(t, b, other)
    ensures Consistent(Merge(t, b, other))
    ensures Sound(Shrunk(Merge(t, b, other)), Joined(buckets, b, other), nextId)
  {
    MergeConsistent(t, b, other);
    MergePlaced(t, buckets, b, other);
    var m := Merge(t, b, other);
    var u := Shrunk(m);
    assert u.local == m.local && u.home == m.home;
  }

  lemma MergeTracks(t: Layout, buckets: map<nat, seq<nat>>, nextId: nat, b: nat, other: nat, contents: multiset<nat>)
    requires Sound(t, buckets, nextId) && Siblings(t, b, other) && Tracks(t, buckets, contents)
    ensures Tracks(Merge(t, b, other), Joined(buckets, b, other), contents)
  {
    var k := t.local[b] - 1;
    HomesDiffer(t, b, other);
    forall h: nat | Low(h, k) == Low(t.home[b], k)
      ensures contents[h] == multiset(buckets[b] + buckets[other])[h]
    {
      LastBitDecides(t.home[b], t.home[other], h, k);
      var mine := if Low(h, k + 1) == t.home[b] then b else other;
      var theirs := if Low(h, k + 1) == t.home[b] then other else b;
      assert contents[h] == multiset(buckets[mine])[h];
      assert h !in buckets[theirs];
    }
  }
}
