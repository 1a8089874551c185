/** What the buckets of an extendible hash table hold: lists of hashes, split by one bit, joined,
    and counted. */
module HashBuckets {
  import opened Bits
  import opened Collections

  /** The entries of a bucket whose bit `k` has the given value, in their order. */
  function Part(s: seq<nat>, k: nat, bit: nat): seq<nat> {
    if s == [] then []
    else
      var rest := Part(s[..|s| - 1], k, bit);
      if Bit(s[|s| - 1], k) == bit then rest + [s[|s| - 1]] else rest
  }

  lemma {:induction false} PartMembers(s: seq<nat>, k: nat, bit: nat)
    ensures forall e | e in Part(s, k, bit) :: e in s && Bit(e, k) == bit
    ensures |Part(s, k, bit)| <= |s|
  {
    if s != [] {
      PartMembers(s[..|s| - 1], k, bit);
    }
  }

  /** Sharing out by a bit keeps every occurrence of the hashes with that bit. */
  lemma {:induction false} PartCount(s: seq<nat>, k: nat, h: nat)
    ensures multiset(Part(s, k, Bit(h, k)))[h] == multiset(s)[h]
  {
    if s != [] {
      assert s == s[..|s| - 1] + [s[|s| - 1]];
      PartCount(s[..|s| - 1], k, h);
    }
  }

  /** Removing the first occurrence, as a list does. */
  function RemoveFirst(s: seq<nat>, h: nat): seq<nat>
    requires h in s
  {
    if s[0] == h then s[1..] else [s[0]] + RemoveFirst(s[1..], h)
  }

  lemma {:induction false} RemoveFirstBag(s: seq<nat>, h: nat)
    requires h in s
    ensures multiset(RemoveFirst(s, h)) == multiset(s) - multiset{h}
    ensures |RemoveFirst(s, h)| == |s| - 1
    ensures forall e | e in RemoveFirst(s, h) :: e in s
  {
    assert s == [s[0]] + s[1..];
    if s[0] != h {
      RemoveFirstBag(s[1..], h);
    }
  }

  /** The set of high parts a bucket's entries show above bit `k`. */
  function Highs(s: seq<nat>, k: nat): set<nat> {
    set e | e in s :: High(e, k)
  }

  ghost predicate AllEqual(s: seq<nat>) {
    forall i, j | 0 <= i < j < |s| :: s[i] == s[j]
  }

  /** The split test: in a bucket whose entries share their low `k` bits, the set of high parts
      has one element exactly when the bucket is not empty and holds one hash only. */
  lemma OneHighMeansOneHash(s: seq<nat>, k: nat, home: nat)
    requires forall e | e in s :: Low(e, k) == home
    ensures |Highs(s, k)| == 1 <==> s != [] && AllEqual(s)
  {
    if |Highs(s, k)| == 1 {
      var only :| only in Highs(s, k);
      assert |Highs(s, k) - {only}| == 0;
      assert Highs(s, k) == {only};
      forall i, j | 0 <= i < j < |s|
        ensures s[i] == s[j]
      {
        assert High(s[i], k) in Highs(s, k) && High(s[j], k) in Highs(s, k);
        SameLowAndHigh(s[i], s[j], k);
      }
    }
    if s != [] && AllEqual(s) {
      assert forall e | e in s :: e == s[0];
      assert High(s[0], k) in Highs(s, k);
      assert Highs(s, k) == {High(s[0], k)};
    }
  }

  /* ---------------------------------------------------------------- repetitions */

  /** No bucket lists a hash twice. */
  ghost predicate NoRepeats(buckets: map<nat, seq<nat>>) {
    forall b | b in buckets :: Different(buckets[b])
  }

  lemma {:induction false} PartNoRepeat(s: seq<nat>, k: nat, bit: nat)
    requires Different(s)
    ensures Different(Part(s, k, bit))
  {
    if s != [] {
      PartNoRepeat(s[..|s| - 1], k, bit);
      PartMembers(s[..|s| - 1], k, bit);
    }
  }

  lemma {:induction false} RemoveFirstNoRepeat(s: seq<nat>, h: nat)
    requires h in s && Different(s)
    ensures Different(RemoveFirst(s, h))
  {
    if s[0] != h {
      RemoveFirstNoRepeat(s[1..], h);
      RemoveFirstBag(s[1..], h);
      var rest := RemoveFirst(s[1..], h);
      assert forall i | 0 <= i < |rest| :: rest[i] in rest && rest[i] in s[1..];
    }
  }

  lemma EqualAndDifferentIsShort(s: seq<nat>)
    requires AllEqual(s) && Different(s)
    ensures |s| <= 1
  {
    if s != [] {
      var first, last := s[0], s[|s| - 1];
    }
  }

  /* ---------------------------------------------------------------- all buckets together */

  /** The hashes held by the buckets numbered below `n`. */
  ghost function Bag(buckets: map<nat, seq<nat>>, n: nat): multiset<nat> {
    if n == 0 then multiset{}
    else Bag(buckets, n - 1) + (if n - 1 in buckets then multiset(buckets[n - 1]) else multiset{})
  }

  /** How often a hash is held, when at most one bucket may hold it. */
  lemma {:induction false} BagAt(buckets: map<nat, seq<nat>>, n: nat, b: nat, h: nat)
    requires b in buckets
    requires forall x | x in buckets && h in buckets[x] :: x == b
    ensures Bag(buckets, n)[h] == if b < n then multiset(buckets[b])[h] else 0
  {
    if 0 < n {
      BagAt(buckets, n - 1, b, h);
      if n - 1 in buckets && n - 1 != b {
        assert h !in buckets[n - 1];
      }
    }
  }
}
