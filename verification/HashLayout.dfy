/** The directory of an extendible hash table, apart from what its buckets hold.

    `dir[i]` is the bucket that serves the hashes whose low `g` bits are `i`; `local[b]` is how
    many low bits the hashes of bucket `b` share, and `home[b]` is the value of those bits. */
module HashLayout {
  import opened Bits

  datatype Layout = Layout(g: nat, dir: seq<nat>, local: map<nat, nat>, home: map<nat, nat>)

  /** A directory entry names bucket `b` exactly when its low `local[b]` bits are `home[b]`. */
  ghost predicate Consistent(t: Layout) {
    match t
    case Layout(g, dir, local, home) =>
      && |dir| == Pow2(g)
      && home.Keys == local.Keys
      && (forall i | 0 <= i < |dir| :: dir[i] in local)
      && (forall b | b in local :: local[b] <= g && home[b] < Pow2(local[b]))
      && (forall b, i {:trigger Low(i, local[b])} | b in local && 0 <= i < |dir| ::
            dir[i] == b <==> Low(i, local[b]) == home[b])
  }

  /** Two entries name the same bucket exactly when they agree on as many low bits as the bucket
      distinguishes. */
  lemma EntriesAgree(t: Layout, i: nat, j: nat)
    requires Consistent(t) && i < |t.dir| && j < |t.dir|
    ensures t.dir[i] == t.dir[j]
       <==> i % Pow2(t.local[t.dir[i]]) == j % Pow2(t.local[t.dir[i]])
  {
    var k := t.local[t.dir[i]];
    LowHighArithmetic(i, k);
    LowHighArithmetic(j, k);
    assert Low(i, k) == t.home[t.dir[i]];
  }

  /** The entry of `h` names the bucket whose shared bits are the low bits of `h`. */
  lemma Routes(t: Layout, h: nat, b: nat)
    requires Consistent(t) && b in t.local
    ensures Low(h, t.g) < |t.dir|
    ensures t.dir[Low(h, t.g)] == b <==> Low(h, t.local[b]) == t.home[b]
  {
    LowBound(h, t.g);
    LowOfLow(h, t.local[b], t.g);
    assert t.dir[Low(h, t.g)] == b <==> Low(Low(h, t.g), t.local[b]) == t.home[b];
  }

  /** No bucket is unreachable: the live buckets are exactly those the directory names. */
  lemma EveryBucketIsNamed(t: Layout)
    requires Consistent(t)
    ensures t.local.Keys == set i | 0 <= i < |t.dir| :: t.dir[i]
  {
    var named := set i | 0 <= i < |t.dir| :: t.dir[i];
    forall b | b in t.local
      ensures b in named
    {
      Pow2Monotone(t.local[b], t.g);
      LowFixed(t.home[b], t.local[b]);
      assert t.dir[t.home[b]] == b;
    }
  }

  /* ---------------------------------------------------------------- doubling */

  function Doubled(t: Layout): Layout {
    t.(g := t.g + 1, dir := t.dir + t.dir)
  }

  lemma DoubledConsistent(t: Layout)
    requires Consistent(t)
    ensures Consistent(Doubled(t))
  {
    var u := Doubled(t);
    forall b, i | b in u.local && 0 <= i < |u.dir|
      ensures u.dir[i] == b <==> Low(i, u.local[b]) == u.home[b]
    {
      if |t.dir| <= i {
        LowAddPow2(i - |t.dir|, t.local[b], t.g);
        assert t.dir[i - |t.dir|] == b <==> Low(i - |t.dir|, t.local[b]) == t.home[b];
      }
    }
  }

  /* ---------------------------------------------------------------- splitting */

  function Redirect(entry: nat, j: nat, k: nat, low: nat, b: nat, born: nat): nat {
    if Low(j, k) == low then (if Bit(j, k) == 1 then born else b) else entry
  }

  function Redirected(dir: seq<nat>, k: nat, low: nat, b: nat, born: nat): seq<nat> {
    seq(|dir|, j requires 0 <= j < |dir| => Redirect(dir[j], j, k, low, b, born))
  }

  function Split(t: Layout, b: nat, born: nat): Layout
    requires b in t.local && b in t.home
  {
    var k := t.local[b];
    Layout(
      t.g,
      Redirected(t.dir, k, t.home[b], b, born),
      t.local[b := k + 1][born := k + 1],
      t.home[born := t.home[b] + Pow2(k)])
  }

  /** Which bucket an entry names after the split, for a bucket of the split table. */
  lemma SplitEntry(t: Layout, b: nat, born: nat, x: nat, i: nat)
    requires Consistent(t) && b in t.local && born !in t.local && i < |t.dir|
    ensures var u := Split(t, b, born);
      |u.dir| == |t.dir| && (x in u.local ==> x in u.home && (u.dir[i] == x <==> Low(i, u.local[x]) == u.home[x]))
  {
    var k := t.local[b];
    LowStep(i, k);
    LowBound(i, k);
    assert t.dir[i] == b <==> Low(i, k) == t.home[b];
    if x in t.local && x != b {
      assert t.dir[i] == x <==> Low(i, t.local[x]) == t.home[x];
    }
  }

  lemma SplitConsistent(t: Layout, b: nat, born: nat)
    requires Consistent(t)
    requires b in t.local && born !in t.local && t.local[b] < t.g
    ensures Consistent(Split(t, b, born))
  {
    var u := Split(t, b, born);
    forall x, i | x in u.local && 0 <= i < |u.dir|
      ensures u.dir[i] == x <==> Low(i, u.local[x]) == u.home[x]
    {
      SplitEntry(t, b, born, x, i);
    }
  }

  /* ---------------------------------------------------------------- merging */

  /** Two buckets that share all but the highest of the bits they distinguish. */
  ghost predicate Siblings(t: Layout, b: nat, other: nat)
    requires Consistent(t)
  {
    && b in t.local && other in t.local && b != other
    && 0 < t.local[b] == t.local[other]
    && Low(t.home[b], t.local[b] - 1) == Low(t.home[other], t.local[b] - 1)
  }

  /** Flipping the highest distinguished bit of an entry always finds another bucket. */
  lemma FlippedEntry(t: Layout, i: nat, b: nat)
    requires Consistent(t) && i < |t.dir| && b == t.dir[i] && 0 < t.local[b]
    ensures var j := Flip(i, t.local[b] - 1);
      && j < |t.dir|
      && t.dir[j] != b
      && (t.local[t.dir[j]] == t.local[b] ==> Siblings(t, b, t.dir[j]))
  {
    var k := t.local[b] - 1;
    var j := Flip(i, k);
    FlipBound(i, k, t.g);
    FlipBits(i, k);
    assert Low(i, k + 1) == t.home[b];
    assert Low(j, k + 1) != t.home[b];
    var other := t.dir[j];
    if t.local[other] == k + 1 {
      assert Low(j, k + 1) == t.home[other];
      LowOfLow(i, k, k + 1);
      LowOfLow(j, k, k + 1);
    }
  }

  function Renamed(dir: seq<nat>, from: nat, to: nat): seq<nat> {
    seq(|dir|, j requires 0 <= j < |dir| => if dir[j] == from then to else dir[j])
  }

  function Merge(t: Layout, b: nat, other: nat): Layout
    requires b in t.local && b in t.home && 0 < t.local[b] && b != other
  {
    var k := t.local[b] - 1;
    Layout(
      t.g,
      Renamed(t.dir, other, b),
      t.local[b := k] - {other},
      t.home[b := Low(t.home[b], k)] - {other})
  }

  /** Of two numbers with the same low `k` bits and different low `k + 1`, every number with
      those low `k` bits agrees with one on `k + 1` bits. */
  lemma LastBitDecides(x: nat, y: nat, i: nat, k: nat)
    requires x < Pow2(k + 1) && y < Pow2(k + 1) && x != y
    requires Low(x, k) == Low(y, k)
    ensures Low(i, k) == Low(x, k) <==> (Low(i, k + 1) == x || Low(i, k + 1) == y)
  {
    LowFixed(x, k + 1);
    LowFixed(y, k + 1);
    LowStep(x, k);
    LowStep(y, k);
    LowStep(i, k);
    LowBound(i, k);
    LowBound(x, k);
  }

  lemma HomesDiffer(t: Layout, b: nat, other: nat)
    requires Consistent(t) && Siblings(t, b, other)
    ensures t.home[b] != t.home[other]
  {
    LowFixed(t.home[b], t.local[b]);
    Pow2Monotone(t.local[b], t.g);
    assert t.dir[t.home[b]] == b;
  }

  /** Which bucket an entry names after the merge, for a bucket of the merged table. */
  lemma MergeEntry(t: Layout, b: nat, other: nat, x: nat, i: nat)
    requires Consistent(t) && Siblings(t, b, other) && i < |t.dir| && x in t.local && x != other
    ensures var u := Merge(t, b, other);
      |u.dir| == |t.dir| && x in u.local && x in u.home && (u.dir[i] == x <==> Low(i, u.local[x]) == u.home[x])
  {
    var k := t.local[b] - 1;
    assert t.dir[i] == x <==> Low(i, t.local[x]) == t.home[x];
    if x == b {
      HomesDiffer(t, b, other);
      assert t.dir[i] == other <==> Low(i, t.local[other]) == t.home[other];
      LastBitDecides(t.home[b], t.home[other], i, k);
    }
  }

  lemma MergeConsistent(t: Layout, b: nat, other: nat)
    requires Consistent(t) && Siblings(t, b, other)
    ensures Consistent(Merge(t, b, other))
  {
    var k := t.local[b] - 1;
    var u := Merge(t, b, other);
    LowBound(t.home[b], k);
    forall x, i | x in u.local && 0 <= i < |u.dir|
      ensures u.dir[i] == x <==> Low(i, u.local[x]) == u.home[x]
    {
      MergeEntry(t, b, other, x, i);
    }
  }

  /* ---------------------------------------------------------------- halving */

  function Halved(t: Layout): Layout
    requires 0 < t.g && Pow2(t.g) == |t.dir|
  {
    t.(g := t.g - 1, dir := t.dir[..|t.dir| / 2])
  }

  lemma HalvedConsistent(t: Layout)
    requires Consistent(t) && 0 < t.g
    requires forall x | x in t.dir :: t.local[x] < t.g
    ensures Consistent(Halved(t))
  {
    EveryBucketIsNamed(t);
    forall b | b in t.local
      ensures t.local[b] < t.g
    {
      var i :| 0 <= i < |t.dir| && t.dir[i] == b;
    }
  }

  /** Some bucket distinguishes every bit the directory uses, so no smaller directory would do. */
  ghost predicate Minimal(t: Layout) {
    exists b :: b in t.local && t.local[b] == t.g
  }

  ghost predicate Shrinkable(t: Layout)
    requires Consistent(t)
  {
    0 < t.g && forall x | x in t.dir :: t.local[x] < t.g
  }

  /** The layout after halving the directory as often as possible. */
  ghost function Shrunk(t: Layout): (u: Layout)
    requires Consistent(t)
    ensures Consistent(u) && Minimal(u)
    ensures u.local == t.local && u.home == t.home && u.g <= t.g
    decreases t.g
  {
    if Shrinkable(t) then
      HalvedConsistent(t);
      Shrunk(Halved(t))
    else
      NotShrinkableIsMinimal(t);
      t
  }

  /** One turn of the shrinking loop leads to the same layout. */
  lemma ShrinkTurn(t: Layout)
    requires Consistent(t) && Shrinkable(t)
    ensures Consistent(Halved(t)) && Shrunk(Halved(t)) == Shrunk(t)
  {
    HalvedConsistent(t);
  }

  lemma NotShrinkableIsMinimal(t: Layout)
    requires Consistent(t) && !Shrinkable(t)
    ensures Minimal(t)
  {
    if t.g == 0 {
      assert t.dir[0] in t.local;
    } else {
      var x :| x in t.dir && t.g <= t.local[x];
      assert x in t.local;
    }
  }

  /* ---------------------------------------------------------------- counting entries */

  function Refs(dir: seq<nat>, b: nat): nat {
    if dir == [] then 0 else Refs(dir[..|dir| - 1], b) + (if dir[|dir| - 1] == b then 1 else 0)
  }

  lemma {:induction false} RefsAppend(d: seq<nat>, e: seq<nat>, b: nat)
    ensures Refs(d + e, b) == Refs(d, b) + Refs(e, b)
  {
    if e == [] {
      assert d + e == d;
    } else {
      assert (d + e)[..|d + e| - 1] == d + e[..|e| - 1];
      RefsAppend(d, e[..|e| - 1], b);
    }
  }

  lemma {:induction false} RefsNone(dir: seq<nat>, b: nat)
    requires b !in dir
    ensures Refs(dir, b) == 0
  {
    if dir != [] {
      RefsNone(dir[..|dir| - 1], b);
    }
  }

  lemma {:induction false} RefsOne(dir: seq<nat>, b: nat, at: nat)
    requires at < |dir|
    requires forall i | 0 <= i < |dir| :: dir[i] == b <==> i == at
    ensures Refs(dir, b) == 1
  {
    var prefix := dir[..|dir| - 1];
    if at == |prefix| {
      RefsNone(prefix, b);
    } else {
      RefsOne(prefix, b, at);
    }
  }

  /** A pattern of `k` low bits occurs `2^(g - k)` times below `2^g`. */
  lemma {:induction false} PatternCount(dir: seq<nat>, g: nat, b: nat, k: nat, home: nat)
    requires |dir| == Pow2(g) && k <= g && home < Pow2(k)
    requires forall i | 0 <= i < |dir| :: dir[i] == b <==> Low(i, k) == home
    ensures Refs(dir, b) == Pow2(g - k)
    decreases g
  {
    if k == g {
      WholePattern(dir, b, k, home);
    } else {
      var half := Pow2(g - 1);
      PatternInHalves(dir, g, b, k, home);
      PatternCount(dir[..half], g - 1, b, k, home);
      PatternCount(dir[half..], g - 1, b, k, home);
      CountInHalves(dir, half, b);
    }
  }

  lemma WholePattern(dir: seq<nat>, b: nat, k: nat, home: nat)
    requires |dir| == Pow2(k) && home < Pow2(k)
    requires forall i | 0 <= i < |dir| :: dir[i] == b <==> Low(i, k) == home
    ensures Refs(dir, b) == 1
  {
    forall i | 0 <= i < |dir|
      ensures dir[i] == b <==> i == home
    {
      LowFixed(i, k);
    }
    RefsOne(dir, b, home);
  }

  lemma CountInHalves(dir: seq<nat>, half: nat, b: nat)
    requires half <= |dir|
    ensures Refs(dir, b) == Refs(dir[..half], b) + Refs(dir[half..], b)
  {
    assert dir == dir[..half] + dir[half..];
    RefsAppend(dir[..half], dir[half..], b);
  }

  lemma PatternInHalves(dir: seq<nat>, g: nat, b: nat, k: nat, home: nat)
    requires |dir| == Pow2(g) && k < g && home < Pow2(k)
    requires forall i | 0 <= i < |dir| :: dir[i] == b <==> Low(i, k) == home
    ensures |dir| == 2 * Pow2(g - 1)
    ensures forall i | 0 <= i < Pow2(g - 1) :: dir[..Pow2(g - 1)][i] == b <==> Low(i, k) == home
    ensures forall i | 0 <= i < Pow2(g - 1) :: dir[Pow2(g - 1)..][i] == b <==> Low(i, k) == home
  {
    var half := Pow2(g - 1);
    forall i | 0 <= i < half
      ensures dir[half..][i] == b <==> Low(i, k) == home
    {
      LowAddPow2(i, k, g - 1);
      assert dir[half..][i] == dir[half + i];
    }
  }

  /** Each live bucket is named by exactly `2^(g - L)` directory entries. */
  lemma ReferencesPerBucket(t: Layout, b: nat)
    requires Consistent(t) && b in t.local
    ensures Refs(t.dir, b) == Pow2(t.g - t.local[b])
  {
    PatternCount(t.dir, t.g, b, t.local[b], t.home[b]);
  }

  function SumRefs(dir: seq<nat>, n: nat): nat {
    if n == 0 then 0 else SumRefs(dir, n - 1) + Refs(dir, n - 1)
  }

  lemma {:induction false} SumRefsStep(dir: seq<nat>, x: nat, n: nat)
    ensures SumRefs(dir + [x], n) == SumRefs(dir, n) + (if x < n then 1 else 0)
  {
    if 0 < n {
      SumRefsStep(dir, x, n - 1);
      RefsAppend(dir, [x], n - 1);
      assert [x][..0] == [];
    }
  }

  lemma {:induction false} SumRefsTotal(dir: seq<nat>, n: nat)
    requires forall i | 0 <= i < |dir| :: dir[i] < n
    ensures SumRefs(dir, n) == |dir|
  {
    if dir == [] {
      SumRefsOfEmpty(n);
    } else {
      var prefix, x := dir[..|dir| - 1], dir[|dir| - 1];
      assert dir == prefix + [x];
      SumRefsTotal(prefix, n);
      SumRefsStep(prefix, x, n);
    }
  }

  lemma {:induction false} SumRefsOfEmpty(n: nat)
    ensures SumRefs([], n) == 0
  {
    if 0 < n {
      SumRefsOfEmpty(n - 1);
    }
  }

  /** The share of the hash space each live bucket below `n` covers, in directory entries. */
  function Shares(g: nat, local: map<nat, nat>, n: nat): nat
    requires forall b | b in local :: local[b] <= g
  {
    if n == 0 then 0
    else Shares(g, local, n - 1) + (if n - 1 in local then Pow2(g - local[n - 1]) else 0)
  }

  lemma {:induction false} SharesAreRefs(t: Layout, n: nat)
    requires Consistent(t)
    ensures Shares(t.g, t.local, n) == SumRefs(t.dir, n)
  {
    if 0 < n {
      SharesAreRefs(t, n - 1);
      if n - 1 in t.local {
        ReferencesPerBucket(t, n - 1);
      } else {
        RefsNone(t.dir, n - 1);
      }
    }
  }

  /** The live buckets cover the hash space exactly once: `sum of 2^(g - L) == 2^g`. */
  lemma SharesCoverDirectory(t: Layout, n: nat)
    requires Consistent(t)
    requires forall b | b in t.local :: b < n
    ensures Shares(t.g, t.local, n) == Pow2(t.g)
  {
    SharesAreRefs(t, n);
    SumRefsTotal(t.dir, n);
  }
}
