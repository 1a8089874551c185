/** Filtering and joining sequences whose order does not matter. */
module Bags {
  import opened Arithmetic

  function Filter<T>(s: seq<T>, p: T -> bool): seq<T> {
    if s == [] then []
    else Filter(s[..|s| - 1], p) + (if p(s[|s| - 1]) then [s[|s| - 1]] else [])
  }

  lemma {:induction false} FilterCount<T>(s: seq<T>, p: T -> bool, x: T)
    ensures multiset(Filter(s, p))[x] == if p(x) then multiset(s)[x] else 0
  {
    if s != [] {
      assert s == s[..|s| - 1] + [s[|s| - 1]];
      FilterCount(s[..|s| - 1], p, x);
    }
  }

  lemma FilterSameBag<T(!new)>(s: seq<T>, t: seq<T>, p: T -> bool)
    requires multiset(s) == multiset(t)
    ensures multiset(Filter(s, p)) == multiset(Filter(t, p))
  {
    forall x
      ensures multiset(Filter(s, p))[x] == multiset(Filter(t, p))[x]
    {
      FilterCount(s, p, x);
      FilterCount(t, p, x);
    }
  }

  /** A filter changes nothing exactly when everything passes it. */
  lemma FilterKeepsAllExactly<T(!new)>(s: seq<T>, p: T -> bool)
    ensures multiset(Filter(s, p)) == multiset(s) <==> forall x | x in s :: p(x)
  {
    forall x
      ensures multiset(Filter(s, p))[x] == if p(x) then multiset(s)[x] else 0
    {
      FilterCount(s, p, x);
    }
    if multiset(Filter(s, p)) == multiset(s) {
      forall x | x in s
        ensures p(x)
      {
        assert 0 < multiset(s)[x];
      }
    }
  }

  lemma {:induction false} FilterAppend<T>(s: seq<T>, t: seq<T>, p: T -> bool)
    ensures Filter(s + t, p) == Filter(s, p) + Filter(t, p)
  {
    if t == [] {
      assert s + t == s;
    } else {
      assert (s + t)[..|s + t| - 1] == s + t[..|t| - 1];
      FilterAppend(s, t[..|t| - 1], p);
    }
  }

  /** Two filters in a row keep what the second one keeps, if the first lets all of that through. */
  lemma {:induction false} FilterTwice<T>(s: seq<T>, p: T -> bool, q: T -> bool)
    requires forall x | x in s && q(x) :: p(x)
    ensures Filter(Filter(s, p), q) == Filter(s, q)
  {
    if s != [] {
      var init, last := s[..|s| - 1], s[|s| - 1];
      FilterTwice(init, p, q);
      FilterAppend(Filter(init, p), if p(last) then [last] else [], q);
      assert [last][..0] == [];
      assert Filter([last], q) == if q(last) then [last] else [];
    }
  }

  lemma {:induction false} FilterAgree<T>(s: seq<T>, p: T -> bool, q: T -> bool)
    requires forall x | x in s :: p(x) <==> q(x)
    ensures Filter(s, p) == Filter(s, q)
  {
    if s != [] {
      FilterAgree(s[..|s| - 1], p, q);
    }
  }

  /** Of two filters, the looser one keeps the same exactly when it passes nothing the other stops. */
  lemma LooserFilter<T(!new)>(s: seq<T>, p: T -> bool, q: T -> bool)
    requires forall x | x in s && q(x) :: p(x)
    ensures multiset(Filter(s, p)) == multiset(Filter(s, q)) <==> forall x | x in s && p(x) :: q(x)
  {
    if forall x | x in s && p(x) :: q(x) {
      FilterAgree(s, p, q);
    } else {
      var x :| x in s && p(x) && !q(x);
      FilterCount(s, p, x);
      FilterCount(s, q, x);
    }
  }

  lemma {:induction false} FilterAll<T>(s: seq<T>, p: T -> bool)
    requires forall x | x in s :: p(x)
    ensures Filter(s, p) == s
  {
    if s != [] {
      var init, last := s[..|s| - 1], s[|s| - 1];
      FilterAll(init, p);
      assert p(last) && s == init + [last];
    }
  }

  lemma {:induction false} FilterNone<T>(s: seq<T>, p: T -> bool)
    requires forall x | x in s :: !p(x)
    ensures Filter(s, p) == []
  {
    if s != [] {
      FilterNone(s[..|s| - 1], p);
    }
  }

  function FlatMap<T, U>(s: seq<T>, f: T -> seq<U>): seq<U> {
    if s == [] then [] else FlatMap(s[..|s| - 1], f) + f(s[|s| - 1])
  }

  lemma {:induction false} FlatMapAppend<T, U>(s: seq<T>, t: seq<T>, f: T -> seq<U>)
    ensures FlatMap(s + t, f) == FlatMap(s, f) + FlatMap(t, f)
  {
    if t == [] {
      assert s + t == s;
    } else {
      assert (s + t)[..|s + t| - 1] == s + t[..|t| - 1];
      FlatMapAppend(s, t[..|t| - 1], f);
    }
  }

  lemma FlatMapCountStep<T, U>(init: seq<T>, last: T, f: T -> seq<U>, x: T, u: U)
    ensures multiset(FlatMap(init + [last], f))[u] == multiset(FlatMap(init, f))[u] + multiset(f(last))[u]
    ensures multiset(init + [last])[x] == multiset(init)[x] + if last == x then 1 else 0
  {
  }

  /** If `u` is in what `x` expands to and nowhere else, it occurs there once for each time `x` does. */
  lemma {:induction false} FlatMapCount<T, U>(s: seq<T>, f: T -> seq<U>, x: T, u: U, times: nat)
    requires forall y | y in s :: multiset(f(y))[u] == if y == x then times else 0
    ensures multiset(FlatMap(s, f))[u] == Multiple(times, multiset(s)[x])
  {
    if s != [] {
      var init, last := s[..|s| - 1], s[|s| - 1];
      FlatMapCount(init, f, x, u, times);
      FlatMapCountStep(init, last, f, x, u);
      assert init + [last] == s;
    }
  }

  lemma BagWithout<T>(t: seq<T>, i: nat)
    requires i < |t|
    ensures multiset(t[..i] + t[i + 1..]) == multiset(t) - multiset{t[i]}
  {
    assert t == t[..i] + [t[i]] + t[i + 1..];
  }

  lemma BagOfMiddle<U>(a: seq<U>, b: seq<U>, c: seq<U>)
    ensures multiset(a + b + c) == multiset(a + c) + multiset(b)
  {
  }

  lemma FlatMapMiddle<T, U>(before: seq<T>, x: T, after: seq<T>, f: T -> seq<U>)
    ensures FlatMap(before + [x] + after, f) == FlatMap(before, f) + f(x) + FlatMap(after, f)
  {
    FlatMapAppend(before + [x], after, f);
    assert (before + [x])[..|before|] == before;
  }

  lemma FlatMapWithout<T, U>(before: seq<T>, x: T, after: seq<T>, f: T -> seq<U>)
    ensures multiset(FlatMap(before + [x] + after, f)) == multiset(FlatMap(before + after, f)) + multiset(f(x))
  {
    FlatMapMiddle(before, x, after, f);
    FlatMapAppend(before, after, f);
    BagOfMiddle(FlatMap(before, f), f(x), FlatMap(after, f));
  }

  lemma FlatMapRemove<T, U>(s: seq<T>, i: nat, f: T -> seq<U>)
    requires i < |s|
    ensures multiset(FlatMap(s, f)) == multiset(FlatMap(s[..i] + s[i + 1..], f)) + multiset(f(s[i]))
  {
    var before, x, after := s[..i], s[i], s[i + 1..];
    FlatMapWithout(before, x, after, f);
    Divided(s, i, before, x, after);
  }

  lemma Divided<T>(s: seq<T>, i: nat, before: seq<T>, x: T, after: seq<T>)
    requires i < |s| && before == s[..i] && x == s[i] && after == s[i + 1..]
    ensures s == before + [x] + after
  {
  }

  /** Expanding the same bag in another order, by functions that give the same bags, gives the
      same bag. */
  lemma {:induction false} FlatMapSameBag<T, U>(s: seq<T>, t: seq<T>, f: T -> seq<U>, g: T -> seq<U>)
    requires multiset(s) == multiset(t)
    requires forall x | x in s :: multiset(f(x)) == multiset(g(x))
    ensures multiset(FlatMap(s, f)) == multiset(FlatMap(t, g))
    decreases |s|
  {
    if s == [] {
      assert |multiset(t)| == 0;
    } else {
      var init, last := s[..|s| - 1], s[|s| - 1];
      assert last in multiset(t);
      var i :| 0 <= i < |t| && t[i] == last;
      FlatMapRemove(t, i, g);
      BagWithout(t, i);
      BagWithout(s, |s| - 1);
      assert init + s[|s|..] == init;
      FlatMapSameBag(init, t[..i] + t[i + 1..], f, g);
    }
  }
}
