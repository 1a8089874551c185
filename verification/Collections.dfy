/** Sequences without repetition, and how many elements sets have. */
module Collections {
  predicate Different<T(==)>(s: seq<T>) {
    forall i, j | 0 <= i < j < |s| :: s[i] != s[j]
  }

  function Elements<T>(s: seq<T>): set<T> {
    set x | x in s
  }

  lemma {:induction false} DifferentAreCounted<T>(s: seq<T>)
    requires Different(s)
    ensures |Elements(s)| == |s|
  {
    if s == [] {
      assert Elements(s) == {};
    } else {
      var last := |s| - 1;
      DifferentAreCounted(s[..last]);
      assert s == s[..last] + [s[last]];
      assert Elements(s) == Elements(s[..last]) + {s[last]};
    }
  }

  /** `found` names each member of `all` exactly once. */
  ghost predicate Lists<T(!new)>(found: seq<T>, all: set<T>) {
    Different(found) && forall x :: x in found <==> x in all
  }

  lemma ListedOnce<T(!new)>(found: seq<T>, all: set<T>)
    requires Lists(found, all)
    ensures |found| == |all|
  {
    DifferentAreCounted(found);
    assert Elements(found) == all;
  }

  lemma {:induction false} FewerIn<T>(a: set<T>, b: set<T>)
    requires a <= b
    ensures |a| <= |b|
  {
    if a != {} {
      var x :| x in a;
      FewerIn(a - {x}, b - {x});
    }
  }

  lemma SameSize<T>(a: set<T>, b: set<T>)
    requires a <= b && |b| <= |a|
    ensures a == b
  {
    if x :| x in b && x !in a {
      FewerIn(a, b - {x});
    }
  }

  function Below(n: nat): (numbers: set<nat>)
    ensures |numbers| == n && forall i: nat :: i in numbers <==> i < n
  {
    if n == 0 then {} else Below(n - 1) + {n - 1}
  }

  lemma FewDifferentBelow(s: seq<nat>, n: nat)
    requires Different(s) && forall k | 0 <= k < |s| :: s[k] < n
    ensures |s| <= n
  {
    DifferentAreCounted(s);
    FewerIn(Elements(s), Below(n));
  }

  /** The places of a sequence that hold one of these. */
  function MarkedPlaces<T(==)>(s: seq<T>, marked: set<T>): set<nat> {
    set i: nat | i < |s| && s[i] in marked
  }

  lemma OneMoreMarked<T>(front: seq<T>, last: T, marked: set<T>)
    requires last !in front
    ensures |Elements(front + [last]) * marked| == |Elements(front) * marked| + if last in marked then 1 else 0
  {
    var before := Elements(front) * marked;
    assert Elements(front + [last]) == Elements(front) + {last};
    assert Elements(front + [last]) * marked == if last in marked then before + {last} else before;
  }

  lemma OneMorePlace<T>(front: seq<T>, last: T, marked: set<T>)
    ensures |MarkedPlaces(front + [last], marked)| == |MarkedPlaces(front, marked)| + if last in marked then 1 else 0
  {
    var before := MarkedPlaces(front, marked);
    assert |front| !in before;
    assert MarkedPlaces(front + [last], marked) == if last in marked then before + {|front|} else before;
  }

  /** Of a sequence without repetition, as many elements are marked as places hold marked ones. */
  lemma {:induction false} MarkedAreCounted<T>(s: seq<T>, marked: set<T>)
    requires Different(s)
    ensures |Elements(s) * marked| == |MarkedPlaces(s, marked)|
  {
    if s == [] {
      assert Elements(s) * marked == {} && MarkedPlaces(s, marked) == {};
    } else {
      var front, last := s[..|s| - 1], s[|s| - 1];
      MarkedAreCounted(front, marked);
      OneMoreMarked(front, last, marked);
      OneMorePlace(front, last, marked);
      assert s == front + [last];
    }
  }
}
