/** How many relevant documents a ranking puts into its first places, averaged over the ways to break
    ties at the cut. */
module Relevance {
  import opened Arithmetic
  import opened Collections

  type Doc = nat

  datatype Scored = Scored(doc: Doc, score: real)

  /** Best scores first, every document once. */
  predicate Ranked(results: seq<Scored>) {
    && (forall i, j | 0 <= i < j < |results| :: results[j].score <= results[i].score)
    && (forall i, j | 0 <= i < j < |results| :: results[i].doc != results[j].doc)
  }

  function Docs(results: seq<Scored>): seq<Doc> {
    seq(|results|, i requires 0 <= i < |results| => results[i].doc)
  }

  /** Relevant documents among the first `k`. */
  function Hits(docs: seq<Doc>, relevant: set<Doc>, k: nat): nat {
    |Elements(docs[..Least(k, |docs|)]) * relevant|
  }

  /** The documents with a score above the cut, or at the cut. */
  function Above(results: seq<Scored>, cut: real): seq<Doc> {
    if results == [] then []
    else Above(results[..|results| - 1], cut)
         + if cut < results[|results| - 1].score then [results[|results| - 1].doc] else []
  }

  function Tied(results: seq<Scored>, cut: real): seq<Doc> {
    if results == [] then []
    else Tied(results[..|results| - 1], cut)
         + if results[|results| - 1].score == cut then [results[|results| - 1].doc] else []
  }

  /** The hits that some places drawn by lot among tied documents can expect: each adds the share of
      hits among these. */
  function Shared(places: nat, hits: nat, tied: nat): real
    requires tied != 0
  {
    if places == 0 then 0.0 else Shared(places - 1, hits, tied) + hits as real / tied as real
  }

  /** That is the number of places times the hits, over the number of tied documents. */
  lemma {:induction false} SharedIsQuotient(places: nat, hits: nat, tied: nat)
    requires tied != 0
    ensures Shared(places, hits, tied) == (places * hits) as real / tied as real
  {
    if places == 0 {
      assert places * hits == 0;
    } else {
      SharedIsQuotient(places - 1, hits, tied);
      OneMoreShare(places - 1, hits, tied);
    }
  }

  lemma OneMoreShare(places: nat, hits: nat, tied: nat)
    requires tied != 0
    ensures ((places + 1) * hits) as real / tied as real == (places * hits) as real / tied as real + hits as real / tied as real
  {
  }

  /** The expected number of hits among the first `k`, if the places at the cut are drawn by lot. */
  function Expected(results: seq<Scored>, relevant: set<Doc>, k: nat): real
    requires Ranked(results) && 1 <= k
  {
    if |results| <= k then Hits(Docs(results), relevant, k) as real
    else
      var cut := results[k - 1].score;
      var above, tied := Above(results, cut), Tied(results, cut);
      CutIsReached(results, k);
      AtCut(k, |above|, |Elements(above) * relevant|, |tied|, |Elements(tied) * relevant|)
  }

  /** All the hits above the cut, and the share of those at the cut for the places that are left. */
  function AtCut(k: nat, above: nat, hitsAbove: nat, tied: nat, hitsTied: nat): real
    requires above <= k && tied != 0
  {
    hitsAbove as real + Shared(k - above, hitsTied, tied)
  }

  /* ---------------------------------------------------------------- a ranking and its cut */

  /** The first `above` documents are above the cut, and the next `tied` at the cut. */
  predicate CutAt(results: seq<Scored>, cut: real, above: nat, tied: nat) {
    && above + tied <= |results|
    && (forall i | 0 <= i < |results| :: (i < above <==> cut < results[i].score))
    && (forall i | 0 <= i < |results| :: (above <= i < above + tied <==> results[i].score == cut))
  }

  lemma {:induction false} RankedIsCut(results: seq<Scored>, cut: real) returns (above: nat, tied: nat)
    requires Ranked(results)
    ensures CutAt(results, cut, above, tied)
  {
    above, tied := 0, 0;
    while above < |results| && cut < results[above].score
      invariant above <= |results| && forall i | 0 <= i < above :: cut < results[i].score
    {
      above := above + 1;
    }
    while above + tied < |results| && results[above + tied].score == cut
      invariant above + tied <= |results| && forall i | above <= i < above + tied :: results[i].score == cut
    {
      tied := tied + 1;
    }
  }

  lemma DocsAppend(results: seq<Scored>, from: nat, last: nat)
    requires from <= last < |results|
    ensures Docs(results[from..last + 1]) == Docs(results[from..last]) + [results[last].doc]
  {
  }

  lemma {:induction false} AboveIsFirst(results: seq<Scored>, cut: real, above: nat)
    requires above <= |results| && forall i | 0 <= i < |results| :: i < above <==> cut < results[i].score
    ensures Above(results, cut) == Docs(results[..above])
  {
    if results != [] {
      var last := |results| - 1;
      if above <= last {
        AboveIsFirst(results[..last], cut, above);
        assert results[..last][..above] == results[..above];
      } else {
        AboveIsFirst(results[..last], cut, last);
        assert results[..last][..last] == results[0..last] && results[..above] == results[0..last + 1];
        DocsAppend(results, 0, last);
      }
    }
  }

  lemma {:induction false} TiedIsNext(results: seq<Scored>, cut: real, from: nat, to: nat)
    requires from <= to <= |results| && forall i | 0 <= i < |results| :: from <= i < to <==> results[i].score == cut
    ensures Tied(results, cut) == Docs(results[from..to])
  {
    if from == to {
      NothingTied(results, cut);
    } else {
      var last := |results| - 1;
      if to <= last {
        TiedIsNext(results[..last], cut, from, to);
        assert results[..last][from..to] == results[from..to];
      } else {
        TiedIsNext(results[..last], cut, from, last);
        assert results[..last][from..last] == results[from..last];
        DocsAppend(results, from, last);
      }
    }
  }

  lemma {:induction false} NothingTied(results: seq<Scored>, cut: real)
    requires forall i | 0 <= i < |results| :: results[i].score != cut
    ensures Tied(results, cut) == []
  {
    if results != [] {
      NothingTied(results[..|results| - 1], cut);
    }
  }

  /** At the cut there are places left, and documents to take them. */
  lemma CutIsReached(results: seq<Scored>, k: nat)
    requires Ranked(results) && 1 <= k < |results|
    ensures |Above(results, results[k - 1].score)| < k && Tied(results, results[k - 1].score) != []
  {
    var cut := results[k - 1].score;
    var above, tied := RankedIsCut(results, cut);
    AboveIsFirst(results, cut, above);
    TiedIsNext(results, cut, above, above + tied);
  }

  /** The relevant documents in a stretch of a ranking. */
  function HitsIn(results: seq<Scored>, from: nat, to: nat, relevant: set<Doc>): nat
    requires from <= to <= |results|
  {
    |Elements(Docs(results[from..to])) * relevant|
  }

  lemma HitsAreThose(results: seq<Scored>, cut: real, above: nat, tied: nat, end: nat, relevant: set<Doc>)
    requires Ranked(results) && CutAt(results, cut, above, tied) && end == above + tied
    ensures |Above(results, cut)| == above && |Elements(Above(results, cut)) * relevant| == HitsIn(results, 0, above, relevant)
    ensures |Tied(results, cut)| == tied
    ensures |Elements(Tied(results, cut)) * relevant| == HitsIn(results, above, end, relevant)
  {
    AboveIsFirst(results, cut, above);
    TiedIsNext(results, cut, above, end);
    assert results[..above] == results[0..above];
  }

  /** The expected hits, read off where the ranking is cut. */
  lemma ExpectedByCut(results: seq<Scored>, relevant: set<Doc>, k: nat, above: nat, tied: nat, end: nat)
    requires Ranked(results) && 1 <= k < |results| && CutAt(results, results[k - 1].score, above, tied) && end == above + tied
    ensures above < k <= end
    ensures Expected(results, relevant, k)
         == AtCut(k, above, HitsIn(results, 0, above, relevant), tied, HitsIn(results, above, end, relevant))
  {
    var cut := results[k - 1].score;
    HitsAreThose(results, cut, above, tied, end, relevant);
    CutIsReached(results, k);
  }

  lemma InDocs(results: seq<Scored>, from: nat, to: nat, d: Doc)
    requires from <= to <= |results|
    ensures d in Elements(Docs(results[from..to])) <==> exists i :: from <= i < to && results[i].doc == d
  {
    var part := Docs(results[from..to]);
    if d in Elements(part) {
      var j :| 0 <= j < |part| && part[j] == d;
      assert results[from + j].doc == d;
    }
    if i :| from <= i < to && results[i].doc == d {
      assert part[i - from] == d;
    }
  }

  lemma SumOfParts<T>(whole: set<T>, a: set<T>, b: set<T>, marked: set<T>)
    requires whole == a + b && a !! b
    ensures |whole * marked| == |a * marked| + |b * marked|
  {
    assert whole * marked == a * marked + b * marked;
  }

  lemma HitsJoin(results: seq<Scored>, from: nat, middle: nat, to: nat, relevant: set<Doc>)
    requires Ranked(results) && from <= middle <= to <= |results|
    ensures HitsIn(results, from, to, relevant) == HitsIn(results, from, middle, relevant) + HitsIn(results, middle, to, relevant)
  {
    var whole, a, b := Elements(Docs(results[from..to])), Elements(Docs(results[from..middle])), Elements(Docs(results[middle..to]));
    forall d
      ensures d in whole <==> d in a || d in b
      ensures !(d in a && d in b)
    {
      InDocs(results, from, to, d);
      InDocs(results, from, middle, d);
      InDocs(results, middle, to, d);
    }
    SumOfParts(whole, a, b, relevant);
  }

  /* ---------------------------------------------------------------- cutting a ranking short */

  /** `top` is the first `k` results and those that tie with the last of them. */
  ghost predicate CutShort(results: seq<Scored>, k: nat, top: seq<Scored>)
    requires 1 <= k
  {
    && top <= results && Least(k, |results|) <= |top|
    && (forall i | k <= i < |top| :: results[i].score == results[k - 1].score)
    && (k < |results| ==> |top| == |results| || results[|top|].score != results[k - 1].score)
  }

  method Shorten(results: seq<Scored>, k: nat) returns (top: seq<Scored>)
    requires 1 <= k
    ensures CutShort(results, k, top)
  {
    if |results| <= k {
      return results;
    }
    var cut := results[k - 1].score;
    var end := k;
    while end < |results| && results[end].score == cut
      invariant k <= end <= |results| && forall i | k <= i < end :: results[i].score == cut
    {
      end := end + 1;
    }
    return results[..end];
  }

  lemma WholeTieIsCounted(h: nat, tied: nat)
    requires 0 < tied
    ensures Shared(tied, h, tied) == h as real
  {
    SharedIsQuotient(tied, h, tied);
    assert (tied * h) as real == tied as real * h as real;
  }

  /** If the cut falls between two ties, the places at the cut go to all documents there. */
  lemma CleanCut(results: seq<Scored>, relevant: set<Doc>, k: nat, above: nat, tied: nat)
    requires Ranked(results) && 1 <= k < |results| && CutAt(results, results[k - 1].score, above, tied) && above + tied == k
    ensures Expected(results, relevant, k) == HitsIn(results, 0, k, relevant) as real
  {
    ExpectedByCut(results, relevant, k, above, tied, k);
    HitsJoin(results, 0, above, k, relevant);
    WholeTieIsCounted(HitsIn(results, above, k, relevant), tied);
  }

  lemma FirstAreAll(top: seq<Scored>, relevant: set<Doc>, k: nat)
    requires Ranked(top) && 1 <= k == |top|
    ensures Expected(top, relevant, k) == HitsIn(top, 0, k, relevant) as real
  {
    assert top[0..k] == top && Docs(top)[..k] == Docs(top);
  }

  lemma SameCutInPrefix(results: seq<Scored>, top: seq<Scored>, relevant: set<Doc>, k: nat, above: nat, tied: nat)
    requires Ranked(results) && 1 <= k < |top| && top <= results
    requires CutAt(results, results[k - 1].score, above, tied) && |top| == above + tied
    ensures Ranked(top) && Expected(top, relevant, k) == Expected(results, relevant, k)
  {
    ExpectedByCut(results, relevant, k, above, tied, |top|);
    PrefixIsCut(results, top, results[k - 1].score, above, tied);
    if k < |top| {
      ExpectedByCut(top, relevant, k, above, tied, |top|);
    }
    HitsInPrefix(results, top, 0, above, relevant);
    HitsInPrefix(results, top, above, |top|, relevant);
  }

  lemma PrefixIsCut(results: seq<Scored>, top: seq<Scored>, cut: real, above: nat, tied: nat)
    requires CutAt(results, cut, above, tied) && top <= results && |top| == above + tied
    ensures CutAt(top, cut, above, tied)
    ensures Ranked(results) ==> Ranked(top)
  {
  }

  lemma HitsInPrefix(results: seq<Scored>, top: seq<Scored>, from: nat, to: nat, relevant: set<Doc>)
    requires top <= results && from <= to <= |top|
    ensures HitsIn(top, from, to, relevant) == HitsIn(results, from, to, relevant)
  {
    assert top[from..to] == results[from..to];
  }

  lemma ShortListEnds(results: seq<Scored>, top: seq<Scored>, k: nat, above: nat, tied: nat)
    requires Ranked(results) && 1 <= k < |results| && CutShort(results, k, top)
    requires CutAt(results, results[k - 1].score, above, tied)
    ensures |top| == above + tied
  {
    var i := Least(|top|, above + tied);
    assert i < |results| ==> (i < above + tied <==> results[i].score == results[k - 1].score);
  }

  /** The short list gives the same expected hits as the whole ranking. */
  lemma ShortListSuffices(results: seq<Scored>, top: seq<Scored>, relevant: set<Doc>, k: nat)
    requires Ranked(results) && 1 <= k && CutShort(results, k, top)
    ensures Ranked(top) && Expected(top, relevant, k) == Expected(results, relevant, k)
  {
    if |results| <= k {
      assert top == results;
    } else {
      var above, tied := RankedIsCut(results, results[k - 1].score);
      ShortListEnds(results, top, k, above, tied);
      if k < |top| {
        SameCutInPrefix(results, top, relevant, k, above, tied);
      } else {
        CleanCut(results, relevant, k, above, tied);
        FirstAreAll(top, relevant, k);
        assert top[0..k] == results[0..k];
      }
    }
  }

  /* ---------------------------------------------------------------- the order inside ties */

  lemma DocsAreCounted(results: seq<Scored>, from: nat, to: nat)
    requires Ranked(results) && from <= to <= |results|
    ensures |Elements(Docs(results[from..to]))| == to - from
  {
    DifferentAreCounted(Docs(results[from..to]));
  }

  /** The documents above the cut are the same in any order of the results, and so are those at it. */
  lemma SameCut(p: seq<Scored>, q: seq<Scored>, cut: real, above: nat, tied: nat, end: nat, aboveQ: nat, tiedQ: nat, endQ: nat)
    requires Ranked(p) && Ranked(q) && (forall s :: s in p <==> s in q) && end == above + tied && endQ == aboveQ + tiedQ
    requires CutAt(p, cut, above, tied) && CutAt(q, cut, aboveQ, tiedQ)
    ensures Elements(Docs(p[0..above])) == Elements(Docs(q[0..aboveQ])) && above == aboveQ
    ensures Elements(Docs(p[above..end])) == Elements(Docs(q[aboveQ..endQ])) && end == endQ
  {
    CutIsOneWay(p, q, cut, above, tied, end, aboveQ, tiedQ, endQ);
    CutIsOneWay(q, p, cut, aboveQ, tiedQ, endQ, above, tied, end);
    DocsAreCounted(p, 0, above);
    DocsAreCounted(q, 0, aboveQ);
    DocsAreCounted(p, above, end);
    DocsAreCounted(q, aboveQ, endQ);
  }

  lemma CutIsOneWay(p: seq<Scored>, q: seq<Scored>, cut: real, above: nat, tied: nat, end: nat, aboveQ: nat, tiedQ: nat, endQ: nat)
    requires (forall s :: s in p ==> s in q) && end == above + tied && endQ == aboveQ + tiedQ
    requires CutAt(p, cut, above, tied) && CutAt(q, cut, aboveQ, tiedQ)
    ensures Elements(Docs(p[0..above])) <= Elements(Docs(q[0..aboveQ]))
    ensures Elements(Docs(p[above..end])) <= Elements(Docs(q[aboveQ..endQ]))
  {
    forall d | d in Elements(Docs(p[0..above]))
      ensures d in Elements(Docs(q[0..aboveQ]))
    {
      InDocs(p, 0, above, d);
      var i :| 0 <= i < above && p[i].doc == d;
      assert p[i] in p && p[i] in q;
      var j :| 0 <= j < |q| && q[j] == p[i];
      InDocs(q, 0, aboveQ, d);
    }
    forall d | d in Elements(Docs(p[above..end]))
      ensures d in Elements(Docs(q[aboveQ..endQ]))
    {
      InDocs(p, above, end, d);
      var i :| above <= i < end && p[i].doc == d;
      assert p[i] in p && p[i] in q;
      var j :| 0 <= j < |q| && q[j] == p[i];
      InDocs(q, aboveQ, endQ, d);
    }
  }

  /** Two rankings of the same results, which can differ only inside ties, give the same expected hits. */
  lemma OrderInsideTiesDoesNotMatter(p: seq<Scored>, q: seq<Scored>, relevant: set<Doc>, k: nat)
    requires Ranked(p) && Ranked(q) && 1 <= k && |p| == |q| && forall s :: s in p <==> s in q
    ensures Expected(p, relevant, k) == Expected(q, relevant, k)
  {
    if |p| <= k {
      AllDocs(p, q);
      assert Docs(p)[..|p|] == Docs(p) && Docs(q)[..|q|] == Docs(q);
    } else {
      var cut := p[k - 1].score;
      var above, tied := RankedIsCut(p, cut);
      var aboveQ, tiedQ := RankedIsCut(q, cut);
      var end, endQ := above + tied, aboveQ + tiedQ;
      SameCut(p, q, cut, above, tied, end, aboveQ, tiedQ, endQ);
      assert q[k - 1].score == cut;
      SameExpectation(p, q, relevant, k, above, tied, end, aboveQ, tiedQ, endQ);
    }
  }

  lemma SameExpectation(p: seq<Scored>, q: seq<Scored>, relevant: set<Doc>, k: nat, above: nat, tied: nat, end: nat,
                        aboveQ: nat, tiedQ: nat, endQ: nat)
    requires Ranked(p) && Ranked(q) && 1 <= k < |p| && k < |q|
    requires CutAt(p, p[k - 1].score, above, tied) && end == above + tied
    requires CutAt(q, q[k - 1].score, aboveQ, tiedQ) && endQ == aboveQ + tiedQ
    requires above == aboveQ && tied == tiedQ
    requires Elements(Docs(p[0..above])) == Elements(Docs(q[0..aboveQ]))
    requires Elements(Docs(p[above..end])) == Elements(Docs(q[aboveQ..endQ]))
    ensures Expected(p, relevant, k) == Expected(q, relevant, k)
  {
    SameHits(p, q, 0, above, 0, aboveQ, relevant);
    SameHits(p, q, above, end, aboveQ, endQ, relevant);
    ExpectedByCut(p, relevant, k, above, tied, end);
    ExpectedByCut(q, relevant, k, aboveQ, tiedQ, endQ);
  }

  lemma SameHits(p: seq<Scored>, q: seq<Scored>, from: nat, to: nat, fromQ: nat, toQ: nat, relevant: set<Doc>)
    requires from <= to <= |p| && fromQ <= toQ <= |q| && Elements(Docs(p[from..to])) == Elements(Docs(q[fromQ..toQ]))
    ensures HitsIn(p, from, to, relevant) == HitsIn(q, fromQ, toQ, relevant)
  {
  }

  lemma AllDocs(p: seq<Scored>, q: seq<Scored>)
    requires forall s :: s in p <==> s in q
    ensures Elements(Docs(p)) == Elements(Docs(q))
  {
    forall d
      ensures d in Elements(Docs(p)) <==> d in Elements(Docs(q))
    {
      InDocs(p, 0, |p|, d);
      InDocs(q, 0, |q|, d);
      assert p[0..|p|] == p && q[0..|q|] == q;
      if i :| 0 <= i < |p| && p[i].doc == d {
        assert p[i] in p && p[i] in q;
        var j :| 0 <= j < |q| && q[j] == p[i];
      }
      if i :| 0 <= i < |q| && q[i].doc == d {
        assert q[i] in q && q[i] in p;
        var j :| 0 <= j < |p| && p[j] == q[i];
      }
    }
  }

  /* ---------------------------------------------------------------- choosing among documents */

  function Adding(sets: seq<set<Doc>>, d: Doc): (more: seq<set<Doc>>)
    ensures |more| == |sets|
  {
    seq(|sets|, i requires 0 <= i < |sets| => sets[i] + {d})
  }

  lemma InAdding(sets: seq<set<Doc>>, d: Doc, c: set<Doc>)
    requires NoneHas(sets, d)
    ensures c in Adding(sets, d) <==> d in c && c - {d} in sets
  {
    if c in Adding(sets, d) {
      var i :| 0 <= i < |sets| && Adding(sets, d)[i] == c;
      assert sets[i] in sets && c - {d} == sets[i];
    }
    if d in c && c - {d} in sets {
      var i :| 0 <= i < |sets| && sets[i] == c - {d};
      assert Adding(sets, d)[i] == c;
    }
  }

  function FirstDocs(docs: seq<Doc>, n: nat): set<Doc>
    requires n <= |docs|
  {
    if n == 0 then {} else FirstDocs(docs, n - 1) + {docs[n - 1]}
  }

  lemma {:induction false} InFirstDocs(docs: seq<Doc>, n: nat, d: Doc)
    requires n <= |docs|
    ensures d in FirstDocs(docs, n) <==> exists i :: 0 <= i < n && docs[i] == d
  {
    if n != 0 {
      InFirstDocs(docs, n - 1, d);
    }
  }

  /** A set of some size holds a given element or it does not. */
  lemma WithOrWithout(fewer: set<Doc>, d: Doc, c: set<Doc>, size: nat)
    requires d !in fewer && 0 < size
    ensures c <= fewer + {d} && |c| == size <==>
              (c <= fewer && |c| == size) || (d in c && c - {d} <= fewer && |c - {d}| == size - 1)
  {
  }

  predicate NoneHas(sets: seq<set<Doc>>, d: Doc) {
    forall c | c in sets :: d !in c
  }

  lemma LastIsNew(docs: seq<Doc>, n: nat)
    requires Different(docs) && 0 < n <= |docs|
    ensures docs[n - 1] !in FirstDocs(docs, n - 1)
  {
    InFirstDocs(docs, n - 1, docs[n - 1]);
  }

  /** The list names every way to choose `p` of the documents, each once. */
  ghost predicate ListsChoices(ways: seq<set<Doc>>, docs: set<Doc>, p: nat) {
    Different(ways) && forall c :: c in ways <==> c <= docs && |c| == p
  }

  lemma OneMoreDoc(without: seq<set<Doc>>, before: seq<set<Doc>>, fewer: set<Doc>, d: Doc, p: nat)
    requires 0 < p && d !in fewer && ListsChoices(without, fewer, p) && ListsChoices(before, fewer, p - 1)
    ensures ListsChoices(without + Adding(before, d), fewer + {d}, p)
  {
    forall c
      ensures c in without + Adding(before, d) <==> c <= fewer + {d} && |c| == p
    {
      InAdding(before, d, c);
      WithOrWithout(fewer, d, c, p);
    }
    JoinAddingDifferent(without, before, d);
  }

  lemma JoinAddingDifferent(without: seq<set<Doc>>, before: seq<set<Doc>>, d: Doc)
    requires Different(without) && Different(before)
    requires NoneHas(without, d) && NoneHas(before, d)
    ensures Different(without + Adding(before, d))
  {
  }

  function Binomial(n: nat, p: nat): nat {
    if p == 0 then 1 else if n == 0 then 0 else Binomial(n - 1, p) + Binomial(n - 1, p - 1)
  }

  lemma {:induction false} BinomialIsPositive(n: nat, p: nat)
    requires p <= n
    ensures 0 < Binomial(n, p)
  {
    if p != 0 {
      BinomialIsPositive(n - 1, p - 1);
    }
  }

  lemma AbsorptionStep(n: nat, p: nat, with: nat, without: nat, x: nat, y: nat)
    requires 0 < n && 0 < p && with == x + y
    requires (n - 1) * x == p * without && (n - 1) * y == (p - 1) * with
    ensures n * with == p * (with + without)
  {
  }

  /** Choosing one document first and then the others, or the others first, comes to the same. */
  lemma {:induction false} Absorption(n: nat, p: nat)
    requires 0 < n && 0 < p
    ensures n * Binomial(n - 1, p - 1) == p * Binomial(n, p)
  {
    if n == 1 {
      OneOrNone(p);
    } else {
      Absorption(n - 1, p);
      if p != 1 {
        Absorption(n - 1, p - 1);
      }
      AbsorptionStep(n, p, Binomial(n - 1, p - 1), Binomial(n - 1, p), Binomial(n - 2, p - 1), if p == 1 then 0 else Binomial(n - 2, p - 2));
    }
  }

  lemma OneOrNone(p: nat)
    requires 0 < p
    ensures 1 * Binomial(0, p - 1) == p * Binomial(1, p)
  {
  }

  /* ---------------------------------------------------------------- the hits of all choices */

  /** A way to count the relevant ones among some documents. */
  type Counting = set<Doc> -> nat

  function CountOf(relevant: set<Doc>): Counting {
    docs => |docs * relevant|
  }

  /** Each document adds to the count exactly when it is relevant. */
  ghost predicate Counts(count: Counting, relevant: set<Doc>) {
    && count({}) == 0
    && forall docs, d | d !in docs :: count(docs + {d}) == count(docs) + if d in relevant then 1 else 0
  }

  lemma CountOfCounts(relevant: set<Doc>)
    ensures Counts(CountOf(relevant), relevant)
  {
    assert {} * relevant == {};
    forall docs: set<Doc>, d: Doc | d !in docs
      ensures |(docs + {d}) * relevant| == |docs * relevant| + if d in relevant then 1 else 0
    {
      SumOfParts(docs + {d}, docs, {d}, relevant);
      assert {d} * relevant == if d in relevant then {d} else {};
    }
  }

  /** The counts of the first `n` choices, added up. */
  function AllHits(sets: seq<set<Doc>>, n: nat, count: Counting): nat
    requires n <= |sets|
  {
    if n == 0 then 0 else AllHits(sets, n - 1, count) + count(sets[n - 1])
  }

  lemma {:induction false} AllHitsJoin(a: seq<set<Doc>>, b: seq<set<Doc>>, n: nat, count: Counting)
    requires n <= |b|
    ensures AllHits(a + b, |a| + n, count) == AllHits(a, |a|, count) + AllHits(b, n, count)
  {
    if n == 0 {
      AllHitsPrefix(a, b, |a|, count);
    } else {
      AllHitsJoin(a, b, n - 1, count);
    }
  }

  lemma {:induction false} AllHitsPrefix(a: seq<set<Doc>>, b: seq<set<Doc>>, n: nat, count: Counting)
    requires n <= |a|
    ensures AllHits(a + b, n, count) == AllHits(a, n, count)
  {
    if n != 0 {
      AllHitsPrefix(a, b, n - 1, count);
    }
  }

  lemma {:induction false} AllHitsAdding(sets: seq<set<Doc>>, d: Doc, n: nat, count: Counting, relevant: set<Doc>)
    requires n <= |sets| && NoneHas(sets, d) && Counts(count, relevant)
    ensures AllHits(Adding(sets, d), n, count) == AllHits(sets, n, count) + if d in relevant then n else 0
  {
    if n != 0 {
      assert sets[n - 1] in sets;
      AllHitsAdding(sets, d, n - 1, count, relevant);
    }
  }

  /** The hits of all choices of `p` among `n` documents, `h` of them relevant. */
  function HitsOf(h: nat, n: nat, p: nat): nat {
    if n == 0 || p == 0 then 0 else Multiple(h, Binomial(n - 1, p - 1))
  }

  lemma {:induction false} Distribute(h: nat, a: nat, b: nat)
    ensures Multiple(h, a) + Multiple(h, b) == Multiple(h, a + b)
  {
    if b != 0 {
      Distribute(h, a, b - 1);
    }
  }

  lemma {:induction false} OneMoreTimes(h: nat, b: nat)
    ensures Multiple(h + 1, b) == Multiple(h, b) + b && Multiple(0, b) == 0
  {
    if b != 0 {
      OneMoreTimes(h, b - 1);
    }
  }

  lemma PascalHits(h: nat, n: nat, p: nat, more: bool)
    requires 0 < p && 0 < n && (n == 1 ==> h == 0)
    ensures HitsOf(h, n - 1, p) + HitsOf(h, n - 1, p - 1) + (if more then Binomial(n - 1, p - 1) else 0)
         == HitsOf(h + if more then 1 else 0, n, p)
  {
    OneMoreTimes(h, Binomial(n - 1, p - 1));
    if n != 1 && p != 1 {
      Distribute(h, Binomial(n - 2, p - 1), Binomial(n - 2, p - 2));
    }
  }

  lemma HitsWithLast(without: seq<set<Doc>>, before: seq<set<Doc>>, d: Doc, count: Counting, relevant: set<Doc>)
    requires NoneHas(before, d) && Counts(count, relevant)
    ensures var all := without + Adding(before, d);
      AllHits(all, |all|, count)
      == AllHits(without, |without|, count) + AllHits(before, |before|, count) + if d in relevant then |before| else 0
  {
    AllHitsJoin(without, Adding(before, d), |before|, count);
    AllHitsAdding(before, d, |before|, count, relevant);
  }

  /** As many choices as Pascal's triangle says, and as many hits: among all choices, each document is
      in as many as there are choices of the others. */
  ghost predicate Tallied(ways: seq<set<Doc>>, h: nat, n: nat, p: nat, count: Counting) {
    |ways| == Binomial(n, p) && AllHits(ways, |ways|, count) == HitsOf(h, n, p)
  }

  lemma OneMoreTallied(without: seq<set<Doc>>, before: seq<set<Doc>>, h: nat, now: nat, n: nat, p: nat, d: Doc, count: Counting, relevant: set<Doc>)
    requires 0 < p && 0 < n && (n == 1 ==> h == 0) && NoneHas(before, d) && Counts(count, relevant)
    requires Tallied(without, h, n - 1, p, count) && Tallied(before, h, n - 1, p - 1, count)
    requires now == h + if d in relevant then 1 else 0
    ensures Tallied(without + Adding(before, d), now, n, p, count)
  {
    HitsWithLast(without, before, d, count, relevant);
    PascalHits(h, n, p, d in relevant);
  }

  lemma NothingToChoose(docs: set<Doc>, h: nat, n: nat, count: Counting)
    requires count({}) == 0
    ensures ListsChoices([{}], docs, 0) && Tallied([{}], h, n, 0, count)
  {
  }

  /** Lists all choices of `p` of the first `n` documents, with what they amount to. */
  lemma {:induction false} ListChoices(docs: seq<Doc>, n: nat, p: nat, count: Counting, relevant: set<Doc>) returns (ways: seq<set<Doc>>)
    requires Different(docs) && n <= |docs| && Counts(count, relevant)
    ensures ListsChoices(ways, FirstDocs(docs, n), p) && Tallied(ways, count(FirstDocs(docs, n)), n, p, count)
  {
    if p == 0 {
      ways := [{}];
      NothingToChoose(FirstDocs(docs, n), count(FirstDocs(docs, n)), n, count);
    } else if n == 0 {
      ways := [];
    } else {
      var without := ListChoices(docs, n - 1, p, count, relevant);
      var before := ListChoices(docs, n - 1, p - 1, count, relevant);
      ways := without + Adding(before, docs[n - 1]);
      ListWithLast(docs, n, p, count, relevant, without, before);
    }
  }

  lemma ListWithLast(docs: seq<Doc>, n: nat, p: nat, count: Counting, relevant: set<Doc>,
                     without: seq<set<Doc>>, before: seq<set<Doc>>)
    requires Different(docs) && 0 < n <= |docs| && 0 < p && Counts(count, relevant)
    requires ListsChoices(without, FirstDocs(docs, n - 1), p) && Tallied(without, count(FirstDocs(docs, n - 1)), n - 1, p, count)
    requires ListsChoices(before, FirstDocs(docs, n - 1), p - 1) && Tallied(before, count(FirstDocs(docs, n - 1)), n - 1, p - 1, count)
    ensures ListsChoices(without + Adding(before, docs[n - 1]), FirstDocs(docs, n), p)
    ensures Tallied(without + Adding(before, docs[n - 1]), count(FirstDocs(docs, n)), n, p, count)
  {
    LastIsNew(docs, n);
    OneMoreDoc(without, before, FirstDocs(docs, n - 1), docs[n - 1], p);
    OneMoreTallied(without, before, count(FirstDocs(docs, n - 1)), count(FirstDocs(docs, n)), n, p, docs[n - 1], count, relevant);
  }

  /* ---------------------------------------------------------------- the mean over all ways to break ties */

  /** The first places for each way to break the tie: everything above the cut, and the chosen ones. */
  function TopsFor(above: set<Doc>, ways: seq<set<Doc>>): (tops: seq<set<Doc>>)
    ensures |tops| == |ways|
  {
    seq(|ways|, i requires 0 <= i < |ways| => above + ways[i])
  }

  lemma {:induction false} HitsOfTops(above: set<Doc>, ways: seq<set<Doc>>, n: nat, relevant: set<Doc>)
    requires n <= |ways| && forall w | w in ways :: above !! w
    ensures AllHits(TopsFor(above, ways), n, CountOf(relevant))
         == Multiple(|above * relevant|, n) + AllHits(ways, n, CountOf(relevant))
  {
    if n != 0 {
      assert ways[n - 1] in ways;
      HitsOfTops(above, ways, n - 1, relevant);
      SumOfParts(above + ways[n - 1], above, ways[n - 1], relevant);
    }
  }

  lemma SpreadOver(a: real, q: real, n: real)
    ensures (a + q) * n == a * n + q * n
  {
  }

  lemma MeanOfProducts(a: nat, s: nat, h: nat, g: nat, ways: nat, part: nat)
    requires 0 < g && g * part == s * ways
    ensures (a as real + (s * h) as real / g as real) * ways as real == (a * ways + h * part) as real
  {
  }

  lemma AsQuotient(s: nat, h: nat, g: nat) returns (q: real)
    requires 0 < g
    ensures q == (s * h) as real / g as real && q == Shared(s, h, g)
  {
    q := (s * h) as real / g as real;
    SharedIsQuotient(s, h, g);
  }

  lemma AsProducts(a: nat, b: nat, c: nat, d: nat) returns (sum: nat)
    ensures sum == a * b + c * d && sum == Multiple(a, b) + Multiple(c, d)
  {
    sum := a * b + c * d;
    MultipleIsProduct(a, b);
    MultipleIsProduct(c, d);
  }

  /** `mean` taken `n` times, by adding. */
  function Repeated(mean: real, n: nat): real {
    if n == 0 then 0.0 else Repeated(mean, n - 1) + mean
  }

  lemma {:induction false} RepeatedIsProduct(mean: real, n: nat)
    ensures Repeated(mean, n) == mean * n as real
  {
    if n != 0 {
      RepeatedIsProduct(mean, n - 1);
      SpreadOver(n as real - 1.0, 1.0, mean);
    }
  }

  lemma MeanAsNumbers(a: nat, s: nat, h: nat, g: nat, ways: nat, part: nat, q: real, sum: nat)
    requires 0 < g && g * part == s * ways && q == (s * h) as real / g as real && sum == a * ways + h * part
    ensures Repeated(a as real + q, ways) == sum as real
  {
    MeanOfProducts(a, s, h, g, ways, part);
    RepeatedIsProduct(a as real + q, ways);
  }

  lemma MeanOfWays(a: nat, s: nat, h: nat, g: nat, ways: nat, part: nat)
    requires 0 < g && g * part == s * ways
    ensures Repeated(a as real + Shared(s, h, g), ways) == (Multiple(a, ways) + Multiple(h, part)) as real
  {
    var q := AsQuotient(s, h, g);
    var sum := AsProducts(a, ways, h, part);
    MeanAsNumbers(a, s, h, g, ways, part, q, sum);
  }

  /** The tops are the sets of `k` documents between those above the cut and these with the tied ones. */
  ghost predicate ListsTops(tops: seq<set<Doc>>, above: set<Doc>, tied: set<Doc>, k: nat) {
    Different(tops) && forall top :: top in tops <==> above <= top <= above + tied && |top| == k
  }

  lemma InTops(above: set<Doc>, ways: seq<set<Doc>>, top: set<Doc>)
    requires forall w | w in ways :: above !! w
    ensures top in TopsFor(above, ways) <==> above <= top && top - above in ways
  {
    if top in TopsFor(above, ways) {
      var i :| 0 <= i < |ways| && TopsFor(above, ways)[i] == top;
      assert ways[i] in ways && top - above == ways[i];
    }
    if above <= top && top - above in ways {
      var i :| 0 <= i < |ways| && ways[i] == top - above;
      assert TopsFor(above, ways)[i] == top;
    }
  }

  lemma RestOfTop(above: set<Doc>, tied: set<Doc>, top: set<Doc>, s: nat)
    requires above !! tied && above <= top
    ensures top <= above + tied && |top| == |above| + s <==> top - above <= tied && |top - above| == s
  {
  }

  lemma TopsAreListed(above: set<Doc>, tied: set<Doc>, s: nat, k: nat, ways: seq<set<Doc>>)
    requires above !! tied && ListsChoices(ways, tied, s) && k == |above| + s
    ensures ListsTops(TopsFor(above, ways), above, tied, k)
  {
    assert forall w | w in ways :: above !! w;
    forall top
      ensures top in TopsFor(above, ways) <==> above <= top <= above + tied && |top| == k
    {
      InTops(above, ways, top);
      if above <= top {
        RestOfTop(above, tied, top, s);
      }
    }
    TopsAreDifferent(above, ways);
  }

  lemma TopsAreDifferent(above: set<Doc>, ways: seq<set<Doc>>)
    requires Different(ways) && forall w | w in ways :: above !! w
    ensures Different(TopsFor(above, ways))
  {
    forall i | 0 <= i < |ways|
      ensures TopsFor(above, ways)[i] - above == ways[i]
    {
      assert ways[i] in ways;
    }
  }

  lemma HitsOfAllTops(above: set<Doc>, tied: seq<Doc>, s: nat, k: nat, relevant: set<Doc>) returns (tops: seq<set<Doc>>)
    requires Different(tied) && above !! FirstDocs(tied, |tied|) && k == |above| + s
    ensures ListsTops(tops, above, FirstDocs(tied, |tied|), k) && |tops| == Binomial(|tied|, s)
    ensures AllHits(tops, |tops|, CountOf(relevant))
         == Multiple(|above * relevant|, |tops|) + HitsOf(|FirstDocs(tied, |tied|) * relevant|, |tied|, s)
  {
    CountOfCounts(relevant);
    var ways := ListChoices(tied, |tied|, s, CountOf(relevant), relevant);
    TopsAreListed(above, FirstDocs(tied, |tied|), s, k, ways);
    tops := TopsFor(above, ways);
    WaysAvoid(above, FirstDocs(tied, |tied|), s, ways);
    HitsOfTops(above, ways, |ways|, relevant);
  }

  lemma WaysAvoid(above: set<Doc>, tied: set<Doc>, s: nat, ways: seq<set<Doc>>)
    requires above !! tied && ListsChoices(ways, tied, s)
    ensures forall w | w in ways :: above !! w
  {
  }

  lemma MeanValue(sum: nat, a: nat, h: nat, g: nat, s: nat, ways: nat)
    requires 0 < s <= g && ways == Binomial(g, s) && sum == Multiple(a, ways) + HitsOf(h, g, s)
    ensures 0 < ways && sum as real == Repeated(a as real + Shared(s, h, g), ways)
  {
    BinomialIsPositive(g, s);
    Absorption(g, s);
    MeanOfWays(a, s, h, g, ways, Binomial(g - 1, s - 1));
  }

  /** All ways to choose `s` tied documents to join those above: added up over all of them, the hits
      are the expected number times the number of ways. */
  lemma MeanOverChoices(above: set<Doc>, tied: seq<Doc>, s: nat, k: nat, a: nat, h: nat, relevant: set<Doc>) returns (tops: seq<set<Doc>>)
    requires Different(tied) && above !! FirstDocs(tied, |tied|) && 0 < s <= |tied| && k == |above| + s
    requires a == |above * relevant| && h == |FirstDocs(tied, |tied|) * relevant|
    ensures ListsTops(tops, above, FirstDocs(tied, |tied|), k) && tops != []
    ensures AllHits(tops, |tops|, CountOf(relevant)) as real == Repeated(a as real + Shared(s, h, |tied|), |tops|)
  {
    tops := HitsOfAllTops(above, tied, s, k, relevant);
    MeanValue(AllHits(tops, |tops|, CountOf(relevant)), a, h, |tied|, s, |tops|);
  }

  lemma {:induction false} FirstAreDocs(docs: seq<Doc>)
    ensures FirstDocs(docs, |docs|) == Elements(docs)
  {
    forall d
      ensures d in FirstDocs(docs, |docs|) <==> d in Elements(docs)
    {
      InFirstDocs(docs, |docs|, d);
    }
  }

  lemma TiedIsNotAbove(results: seq<Scored>, cut: real, above: nat, tied: nat)
    requires Ranked(results) && CutAt(results, cut, above, tied)
    ensures Elements(Docs(results[0..above])) !! Elements(Docs(results[above..above + tied]))
  {
  }

  /** The documents above the cut and those at it are different ones, and among these the `k`-th is. */
  lemma CutLists(results: seq<Scored>, k: nat, above: seq<Doc>, tied: seq<Doc>)
    requires Ranked(results) && 1 <= k < |results|
    requires above == Above(results, results[k - 1].score) && tied == Tied(results, results[k - 1].score)
    ensures Different(tied) && Elements(above) !! Elements(tied)
    ensures |Elements(above)| == |above| < k <= |above| + |tied|
  {
    var cut := results[k - 1].score;
    var a, t := RankedIsCut(results, cut);
    AboveIsFirst(results, cut, a);
    TiedIsNext(results, cut, a, a + t);
    assert results[..a] == results[0..a];
    DocsAreCounted(results, 0, a);
    TiedIsNotAbove(results, cut, a, t);
  }

  lemma ExpectedIs(results: seq<Scored>, relevant: set<Doc>, k: nat, above: seq<Doc>, tied: seq<Doc>, a: nat, h: nat)
    requires Ranked(results) && 1 <= k < |results|
    requires above == Above(results, results[k - 1].score) && tied == Tied(results, results[k - 1].score)
    requires a == |Elements(above) * relevant| && h == |Elements(tied) * relevant|
    ensures |above| < k && tied != [] && Expected(results, relevant, k) == a as real + Shared(k - |above|, h, |tied|)
  {
    CutIsReached(results, k);
  }

  lemma MeanTimes(sum: nat, mean: real, n: nat)
    requires sum as real == Repeated(mean, n)
    ensures sum as real == mean * n as real
  {
    RepeatedIsProduct(mean, n);
  }

  lemma TopsOfSets(k: nat, s: nat, above: set<Doc>, tied: seq<Doc>, a: nat, h: nat, mean: real, relevant: set<Doc>)
    returns (tops: seq<set<Doc>>)
    requires Different(tied) && above !! FirstDocs(tied, |tied|) && 0 < s <= |tied| && k == |above| + s
    requires a == |above * relevant| && h == |FirstDocs(tied, |tied|) * relevant|
    requires mean == a as real + Shared(s, h, |tied|)
    ensures ListsTops(tops, above, FirstDocs(tied, |tied|), k) && tops != []
    ensures AllHits(tops, |tops|, CountOf(relevant)) as real == mean * |tops| as real
  {
    tops := MeanOverChoices(above, tied, s, k, a, h, relevant);
    MeanTimes(AllHits(tops, |tops|, CountOf(relevant)), mean, |tops|);
  }

  lemma TopsOfLists(k: nat, s: nat, above: seq<Doc>, tied: seq<Doc>, a: nat, h: nat, mean: real, relevant: set<Doc>)
    returns (tops: seq<set<Doc>>)
    requires Different(tied) && Elements(above) !! Elements(tied) && |Elements(above)| + s == k && 0 < s <= |tied|
    requires a == |Elements(above) * relevant| && h == |Elements(tied) * relevant|
    requires mean == a as real + Shared(s, h, |tied|)
    ensures ListsTops(tops, Elements(above), Elements(tied), k) && tops != []
    ensures AllHits(tops, |tops|, CountOf(relevant)) as real == mean * |tops| as real
  {
    FirstAreDocs(tied);
    tops := TopsOfSets(k, s, Elements(above), tied, a, h, mean, relevant);
  }

  /** The expected hits are the mean over all ways to break the tie at the cut. The tops these ways
      lead to are all the sets of `k` documents that hold everything above the cut and nothing below
      it; added up over all of them, the hits are the expected number times their number. */
  lemma ExpectedIsTheMean(results: seq<Scored>, relevant: set<Doc>, k: nat, above: seq<Doc>, tied: seq<Doc>, mean: real)
    returns (tops: seq<set<Doc>>)
    requires Ranked(results) && 1 <= k < |results| && mean == Expected(results, relevant, k)
    requires above == Above(results, results[k - 1].score) && tied == Tied(results, results[k - 1].score)
    ensures ListsTops(tops, Elements(above), Elements(tied), k) && tops != []
    ensures AllHits(tops, |tops|, CountOf(relevant)) as real == mean * |tops| as real
  {
    CutLists(results, k, above, tied);
    var a, h := |Elements(above) * relevant|, |Elements(tied) * relevant|;
    ExpectedIs(results, relevant, k, above, tied, a, h);
    tops := TopsOfLists(k, k - |above|, above, tied, a, h, mean, relevant);
  }

  /* ---------------------------------------------------------------- bounds */

  lemma {:induction false} ShareBounds(s: nat, h: nat, g: nat)
    requires 0 < g && s <= g && h <= g
    ensures 0.0 <= Shared(s, h, g) <= s as real && Shared(s, h, g) <= h as real
  {
    SharedWithin(s, h, g);
    SharedGrows(s, g, h, g);
    WholeTieIsCounted(h, g);
  }

  /** Each place counts for at most one hit. */
  lemma {:induction false} SharedWithin(s: nat, h: nat, g: nat)
    requires 0 < g && h <= g
    ensures 0.0 <= Shared(s, h, g) <= s as real
  {
    if s != 0 {
      SharedWithin(s - 1, h, g);
      Proportion(h, g);
    }
  }

  lemma Proportion(h: nat, g: nat)
    requires 0 < g && h <= g
    ensures 0.0 <= h as real / g as real <= 1.0
  {
  }

  lemma {:induction false} SharedGrows(s: nat, t: nat, h: nat, g: nat)
    requires 0 < g && s <= t && h <= g
    ensures Shared(s, h, g) <= Shared(t, h, g)
    decreases t
  {
    if s < t {
      SharedGrows(s, t - 1, h, g);
      Proportion(h, g);
    }
  }

  lemma FewDocs(results: seq<Scored>, relevant: set<Doc>, k: nat)
    requires Ranked(results) && |results| <= k
    ensures Hits(Docs(results), relevant, k) <= Least(k, |relevant|)
  {
    assert Docs(results)[..|results|] == Docs(results) && results[0..|results|] == results;
    DocsAreCounted(results, 0, |results|);
    FewerIn(Elements(Docs(results)) * relevant, Elements(Docs(results)));
    FewerIn(Elements(Docs(results)) * relevant, relevant);
  }

  /** Of no more results than there are places, every relevant one counts. */
  lemma FewResultsAreCounted(results: seq<Scored>, relevant: set<Doc>, k: nat)
    requires Ranked(results) && 1 <= k && |results| <= k
    ensures Expected(results, relevant, k) == |set i: nat | i < |results| && results[i].doc in relevant| as real
  {
    var docs := Docs(results);
    assert docs[..|docs|] == docs;
    MarkedAreCounted(docs, relevant);
    assert MarkedPlaces(docs, relevant) == set i: nat | i < |results| && results[i].doc in relevant;
  }

  /** The expected hits are at most as many as there are places, and at most as many as there are
      relevant documents. */
  lemma ExpectedIsBounded(results: seq<Scored>, relevant: set<Doc>, k: nat)
    requires Ranked(results) && 1 <= k
    ensures 0.0 <= Expected(results, relevant, k) <= Least(k, |relevant|) as real
  {
    if |results| <= k {
      FewDocs(results, relevant, k);
    } else {
      var above, tied := Above(results, results[k - 1].score), Tied(results, results[k - 1].score);
      CutLists(results, k, above, tied);
      MarkedBounds(Elements(above), tied, relevant);
      var a, h := |Elements(above) * relevant|, |Elements(tied) * relevant|;
      ShareBounds(k - |above|, h, |tied|);
      ExpectedIs(results, relevant, k, above, tied, a, h);
    }
  }

  lemma MarkedBounds(above: set<Doc>, tied: seq<Doc>, relevant: set<Doc>)
    requires Different(tied) && above !! Elements(tied)
    ensures |above * relevant| <= |above| && |Elements(tied) * relevant| <= |tied|
    ensures |above * relevant| + |Elements(tied) * relevant| <= |relevant|
  {
    DifferentAreCounted(tied);
    FewerIn(above * relevant, above);
    FewerIn(Elements(tied) * relevant, Elements(tied));
    SumOfParts(above + Elements(tied), above, Elements(tied), relevant);
    FewerIn((above + Elements(tied)) * relevant, relevant);
  }
}
