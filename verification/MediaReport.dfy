/** What a multimedia load reports: how many files went in, how many failed, and the first failures. */
module MediaReport {
  import opened Arithmetic

  const MAX_REPORTED_ERRORS: nat := 100
  const MAX_MESSAGE: nat := 1024

  datatype FileError = FileError(path: string, error: string)

  /** What became of one file. */
  datatype Outcome = Inserted | Failure(path: string, error: string)

  datatype Report = Report(inserted: nat, failed: nat, errors: seq<FileError>)

  const EMPTY := Report(0, 0, [])

  function FirstOf<T>(s: seq<T>, n: nat): seq<T> {
    s[..Least(|s|, n)]
  }

  function Failures(outcomes: seq<Outcome>): (failures: seq<FileError>)
    ensures |failures| <= |outcomes|
  {
    if outcomes == [] then []
    else match outcomes[0]
      case Inserted => Failures(outcomes[1..])
      case Failure(path, error) => [FileError(path, FirstOf(error, MAX_MESSAGE))] + Failures(outcomes[1..])
  }

  /** The report a history of files calls for: every file counted, only the first failures named. */
  function Summary(outcomes: seq<Outcome>): Report {
    Report(|outcomes| - |Failures(outcomes)|, |Failures(outcomes)|, FirstOf(Failures(outcomes), MAX_REPORTED_ERRORS))
  }

  lemma {:induction false} FailuresJoin(a: seq<Outcome>, b: seq<Outcome>)
    ensures Failures(a + b) == Failures(a) + Failures(b)
  {
    if a == [] {
      assert a + b == b;
    } else {
      assert (a + b)[1..] == a[1..] + b;
      FailuresJoin(a[1..], b);
    }
  }

  function Failing(r: Report, path: string, error: string): Report {
    Report(r.inserted, r.failed + 1,
           if |r.errors| < MAX_REPORTED_ERRORS then r.errors + [FileError(path, FirstOf(error, MAX_MESSAGE))] else r.errors)
  }

  /** A full list takes no more errors. */
  function Merging(r: Report, other: Report): Report
    requires |r.errors| <= MAX_REPORTED_ERRORS
  {
    Report(r.inserted + other.inserted, r.failed + other.failed,
           r.errors + FirstOf(other.errors, MAX_REPORTED_ERRORS - |r.errors|))
  }

  predicate Truncated(r: Report) {
    |r.errors| < r.failed
  }

  /** Recording a failure is one more file in the history. */
  lemma FailingExtends(outcomes: seq<Outcome>, path: string, error: string)
    ensures Failing(Summary(outcomes), path, error) == Summary(outcomes + [Failure(path, error)])
  {
    var last := [Failure(path, error)];
    FailuresJoin(outcomes, last);
    assert Failures(last) == [FileError(path, FirstOf(error, MAX_MESSAGE))] by {
      assert last[1..] == [];
    }
  }

  lemma FirstOfJoin<T>(a: seq<T>, b: seq<T>, n: nat)
    ensures FirstOf(a + b, n) == FirstOf(a, n) + FirstOf(FirstOf(b, n), n - |FirstOf(a, n)|)
  {
  }

  /** Merging the reports of two loads reports the two loads one after the other: no error is lost
      that a single report would have kept, and none is kept that it would have dropped. */
  lemma MergingConcatenates(a: seq<Outcome>, b: seq<Outcome>)
    ensures Merging(Summary(a), Summary(b)) == Summary(a + b)
  {
    FailuresJoin(a, b);
    FirstOfJoin(Failures(a), Failures(b), MAX_REPORTED_ERRORS);
  }

  lemma SummaryBounds(outcomes: seq<Outcome>)
    ensures var r := Summary(outcomes);
      && r.inserted + r.failed == |outcomes|
      && |r.errors| == Least(r.failed, MAX_REPORTED_ERRORS)
      && (Truncated(r) <==> MAX_REPORTED_ERRORS < r.failed)
  {
  }

  /** How many of the first `n` files failed. */
  function FailedAmong(outcomes: seq<Outcome>, n: nat): int
    requires n <= |outcomes|
  {
    n - multiset(outcomes[..n])[Inserted]
  }

  lemma FailedInRest(outcomes: seq<Outcome>, n: nat, m: nat)
    requires m == n + 1 <= |outcomes|
    ensures FailedAmong(outcomes, m) == FailedAmong(outcomes[1..], n) + if outcomes[0].Failure? then 1 else 0
  {
    assert outcomes[..m] == [outcomes[0]] + outcomes[1..][..n];
  }

  lemma {:induction false} FailuresAreCounted(outcomes: seq<Outcome>)
    ensures |Failures(outcomes)| == FailedAmong(outcomes, |outcomes|)
  {
    if outcomes != [] {
      FailuresAreCounted(outcomes[1..]);
      FailedInRest(outcomes, |outcomes[1..]|, |outcomes|);
    }
  }

  lemma {:induction false} FailureAt(outcomes: seq<Outcome>, i: nat)
    requires i < |outcomes| && outcomes[i].Failure?
    ensures 0 <= FailedAmong(outcomes, i) < |Failures(outcomes)|
    ensures Failures(outcomes)[FailedAmong(outcomes, i)] == FileError(outcomes[i].path, FirstOf(outcomes[i].error, MAX_MESSAGE))
  {
    if i != 0 {
      FailureAt(outcomes[1..], i - 1);
      FailedInRest(outcomes, i - 1, i);
    }
  }

  /** Entry `k` names this failure, with the first 1024 characters of its message. */
  predicate NamesFailure(errors: seq<FileError>, k: nat, o: Outcome)
    requires o.Failure?
  {
    && k < |errors| && errors[k].path == o.path
    && errors[k].error <= o.error && |errors[k].error| == Least(|o.error|, 1024)
  }

  /** What a summary says: how many files went in, how many did not, and the
      first hundred failures in the order in which they happened. */
  lemma SummaryMeans(outcomes: seq<Outcome>)
    ensures var r := Summary(outcomes);
      && r.inserted == multiset(outcomes)[Inserted]
      && r.failed == |outcomes| - multiset(outcomes)[Inserted]
      && |r.errors| == Least(r.failed, 100)
      && (forall i: nat | i < |outcomes| && outcomes[i].Failure? ::
            0 <= FailedAmong(outcomes, i)
            && (FailedAmong(outcomes, i) < 100 ==> NamesFailure(r.errors, FailedAmong(outcomes, i), outcomes[i])))
  {
    FailuresAreCounted(outcomes);
    assert outcomes[..|outcomes|] == outcomes;
    forall i: nat | i < |outcomes| && outcomes[i].Failure?
      ensures var k := FailedAmong(outcomes, i); 0 <= k < |Failures(outcomes)|
      ensures Failures(outcomes)[FailedAmong(outcomes, i)] == FileError(outcomes[i].path, FirstOf(outcomes[i].error, MAX_MESSAGE))
    {
      FailureAt(outcomes, i);
    }
  }

  class MediaLoadReport {
    var inserted: nat
    var failed: nat
    var errors: seq<FileError>

    function State(): Report
      reads this
    {
      Report(inserted, failed, errors)
    }

    constructor ()
      ensures State() == EMPTY == Summary([])
    {
      inserted, failed, errors := 0, 0, [];
    }

    method Fail(path: string, error: string, ghost history: seq<Outcome>)
      requires State() == Summary(history)
      modifies this
      ensures State() == Summary(history + [Failure(path, error)])
    {
      FailingExtends(history, path, error);
      failed := failed + 1;
      if |errors| < MAX_REPORTED_ERRORS {
        errors := errors + [FileError(path, FirstOf(error, MAX_MESSAGE))];
      }
    }

    method Merge(other: MediaLoadReport, ghost history: seq<Outcome>, ghost otherHistory: seq<Outcome>)
      requires State() == Summary(history) && other.State() == Summary(otherHistory)
      modifies this
      ensures State() == Summary(history + otherHistory)
    {
      MergingConcatenates(history, otherHistory);
      SummaryBounds(history);
      inserted := inserted + other.inserted;
      failed := failed + other.failed;
      var remaining := MAX_REPORTED_ERRORS - |errors|;
      errors := errors + FirstOf(other.errors, remaining);
    }
  }
}
