/** INSERT and DELETE over a table and its secondary indexes, with the compensation that undoes a
    statement that fails half way. */
module Dml {
  import opened Values
  import opened Store
  import opened Wrappers

  /* ---------------------------------------------------------------- insert */

  datatype InsertResult = Inserted(rid: Rid) | InsertFailed

  /** The pairs of one row, index by index. */
  ghost function PairOf(columns: seq<nat>, row: Row, rid: Rid, j: nat): Entry
    requires j < |columns| && columns[j] < |row|
  {
    (row[columns[j]], rid)
  }

  ghost predicate Attempted(columns: seq<nat>, row: Row, attempted: seq<(nat, Value)>) {
    && |attempted| <= |columns|
    && (forall j | 0 <= j < |columns| :: columns[j] < |row|)
    && (forall j | 0 <= j < |attempted| :: attempted[j] == (j, row[columns[j]]))
  }

  /** The row goes in exactly when the table has no reason to refuse it and nothing fails. If nothing
      fails but the step that ends the statement, a table whose indexes are exact is as it was; a row
      that is refused changes no table. */
  method InsertWithIndexes(t: Table, row: Row) returns (r: InsertResult)
    requires t.Valid()
    modifies t
    ensures t.reliable ==> t.faults == old(t.faults)
    ensures t.Valid() && old(t.faults) <= t.faults
    ensures r.Inserted? <==> old(t.Admits(row)) && t.faults == old(t.faults)
    ensures r.Inserted? ==> r.rid !in old(t.rows) && t.rows == old(t.rows)[r.rid := row]
    ensures r.Inserted? ==> t.entries == WithPairs(old(t.entries), t.columns, row, r.rid)
    ensures r.Inserted? && old(t.Exact()) ==> t.Exact()
    ensures r.InsertFailed? && t.faults == old(t.faults) ==> t.rows == old(t.rows) && t.entries == old(t.entries)
    ensures r.InsertFailed? && t.faults <= old(t.faults) + 1 && old(t.Exact()) ==>
              t.rows == old(t.rows) && t.entries == old(t.entries)
  {
    var placed := t.Insert(row);
    if placed.None? {
      return InsertFailed;
    }
    var rid := placed.value;
    NewPairs(old(t.rows), rid, row, t.columns);
    var attempted, ok := AddEntries(t, row, rid);
    if ok {
      return Inserted(rid);
    }
    UndoInsert(t, row, rid, attempted, old(t.rows), old(t.entries));
    return InsertFailed;
  }

  /** The indexes with the pairs of a row added. */
  ghost function WithPairs(entries: seq<set<Entry>>, columns: seq<nat>, row: Row, rid: Rid): seq<set<Entry>> {
    seq(|entries|, k requires 0 <= k < |entries| =>
      if k < |columns| && columns[k] < |row| then entries[k] + {PairOf(columns, row, rid, k)} else entries[k])
  }

  /** Takes back what a failed insertion did: first its pairs, then the row itself. */
  method UndoInsert(t: Table, row: Row, rid: Rid, attempted: seq<(nat, Value)>,
                    ghost rows: map<Rid, Row>, ghost before: seq<set<Entry>>)
    requires t.Valid() && |row| == t.width && rid !in rows && t.rows == rows[rid := row]
    requires Attempted(t.columns, row, attempted)
    modifies t
    ensures t.reliable ==> t.faults == old(t.faults)
    ensures t.Valid() && old(t.faults) <= t.faults
    ensures t.faults == old(t.faults) ==> t.rows == rows
    ensures Undoable(t.columns, row, rid, attempted, before, old(t.entries)) && t.faults == old(t.faults) ==> t.entries == before
  {
    UndoEntries(t, row, rid, attempted, before);
    WithoutNew(rows, rid, row, t.keyColumn);
    var _ := t.Remove(row[t.keyColumn]);
  }

  lemma WithoutNew(rows: map<Rid, Row>, rid: Rid, row: Row, keyColumn: nat)
    requires rid !in rows && keyColumn < |row| && UniqueKeys(rows[rid := row], keyColumn)
    ensures Without(rows[rid := row], keyColumn, {row[keyColumn]}) == rows
  {
    var more := rows[rid := row];
    assert more[rid] == row;
    forall r | r in rows
      ensures more[r] == rows[r] && (keyColumn < |more[r]| ==> more[r][keyColumn] != row[keyColumn])
    {
    }
  }

  lemma NewPairs(rows: map<Rid, Row>, rid: Rid, row: Row, columns: seq<nat>)
    requires rid !in rows
    ensures forall j | 0 <= j < |columns| && columns[j] < |row| ::
              && PairOf(columns, row, rid, j) !in IndexOf(rows, columns[j])
              && IndexOf(rows[rid := row], columns[j]) == IndexOf(rows, columns[j]) + {PairOf(columns, row, rid, j)}
  {
    forall j | 0 <= j < |columns| && columns[j] < |row|
      ensures PairOf(columns, row, rid, j) !in IndexOf(rows, columns[j])
      ensures IndexOf(rows[rid := row], columns[j]) == IndexOf(rows, columns[j]) + {PairOf(columns, row, rid, j)}
    {
      var after := rows[rid := row];
      forall e | e in IndexOf(rows, columns[j])
        ensures e in IndexOf(after, columns[j])
      {
        assert e.1 in after && e == (after[e.1][columns[j]], e.1);
      }
      assert rid in after && after[rid] == row;
    }
  }

  /** Adds the pairs of a row until an index fails, which may have added its pair nevertheless. */
  method AddEntries(t: Table, row: Row, rid: Rid) returns (attempted: seq<(nat, Value)>, ok: bool)
    requires |t.entries| == |t.columns| && forall j | 0 <= j < |t.columns| :: t.columns[j] < |row|
    modifies t`entries, t`faults
    ensures t.reliable ==> t.faults == old(t.faults)
    ensures |t.entries| == |t.columns| && Attempted(t.columns, row, attempted)
    ensures t.faults == old(t.faults) + (if ok then 0 else 1)
    ensures ok ==> |attempted| == |t.columns|
    ensures forall j | 0 <= j < |t.columns| ::
      t.entries[j] == old(t.entries)[j] + (if j < |attempted| then {PairOf(t.columns, row, rid, j)} else {})
      || (!ok && t.entries[j] == old(t.entries)[j])
  {
    attempted := [];
    ok := true;
    while ok && |attempted| < |t.columns|
      invariant |t.entries| == |t.columns| && Attempted(t.columns, row, attempted)
      invariant t.faults == old(t.faults) + (if ok then 0 else 1) && (t.reliable ==> ok)
      invariant forall j | 0 <= j < |t.columns| ::
        t.entries[j] == old(t.entries)[j] + (if j < |attempted| then {PairOf(t.columns, row, rid, j)} else {})
        || (!ok && t.entries[j] == old(t.entries)[j])
      decreases |t.columns| - |attempted|
    {
      var k := |attempted|;
      var key := row[t.columns[k]];
      attempted := attempted + [(k, key)];
      ok := t.IndexInsert(k, key, rid);
    }
  }

  /** The indexes hold what they held before, and perhaps the attempted pairs, which are new. */
  ghost predicate Undoable(columns: seq<nat>, row: Row, rid: Rid, attempted: seq<(nat, Value)>,
                           before: seq<set<Entry>>, now: seq<set<Entry>>) {
    && |now| == |columns| == |before| && Attempted(columns, row, attempted)
    && (forall j | 0 <= j < |columns| :: PairOf(columns, row, rid, j) !in before[j])
    && (forall j | 0 <= j < |columns| ::
          now[j] == before[j]
          || (j < |attempted| && now[j] == before[j] + {PairOf(columns, row, rid, j)}))
  }

  /** Takes back, last first, the pairs that may have been added. */
  method UndoEntries(t: Table, row: Row, rid: Rid, attempted: seq<(nat, Value)>, ghost before: seq<set<Entry>>)
    requires |t.entries| == |t.columns| && Attempted(t.columns, row, attempted)
    modifies t`entries, t`faults
    ensures t.reliable ==> t.faults == old(t.faults)
    ensures |t.entries| == |t.columns| && old(t.faults) <= t.faults
    ensures Undoable(t.columns, row, rid, attempted, before, old(t.entries)) && t.faults == old(t.faults) ==> t.entries == before
  {
    for i := |attempted| downto 0
      invariant |t.entries| == |t.columns| && old(t.faults) <= t.faults
      invariant t.reliable ==> t.faults == old(t.faults)
      invariant Undoable(t.columns, row, rid, attempted, before, old(t.entries)) && t.faults == old(t.faults) ==>
        forall j | 0 <= j < |t.columns| ::
          t.entries[j] == before[j]
          || (j < i && t.entries[j] == before[j] + {PairOf(t.columns, row, rid, j)})
    {
      var (k, key) := attempted[i];
      var _ := t.IndexRemoveOne(k, key, rid);
    }
  }

  /* ---------------------------------------------------------------- delete: candidates */

  /** A row copied before anything is changed; tables without indexes need no identifier. */
  datatype Candidate = Candidate(rid: Option<Rid>, record: Row)

  datatype DeleteError = WrongSchema | RepeatedKey | MissingRid | RepeatedRid

  datatype DeleteResult = Deleted(count: nat) | Rejected(error: DeleteError) | Aborted

  predicate Fitting(c: Candidate, keyColumn: nat, columns: seq<nat>) {
    keyColumn < |c.record| && forall k | 0 <= k < |columns| :: columns[k] < |c.record|
  }

  ghost predicate Acceptable(cs: seq<Candidate>, keyColumn: nat, columns: seq<nat>) {
    && (forall i | 0 <= i < |cs| :: Fitting(cs[i], keyColumn, columns))
    && (forall i, j | 0 <= i < j < |cs| :: cs[i].record[keyColumn] != cs[j].record[keyColumn])
    && (columns != [] ==>
          && (forall i | 0 <= i < |cs| :: cs[i].rid.Some?)
          && (forall i, j | 0 <= i < j < |cs| :: cs[i].rid != cs[j].rid))
  }

  method Validate(cs: seq<Candidate>, keyColumn: nat, columns: seq<nat>) returns (problem: Option<DeleteError>)
    ensures problem.None? <==> Acceptable(cs, keyColumn, columns)
  {
    var keys: seq<Value> := [];
    var rids: seq<Option<Rid>> := [];
    for i := 0 to |cs|
      invariant Acceptable(cs[..i], keyColumn, columns)
      invariant |keys| == i && forall j | 0 <= j < i :: keys[j] == cs[j].record[keyColumn]
      invariant columns != [] ==> |rids| == i && forall j | 0 <= j < i :: rids[j] == cs[j].rid
    {
      var c := cs[i];
      assert cs[..i + 1] == cs[..i] + [c];
      if !Fitting(c, keyColumn, columns) {
        return Some(WrongSchema);
      }
      if c.record[keyColumn] in keys {
        return Some(RepeatedKey);
      }
      keys := keys + [c.record[keyColumn]];
      if columns != [] {
        if c.rid.None? {
          return Some(MissingRid);
        }
        if c.rid in rids {
          return Some(RepeatedRid);
        }
        rids := rids + [c.rid];
      }
    }
    assert cs[..|cs|] == cs;
    return None;
  }

  /** The candidate is a row of the table, at its identifier if it has one. */
  ghost predicate LiveAt(rows: map<Rid, Row>, c: Candidate, r: Rid) {
    r in rows && rows[r] == c.record && (c.rid.Some? ==> c.rid.value == r)
  }

  ghost predicate LiveSomewhere(rows: map<Rid, Row>, c: Candidate) {
    exists r :: LiveAt(rows, c, r)
  }

  ghost predicate Live(rows: map<Rid, Row>, cs: seq<Candidate>) {
    forall i | 0 <= i < |cs| :: LiveSomewhere(rows, cs[i])
  }

  ghost predicate StoredSomewhere(rows: map<Rid, Row>, record: Row) {
    exists r :: r in rows && rows[r] == record
  }

  /** The rows of the candidates are in the table, though perhaps not where the candidates say. */
  ghost predicate Stored(rows: map<Rid, Row>, cs: seq<Candidate>) {
    forall i | 0 <= i < |cs| :: StoredSomewhere(rows, cs[i].record)
  }

  lemma LiveIsStored(rows: map<Rid, Row>, cs: seq<Candidate>)
    requires Live(rows, cs)
    ensures Stored(rows, cs)
  {
    forall i | 0 <= i < |cs|
      ensures StoredSomewhere(rows, cs[i].record)
    {
      assert LiveSomewhere(rows, cs[i]);
    }
  }

  ghost function KeysOf(cs: seq<Candidate>, keyColumn: nat): set<Value> {
    set i | 0 <= i < |cs| && keyColumn < |cs[i].record| :: cs[i].record[keyColumn]
  }

  /* ---------------------------------------------------------------- delete: the undo log */

  datatype Removal = Removal(candidate: nat, index: nat, key: Value)

  ghost predicate LogOk(cs: seq<Candidate>, columns: seq<nat>, log: seq<Removal>) {
    forall e | e in log ::
      && e.candidate < |cs| && e.index < |columns| && cs[e.candidate].rid.Some?
      && columns[e.index] < |cs[e.candidate].record|
      && e.key == cs[e.candidate].record[columns[e.index]]
  }

  /** Every pair of every candidate is in the log. */
  ghost predicate Complete(cs: seq<Candidate>, columns: seq<nat>, log: seq<Removal>) {
    forall i, k | 0 <= i < |cs| && 0 <= k < |columns| && columns[k] < |cs[i].record| ::
      Removal(i, k, cs[i].record[columns[k]]) in log
  }

  /** The pairs of index `k` the log lists. */
  ghost function Logged(cs: seq<Candidate>, log: seq<Removal>, k: nat): set<Entry> {
    set e | e in log && e.index == k && e.candidate < |cs| && cs[e.candidate].rid.Some? ::
      (e.key, cs[e.candidate].rid.value)
  }

  lemma LoggedAppend(cs: seq<Candidate>, log: seq<Removal>, e: Removal, k: nat)
    requires e.candidate < |cs| && cs[e.candidate].rid.Some?
    ensures Logged(cs, log + [e], k)
         == Logged(cs, log, k) + (if e.index == k then {(e.key, cs[e.candidate].rid.value)} else {})
  {
  }

  /** Every index lists every candidate. */
  ghost predicate Indexed(cs: seq<Candidate>, columns: seq<nat>, entries: seq<set<Entry>>) {
    |entries| == |columns| && forall i, k | 0 <= i < |cs| && 0 <= k < |columns| ::
      columns[k] < |cs[i].record| && cs[i].rid.Some? && PairOf(columns, cs[i].record, cs[i].rid.value, k) in entries[k]
  }

  lemma LiveIsIndexed(rows: map<Rid, Row>, cs: seq<Candidate>, keyColumn: nat, columns: seq<nat>, entries: seq<set<Entry>>)
    requires Live(rows, cs) && Acceptable(cs, keyColumn, columns) && |entries| == |columns|
    requires forall k | 0 <= k < |columns| :: entries[k] == IndexOf(rows, columns[k])
    ensures Indexed(cs, columns, entries)
  {
    forall i, k | 0 <= i < |cs| && 0 <= k < |columns|
      ensures PairOf(columns, cs[i].record, cs[i].rid.value, k) in entries[k]
    {
      assert LiveSomewhere(rows, cs[i]);
    }
  }

  /** The log stops before index `j` of candidate `i`. */
  ghost predicate Before(log: seq<Removal>, i: nat, j: nat) {
    forall e | e in log :: e.candidate < i || (e.candidate == i && e.index < j)
  }

  /** The pairs before index `j` of candidate `i` are in the log and gone from the indexes, and no others. */
  ghost predicate Removing(cs: seq<Candidate>, columns: seq<nat>, before: seq<set<Entry>>, now: seq<set<Entry>>,
                           log: seq<Removal>, i: nat, j: nat) {
    && |now| == |columns| == |before| && LogOk(cs, columns, log) && Before(log, i, j)
    && (forall c, k | 0 <= c < |cs| && 0 <= k < |columns| && columns[k] < |cs[c].record| && (c < i || (c == i && k < j)) ::
          Removal(c, k, cs[c].record[columns[k]]) in log)
    && (forall k | 0 <= k < |columns| ::
          Logged(cs, log, k) <= before[k] && now[k] == before[k] - Logged(cs, log, k))
  }

  lemma OneMoreRemoved(cs: seq<Candidate>, keyColumn: nat, columns: seq<nat>, before: seq<set<Entry>>,
                       now: seq<set<Entry>>, log: seq<Removal>, i: nat, j: nat)
    requires Acceptable(cs, keyColumn, columns) && i < |cs| && j < |columns|
    requires Removing(cs, columns, before, now, log, i, j)
    ensures var pair := PairOf(columns, cs[i].record, cs[i].rid.value, j);
      && (pair in now[j] <==> pair in before[j])
      && (pair in now[j] ==> Removing(cs, columns, before, now[j := now[j] - {pair}], log + [Removal(i, j, pair.0)], i, j + 1))
  {
    var pair := PairOf(columns, cs[i].record, cs[i].rid.value, j);
    NotYetLogged(cs, keyColumn, columns, log, i, j);
    forall k | 0 <= k < |columns| {
      LoggedAppend(cs, log, Removal(i, j, pair.0), k);
    }
  }

  lemma NotYetLogged(cs: seq<Candidate>, keyColumn: nat, columns: seq<nat>, log: seq<Removal>, i: nat, j: nat)
    requires Acceptable(cs, keyColumn, columns) && i < |cs| && j < |columns| && Before(log, i, j)
    ensures PairOf(columns, cs[i].record, cs[i].rid.value, j) !in Logged(cs, log, j)
  {
  }

  /** A log of all pairs, each of which an index had, says that every index listed every candidate. */
  lemma CompleteIsIndexed(cs: seq<Candidate>, columns: seq<nat>, log: seq<Removal>, keyColumn: nat, before: seq<set<Entry>>)
    requires Acceptable(cs, keyColumn, columns) && LogOk(cs, columns, log) && Complete(cs, columns, log)
    requires |before| == |columns| && forall k | 0 <= k < |columns| :: Logged(cs, log, k) <= before[k]
    ensures Indexed(cs, columns, before)
  {
    forall i, k | 0 <= i < |cs| && 0 <= k < |columns|
      ensures columns[k] < |cs[i].record| && cs[i].rid.Some? && PairOf(columns, cs[i].record, cs[i].rid.value, k) in before[k]
    {
      assert Removal(i, k, cs[i].record[columns[k]]) in log;
      assert PairOf(columns, cs[i].record, cs[i].rid.value, k) in Logged(cs, log, k);
    }
  }

  /** Removes the pairs of all candidates from all indexes, until one is missing or cannot be removed,
      which takes a fault. */
  method RemoveEntries(t: Table, cs: seq<Candidate>) returns (log: seq<Removal>, ok: bool, ghost i': nat, ghost j': nat)
    requires Acceptable(cs, t.keyColumn, t.columns) && |t.entries| == |t.columns|
    modifies t`entries, t`faults
    ensures t.reliable ==> t.faults == old(t.faults)
    ensures old(t.faults) <= t.faults <= old(t.faults) + 1 && (ok ==> t.faults == old(t.faults))
    ensures t.faults == old(t.faults) ==> (ok <==> Indexed(cs, t.columns, old(t.entries)))
    ensures Removing(cs, t.columns, old(t.entries), t.entries, log, i', j')
    ensures ok ==> Complete(cs, t.columns, log) && i' == |cs| && j' == 0
    ensures !ok ==> i' < |cs| && j' < |t.columns|
    ensures !ok && t.faults == old(t.faults) ==>
              PairOf(t.columns, cs[i'].record, cs[i'].rid.value, j') !in old(t.entries)[j']
  {
    log := [];
    for i := 0 to |cs|
      invariant Removing(cs, t.columns, old(t.entries), t.entries, log, i, 0) && t.faults == old(t.faults)
    {
      for j := 0 to |t.columns|
        invariant Removing(cs, t.columns, old(t.entries), t.entries, log, i, j) && t.faults == old(t.faults)
      {
        OneMoreRemoved(cs, t.keyColumn, t.columns, old(t.entries), t.entries, log, i, j);
        var key := cs[i].record[t.columns[j]];
        var found := t.IndexRemoveOne(j, key, cs[i].rid.value);
        if found != Some(true) {
          assert found == Some(false) ==> !Indexed(cs, t.columns, old(t.entries));
          return log, false, i, j;
        }
        log := log + [Removal(i, j, key)];
      }
    }
    ok, i', j' := true, |cs|, 0;
    CompleteIsIndexed(cs, t.columns, log, t.keyColumn, old(t.entries));
  }

  /* ---------------------------------------------------------------- delete: the rows */

  ghost function RecordsOf(cs: seq<Candidate>): multiset<Row> {
    if cs == [] then multiset{} else RecordsOf(cs[..|cs| - 1]) + multiset{cs[|cs| - 1].record}
  }

  lemma RecordsOfNext(cs: seq<Candidate>, i: nat)
    requires i < |cs|
    ensures RecordsOf(cs[..i + 1]) == RecordsOf(cs[..i]) + multiset{cs[i].record}
  {
    assert cs[..i + 1][..i] == cs[..i];
  }

  lemma SumsGrow<T>(a: multiset<T>, b: multiset<T>, sum: multiset<T>, x: T, more: multiset<T>, grown: multiset<T>)
    requires sum == a + b && more == b + multiset{x} && grown == sum + multiset{x}
    ensures grown == a + more
  {
  }

  lemma OneMoves<T>(a: multiset<T>, b: multiset<T>, x: T, grown: multiset<T>, more: multiset<T>)
    requires grown == a + multiset{x} && more == b + multiset{x}
    ensures grown + b == a + more
  {
  }

  /** Removing one more candidate's key takes away exactly its row. */
  lemma WithoutOneMore(rows: map<Rid, Row>, cs: seq<Candidate>, n: nat, keyColumn: nat, columns: seq<nat>)
    requires n < |cs| && Stored(rows, cs) && Acceptable(cs, keyColumn, columns) && UniqueKeys(rows, keyColumn)
    ensures var before, after := Without(rows, keyColumn, KeysOf(cs[..n], keyColumn)), Without(rows, keyColumn, KeysOf(cs[..n + 1], keyColumn));
      && after == Without(before, keyColumn, {cs[n].record[keyColumn]})
      && Records(before) == Records(after) + multiset{cs[n].record}
  {
    var before, after := Without(rows, keyColumn, KeysOf(cs[..n], keyColumn)), Without(rows, keyColumn, KeysOf(cs[..n + 1], keyColumn));
    var key := cs[n].record[keyColumn];
    KeysOfOneMore(cs, n, keyColumn);
    assert StoredSomewhere(rows, cs[n].record);
    var r :| r in rows && rows[r] == cs[n].record;
    KeyNotBefore(cs, n, keyColumn, columns);
    assert r in before;
    assert after == before - {r};
    RecordsRemove(before, r);
  }

  lemma KeysOfOneMore(cs: seq<Candidate>, n: nat, keyColumn: nat)
    requires n < |cs| && keyColumn < |cs[n].record|
    ensures KeysOf(cs[..n + 1], keyColumn) == KeysOf(cs[..n], keyColumn) + {cs[n].record[keyColumn]}
  {
  }

  lemma KeyNotBefore(cs: seq<Candidate>, n: nat, keyColumn: nat, columns: seq<nat>)
    requires n < |cs| && Acceptable(cs, keyColumn, columns)
    ensures cs[n].record[keyColumn] !in KeysOf(cs[..n], keyColumn)
  {
  }

  /** The next candidate is still there, and no other row has its key. */
  lemma ExactlyOne(rows: map<Rid, Row>, cs: seq<Candidate>, n: nat, keyColumn: nat, columns: seq<nat>)
    requires n < |cs| && Stored(rows, cs) && Acceptable(cs, keyColumn, columns)
    requires UniqueKeys(rows, keyColumn) && forall r | r in rows :: keyColumn < |rows[r]|
    ensures var now := Without(rows, keyColumn, KeysOf(cs[..n], keyColumn));
      |set r | r in now && now[r][keyColumn] == cs[n].record[keyColumn]| == 1
  {
    var now := Without(rows, keyColumn, KeysOf(cs[..n], keyColumn));
    KeyNotBefore(cs, n, keyColumn, columns);
    assert StoredSomewhere(rows, cs[n].record);
    var r :| r in rows && rows[r] == cs[n].record;
    assert (set q | q in now && now[q][keyColumn] == cs[n].record[keyColumn]) == {r};
  }

  /** The rows of the first `n` candidates are gone from `rows`, and no others. */
  ghost predicate Gone(rows: map<Rid, Row>, now: map<Rid, Row>, cs: seq<Candidate>, n: nat, keyColumn: nat) {
    && n <= |cs|
    && now == Without(rows, keyColumn, KeysOf(cs[..n], keyColumn))
    && Records(rows) == Records(now) + RecordsOf(cs[..n])
  }

  lemma NoneGone(rows: map<Rid, Row>, cs: seq<Candidate>, keyColumn: nat)
    ensures Gone(rows, rows, cs, 0, keyColumn)
  {
  }

  lemma OneMoreGone(rows: map<Rid, Row>, now: map<Rid, Row>, cs: seq<Candidate>, n: nat, keyColumn: nat, columns: seq<nat>)
    requires n < |cs| && Gone(rows, now, cs, n, keyColumn)
    requires Stored(rows, cs) && Acceptable(cs, keyColumn, columns) && UniqueKeys(rows, keyColumn)
    ensures Gone(rows, Without(now, keyColumn, {cs[n].record[keyColumn]}), cs, n + 1, keyColumn)
  {
    WithoutOneMore(rows, cs, n, keyColumn, columns);
    RecordsOfNext(cs, n);
    OneMoves(Records(Without(now, keyColumn, {cs[n].record[keyColumn]})), RecordsOf(cs[..n]), cs[n].record,
             Records(now), RecordsOf(cs[..n + 1]));
  }

  /** Some row has the key. */
  ghost predicate KeyStored(rows: map<Rid, Row>, key: Value, keyColumn: nat) {
    exists r :: r in rows && keyColumn < |rows[r]| && rows[r][keyColumn] == key
  }

  /** The rows with the keys of the first `n` candidates were stored and are gone from `rows`, and no others. */
  ghost predicate KeysGone(rows: map<Rid, Row>, now: map<Rid, Row>, cs: seq<Candidate>, n: nat, keyColumn: nat) {
    && n <= |cs| && now == Without(rows, keyColumn, KeysOf(cs[..n], keyColumn))
    && (forall i | 0 <= i < n :: keyColumn < |cs[i].record| && KeyStored(rows, cs[i].record[keyColumn], keyColumn))
  }

  lemma NoKeyGone(rows: map<Rid, Row>, cs: seq<Candidate>, keyColumn: nat)
    ensures KeysGone(rows, rows, cs, 0, keyColumn)
  {
  }

  lemma NothingKeyGone(rows: map<Rid, Row>, now: map<Rid, Row>, cs: seq<Candidate>, keyColumn: nat)
    requires KeysGone(rows, now, cs, 0, keyColumn)
    ensures now == rows
  {
  }

  /** The next key has one row or none, whatever the candidates before it took away. */
  lemma OneMoreKeyGone(rows: map<Rid, Row>, now: map<Rid, Row>, cs: seq<Candidate>, n: nat, keyColumn: nat, columns: seq<nat>)
    requires n < |cs| && KeysGone(rows, now, cs, n, keyColumn) && Acceptable(cs, keyColumn, columns)
    requires UniqueKeys(rows, keyColumn) && forall r | r in rows :: keyColumn < |rows[r]|
    ensures var key := cs[n].record[keyColumn];
      && (|set r | r in now && now[r][keyColumn] == key| == 1 <==> KeyStored(rows, key, keyColumn))
      && (KeyStored(rows, key, keyColumn) ==> KeysGone(rows, Without(now, keyColumn, {key}), cs, n + 1, keyColumn))
      && (!KeyStored(rows, key, keyColumn) ==> Without(now, keyColumn, {key}) == now)
  {
    var key := cs[n].record[keyColumn];
    KeysOfOneMore(cs, n, keyColumn);
    KeyNotBefore(cs, n, keyColumn, columns);
    if KeyStored(rows, key, keyColumn) {
      var r :| r in rows && keyColumn < |rows[r]| && rows[r][keyColumn] == key;
      assert (set q | q in now && now[q][keyColumn] == key) == {r};
    } else {
      assert (set q | q in now && now[q][keyColumn] == key) == {};
    }
  }

  ghost predicate AllKeysStored(rows: map<Rid, Row>, cs: seq<Candidate>, keyColumn: nat) {
    forall i | 0 <= i < |cs| :: keyColumn < |cs[i].record| && KeyStored(rows, cs[i].record[keyColumn], keyColumn)
  }

  lemma StoredHasKeys(rows: map<Rid, Row>, cs: seq<Candidate>, keyColumn: nat, columns: seq<nat>)
    requires Stored(rows, cs) && Acceptable(cs, keyColumn, columns)
    ensures AllKeysStored(rows, cs, keyColumn)
  {
    forall i | 0 <= i < |cs|
      ensures keyColumn < |cs[i].record| && KeyStored(rows, cs[i].record[keyColumn], keyColumn)
    {
      assert StoredSomewhere(rows, cs[i].record) && Fitting(cs[i], keyColumn, columns);
    }
  }

  /** Stored candidates go with their keys, and none is found missing. */
  lemma StoredAreGone(rows: map<Rid, Row>, now: map<Rid, Row>, cs: seq<Candidate>, n: nat, keyColumn: nat, columns: seq<nat>, missing: bool)
    requires KeysGone(rows, now, cs, n, keyColumn)
    requires Stored(rows, cs) && Acceptable(cs, keyColumn, columns) && UniqueKeys(rows, keyColumn)
    requires missing ==> n < |cs| && !KeyStored(rows, cs[n].record[keyColumn], keyColumn)
    ensures Gone(rows, now, cs, n, keyColumn) && !missing
  {
    StoredHasKeys(rows, cs, keyColumn, columns);
    GoneUpTo(rows, cs, n, keyColumn, columns);
  }

  lemma {:induction false} GoneUpTo(rows: map<Rid, Row>, cs: seq<Candidate>, n: nat, keyColumn: nat, columns: seq<nat>)
    requires n <= |cs| && Stored(rows, cs) && Acceptable(cs, keyColumn, columns) && UniqueKeys(rows, keyColumn)
    ensures Gone(rows, Without(rows, keyColumn, KeysOf(cs[..n], keyColumn)), cs, n, keyColumn)
  {
    if n == 0 {
      NoneGone(rows, cs, keyColumn);
      assert Without(rows, keyColumn, KeysOf(cs[..0], keyColumn)) == rows;
    } else {
      var last: nat := n - 1;
      GoneUpTo(rows, cs, last, keyColumn, columns);
      OneMoreGone(rows, Without(rows, keyColumn, KeysOf(cs[..last], keyColumn)), cs, last, keyColumn, columns);
    }
  }

  /** Removes the rows of the candidates by their keys, until one cannot be removed, which takes a
      fault, or has vanished. Says how many were removed. */
  method RemoveRows(t: Table, cs: seq<Candidate>) returns (n: nat)
    requires t.Valid() && Acceptable(cs, t.keyColumn, t.columns)
    modifies t`rows, t`faults
    ensures t.reliable ==> t.faults == old(t.faults)
    ensures t.Valid() && KeysGone(old(t.rows), t.rows, cs, n, t.keyColumn)
    ensures old(t.faults) <= t.faults <= old(t.faults) + 1 && (n == |cs| ==> t.faults == old(t.faults))
    ensures n < |cs| && t.faults == old(t.faults) ==> !KeyStored(old(t.rows), cs[n].record[t.keyColumn], t.keyColumn)
    ensures Stored(old(t.rows), cs) ==>
              && Gone(old(t.rows), t.rows, cs, n, t.keyColumn)
              && t.faults == old(t.faults) + (if n == |cs| then 0 else 1)
  {
    n := 0;
    NoKeyGone(t.rows, cs, t.keyColumn);
    var gone := false;
    while n < |cs| && !gone
      invariant t.Valid() && KeysGone(old(t.rows), t.rows, cs, n, t.keyColumn)
      invariant gone ==> n < |cs|
      invariant t.faults == old(t.faults)
                || (gone && t.faults == old(t.faults) + 1 && !t.reliable)
      invariant gone && t.faults == old(t.faults) ==> !KeyStored(old(t.rows), cs[n].record[t.keyColumn], t.keyColumn)
      decreases |cs| - n, !gone
    {
      OneMoreKeyGone(old(t.rows), t.rows, cs, n, t.keyColumn, t.columns);
      var removed := t.Remove(cs[n].record[t.keyColumn]);
      if removed == Some(1) {
        n := n + 1;
      } else {
        gone := true;
      }
    }
    if Stored(old(t.rows), cs) {
      StoredAreGone(old(t.rows), t.rows, cs, n, t.keyColumn, t.columns, gone && t.faults == old(t.faults));
    }
  }

  /* ---------------------------------------------------------------- delete: rollback */

  /** `rows` is `base` with the restored candidates at new identifiers. */
  ghost predicate Restored(base: map<Rid, Row>, rows: map<Rid, Row>, cs: seq<Candidate>, n: nat, restored: map<nat, Rid>) {
    && n <= |cs|
    && (forall r | r in base :: r in rows && rows[r] == base[r])
    && (forall i | i in restored :: i < n && restored[i] !in base && restored[i] in rows && rows[restored[i]] == cs[i].record)
    && (forall r | r in rows && r !in base :: exists i :: i in restored && restored[i] == r)
    && (forall i, j | i in restored && j in restored && restored[i] == restored[j] :: i == j)
  }

  /** All of the rows removed from position `i` on are back. */
  ghost predicate AllBack(base: map<Rid, Row>, rows: map<Rid, Row>, cs: seq<Candidate>, i: nat, n: nat, restored: map<nat, Rid>) {
    && i <= n <= |cs|
    && (forall j: nat :: j in restored <==> i <= j < n)
    && Records(rows) + RecordsOf(cs[..i]) == Records(base) + RecordsOf(cs[..n])
  }

  lemma OneMoreBack(base: map<Rid, Row>, rows: map<Rid, Row>, cs: seq<Candidate>, i: nat, n: nat, restored: map<nat, Rid>, rid: Rid)
    requires AllBack(base, rows, cs, i + 1, n, restored) && rid !in rows
    ensures AllBack(base, rows[rid := cs[i].record], cs, i, n, restored[i := rid])
  {
    var x := cs[i].record;
    RecordsInsert(rows, rid, x);
    RecordsOfNext(cs, i);
    OneMoves(Records(rows), RecordsOf(cs[..i]), x, Records(rows[rid := x]), RecordsOf(cs[..i + 1]));
  }

  /** A row the table has no reason to refuse. */
  ghost predicate Welcome(rows: map<Rid, Row>, row: Row, keyColumn: nat, width: nat) {
    keyColumn < |row| == width && forall r | r in rows && keyColumn < |rows[r]| :: rows[r][keyColumn] != row[keyColumn]
  }

  ghost predicate Missing(rows: map<Rid, Row>, cs: seq<Candidate>, i: nat, keyColumn: nat, width: nat) {
    i <= |cs| && forall j | 0 <= j < i :: Welcome(rows, cs[j].record, keyColumn, width)
  }

  lemma GoneIsMissing(rows: map<Rid, Row>, cs: seq<Candidate>, n: nat, keyColumn: nat, columns: seq<nat>, width: nat)
    requires n <= |cs| && Stored(rows, cs) && Acceptable(cs, keyColumn, columns) && forall r | r in rows :: |rows[r]| == width
    ensures Missing(Without(rows, keyColumn, KeysOf(cs[..n], keyColumn)), cs, n, keyColumn, width)
  {
    forall j | 0 <= j < n
      ensures Welcome(Without(rows, keyColumn, KeysOf(cs[..n], keyColumn)), cs[j].record, keyColumn, width)
    {
      assert StoredSomewhere(rows, cs[j].record) && Fitting(cs[j], keyColumn, columns) && cs[..n][j] == cs[j];
      assert cs[j].record[keyColumn] in KeysOf(cs[..n], keyColumn);
    }
  }

  lemma OthersStayMissing(rows: map<Rid, Row>, cs: seq<Candidate>, i: nat, keyColumn: nat, columns: seq<nat>, width: nat, rid: Rid)
    requires Missing(rows, cs, i + 1, keyColumn, width) && Acceptable(cs, keyColumn, columns)
    ensures Missing(rows[rid := cs[i].record], cs, i, keyColumn, width)
  {
    forall j | 0 <= j < i
      ensures Welcome(rows[rid := cs[i].record], cs[j].record, keyColumn, width)
    {
      assert Welcome(rows, cs[j].record, keyColumn, width);
    }
  }

  /** The rows from position `i` on were offered to the table again; `unharmed` says that nothing failed. */
  ghost predicate Restoring(base: map<Rid, Row>, rows: map<Rid, Row>, cs: seq<Candidate>, i: nat, n: nat,
                            restored: map<nat, Rid>, keyColumn: nat, width: nat, unharmed: bool) {
    && Restored(base, rows, cs, n, restored) && Missing(rows, cs, i, keyColumn, width)
    && (forall j | j in restored :: i <= j)
    && (unharmed ==> AllBack(base, rows, cs, i, n, restored))
  }

  /** The table took the next row at `rid`, or failed. */
  lemma OneMoreOffered(base: map<Rid, Row>, rows: map<Rid, Row>, cs: seq<Candidate>, i: nat, n: nat, restored: map<nat, Rid>,
                       keyColumn: nat, columns: seq<nat>, width: nat, unharmed: bool, rid: Option<Rid>)
    requires Restoring(base, rows, cs, i + 1, n, restored, keyColumn, width, unharmed)
    requires Acceptable(cs, keyColumn, columns) && i < n && (rid.Some? ==> rid.value !in rows)
    ensures rid.None? ==> Restoring(base, rows, cs, i, n, restored, keyColumn, width, false)
    ensures rid.Some? ==>
      Restoring(base, rows[rid.value := cs[i].record], cs, i, n, restored[i := rid.value], keyColumn, width, unharmed)
  {
    if rid.Some? {
      OneMoreRestored(base, rows, cs, n, restored, i, rid.value);
      OthersStayMissing(rows, cs, i, keyColumn, columns, width, rid.value);
      if unharmed {
        OneMoreBack(base, rows, cs, i, n, restored, rid.value);
      }
    }
  }

  lemma NoneOffered(base: map<Rid, Row>, cs: seq<Candidate>, n: nat, keyColumn: nat, width: nat)
    requires Missing(base, cs, n, keyColumn, width)
    ensures Restoring(base, base, cs, n, n, map[], keyColumn, width, true)
  {
  }

  lemma WelcomeIsAdmitted(t: Table, row: Row)
    requires t.Valid() && Welcome(t.rows, row, t.keyColumn, t.width)
    ensures t.Admits(row)
  {
  }

  /** Puts the removed rows back, last first, each wherever the table places it. If their keys are
      missing and their widths right, the table has no reason to refuse any of them. */
  method RestoreRows(t: Table, cs: seq<Candidate>, n: nat) returns (restored: map<nat, Rid>)
    requires t.Valid() && n <= |cs|
    modifies t`rows, t`faults
    ensures t.reliable ==> t.faults == old(t.faults)
    ensures t.Valid() && old(t.faults) <= t.faults
    ensures Restored(old(t.rows), t.rows, cs, n, restored)
    ensures Acceptable(cs, t.keyColumn, t.columns) && Missing(old(t.rows), cs, n, t.keyColumn, t.width) ==>
              Restoring(old(t.rows), t.rows, cs, 0, n, restored, t.keyColumn, t.width, t.faults == old(t.faults))
  {
    restored := map[];
    ghost var missing := Acceptable(cs, t.keyColumn, t.columns) && Missing(t.rows, cs, n, t.keyColumn, t.width);
    NoneTried(t.rows, cs, n, t.keyColumn, t.width, missing);
    for i := n downto 0
      invariant t.Valid() && old(t.faults) <= t.faults
      invariant t.reliable ==> t.faults == old(t.faults)
      invariant Trying(old(t.rows), t.rows, cs, i, n, restored, t.keyColumn, t.width, t.faults == old(t.faults), missing)
    {
      ghost var before, unharmed := t.rows, t.faults == old(t.faults);
      if missing {
        WelcomeIsAdmitted(t, cs[i].record);
      }
      var rid := t.Insert(cs[i].record);
      OneMoreTried(old(t.rows), before, cs, i, n, restored, t.keyColumn, t.columns, t.width, unharmed, missing, rid);
      if rid.Some? {
        restored := restored[i := rid.value];
      }
    }
  }

  /** The same for any rows; only for `missing` ones it is known that the table takes them. */
  ghost predicate Trying(base: map<Rid, Row>, rows: map<Rid, Row>, cs: seq<Candidate>, i: nat, n: nat,
                         restored: map<nat, Rid>, keyColumn: nat, width: nat, unharmed: bool, missing: bool) {
    && Restored(base, rows, cs, n, restored) && (forall j | j in restored :: i <= j)
    && (missing ==> Restoring(base, rows, cs, i, n, restored, keyColumn, width, unharmed))
  }

  lemma NoneTried(base: map<Rid, Row>, cs: seq<Candidate>, n: nat, keyColumn: nat, width: nat, missing: bool)
    requires n <= |cs| && (missing ==> Missing(base, cs, n, keyColumn, width))
    ensures Trying(base, base, cs, n, n, map[], keyColumn, width, true, missing)
  {
    if missing {
      NoneOffered(base, cs, n, keyColumn, width);
    }
  }

  lemma OneMoreTried(base: map<Rid, Row>, rows: map<Rid, Row>, cs: seq<Candidate>, i: nat, n: nat, restored: map<nat, Rid>,
                     keyColumn: nat, columns: seq<nat>, width: nat, unharmed: bool, missing: bool, rid: Option<Rid>)
    requires Trying(base, rows, cs, i + 1, n, restored, keyColumn, width, unharmed, missing) && i < n
    requires (missing ==> Acceptable(cs, keyColumn, columns)) && (rid.Some? ==> rid.value !in rows)
    ensures rid.None? ==> Trying(base, rows, cs, i, n, restored, keyColumn, width, false, missing)
    ensures rid.Some? ==>
      Trying(base, rows[rid.value := cs[i].record], cs, i, n, restored[i := rid.value], keyColumn, width, unharmed, missing)
  {
    if missing {
      OneMoreOffered(base, rows, cs, i, n, restored, keyColumn, columns, width, unharmed, rid);
    }
    if rid.Some? {
      OneMoreRestored(base, rows, cs, n, restored, i, rid.value);
    }
  }

  lemma OneMoreRestored(base: map<Rid, Row>, rows: map<Rid, Row>, cs: seq<Candidate>, n: nat, restored: map<nat, Rid>, i: nat, rid: Rid)
    requires Restored(base, rows, cs, n, restored) && i < n && i !in restored && rid !in rows
    ensures Restored(base, rows[rid := cs[i].record], cs, n, restored[i := rid])
  {
    var after := restored[i := rid];
    forall r | r in rows[rid := cs[i].record] && r !in base
      ensures exists j :: j in after && after[j] == r
    {
      if r == rid {
        assert i in after && after[i] == r;
      } else {
        var j :| j in restored && restored[j] == r;
        assert j in after && after[j] == r;
      }
    }
  }

  /** Where the row of a logged candidate is now, if it is anywhere. */
  function RestoredRid(rows: map<Rid, Row>, cs: seq<Candidate>, i: nat, n: nat, restored: map<nat, Rid>): Option<Rid>
    requires i < |cs|
  {
    if i in restored then Some(restored[i])
    else if i < n then None
    else if cs[i].rid.Some? && cs[i].rid.value in rows then cs[i].rid
    else None
  }

  /** The pairs of index `k` the log calls for now. */
  ghost function Relogged(rows: map<Rid, Row>, cs: seq<Candidate>, n: nat, restored: map<nat, Rid>, log: seq<Removal>, k: nat): set<Entry> {
    set e | e in log && e.index == k && e.candidate < |cs| && RestoredRid(rows, cs, e.candidate, n, restored).Some? ::
      (e.key, RestoredRid(rows, cs, e.candidate, n, restored).value)
  }

  lemma ReloggedPrepend(rows: map<Rid, Row>, cs: seq<Candidate>, n: nat, restored: map<nat, Rid>, log: seq<Removal>, i: nat, k: nat)
    requires i < |log| && log[i].candidate < |cs|
    ensures var rid := RestoredRid(rows, cs, log[i].candidate, n, restored);
      Relogged(rows, cs, n, restored, log[i..], k)
      == Relogged(rows, cs, n, restored, log[i + 1..], k)
         + (if log[i].index == k && rid.Some? then {(log[i].key, rid.value)} else {})
  {
  }

  /** Index by index, pairs the log calls for were added, and all of them if nothing failed. */
  ghost predicate Reinserted(before: seq<set<Entry>>, now: seq<set<Entry>>, rows: map<Rid, Row>, cs: seq<Candidate>, n: nat,
                             restored: map<nat, Rid>, log: seq<Removal>, unharmed: bool) {
    && |now| == |before|
    && (forall k | 0 <= k < |now| ::
          var again := Relogged(rows, cs, n, restored, log, k);
          before[k] <= now[k] <= before[k] + again && (unharmed ==> now[k] == before[k] + again))
  }

  /** Puts the pairs back, last first, with the identifiers the rows have now. */
  method ReinsertEntries(t: Table, cs: seq<Candidate>, log: seq<Removal>, n: nat, restored: map<nat, Rid>)
    requires |t.entries| == |t.columns| && LogOk(cs, t.columns, log)
    modifies t`entries, t`faults
    ensures t.reliable ==> t.faults == old(t.faults)
    ensures |t.entries| == |t.columns| && old(t.faults) <= t.faults
    ensures Reinserted(old(t.entries), t.entries, t.rows, cs, n, restored, log, t.faults == old(t.faults))
  {
    for i := |log| downto 0
      invariant |t.entries| == |t.columns| && old(t.faults) <= t.faults
      invariant t.reliable ==> t.faults == old(t.faults)
      invariant Reinserted(old(t.entries), t.entries, t.rows, cs, n, restored, log[i..], t.faults == old(t.faults))
    {
      var e := log[i];
      forall k | 0 <= k < |t.columns| {
        ReloggedPrepend(t.rows, cs, n, restored, log, i, k);
      }
      var rid := RestoredRid(t.rows, cs, e.candidate, n, restored);
      if rid.Some? {
        var _ := t.IndexInsert(e.index, e.key, rid.value);
      }
    }
    assert log[0..] == log;
  }

  /* ---------------------------------------------------------------- delete: what a rollback gives */

  /** The situation after the rows are back: `n` rows had been removed from `rows`, which only
      happens once every pair is in the log, and `now` is what the table holds. */
  ghost predicate RolledBack(rows: map<Rid, Row>, now: map<Rid, Row>, cs: seq<Candidate>, log: seq<Removal>, n: nat,
                             restored: map<nat, Rid>, keyColumn: nat, columns: seq<nat>) {
    && UniqueKeys(rows, keyColumn)
    && (forall r | r in rows :: keyColumn < |rows[r]|)
    && Acceptable(cs, keyColumn, columns) && Live(rows, cs)
    && LogOk(cs, columns, log) && n <= |cs| && (0 < n ==> Complete(cs, columns, log))
    && Restored(Without(rows, keyColumn, KeysOf(cs[..n], keyColumn)), now, cs, n, restored)
  }

  /** A candidate that was not removed is still where it was. */
  lemma LateCandidateStays(rows: map<Rid, Row>, cs: seq<Candidate>, i: nat, n: nat, keyColumn: nat, columns: seq<nat>)
    requires Acceptable(cs, keyColumn, columns) && Live(rows, cs)
    requires n <= i < |cs| && cs[i].rid.Some?
    ensures var r := cs[i].rid.value; var base := Without(rows, keyColumn, KeysOf(cs[..n], keyColumn));
      r in base && base[r] == cs[i].record
  {
  }

  lemma EarlyPairIsLogged(rows: map<Rid, Row>, cs: seq<Candidate>, log: seq<Removal>, n: nat, keyColumn: nat,
                          columns: seq<nat>, k: nat, r: Rid)
    requires UniqueKeys(rows, keyColumn) && Acceptable(cs, keyColumn, columns) && Live(rows, cs)
    requires n <= |cs| && LogOk(cs, columns, log) && Complete(cs, columns, log) && k < |columns|
    requires r in rows && keyColumn < |rows[r]| && columns[k] < |rows[r]|
    requires rows[r][keyColumn] in KeysOf(cs[..n], keyColumn)
    ensures (rows[r][columns[k]], r) in Logged(cs, log, k)
  {
  }

  /** What remains in an index once the logged pairs are gone belongs to rows that were not removed. */
  lemma RemainingPairsAreRight(rows: map<Rid, Row>, now: map<Rid, Row>, cs: seq<Candidate>, log: seq<Removal>, n: nat,
                               restored: map<nat, Rid>, keyColumn: nat, columns: seq<nat>, k: nat)
    requires RolledBack(rows, now, cs, log, n, restored, keyColumn, columns) && k < |columns|
    ensures IndexOf(rows, columns[k]) - Logged(cs, log, k) <= IndexOf(now, columns[k])
  {
    forall p | p in IndexOf(rows, columns[k]) && p !in Logged(cs, log, k)
      ensures p in IndexOf(now, columns[k])
    {
      var r := p.1;
      if rows[r][keyColumn] in KeysOf(cs[..n], keyColumn) {
        EarlyPairIsLogged(rows, cs, log, n, keyColumn, columns, k, r);
      } else {
        assert now[r] == rows[r];
      }
    }
  }

  /** Every pair the log calls for belongs to the row where it is now. */
  lemma ReinsertedPairsAreRight(rows: map<Rid, Row>, now: map<Rid, Row>, cs: seq<Candidate>, log: seq<Removal>, n: nat,
                                restored: map<nat, Rid>, keyColumn: nat, columns: seq<nat>, k: nat)
    requires RolledBack(rows, now, cs, log, n, restored, keyColumn, columns) && k < |columns|
    ensures Relogged(now, cs, n, restored, log, k) <= IndexOf(now, columns[k])
  {
    forall p | p in Relogged(now, cs, n, restored, log, k)
      ensures p in IndexOf(now, columns[k])
    {
      var e :| e in log && e.index == k && e.candidate < |cs|
               && RestoredRid(now, cs, e.candidate, n, restored).Some?
               && p == (e.key, RestoredRid(now, cs, e.candidate, n, restored).value);
      var i := e.candidate;
      if i !in restored {
        LateCandidateStays(rows, cs, i, n, keyColumn, columns);
      }
      assert now[p.1] == cs[i].record;
    }
  }

  /** Once all rows are back, every pair of the table either remained or is called for. */
  lemma NoPairIsMissing(rows: map<Rid, Row>, now: map<Rid, Row>, cs: seq<Candidate>, log: seq<Removal>, n: nat,
                        restored: map<nat, Rid>, keyColumn: nat, columns: seq<nat>, k: nat)
    requires RolledBack(rows, now, cs, log, n, restored, keyColumn, columns) && k < |columns|
    ensures IndexOf(now, columns[k]) <= (IndexOf(rows, columns[k]) - Logged(cs, log, k)) + Relogged(now, cs, n, restored, log, k)
  {
    forall p | p in IndexOf(now, columns[k])
      ensures p in (IndexOf(rows, columns[k]) - Logged(cs, log, k)) + Relogged(now, cs, n, restored, log, k)
    {
      var r := p.1;
      if r in Without(rows, keyColumn, KeysOf(cs[..n], keyColumn)) {
        assert now[r] == rows[r] && p in IndexOf(rows, columns[k]);
        if p in Logged(cs, log, k) {
          var e :| e in log && e.index == k && e.candidate < |cs| && cs[e.candidate].rid.Some?
                   && p == (e.key, cs[e.candidate].rid.value);
          LoggedCandidateIsLate(rows, cs, e.candidate, n, keyColumn, columns, r);
          assert e.candidate !in restored;
          assert RestoredRid(now, cs, e.candidate, n, restored) == Some(r);
        }
      } else {
        var i :| i in restored && restored[i] == r;
        var e := Removal(i, k, cs[i].record[columns[k]]);
        assert e in log;
        assert RestoredRid(now, cs, e.candidate, n, restored) == Some(r);
      }
    }
  }

  /** An index after the compensation holds pairs of the table only, and all of them if it has every
      pair the log calls for. */
  lemma MendedIndex(rows: map<Rid, Row>, now: map<Rid, Row>, cs: seq<Candidate>, log: seq<Removal>, n: nat,
                    restored: map<nat, Rid>, keyColumn: nat, columns: seq<nat>, k: nat, entries: set<Entry>)
    requires RolledBack(rows, now, cs, log, n, restored, keyColumn, columns) && k < |columns|
    ensures var kept, again := IndexOf(rows, columns[k]) - Logged(cs, log, k), Relogged(now, cs, n, restored, log, k);
      && (entries <= kept + again ==> entries <= IndexOf(now, columns[k]))
      && (entries == kept + again ==> entries == IndexOf(now, columns[k]))
  {
    RemainingPairsAreRight(rows, now, cs, log, n, restored, keyColumn, columns, k);
    ReinsertedPairsAreRight(rows, now, cs, log, n, restored, keyColumn, columns, k);
    NoPairIsMissing(rows, now, cs, log, n, restored, keyColumn, columns, k);
  }

  lemma LoggedCandidateIsLate(rows: map<Rid, Row>, cs: seq<Candidate>, i: nat, n: nat, keyColumn: nat, columns: seq<nat>, r: Rid)
    requires Acceptable(cs, keyColumn, columns) && Live(rows, cs)
    requires i < |cs| && n <= |cs| && cs[i].rid == Some(r)
    requires r in Without(rows, keyColumn, KeysOf(cs[..n], keyColumn))
    ensures n <= i
  {
  }

  /** When no row has to come back, the indexes are right as they are. */
  lemma DeletedExact(rows: map<Rid, Row>, now: map<Rid, Row>, cs: seq<Candidate>, log: seq<Removal>, keyColumn: nat,
                     columns: seq<nat>, k: nat)
    requires RolledBack(rows, now, cs, log, |cs|, map[], keyColumn, columns) && k < |columns|
    ensures IndexOf(rows, columns[k]) - Logged(cs, log, k) == IndexOf(now, columns[k])
  {
    RemainingPairsAreRight(rows, now, cs, log, |cs|, map[], keyColumn, columns, k);
    NoPairIsMissing(rows, now, cs, log, |cs|, map[], keyColumn, columns, k);
    assert Relogged(now, cs, |cs|, map[], log, k) == {};
  }

  /** Rows that no candidate names are never among those gone. */
  lemma OthersAreThere(rows: map<Rid, Row>, now: map<Rid, Row>, cs: seq<Candidate>, n: nat, keyColumn: nat)
    requires KeysGone(rows, now, cs, n, keyColumn)
    ensures forall q | q in Without(rows, keyColumn, KeysOf(cs, keyColumn)) :: q in now && now[q] == rows[q]
  {
    assert KeysOf(cs[..n], keyColumn) <= KeysOf(cs, keyColumn);
  }

  /** What the statement had done when it failed: the first `n` rows are gone from `rows`, and the logged
      pairs from the indexes. */
  ghost predicate HalfDone(rows: map<Rid, Row>, before: seq<set<Entry>>, now: map<Rid, Row>, entries: seq<set<Entry>>,
                           cs: seq<Candidate>, log: seq<Removal>, n: nat, keyColumn: nat, columns: seq<nat>, width: nat) {
    && UniqueKeys(rows, keyColumn) && keyColumn < width && (forall r | r in rows :: |rows[r]| == width)
    && |before| == |columns| == |entries| && (forall k | 0 <= k < |columns| :: before[k] == IndexOf(rows, columns[k]))
    && Acceptable(cs, keyColumn, columns) && Stored(rows, cs)
    && LogOk(cs, columns, log) && (0 < n ==> Complete(cs, columns, log))
    && Gone(rows, now, cs, n, keyColumn)
    && (forall k | 0 <= k < |columns| ::
          Logged(cs, log, k) <= before[k] && entries[k] == before[k] - Logged(cs, log, k))
  }

  /** When no row was removed, the log calls for the pairs it lists. */
  lemma ReloggedInPlace(rows: map<Rid, Row>, cs: seq<Candidate>, columns: seq<nat>, log: seq<Removal>, k: nat)
    requires LogOk(cs, columns, log) && k < |columns| && Logged(cs, log, k) <= IndexOf(rows, columns[k])
    ensures Relogged(rows, cs, 0, map[], log, k) == Logged(cs, log, k)
  {
    forall e | e in log && e.index == k
      ensures RestoredRid(rows, cs, e.candidate, 0, map[]) == cs[e.candidate].rid
    {
      assert (e.key, cs[e.candidate].rid.value) in Logged(cs, log, k);
    }
  }

  lemma NothingToRestore(base: map<Rid, Row>, rows: map<Rid, Row>, cs: seq<Candidate>, restored: map<nat, Rid>)
    requires Restored(base, rows, cs, 0, restored)
    ensures restored == map[] && rows == base
  {
    assert forall i | i in restored :: false;
    forall r | r in rows
      ensures r in base
    {
    }
  }

  lemma NothingGone(rows: map<Rid, Row>, now: map<Rid, Row>, cs: seq<Candidate>, keyColumn: nat)
    requires Gone(rows, now, cs, 0, keyColumn)
    ensures now == rows
  {
  }

  /** With no row to put back, mending undoes what was done. */
  lemma MendedUnchanged(rows: map<Rid, Row>, before: seq<set<Entry>>, gone: map<Rid, Row>, fewer: seq<set<Entry>>,
                        now: map<Rid, Row>, entries: seq<set<Entry>>, cs: seq<Candidate>, log: seq<Removal>,
                        restored: map<nat, Rid>, keyColumn: nat, columns: seq<nat>, width: nat)
    requires HalfDone(rows, before, gone, fewer, cs, log, 0, keyColumn, columns, width)
    requires Restored(gone, now, cs, 0, restored) && Reinserted(fewer, entries, now, cs, 0, restored, log, true)
    ensures now == rows && entries == before
  {
    NothingGone(rows, gone, cs, keyColumn);
    NothingToRestore(gone, now, cs, restored);
    forall k | 0 <= k < |columns|
      ensures entries[k] == before[k]
    {
      ReloggedInPlace(rows, cs, columns, log, k);
    }
  }

  /** For candidates that are where they say, mending leaves no pair without its row, and if nothing
      fails, no row without its pair. */
  lemma MendedIsRight(rows: map<Rid, Row>, before: seq<set<Entry>>, gone: map<Rid, Row>, fewer: seq<set<Entry>>,
                      now: map<Rid, Row>, entries: seq<set<Entry>>, cs: seq<Candidate>, log: seq<Removal>, n: nat,
                      restored: map<nat, Rid>, keyColumn: nat, columns: seq<nat>, width: nat, unharmed: bool)
    requires HalfDone(rows, before, gone, fewer, cs, log, n, keyColumn, columns, width) && Live(rows, cs)
    requires Restored(gone, now, cs, n, restored) && Reinserted(fewer, entries, now, cs, n, restored, log, unharmed)
    ensures forall k | 0 <= k < |columns| :: entries[k] <= IndexOf(now, columns[k])
    ensures unharmed ==> forall k | 0 <= k < |columns| :: entries[k] == IndexOf(now, columns[k])
  {
    assert RolledBack(rows, now, cs, log, n, restored, keyColumn, columns);
    forall k | 0 <= k < |columns| {
      MendedIndex(rows, now, cs, log, n, restored, keyColumn, columns, k, entries[k]);
    }
  }

  lemma AllAreBack(rows: map<Rid, Row>, gone: map<Rid, Row>, now: map<Rid, Row>, cs: seq<Candidate>, n: nat,
                   restored: map<nat, Rid>, keyColumn: nat)
    requires Gone(rows, gone, cs, n, keyColumn) && AllBack(gone, now, cs, 0, n, restored)
    ensures Records(now) == Records(rows)
  {
    assert cs[..0] == [];
  }

  /** Puts removed rows back and mends the indexes. Rows that are there stay where they are; with no row to
      put back, the indexes get the pairs the log calls for. Of a statement that began with exact indexes:
      if nothing fails and no row was removed, nothing is changed; for candidates that are where they say,
      the table holds the same records as before and every index is right if nothing fails, and whatever
      fails on the way, no index ends with a pair that is not in the table. */
  method Rollback(t: Table, cs: seq<Candidate>, log: seq<Removal>, n: nat,
                  ghost rows: map<Rid, Row>, ghost before: seq<set<Entry>>)
    requires t.Valid() && LogOk(cs, t.columns, log) && n <= |cs|
    modifies t
    ensures t.reliable ==> t.faults == old(t.faults)
    ensures t.Valid() && old(t.faults) <= t.faults
    ensures forall q | q in old(t.rows) :: q in t.rows && t.rows[q] == old(t.rows)[q]
    ensures n == 0 ==> t.rows == old(t.rows)
    ensures n == 0 && t.faults == old(t.faults) ==>
              forall k | 0 <= k < |t.columns| :: t.entries[k] == old(t.entries)[k] + Relogged(t.rows, cs, 0, map[], log, k)
    ensures HalfDone(rows, before, old(t.rows), old(t.entries), cs, log, n, t.keyColumn, t.columns, t.width) ==>
              && (t.faults == old(t.faults) && n == 0 ==> t.rows == rows && t.entries == before)
              && (Live(rows, cs) ==> t.NothingDangles())
              && (Live(rows, cs) && t.faults == old(t.faults) ==> t.Exact() && Records(t.rows) == Records(rows))
  {
    ghost var gone, fewer := t.rows, t.entries;
    ghost var begun := HalfDone(rows, before, gone, fewer, cs, log, n, t.keyColumn, t.columns, t.width);
    if begun {
      GoneIsMissing(rows, cs, n, t.keyColumn, t.columns, t.width);
    }
    var restored := RestoreRows(t, cs, n);
    if n == 0 {
      NothingToRestore(gone, t.rows, cs, restored);
    }
    ReinsertEntries(t, cs, log, n, restored);
    if begun {
      ghost var unharmed := t.faults == old(t.faults);
      Mended(rows, before, gone, fewer, t.rows, t.entries, cs, log, n, restored, t.keyColumn, t.columns, t.width, unharmed);
    }
  }

  lemma Mended(rows: map<Rid, Row>, before: seq<set<Entry>>, gone: map<Rid, Row>, fewer: seq<set<Entry>>,
               now: map<Rid, Row>, entries: seq<set<Entry>>, cs: seq<Candidate>, log: seq<Removal>, n: nat,
               restored: map<nat, Rid>, keyColumn: nat, columns: seq<nat>, width: nat, unharmed: bool)
    requires HalfDone(rows, before, gone, fewer, cs, log, n, keyColumn, columns, width)
    requires Restored(gone, now, cs, n, restored) && (unharmed ==> AllBack(gone, now, cs, 0, n, restored))
    requires Reinserted(fewer, entries, now, cs, n, restored, log, unharmed)
    ensures unharmed && n == 0 ==> now == rows && entries == before
    ensures Live(rows, cs) ==> forall k | 0 <= k < |columns| :: entries[k] <= IndexOf(now, columns[k])
    ensures Live(rows, cs) && unharmed ==> forall k | 0 <= k < |columns| :: entries[k] == IndexOf(now, columns[k])
    ensures unharmed ==> Records(now) == Records(rows)
  {
    if unharmed && n == 0 {
      MendedUnchanged(rows, before, gone, fewer, now, entries, cs, log, restored, keyColumn, columns, width);
    }
    if Live(rows, cs) {
      MendedIsRight(rows, before, gone, fewer, now, entries, cs, log, n, restored, keyColumn, columns, width, unharmed);
    }
    if unharmed {
      AllAreBack(rows, gone, now, cs, n, restored, keyColumn);
    }
  }

  /** The pairs of the candidates in index `k`. */
  ghost function PairsOf(cs: seq<Candidate>, columns: seq<nat>, k: nat): set<Entry>
    requires k < |columns|
  {
    set i | 0 <= i < |cs| && columns[k] < |cs[i].record| && cs[i].rid.Some? :: (cs[i].record[columns[k]], cs[i].rid.value)
  }

  lemma CompleteLogged(cs: seq<Candidate>, columns: seq<nat>, log: seq<Removal>, k: nat)
    requires LogOk(cs, columns, log) && Complete(cs, columns, log) && k < |columns|
    ensures Logged(cs, log, k) == PairsOf(cs, columns, k)
  {
    forall i | 0 <= i < |cs| && columns[k] < |cs[i].record| && cs[i].rid.Some?
      ensures (cs[i].record[columns[k]], cs[i].rid.value) in Logged(cs, log, k)
    {
      assert Removal(i, k, cs[i].record[columns[k]]) in log;
    }
  }

  /** With all rows and pairs gone, exactly the candidates are. */
  lemma AllGone(rows: map<Rid, Row>, before: seq<set<Entry>>, now: map<Rid, Row>, entries: seq<set<Entry>>,
                cs: seq<Candidate>, log: seq<Removal>, i: nat, j: nat, keyColumn: nat, columns: seq<nat>)
    requires Removing(cs, columns, before, entries, log, i, j) && Complete(cs, columns, log)
    requires KeysGone(rows, now, cs, |cs|, keyColumn)
    ensures now == Without(rows, keyColumn, KeysOf(cs, keyColumn))
    ensures forall k | 0 <= k < |columns| :: entries[k] == before[k] - PairsOf(cs, columns, k)
  {
    assert cs[..|cs|] == cs;
    forall k | 0 <= k < |columns| {
      CompleteLogged(cs, columns, log, k);
    }
  }

  /** Candidates that are where they say leave the indexes right. */
  lemma GoneLeavesExact(rows: map<Rid, Row>, before: seq<set<Entry>>, now: map<Rid, Row>, entries: seq<set<Entry>>,
                        cs: seq<Candidate>, log: seq<Removal>, keyColumn: nat, columns: seq<nat>, width: nat)
    requires HalfDone(rows, before, now, entries, cs, log, |cs|, keyColumn, columns, width) && Complete(cs, columns, log)
    requires Live(rows, cs)
    ensures forall k | 0 <= k < |columns| :: entries[k] == IndexOf(now, columns[k])
  {
    NoneRestored(rows, now, cs, log, keyColumn, columns);
    forall k | 0 <= k < |columns| {
      DeletedExact(rows, now, cs, log, keyColumn, columns, k);
    }
  }

  lemma NoneRestored(rows: map<Rid, Row>, now: map<Rid, Row>, cs: seq<Candidate>, log: seq<Removal>, keyColumn: nat, columns: seq<nat>)
    requires UniqueKeys(rows, keyColumn) && (forall r | r in rows :: keyColumn < |rows[r]|)
    requires Acceptable(cs, keyColumn, columns) && Live(rows, cs) && LogOk(cs, columns, log) && Complete(cs, columns, log)
    requires now == Without(rows, keyColumn, KeysOf(cs[..|cs|], keyColumn))
    ensures RolledBack(rows, now, cs, log, |cs|, map[], keyColumn, columns)
  {
  }

  /** First all pairs, then all rows; stops at the first step that fails. */
  method RemoveAll(t: Table, cs: seq<Candidate>)
    returns (log: seq<Removal>, n: nat, done: bool, ghost i: nat, ghost j: nat)
    requires t.Valid() && Acceptable(cs, t.keyColumn, t.columns)
    modifies t
    ensures t.reliable ==> t.faults == old(t.faults)
    ensures t.Valid()
    ensures Removing(cs, t.columns, old(t.entries), t.entries, log, i, j)
    ensures KeysGone(old(t.rows), t.rows, cs, n, t.keyColumn) && (0 < n ==> Complete(cs, t.columns, log))
    ensures old(t.faults) <= t.faults <= old(t.faults) + 1
    ensures done <==> Indexed(cs, t.columns, old(t.entries)) && AllKeysStored(old(t.rows), cs, t.keyColumn) && t.faults == old(t.faults)
    ensures done ==> n == |cs| && Complete(cs, t.columns, log)
    ensures !done && t.faults == old(t.faults) ==> StoppedAt(old(t.rows), old(t.entries), cs, t.keyColumn, t.columns, n, i, j)
    ensures old(t.Exact()) && Stored(old(t.rows), cs) ==>
              && HalfDone(old(t.rows), old(t.entries), t.rows, t.entries, cs, log, n, t.keyColumn, t.columns, t.width)
              && (!done && t.faults == old(t.faults) ==> n == 0)
  {
    log, n, done, i, j := RemoveSteps(t, cs);
    if old(t.Exact()) && Stored(old(t.rows), cs) {
      StoredHasKeys(old(t.rows), cs, t.keyColumn, t.columns);
      HalfWay(old(t.rows), old(t.entries), t.rows, t.entries, cs, log, n, i, j, t.keyColumn, t.columns, t.width);
    }
  }

  method RemoveSteps(t: Table, cs: seq<Candidate>)
    returns (log: seq<Removal>, n: nat, done: bool, ghost i: nat, ghost j: nat)
    requires t.Valid() && Acceptable(cs, t.keyColumn, t.columns)
    modifies t
    ensures t.reliable ==> t.faults == old(t.faults)
    ensures t.Valid()
    ensures Removing(cs, t.columns, old(t.entries), t.entries, log, i, j)
    ensures KeysGone(old(t.rows), t.rows, cs, n, t.keyColumn) && (0 < n ==> Complete(cs, t.columns, log))
    ensures old(t.faults) <= t.faults <= old(t.faults) + 1
    ensures done <==> Indexed(cs, t.columns, old(t.entries)) && AllKeysStored(old(t.rows), cs, t.keyColumn) && t.faults == old(t.faults)
    ensures done ==> n == |cs| && Complete(cs, t.columns, log)
    ensures !done && t.faults == old(t.faults) ==> StoppedAt(old(t.rows), old(t.entries), cs, t.keyColumn, t.columns, n, i, j)
  {
    var ok;
    log, ok, i, j := RemoveEntries(t, cs);
    n := 0;
    NoKeyGone(t.rows, cs, t.keyColumn);
    if ok {
      ghost var faults := t.faults;
      n := RemoveRows(t, cs);
      KeysTell(old(t.rows), t.rows, cs, n, t.keyColumn, n < |cs| && t.faults == faults);
    }
    done := ok && n == |cs|;
  }

  /** Where all rows were removed all keys were stored, and where one was missing not all were. */
  lemma KeysTell(rows: map<Rid, Row>, now: map<Rid, Row>, cs: seq<Candidate>, n: nat, keyColumn: nat, missing: bool)
    requires KeysGone(rows, now, cs, n, keyColumn)
    requires missing ==> n < |cs| && keyColumn < |cs[n].record| && !KeyStored(rows, cs[n].record[keyColumn], keyColumn)
    ensures n == |cs| ==> AllKeysStored(rows, cs, keyColumn)
    ensures missing ==> !AllKeysStored(rows, cs, keyColumn)
  {
  }

  lemma HalfWay(rows: map<Rid, Row>, before: seq<set<Entry>>, now: map<Rid, Row>, entries: seq<set<Entry>>, cs: seq<Candidate>,
                log: seq<Removal>, n: nat, i: nat, j: nat, keyColumn: nat, columns: seq<nat>, width: nat)
    requires UniqueKeys(rows, keyColumn) && keyColumn < width && forall r | r in rows :: |rows[r]| == width
    requires |before| == |columns| && forall k | 0 <= k < |columns| :: before[k] == IndexOf(rows, columns[k])
    requires Acceptable(cs, keyColumn, columns) && Stored(rows, cs) && (0 < n ==> Complete(cs, columns, log))
    requires Removing(cs, columns, before, entries, log, i, j) && KeysGone(rows, now, cs, n, keyColumn)
    ensures HalfDone(rows, before, now, entries, cs, log, n, keyColumn, columns, width)
  {
    StoredAreGone(rows, now, cs, n, keyColumn, columns, false);
  }

  /** Without a fault: either an index had no pair `j` of candidate `i`, or all pairs are gone and the
      key of candidate `n` is not stored. */
  ghost predicate StoppedAt(rows: map<Rid, Row>, entries: seq<set<Entry>>, cs: seq<Candidate>, keyColumn: nat,
                            columns: seq<nat>, n: nat, i: nat, j: nat)
    requires Acceptable(cs, keyColumn, columns) && |entries| == |columns|
  {
    || (n == 0 && i < |cs| && j < |columns| && PairOf(columns, cs[i].record, cs[i].rid.value, j) !in entries[j])
    || (n < |cs| && i == |cs| && j == 0 && !KeyStored(rows, cs[n].record[keyColumn], keyColumn))
  }

  /* ---------------------------------------------------------------- delete: one candidate, exactly */

  /** Index `k` lists the row at the identifier. */
  ghost predicate ListedAt(entries: seq<set<Entry>>, columns: seq<nat>, row: Row, rid: Rid, k: nat) {
    k < |columns| && k < |entries| && columns[k] < |row| ==> PairOf(columns, row, rid, k) in entries[k]
  }

  /** So do the indexes up to `k`. */
  ghost predicate ListedThrough(entries: seq<set<Entry>>, columns: seq<nat>, row: Row, rid: Rid, k: nat) {
    forall l: nat | l <= k :: ListedAt(entries, columns, row, rid, l)
  }

  ghost function Through(entries: seq<set<Entry>>, columns: seq<nat>, row: Row, rid: Rid): nat -> bool {
    (k: nat) => ListedThrough(entries, columns, row, rid, k)
  }

  ghost function Everywhere(): nat -> bool {
    (k: nat) => true
  }

  ghost predicate ListedEverywhere(entries: seq<set<Entry>>, columns: seq<nat>, row: Row, rid: Rid) {
    forall l: nat | l < |columns| :: ListedAt(entries, columns, row, rid, l)
  }

  /** What is left of the indexes once the pairs of a row that satisfy a condition are gone. */
  ghost function WithoutPairs(entries: seq<set<Entry>>, columns: seq<nat>, row: Row, rid: Rid, gone: nat -> bool): seq<set<Entry>> {
    seq(|entries|, k requires 0 <= k < |entries| =>
      if k < |columns| && columns[k] < |row| && gone(k) then entries[k] - {PairOf(columns, row, rid, k)} else entries[k])
  }

  /** What deleting one row by its identifier and key leaves, if nothing fails, whatever the table and
      its indexes hold: an index without the pair, or a key that is not stored, ends it, and the pairs
      already removed come back only if some row is at the identifier. */
  ghost function Withdrawn(rows: map<Rid, Row>, entries: seq<set<Entry>>, keyColumn: nat, columns: seq<nat>, row: Row, rid: Rid):
    (map<Rid, Row>, seq<set<Entry>>)
    requires keyColumn < |row|
  {
    if ListedEverywhere(entries, columns, row, rid) && KeyStored(rows, row[keyColumn], keyColumn) then
      (Without(rows, keyColumn, {row[keyColumn]}), WithoutPairs(entries, columns, row, rid, Everywhere()))
    else if rid in rows then (rows, entries)
    else (rows, WithoutPairs(entries, columns, row, rid, Through(entries, columns, row, rid)))
  }

  /** The log of one candidate that was stopped lists the pairs before the first that is missing. */
  lemma LogOfOne(cs: seq<Candidate>, columns: seq<nat>, before: seq<set<Entry>>, now: seq<set<Entry>>, log: seq<Removal>,
                 i: nat, j: nat, keyColumn: nat, k: nat)
    requires |cs| == 1 && Acceptable(cs, keyColumn, columns) && Removing(cs, columns, before, now, log, i, j) && k < |columns|
    requires (i == 0 && j < |columns| && PairOf(columns, cs[0].record, cs[0].rid.value, j) !in before[j]) || (i == 1 && j == 0)
    ensures var pair := PairOf(columns, cs[0].record, cs[0].rid.value, k);
      Logged(cs, log, k) == if ListedThrough(before, columns, cs[0].record, cs[0].rid.value, k) then {pair} else {}
  {
    var pair := PairOf(columns, cs[0].record, cs[0].rid.value, k);
    forall e | e in log
      ensures e.candidate == 0 && (i == 0 ==> e.index < j)
      ensures (e.key, cs[0].rid.value) == PairOf(columns, cs[0].record, cs[0].rid.value, e.index)
    {
    }
    forall l: nat | l < |columns| && (i == 1 || l < j)
      ensures PairOf(columns, cs[0].record, cs[0].rid.value, l) in Logged(cs, log, l)
      ensures ListedAt(before, columns, cs[0].record, cs[0].rid.value, l)
    {
      assert Removal(0, l, cs[0].record[columns[l]]) in log;
    }
    if i == 0 && j <= k {
      assert !ListedAt(before, columns, cs[0].record, cs[0].rid.value, j);
    }
  }

  lemma ReloggedOfOne(rows: map<Rid, Row>, cs: seq<Candidate>, columns: seq<nat>, log: seq<Removal>, k: nat)
    requires |cs| == 1 && LogOk(cs, columns, log) && cs[0].rid.Some?
    ensures Relogged(rows, cs, 0, map[], log, k) == if cs[0].rid.value in rows then Logged(cs, log, k) else {}
  {
    forall e | e in log
      ensures e.candidate == 0
    {
    }
    assert RestoredRid(rows, cs, 0, 0, map[]) == if cs[0].rid.value in rows then cs[0].rid else None;
  }

  lemma WithdrawnOne(rows: map<Rid, Row>, before: seq<set<Entry>>, now: map<Rid, Row>, entries: seq<set<Entry>>,
                     cs: seq<Candidate>, keyColumn: nat, columns: seq<nat>)
    requires |cs| == 1 && cs[0].rid.Some? && Acceptable(cs, keyColumn, columns) && |before| == |columns| == |entries|
    requires Indexed(cs, columns, before) && AllKeysStored(rows, cs, keyColumn)
    requires now == Without(rows, keyColumn, KeysOf(cs, keyColumn))
    requires forall k | 0 <= k < |columns| :: entries[k] == before[k] - PairsOf(cs, columns, k)
    ensures (now, entries) == Withdrawn(rows, before, keyColumn, columns, cs[0].record, cs[0].rid.value)
  {
    var row, rid := cs[0].record, cs[0].rid.value;
    assert KeysOf(cs, keyColumn) == {row[keyColumn]};
    assert ListedEverywhere(before, columns, row, rid);
    forall k | 0 <= k < |columns|
      ensures PairsOf(cs, columns, k) == {PairOf(columns, row, rid, k)}
    {
      assert Fitting(cs[0], keyColumn, columns);
    }
    assert entries == WithoutPairs(before, columns, row, rid, Everywhere());
  }

  lemma LeftOne(rows: map<Rid, Row>, before: seq<set<Entry>>, fewer: seq<set<Entry>>, entries: seq<set<Entry>>,
                cs: seq<Candidate>, log: seq<Removal>, n: nat, i: nat, j: nat, keyColumn: nat, columns: seq<nat>)
    requires |cs| == 1 && cs[0].rid.Some? && Acceptable(cs, keyColumn, columns) && |before| == |columns| == |entries|
    requires Removing(cs, columns, before, fewer, log, i, j) && StoppedAt(rows, before, cs, keyColumn, columns, n, i, j)
    requires forall k | 0 <= k < |columns| :: entries[k] == fewer[k] + Relogged(rows, cs, 0, map[], log, k)
    ensures n == 0 && (rows, entries) == Withdrawn(rows, before, keyColumn, columns, cs[0].record, cs[0].rid.value)
  {
    assert Fitting(cs[0], keyColumn, columns);
    if i == 0 {
      assert !ListedAt(before, columns, cs[0].record, cs[0].rid.value, j);
    }
    LeftIndexes(rows, before, fewer, entries, cs, log, i, j, keyColumn, columns);
  }

  lemma LeftIndexes(rows: map<Rid, Row>, before: seq<set<Entry>>, fewer: seq<set<Entry>>, entries: seq<set<Entry>>,
                    cs: seq<Candidate>, log: seq<Removal>, i: nat, j: nat, keyColumn: nat, columns: seq<nat>)
    requires |cs| == 1 && cs[0].rid.Some? && Acceptable(cs, keyColumn, columns) && |before| == |columns| == |entries|
    requires Removing(cs, columns, before, fewer, log, i, j)
    requires (i == 0 && j < |columns| && PairOf(columns, cs[0].record, cs[0].rid.value, j) !in before[j]) || (i == 1 && j == 0)
    requires forall k | 0 <= k < |columns| :: entries[k] == fewer[k] + Relogged(rows, cs, 0, map[], log, k)
    ensures var row, rid := cs[0].record, cs[0].rid.value;
      entries == if rid in rows then before else WithoutPairs(before, columns, row, rid, Through(before, columns, row, rid))
  {
    var row, rid := cs[0].record, cs[0].rid.value;
    assert Fitting(cs[0], keyColumn, columns);
    forall k | 0 <= k < |columns|
      ensures entries[k] == if rid !in rows && ListedThrough(before, columns, row, rid, k)
                            then before[k] - {PairOf(columns, row, rid, k)} else before[k]
    {
      LeftIndex(rows, before, fewer, entries, cs, log, i, j, keyColumn, columns, k);
    }
    SameIndexes(rid in rows, before, entries, columns, row, rid, Through(before, columns, row, rid));
  }

  lemma SameIndexes(same: bool, before: seq<set<Entry>>, entries: seq<set<Entry>>, columns: seq<nat>, row: Row, rid: Rid, gone: nat -> bool)
    requires |before| == |entries| == |columns| && forall k | 0 <= k < |columns| :: columns[k] < |row|
    requires forall k | 0 <= k < |columns| ::
               entries[k] == if !same && gone(k) then before[k] - {PairOf(columns, row, rid, k)} else before[k]
    ensures if same then entries == before else entries == WithoutPairs(before, columns, row, rid, gone)
  {
  }

  lemma LeftIndex(rows: map<Rid, Row>, before: seq<set<Entry>>, fewer: seq<set<Entry>>, entries: seq<set<Entry>>,
                  cs: seq<Candidate>, log: seq<Removal>, i: nat, j: nat, keyColumn: nat, columns: seq<nat>, k: nat)
    requires |cs| == 1 && cs[0].rid.Some? && Acceptable(cs, keyColumn, columns) && |before| == |columns| == |entries| && k < |columns|
    requires Removing(cs, columns, before, fewer, log, i, j)
    requires (i == 0 && j < |columns| && PairOf(columns, cs[0].record, cs[0].rid.value, j) !in before[j]) || (i == 1 && j == 0)
    requires entries[k] == fewer[k] + Relogged(rows, cs, 0, map[], log, k)
    ensures var row, rid := cs[0].record, cs[0].rid.value;
      entries[k] == if rid !in rows && ListedThrough(before, columns, row, rid, k)
                    then before[k] - {PairOf(columns, row, rid, k)} else before[k]
  {
    LogOfOne(cs, columns, before, fewer, log, i, j, keyColumn, k);
    ReloggedOfOne(rows, cs, columns, log, k);
  }

  /** Deletes the candidates from the table and from every index. It succeeds exactly when every index
      lists every candidate and every key is stored, as it is for candidates that are where they say, and
      nothing fails. When a step fails, the rows already removed are put back and every index is mended
      with their new identifiers. In a table with exact indexes whose rows the candidates are, a missing
      pair changes nothing, and if a fault is the only one, the table holds the records it held. */
  method DeleteWithIndexes(t: Table, cs: seq<Candidate>) returns (r: DeleteResult)
    requires t.Valid()
    modifies t
    ensures t.reliable ==> t.faults == old(t.faults)
    ensures t.Valid() && old(t.faults) <= t.faults
    ensures r.Rejected? <==> !Acceptable(cs, t.keyColumn, t.columns)
    ensures r.Rejected? ==> t.rows == old(t.rows) && t.entries == old(t.entries)
    ensures r.Deleted? <==>
              && Acceptable(cs, t.keyColumn, t.columns) && Indexed(cs, t.columns, old(t.entries))
              && AllKeysStored(old(t.rows), cs, t.keyColumn) && t.faults == old(t.faults)
    ensures r.Deleted? ==> r.count == |cs| && AreDeleted(old(t.rows), old(t.entries), t.rows, t.entries, cs, t.keyColumn, t.columns)
    ensures r.Aborted? ==> forall q | q in Without(old(t.rows), t.keyColumn, KeysOf(cs, t.keyColumn)) ::
              q in t.rows && t.rows[q] == old(t.rows)[q]
    ensures !r.Rejected? && |cs| == 1 && cs[0].rid.Some? && t.faults == old(t.faults) ==>
              (t.rows, t.entries)
              == Withdrawn(old(t.rows), old(t.entries), t.keyColumn, t.columns, cs[0].record, cs[0].rid.value)
    ensures old(t.Exact()) && Stored(old(t.rows), cs) && r.Aborted? && t.faults == old(t.faults) ==>
              t.rows == old(t.rows) && t.entries == old(t.entries)
    ensures old(t.Exact()) && Live(old(t.rows), cs) ==> t.NothingDangles()
    ensures old(t.Exact()) && Live(old(t.rows), cs) ==>
              (r.Deleted? <==> Acceptable(cs, t.keyColumn, t.columns) && t.faults == old(t.faults))
    ensures old(t.Exact()) && Live(old(t.rows), cs) && r.Deleted? ==> t.Exact()
    ensures old(t.Exact()) && Live(old(t.rows), cs) && r.Aborted? && t.faults == old(t.faults) + 1 ==>
              t.Exact() && Records(t.rows) == Records(old(t.rows))
  {
    var problem := Validate(cs, t.keyColumn, t.columns);
    if problem.Some? {
      return Rejected(problem.value);
    }
    if Live(t.rows, cs) {
      LiveIsStored(t.rows, cs);
      StoredHasKeys(t.rows, cs, t.keyColumn, t.columns);
      if t.Exact() {
        LiveIsIndexed(t.rows, cs, t.keyColumn, t.columns, t.entries);
      }
    }
    r := DeleteAccepted(t, cs);
  }

  method DeleteAccepted(t: Table, cs: seq<Candidate>) returns (r: DeleteResult)
    requires t.Valid() && Acceptable(cs, t.keyColumn, t.columns)
    modifies t
    ensures t.reliable ==> t.faults == old(t.faults)
    ensures t.Valid() && old(t.faults) <= t.faults && !r.Rejected?
    ensures r.Deleted? <==>
              Indexed(cs, t.columns, old(t.entries)) && AllKeysStored(old(t.rows), cs, t.keyColumn) && t.faults == old(t.faults)
    ensures r.Deleted? ==> r.count == |cs| && AreDeleted(old(t.rows), old(t.entries), t.rows, t.entries, cs, t.keyColumn, t.columns)
    ensures r.Aborted? ==> forall q | q in Without(old(t.rows), t.keyColumn, KeysOf(cs, t.keyColumn)) ::
              q in t.rows && t.rows[q] == old(t.rows)[q]
    ensures |cs| == 1 && cs[0].rid.Some? && t.faults == old(t.faults) ==>
              (t.rows, t.entries)
              == Withdrawn(old(t.rows), old(t.entries), t.keyColumn, t.columns, cs[0].record, cs[0].rid.value)
    ensures old(t.Exact()) && Stored(old(t.rows), cs) && r.Aborted? && t.faults == old(t.faults) ==>
              t.rows == old(t.rows) && t.entries == old(t.entries)
    ensures old(t.Exact()) && Live(old(t.rows), cs) ==>
              && t.NothingDangles() && (r.Deleted? ==> t.Exact())
              && (r.Aborted? && t.faults == old(t.faults) + 1 ==> t.Exact() && Records(t.rows) == Records(old(t.rows)))
  {
    if Live(t.rows, cs) {
      LiveIsStored(t.rows, cs);
    }
    var log, n, done, i, j := RemoveAll(t, cs);
    if done {
      AllGone(old(t.rows), old(t.entries), t.rows, t.entries, cs, log, i, j, t.keyColumn, t.columns);
      if |cs| == 1 && cs[0].rid.Some? {
        WithdrawnOne(old(t.rows), old(t.entries), t.rows, t.entries, cs, t.keyColumn, t.columns);
      }
      if old(t.Exact()) && Live(old(t.rows), cs) {
        GoneLeavesExact(old(t.rows), old(t.entries), t.rows, t.entries, cs, log, t.keyColumn, t.columns, t.width);
      }
      return Deleted(n);
    }
    GiveUp(t, cs, log, n, i, j, old(t.rows), old(t.entries), old(t.faults));
    return Aborted;
  }

  /** What is left when every step went well. */
  ghost predicate AreDeleted(rows: map<Rid, Row>, before: seq<set<Entry>>, now: map<Rid, Row>, entries: seq<set<Entry>>,
                             cs: seq<Candidate>, keyColumn: nat, columns: seq<nat>) {
    && now == Without(rows, keyColumn, KeysOf(cs, keyColumn)) && |entries| == |columns| == |before|
    && (forall k | 0 <= k < |columns| :: entries[k] == before[k] - PairsOf(cs, columns, k))
  }

  /** The end of a deletion that was stopped: it is rolled back. */
  method GiveUp(t: Table, cs: seq<Candidate>, log: seq<Removal>, n: nat, ghost i: nat, ghost j: nat,
                ghost rows: map<Rid, Row>, ghost before: seq<set<Entry>>, ghost faults: nat)
    requires t.Valid() && Acceptable(cs, t.keyColumn, t.columns) && faults <= t.faults
    requires Removing(cs, t.columns, before, t.entries, log, i, j) && KeysGone(rows, t.rows, cs, n, t.keyColumn)
    requires t.faults == faults ==> StoppedAt(rows, before, cs, t.keyColumn, t.columns, n, i, j)
    modifies t
    ensures t.reliable ==> t.faults == old(t.faults)
    ensures t.Valid() && old(t.faults) <= t.faults
    ensures forall q | q in Without(rows, t.keyColumn, KeysOf(cs, t.keyColumn)) :: q in t.rows && t.rows[q] == rows[q]
    ensures |cs| == 1 && cs[0].rid.Some? && t.faults == faults ==>
              (t.rows, t.entries) == Withdrawn(rows, before, t.keyColumn, t.columns, cs[0].record, cs[0].rid.value)
    ensures HalfDone(rows, before, old(t.rows), old(t.entries), cs, log, n, t.keyColumn, t.columns, t.width) ==>
              && (t.faults == old(t.faults) && n == 0 ==> t.rows == rows && t.entries == before)
              && (Live(rows, cs) ==> t.NothingDangles())
              && (Live(rows, cs) && t.faults == old(t.faults) ==> t.Exact() && Records(t.rows) == Records(rows))
  {
    ghost var fewer := t.entries;
    OthersAreThere(rows, t.rows, cs, n, t.keyColumn);
    if n == 0 {
      NothingKeyGone(rows, t.rows, cs, t.keyColumn);
    }
    Rollback(t, cs, log, n, rows, before);
    if |cs| == 1 && cs[0].rid.Some? && t.faults == faults {
      LeftOne(t.rows, before, fewer, t.entries, cs, log, n, i, j, t.keyColumn, t.columns);
    }
  }
}
