/** The undo log of a transaction: what it did to a table with its indexes, undone last first. */
module Undo {
  import opened Values
  import opened Store
  import opened Dml
  import opened Wrappers

  /** What a statement of the transaction did. */
  datatype Change = Insertion(rid: Rid, row: Row) | Deletion(candidates: seq<Candidate>)

  type Rows = map<Rid, Row>

  datatype Schema = Schema(keyColumn: nat, columns: seq<nat>, width: nat)

  /** What a table and its indexes hold. */
  datatype Contents = Contents(rows: Rows, entries: seq<set<Entry>>)

  function SchemaOf(t: Table): Schema {
    Schema(t.keyColumn, t.columns, t.width)
  }

  ghost function ContentsOf(t: Table): Contents
    reads t
  {
    Contents(t.rows, t.entries)
  }

  /** Rows of the right width with different keys. */
  ghost predicate WellKeyed(rows: Rows, sc: Schema) {
    && sc.keyColumn < sc.width && UniqueKeys(rows, sc.keyColumn) && (forall r | r in rows :: |rows[r]| == sc.width)
    && (forall k | 0 <= k < |sc.columns| :: sc.columns[k] < sc.width)
  }

  /** The rows with exact indexes. */
  ghost function Exactly(rows: Rows, sc: Schema): Contents {
    Contents(rows, seq(|sc.columns|, k requires 0 <= k < |sc.columns| => IndexOf(rows, sc.columns[k])))
  }

  ghost predicate Sound(s: Contents, sc: Schema) {
    WellKeyed(s.rows, sc) && s == Exactly(s.rows, sc)
  }

  lemma ExactIsSound(t: Table)
    requires t.Valid()
    ensures t.Exact() <==> Sound(ContentsOf(t), SchemaOf(t))
  {
    if t.Exact() {
      assert t.entries == Exactly(t.rows, SchemaOf(t)).entries;
    }
  }

  /* ---------------------------------------------------------------- undoing, where nothing fails */

  /** There is no reason to refuse the row. */
  ghost predicate Admitted(rows: Rows, row: Row, sc: Schema) {
    Welcome(rows, row, sc.keyColumn, sc.width)
  }

  ghost function Put(s: Contents, rid: Rid, row: Row, sc: Schema): Contents {
    Contents(s.rows[rid := row], WithPairs(s.entries, sc.columns, row, rid))
  }

  /** Undoing an insertion: the row is deleted by the identifier it was given then and by its key. */
  ghost function Taken(s: Contents, rid: Rid, row: Row, sc: Schema): Contents {
    if Fitting(Candidate(Some(rid), row), sc.keyColumn, sc.columns) then
      var (rows, entries) := Withdrawn(s.rows, s.entries, sc.keyColumn, sc.columns, row, rid);
      Contents(rows, entries)
    else s
  }

  /** Undoing a deletion from candidate `i` on: the rows are inserted again, each at an unused identifier
      of the table's choice, on page `from` or behind it, until one is refused; the rest is not tried. */
  ghost predicate PutsBack(s: Contents, cs: seq<Candidate>, i: nat, from: nat, u: Contents, sc: Schema)
    decreases |cs| - i
  {
    if |cs| <= i || !Admitted(s.rows, cs[i].record, sc) then u == s
    else exists rid: Rid :: rid !in s.rows && from <= rid.page && PutsBack(Put(s, rid, cs[i].record, sc), cs, i + 1, from, u, sc)
  }

  ghost predicate Undoes(s: Contents, change: Change, from: nat, u: Contents, sc: Schema) {
    match change
    case Insertion(rid, row) => u == Taken(s, rid, row, sc)
    case Deletion(cs) => PutsBack(s, cs, 0, from, u, sc)
  }

  /** So does undoing the last of the first `i` changes. */
  ghost predicate UndoesLast(s: Contents, changes: seq<Change>, i: nat, from: nat, u: Contents, sc: Schema) {
    0 < i <= |changes| && Undoes(s, changes[i - 1], from, u, sc)
  }

  /** Undoing the first `i` changes, last first, leads from `s` to `u`. Identifiers are chosen on page
      `from` or behind it; from page 0 on any identifier can be chosen. */
  ghost predicate RollsBack(s: Contents, changes: seq<Change>, i: nat, from: nat, u: Contents, sc: Schema)
    decreases i
  {
    if i == 0 then u == s
    else exists mid :: UndoesLast(s, changes, i, from, mid, sc) && RollsBack(mid, changes, i - 1, from, u, sc)
  }

  /** Wherever undoing the first `i` changes leads from `s`, undoing all of them leads from `start`. */
  ghost predicate Leads(start: Contents, s: Contents, changes: seq<Change>, i: nat, from: nat, sc: Schema) {
    forall u | RollsBack(s, changes, i, from, u, sc) :: RollsBack(start, changes, |changes|, from, u, sc)
  }

  lemma LeadsOn(start: Contents, s: Contents, changes: seq<Change>, i: nat, next: nat, from: nat, mid: Contents, sc: Schema)
    requires next == i + 1 <= |changes| && Leads(start, s, changes, next, from, sc) && Undoes(s, changes[i], from, mid, sc)
    ensures Leads(start, mid, changes, i, from, sc)
  {
    assert UndoesLast(s, changes, next, from, mid, sc);
    forall u | RollsBack(mid, changes, i, from, u, sc)
      ensures RollsBack(start, changes, |changes|, from, u, sc)
    {
      assert RollsBack(s, changes, next, from, u, sc);
    }
  }

  method UndoInsertion(t: Table, rid: Rid, row: Row)
    requires t.Valid()
    modifies t
    ensures t.reliable ==> t.faults == old(t.faults)
    ensures t.Valid() && old(t.faults) <= t.faults
    ensures t.faults == old(t.faults) ==> Undoes(old(ContentsOf(t)), Insertion(rid, row), 0, ContentsOf(t), SchemaOf(t))
  {
    var c := Candidate(Some(rid), row);
    assert Acceptable([c], t.keyColumn, t.columns) <==> Fitting(c, t.keyColumn, t.columns) by {
      assert [c][0] == c;
    }
    var _ := DeleteWithIndexes(t, [c]);
  }

  method UndoDeletion(t: Table, cs: seq<Candidate>)
    requires t.Valid()
    modifies t
    ensures t.reliable ==> t.faults == old(t.faults)
    ensures t.Valid() && old(t.faults) <= t.faults
    ensures t.faults == old(t.faults) ==> Undoes(old(ContentsOf(t)), Deletion(cs), 0, ContentsOf(t), SchemaOf(t))
  {
    for i := 0 to |cs|
      invariant t.Valid() && t.faults == old(t.faults)
      invariant forall u | PutsBack(ContentsOf(t), cs, i, 0, u, SchemaOf(t)) ::
                  PutsBack(old(ContentsOf(t)), cs, 0, 0, u, SchemaOf(t))
    {
      ghost var before := ContentsOf(t);
      AdmitsIsAdmitted(t, cs[i].record);
      var r := InsertWithIndexes(t, cs[i].record);
      if r.InsertFailed? {
        assert t.faults == old(t.faults) ==> PutsBack(ContentsOf(t), cs, i, 0, ContentsOf(t), SchemaOf(t));
        return;
      }
      PutOneMore(before, cs, i, r.rid, SchemaOf(t));
      assert ContentsOf(t) == Put(before, r.rid, cs[i].record, SchemaOf(t));
    }
    assert PutsBack(ContentsOf(t), cs, |cs|, 0, ContentsOf(t), SchemaOf(t));
  }

  lemma PutOneMore(s: Contents, cs: seq<Candidate>, i: nat, rid: Rid, sc: Schema)
    requires i < |cs| && rid !in s.rows && Admitted(s.rows, cs[i].record, sc)
    ensures forall u | PutsBack(Put(s, rid, cs[i].record, sc), cs, i + 1, 0, u, sc) :: PutsBack(s, cs, i, 0, u, sc)
  {
  }

  lemma AdmitsIsAdmitted(t: Table, row: Row)
    requires t.Valid()
    ensures t.Admits(row) <==> Admitted(t.rows, row, SchemaOf(t))
  {
  }

  method UndoChange(t: Table, change: Change)
    requires t.Valid()
    modifies t
    ensures t.reliable ==> t.faults == old(t.faults)
    ensures t.Valid() && old(t.faults) <= t.faults
    ensures t.faults == old(t.faults) ==> Undoes(old(ContentsOf(t)), change, 0, ContentsOf(t), SchemaOf(t))
  {
    match change {
      case Insertion(rid, row) => UndoInsertion(t, rid, row);
      case Deletion(cs) => UndoDeletion(t, cs);
    }
  }

  /** Undoes the changes, last first, and goes on whatever becomes of one of them. */
  method UndoChanges(t: Table, changes: seq<Change>)
    requires t.Valid()
    modifies t
    ensures t.reliable ==> t.faults == old(t.faults)
    ensures t.Valid() && old(t.faults) <= t.faults
    ensures t.faults == old(t.faults) ==> RollsBack(old(ContentsOf(t)), changes, |changes|, 0, ContentsOf(t), SchemaOf(t))
  {
    for i := |changes| downto 0
      invariant t.Valid() && old(t.faults) <= t.faults
      invariant t.reliable ==> t.faults == old(t.faults)
      invariant t.faults == old(t.faults) ==> Leads(old(ContentsOf(t)), ContentsOf(t), changes, i, 0, SchemaOf(t))
    {
      ghost var before := ContentsOf(t);
      UndoChange(t, changes[i]);
      if t.faults == old(t.faults) {
        LeadsOn(old(ContentsOf(t)), before, changes, i, i + 1, 0, ContentsOf(t), SchemaOf(t));
      }
    }
    assert RollsBack(ContentsOf(t), changes, 0, 0, ContentsOf(t), SchemaOf(t));
  }

  /* ---------------------------------------------------------------- what a transaction did */

  /** The change took the rows from `before` to `after`. */
  ghost predicate Takes(before: Rows, change: Change, after: Rows, sc: Schema) {
    match change
    case Insertion(rid, row) => rid !in before && after == before[rid := row]
    case Deletion(cs) =>
      && Live(before, cs) && Acceptable(cs, sc.keyColumn, sc.columns)
      && after == Without(before, sc.keyColumn, KeysOf(cs, sc.keyColumn))
  }

  ghost predicate TakesAt(history: seq<Rows>, changes: seq<Change>, i: nat, sc: Schema) {
    i + 1 < |history| && i < |changes| && Takes(history[i], changes[i], history[i + 1], sc)
  }

  /** The rows before, between and after the changes. */
  ghost predicate Course(history: seq<Rows>, changes: seq<Change>, sc: Schema) {
    && |history| == |changes| + 1
    && (forall i | 0 <= i < |history| :: WellKeyed(history[i], sc))
    && (forall i | 0 <= i < |changes| :: TakesAt(history, changes, i, sc))
  }

  lemma CourseStarts(rows: Rows, sc: Schema)
    requires WellKeyed(rows, sc)
    ensures Course([rows], [], sc)
  {
  }

  lemma CourseGoesOn(history: seq<Rows>, changes: seq<Change>, sc: Schema, change: Change, after: Rows)
    requires Course(history, changes, sc) && WellKeyed(after, sc)
    requires Takes(history[|changes|], change, after, sc)
    ensures Course(history + [after], changes + [change], sc)
  {
    var h, c := history + [after], changes + [change];
    forall i | 0 <= i < |c|
      ensures TakesAt(h, c, i, sc)
    {
      if i < |changes| {
        assert TakesAt(history, changes, i, sc);
      }
    }
  }

  /** The change deletes the row with this key. */
  predicate DeletesKey(change: Change, key: Value, keyColumn: nat) {
    change.Deletion? && exists c :: c in change.candidates && keyColumn < |c.record| && c.record[keyColumn] == key
  }

  /** The deletion takes the row of the insertion away again. */
  predicate TakesBack(deletion: Change, insertion: Change, keyColumn: nat) {
    insertion.Insertion? && keyColumn < |insertion.row| && DeletesKey(deletion, insertion.row[keyColumn], keyColumn)
  }

  /** No statement deleted a row that an earlier one had inserted. */
  predicate NothingTakenBack(changes: seq<Change>, keyColumn: nat) {
    forall i, j | 0 <= i < j < |changes| :: !TakesBack(changes[j], changes[i], keyColumn)
  }

  /** The rows that the first `i` changes inserted are where they were put. */
  ghost predicate InsertionsInPlace(rows: Rows, changes: seq<Change>, i: nat) {
    i <= |changes| && forall j | 0 <= j < i && changes[j].Insertion? :: changes[j].rid in rows && rows[changes[j].rid] == changes[j].row
  }

  lemma {:induction false} InsertionsStay(history: seq<Rows>, changes: seq<Change>, sc: Schema, i: nat)
    requires Course(history, changes, sc) && NothingTakenBack(changes, sc.keyColumn) && i <= |changes|
    ensures InsertionsInPlace(history[i], changes, i)
  {
    if i != 0 {
      var last: nat := i - 1;
      InsertionsStay(history, changes, sc, last);
      assert TakesAt(history, changes, last, sc);
      forall j | 0 <= j < last && changes[j].Insertion?
        ensures changes[j].rid in history[i] && history[i][changes[j].rid] == changes[j].row
      {
        assert !TakesBack(changes[last], changes[j], sc.keyColumn);
        assert |history[last][changes[j].rid]| == sc.width;
      }
    }
  }

  /* ---------------------------------------------------------------- records */

  lemma {:induction false} RecordsHave<K, V>(m: map<K, V>, v: V)
    ensures v in Records(m) <==> exists k :: k in m && m[k] == v
    decreases |m|
  {
    if m != map[] {
      var p := AnyOf(m);
      assert |m - {p}| < |m|;
      RecordsHave(m - {p}, v);
      if k :| k in m && m[k] == v {
        assert k != p ==> k in m - {p} && (m - {p})[k] == v;
      }
      if v in Records(m - {p}) {
        var k :| k in m - {p} && (m - {p})[k] == v;
        assert k in m && m[k] == v;
      }
    }
  }

  /** Tables with the same records hold the same rows, wherever these are. */
  lemma SameRecordsSameRows(rows: Rows, others: Rows, r: Rid)
    requires Records(rows) == Records(others) && r in rows
    ensures exists q :: q in others && others[q] == rows[r]
  {
    RecordsHave(rows, rows[r]);
    RecordsHave(others, rows[r]);
  }

  /** A deletion takes away the records of its candidates. */
  lemma DeletionTakes(before: Rows, cs: seq<Candidate>, after: Rows, sc: Schema)
    requires WellKeyed(before, sc) && Takes(before, Deletion(cs), after, sc)
    ensures Records(before) == Records(after) + RecordsOf(cs)
    ensures forall j | 0 <= j < |cs| :: Admitted(after, cs[j].record, sc) && StoredSomewhere(before, cs[j].record)
  {
    LiveIsStored(before, cs);
    GoneUpTo(before, cs, |cs|, sc.keyColumn, sc.columns);
    assert cs[..|cs|] == cs;
    forall j | 0 <= j < |cs|
      ensures sc.keyColumn < |cs[j].record| == sc.width && cs[j].record[sc.keyColumn] in KeysOf(cs, sc.keyColumn)
      ensures StoredSomewhere(before, cs[j].record)
    {
      assert StoredSomewhere(before, cs[j].record) && Fitting(cs[j], sc.keyColumn, sc.columns);
    }
  }

  /** A row is the only one with its key. */
  lemma OnlyRowWithKey(rows: Rows, r: Rid, sc: Schema)
    requires WellKeyed(rows, sc) && r in rows
    ensures sc.keyColumn < |rows[r]| == sc.width && Without(rows, sc.keyColumn, {rows[r][sc.keyColumn]}) == rows - {r}
  {
    assert |rows[r]| == sc.width;
  }

  lemma OneRowLess(rows: Rows, row: Row, sc: Schema)
    requires WellKeyed(rows, sc) && StoredSomewhere(rows, row)
    ensures sc.keyColumn < |row|
    ensures Records(rows) == Records(Without(rows, sc.keyColumn, {row[sc.keyColumn]})) + multiset{row}
  {
    var at :| at in rows && rows[at] == row;
    OnlyRowWithKey(rows, at, sc);
    RecordsRemove(rows, at);
  }

  lemma SameOrNot<T>(before: multiset<T>, after: multiset<T>, x: T)
    ensures before + multiset{x} == after + multiset{x} <==> after == before
  {
    if before + multiset{x} == after + multiset{x} {
      assert before + multiset{x} - multiset{x} == before && after + multiset{x} - multiset{x} == after;
    }
  }

  lemma OneMoreIsMore<T>(bag: multiset<T>, x: T)
    ensures bag != bag + multiset{x}
  {
    assert (bag + multiset{x})[x] == bag[x] + 1;
  }

  /* ---------------------------------------------------------------- undoing one change */

  /** The row is where it was put, or needs no place. */
  ghost predicate InPlace(rows: Rows, columns: seq<nat>, rid: Rid, row: Row) {
    columns == [] || (rid in rows && rows[rid] == row)
  }

  lemma PutIsSound(s: Contents, rid: Rid, row: Row, sc: Schema)
    requires Sound(s, sc) && Admitted(s.rows, row, sc) && rid !in s.rows
    ensures Sound(Put(s, rid, row, sc), sc)
  {
    NewPairs(s.rows, rid, row, sc.columns);
    var u := Put(s, rid, row, sc);
    assert u.entries == Exactly(u.rows, sc).entries;
  }

  lemma IndexWithout(rows: Rows, row: Row, rid: Rid, column: nat, sc: Schema)
    requires WellKeyed(rows, sc) && column < sc.width && rid in rows && rows[rid] == row
    ensures IndexOf(rows, column) - {(row[column], rid)} == IndexOf(Without(rows, sc.keyColumn, {row[sc.keyColumn]}), column)
  {
    var fewer := Without(rows, sc.keyColumn, {row[sc.keyColumn]});
    OnlyRowWithKey(rows, rid, sc);
    forall e | e in IndexOf(rows, column) && e.1 != rid
      ensures e in IndexOf(fewer, column)
    {
      assert e.1 in fewer && fewer[e.1] == rows[e.1];
    }
  }

  /** In a sound table, undoing an insertion takes away exactly a row that is in place. */
  lemma TakenInPlace(s: Contents, rid: Rid, row: Row, sc: Schema)
    requires Sound(s, sc) && StoredSomewhere(s.rows, row) && InPlace(s.rows, sc.columns, rid, row)
    ensures sc.keyColumn < |row|
    ensures Taken(s, rid, row, sc) == Exactly(Without(s.rows, sc.keyColumn, {row[sc.keyColumn]}), sc)
    ensures Sound(Taken(s, rid, row, sc), sc)
  {
    var at :| at in s.rows && s.rows[at] == row;
    assert |s.rows[at]| == sc.width;
    assert KeyStored(s.rows, row[sc.keyColumn], sc.keyColumn);
    forall l: nat | l < |sc.columns|
      ensures ListedAt(s.entries, sc.columns, row, rid, l)
    {
      assert s.entries[l] == IndexOf(s.rows, sc.columns[l]);
    }
    var left := Exactly(Without(s.rows, sc.keyColumn, {row[sc.keyColumn]}), sc);
    forall k | 0 <= k < |sc.columns|
      ensures WithoutPairs(s.entries, sc.columns, row, rid, Everywhere())[k] == left.entries[k]
    {
      IndexWithout(s.rows, row, rid, sc.columns[k], sc);
      assert s.entries[k] == IndexOf(s.rows, sc.columns[k]);
      assert PairOf(sc.columns, row, rid, k) == (row[sc.columns[k]], rid);
    }
    assert WithoutPairs(s.entries, sc.columns, row, rid, Everywhere()) == left.entries;
  }

  /** With an index, a row whose old identifier is vacant stays. */
  lemma TakenFromNowhere(s: Contents, rid: Rid, row: Row, sc: Schema)
    requires Sound(s, sc) && sc.columns != [] && rid !in s.rows
    ensures Taken(s, rid, row, sc) == s
  {
    if Fitting(Candidate(Some(rid), row), sc.keyColumn, sc.columns) {
      assert s.entries[0] == IndexOf(s.rows, sc.columns[0]);
      assert !ListedAt(s.entries, sc.columns, row, rid, 0);
      assert WithoutPairs(s.entries, sc.columns, row, rid, Through(s.entries, sc.columns, row, rid)) == s.entries;
    }
  }

  /** Undoing an insertion takes its row away and leaves a sound table exactly if the row is in place. */
  lemma TakenExactly(s: Contents, rid: Rid, row: Row, sc: Schema)
    requires Sound(s, sc) && StoredSomewhere(s.rows, row)
    ensures Sound(Taken(s, rid, row, sc), sc) && Records(s.rows) == Records(Taken(s, rid, row, sc).rows) + multiset{row}
       <==> InPlace(s.rows, sc.columns, rid, row)
  {
    OneRowLess(s.rows, row, sc);
    if InPlace(s.rows, sc.columns, rid, row) {
      TakenInPlace(s, rid, row, sc);
    } else {
      OneMoreIsMore(Records(s.rows), row);
      MisplacedStays(s, rid, row, sc);
    }
  }

  /** Another row is there, and no index can tell it from this one. */
  ghost predicate Lookalike(rows: Rows, rid: Rid, row: Row, columns: seq<nat>) {
    rid in rows && forall k | 0 <= k < |columns| :: columns[k] < |row| && columns[k] < |rows[rid]| && rows[rid][columns[k]] == row[columns[k]]
  }

  /** With an index, undoing the insertion of a row that is elsewhere changes nothing, unless a row that
      looks the same to the indexes is where it was: then the indexes are wrong afterwards. */
  lemma MisplacedStays(s: Contents, rid: Rid, row: Row, sc: Schema)
    requires Sound(s, sc) && StoredSomewhere(s.rows, row) && !InPlace(s.rows, sc.columns, rid, row)
    ensures Sound(Taken(s, rid, row, sc), sc) <==> Taken(s, rid, row, sc) == s
    ensures Taken(s, rid, row, sc) == s <==> !Lookalike(s.rows, rid, row, sc.columns)
  {
    var at :| at in s.rows && s.rows[at] == row;
    OnlyRowWithKey(s.rows, at, sc);
    var u := Taken(s, rid, row, sc);
    ListedLooksAlike(s, rid, row, sc);
    if Lookalike(s.rows, rid, row, sc.columns) {
      assert at !in u.rows;
      assert s.entries[0] == IndexOf(s.rows, sc.columns[0]);
      assert u.entries[0] == s.entries[0] - {PairOf(sc.columns, row, rid, 0)};
      assert (row[sc.columns[0]], at) in u.entries[0];
      assert Exactly(u.rows, sc).entries[0] == IndexOf(u.rows, sc.columns[0]);
    } else if rid !in s.rows {
      TakenFromNowhere(s, rid, row, sc);
    }
  }

  lemma ListedLooksAlike(s: Contents, rid: Rid, row: Row, sc: Schema)
    requires Sound(s, sc) && sc.columns != [] && |row| == sc.width
    ensures ListedEverywhere(s.entries, sc.columns, row, rid) <==> Lookalike(s.rows, rid, row, sc.columns)
  {
    forall k | 0 <= k < |sc.columns|
      ensures ListedAt(s.entries, sc.columns, row, rid, k) <==> rid in s.rows && s.rows[rid][sc.columns[k]] == row[sc.columns[k]]
    {
      assert s.entries[k] == IndexOf(s.rows, sc.columns[k]);
    }
    if ListedEverywhere(s.entries, sc.columns, row, rid) {
      assert ListedAt(s.entries, sc.columns, row, rid, 0);
    }
  }

  /** A row that was inserted, deleted again, and comes back at `back` before its insertion is undone:
      all is as before exactly if that is where it had been, or there are no indexes. */
  lemma UndoBoth(s: Contents, rid: Rid, row: Row, back: Rid, sc: Schema)
    requires Sound(s, sc) && Admitted(s.rows, row, sc) && back !in s.rows
    ensures var u := Taken(Put(s, back, row, sc), rid, row, sc);
      Sound(u, sc) && Records(u.rows) == Records(s.rows) <==> sc.columns == [] || back == rid
  {
    var mid := Put(s, back, row, sc);
    PutIsSound(s, back, row, sc);
    assert mid.rows[back] == row;
    RecordsInsert(s.rows, back, row);
    TakenExactly(mid, rid, row, sc);
    SameOrNot(Records(s.rows), Records(Taken(mid, rid, row, sc).rows), row);
  }

  /** The first `i` candidates were added to the rows. */
  ghost predicate Added(before: Rows, now: Rows, cs: seq<Candidate>, i: nat) {
    && i <= |cs| && Records(now) == Records(before) + RecordsOf(cs[..i])
    && forall r | r in before :: r in now && now[r] == before[r]
  }

  lemma OneMoreAdded(before: Rows, now: Rows, cs: seq<Candidate>, i: nat, next: nat, rid: Rid)
    requires Added(before, now, cs, i) && next == i + 1 <= |cs| && rid !in now
    ensures Added(before, now[rid := cs[i].record], cs, next)
  {
    var x := cs[i].record;
    RecordsInsert(now, rid, x);
    RecordsOfNext(cs, i);
    SumsGrow(Records(before), RecordsOf(cs[..i]), Records(now), x, RecordsOf(cs[..next]), Records(now[rid := x]));
  }

  /** The candidates from `i` on are welcome in the table. */
  ghost predicate WelcomeFrom(rows: Rows, cs: seq<Candidate>, i: nat, sc: Schema) {
    forall j | i <= j < |cs| :: Admitted(rows, cs[j].record, sc)
  }

  lemma OthersStayWelcome(rows: Rows, cs: seq<Candidate>, i: nat, next: nat, sc: Schema, rid: Rid)
    requires next == i + 1 <= |cs| && WelcomeFrom(rows, cs, i, sc) && Acceptable(cs, sc.keyColumn, sc.columns)
    ensures WelcomeFrom(rows[rid := cs[i].record], cs, next, sc)
  {
    forall j | next <= j < |cs|
      ensures Admitted(rows[rid := cs[i].record], cs[j].record, sc)
    {
      assert Admitted(rows, cs[j].record, sc);
    }
  }

  /** Rows that are all welcome are all put back. */
  lemma {:induction false} AllPutBack(before: Rows, s: Contents, cs: seq<Candidate>, i: nat, from: nat, u: Contents, sc: Schema)
    requires Sound(s, sc) && PutsBack(s, cs, i, from, u, sc) && Added(before, s.rows, cs, i)
    requires WelcomeFrom(s.rows, cs, i, sc) && Acceptable(cs, sc.keyColumn, sc.columns)
    ensures Sound(u, sc) && Added(before, u.rows, cs, |cs|)
    decreases |cs| - i
  {
    if i < |cs| {
      var next := i + 1;
      assert Admitted(s.rows, cs[i].record, sc);
      var rid: Rid :| rid !in s.rows && from <= rid.page && PutsBack(Put(s, rid, cs[i].record, sc), cs, next, from, u, sc);
      PutIsSound(s, rid, cs[i].record, sc);
      OneMoreAdded(before, s.rows, cs, i, next, rid);
      OthersStayWelcome(s.rows, cs, i, next, sc, rid);
      AllPutBack(before, Put(s, rid, cs[i].record, sc), cs, next, from, u, sc);
    }
  }

  /* ---------------------------------------------------------------- undoing a log in which nothing is taken back */

  /** The rows are as after the first `i` changes, wherever they are; with indexes, those inserted are
      where they were put. */
  ghost predicate Undone(rows: Rows, history: seq<Rows>, changes: seq<Change>, i: nat, columns: seq<nat>) {
    && i < |history| && Records(rows) == Records(history[i])
    && (columns == [] || InsertionsInPlace(rows, changes, i))
  }

  lemma InsertionCanBeUndone(history: seq<Rows>, changes: seq<Change>, rows: Rows, sc: Schema, i: nat, next: nat)
    requires Course(history, changes, sc) && next == i + 1 <= |changes| && changes[i].Insertion?
    requires WellKeyed(rows, sc) && Undone(rows, history, changes, next, sc.columns)
    requires sc.columns == [] || NothingTakenBack(changes, sc.keyColumn)
    ensures var row := changes[i].row;
      && StoredSomewhere(rows, row) && InPlace(rows, sc.columns, changes[i].rid, row) && sc.keyColumn < |row|
      && Undone(Without(rows, sc.keyColumn, {row[sc.keyColumn]}), history, changes, i, sc.columns)
  {
    var rid, row := changes[i].rid, changes[i].row;
    assert TakesAt(history, changes, i, sc);
    RecordsInsert(history[i], rid, row);
    assert history[next][rid] == row;
    SameRecordsSameRows(history[next], rows, rid);
    OneRowLess(rows, row, sc);
    SameOrNot(Records(history[i]), Records(Without(rows, sc.keyColumn, {row[sc.keyColumn]})), row);
    if sc.columns != [] {
      InsertionsStay(history, changes, sc, i);
      OthersStayInPlace(history[i], rows, changes, i, next, sc);
    }
  }

  /** Taking the row of one insertion away leaves those of earlier ones where they are. */
  lemma OthersStayInPlace(before: Rows, rows: Rows, changes: seq<Change>, i: nat, next: nat, sc: Schema)
    requires next == i + 1 <= |changes| && changes[i].Insertion? && changes[i].rid !in before
    requires InsertionsInPlace(before, changes, i) && InsertionsInPlace(rows, changes, next) && WellKeyed(rows, sc)
    ensures sc.keyColumn < |changes[i].row|
    ensures InsertionsInPlace(Without(rows, sc.keyColumn, {changes[i].row[sc.keyColumn]}), changes, i)
  {
    assert |rows[changes[i].rid]| == sc.width;
    forall j | 0 <= j < i && changes[j].Insertion?
      ensures changes[j].rid in rows && rows[changes[j].rid][sc.keyColumn] != changes[i].row[sc.keyColumn]
    {
      assert changes[j].rid in before && |rows[changes[j].rid]| == sc.width;
    }
  }

  lemma DeletionCanBeUndone(history: seq<Rows>, changes: seq<Change>, rows: Rows, sc: Schema, i: nat, next: nat)
    requires Course(history, changes, sc) && next == i + 1 <= |changes| && changes[i].Deletion?
    requires WellKeyed(rows, sc) && Records(rows) == Records(history[next])
    ensures var cs := changes[i].candidates;
      && Acceptable(cs, sc.keyColumn, sc.columns) && WelcomeFrom(rows, cs, 0, sc)
      && Records(history[i]) == Records(history[next]) + RecordsOf(cs)
  {
    var cs := changes[i].candidates;
    assert TakesAt(history, changes, i, sc);
    DeletionTakes(history[i], cs, history[next], sc);
    forall j | 0 <= j < |cs|
      ensures Admitted(rows, cs[j].record, sc)
    {
      assert Admitted(history[next], cs[j].record, sc);
      forall r | r in rows
        ensures rows[r][sc.keyColumn] != cs[j].record[sc.keyColumn]
      {
        SameRecordsSameRows(rows, history[next], r);
      }
    }
  }

  lemma CleanInsertion(history: seq<Rows>, changes: seq<Change>, s: Contents, sc: Schema, i: nat, next: nat, rid: Rid, row: Row)
    requires Course(history, changes, sc) && next == i + 1 <= |changes| && changes[i] == Insertion(rid, row)
    requires Sound(s, sc) && Undone(s.rows, history, changes, next, sc.columns)
    requires sc.columns == [] || NothingTakenBack(changes, sc.keyColumn)
    ensures var u := Taken(s, rid, row, sc); Sound(u, sc) && Undone(u.rows, history, changes, i, sc.columns)
  {
    InsertionCanBeUndone(history, changes, s.rows, sc, i, next);
    TakenInPlace(s, rid, row, sc);
  }

  lemma CleanDeletion(history: seq<Rows>, changes: seq<Change>, s: Contents, sc: Schema, i: nat, next: nat, from: nat,
                      cs: seq<Candidate>, u: Contents)
    requires Course(history, changes, sc) && next == i + 1 <= |changes| && changes[i] == Deletion(cs)
    requires PutsBack(s, cs, 0, from, u, sc)
    requires Sound(s, sc) && Undone(s.rows, history, changes, next, sc.columns)
    ensures Sound(u, sc) && Undone(u.rows, history, changes, i, sc.columns)
  {
    DeletionCanBeUndone(history, changes, s.rows, sc, i, next);
    NothingAdded(s.rows, cs);
    AllPutBack(s.rows, s, cs, 0, from, u, sc);
    AllAdded(s.rows, u.rows, cs);
    AdditionsLeaveInPlace(s.rows, u.rows, changes, i, next);
  }

  lemma NothingAdded(rows: Rows, cs: seq<Candidate>)
    ensures Added(rows, rows, cs, 0)
  {
    assert cs[..0] == [];
  }

  lemma AllAdded(before: Rows, now: Rows, cs: seq<Candidate>)
    requires Added(before, now, cs, |cs|)
    ensures Records(now) == Records(before) + RecordsOf(cs)
  {
    assert cs[..|cs|] == cs;
  }

  lemma AdditionsLeaveInPlace(before: Rows, now: Rows, changes: seq<Change>, i: nat, next: nat)
    requires i <= next && forall r | r in before :: r in now && now[r] == before[r]
    ensures InsertionsInPlace(before, changes, next) ==> InsertionsInPlace(now, changes, i)
  {
  }

  lemma CleanStep(history: seq<Rows>, changes: seq<Change>, s: Contents, sc: Schema, i: nat, next: nat, from: nat, u: Contents)
    requires Course(history, changes, sc) && next == i + 1 <= |changes| && Undoes(s, changes[i], from, u, sc)
    requires Sound(s, sc) && Undone(s.rows, history, changes, next, sc.columns)
    requires sc.columns == [] || NothingTakenBack(changes, sc.keyColumn)
    ensures Sound(u, sc) && Undone(u.rows, history, changes, i, sc.columns)
  {
    match changes[i]
    case Insertion(rid, row) => CleanInsertion(history, changes, s, sc, i, next, rid, row);
    case Deletion(cs) => CleanDeletion(history, changes, s, sc, i, next, from, cs, u);
  }

  /** If no row was taken back, or there are no indexes, every way to roll back restores the records and
      exact indexes, whichever identifiers the table chooses. */
  lemma {:induction false} CleanRollback(history: seq<Rows>, changes: seq<Change>, s: Contents, sc: Schema, i: nat, from: nat, u: Contents)
    requires Course(history, changes, sc) && i <= |changes| && RollsBack(s, changes, i, from, u, sc)
    requires Sound(s, sc) && Undone(s.rows, history, changes, i, sc.columns)
    requires sc.columns == [] || NothingTakenBack(changes, sc.keyColumn)
    ensures Sound(u, sc) && Records(u.rows) == Records(history[0])
    decreases i
  {
    if i != 0 {
      var last: nat := i - 1;
      var mid :| UndoesLast(s, changes, i, from, mid, sc) && RollsBack(mid, changes, last, from, u, sc);
      CleanStep(history, changes, s, sc, last, i, from, mid);
      CleanRollback(history, changes, mid, sc, last, from, u);
    }
  }

  /* ---------------------------------------------------------------- the log */

  class UndoLog {
    const t: Table
    var changes: seq<Change>
    /** The rows when the transaction began and after each change. */
    ghost var history: seq<Rows>

    ghost predicate Valid()
      reads this, t
    {
      && t.Valid() && t.Exact()
      && Course(history, changes, SchemaOf(t))
      && history[|changes|] == t.rows
    }

    constructor (table: Table)
      requires table.Valid() && table.Exact()
      ensures Valid() && t == table && changes == [] && history == [table.rows]
    {
      t, changes, history := table, [], [table.rows];
    }

    /** The table holds the records the log says it does, with exact indexes, though a statement that
        failed half way may have moved rows. */
    ghost predicate Kept()
      reads this, t
    {
      && t.Valid() && t.Exact()
      && Course(history, changes, SchemaOf(t))
      && Records(t.rows) == Records(history[|changes|])
    }

    /** INSERT in the transaction, recorded if it succeeds. */
    method Insert(row: Row) returns (r: InsertResult)
      requires Valid()
      modifies this, t
      ensures t.reliable ==> t.faults == old(t.faults)
      ensures t.Valid() && old(t.faults) <= t.faults
      ensures t.faults <= old(t.faults) + 1 ==> Valid()
      ensures r.Inserted? <==> old(t.Admits(row)) && t.faults == old(t.faults)
      ensures changes == if r.Inserted? then old(changes) + [Insertion(r.rid, row)] else old(changes)
      ensures history == if r.Inserted? then old(history) + [t.rows] else old(history)
    {
      r := InsertWithIndexes(t, row);
      if r.Inserted? {
        CourseGoesOn(history, changes, SchemaOf(t), Insertion(r.rid, row), t.rows);
        changes := changes + [Insertion(r.rid, row)];
        history := history + [t.rows];
      }
    }

    /** DELETE in the transaction, recorded if it succeeds and there was something to delete. If a single
        call fails, the table still holds the same records, but rows of the candidates may have moved. */
    method Delete(cs: seq<Candidate>) returns (r: DeleteResult)
      requires Valid() && Live(t.rows, cs)
      modifies this, t
      ensures t.reliable ==> t.faults == old(t.faults)
      ensures t.Valid() && old(t.faults) <= t.faults
      ensures t.faults == old(t.faults) ==> Valid()
      ensures t.faults <= old(t.faults) + 1 ==> Kept()
      ensures r.Deleted? <==> Acceptable(cs, t.keyColumn, t.columns) && t.faults == old(t.faults)
      ensures !r.Deleted? ==> OthersStay(old(t.rows), t.rows, cs, t.keyColumn)
      ensures changes == if r.Deleted? && cs != [] then old(changes) + [Deletion(cs)] else old(changes)
      ensures history == if r.Deleted? && cs != [] then old(history) + [t.rows] else old(history)
    {
      LiveIsStored(t.rows, cs);
      r := DeleteWithIndexes(t, cs);
      if r.Deleted? && cs != [] {
        CourseGoesOn(history, changes, SchemaOf(t), Deletion(cs), t.rows);
        changes := changes + [Deletion(cs)];
        history := history + [t.rows];
      } else if r.Deleted? {
        NothingDeleted(history[|changes|], t.keyColumn);
      }
    }

    /** Undoes everything, last first, whatever the transaction did and the table holds by now, and goes
        on whatever fails. If nothing fails, and no row was deleted that the transaction itself had
        inserted and the rows it inserted are where it put them, or there are no indexes, the table then
        holds the records it held when the transaction began, and every index is right. */
    method Rollback()
      requires t.Valid()
      modifies this, t
      ensures t.reliable ==> t.faults == old(t.faults)
      ensures t.Valid() && old(t.faults) <= t.faults && changes == [] && history == [t.rows]
      ensures t.faults == old(t.faults) ==>
                RollsBack(old(ContentsOf(t)), old(changes), |old(changes)|, 0, ContentsOf(t), SchemaOf(t))
      ensures t.faults == old(t.faults) && old(Kept())
              && (t.columns == []
                  || (NothingTakenBack(old(changes), t.keyColumn) && InsertionsInPlace(old(t.rows), old(changes), |old(changes)|))) ==>
                Valid() && Records(t.rows) == Records(old(history)[0])
      ensures t.faults == old(t.faults) && old(Valid()) && (t.columns == [] || NothingTakenBack(old(changes), t.keyColumn)) ==>
                Valid() && Records(t.rows) == Records(old(history)[0])
    {
      if Valid() && NothingTakenBack(changes, t.keyColumn) {
        InsertionsStay(history, changes, SchemaOf(t), |changes|);
      }
      UndoChanges(t, changes);
      if t.faults == old(t.faults) && old(Kept())
         && (t.columns == [] || (NothingTakenBack(changes, t.keyColumn) && InsertionsInPlace(old(t.rows), changes, |changes|))) {
        KeptIsSound(old(t.rows), old(t.entries), history[|changes|], SchemaOf(t));
        LoggedRollback(history, changes, old(ContentsOf(t)), SchemaOf(t), ContentsOf(t));
        ExactIsSound(t);
        CourseStarts(t.rows, SchemaOf(t));
      }
      changes, history := [], [t.rows];
    }

    /** INSERT as a session runs it: if it fails, the transaction is rolled back. If no call fails but
        perhaps the one that ended the INSERT, the records are those from the beginning again where no
        row was deleted that the transaction had inserted, or there are no indexes. */
    method InsertOrRollBack(row: Row) returns (r: InsertResult)
      requires Valid()
      modifies this, t
      ensures t.Valid() && old(t.faults) <= t.faults
      ensures r.Inserted? <==> old(t.Admits(row)) && t.faults == old(t.faults)
      ensures r.Inserted? ==> Valid() && changes == old(changes) + [Insertion(r.rid, row)] && history == old(history) + [t.rows]
      ensures r.InsertFailed? ==> changes == []
      ensures r.InsertFailed? && t.faults == old(t.faults) + (if old(t.Admits(row)) then 1 else 0)
              && (t.columns == [] || NothingTakenBack(old(changes), t.keyColumn)) ==>
                Valid() && Records(t.rows) == Records(old(history)[0])
    {
      r := Insert(row);
      if r.InsertFailed? {
        Rollback();
      }
    }

    /** DELETE as a session runs it: if it fails, the transaction is rolled back. If no call fails but
        perhaps one that ended the DELETE, the records are those from the beginning again where no row
        that the transaction had inserted was deleted, or was to be deleted now, or there are no indexes. */
    method DeleteOrRollBack(cs: seq<Candidate>) returns (r: DeleteResult)
      requires Valid() && Live(t.rows, cs)
      modifies this, t
      ensures t.Valid() && old(t.faults) <= t.faults
      ensures r.Deleted? <==> Acceptable(cs, t.keyColumn, t.columns) && t.faults == old(t.faults)
      ensures r.Deleted? ==> Valid() && changes == if cs != [] then old(changes) + [Deletion(cs)] else old(changes)
      ensures !r.Deleted? ==> changes == []
      ensures !r.Deleted? && t.faults == old(t.faults) + (if Acceptable(cs, t.keyColumn, t.columns) then 1 else 0)
              && (t.columns == [] || NothingTakenBack(old(changes) + [Deletion(cs)], t.keyColumn)) ==>
                Valid() && Records(t.rows) == Records(old(history)[0])
    {
      r := Delete(cs);
      if !r.Deleted? {
        if NothingTakenBack(changes + [Deletion(cs)], t.keyColumn) {
          FewerTakenBack(changes, Deletion(cs), t.keyColumn);
          InsertionsStay(history, changes, SchemaOf(t), |changes|);
          OthersInPlace(old(t.rows), t.rows, changes, cs, t.keyColumn);
        }
        Rollback();
      }
    }
  }

  /** The rows whose keys are not those of the candidates are where they were. */
  ghost predicate OthersStay(before: Rows, now: Rows, cs: seq<Candidate>, keyColumn: nat) {
    forall q | q in Without(before, keyColumn, KeysOf(cs, keyColumn)) :: q in now && now[q] == before[q]
  }

  lemma FewerTakenBack(changes: seq<Change>, change: Change, keyColumn: nat)
    requires NothingTakenBack(changes + [change], keyColumn)
    ensures NothingTakenBack(changes, keyColumn)
  {
    var longer := changes + [change];
    forall i, j | 0 <= i < j < |changes|
      ensures !TakesBack(changes[j], changes[i], keyColumn)
    {
      assert !TakesBack(longer[j], longer[i], keyColumn);
    }
  }

  lemma OthersInPlace(before: Rows, now: Rows, changes: seq<Change>, cs: seq<Candidate>, keyColumn: nat)
    requires NothingTakenBack(changes + [Deletion(cs)], keyColumn) && InsertionsInPlace(before, changes, |changes|)
    requires OthersStay(before, now, cs, keyColumn)
    ensures InsertionsInPlace(now, changes, |changes|)
  {
    var longer := changes + [Deletion(cs)];
    forall j | 0 <= j < |changes| && changes[j].Insertion?
      ensures changes[j].rid in now && now[changes[j].rid] == changes[j].row
    {
      assert !TakesBack(longer[|changes|], longer[j], keyColumn);
      forall i | 0 <= i < |cs| && keyColumn < |cs[i].record|
        ensures keyColumn < |changes[j].row| ==> cs[i].record[keyColumn] != changes[j].row[keyColumn]
      {
        assert cs[i] in cs;
      }
      assert changes[j].rid in Without(before, keyColumn, KeysOf(cs, keyColumn));
    }
  }

  lemma NothingDeleted(rows: Rows, keyColumn: nat)
    ensures Without(rows, keyColumn, KeysOf([], keyColumn)) == rows
  {
  }

  lemma KeptIsSound(rows: Rows, entries: seq<set<Entry>>, before: Rows, sc: Schema)
    requires WellKeyed(before, sc) && UniqueKeys(rows, sc.keyColumn) && forall r | r in rows :: |rows[r]| == sc.width
    requires |entries| == |sc.columns| && forall k | 0 <= k < |sc.columns| :: entries[k] == IndexOf(rows, sc.columns[k])
    ensures Sound(Contents(rows, entries), sc)
  {
    assert entries == Exactly(rows, sc).entries;
  }

  /** Where the rows have moved since, those that were inserted have to be in place. */
  lemma LoggedRollback(history: seq<Rows>, changes: seq<Change>, s: Contents, sc: Schema, u: Contents)
    requires Course(history, changes, sc) && Records(s.rows) == Records(history[|changes|])
    requires RollsBack(s, changes, |changes|, 0, u, sc) && Sound(s, sc)
    requires sc.columns == [] || (NothingTakenBack(changes, sc.keyColumn) && InsertionsInPlace(s.rows, changes, |changes|))
    ensures Sound(u, sc) && Records(u.rows) == Records(history[0])
  {
    CleanRollback(history, changes, s, sc, |changes|, 0, u);
  }
}
