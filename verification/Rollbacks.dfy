/** When rolling a transaction back restores the table, and which rows are lost when it does not. */
module Rollbacks {
  import opened Values
  import opened Store
  import opened Dml
  import opened Undo
  import opened Wrappers

  /* ---------------------------------------------------------------- rows by their keys */

  ghost predicate HasKey(rows: Rows, r: Rid, key: Value, keyColumn: nat) {
    r in rows && keyColumn < |rows[r]| && rows[r][keyColumn] == key
  }

  /** `held` has the row of each key. */
  ghost predicate Holds(held: map<Value, Row>, rows: Rows, keyColumn: nat) {
    && (forall r | r in rows && keyColumn < |rows[r]| :: rows[r][keyColumn] in held && held[rows[r][keyColumn]] == rows[r])
    && (forall key | key in held :: exists r :: HasKey(rows, r, key, keyColumn))
  }

  /** The row of each key. */
  ghost function ByKey(rows: Rows, keyColumn: nat): map<Value, Row>
    decreases |rows|
  {
    if rows == map[] then map[]
    else
      var r := AnyOf(rows);
      var others := ByKey(rows - {r}, keyColumn);
      if keyColumn < |rows[r]| then others[rows[r][keyColumn] := rows[r]] else others
  }

  lemma {:induction false} ByKeyHolds(rows: Rows, sc: Schema)
    requires WellKeyed(rows, sc)
    ensures Holds(ByKey(rows, sc.keyColumn), rows, sc.keyColumn)
    decreases |rows|
  {
    if rows != map[] {
      var r := AnyOf(rows);
      assert |rows - {r}| < |rows|;
      FewerAreKeyed(rows, sc, r);
      ByKeyHolds(rows - {r}, sc);
      OneMoreHeld(ByKey(rows - {r}, sc.keyColumn), rows - {r}, sc, r, rows[r]);
      BackAgain(rows, r);
    }
  }

  lemma BackAgain(rows: Rows, r: Rid)
    requires r in rows
    ensures (rows - {r})[r := rows[r]] == rows
  {
  }

  lemma FewerAreKeyed(rows: Rows, sc: Schema, r: Rid)
    requires WellKeyed(rows, sc) && r in rows
    ensures WellKeyed(rows - {r}, sc) && Admitted(rows - {r}, rows[r], sc)
  {
  }

  lemma OneMoreHeld(held: map<Value, Row>, rows: Rows, sc: Schema, r: Rid, row: Row)
    requires WellKeyed(rows, sc) && Holds(held, rows, sc.keyColumn) && r !in rows && Admitted(rows, row, sc)
    ensures Holds(held[row[sc.keyColumn] := row], rows[r := row], sc.keyColumn)
  {
    var more, now := rows[r := row], held[row[sc.keyColumn] := row];
    forall key | key in now
      ensures exists q :: HasKey(more, q, key, sc.keyColumn)
    {
      if key == row[sc.keyColumn] {
        assert HasKey(more, r, key, sc.keyColumn);
      } else {
        var q :| HasKey(rows, q, key, sc.keyColumn);
        assert HasKey(more, q, key, sc.keyColumn);
      }
    }
  }

  lemma OneLessHeld(held: map<Value, Row>, rows: Rows, sc: Schema, r: Rid)
    requires WellKeyed(rows, sc) && Holds(held, rows, sc.keyColumn) && r in rows
    ensures sc.keyColumn < |rows[r]| && Holds(held - {rows[r][sc.keyColumn]}, rows - {r}, sc.keyColumn)
  {
    assert |rows[r]| == sc.width;
    var fewer := rows - {r};
    forall q | q in fewer
      ensures fewer[q] == rows[q] && |rows[q]| == sc.width && rows[q][sc.keyColumn] != rows[r][sc.keyColumn]
    {
    }
    forall key | key in held - {rows[r][sc.keyColumn]}
      ensures exists q :: HasKey(fewer, q, key, sc.keyColumn)
    {
      var q :| HasKey(rows, q, key, sc.keyColumn);
      assert HasKey(fewer, q, key, sc.keyColumn);
    }
  }

  /** Tables hold the same records exactly if they hold the same row for each key. */
  lemma {:induction false} SameRecordsSameKeys(mine: map<Value, Row>, rows: Rows, theirs: map<Value, Row>, others: Rows, sc: Schema)
    requires WellKeyed(rows, sc) && WellKeyed(others, sc)
    requires Holds(mine, rows, sc.keyColumn) && Holds(theirs, others, sc.keyColumn)
    ensures Records(rows) == Records(others) <==> mine == theirs
    decreases |rows|
  {
    if rows == map[] {
      NoRecordsNoKeys(mine, theirs, others, sc);
    } else {
      var r := AnyOf(rows);
      assert |rows[r]| == sc.width;
      if Records(rows) == Records(others) {
        SameRecordsSameRows(rows, others, r);
        var q :| q in others && others[q] == rows[r];
        SameButOne(mine, rows, theirs, others, sc, r, q);
      }
      if mine == theirs {
        var q :| HasKey(others, q, rows[r][sc.keyColumn], sc.keyColumn);
        SameButOne(mine, rows, theirs, others, sc, r, q);
      }
    }
  }

  lemma NoRecordsNoKeys(mine: map<Value, Row>, theirs: map<Value, Row>, others: Rows, sc: Schema)
    requires WellKeyed(others, sc) && Holds(mine, map[], sc.keyColumn) && Holds(theirs, others, sc.keyColumn)
    ensures mine == map[] && (Records(others) == multiset{} <==> theirs == map[])
  {
    if key :| key in mine {
      var r :| HasKey(map[], r, key, sc.keyColumn);
    }
    if others != map[] {
      var q := AnyOf(others);
      assert |others[q]| == sc.width && others[q][sc.keyColumn] in theirs;
    }
  }

  lemma SameButOne(mine: map<Value, Row>, rows: Rows, theirs: map<Value, Row>, others: Rows, sc: Schema, r: Rid, q: Rid)
    requires WellKeyed(rows, sc) && WellKeyed(others, sc) && r in rows && q in others && rows[r] == others[q]
    requires Holds(mine, rows, sc.keyColumn) && Holds(theirs, others, sc.keyColumn)
    ensures Records(rows) == Records(others) <==> mine == theirs
    decreases |rows|, 0
  {
    assert |rows - {r}| < |rows|;
    FewerAreKeyed(rows, sc, r);
    FewerAreKeyed(others, sc, q);
    OneLessHeld(mine, rows, sc, r);
    OneLessHeld(theirs, others, sc, q);
    var key := rows[r][sc.keyColumn];
    SameRecordsSameKeys(mine - {key}, rows - {r}, theirs - {key}, others - {q}, sc);
    RecordsRemove(rows, r);
    RecordsRemove(others, q);
    SameOrNot(Records(rows - {r}), Records(others - {q}), rows[r]);
    SameMapsWithout(mine, theirs, key);
  }

  lemma SameMapsWithout<K, V>(m: map<K, V>, n: map<K, V>, k: K)
    requires k in m && k in n && m[k] == n[k]
    ensures m == n <==> m - {k} == n - {k}
  {
    if m - {k} == n - {k} {
      forall x | x in m
        ensures x in n && m[x] == n[x]
      {
        assert x != k ==> x in m - {k} && (m - {k})[x] == (n - {k})[x];
      }
      forall x | x in n
        ensures x in m
      {
        assert x != k ==> x in n - {k};
      }
    }
  }

  /* ---------------------------------------------------------------- the rollback, by keys */

  /** The row each key has, and the keys whose rows have come back, and so are not where they were. */
  datatype Keyed = Keyed(held: map<Value, Row>, moved: set<Value>)

  function PutKey(k: Keyed, row: Row, keyColumn: nat): Keyed
    requires keyColumn < |row|
  {
    Keyed(k.held[row[keyColumn] := row], k.moved + {row[keyColumn]})
  }

  /** The rows of a deletion come back in turn, until a key is taken. */
  function PutKeys(k: Keyed, cs: seq<Candidate>, i: nat, keyColumn: nat): Keyed
    decreases |cs| - i
  {
    if |cs| <= i || |cs[i].record| <= keyColumn || cs[i].record[keyColumn] in k.held then k
    else PutKeys(PutKey(k, cs[i].record, keyColumn), cs, i + 1, keyColumn)
  }

  /** An inserted row goes unless it has moved. */
  function KeyedUndo(k: Keyed, change: Change, keyColumn: nat): Keyed {
    match change
    case Insertion(_, row) =>
      if keyColumn < |row| && row[keyColumn] in k.held && row[keyColumn] !in k.moved
      then Keyed(k.held - {row[keyColumn]}, k.moved)
      else k
    case Deletion(cs) => PutKeys(k, cs, 0, keyColumn)
  }

  /** Where the undoing stands when changes `m` and later are undone. */
  function KeyedAt(end: map<Value, Row>, changes: seq<Change>, m: nat, keyColumn: nat): Keyed
    decreases |changes| - m
  {
    if |changes| <= m then Keyed(end, {})
    else KeyedUndo(KeyedAt(end, changes, m + 1, keyColumn), changes[m], keyColumn)
  }

  lemma KeyedAtNext(end: map<Value, Row>, changes: seq<Change>, m: nat, next: nat, keyColumn: nat)
    requires next == m + 1 <= |changes|
    ensures KeyedAt(end, changes, m, keyColumn) == KeyedUndo(KeyedAt(end, changes, next, keyColumn), changes[m], keyColumn)
  {
  }

  /* ---------------------------------------------------------------- rows that come back go to fresh places */

  /** No row ever was on page `from` or behind it. */
  ghost predicate Fresh(history: seq<Rows>, from: nat) {
    forall m, r | 0 <= m < |history| && r in history[m] :: r.page < from
  }

  /** The rows by their keys; those on page `from` or behind it have moved. */
  ghost predicate Pictures(k: Keyed, rows: Rows, from: nat, sc: Schema) {
    && WellKeyed(rows, sc) && Holds(k.held, rows, sc.keyColumn) && k.moved <= k.held.Keys
    && (forall r | r in rows :: rows[r][sc.keyColumn] in k.moved <==> from <= r.page)
  }

  /** The rows before page `from` are where they were. */
  ghost predicate OldPlaces(rows: Rows, before: Rows, from: nat) {
    forall r | r in rows && r.page < from :: r in before && before[r] == rows[r]
  }

  lemma FewerPictured(k: Keyed, rows: Rows, from: nat, sc: Schema, r: Rid)
    requires Pictures(k, rows, from, sc) && r in rows && r.page < from
    ensures sc.keyColumn < |rows[r]| && rows[r][sc.keyColumn] in k.held && rows[r][sc.keyColumn] !in k.moved
    ensures Pictures(Keyed(k.held - {rows[r][sc.keyColumn]}, k.moved), rows - {r}, from, sc)
  {
    FewerAreKeyed(rows, sc, r);
    OneLessHeld(k.held, rows, sc, r);
  }

  lemma MorePictured(k: Keyed, rows: Rows, from: nat, sc: Schema, rid: Rid, row: Row)
    requires Pictures(k, rows, from, sc) && rid !in rows && from <= rid.page && Admitted(rows, row, sc)
    ensures Pictures(PutKey(k, row, sc.keyColumn), rows[rid := row], from, sc)
  {
    OneMoreHeld(k.held, rows, sc, rid, row);
  }

  lemma AdmittedByKey(k: Keyed, rows: Rows, from: nat, sc: Schema, row: Row)
    requires Pictures(k, rows, from, sc) && |row| == sc.width
    ensures Admitted(rows, row, sc) <==> row[sc.keyColumn] !in k.held
  {
    if row[sc.keyColumn] in k.held {
      var r :| HasKey(rows, r, row[sc.keyColumn], sc.keyColumn);
    }
  }

  /** An insertion is undone exactly if the row has not moved. */
  lemma FreshInsertion(before: Rows, s: Contents, k: Keyed, rid: Rid, row: Row, from: nat, sc: Schema)
    requires Sound(s, sc) && sc.columns != [] && Pictures(k, s.rows, from, sc)
    requires rid !in before && rid.page < from && WellKeyed(before[rid := row], sc) && OldPlaces(s.rows, before[rid := row], from)
    ensures var u := Taken(s, rid, row, sc);
      && Sound(u, sc) && OldPlaces(u.rows, before, from)
      && Pictures(KeyedUndo(k, Insertion(rid, row), sc.keyColumn), u.rows, from, sc)
  {
    assert before[rid := row][rid] == row && |row| == sc.width;
    if rid in s.rows {
      UnmovedGoes(s, k, rid, row, from, sc);
      assert OldPlaces(s.rows - {rid}, before, from);
    } else {
      TakenFromNowhere(s, rid, row, sc);
      MovedStays(before, s.rows, k, rid, row, from, sc);
    }
  }

  lemma UnmovedGoes(s: Contents, k: Keyed, rid: Rid, row: Row, from: nat, sc: Schema)
    requires Sound(s, sc) && Pictures(k, s.rows, from, sc) && rid.page < from && rid in s.rows && s.rows[rid] == row
    ensures var u := Taken(s, rid, row, sc);
      && Sound(u, sc) && u.rows == s.rows - {rid}
      && Pictures(KeyedUndo(k, Insertion(rid, row), sc.keyColumn), u.rows, from, sc)
  {
    OnlyRowWithKey(s.rows, rid, sc);
    TakenInPlace(s, rid, row, sc);
    FewerPictured(k, s.rows, from, sc, rid);
  }

  lemma MovedStays(before: Rows, rows: Rows, k: Keyed, rid: Rid, row: Row, from: nat, sc: Schema)
    requires Pictures(k, rows, from, sc) && rid !in rows
    requires WellKeyed(before[rid := row], sc) && OldPlaces(rows, before[rid := row], from)
    ensures KeyedUndo(k, Insertion(rid, row), sc.keyColumn) == k
  {
    var after := before[rid := row];
    assert after[rid] == row && |row| == sc.width;
  }

  /** A deletion is undone up to the first key that is taken. */
  lemma {:induction false} FreshDeletion(s: Contents, k: Keyed, cs: seq<Candidate>, i: nat, from: nat, u: Contents, sc: Schema)
    requires Sound(s, sc) && PutsBack(s, cs, i, from, u, sc) && Pictures(k, s.rows, from, sc)
    requires forall j | 0 <= j < |cs| :: |cs[j].record| == sc.width
    ensures Sound(u, sc) && OldPlaces(u.rows, s.rows, from)
    ensures Pictures(PutKeys(k, cs, i, sc.keyColumn), u.rows, from, sc)
    decreases |cs| - i
  {
    if i < |cs| {
      var row := cs[i].record;
      AdmittedByKey(k, s.rows, from, sc, row);
      if Admitted(s.rows, row, sc) {
        var next := i + 1;
        var rid: Rid :| rid !in s.rows && from <= rid.page && PutsBack(Put(s, rid, row, sc), cs, next, from, u, sc);
        PutIsSound(s, rid, row, sc);
        MorePictured(k, s.rows, from, sc, rid, row);
        FreshDeletion(Put(s, rid, row, sc), PutKey(k, row, sc.keyColumn), cs, next, from, u, sc);
      }
    }
  }

  lemma FreshStep(history: seq<Rows>, changes: seq<Change>, s: Contents, k: Keyed, sc: Schema, i: nat, next: nat, from: nat, u: Contents)
    requires Course(history, changes, sc) && Fresh(history, from) && sc.columns != []
    requires next == i + 1 <= |changes| && Undoes(s, changes[i], from, u, sc)
    requires Sound(s, sc) && OldPlaces(s.rows, history[next], from) && Pictures(k, s.rows, from, sc)
    ensures Sound(u, sc) && OldPlaces(u.rows, history[i], from)
    ensures Pictures(KeyedUndo(k, changes[i], sc.keyColumn), u.rows, from, sc)
  {
    assert TakesAt(history, changes, i, sc);
    match changes[i]
    case Insertion(rid, row) =>
      assert rid in history[next];
      FreshInsertion(history[i], s, k, rid, row, from, sc);
    case Deletion(cs) =>
      DeletionTakes(history[i], cs, history[next], sc);
      FreshDeletion(s, k, cs, 0, from, u, sc);
  }

  /** The places of the rows that come back do not matter as long as they are fresh: the table stays
      sound, and which rows it holds in the end is determined by the log. */
  lemma {:induction false} FreshRun(history: seq<Rows>, changes: seq<Change>, s: Contents, end: map<Value, Row>, sc: Schema, i: nat, from: nat, u: Contents)
    requires Course(history, changes, sc) && Fresh(history, from) && sc.columns != []
    requires i <= |changes| && RollsBack(s, changes, i, from, u, sc)
    requires Sound(s, sc) && OldPlaces(s.rows, history[i], from)
    requires Pictures(KeyedAt(end, changes, i, sc.keyColumn), s.rows, from, sc)
    ensures Sound(u, sc) && Pictures(KeyedAt(end, changes, 0, sc.keyColumn), u.rows, from, sc)
    decreases i
  {
    if i != 0 {
      var last: nat := i - 1;
      var mid :| UndoesLast(s, changes, i, from, mid, sc) && RollsBack(mid, changes, last, from, u, sc);
      FreshStep(history, changes, s, KeyedAt(end, changes, i, sc.keyColumn), sc, last, i, from, mid);
      KeyedAtNext(end, changes, last, i, sc.keyColumn);
      FreshRun(history, changes, mid, end, sc, last, from, u);
    }
  }

  /* ---------------------------------------------------------------- there are such runs */

  lemma {:induction false} CanPutBack(s: Contents, cs: seq<Candidate>, i: nat, from: nat, sc: Schema) returns (u: Contents)
    ensures PutsBack(s, cs, i, from, u, sc)
    decreases |cs| - i
  {
    if |cs| <= i || !Admitted(s.rows, cs[i].record, sc) {
      u := s;
    } else {
      var next := i + 1;
      var rid := UnusedRid(s.rows, from);
      u := CanPutBack(Put(s, rid, cs[i].record, sc), cs, next, from, sc);
    }
  }

  lemma CanUndo(s: Contents, change: Change, from: nat, sc: Schema) returns (u: Contents)
    ensures Undoes(s, change, from, u, sc)
  {
    match change
    case Insertion(rid, row) => u := Taken(s, rid, row, sc);
    case Deletion(cs) => u := CanPutBack(s, cs, 0, from, sc);
  }

  /** Whatever the log and the table, the rollback can go on, with identifiers as far back as one likes. */
  lemma {:induction false} CanRollBack(s: Contents, changes: seq<Change>, i: nat, from: nat, sc: Schema) returns (u: Contents)
    requires i <= |changes|
    ensures RollsBack(s, changes, i, from, u, sc)
    decreases i
  {
    if i == 0 {
      u := s;
    } else {
      var last: nat := i - 1;
      var mid := CanUndo(s, changes[last], from, sc);
      assert UndoesLast(s, changes, i, from, mid, sc);
      u := CanRollBack(mid, changes, last, from, sc);
    }
  }

  lemma {:induction false} PutBackAnywhere(s: Contents, cs: seq<Candidate>, i: nat, from: nat, u: Contents, sc: Schema)
    requires PutsBack(s, cs, i, from, u, sc)
    ensures PutsBack(s, cs, i, 0, u, sc)
    decreases |cs| - i
  {
    if i < |cs| && Admitted(s.rows, cs[i].record, sc) {
      var next := i + 1;
      var rid: Rid :| rid !in s.rows && from <= rid.page && PutsBack(Put(s, rid, cs[i].record, sc), cs, next, from, u, sc);
      PutBackAnywhere(Put(s, rid, cs[i].record, sc), cs, next, from, u, sc);
    }
  }

  lemma {:induction false} RollsBackAnywhere(s: Contents, changes: seq<Change>, i: nat, from: nat, u: Contents, sc: Schema)
    requires RollsBack(s, changes, i, from, u, sc)
    ensures RollsBack(s, changes, i, 0, u, sc)
    decreases i
  {
    if i != 0 {
      var last: nat := i - 1;
      var mid :| UndoesLast(s, changes, i, from, mid, sc) && RollsBack(mid, changes, last, from, u, sc);
      if changes[last].Deletion? {
        PutBackAnywhere(s, changes[last].candidates, 0, from, mid, sc);
      }
      assert UndoesLast(s, changes, i, 0, mid, sc);
      RollsBackAnywhere(mid, changes, last, from, u, sc);
    }
  }

  lemma {:induction false} PagesEnd(rows: Rows) returns (from: nat)
    ensures forall r | r in rows :: r.page < from
    decreases |rows|
  {
    from := 0;
    if rows != map[] {
      var r := AnyOf(rows);
      assert |rows - {r}| < |rows|;
      from := PagesEnd(rows - {r});
      from := if from <= r.page then r.page + 1 else from;
      forall q | q in rows
        ensures q.page < from
      {
        assert q != r ==> q in rows - {r};
      }
    }
  }

  lemma {:induction false} AllPagesEnd(history: seq<Rows>) returns (from: nat)
    ensures Fresh(history, from)
  {
    from := 0;
    for m := 0 to |history|
      invariant forall l, r | 0 <= l < m && r in history[l] :: r.page < from
    {
      var more := PagesEnd(history[m]);
      from := if from <= more then more else from;
    }
  }

  /* ---------------------------------------------------------------- what the log did, by keys */

  predicate HasKeyAt(cs: seq<Candidate>, p: nat, key: Value, keyColumn: nat) {
    p < |cs| && keyColumn < |cs[p].record| && cs[p].record[keyColumn] == key
  }

  ghost predicate Keys(cs: seq<Candidate>, keyColumn: nat) {
    && (forall p | 0 <= p < |cs| :: keyColumn < |cs[p].record|)
    && (forall p, q | 0 <= p < q < |cs| :: cs[p].record[keyColumn] != cs[q].record[keyColumn])
  }

  ghost predicate KeyedTakes(before: map<Value, Row>, change: Change, after: map<Value, Row>, keyColumn: nat) {
    match change
    case Insertion(_, row) => keyColumn < |row| && row[keyColumn] !in before && after == before[row[keyColumn] := row]
    case Deletion(cs) =>
      && Keys(cs, keyColumn)
      && (forall p | 0 <= p < |cs| :: cs[p].record[keyColumn] in before && before[cs[p].record[keyColumn]] == cs[p].record)
      && (forall key :: key in after <==> key in before && !DeletesKey(change, key, keyColumn))
      && (forall key | key in after :: after[key] == before[key])
  }

  ghost predicate KeyedTakesAt(story: seq<map<Value, Row>>, changes: seq<Change>, m: nat, keyColumn: nat) {
    m + 1 < |story| && m < |changes| && KeyedTakes(story[m], changes[m], story[m + 1], keyColumn)
  }

  /** The row of each key before, between and after the changes. */
  ghost predicate Story(story: seq<map<Value, Row>>, changes: seq<Change>, keyColumn: nat) {
    |story| == |changes| + 1 && forall m | 0 <= m < |changes| :: KeyedTakesAt(story, changes, m, keyColumn)
  }

  ghost function StoryOf(history: seq<Rows>, keyColumn: nat): seq<map<Value, Row>> {
    seq(|history|, m requires 0 <= m < |history| => ByKey(history[m], keyColumn))
  }

  lemma {:induction false} SameHeld(held: map<Value, Row>, others: map<Value, Row>, rows: Rows, sc: Schema)
    requires WellKeyed(rows, sc) && Holds(held, rows, sc.keyColumn) && Holds(others, rows, sc.keyColumn)
    ensures held == others
  {
    SameRecordsSameKeys(held, rows, others, rows, sc);
  }

  lemma InsertionByKey(before: Rows, rid: Rid, row: Row, sc: Schema)
    requires WellKeyed(before, sc) && WellKeyed(before[rid := row], sc) && rid !in before
    ensures KeyedTakes(ByKey(before, sc.keyColumn), Insertion(rid, row), ByKey(before[rid := row], sc.keyColumn), sc.keyColumn)
  {
    var after, held := before[rid := row], ByKey(before, sc.keyColumn);
    ByKeyHolds(before, sc);
    ByKeyHolds(after, sc);
    assert after[rid] == row && |row| == sc.width;
    assert Admitted(before, row, sc) by {
      forall r | r in before
        ensures before[r][sc.keyColumn] != row[sc.keyColumn]
      {
        assert after[r] == before[r];
      }
    }
    OneMoreHeld(held, before, sc, rid, row);
    SameHeld(held[row[sc.keyColumn] := row], ByKey(after, sc.keyColumn), after, sc);
  }

  lemma DeletionByKey(before: Rows, cs: seq<Candidate>, after: Rows, sc: Schema)
    requires WellKeyed(before, sc) && WellKeyed(after, sc) && Takes(before, Deletion(cs), after, sc)
    ensures KeyedTakes(ByKey(before, sc.keyColumn), Deletion(cs), ByKey(after, sc.keyColumn), sc.keyColumn)
  {
    ByKeyHolds(before, sc);
    ByKeyHolds(after, sc);
    var held, left := ByKey(before, sc.keyColumn), ByKey(after, sc.keyColumn);
    forall p | 0 <= p < |cs|
      ensures sc.keyColumn < |cs[p].record|
      ensures cs[p].record[sc.keyColumn] in held && held[cs[p].record[sc.keyColumn]] == cs[p].record
    {
      assert LiveSomewhere(before, cs[p]) && Fitting(cs[p], sc.keyColumn, sc.columns);
    }
    forall key
      ensures key in left <==> key in held && !DeletesKey(Deletion(cs), key, sc.keyColumn)
      ensures key in left ==> left[key] == held[key]
    {
      LeftByKey(before, cs, after, sc, held, left, key);
    }
  }

  lemma DeletesItsKeys(cs: seq<Candidate>, key: Value, keyColumn: nat)
    ensures DeletesKey(Deletion(cs), key, keyColumn) <==> key in KeysOf(cs, keyColumn)
    ensures DeletesKey(Deletion(cs), key, keyColumn) <==> exists p: nat :: HasKeyAt(cs, p, key, keyColumn)
  {
    if p: nat :| HasKeyAt(cs, p, key, keyColumn) {
      assert cs[p] in cs;
    }
    if DeletesKey(Deletion(cs), key, keyColumn) {
      var c :| c in cs && keyColumn < |c.record| && c.record[keyColumn] == key;
      var p: nat :| p < |cs| && cs[p] == c;
      assert HasKeyAt(cs, p, key, keyColumn);
    }
  }

  lemma LeftByKey(before: Rows, cs: seq<Candidate>, after: Rows, sc: Schema, held: map<Value, Row>, left: map<Value, Row>, key: Value)
    requires WellKeyed(before, sc) && after == Without(before, sc.keyColumn, KeysOf(cs, sc.keyColumn))
    requires Holds(held, before, sc.keyColumn) && Holds(left, after, sc.keyColumn)
    ensures key in left <==> key in held && !DeletesKey(Deletion(cs), key, sc.keyColumn)
    ensures key in left ==> left[key] == held[key]
  {
    DeletesItsKeys(cs, key, sc.keyColumn);
    if key in left {
      var r :| HasKey(after, r, key, sc.keyColumn);
    }
    if key in held && key !in KeysOf(cs, sc.keyColumn) {
      var r :| HasKey(before, r, key, sc.keyColumn);
      assert r in after && after[r] == before[r];
    }
  }

  lemma CourseTellsStory(history: seq<Rows>, changes: seq<Change>, sc: Schema)
    requires Course(history, changes, sc)
    ensures Story(StoryOf(history, sc.keyColumn), changes, sc.keyColumn)
  {
    var story := StoryOf(history, sc.keyColumn);
    forall m | 0 <= m < |changes|
      ensures KeyedTakesAt(story, changes, m, sc.keyColumn)
    {
      assert TakesAt(history, changes, m, sc);
      match changes[m]
      case Insertion(rid, row) => InsertionByKey(history[m], rid, row, sc);
      case Deletion(cs) => DeletionByKey(history[m], cs, history[m + 1], sc);
    }
  }

  /* ---------------------------------------------------------------- how far the undoing of a deletion gets */

  /** The first candidate from `i` on whose key is taken, or the end. */
  function FirstHeld(held: map<Value, Row>, cs: seq<Candidate>, i: nat, keyColumn: nat): (stop: nat)
    requires i <= |cs|
    ensures i <= stop <= |cs|
    decreases |cs| - i
  {
    if i == |cs| || (keyColumn < |cs[i].record| && cs[i].record[keyColumn] in held) then i
    else FirstHeld(held, cs, i + 1, keyColumn)
  }

  lemma {:induction false} FirstHeldMeans(held: map<Value, Row>, cs: seq<Candidate>, i: nat, keyColumn: nat)
    requires i <= |cs| && Keys(cs, keyColumn)
    ensures var stop := FirstHeld(held, cs, i, keyColumn);
      && (forall p | i <= p < stop :: cs[p].record[keyColumn] !in held)
      && (stop < |cs| ==> cs[stop].record[keyColumn] in held)
    decreases |cs| - i
  {
    if i < |cs| && cs[i].record[keyColumn] !in held {
      var next := i + 1;
      FirstHeldMeans(held, cs, next, keyColumn);
    }
  }

  /** Candidates `i` up to `stop` have come back. */
  ghost predicate BackUpTo(k: Keyed, cs: seq<Candidate>, i: nat, stop: nat, r: Keyed, keyColumn: nat) {
    && r.moved <= r.held.Keys && i <= stop <= |cs|
    && (forall x | x in k.held :: x in r.held && r.held[x] == k.held[x] && (x in r.moved <==> x in k.moved))
    && (forall p, x | i <= p < stop && HasKeyAt(cs, p, x, keyColumn) :: x in r.moved && r.held[x] == cs[p].record)
    && (forall x | x in r.held && x !in k.held :: exists p :: i <= p < stop && HasKeyAt(cs, p, x, keyColumn))
  }

  /** The candidates before the first taken key come back, and no others. */
  lemma {:induction false} PutKeysMeans(k: Keyed, cs: seq<Candidate>, i: nat, keyColumn: nat)
    requires i <= |cs| && Keys(cs, keyColumn) && k.moved <= k.held.Keys
    ensures BackUpTo(k, cs, i, FirstHeld(k.held, cs, i, keyColumn), PutKeys(k, cs, i, keyColumn), keyColumn)
    decreases |cs| - i
  {
    if i < |cs| && cs[i].record[keyColumn] !in k.held {
      var next := i + 1;
      var put := PutKey(k, cs[i].record, keyColumn);
      PutKeysMeans(put, cs, next, keyColumn);
      SameFirstHeld(k.held, put.held, cs, next, cs[i].record[keyColumn], keyColumn);
      OneMoreBackUp(k, cs, i, next, FirstHeld(k.held, cs, next, keyColumn), PutKeys(put, cs, next, keyColumn), keyColumn);
    }
  }

  lemma {:induction false} SameFirstHeld(held: map<Value, Row>, more: map<Value, Row>, cs: seq<Candidate>, i: nat, key: Value, keyColumn: nat)
    requires i <= |cs| && more.Keys == held.Keys + {key} && forall p | i <= p < |cs| :: !HasKeyAt(cs, p, key, keyColumn)
    ensures FirstHeld(held, cs, i, keyColumn) == FirstHeld(more, cs, i, keyColumn)
    decreases |cs| - i
  {
    if i < |cs| {
      var next := i + 1;
      assert !HasKeyAt(cs, i, key, keyColumn);
      SameFirstHeld(held, more, cs, next, key, keyColumn);
    }
  }

  lemma OneMoreBackUp(k: Keyed, cs: seq<Candidate>, i: nat, next: nat, stop: nat, r: Keyed, keyColumn: nat)
    requires next == i + 1 <= |cs| && Keys(cs, keyColumn) && cs[i].record[keyColumn] !in k.held
    requires k.moved <= k.held.Keys
    requires BackUpTo(PutKey(k, cs[i].record, keyColumn), cs, next, stop, r, keyColumn)
    ensures BackUpTo(k, cs, i, stop, r, keyColumn)
  {
    var key := cs[i].record[keyColumn];
    forall x | x in r.held && x !in k.held
      ensures exists p :: i <= p < stop && HasKeyAt(cs, p, x, keyColumn)
    {
      if x == key {
        assert HasKeyAt(cs, i, x, keyColumn);
      } else {
        var p :| next <= p < stop && HasKeyAt(cs, p, x, keyColumn);
      }
    }
  }

  /* ---------------------------------------------------------------- keys that no later change deletes */

  /** Change `m` or a later one deletes the key. */
  predicate DeletedFrom(changes: seq<Change>, m: nat, key: Value, keyColumn: nat) {
    exists d :: m <= d < |changes| && DeletesKey(changes[d], key, keyColumn)
  }

  /** Keys that are not deleted any more are as they were in the course of the transaction. */
  ghost predicate Follows(k: Keyed, now: map<Value, Row>, changes: seq<Change>, m: nat, keyColumn: nat) {
    && k.moved <= k.held.Keys
    && (forall x | !DeletedFrom(changes, m, x, keyColumn) :: x !in k.moved && Agree(k.held, now, x))
  }

  predicate Agree(held: map<Value, Row>, others: map<Value, Row>, key: Value) {
    (key in held <==> key in others) && (key in held ==> held[key] == others[key])
  }

  lemma DeletedFromNext(changes: seq<Change>, m: nat, next: nat, key: Value, keyColumn: nat)
    requires next == m + 1 <= |changes|
    ensures DeletedFrom(changes, m, key, keyColumn) <==> DeletesKey(changes[m], key, keyColumn) || DeletedFrom(changes, next, key, keyColumn)
  {
  }

  lemma FollowsOn(k: Keyed, before: map<Value, Row>, after: map<Value, Row>, changes: seq<Change>, m: nat, next: nat, keyColumn: nat)
    requires next == m + 1 <= |changes| && KeyedTakes(before, changes[m], after, keyColumn)
    requires Follows(k, after, changes, next, keyColumn)
    ensures Follows(KeyedUndo(k, changes[m], keyColumn), before, changes, m, keyColumn)
  {
    var r := KeyedUndo(k, changes[m], keyColumn);
    if changes[m].Deletion? {
      PutKeysMeans(k, changes[m].candidates, 0, keyColumn);
    }
    forall x | !DeletedFrom(changes, m, x, keyColumn)
      ensures x !in r.moved && Agree(r.held, before, x)
    {
      DeletedFromNext(changes, m, next, x, keyColumn);
      if changes[m].Deletion? {
        DeletesItsKeys(changes[m].candidates, x, keyColumn);
      }
    }
  }

  lemma {:induction false} FollowsAt(story: seq<map<Value, Row>>, changes: seq<Change>, m: nat, keyColumn: nat)
    requires Story(story, changes, keyColumn) && m <= |changes|
    ensures Follows(KeyedAt(story[|changes|], changes, m, keyColumn), story[m], changes, m, keyColumn)
    decreases |changes| - m
  {
    if m < |changes| {
      var next := m + 1;
      assert KeyedTakesAt(story, changes, m, keyColumn);
      FollowsAt(story, changes, next, keyColumn);
      FollowsOn(KeyedAt(story[|changes|], changes, next, keyColumn), story[m], story[next], changes, m, next, keyColumn);
    }
  }

  /** A row that has moved is there to stay. */
  lemma {:induction false} MovedIsStuck(story: seq<map<Value, Row>>, changes: seq<Change>, m: nat, key: Value, keyColumn: nat)
    requires Story(story, changes, keyColumn) && m <= |changes|
    requires key in KeyedAt(story[|changes|], changes, m, keyColumn).moved
    ensures var k, end := KeyedAt(story[|changes|], changes, m, keyColumn), KeyedAt(story[|changes|], changes, 0, keyColumn);
      key in end.moved && key in k.held && key in end.held && end.held[key] == k.held[key]
    decreases m
  {
    FollowsAt(story, changes, m, keyColumn);
    if m != 0 {
      var before: nat := m - 1;
      assert KeyedTakesAt(story, changes, before, keyColumn);
      if changes[before].Deletion? {
        PutKeysMeans(KeyedAt(story[|changes|], changes, m, keyColumn), changes[before].candidates, 0, keyColumn);
      }
      MovedIsStuck(story, changes, before, key, keyColumn);
    }
  }

  /* ---------------------------------------------------------------- logs whose inserted keys are new */

  /** No inserted key was stored when the transaction began. */
  ghost predicate InsertsNewKeys(start: map<Value, Row>, changes: seq<Change>, keyColumn: nat) {
    forall i | 0 <= i < |changes| && changes[i].Insertion? && keyColumn < |changes[i].row| :: changes[i].row[keyColumn] !in start
  }

  /** Changes `m` and later delete only keys that were stored when the transaction began. */
  ghost predicate DeletesOldKeys(start: map<Value, Row>, changes: seq<Change>, m: nat, keyColumn: nat) {
    forall d, x | m <= d < |changes| && DeletesKey(changes[d], x, keyColumn) :: x in start
  }

  /** If the rollback restores the rows, it follows the history back, and nothing was taken back. */
  lemma {:induction false} RestoredFollowsBack(story: seq<map<Value, Row>>, changes: seq<Change>, m: nat, keyColumn: nat)
    requires Story(story, changes, keyColumn) && InsertsNewKeys(story[0], changes, keyColumn) && m <= |changes|
    requires KeyedAt(story[|changes|], changes, 0, keyColumn).held == story[0]
    ensures KeyedAt(story[|changes|], changes, m, keyColumn).held == story[m]
    ensures DeletesOldKeys(story[0], changes, m, keyColumn)
    decreases |changes| - m
  {
    if m < |changes| {
      var next := m + 1;
      assert KeyedTakesAt(story, changes, m, keyColumn);
      RestoredFollowsBack(story, changes, next, keyColumn);
      FollowsAt(story, changes, next, keyColumn);
      match changes[m]
      case Insertion(_, row) =>
        if row[keyColumn] in KeyedAt(story[|changes|], changes, next, keyColumn).moved {
          MovedIsStuck(story, changes, next, row[keyColumn], keyColumn);
        }
      case Deletion(cs) =>
        AllComeBack(story, changes, m, next, cs, keyColumn);
        forall x | DeletesKey(changes[m], x, keyColumn)
          ensures x in story[0]
        {
          MovedIsStuck(story, changes, m, x, keyColumn);
        }
    }
  }

  /** A deletion is undone in full where the rows are those that it left. */
  lemma AllComeBack(story: seq<map<Value, Row>>, changes: seq<Change>, m: nat, next: nat, cs: seq<Candidate>, keyColumn: nat)
    requires Story(story, changes, keyColumn) && next == m + 1 <= |changes| && changes[m] == Deletion(cs)
    requires KeyedAt(story[|changes|], changes, next, keyColumn).held == story[next]
    ensures var k := KeyedAt(story[|changes|], changes, m, keyColumn);
      k.held == story[m] && forall x | DeletesKey(changes[m], x, keyColumn) :: x in k.moved
  {
    assert KeyedTakesAt(story, changes, m, keyColumn);
    FollowsAt(story, changes, next, keyColumn);
    var k, r := KeyedAt(story[|changes|], changes, next, keyColumn), KeyedAt(story[|changes|], changes, m, keyColumn);
    PutKeysMeans(k, cs, 0, keyColumn);
    FirstHeldMeans(k.held, cs, 0, keyColumn);
    forall x
      ensures Agree(r.held, story[m], x) && (DeletesKey(changes[m], x, keyColumn) ==> x in r.moved)
    {
      DeletesItsKeys(cs, x, keyColumn);
    }
    SameMaps(r.held, story[m]);
  }

  lemma SameMaps(held: map<Value, Row>, others: map<Value, Row>)
    requires forall x :: Agree(held, others, x)
    ensures held == others
  {
    forall x
      ensures x in held <==> x in others
      ensures x in held ==> held[x] == others[x]
    {
      assert Agree(held, others, x);
    }
  }

  lemma RestoredTakesNothingBack(story: seq<map<Value, Row>>, changes: seq<Change>, keyColumn: nat)
    requires Story(story, changes, keyColumn) && InsertsNewKeys(story[0], changes, keyColumn)
    requires KeyedAt(story[|changes|], changes, 0, keyColumn).held == story[0]
    ensures NothingTakenBack(changes, keyColumn)
  {
    RestoredFollowsBack(story, changes, 0, keyColumn);
  }

  /** If all rows that come back get fresh identifiers, the rollback of any log ends with a sound table,
      and the rows in it are those that `KeyedAt` computes from the log and the rows at its end. */
  lemma FreshRollback(history: seq<Rows>, changes: seq<Change>, from: nat, u: Contents, sc: Schema)
    requires Course(history, changes, sc) && Fresh(history, from) && sc.columns != []
    requires RollsBack(Exactly(history[|changes|], sc), changes, |changes|, from, u, sc)
    ensures Sound(u, sc)
    ensures var end := KeyedAt(ByKey(history[|changes|], sc.keyColumn), changes, 0, sc.keyColumn);
      && Holds(end.held, u.rows, sc.keyColumn)
      && (Records(u.rows) == Records(history[0]) <==> end.held == ByKey(history[0], sc.keyColumn))
  {
    var rows := history[|changes|];
    ByKeyHolds(rows, sc);
    ByKeyHolds(history[0], sc);
    FreshRun(history, changes, Exactly(rows, sc), ByKey(rows, sc.keyColumn), sc, |changes|, from, u);
    var end := KeyedAt(ByKey(rows, sc.keyColumn), changes, 0, sc.keyColumn);
    SameRecordsSameKeys(end.held, u.rows, ByKey(history[0], sc.keyColumn), history[0], sc);
  }

  /** Exact indexes, and the records from before. */
  ghost predicate AsBefore(u: Contents, goal: Rows, sc: Schema) {
    Sound(u, sc) && Records(u.rows) == Records(goal)
  }

  /** Undoing the first `i` changes restores the records and exact indexes, whichever identifiers the
      table chooses. */
  ghost predicate Restores(s: Contents, changes: seq<Change>, i: nat, goal: Rows, sc: Schema) {
    forall u | RollsBack(s, changes, i, 0, u, sc) :: AsBefore(u, goal, sc)
  }

  ghost predicate AlwaysRestored(history: seq<Rows>, changes: seq<Change>, sc: Schema)
    requires |history| == |changes| + 1
  {
    Restores(Exactly(history[|changes|], sc), changes, |changes|, history[0], sc)
  }

  /** For any log: what always restores the table restores it with fresh identifiers. */
  lemma AlwaysRestoredIsFreshlyRestored(history: seq<Rows>, changes: seq<Change>, sc: Schema)
    requires Course(history, changes, sc) && AlwaysRestored(history, changes, sc) && sc.columns != []
    ensures KeyedAt(ByKey(history[|changes|], sc.keyColumn), changes, 0, sc.keyColumn).held == ByKey(history[0], sc.keyColumn)
  {
    var s := Exactly(history[|changes|], sc);
    var from := AllPagesEnd(history);
    var u := CanRollBack(s, changes, |changes|, from, sc);
    RollsBackAnywhere(s, changes, |changes|, from, u, sc);
    FreshRollback(history, changes, from, u, sc);
  }

  /** Where every inserted key is new, the rollback restores the table for every choice of identifiers
      exactly if there are no indexes or no row was deleted that the transaction had inserted. */
  lemma RestoredExactly(history: seq<Rows>, changes: seq<Change>, sc: Schema)
    requires Course(history, changes, sc) && InsertsNewKeys(ByKey(history[0], sc.keyColumn), changes, sc.keyColumn)
    ensures AlwaysRestored(history, changes, sc) <==> sc.columns == [] || NothingTakenBack(changes, sc.keyColumn)
  {
    var s := Exactly(history[|changes|], sc);
    if sc.columns == [] || NothingTakenBack(changes, sc.keyColumn) {
      if sc.columns != [] {
        InsertionsStay(history, changes, sc, |changes|);
      }
      forall u | RollsBack(s, changes, |changes|, 0, u, sc)
        ensures AsBefore(u, history[0], sc)
      {
        LoggedRollback(history, changes, s, sc, u);
      }
    } else if AlwaysRestored(history, changes, sc) {
      AlwaysRestoredIsFreshlyRestored(history, changes, sc);
      CourseTellsStory(history, changes, sc);
      RestoredTakesNothingBack(StoryOf(history, sc.keyColumn), changes, sc.keyColumn);
    }
  }

  /* ---------------------------------------------------------------- any log: which rows are lost */

  /** No change before `d` inserts or deletes the key. */
  predicate UntouchedBefore(changes: seq<Change>, d: nat, key: Value, keyColumn: nat) {
    d <= |changes| && forall c | 0 <= c < d :: !Touches(changes[c], key, keyColumn)
  }

  predicate Touches(change: Change, key: Value, keyColumn: nat) {
    match change
    case Insertion(_, row) => keyColumn < |row| && row[keyColumn] == key
    case Deletion(cs) => DeletesKey(change, key, keyColumn)
  }

  lemma {:induction false} UntouchedStays(story: seq<map<Value, Row>>, changes: seq<Change>, d: nat, key: Value, keyColumn: nat)
    requires Story(story, changes, keyColumn) && UntouchedBefore(changes, d, key, keyColumn)
    ensures key in story[d] <==> key in story[0]
    ensures key in KeyedAt(story[|changes|], changes, 0, keyColumn).held <==> key in KeyedAt(story[|changes|], changes, d, keyColumn).held
    decreases d
  {
    if d != 0 {
      var before: nat := d - 1;
      assert KeyedTakesAt(story, changes, before, keyColumn) && !Touches(changes[before], key, keyColumn);
      FollowsAt(story, changes, d, keyColumn);
      if changes[before].Deletion? {
        PutKeysMeans(KeyedAt(story[|changes|], changes, d, keyColumn), changes[before].candidates, 0, keyColumn);
        DeletesItsKeys(changes[before].candidates, key, keyColumn);
      }
      UntouchedStays(story, changes, before, key, keyColumn);
    }
  }

  /** The key is not held, but that of an earlier candidate is. */
  ghost predicate CutsOff(held: map<Value, Row>, cs: seq<Candidate>, key: Value, keyColumn: nat) {
    key !in held && exists p, q, x | 0 <= q < p :: HasKeyAt(cs, p, key, keyColumn) && HasKeyAt(cs, q, x, keyColumn) && x in held
  }

  /** The undoing of change `d`, a deletion, stops before it reaches the key. */
  ghost predicate CutOff(end: map<Value, Row>, changes: seq<Change>, d: nat, key: Value, keyColumn: nat) {
    d < |changes| && changes[d].Deletion?
    && CutsOff(KeyedAt(end, changes, d + 1, keyColumn).held, changes[d].candidates, key, keyColumn)
  }

  lemma CutsOffMeans(k: Keyed, cs: seq<Candidate>, at: nat, key: Value, keyColumn: nat)
    requires Keys(cs, keyColumn) && k.moved <= k.held.Keys && HasKeyAt(cs, at, key, keyColumn)
    ensures key !in PutKeys(k, cs, 0, keyColumn).held <==> CutsOff(k.held, cs, key, keyColumn)
  {
    var stop, r := FirstHeld(k.held, cs, 0, keyColumn), PutKeys(k, cs, 0, keyColumn);
    PutKeysMeans(k, cs, 0, keyColumn);
    FirstHeldMeans(k.held, cs, 0, keyColumn);
    if stop < at {
      assert HasKeyAt(cs, stop, cs[stop].record[keyColumn], keyColumn);
    }
  }

  /** The first change that touches the key, if there is one. */
  lemma {:induction false} FirstTouch(changes: seq<Change>, key: Value, keyColumn: nat) returns (d: nat)
    ensures UntouchedBefore(changes, d, key, keyColumn) && (d < |changes| ==> Touches(changes[d], key, keyColumn))
  {
    d := 0;
    while d < |changes| && !Touches(changes[d], key, keyColumn)
      invariant UntouchedBefore(changes, d, key, keyColumn)
    {
      d := d + 1;
    }
  }

  lemma ReachedOrCutOff(story: seq<map<Value, Row>>, changes: seq<Change>, d: nat, next: nat, key: Value, keyColumn: nat)
    requires Story(story, changes, keyColumn) && next == d + 1 <= |changes| && DeletesKey(changes[d], key, keyColumn)
    ensures key !in KeyedAt(story[|changes|], changes, d, keyColumn).held <==> CutOff(story[|changes|], changes, d, key, keyColumn)
  {
    var k, cs := KeyedAt(story[|changes|], changes, next, keyColumn), changes[d].candidates;
    assert KeyedTakesAt(story, changes, d, keyColumn);
    FollowsAt(story, changes, next, keyColumn);
    DeletesItsKeys(cs, key, keyColumn);
    var p: nat :| HasKeyAt(cs, p, key, keyColumn);
    CutsOffMeans(k, cs, p, key, keyColumn);
  }

  /** A key that was held when the transaction began is lost exactly if the first change to it is a
      deletion whose undoing stops before it. */
  lemma LostByKey(story: seq<map<Value, Row>>, changes: seq<Change>, key: Value, keyColumn: nat)
    requires Story(story, changes, keyColumn) && key in story[0]
    ensures key !in KeyedAt(story[|changes|], changes, 0, keyColumn).held
       <==> exists d :: UntouchedBefore(changes, d, key, keyColumn) && CutOff(story[|changes|], changes, d, key, keyColumn)
  {
    var d := FirstTouch(changes, key, keyColumn);
    UntouchedStays(story, changes, d, key, keyColumn);
    if d < |changes| {
      var next := d + 1;
      assert KeyedTakesAt(story, changes, d, keyColumn);
      ReachedOrCutOff(story, changes, d, next, key, keyColumn);
    } else {
      FollowsAt(story, changes, d, keyColumn);
    }
  }

  /** What stops the undoing of a deletion is a key that was inserted again and deleted again later. */
  lemma StoppedByTakenBack(story: seq<map<Value, Row>>, changes: seq<Change>, d: nat, next: nat, key: Value, keyColumn: nat)
    requires Story(story, changes, keyColumn) && next == d + 1 <= |changes| && DeletesKey(changes[d], key, keyColumn)
    requires key in KeyedAt(story[|changes|], changes, next, keyColumn).held
    ensures DeletedFrom(changes, next, key, keyColumn)
  {
    assert KeyedTakesAt(story, changes, d, keyColumn);
    FollowsAt(story, changes, next, keyColumn);
  }

  lemma OneComesBack(k: Keyed, c: Candidate, keyColumn: nat)
    requires keyColumn < |c.record| && c.record[keyColumn] !in k.held
    ensures PutKeys(k, [c], 0, keyColumn) == PutKey(k, c.record, keyColumn)
  {
    assert PutKeys(PutKey(k, c.record, keyColumn), [c], 1, keyColumn) == PutKey(k, c.record, keyColumn);
  }

  /** DELETE of two rows, INSERT of the first, DELETE of it again: the second key is lost. */
  lemma SecondKeyIsLost(story: seq<map<Value, Row>>, changes: seq<Change>, a: Candidate, b: Candidate, rid: Rid, again: Candidate, keyColumn: nat)
    requires changes == [Deletion([a, b]), Insertion(rid, again.record), Deletion([again])] && Story(story, changes, keyColumn)
    requires keyColumn < |a.record| && keyColumn < |again.record| && again.record[keyColumn] == a.record[keyColumn]
    ensures keyColumn < |b.record| && b.record[keyColumn] in story[0]
    ensures b.record[keyColumn] !in KeyedAt(story[3], changes, 0, keyColumn).held
  {
    assert KeyedTakesAt(story, changes, 0, keyColumn) && KeyedTakesAt(story, changes, 1, keyColumn) && KeyedTakesAt(story, changes, 2, keyColumn);
    var key, lost, two := a.record[keyColumn], [a, b][1].record[keyColumn], KeyedAt(story[3], changes, 2, keyColumn);
    assert again in changes[2].candidates && DeletesKey(changes[2], key, keyColumn);
    OneComesBack(Keyed(story[3], {}), again, keyColumn);
    assert KeyedAt(story[3], changes, 3, keyColumn) == Keyed(story[3], {}) && changes[2] == Deletion([again]);
    assert two == KeyedUndo(Keyed(story[3], {}), changes[2], keyColumn);
    assert two == PutKey(Keyed(story[3], {}), again.record, keyColumn);
    assert KeyedAt(story[3], changes, 1, keyColumn) == two;
    assert HasKeyAt([a, b], 0, key, keyColumn) && HasKeyAt([a, b], 1, lost, keyColumn);
    DeletesItsKeys([a, b], lost, keyColumn);
    LostByKey(story, changes, lost, keyColumn);
  }

  /* ---------------------------------------------------------------- any log that loses no row */

  /** Of the rows of one deletion, those whose keys are deleted again later come last. */
  predicate LosesNothing(changes: seq<Change>, keyColumn: nat) {
    forall d | 0 <= d < |changes| && changes[d].Deletion? :: AgainLast(changes, d, changes[d].candidates, keyColumn)
  }

  predicate AgainLast(changes: seq<Change>, d: nat, cs: seq<Candidate>, keyColumn: nat) {
    forall p, q | 0 <= p < q < |cs| && keyColumn < |cs[p].record| && keyColumn < |cs[q].record| ::
      DeletedAfter(changes, d, cs[p].record[keyColumn], keyColumn) ==> DeletedAfter(changes, d, cs[q].record[keyColumn], keyColumn)
  }

  predicate DeletedAfter(changes: seq<Change>, d: nat, key: Value, keyColumn: nat) {
    DeletedFrom(changes, d + 1, key, keyColumn)
  }

  /** Deletion `d` is the last that deletes the key, and this is the row it deletes. */
  predicate LastDeleted(changes: seq<Change>, d: nat, key: Value, row: Row, keyColumn: nat) {
    && d < |changes| && changes[d].Deletion? && !DeletedAfter(changes, d, key, keyColumn)
    && exists p :: 0 <= p < |changes[d].candidates| && HasKeyAt(changes[d].candidates, p, key, keyColumn) && changes[d].candidates[p].record == row
  }

  /** Deleted keys have the rows that were deleted last. */
  ghost predicate HasLast(k: Keyed, changes: seq<Change>, m: nat, keyColumn: nat) {
    forall d, x, row | m <= d && LastDeleted(changes, d, x, row, keyColumn) :: x in k.moved && x in k.held && k.held[x] == row
  }

  lemma LastKept(k: Keyed, before: map<Value, Row>, after: map<Value, Row>, changes: seq<Change>, m: nat, next: nat, keyColumn: nat)
    requires next == m + 1 <= |changes| && KeyedTakes(before, changes[m], after, keyColumn)
    requires Follows(k, after, changes, next, keyColumn) && HasLast(k, changes, next, keyColumn)
    requires changes[m].Deletion? ==> AgainLast(changes, m, changes[m].candidates, keyColumn)
    ensures HasLast(KeyedUndo(k, changes[m], keyColumn), changes, m, keyColumn)
  {
    var r := KeyedUndo(k, changes[m], keyColumn);
    if changes[m].Deletion? {
      PutKeysMeans(k, changes[m].candidates, 0, keyColumn);
    }
    forall d, x, row | m <= d && LastDeleted(changes, d, x, row, keyColumn)
      ensures x in r.moved && x in r.held && r.held[x] == row
    {
      if d == m {
        var p: nat :| HasKeyAt(changes[m].candidates, p, x, keyColumn) && changes[m].candidates[p].record == row;
        Reached(k, after, changes, m, next, changes[m].candidates, p, x, keyColumn);
      }
    }
  }

  /** The undoing reaches a candidate whose key is not deleted again, if the others come last. */
  lemma Reached(k: Keyed, after: map<Value, Row>, changes: seq<Change>, m: nat, next: nat, cs: seq<Candidate>, p: nat, x: Value, keyColumn: nat)
    requires next == m + 1 <= |changes| && changes[m] == Deletion(cs) && Keys(cs, keyColumn)
    requires forall y | y in after :: !DeletesKey(changes[m], y, keyColumn)
    requires Follows(k, after, changes, next, keyColumn) && AgainLast(changes, m, cs, keyColumn)
    requires HasKeyAt(cs, p, x, keyColumn) && !DeletedFrom(changes, next, x, keyColumn)
    ensures p < FirstHeld(k.held, cs, 0, keyColumn)
  {
    var stop := FirstHeld(k.held, cs, 0, keyColumn);
    FirstHeldMeans(k.held, cs, 0, keyColumn);
    if stop <= p {
      var y := cs[stop].record[keyColumn];
      assert cs[stop] in cs && DeletesKey(changes[m], y, keyColumn);
    }
  }

  lemma {:induction false} HasLastAt(story: seq<map<Value, Row>>, changes: seq<Change>, m: nat, keyColumn: nat)
    requires Story(story, changes, keyColumn) && LosesNothing(changes, keyColumn) && m <= |changes|
    ensures HasLast(KeyedAt(story[|changes|], changes, m, keyColumn), changes, m, keyColumn)
    decreases |changes| - m
  {
    if m < |changes| {
      var next := m + 1;
      assert KeyedTakesAt(story, changes, m, keyColumn);
      HasLastAt(story, changes, next, keyColumn);
      FollowsAt(story, changes, next, keyColumn);
      LastKept(KeyedAt(story[|changes|], changes, next, keyColumn), story[m], story[next], changes, m, next, keyColumn);
    }
  }

  /** Whatever key is deleted, the row of it that is deleted last is the one stored at the beginning. */
  ghost predicate LastIsFirst(start: map<Value, Row>, changes: seq<Change>, keyColumn: nat) {
    forall d, x, row | LastDeleted(changes, d, x, row, keyColumn) :: x in start && start[x] == row
  }

  lemma {:induction false} SomeLastDeleted(changes: seq<Change>, m: nat, key: Value, keyColumn: nat) returns (d: nat, row: Row)
    requires DeletedFrom(changes, m, key, keyColumn)
    ensures m <= d && LastDeleted(changes, d, key, row, keyColumn)
    decreases |changes| - m
  {
    var next := m + 1;
    if DeletedFrom(changes, next, key, keyColumn) {
      d, row := SomeLastDeleted(changes, next, key, keyColumn);
    } else {
      d := m;
      DeletesItsKeys(changes[d].candidates, key, keyColumn);
      var p: nat :| HasKeyAt(changes[d].candidates, p, key, keyColumn);
      row := changes[d].candidates[p].record;
    }
  }

  lemma RestoredWithoutLoss(story: seq<map<Value, Row>>, changes: seq<Change>, keyColumn: nat)
    requires Story(story, changes, keyColumn) && LosesNothing(changes, keyColumn)
    ensures KeyedAt(story[|changes|], changes, 0, keyColumn).held == story[0] <==> LastIsFirst(story[0], changes, keyColumn)
  {
    var k := KeyedAt(story[|changes|], changes, 0, keyColumn);
    HasLastAt(story, changes, 0, keyColumn);
    FollowsAt(story, changes, 0, keyColumn);
    if LastIsFirst(story[0], changes, keyColumn) {
      forall x
        ensures Agree(k.held, story[0], x)
      {
        if DeletedFrom(changes, 0, x, keyColumn) {
          var d, row := SomeLastDeleted(changes, 0, x, keyColumn);
        }
      }
      SameMaps(k.held, story[0]);
    }
  }

  /** Indeed no key is lost. */
  lemma NoKeyIsLost(story: seq<map<Value, Row>>, changes: seq<Change>, key: Value, keyColumn: nat)
    requires Story(story, changes, keyColumn) && LosesNothing(changes, keyColumn) && key in story[0]
    ensures key in KeyedAt(story[|changes|], changes, 0, keyColumn).held
  {
    HasLastAt(story, changes, 0, keyColumn);
    FollowsAt(story, changes, 0, keyColumn);
    if DeletedFrom(changes, 0, key, keyColumn) {
      var d, row := SomeLastDeleted(changes, 0, key, keyColumn);
    }
  }

  /** With fresh identifiers, an indexed table gets its records back from a log that loses nothing exactly
      if of every key the row deleted last is the one that was stored at the beginning. */
  lemma FreshlyRestoredExactly(history: seq<Rows>, changes: seq<Change>, from: nat, u: Contents, sc: Schema)
    requires Course(history, changes, sc) && Fresh(history, from) && sc.columns != []
    requires RollsBack(Exactly(history[|changes|], sc), changes, |changes|, from, u, sc)
    requires LosesNothing(changes, sc.keyColumn)
    ensures Records(u.rows) == Records(history[0]) <==> LastIsFirst(ByKey(history[0], sc.keyColumn), changes, sc.keyColumn)
  {
    FreshRollback(history, changes, from, u, sc);
    CourseTellsStory(history, changes, sc);
    RestoredWithoutLoss(StoryOf(history, sc.keyColumn), changes, sc.keyColumn);
  }

  /* ---------------------------------------------------------------- rows that are lost */

  /** Rolling the log back over an indexed table, with identifiers that were never used, leads to `u`. */
  ghost predicate FreshlyRolledBack(history: seq<Rows>, changes: seq<Change>, from: nat, u: Contents, sc: Schema) {
    && Course(history, changes, sc) && Fresh(history, from) && sc.columns != []
    && RollsBack(Exactly(history[|changes|], sc), changes, |changes|, from, u, sc)
  }

  lemma StoredByKey(rows: Rows, held: map<Value, Row>, sc: Schema, key: Value)
    requires WellKeyed(rows, sc) && Holds(held, rows, sc.keyColumn)
    ensures KeyStored(rows, key, sc.keyColumn) <==> key in held
  {
    if key in held {
      var r :| HasKey(rows, r, key, sc.keyColumn);
    }
  }

  lemma StoredInTheEnd(history: seq<Rows>, changes: seq<Change>, from: nat, u: Contents, sc: Schema, key: Value)
    requires FreshlyRolledBack(history, changes, from, u, sc)
    ensures KeyStored(u.rows, key, sc.keyColumn)
       <==> key in KeyedAt(ByKey(history[|changes|], sc.keyColumn), changes, 0, sc.keyColumn).held
    ensures KeyStored(history[0], key, sc.keyColumn) <==> key in ByKey(history[0], sc.keyColumn)
  {
    FreshRollback(history, changes, from, u, sc);
    ByKeyHolds(history[0], sc);
    StoredByKey(u.rows, KeyedAt(ByKey(history[|changes|], sc.keyColumn), changes, 0, sc.keyColumn).held, sc, key);
    StoredByKey(history[0], ByKey(history[0], sc.keyColumn), sc, key);
  }

  /** With an index, a row that was stored when the transaction began is lost exactly if the first change
      to its key is a deletion whose undoing stops before it. */
  lemma LostExactly(history: seq<Rows>, changes: seq<Change>, from: nat, u: Contents, sc: Schema, key: Value)
    requires FreshlyRolledBack(history, changes, from, u, sc) && KeyStored(history[0], key, sc.keyColumn)
    ensures !KeyStored(u.rows, key, sc.keyColumn)
       <==> exists d :: && UntouchedBefore(changes, d, key, sc.keyColumn)
                        && CutOff(ByKey(history[|changes|], sc.keyColumn), changes, d, key, sc.keyColumn)
  {
    StoredInTheEnd(history, changes, from, u, sc, key);
    CourseTellsStory(history, changes, sc);
    LostByKey(StoryOf(history, sc.keyColumn), changes, key, sc.keyColumn);
  }

  /** If in every deletion the rows whose keys are deleted again later come last, no row is lost. */
  lemma NoneIsLost(history: seq<Rows>, changes: seq<Change>, from: nat, u: Contents, sc: Schema, key: Value)
    requires FreshlyRolledBack(history, changes, from, u, sc) && LosesNothing(changes, sc.keyColumn)
    requires KeyStored(history[0], key, sc.keyColumn)
    ensures KeyStored(u.rows, key, sc.keyColumn)
  {
    StoredInTheEnd(history, changes, from, u, sc, key);
    CourseTellsStory(history, changes, sc);
    NoKeyIsLost(StoryOf(history, sc.keyColumn), changes, key, sc.keyColumn);
  }

  /** With an index, after DELETE of two rows, INSERT of the first, and DELETE of it again, the second row
      is not there when all is rolled back. */
  lemma HowARowIsLost(history: seq<Rows>, changes: seq<Change>, from: nat, u: Contents, sc: Schema, a: Candidate, b: Candidate, rid: Rid, again: Candidate)
    requires FreshlyRolledBack(history, changes, from, u, sc)
    requires changes == [Deletion([a, b]), Insertion(rid, again.record), Deletion([again])]
    requires sc.keyColumn < |a.record| && sc.keyColumn < |again.record| && again.record[sc.keyColumn] == a.record[sc.keyColumn]
    ensures sc.keyColumn < |b.record| && KeyStored(history[0], b.record[sc.keyColumn], sc.keyColumn)
    ensures !KeyStored(u.rows, b.record[sc.keyColumn], sc.keyColumn)
  {
    CourseTellsStory(history, changes, sc);
    SecondKeyIsLost(StoryOf(history, sc.keyColumn), changes, a, b, rid, again, sc.keyColumn);
    StoredInTheEnd(history, changes, from, u, sc, b.record[sc.keyColumn]);
  }

  /** Without indexes nothing is lost: every way to roll back restores the records. */
  lemma WithoutIndexes(history: seq<Rows>, changes: seq<Change>, sc: Schema)
    requires Course(history, changes, sc) && sc.columns == []
    ensures AlwaysRestored(history, changes, sc)
  {
    var s := Exactly(history[|changes|], sc);
    forall u | RollsBack(s, changes, |changes|, 0, u, sc)
      ensures AsBefore(u, history[0], sc)
    {
      LoggedRollback(history, changes, s, sc, u);
    }
  }
}
