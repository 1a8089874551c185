/** When a transaction that may delete what it inserted, and insert again what it deleted, is rolled back
    completely whichever identifiers the table chooses. */
module EveryChoice {
  import opened Values
  import opened Store
  import opened Dml
  import opened Undo
  import opened Rollbacks
  import opened MovedRows
  import opened Wrappers

  /* ---------------------------------------------------------------- the condition */

  /** Every row the transaction deletes was stored, wherever, when it began. */
  ghost predicate DeletesOriginals(history: seq<Rows>, changes: seq<Change>)
    requires history != []
  {
    forall d: nat, p: nat | d < |changes| && changes[d].Deletion? && p < |changes[d].candidates| ::
      StoredSomewhere(history[0], changes[d].candidates[p].record)
  }

  /** The deletion lists the row of `x` before that of `key`, and a later one deletes `x` again. */
  predicate Shields(changes: seq<Change>, d: nat, next: nat, p: nat, q: nat, x: Value, key: Value, keyColumn: nat) {
    && next == d + 1 <= |changes| && changes[d].Deletion? && p < q
    && HasKeyAt(changes[d].candidates, p, x, keyColumn) && HasKeyAt(changes[d].candidates, q, key, keyColumn)
    && DeletedFrom(changes, next, x, keyColumn)
  }

  /** The first deletion of a row lists none before it that is deleted again later. */
  ghost predicate NothingCutOff(changes: seq<Change>, keyColumn: nat) {
    forall d: nat, next: nat, p: nat, q: nat, x, key | Shields(changes, d, next, p, q, x, key, keyColumn) ::
      !UntouchedBefore(changes, d, key, keyColumn)
  }

  ghost predicate IsHistoric(history: seq<Rows>, row: Row) {
    exists l: nat :: l < |history| && StoredSomewhere(history[l], row)
  }

  /** Some index tells rows with different keys apart. */
  ghost predicate Distinguishable(history: seq<Rows>, sc: Schema) {
    forall a, b | IsHistoric(history, a) && IsHistoric(history, b) && Alike(a, b, sc.columns) && sc.keyColumn < |a| && sc.keyColumn < |b| ::
      a[sc.keyColumn] == b[sc.keyColumn]
  }

  ghost predicate Alike(a: Row, b: Row, columns: seq<nat>) {
    forall k: nat | k < |columns| :: columns[k] < |a| && columns[k] < |b| && a[columns[k]] == b[columns[k]]
  }

  /** So it is if there is an index on the primary key. */
  lemma KeyIndexDistinguishes(history: seq<Rows>, sc: Schema, k: nat)
    requires k < |sc.columns| && sc.columns[k] == sc.keyColumn
    ensures Distinguishable(history, sc)
  {
  }

  /* ---------------------------------------------------------------- keys */

  ghost function KeyOf(row: Row, sc: Schema): Value
    requires sc.keyColumn < |row|
  {
    row[sc.keyColumn]
  }

  lemma RowsAreWide(rows: Rows, sc: Schema, r: Rid)
    requires WellKeyed(rows, sc) && r in rows
    ensures sc.keyColumn < |rows[r]| == sc.width
  {
  }

  /** What a deletion does to the keys. */
  lemma DeletionByPlace(history: seq<Rows>, changes: seq<Change>, sc: Schema, m: nat, i: nat)
    requires Course(history, changes, sc) && i == m + 1 <= |changes| && changes[m].Deletion?
    ensures forall r | r in history[i] :: r in history[m] && history[m][r] == history[i][r]
    ensures forall r | r in history[m] :: sc.keyColumn < |history[m][r]|
              && (r in history[i] <==> !DeletesKey(changes[m], history[m][r][sc.keyColumn], sc.keyColumn))
  {
    assert TakesAt(history, changes, m, sc);
    forall r | r in history[m]
      ensures sc.keyColumn < |history[m][r]|
      ensures r in history[i] <==> !DeletesKey(changes[m], history[m][r][sc.keyColumn], sc.keyColumn)
    {
      RowsAreWide(history[m], sc, r);
      DeletesItsKeys(changes[m].candidates, history[m][r][sc.keyColumn], sc.keyColumn);
    }
  }

  lemma CandidatesAreWide(history: seq<Rows>, changes: seq<Change>, sc: Schema, m: nat, i: nat, p: nat)
    requires Course(history, changes, sc) && i == m + 1 <= |changes| && changes[m].Deletion? && p < |changes[m].candidates|
    ensures var c := changes[m].candidates[p];
      && sc.keyColumn < |c.record| == sc.width && DeletesKey(changes[m], c.record[sc.keyColumn], sc.keyColumn)
      && StoredSomewhere(history[m], c.record) && IsHistoric(history, c.record)
      && !KeyStored(history[i], c.record[sc.keyColumn], sc.keyColumn)
  {
    var c := changes[m].candidates[p];
    assert TakesAt(history, changes, m, sc);
    DeletionTakes(history[m], changes[m].candidates, history[i], sc);
    assert c in changes[m].candidates;
    DeletionByPlace(history, changes, sc, m, i);
  }

  lemma CandidateKeysDiffer(history: seq<Rows>, changes: seq<Change>, sc: Schema, m: nat, p: nat, q: nat)
    requires Course(history, changes, sc) && m < |changes| && changes[m].Deletion? && p < q < |changes[m].candidates|
    ensures var cs := changes[m].candidates;
      sc.keyColumn < |cs[p].record| && sc.keyColumn < |cs[q].record| && cs[p].record[sc.keyColumn] != cs[q].record[sc.keyColumn]
  {
    assert TakesAt(history, changes, m, sc);
    assert Fitting(changes[m].candidates[p], sc.keyColumn, sc.columns) && Fitting(changes[m].candidates[q], sc.keyColumn, sc.columns);
  }

  /* ---------------------------------------------------------------- enough: every run stays on track */

  /** Rows whose keys are not deleted any more are where they were; other rows are as at the beginning. */
  ghost predicate OnTrack(history: seq<Rows>, changes: seq<Change>, sc: Schema, i: nat, s: Contents)
    requires Course(history, changes, sc) && i <= |changes|
  {
    && Sound(s, sc)
    && (forall r | r in history[i] && !DeletedFrom(changes, i, KeyAt(history[i], r, sc), sc.keyColumn) ::
          r in s.rows && s.rows[r] == history[i][r])
    && (forall r | r in s.rows && !DeletedFrom(changes, i, KeyAt(s.rows, r, sc), sc.keyColumn) ::
          r in history[i] && history[i][r] == s.rows[r])
    && (forall r | r in s.rows && DeletedFrom(changes, i, KeyAt(s.rows, r, sc), sc.keyColumn) ::
          StoredSomewhere(history[0], s.rows[r]))
  }

  ghost function KeyAt(rows: Rows, r: Rid, sc: Schema): Value
    requires WellKeyed(rows, sc) && r in rows
  {
    RowsAreWide(rows, sc, r);
    rows[r][sc.keyColumn]
  }

  lemma StartsOnTrack(history: seq<Rows>, changes: seq<Change>, sc: Schema)
    requires Course(history, changes, sc)
    ensures OnTrack(history, changes, sc, |changes|, Exactly(history[|changes|], sc))
  {
  }

  lemma TrackIsHistoric(history: seq<Rows>, changes: seq<Change>, sc: Schema, i: nat, s: Contents, r: Rid)
    requires Course(history, changes, sc) && i <= |changes| && OnTrack(history, changes, sc, i, s) && r in s.rows
    ensures IsHistoric(history, s.rows[r])
  {
    if DeletedFrom(changes, i, KeyAt(s.rows, r, sc), sc.keyColumn) {
      assert StoredSomewhere(history[0], s.rows[r]);
    } else {
      assert StoredSomewhere(history[i], s.rows[r]);
    }
  }

  lemma TrackBeforeDeletion(history: seq<Rows>, changes: seq<Change>, sc: Schema, m: nat, i: nat, s: Contents)
    requires Course(history, changes, sc) && i == m + 1 <= |changes| && changes[m].Deletion? && OnTrack(history, changes, sc, i, s)
    ensures OnTrack(history, changes, sc, m, s)
  {
    DeletionByPlace(history, changes, sc, m, i);
    forall r | r in history[m]
      ensures DeletedFrom(changes, m, KeyAt(history[m], r, sc), sc.keyColumn)
         <==> DeletesKey(changes[m], KeyAt(history[m], r, sc), sc.keyColumn) || DeletedFrom(changes, i, KeyAt(history[m], r, sc), sc.keyColumn)
    {
      DeletedFromNext(changes, m, i, KeyAt(history[m], r, sc), sc.keyColumn);
    }
    forall r | r in s.rows
      ensures DeletedFrom(changes, m, KeyAt(s.rows, r, sc), sc.keyColumn)
         <==> DeletesKey(changes[m], KeyAt(s.rows, r, sc), sc.keyColumn) || DeletedFrom(changes, i, KeyAt(s.rows, r, sc), sc.keyColumn)
    {
      DeletedFromNext(changes, m, i, KeyAt(s.rows, r, sc), sc.keyColumn);
    }
  }

  lemma OneMoreOnTrack(history: seq<Rows>, changes: seq<Change>, sc: Schema, m: nat, i: nat, s: Contents, p: nat, rid: Rid)
    requires Course(history, changes, sc) && i == m + 1 <= |changes| && changes[m].Deletion? && p < |changes[m].candidates|
    requires OnTrack(history, changes, sc, m, s) && DeletesOriginals(history, changes)
    requires rid !in s.rows && Admitted(s.rows, changes[m].candidates[p].record, sc)
    ensures OnTrack(history, changes, sc, m, Put(s, rid, changes[m].candidates[p].record, sc))
  {
    var row := changes[m].candidates[p].record;
    CandidatesAreWide(history, changes, sc, m, i, p);
    PutIsSound(s, rid, row, sc);
    DeletedFromNext(changes, m, i, row[sc.keyColumn], sc.keyColumn);
    var more := Put(s, rid, row, sc).rows;
    forall r | r in more && r != rid
      ensures KeyAt(more, r, sc) == KeyAt(s.rows, r, sc)
    {
    }
    forall r | r in history[m] && !DeletedFrom(changes, m, KeyAt(history[m], r, sc), sc.keyColumn)
      ensures r in more && more[r] == history[m][r]
    {
      assert r in s.rows;
    }
  }

  /** What every row that is put back keeps is kept in the end. */
  lemma {:induction false} PuttingKeepsAll(s: Contents, cs: seq<Candidate>, p: nat, from: nat, mid: Contents, sc: Schema, good: Contents -> bool)
    requires PutsBack(s, cs, p, from, mid, sc) && good(s)
    requires forall t: Contents, q: nat, rid: Rid | p <= q < |cs| && rid !in t.rows && Admitted(t.rows, cs[q].record, sc) && good(t) ::
               good(Put(t, rid, cs[q].record, sc))
    ensures good(mid)
    decreases |cs| - p
  {
    if p < |cs| && Admitted(s.rows, cs[p].record, sc) {
      var next := p + 1;
      var rid: Rid :| rid !in s.rows && from <= rid.page && PutsBack(Put(s, rid, cs[p].record, sc), cs, next, from, mid, sc);
      PuttingKeepsAll(Put(s, rid, cs[p].record, sc), cs, next, from, mid, sc, good);
    }
  }

  ghost function Tracks(history: seq<Rows>, changes: seq<Change>, sc: Schema, m: nat): Contents -> bool
    requires Course(history, changes, sc) && m <= |changes|
  {
    (t: Contents) => OnTrack(history, changes, sc, m, t)
  }

  lemma DeletionOnTrack(history: seq<Rows>, changes: seq<Change>, sc: Schema, m: nat, i: nat, s: Contents, mid: Contents)
    requires Course(history, changes, sc) && i == m + 1 <= |changes| && changes[m].Deletion?
    requires OnTrack(history, changes, sc, m, s) && DeletesOriginals(history, changes)
    requires PutsBack(s, changes[m].candidates, 0, 0, mid, sc)
    ensures OnTrack(history, changes, sc, m, mid)
  {
    var cs, good := changes[m].candidates, Tracks(history, changes, sc, m);
    forall t: Contents, q: nat, rid: Rid | q < |cs| && rid !in t.rows && Admitted(t.rows, cs[q].record, sc) && good(t)
      ensures good(Put(t, rid, cs[q].record, sc))
    {
      OneMoreOnTrack(history, changes, sc, m, i, t, q, rid);
    }
    PuttingKeepsAll(s, cs, 0, 0, mid, sc, good);
  }

  /** With rows that the indexes can tell apart, undoing an insertion takes a row with its key or nothing. */
  lemma TakesOwnKey(history: seq<Rows>, s: Contents, rid: Rid, row: Row, sc: Schema)
    requires Sound(s, sc) && sc.columns != [] && Distinguishable(history, sc) && IsHistoric(history, row) && |row| == sc.width
    requires forall r | r in s.rows :: IsHistoric(history, s.rows[r])
    ensures var u := Taken(s, rid, row, sc);
      u == s || (rid in s.rows && s.rows[rid][sc.keyColumn] == row[sc.keyColumn] && u == Exactly(s.rows - {rid}, sc) && Sound(u, sc))
  {
    ListedLooksAlike(s, rid, row, sc);
    if ListedEverywhere(s.entries, sc.columns, row, rid) {
      RowsAreWide(s.rows, sc, rid);
      assert Alike(s.rows[rid], row, sc.columns);
      TakesAlike(s, rid, row, s.rows[rid], sc);
    } else if rid !in s.rows {
      TakenFromNowhere(s, rid, row, sc);
    }
  }

  /** Undoing goes by the key and the indexed values: rows that agree in them are taken alike. */
  lemma TakesAlike(s: Contents, rid: Rid, row: Row, other: Row, sc: Schema)
    requires Sound(s, sc) && rid in s.rows && s.rows[rid] == other && Alike(other, row, sc.columns)
    requires sc.keyColumn < |row| && sc.keyColumn < |other| && row[sc.keyColumn] == other[sc.keyColumn]
    requires ListedEverywhere(s.entries, sc.columns, row, rid)
    ensures Taken(s, rid, row, sc) == Exactly(s.rows - {rid}, sc) && Sound(Taken(s, rid, row, sc), sc)
  {
    OnlyRowWithKey(s.rows, rid, sc);
    TakenInPlace(s, rid, other, sc);
    assert KeyStored(s.rows, row[sc.keyColumn], sc.keyColumn);
    SamePairsLeft(s.entries, sc.columns, row, other, rid);
    forall k: nat | k < |sc.columns|
      ensures ListedAt(s.entries, sc.columns, other, rid, k)
    {
      assert ListedAt(s.entries, sc.columns, row, rid, k);
    }
  }

  lemma SamePairsLeft(entries: seq<set<Entry>>, columns: seq<nat>, row: Row, other: Row, rid: Rid)
    requires |entries| == |columns| && Alike(other, row, columns)
    ensures WithoutPairs(entries, columns, row, rid, Everywhere()) == WithoutPairs(entries, columns, other, rid, Everywhere())
  {
    var mine, theirs := WithoutPairs(entries, columns, row, rid, Everywhere()), WithoutPairs(entries, columns, other, rid, Everywhere());
    forall k: nat | k < |entries|
      ensures mine[k] == theirs[k]
    {
      assert columns[k] < |other| && columns[k] < |row| && other[columns[k]] == row[columns[k]];
      assert PairOf(columns, row, rid, k) == PairOf(columns, other, rid, k);
    }
    assert mine == theirs;
  }

  /** One undone insertion, on track. */
  ghost predicate UndoesInsertion(history: seq<Rows>, changes: seq<Change>, sc: Schema, m: nat, i: nat, rid: Rid, row: Row, s: Contents)
  {
    && Course(history, changes, sc) && i == m + 1 <= |changes| && changes[m] == Insertion(rid, row)
    && sc.columns != [] && Distinguishable(history, sc) && OnTrack(history, changes, sc, i, s)
  }

  lemma InsertionByPlace(history: seq<Rows>, changes: seq<Change>, sc: Schema, m: nat, i: nat, rid: Rid, row: Row)
    requires Course(history, changes, sc) && i == m + 1 <= |changes| && changes[m] == Insertion(rid, row)
    ensures sc.keyColumn < |row| == sc.width && rid !in history[m] && history[i] == history[m][rid := row] && IsHistoric(history, row)
    ensures forall key :: DeletedFrom(changes, m, key, sc.keyColumn) <==> DeletedFrom(changes, i, key, sc.keyColumn)
  {
    RowIsWide(history, changes, sc, i, m);
    assert history[i][rid] == row && StoredSomewhere(history[i], row);
    forall key
      ensures DeletedFrom(changes, m, key, sc.keyColumn) <==> DeletedFrom(changes, i, key, sc.keyColumn)
    {
      DeletedFromNext(changes, m, i, key, sc.keyColumn);
    }
  }

  lemma InsertionOnTrack(history: seq<Rows>, changes: seq<Change>, sc: Schema, m: nat, i: nat, rid: Rid, row: Row, s: Contents)
    requires UndoesInsertion(history, changes, sc, m, i, rid, row, s)
    ensures OnTrack(history, changes, sc, m, Taken(s, rid, row, sc))
  {
    InsertionByPlace(history, changes, sc, m, i, rid, row);
    forall r | r in s.rows
      ensures IsHistoric(history, s.rows[r])
    {
      TrackIsHistoric(history, changes, sc, i, s, r);
    }
    TakesOwnKey(history, s, rid, row, sc);
    var u := Taken(s, rid, row, sc);
    if u == s {
      LeftOnTrack(history, changes, sc, m, i, rid, row, s);
    } else {
      TakenOnTrack(history, changes, sc, m, i, rid, row, s);
    }
  }

  lemma TakenOnTrack(history: seq<Rows>, changes: seq<Change>, sc: Schema, m: nat, i: nat, rid: Rid, row: Row, s: Contents)
    requires UndoesInsertion(history, changes, sc, m, i, rid, row, s) && rid in s.rows
    requires Sound(Exactly(s.rows - {rid}, sc), sc)
    ensures OnTrack(history, changes, sc, m, Exactly(s.rows - {rid}, sc))
  {
    InsertionByPlace(history, changes, sc, m, i, rid, row);
    var fewer := s.rows - {rid};
    forall r | r in fewer
      ensures fewer[r] == s.rows[r] && KeyAt(fewer, r, sc) == KeyAt(s.rows, r, sc)
    {
    }
    forall r | r in history[m]
      ensures r != rid && r in history[i] && KeyAt(history[m], r, sc) == KeyAt(history[i], r, sc)
    {
    }
  }

  /** An insertion that could not be undone was of a row that is deleted later. */
  lemma LeftOnTrack(history: seq<Rows>, changes: seq<Change>, sc: Schema, m: nat, i: nat, rid: Rid, row: Row, s: Contents)
    requires UndoesInsertion(history, changes, sc, m, i, rid, row, s) && Taken(s, rid, row, sc) == s
    ensures OnTrack(history, changes, sc, m, s)
  {
    InsertionByPlace(history, changes, sc, m, i, rid, row);
    assert KeyAt(history[i], rid, sc) == row[sc.keyColumn];
    if !DeletedFrom(changes, i, row[sc.keyColumn], sc.keyColumn) {
      assert rid in s.rows && s.rows[rid] == row && StoredSomewhere(s.rows, row);
      TakenInPlace(s, rid, row, sc);
      OnlyRowWithKey(s.rows, rid, sc);
    }
    forall r | r in history[m]
      ensures r != rid && r in history[i] && KeyAt(history[m], r, sc) == KeyAt(history[i], r, sc)
    {
    }
  }

  /** Every run stays on track. */
  lemma StepOnTrack(history: seq<Rows>, changes: seq<Change>, sc: Schema, m: nat, i: nat, s: Contents, mid: Contents)
    requires Course(history, changes, sc) && i == m + 1 <= |changes| && sc.columns != [] && Distinguishable(history, sc)
    requires DeletesOriginals(history, changes) && OnTrack(history, changes, sc, i, s) && UndoesLast(s, changes, i, 0, mid, sc)
    ensures OnTrack(history, changes, sc, m, mid)
  {
    match changes[m]
    case Insertion(rid, row) => InsertionOnTrack(history, changes, sc, m, i, rid, row, s);
    case Deletion(cs) =>
      TrackBeforeDeletion(history, changes, sc, m, i, s);
      DeletionOnTrack(history, changes, sc, m, i, s, mid);
  }

  lemma {:induction false} RunOnTrack(history: seq<Rows>, changes: seq<Change>, sc: Schema, i: nat, s: Contents, u: Contents)
    requires Course(history, changes, sc) && i <= |changes| && sc.columns != [] && Distinguishable(history, sc)
    requires DeletesOriginals(history, changes) && OnTrack(history, changes, sc, i, s) && RollsBack(s, changes, i, 0, u, sc)
    ensures OnTrack(history, changes, sc, 0, u)
    decreases i
  {
    if i != 0 {
      var m: nat := i - 1;
      var mid :| UndoesLast(s, changes, i, 0, mid, sc) && RollsBack(mid, changes, m, 0, u, sc);
      StepOnTrack(history, changes, sc, m, i, s, mid);
      RunOnTrack(history, changes, sc, m, mid, u);
    }
  }

  /* ---------------------------------------------------------------- enough: every row comes back */

  lemma PutOrThere(s: Contents, cs: seq<Candidate>, q: nat, mid: Contents, sc: Schema, key: Value)
    requires PutsBack(s, cs, q, 0, mid, sc) && HasKeyAt(cs, q, key, sc.keyColumn) && |cs[q].record| == sc.width
    ensures KeyStored(mid.rows, key, sc.keyColumn)
  {
    var row := cs[q].record;
    if Admitted(s.rows, row, sc) {
      var next := q + 1;
      var rid: Rid :| rid !in s.rows && PutsBack(Put(s, rid, row, sc), cs, next, 0, mid, sc);
      assert Put(s, rid, row, sc).rows[rid] == row && KeyStored(Put(s, rid, row, sc).rows, key, sc.keyColumn);
      PuttingKeeps(Put(s, rid, row, sc), cs, next, 0, mid, sc, key);
    }
  }

  ghost predicate AdmittedFrom(rows: Rows, cs: seq<Candidate>, p: nat, q: nat, sc: Schema) {
    forall l: nat | p <= l < q && l < |cs| :: Admitted(rows, cs[l].record, sc)
  }

  lemma OthersStayAdmitted(rows: Rows, cs: seq<Candidate>, p: nat, next: nat, q: nat, rid: Rid, sc: Schema)
    requires Keys(cs, sc.keyColumn) && next == p + 1 <= |cs| && AdmittedFrom(rows, cs, p, q, sc)
    ensures AdmittedFrom(rows[rid := cs[p].record], cs, next, q, sc)
  {
    forall l: nat | next <= l < q && l < |cs|
      ensures Admitted(rows[rid := cs[p].record], cs[l].record, sc)
    {
      assert Admitted(rows, cs[l].record, sc);
    }
  }

  /** A candidate comes back, or its key is there, if none before it is refused. */
  lemma {:induction false} Reaches(s: Contents, cs: seq<Candidate>, p: nat, q: nat, mid: Contents, sc: Schema, key: Value)
    requires PutsBack(s, cs, p, 0, mid, sc) && p <= q < |cs| && HasKeyAt(cs, q, key, sc.keyColumn) && |cs[q].record| == sc.width
    requires Keys(cs, sc.keyColumn) && AdmittedFrom(s.rows, cs, p, q, sc)
    ensures KeyStored(mid.rows, key, sc.keyColumn)
    decreases q - p
  {
    if p == q {
      PutOrThere(s, cs, q, mid, sc, key);
    } else {
      var next, row := p + 1, cs[p].record;
      assert Admitted(s.rows, row, sc);
      var rid: Rid :| rid !in s.rows && PutsBack(Put(s, rid, row, sc), cs, next, 0, mid, sc);
      OthersStayAdmitted(s.rows, cs, p, next, q, rid, sc);
      Reaches(Put(s, rid, row, sc), cs, next, q, mid, sc, key);
    }
  }

  /** A key that a deletion took is free when it is undone, unless it is deleted again later. */
  lemma FreeAgain(history: seq<Rows>, changes: seq<Change>, sc: Schema, m: nat, i: nat, s: Contents, p: nat)
    requires Course(history, changes, sc) && i == m + 1 <= |changes| && changes[m].Deletion? && p < |changes[m].candidates|
    requires OnTrack(history, changes, sc, i, s)
    ensures sc.keyColumn < |changes[m].candidates[p].record|
    ensures !DeletedFrom(changes, i, changes[m].candidates[p].record[sc.keyColumn], sc.keyColumn) ==>
              Admitted(s.rows, changes[m].candidates[p].record, sc)
  {
    var row := changes[m].candidates[p].record;
    CandidatesAreWide(history, changes, sc, m, i, p);
    if !DeletedFrom(changes, i, row[sc.keyColumn], sc.keyColumn) {
      forall r | r in s.rows && sc.keyColumn < |s.rows[r]|
        ensures s.rows[r][sc.keyColumn] != row[sc.keyColumn]
      {
        assert KeyAt(s.rows, r, sc) == s.rows[r][sc.keyColumn];
      }
    }
  }

  lemma FirstDeletionBringsBack(history: seq<Rows>, changes: seq<Change>, sc: Schema, m: nat, i: nat, s: Contents, mid: Contents, key: Value)
    requires Course(history, changes, sc) && i == m + 1 <= |changes| && OnTrack(history, changes, sc, i, s)
    requires DeletesKey(changes[m], key, sc.keyColumn) && UndoesLast(s, changes, i, 0, mid, sc)
    requires NothingCutOff(changes, sc.keyColumn) && UntouchedBefore(changes, m, key, sc.keyColumn)
    ensures KeyStored(mid.rows, key, sc.keyColumn)
  {
    var cs := changes[m].candidates;
    DeletesItsKeys(cs, key, sc.keyColumn);
    var q: nat :| HasKeyAt(cs, q, key, sc.keyColumn);
    CandidatesAreWide(history, changes, sc, m, i, q);
    forall l: nat | l < q
      ensures Admitted(s.rows, cs[l].record, sc)
    {
      FreeAgain(history, changes, sc, m, i, s, l);
      var x := cs[l].record[sc.keyColumn];
      assert HasKeyAt(cs, l, x, sc.keyColumn);
      assert DeletedFrom(changes, i, x, sc.keyColumn) ==> Shields(changes, m, i, l, q, x, key, sc.keyColumn);
    }
    KeysOfChange(history, changes, sc, m);
    Reaches(s, cs, 0, q, mid, sc, key);
  }

  lemma KeysOfChange(history: seq<Rows>, changes: seq<Change>, sc: Schema, m: nat)
    requires Course(history, changes, sc) && m < |changes| && changes[m].Deletion?
    ensures Keys(changes[m].candidates, sc.keyColumn)
  {
    var next := m + 1;
    forall p: nat | p < |changes[m].candidates|
      ensures sc.keyColumn < |changes[m].candidates[p].record|
    {
      CandidatesAreWide(history, changes, sc, m, next, p);
    }
    forall p: nat, q: nat | p < q < |changes[m].candidates|
      ensures changes[m].candidates[p].record[sc.keyColumn] != changes[m].candidates[q].record[sc.keyColumn]
    {
      CandidateKeysDiffer(history, changes, sc, m, p, q);
    }
  }

  /** The first change that touches a key, if there is one, and nothing before it does. */
  ghost predicate FirstTouches(changes: seq<Change>, d: nat, key: Value, keyColumn: nat) {
    UntouchedBefore(changes, d, key, keyColumn) && (d < |changes| ==> Touches(changes[d], key, keyColumn))
  }

  lemma UntouchedIsStored(history: seq<Rows>, changes: seq<Change>, sc: Schema, d: nat, key: Value)
    requires Course(history, changes, sc) && UntouchedBefore(changes, d, key, sc.keyColumn)
    ensures KeyStored(history[d], key, sc.keyColumn) <==> KeyStored(history[0], key, sc.keyColumn)
  {
    CourseTellsStory(history, changes, sc);
    UntouchedStays(StoryOf(history, sc.keyColumn), changes, d, key, sc.keyColumn);
    ByKeyHolds(history[d], sc);
    ByKeyHolds(history[0], sc);
    StoredByKey(history[d], ByKey(history[d], sc.keyColumn), sc, key);
    StoredByKey(history[0], ByKey(history[0], sc.keyColumn), sc, key);
  }

  /** The first change to a stored key is a deletion. */
  lemma FirstIsDeletion(history: seq<Rows>, changes: seq<Change>, sc: Schema, d: nat, key: Value)
    requires Course(history, changes, sc) && FirstTouches(changes, d, key, sc.keyColumn) && d < |changes|
    requires KeyStored(history[0], key, sc.keyColumn)
    ensures DeletesKey(changes[d], key, sc.keyColumn)
  {
    UntouchedIsStored(history, changes, sc, d, key);
    if changes[d].Insertion? {
      InsertsNewKey(history, changes, sc, d, changes[d].rid, changes[d].row);
    }
  }

  lemma InsertsNewKey(history: seq<Rows>, changes: seq<Change>, sc: Schema, d: nat, rid: Rid, row: Row)
    requires Course(history, changes, sc) && d < |changes| && changes[d] == Insertion(rid, row)
    ensures sc.keyColumn < |row| && !KeyStored(history[d], row[sc.keyColumn], sc.keyColumn)
  {
    var next := d + 1;
    InsertionByPlace(history, changes, sc, d, next, rid, row);
    assert history[next][rid] == row;
    forall r | r in history[d] && sc.keyColumn < |history[d][r]|
      ensures history[d][r][sc.keyColumn] != row[sc.keyColumn]
    {
      assert history[next][r] == history[d][r];
    }
  }

  lemma UntouchedKeyStays(history: seq<Rows>, changes: seq<Change>, sc: Schema, i: nat, d: nat, s: Contents, u: Contents, key: Value)
    requires Course(history, changes, sc) && i <= d <= |changes| && UntouchedBefore(changes, d, key, sc.keyColumn)
    requires RollsBack(s, changes, i, 0, u, sc) && KeyStored(s.rows, key, sc.keyColumn)
    ensures KeyStored(u.rows, key, sc.keyColumn)
  {
    forall j: nat | Inserts(changes, i, j)
      ensures sc.keyColumn < |changes[j].row| && changes[j].row[sc.keyColumn] != key
    {
      RowIsWide(history, changes, sc, i, j);
      assert !Touches(changes[j], key, sc.keyColumn);
    }
    KeyStays(s, changes, i, u, sc, key);
  }

  lemma {:induction false} KeyIsBack(history: seq<Rows>, changes: seq<Change>, sc: Schema, i: nat, s: Contents, u: Contents, d: nat, key: Value)
    requires Course(history, changes, sc) && i <= |changes| && sc.columns != [] && Distinguishable(history, sc)
    requires DeletesOriginals(history, changes) && NothingCutOff(changes, sc.keyColumn)
    requires OnTrack(history, changes, sc, i, s) && RollsBack(s, changes, i, 0, u, sc)
    requires FirstTouches(changes, d, key, sc.keyColumn) && KeyStored(history[0], key, sc.keyColumn)
    requires i <= d ==> KeyStored(s.rows, key, sc.keyColumn)
    ensures KeyStored(u.rows, key, sc.keyColumn)
    decreases i
  {
    if i <= d {
      UntouchedKeyStays(history, changes, sc, i, d, s, u, key);
    } else {
      var m: nat := i - 1;
      var mid :| UndoesLast(s, changes, i, 0, mid, sc) && RollsBack(mid, changes, m, 0, u, sc);
      StepOnTrack(history, changes, sc, m, i, s, mid);
      if m == d {
        FirstIsDeletion(history, changes, sc, d, key);
        FirstDeletionBringsBack(history, changes, sc, m, i, s, mid, key);
      }
      KeyIsBack(history, changes, sc, m, mid, u, d, key);
    }
  }

  /** In the end every row is one that was there at the beginning. */
  lemma TrackEnds(history: seq<Rows>, changes: seq<Change>, sc: Schema, u: Contents, r: Rid)
    requires Course(history, changes, sc) && OnTrack(history, changes, sc, 0, u) && r in u.rows
    ensures StoredSomewhere(history[0], u.rows[r])
  {
  }

  lemma SameEnds(start: Rows, rows: Rows, sc: Schema)
    requires WellKeyed(start, sc) && WellKeyed(rows, sc)
    requires forall r | r in rows :: StoredSomewhere(start, rows[r])
    requires forall key | KeyStored(start, key, sc.keyColumn) :: KeyStored(rows, key, sc.keyColumn)
    ensures Records(rows) == Records(start)
  {
    var held, others := ByKey(rows, sc.keyColumn), ByKey(start, sc.keyColumn);
    ByKeyHolds(rows, sc);
    ByKeyHolds(start, sc);
    forall key
      ensures Agree(held, others, key)
    {
      StoredByKey(rows, held, sc, key);
      StoredByKey(start, others, sc, key);
      if key in held {
        var r :| HasKey(rows, r, key, sc.keyColumn);
        assert StoredSomewhere(start, rows[r]);
      }
    }
    SameMaps(held, others);
    SameRecordsSameKeys(held, rows, others, start, sc);
  }

  lemma OriginalsAreEnough(history: seq<Rows>, changes: seq<Change>, sc: Schema)
    requires Course(history, changes, sc) && sc.columns != [] && Distinguishable(history, sc)
    requires DeletesOriginals(history, changes) && NothingCutOff(changes, sc.keyColumn)
    ensures AlwaysRestored(history, changes, sc)
  {
    var n, s := |changes|, Exactly(history[|changes|], sc);
    StartsOnTrack(history, changes, sc);
    forall u | RollsBack(s, changes, n, 0, u, sc)
      ensures AsBefore(u, history[0], sc)
    {
      RunOnTrack(history, changes, sc, n, s, u);
      forall r | r in u.rows
        ensures StoredSomewhere(history[0], u.rows[r])
      {
        TrackEnds(history, changes, sc, u, r);
      }
      forall key | KeyStored(history[0], key, sc.keyColumn)
        ensures KeyStored(u.rows, key, sc.keyColumn)
      {
        var d := FirstTouch(changes, key, sc.keyColumn);
        UntouchedIsStored(history, changes, sc, d, key);
        KeyIsBack(history, changes, sc, n, s, u, d, key);
      }
      SameEnds(history[0], u.rows, sc);
    }
  }

  /* ---------------------------------------------------------------- needed: rows can come back where they were */

  ghost function LeftOut(before: Rows, cs: seq<Candidate>, p: nat, keyColumn: nat): Rows
    requires p <= |cs|
  {
    Without(before, keyColumn, KeysOf(cs[p..], keyColumn))
  }

  lemma KeysFrom(cs: seq<Candidate>, p: nat, next: nat, keyColumn: nat)
    requires next == p + 1 <= |cs| && Keys(cs, keyColumn)
    ensures KeysOf(cs[p..], keyColumn) == KeysOf(cs[next..], keyColumn) + {cs[p].record[keyColumn]}
    ensures cs[p].record[keyColumn] !in KeysOf(cs[next..], keyColumn)
  {
    assert cs[p..] == [cs[p]] + cs[next..];
    forall l: nat | next <= l < |cs|
      ensures cs[l].record[keyColumn] != cs[p].record[keyColumn]
    {
    }
  }

  lemma OriginalPlace(before: Rows, cs: seq<Candidate>, p: nat, next: nat, sc: Schema) returns (r: Rid)
    requires WellKeyed(before, sc) && Live(before, cs) && Keys(cs, sc.keyColumn) && next == p + 1 <= |cs|
    ensures r in before && before[r] == cs[p].record
    ensures var rows := LeftOut(before, cs, p, sc.keyColumn);
      && r !in rows && WellKeyed(rows, sc) && Admitted(rows, cs[p].record, sc)
      && rows[r := cs[p].record] == LeftOut(before, cs, next, sc.keyColumn)
  {
    assert LiveSomewhere(before, cs[p]);
    r :| LiveAt(before, cs[p], r);
    KeysFrom(cs, p, next, sc.keyColumn);
    OnlyRowWithKey(before, r, sc);
  }

  /** A deletion can be undone so that every row is where it was. */
  lemma {:induction false} PutOriginals(before: Rows, cs: seq<Candidate>, p: nat, sc: Schema)
    requires WellKeyed(before, sc) && Live(before, cs) && Keys(cs, sc.keyColumn) && p <= |cs|
    ensures PutsBack(Exactly(LeftOut(before, cs, p, sc.keyColumn), sc), cs, p, 0, Exactly(before, sc), sc)
    decreases |cs| - p
  {
    if p == |cs| {
      NothingLeftOut(before, cs, sc.keyColumn);
    } else {
      var next := p + 1;
      var r := OriginalPlace(before, cs, p, next, sc);
      var s := Exactly(LeftOut(before, cs, p, sc.keyColumn), sc);
      PutIsSound(s, r, cs[p].record, sc);
      PutOriginals(before, cs, next, sc);
      assert Put(s, r, cs[p].record, sc) == Exactly(LeftOut(before, cs, next, sc.keyColumn), sc);
    }
  }

  lemma NothingLeftOut(before: Rows, cs: seq<Candidate>, keyColumn: nat)
    ensures LeftOut(before, cs, |cs|, keyColumn) == before
  {
    assert cs[|cs|..] == [];
  }

  lemma AllLeftOut(history: seq<Rows>, changes: seq<Change>, sc: Schema, m: nat, i: nat)
    requires Course(history, changes, sc) && i == m + 1 <= |changes| && changes[m].Deletion?
    ensures history[i] == LeftOut(history[m], changes[m].candidates, 0, sc.keyColumn) && Live(history[m], changes[m].candidates)
    ensures Keys(changes[m].candidates, sc.keyColumn)
  {
    assert TakesAt(history, changes, m, sc) && changes[m].candidates[0..] == changes[m].candidates;
    KeysOfChange(history, changes, sc, m);
  }

  lemma ExactInsertion(before: Rows, rid: Rid, row: Row, sc: Schema)
    requires rid !in before && WellKeyed(before[rid := row], sc)
    ensures Taken(Exactly(before[rid := row], sc), rid, row, sc) == Exactly(before, sc)
  {
    var after := before[rid := row];
    assert after[rid] == row && |row| == sc.width;
    TakenInPlace(Exactly(after, sc), rid, row, sc);
    WithoutNew(before, rid, row, sc.keyColumn);
  }

  /** One of the ways to undo a change leads exactly to where it began. */
  lemma ExactStep(history: seq<Rows>, changes: seq<Change>, sc: Schema, m: nat, i: nat)
    requires Course(history, changes, sc) && i == m + 1 <= |changes|
    ensures UndoesLast(Exactly(history[i], sc), changes, i, 0, Exactly(history[m], sc), sc)
  {
    match changes[m]
    case Insertion(rid, row) =>
      InsertionByPlace(history, changes, sc, m, i, rid, row);
      ExactInsertion(history[m], rid, row, sc);
    case Deletion(cs) =>
      AllLeftOut(history, changes, sc, m, i);
      PutOriginals(history[m], cs, 0, sc);
  }

  lemma RestoresOn(s: Contents, changes: seq<Change>, m: nat, i: nat, mid: Contents, goal: Rows, sc: Schema)
    requires i == m + 1 <= |changes| && Restores(s, changes, i, goal, sc) && UndoesLast(s, changes, i, 0, mid, sc)
    ensures Restores(mid, changes, m, goal, sc)
  {
    forall u | RollsBack(mid, changes, m, 0, u, sc)
      ensures AsBefore(u, goal, sc)
    {
      assert RollsBack(s, changes, i, 0, u, sc);
    }
  }

  lemma {:induction false} ExactDown(history: seq<Rows>, changes: seq<Change>, sc: Schema, i: nat, j: nat)
    requires Course(history, changes, sc) && j <= i <= |changes| && Restores(Exactly(history[i], sc), changes, i, history[0], sc)
    ensures Restores(Exactly(history[j], sc), changes, j, history[0], sc)
    decreases i
  {
    if j < i {
      var m: nat := i - 1;
      ExactStep(history, changes, sc, m, i);
      RestoresOn(Exactly(history[i], sc), changes, m, i, Exactly(history[m], sc), history[0], sc);
      ExactDown(history, changes, sc, m, j);
    }
  }

  /* ---------------------------------------------------------------- needed: one row can come back elsewhere */

  /** One row is at a place that was never used; all others are where they were after `i` changes. */
  ghost predicate Beside(history: seq<Rows>, sc: Schema, i: nat, s: Contents, from: nat, f: Rid, row: Row) {
    && i < |history| && Sound(s, sc) && from <= f.page && f in s.rows && s.rows[f] == row
    && (forall r | r in s.rows && r != f :: r in history[i] && history[i][r] == s.rows[r])
  }

  /** The rows of a deletion come back beside it, up to the first that is refused. */
  lemma {:induction false} PutBeside(history: seq<Rows>, sc: Schema, m: nat, cs: seq<Candidate>, p: nat, s: Contents,
                                     from: nat, f: Rid, row: Row) returns (mid: Contents)
    requires Fresh(history, from) && Beside(history, sc, m, s, from, f, row) && Live(history[m], cs)
    ensures PutsBack(s, cs, p, 0, mid, sc) && Beside(history, sc, m, mid, from, f, row)
    decreases |cs| - p
  {
    if |cs| <= p || !Admitted(s.rows, cs[p].record, sc) {
      mid := s;
    } else {
      var next, back := p + 1, cs[p].record;
      assert LiveSomewhere(history[m], cs[p]);
      var r :| LiveAt(history[m], cs[p], r);
      assert r !in s.rows;
      PutIsSound(s, r, back, sc);
      mid := PutBeside(history, sc, m, cs, next, Put(s, r, back, sc), from, f, row);
    }
  }

  /** Of the rows of a deletion one comes back at a fresh place, those before it where they were. */
  lemma {:induction false} FreshAt(history: seq<Rows>, sc: Schema, m: nat, cs: seq<Candidate>, p: nat, at: nat, from: nat)
    returns (mid: Contents, f: Rid)
    requires Fresh(history, from) && m < |history| && WellKeyed(history[m], sc) && Live(history[m], cs) && Keys(cs, sc.keyColumn)
    requires p <= at < |cs|
    ensures PutsBack(Exactly(LeftOut(history[m], cs, p, sc.keyColumn), sc), cs, p, 0, mid, sc)
    ensures Beside(history, sc, m, mid, from, f, cs[at].record)
    decreases at - p
  {
    var next, back := p + 1, cs[p].record;
    var s := Exactly(LeftOut(history[m], cs, p, sc.keyColumn), sc);
    var r := OriginalPlace(history[m], cs, p, next, sc);
    if p == at {
      f := UnusedRid(s.rows, from);
      PutIsSound(s, f, back, sc);
      mid := PutBeside(history, sc, m, cs, next, Put(s, f, back, sc), from, f, back);
    } else {
      PutIsSound(s, r, back, sc);
      assert Put(s, r, back, sc) == Exactly(LeftOut(history[m], cs, next, sc.keyColumn), sc);
      mid, f := FreshAt(history, sc, m, cs, next, at, from);
    }
  }

  lemma InsertionBeside(history: seq<Rows>, changes: seq<Change>, sc: Schema, m: nat, i: nat, rid: Rid, row: Row, s: Contents,
                        from: nat, f: Rid, moved: Row)
    requires Course(history, changes, sc) && i == m + 1 <= |changes| && changes[m] == Insertion(rid, row) && sc.columns != []
    requires Fresh(history, from) && Beside(history, sc, i, s, from, f, moved)
    ensures Beside(history, sc, m, Taken(s, rid, row, sc), from, f, moved)
  {
    InsertionByPlace(history, changes, sc, m, i, rid, row);
    assert history[i][rid] == row && rid in history[i];
    if rid in s.rows {
      assert s.rows[rid] == row && StoredSomewhere(s.rows, row);
      TakenInPlace(s, rid, row, sc);
      OnlyRowWithKey(s.rows, rid, sc);
    } else {
      TakenFromNowhere(s, rid, row, sc);
    }
  }

  /** The row that came back elsewhere stays, whatever the step. */
  lemma BesideStep(history: seq<Rows>, changes: seq<Change>, sc: Schema, m: nat, i: nat, s: Contents, from: nat, f: Rid, row: Row)
    returns (mid: Contents)
    requires Course(history, changes, sc) && i == m + 1 <= |changes| && sc.columns != []
    requires Fresh(history, from) && Beside(history, sc, i, s, from, f, row)
    ensures UndoesLast(s, changes, i, 0, mid, sc) && Beside(history, sc, m, mid, from, f, row)
  {
    match changes[m]
    case Insertion(rid, inserted) =>
      InsertionBeside(history, changes, sc, m, i, rid, inserted, s, from, f, row);
      mid := Taken(s, rid, inserted, sc);
    case Deletion(cs) =>
      DeletionByPlace(history, changes, sc, m, i);
      AllLeftOut(history, changes, sc, m, i);
      mid := PutBeside(history, sc, m, cs, 0, s, from, f, row);
  }

  lemma {:induction false} BesideDown(history: seq<Rows>, changes: seq<Change>, sc: Schema, i: nat, j: nat, s: Contents, from: nat, f: Rid, row: Row)
    returns (end: Contents)
    requires Course(history, changes, sc) && j <= i <= |changes| && sc.columns != [] && Fresh(history, from)
    requires Beside(history, sc, i, s, from, f, row) && Restores(s, changes, i, history[0], sc)
    ensures Beside(history, sc, j, end, from, f, row) && Restores(end, changes, j, history[0], sc)
    decreases i
  {
    if j == i {
      end := s;
    } else {
      var m: nat := i - 1;
      var mid := BesideStep(history, changes, sc, m, i, s, from, f, row);
      RestoresOn(s, changes, m, i, mid, history[0], sc);
      end := BesideDown(history, changes, sc, m, j, mid, from, f, row);
    }
  }

  /** Any row that is deleted can come back elsewhere and stay there. */
  lemma DeletedRowStays(history: seq<Rows>, changes: seq<Change>, sc: Schema, d: nat, next: nat, at: nat, j: nat)
    returns (end: Contents, from: nat, f: Rid)
    requires Course(history, changes, sc) && sc.columns != [] && AlwaysRestored(history, changes, sc)
    requires next == d + 1 <= |changes| && changes[d].Deletion? && at < |changes[d].candidates| && j <= d
    ensures Beside(history, sc, j, end, from, f, changes[d].candidates[at].record) && Restores(end, changes, j, history[0], sc)
  {
    from := AllPagesEnd(history);
    ExactDown(history, changes, sc, |changes|, next);
    AllLeftOut(history, changes, sc, d, next);
    var mid;
    mid, f := FreshAt(history, sc, d, changes[d].candidates, 0, at, from);
    assert UndoesLast(Exactly(history[next], sc), changes, next, 0, mid, sc);
    RestoresOn(Exactly(history[next], sc), changes, d, next, mid, history[0], sc);
    end := BesideDown(history, changes, sc, d, j, mid, from, f, changes[d].candidates[at].record);
  }

  lemma OriginalsAreNeeded(history: seq<Rows>, changes: seq<Change>, sc: Schema)
    requires Course(history, changes, sc) && sc.columns != [] && AlwaysRestored(history, changes, sc)
    ensures DeletesOriginals(history, changes)
  {
    forall d: nat, p: nat | d < |changes| && changes[d].Deletion? && p < |changes[d].candidates|
      ensures StoredSomewhere(history[0], changes[d].candidates[p].record)
    {
      var next := d + 1;
      var end, from, f := DeletedRowStays(history, changes, sc, d, next, p, 0);
      assert RollsBack(end, changes, 0, 0, end, sc);
      SameRecordsSameRows(end.rows, history[0], f);
    }
  }

  /* ---------------------------------------------------------------- needed: nothing cut off */

  /** What comes after a key that is taken does not come back. */
  lemma {:induction false} NotReached(s: Contents, cs: seq<Candidate>, l: nat, p: nat, q: nat, mid: Contents, sc: Schema, x: Value, key: Value)
    requires PutsBack(s, cs, l, 0, mid, sc) && l <= p < q && HasKeyAt(cs, p, x, sc.keyColumn) && HasKeyAt(cs, q, key, sc.keyColumn)
    requires Keys(cs, sc.keyColumn) && KeyStored(s.rows, x, sc.keyColumn) && !KeyStored(s.rows, key, sc.keyColumn)
    ensures !KeyStored(mid.rows, key, sc.keyColumn)
    decreases p - l
  {
    if Admitted(s.rows, cs[l].record, sc) {
      var next, row := l + 1, cs[l].record;
      var rid: Rid :| rid !in s.rows && PutsBack(Put(s, rid, row, sc), cs, next, 0, mid, sc);
      OneMoreKey(s.rows, rid, row, sc.keyColumn, x);
      OneMoreKey(s.rows, rid, row, sc.keyColumn, key);
      NotReached(Put(s, rid, row, sc), cs, next, p, q, mid, sc, x, key);
    }
  }

  lemma OneMoreKey(rows: Rows, rid: Rid, row: Row, keyColumn: nat, key: Value)
    requires rid !in rows && keyColumn < |row|
    ensures KeyStored(rows[rid := row], key, keyColumn) <==> KeyStored(rows, key, keyColumn) || row[keyColumn] == key
  {
    var more := rows[rid := row];
    assert more[rid] == row;
    if KeyStored(rows, key, keyColumn) {
      var r :| r in rows && keyColumn < |rows[r]| && rows[r][keyColumn] == key;
      assert r in more && more[r] == rows[r];
    }
  }

  ghost function Lacks(key: Value, keyColumn: nat): Contents -> bool {
    (t: Contents) => !KeyStored(t.rows, key, keyColumn)
  }

  lemma AbsentFromDeletion(s: Contents, cs: seq<Candidate>, mid: Contents, sc: Schema, key: Value)
    requires PutsBack(s, cs, 0, 0, mid, sc) && !KeyStored(s.rows, key, sc.keyColumn) && !DeletesKey(Deletion(cs), key, sc.keyColumn)
    ensures !KeyStored(mid.rows, key, sc.keyColumn)
  {
    var lacks := Lacks(key, sc.keyColumn);
    forall t: Contents, q: nat, rid: Rid | q < |cs| && rid !in t.rows && Admitted(t.rows, cs[q].record, sc) && lacks(t)
      ensures lacks(Put(t, rid, cs[q].record, sc))
    {
      assert cs[q] in cs;
      OneMoreKey(t.rows, rid, cs[q].record, sc.keyColumn, key);
    }
    PuttingKeepsAll(s, cs, 0, 0, mid, sc, lacks);
  }

  /** A key that no earlier change touches does not come back. */
  lemma {:induction false} AbsentStays(s: Contents, changes: seq<Change>, i: nat, u: Contents, sc: Schema, key: Value)
    requires i <= |changes| && RollsBack(s, changes, i, 0, u, sc) && UntouchedBefore(changes, i, key, sc.keyColumn)
    requires !KeyStored(s.rows, key, sc.keyColumn)
    ensures !KeyStored(u.rows, key, sc.keyColumn)
    decreases i
  {
    if i != 0 {
      var m: nat := i - 1;
      var mid :| UndoesLast(s, changes, i, 0, mid, sc) && RollsBack(mid, changes, m, 0, u, sc);
      assert !Touches(changes[m], key, sc.keyColumn);
      match changes[m] {
        case Insertion(rid, row) => TakingAddsNothing(s, rid, row, sc, key);
        case Deletion(cs) => AbsentFromDeletion(s, cs, mid, sc, key);
      }
      AbsentStays(mid, changes, m, u, sc, key);
    }
  }

  lemma TakingAddsNothing(s: Contents, rid: Rid, row: Row, sc: Schema, key: Value)
    requires !KeyStored(s.rows, key, sc.keyColumn)
    ensures !KeyStored(Taken(s, rid, row, sc).rows, key, sc.keyColumn)
  {
    var rows := Taken(s, rid, row, sc).rows;
    forall r | r in rows && sc.keyColumn < |rows[r]|
      ensures rows[r][sc.keyColumn] != key
    {
      assert r in s.rows && s.rows[r] == rows[r];
    }
  }

  /** Beside a row that came back, a key that the deletion took is not there before it is undone. */
  lemma TakenKeyIsAway(history: seq<Rows>, changes: seq<Change>, sc: Schema, d: nat, next: nat, q: nat, s: Contents, from: nat, f: Rid, row: Row, key: Value)
    requires Course(history, changes, sc) && next == d + 1 <= |changes| && changes[d].Deletion?
    requires HasKeyAt(changes[d].candidates, q, key, sc.keyColumn) && Beside(history, sc, next, s, from, f, row)
    requires sc.keyColumn < |row| && row[sc.keyColumn] != key
    ensures !KeyStored(s.rows, key, sc.keyColumn)
  {
    CandidatesAreWide(history, changes, sc, d, next, q);
    forall r | r in s.rows && sc.keyColumn < |s.rows[r]|
      ensures s.rows[r][sc.keyColumn] != key
    {
      assert r != f ==> r in history[next] && history[next][r] == s.rows[r];
    }
  }

  lemma CutOffIsLost(history: seq<Rows>, changes: seq<Change>, sc: Schema, d: nat, next: nat, p: nat, q: nat, x: Value, key: Value)
    requires Course(history, changes, sc) && sc.columns != []
    requires Shields(changes, d, next, p, q, x, key, sc.keyColumn) && UntouchedBefore(changes, d, key, sc.keyColumn)
    ensures !AlwaysRestored(history, changes, sc)
  {
    if AlwaysRestored(history, changes, sc) {
      var later: nat :| next <= later < |changes| && DeletesKey(changes[later], x, sc.keyColumn);
      DeletesItsKeys(changes[later].candidates, x, sc.keyColumn);
      var at: nat :| HasKeyAt(changes[later].candidates, at, x, sc.keyColumn);
      var after := later + 1;
      var s, from, f := DeletedRowStays(history, changes, sc, later, after, at, next);
      LostBeside(history, changes, sc, d, next, p, q, x, key, s, from, f, changes[later].candidates[at].record);
    }
  }

  lemma LostBeside(history: seq<Rows>, changes: seq<Change>, sc: Schema, d: nat, next: nat, p: nat, q: nat, x: Value, key: Value,
                   s: Contents, from: nat, f: Rid, row: Row)
    requires Course(history, changes, sc) && Shields(changes, d, next, p, q, x, key, sc.keyColumn)
    requires UntouchedBefore(changes, d, key, sc.keyColumn)
    requires Beside(history, sc, next, s, from, f, row) && sc.keyColumn < |row| && row[sc.keyColumn] == x
    ensures !Restores(s, changes, next, history[0], sc)
  {
    var cs := changes[d].candidates;
    CandidateKeysDiffer(history, changes, sc, d, p, q);
    KeysOfChange(history, changes, sc, d);
    TakenKeyIsAway(history, changes, sc, d, next, q, s, from, f, row, key);
    var mid := CanPutBack(s, cs, 0, 0, sc);
    NotReached(s, cs, 0, p, q, mid, sc, x, key);
    var u := CanRollBack(mid, changes, d, 0, sc);
    AbsentStays(mid, changes, d, u, sc, key);
    CandidatesAreWide(history, changes, sc, d, next, q);
    var r :| r in history[d] && history[d][r] == cs[q].record;
    assert KeyStored(history[d], key, sc.keyColumn);
    UntouchedIsStored(history, changes, sc, d, key);
    assert UndoesLast(s, changes, next, 0, mid, sc) && RollsBack(s, changes, next, 0, u, sc);
    if AsBefore(u, history[0], sc) {
      StoredAlike(history[0], u.rows, sc, key);
    }
  }

  lemma StoredAlike(start: Rows, rows: Rows, sc: Schema, key: Value)
    requires KeyStored(start, key, sc.keyColumn) && Records(rows) == Records(start)
    ensures KeyStored(rows, key, sc.keyColumn)
  {
    var r :| r in start && sc.keyColumn < |start[r]| && start[r][sc.keyColumn] == key;
    SameRecordsSameRows(start, rows, r);
  }

  /* ---------------------------------------------------------------- exactly */

  /** For any transaction on an indexed table whose rows the indexes can tell apart, insertions of deleted
      keys and deletions of inserted rows included: rollback restores the table for every choice of
      identifiers exactly if every row it deletes was stored when it began, and the first deletion of a row
      lists none before it that is deleted again later. */
  lemma RestoredForEveryChoice(history: seq<Rows>, changes: seq<Change>, sc: Schema)
    requires Course(history, changes, sc) && sc.columns != [] && Distinguishable(history, sc)
    ensures AlwaysRestored(history, changes, sc) <==> DeletesOriginals(history, changes) && NothingCutOff(changes, sc.keyColumn)
  {
    if AlwaysRestored(history, changes, sc) {
      OriginalsAreNeeded(history, changes, sc);
      forall d: nat, next: nat, p: nat, q: nat, x, key | Shields(changes, d, next, p, q, x, key, sc.keyColumn)
        ensures !UntouchedBefore(changes, d, key, sc.keyColumn)
      {
        if UntouchedBefore(changes, d, key, sc.keyColumn) {
          CutOffIsLost(history, changes, sc, d, next, p, q, x, key);
        }
      }
    }
    if DeletesOriginals(history, changes) && NothingCutOff(changes, sc.keyColumn) {
      OriginalsAreEnough(history, changes, sc);
    }
  }
}
