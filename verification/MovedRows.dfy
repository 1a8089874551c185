/** Rolling back when rows have moved since they were inserted, as a statement that failed half way may
    leave them: exactly when every way to do it restores the table. */
module MovedRows {
  import opened Values
  import opened Store
  import opened Dml
  import opened Undo
  import opened Rollbacks
  import opened Wrappers

  /* ---------------------------------------------------------------- what a rollback needs */

  /** Change `j` is one of the first `i` and an insertion. */
  predicate Inserts(changes: seq<Change>, i: nat, j: nat) {
    j < i <= |changes| && changes[j].Insertion?
  }

  /** Undoing insertion `j` will remove this pair from index `k`. */
  ghost predicate IsClaim(changes: seq<Change>, columns: seq<nat>, i: nat, j: nat, k: nat, e: Entry) {
    Inserts(changes, i, j) && k < |columns| && columns[k] < |changes[j].row| && e == PairOf(columns, changes[j].row, changes[j].rid, k)
  }

  ghost predicate Claimed(changes: seq<Change>, columns: seq<nat>, i: nat, k: nat, e: Entry) {
    exists j: nat :: IsClaim(changes, columns, i, j, k, e)
  }

  /** One of the first `i` changes inserted the row. */
  ghost predicate Guest(changes: seq<Change>, i: nat, row: Row) {
    exists j: nat :: Inserts(changes, i, j) && changes[j].row == row
  }

  /** Every pair that will be removed is there. */
  ghost predicate Backed(entries: seq<set<Entry>>, changes: seq<Change>, columns: seq<nat>, i: nat) {
    forall j: nat | Inserts(changes, i, j) :: ListedEverywhere(entries, columns, changes[j].row, changes[j].rid)
  }

  /** The pair of a row that stays. */
  ghost predicate IsOfResident(rows: Rows, changes: seq<Change>, i: nat, column: nat, e: Entry) {
    e.1 in rows && !Guest(changes, i, rows[e.1]) && column < |rows[e.1]| && e.0 == rows[e.1][column]
  }

  /** The pairs that will not be removed are those of the rows that stay. */
  ghost predicate RestIsRight(s: Contents, changes: seq<Change>, columns: seq<nat>, i: nat) {
    |s.entries| == |columns| && forall k: nat, e: Entry | k < |columns| ::
      e in s.entries[k] && !Claimed(changes, columns, i, k, e) <==> IsOfResident(s.rows, changes, i, columns[k], e)
  }

  /** Some index pairs both rows with the same value. */
  ghost predicate ShareValue(a: Row, b: Row, columns: seq<nat>) {
    exists k: nat :: k < |columns| && columns[k] < |a| && columns[k] < |b| && a[columns[k]] == b[columns[k]]
  }

  /** The identifier is free when deletion `d` is undone. */
  ghost predicate Vacated(rows: Rows, changes: seq<Change>, d: nat, i: nat, rid: Rid) {
    rid !in rows || exists b: nat :: d < b && Inserts(changes, i, b) && rows[rid] == changes[b].row
  }

  /** A row that a deletion removed and the row of an earlier insertion that share an indexed value. */
  ghost predicate Conflict(changes: seq<Change>, columns: seq<nat>, d: nat, p: nat, j: nat) {
    && d < |changes| && changes[d].Deletion? && p < |changes[d].candidates| && Inserts(changes, d, j)
    && ShareValue(changes[j].row, changes[d].candidates[p].record, columns)
  }

  /** No row that comes back can take a place whose pairs a later step removes along with its own. */
  ghost predicate Unclashed(rows: Rows, changes: seq<Change>, columns: seq<nat>, i: nat) {
    forall d: nat, p: nat, j: nat | d < i && Conflict(changes, columns, d, p, j) :: !Vacated(rows, changes, d, i, changes[j].rid)
  }

  ghost predicate Restorable(s: Contents, changes: seq<Change>, columns: seq<nat>, i: nat) {
    && Backed(s.entries, changes, columns, i) && RestIsRight(s, changes, columns, i)
    && Unclashed(s.rows, changes, columns, i)
  }

  /** A log over an indexed table that inserts new keys and deletes none of its own rows. */
  ghost predicate CleanLog(history: seq<Rows>, changes: seq<Change>, sc: Schema) {
    && Course(history, changes, sc) && NothingTakenBack(changes, sc.keyColumn) && sc.columns != []
    && InsertsNewKeys(ByKey(history[0], sc.keyColumn), changes, sc.keyColumn)
  }

  /* ---------------------------------------------------------------- about such logs */

  lemma RowIsWide(history: seq<Rows>, changes: seq<Change>, sc: Schema, i: nat, j: nat)
    requires Course(history, changes, sc) && Inserts(changes, i, j)
    ensures sc.keyColumn < |changes[j].row| == sc.width
    ensures changes[j].rid !in history[j] && history[j + 1] == history[j][changes[j].rid := changes[j].row]
  {
    assert TakesAt(history, changes, j, sc);
    assert history[j + 1][changes[j].rid] == changes[j].row;
  }

  lemma InsertionsDiffer(history: seq<Rows>, changes: seq<Change>, sc: Schema, j: nat, l: nat)
    requires CleanLog(history, changes, sc) && Inserts(changes, l, j) && l < |changes| && changes[l].Insertion?
    ensures sc.keyColumn < |changes[j].row| && sc.keyColumn < |changes[l].row|
    ensures changes[j].rid != changes[l].rid && changes[j].row[sc.keyColumn] != changes[l].row[sc.keyColumn]
  {
    var next := l + 1;
    RowIsWide(history, changes, sc, l, j);
    RowIsWide(history, changes, sc, next, l);
    InsertionsStay(history, changes, sc, l);
    assert history[next][changes[l].rid] == changes[l].row && history[next][changes[j].rid] == changes[j].row;
  }

  lemma CandidateIsNoGuest(history: seq<Rows>, changes: seq<Change>, sc: Schema, m: nat, p: nat)
    requires CleanLog(history, changes, sc) && m < |changes| && changes[m].Deletion? && p < |changes[m].candidates|
    ensures !Guest(changes, m, changes[m].candidates[p].record)
  {
    var c := changes[m].candidates[p];
    forall j: nat | Inserts(changes, m, j)
      ensures changes[j].row != c.record
    {
      RowIsWide(history, changes, sc, m, j);
      assert c in changes[m].candidates && !TakesBack(changes[m], changes[j], sc.keyColumn);
    }
  }

  lemma GuestIsStored(history: seq<Rows>, changes: seq<Change>, sc: Schema, rows: Rows, i: nat, j: nat)
    requires CleanLog(history, changes, sc) && Inserts(changes, i, j) && Records(rows) == Records(history[i])
    ensures StoredSomewhere(rows, changes[j].row)
  {
    InsertionsStay(history, changes, sc, i);
    SameRecordsSameRows(history[i], rows, changes[j].rid);
  }

  /* ---------------------------------------------------------------- undoing an insertion */

  /** The last of the first `i` changes is this insertion. */
  ghost predicate LastInserts(history: seq<Rows>, changes: seq<Change>, sc: Schema, m: nat, i: nat, rid: Rid, row: Row) {
    CleanLog(history, changes, sc) && i == m + 1 <= |changes| && changes[m] == Insertion(rid, row)
  }

  lemma LastIsNew(history: seq<Rows>, changes: seq<Change>, sc: Schema, m: nat, i: nat, rid: Rid, row: Row, j: nat)
    requires LastInserts(history, changes, sc, m, i, rid, row) && Inserts(changes, m, j)
    ensures sc.keyColumn < |row| == sc.width == |changes[j].row| && changes[j].rid != rid && changes[j].row != row
  {
    InsertionsDiffer(history, changes, sc, j, m);
    RowIsWide(history, changes, sc, m, j);
    RowIsWide(history, changes, sc, i, m);
  }

  lemma TakenIfListed(s: Contents, rid: Rid, row: Row, sc: Schema)
    requires WellKeyed(s.rows, sc) && |s.entries| == |sc.columns| && StoredSomewhere(s.rows, row)
    requires ListedEverywhere(s.entries, sc.columns, row, rid)
    ensures sc.keyColumn < |row| == sc.width
    ensures Taken(s, rid, row, sc)
         == Contents(Without(s.rows, sc.keyColumn, {row[sc.keyColumn]}), WithoutPairs(s.entries, sc.columns, row, rid, Everywhere()))
  {
    var at :| at in s.rows && s.rows[at] == row;
    OnlyRowWithKey(s.rows, at, sc);
    assert KeyStored(s.rows, row[sc.keyColumn], sc.keyColumn);
  }

  lemma TakenIfNotListed(s: Contents, rid: Rid, row: Row, sc: Schema)
    requires !ListedEverywhere(s.entries, sc.columns, row, rid)
    ensures Taken(s, rid, row, sc).rows == s.rows
  {
  }

  lemma OthersStayListed(entries: seq<set<Entry>>, columns: seq<nat>, row: Row, rid: Rid, other: Row, elsewhere: Rid)
    requires rid != elsewhere
    ensures ListedEverywhere(entries, columns, other, elsewhere)
       <==> ListedEverywhere(WithoutPairs(entries, columns, row, rid, Everywhere()), columns, other, elsewhere)
  {
    var fewer := WithoutPairs(entries, columns, row, rid, Everywhere());
    forall k: nat | k < |columns|
      ensures ListedAt(entries, columns, other, elsewhere, k) <==> ListedAt(fewer, columns, other, elsewhere, k)
    {
      if k < |entries| && columns[k] < |row| {
        assert fewer[k] == entries[k] - {PairOf(columns, row, rid, k)};
      }
    }
    if ListedEverywhere(entries, columns, other, elsewhere) {
      forall k: nat | k < |columns|
        ensures ListedAt(fewer, columns, other, elsewhere, k)
      {
        assert ListedAt(entries, columns, other, elsewhere, k);
      }
    }
    if ListedEverywhere(fewer, columns, other, elsewhere) {
      forall k: nat | k < |columns|
        ensures ListedAt(entries, columns, other, elsewhere, k)
      {
        assert ListedAt(fewer, columns, other, elsewhere, k);
      }
    }
  }

  lemma BackedBefore(history: seq<Rows>, changes: seq<Change>, sc: Schema, m: nat, i: nat, rid: Rid, row: Row, entries: seq<set<Entry>>)
    requires LastInserts(history, changes, sc, m, i, rid, row)
    ensures Backed(entries, changes, sc.columns, i)
       <==> && ListedEverywhere(entries, sc.columns, row, rid)
            && Backed(WithoutPairs(entries, sc.columns, row, rid, Everywhere()), changes, sc.columns, m)
  {
    var fewer := WithoutPairs(entries, sc.columns, row, rid, Everywhere());
    assert Inserts(changes, i, m);
    forall j: nat | Inserts(changes, m, j)
      ensures Inserts(changes, i, j)
      ensures ListedEverywhere(entries, sc.columns, changes[j].row, changes[j].rid)
         <==> ListedEverywhere(fewer, sc.columns, changes[j].row, changes[j].rid)
    {
      LastIsNew(history, changes, sc, m, i, rid, row, j);
      OthersStayListed(entries, sc.columns, row, rid, changes[j].row, changes[j].rid);
    }
    forall j: nat | Inserts(changes, i, j)
      ensures j == m || Inserts(changes, m, j)
    {
    }
  }

  /** A guest of the longer log is the last insertion's row or a guest of the shorter one. */
  lemma GuestBefore(changes: seq<Change>, m: nat, i: nat, rid: Rid, row: Row, other: Row)
    requires i == m + 1 <= |changes| && changes[m] == Insertion(rid, row)
    ensures Guest(changes, i, other) <==> other == row || Guest(changes, m, other)
  {
    assert Inserts(changes, i, m);
    if j: nat :| Inserts(changes, m, j) && changes[j].row == other {
      assert Inserts(changes, i, j);
    }
    if j: nat :| Inserts(changes, i, j) && changes[j].row == other && j != m {
      assert Inserts(changes, m, j);
    }
  }

  lemma ClaimBefore(changes: seq<Change>, columns: seq<nat>, m: nat, i: nat, rid: Rid, row: Row, k: nat, e: Entry)
    requires i == m + 1 <= |changes| && changes[m] == Insertion(rid, row) && k < |columns| && columns[k] < |row|
    ensures Claimed(changes, columns, i, k, e) <==> e == PairOf(columns, row, rid, k) || Claimed(changes, columns, m, k, e)
  {
    assert e == PairOf(columns, row, rid, k) ==> IsClaim(changes, columns, i, m, k, e);
    if j: nat :| IsClaim(changes, columns, m, j, k, e) {
      assert IsClaim(changes, columns, i, j, k, e);
    }
    if j: nat :| IsClaim(changes, columns, i, j, k, e) && j != m {
      assert IsClaim(changes, columns, m, j, k, e);
    }
  }

  lemma RestBefore(history: seq<Rows>, changes: seq<Change>, sc: Schema, m: nat, i: nat, rid: Rid, row: Row, s: Contents)
    requires LastInserts(history, changes, sc, m, i, rid, row) && WellKeyed(s.rows, sc) && StoredSomewhere(s.rows, row)
    requires |s.entries| == |sc.columns| && ListedEverywhere(s.entries, sc.columns, row, rid)
    ensures RestIsRight(s, changes, sc.columns, i) <==> RestIsRight(Taken(s, rid, row, sc), changes, sc.columns, m)
  {
    TakenIfListed(s, rid, row, sc);
    var t := Taken(s, rid, row, sc);
    forall k: nat, e: Entry | k < |sc.columns|
      ensures e in s.entries[k] && !Claimed(changes, sc.columns, i, k, e)
         <==> e in t.entries[k] && !Claimed(changes, sc.columns, m, k, e)
      ensures IsOfResident(s.rows, changes, i, sc.columns[k], e) <==> IsOfResident(t.rows, changes, m, sc.columns[k], e)
    {
      ClaimBefore(changes, sc.columns, m, i, rid, row, k, e);
      ResidentBefore(changes, sc, m, i, rid, row, s.rows, sc.columns[k], e);
    }
    SameRests(s, t, changes, sc.columns, m, i);
  }

  lemma SameRests(s: Contents, t: Contents, changes: seq<Change>, columns: seq<nat>, m: nat, i: nat)
    requires |s.entries| == |columns| == |t.entries|
    requires forall k: nat, e: Entry | k < |columns| ::
               e in s.entries[k] && !Claimed(changes, columns, i, k, e) <==> e in t.entries[k] && !Claimed(changes, columns, m, k, e)
    requires forall k: nat, e: Entry | k < |columns| ::
               IsOfResident(s.rows, changes, i, columns[k], e) <==> IsOfResident(t.rows, changes, m, columns[k], e)
    ensures RestIsRight(s, changes, columns, i) <==> RestIsRight(t, changes, columns, m)
  {
  }

  lemma ResidentBefore(changes: seq<Change>, sc: Schema, m: nat, i: nat, rid: Rid, row: Row, rows: Rows, column: nat, e: Entry)
    requires i == m + 1 <= |changes| && changes[m] == Insertion(rid, row) && WellKeyed(rows, sc) && StoredSomewhere(rows, row)
    ensures sc.keyColumn < |row|
    ensures IsOfResident(rows, changes, i, column, e)
       <==> IsOfResident(Without(rows, sc.keyColumn, {row[sc.keyColumn]}), changes, m, column, e)
  {
    var at :| at in rows && rows[at] == row;
    OnlyRowWithKey(rows, at, sc);
    if e.1 in rows {
      GuestBefore(changes, m, i, rid, row, rows[e.1]);
    }
  }

  lemma VacatedBefore(changes: seq<Change>, sc: Schema, m: nat, i: nat, rid: Rid, row: Row, rows: Rows, d: nat, place: Rid)
    requires i == m + 1 <= |changes| && changes[m] == Insertion(rid, row) && WellKeyed(rows, sc) && StoredSomewhere(rows, row) && d < m
    ensures sc.keyColumn < |row|
    ensures Vacated(rows, changes, d, i, place) <==> Vacated(Without(rows, sc.keyColumn, {row[sc.keyColumn]}), changes, d, m, place)
  {
    var at :| at in rows && rows[at] == row;
    OnlyRowWithKey(rows, at, sc);
    assert Inserts(changes, i, m);
    if b: nat :| d < b && Inserts(changes, m, b) && place in rows && rows[place] == changes[b].row {
      assert Inserts(changes, i, b);
    }
    if b: nat :| d < b && Inserts(changes, i, b) && place in rows && rows[place] == changes[b].row && b != m {
      assert Inserts(changes, m, b);
    }
  }

  lemma UnclashedBefore(changes: seq<Change>, sc: Schema, m: nat, i: nat, rid: Rid, row: Row, rows: Rows)
    requires i == m + 1 <= |changes| && changes[m] == Insertion(rid, row) && WellKeyed(rows, sc) && StoredSomewhere(rows, row)
    ensures sc.keyColumn < |row|
    ensures Unclashed(rows, changes, sc.columns, i)
       <==> Unclashed(Without(rows, sc.keyColumn, {row[sc.keyColumn]}), changes, sc.columns, m)
  {
    var fewer := Without(rows, sc.keyColumn, {row[sc.keyColumn]});
    forall d: nat, p: nat, j: nat | d < i && Conflict(changes, sc.columns, d, p, j)
      ensures d < m && (Vacated(rows, changes, d, i, changes[j].rid) <==> Vacated(fewer, changes, d, m, changes[j].rid))
    {
      VacatedBefore(changes, sc, m, i, rid, row, rows, d, changes[j].rid);
    }
  }

  /** Undoing an insertion needs its pairs, and leaves what the earlier changes need. */
  lemma InsertionNeeds(history: seq<Rows>, changes: seq<Change>, sc: Schema, m: nat, i: nat, rid: Rid, row: Row, s: Contents)
    requires LastInserts(history, changes, sc, m, i, rid, row) && WellKeyed(s.rows, sc) && StoredSomewhere(s.rows, row)
    requires |s.entries| == |sc.columns|
    ensures Restorable(s, changes, sc.columns, i)
       <==> ListedEverywhere(s.entries, sc.columns, row, rid) && Restorable(Taken(s, rid, row, sc), changes, sc.columns, m)
  {
    BackedBefore(history, changes, sc, m, i, rid, row, s.entries);
    if ListedEverywhere(s.entries, sc.columns, row, rid) {
      TakenIfListed(s, rid, row, sc);
      RestBefore(history, changes, sc, m, i, rid, row, s);
      UnclashedBefore(changes, sc, m, i, rid, row, s.rows);
    }
  }

  /* ---------------------------------------------------------------- undoing a deletion */

  /** Candidates `p` and later can come back wherever there is room. */
  ghost predicate NoneClashes(rows: Rows, changes: seq<Change>, columns: seq<nat>, m: nat, p: nat) {
    forall q: nat, j: nat | p <= q && Conflict(changes, columns, m, q, j) :: changes[j].rid in rows
  }

  /** What is needed when the candidates before `p` have come back. */
  ghost predicate Midway(s: Contents, changes: seq<Change>, columns: seq<nat>, m: nat, p: nat) {
    Restorable(s, changes, columns, m) && NoneClashes(s.rows, changes, columns, m, p)
  }

  lemma SameWithoutDeletion(changes: seq<Change>, columns: seq<nat>, m: nat, i: nat)
    requires i == m + 1 <= |changes| && changes[m].Deletion?
    ensures forall j: nat :: Inserts(changes, i, j) <==> Inserts(changes, m, j)
    ensures forall k: nat, e: Entry :: Claimed(changes, columns, i, k, e) <==> Claimed(changes, columns, m, k, e)
    ensures forall row: Row :: Guest(changes, i, row) <==> Guest(changes, m, row)
  {
    forall j: nat
      ensures Inserts(changes, i, j) <==> Inserts(changes, m, j)
    {
    }
    forall k: nat, e: Entry
      ensures Claimed(changes, columns, i, k, e) <==> Claimed(changes, columns, m, k, e)
    {
      if j: nat :| IsClaim(changes, columns, i, j, k, e) {
        assert IsClaim(changes, columns, m, j, k, e);
      }
      if j: nat :| IsClaim(changes, columns, m, j, k, e) {
        assert IsClaim(changes, columns, i, j, k, e);
      }
    }
  }

  lemma UnclashedWithDeletion(rows: Rows, changes: seq<Change>, columns: seq<nat>, m: nat, i: nat)
    requires i == m + 1 <= |changes| && changes[m].Deletion?
    ensures Unclashed(rows, changes, columns, i) <==> Unclashed(rows, changes, columns, m) && NoneClashes(rows, changes, columns, m, 0)
  {
    SameWithoutDeletion(changes, columns, m, i);
    forall d: nat, rid | d <= m
      ensures d < m ==> (Vacated(rows, changes, d, i, rid) <==> Vacated(rows, changes, d, m, rid))
      ensures d == m ==> (Vacated(rows, changes, d, i, rid) <==> rid !in rows)
    {
    }
  }

  lemma DeletionBegins(s: Contents, changes: seq<Change>, columns: seq<nat>, m: nat, i: nat)
    requires i == m + 1 <= |changes| && changes[m].Deletion?
    ensures Restorable(s, changes, columns, i) <==> Midway(s, changes, columns, m, 0)
  {
    SameWithoutDeletion(changes, columns, m, i);
    UnclashedWithDeletion(s.rows, changes, columns, m, i);
    BackedWithDeletion(s.entries, changes, columns, m, i);
    RestWithDeletion(s, changes, columns, m, i);
  }

  lemma BackedWithDeletion(entries: seq<set<Entry>>, changes: seq<Change>, columns: seq<nat>, m: nat, i: nat)
    requires forall j: nat :: Inserts(changes, i, j) <==> Inserts(changes, m, j)
    ensures Backed(entries, changes, columns, i) <==> Backed(entries, changes, columns, m)
  {
  }

  lemma RestWithDeletion(s: Contents, changes: seq<Change>, columns: seq<nat>, m: nat, i: nat)
    requires forall k: nat, e: Entry :: Claimed(changes, columns, i, k, e) <==> Claimed(changes, columns, m, k, e)
    requires forall row: Row :: Guest(changes, i, row) <==> Guest(changes, m, row)
    ensures RestIsRight(s, changes, columns, i) <==> RestIsRight(s, changes, columns, m)
  {
    if |s.entries| == |columns| {
      SameRests(s, s, changes, columns, m, i);
    }
  }

  /** One row comes back. */
  ghost predicate ComesBack(history: seq<Rows>, changes: seq<Change>, sc: Schema, m: nat, p: nat, s: Contents, row: Row) {
    && CleanLog(history, changes, sc) && m < |changes| && changes[m].Deletion? && p < |changes[m].candidates|
    && row == changes[m].candidates[p].record && |row| == sc.width
    && WellKeyed(s.rows, sc) && |s.entries| == |sc.columns|
  }

  lemma MoreListed(entries: seq<set<Entry>>, columns: seq<nat>, row: Row, rid: Rid, other: Row, elsewhere: Rid)
    ensures ListedEverywhere(entries, columns, other, elsewhere) ==> ListedEverywhere(WithPairs(entries, columns, row, rid), columns, other, elsewhere)
    ensures rid != elsewhere && ListedEverywhere(WithPairs(entries, columns, row, rid), columns, other, elsewhere) ==>
              ListedEverywhere(entries, columns, other, elsewhere)
  {
    var more := WithPairs(entries, columns, row, rid);
    forall k: nat | k < |columns|
      ensures ListedAt(entries, columns, other, elsewhere, k) ==> ListedAt(more, columns, other, elsewhere, k)
      ensures rid != elsewhere && ListedAt(more, columns, other, elsewhere, k) ==> ListedAt(entries, columns, other, elsewhere, k)
    {
      if k < |entries| && columns[k] < |row| {
        assert more[k] == entries[k] + {PairOf(columns, row, rid, k)};
      }
    }
    ListedTogether(entries, columns, other, elsewhere);
    ListedTogether(more, columns, other, elsewhere);
  }

  lemma ListedTogether(entries: seq<set<Entry>>, columns: seq<nat>, row: Row, rid: Rid)
    ensures ListedEverywhere(entries, columns, row, rid) <==> forall k: nat | k < |columns| :: ListedAt(entries, columns, row, rid, k)
  {
  }

  /** The new pair is not one that will be removed. */
  lemma NewPairIsFree(history: seq<Rows>, changes: seq<Change>, sc: Schema, m: nat, p: nat, s: Contents, row: Row, rid: Rid, k: nat)
    requires ComesBack(history, changes, sc, m, p, s, row) && rid !in s.rows && k < |sc.columns|
    requires NoneClashes(s.rows, changes, sc.columns, m, p)
    ensures sc.columns[k] < |row| && !Claimed(changes, sc.columns, m, k, PairOf(sc.columns, row, rid, k))
  {
    if j: nat :| IsClaim(changes, sc.columns, m, j, k, PairOf(sc.columns, row, rid, k)) {
      assert changes[j].row[sc.columns[k]] == row[sc.columns[k]];
      assert ShareValue(changes[j].row, row, sc.columns);
      assert Conflict(changes, sc.columns, m, p, j);
    }
  }

  lemma RestWithOneMore(history: seq<Rows>, changes: seq<Change>, sc: Schema, m: nat, p: nat, s: Contents, row: Row, rid: Rid)
    requires ComesBack(history, changes, sc, m, p, s, row) && rid !in s.rows
    requires NoneClashes(s.rows, changes, sc.columns, m, p) && RestIsRight(s, changes, sc.columns, m)
    ensures RestIsRight(Put(s, rid, row, sc), changes, sc.columns, m)
  {
    var t := Put(s, rid, row, sc);
    CandidateIsNoGuest(history, changes, sc, m, p);
    forall k: nat, e: Entry | k < |sc.columns|
      ensures e in t.entries[k] && !Claimed(changes, sc.columns, m, k, e) <==> IsOfResident(t.rows, changes, m, sc.columns[k], e)
    {
      NewPairIsFree(history, changes, sc, m, p, s, row, rid, k);
      assert t.entries[k] == s.entries[k] + {PairOf(sc.columns, row, rid, k)};
      assert e in s.entries[k] && !Claimed(changes, sc.columns, m, k, e) <==> IsOfResident(s.rows, changes, m, sc.columns[k], e);
      if e.1 != rid {
        assert IsOfResident(t.rows, changes, m, sc.columns[k], e) <==> IsOfResident(s.rows, changes, m, sc.columns[k], e);
      }
    }
  }

  lemma UnclashedWithOneMore(changes: seq<Change>, columns: seq<nat>, m: nat, p: nat, next: nat, rows: Rows, row: Row, rid: Rid)
    requires rid !in rows && !Guest(changes, m, row) && next == p + 1
    requires Unclashed(rows, changes, columns, m) && NoneClashes(rows, changes, columns, m, p)
    ensures Unclashed(rows[rid := row], changes, columns, m) && NoneClashes(rows[rid := row], changes, columns, m, next)
  {
    var more := rows[rid := row];
    forall d: nat, q: nat, j: nat | d < m && Conflict(changes, columns, d, q, j)
      ensures !Vacated(more, changes, d, m, changes[j].rid)
    {
      assert !Vacated(rows, changes, d, m, changes[j].rid);
    }
  }

  /** Wherever the next candidate goes, what is needed stays. */
  lemma OneMoreMidway(history: seq<Rows>, changes: seq<Change>, sc: Schema, m: nat, p: nat, next: nat, s: Contents, row: Row, rid: Rid)
    requires ComesBack(history, changes, sc, m, p, s, row) && rid !in s.rows && next == p + 1
    requires Midway(s, changes, sc.columns, m, p)
    ensures Midway(Put(s, rid, row, sc), changes, sc.columns, m, next)
  {
    CandidateIsNoGuest(history, changes, sc, m, p);
    RestWithOneMore(history, changes, sc, m, p, s, row, rid);
    UnclashedWithOneMore(changes, sc.columns, m, p, next, s.rows, row, rid);
    forall j: nat | Inserts(changes, m, j)
      ensures ListedEverywhere(Put(s, rid, row, sc).entries, sc.columns, changes[j].row, changes[j].rid)
    {
      MoreListed(s.entries, sc.columns, row, rid, changes[j].row, changes[j].rid);
    }
  }

  /* ---------------------------------------------------------------- and back */

  /** Neither a row, nor an index, nor the log mentions the identifier. */
  ghost predicate Unmentioned(s: Contents, changes: seq<Change>, columns: seq<nat>, rid: Rid) {
    && rid !in s.rows
    && (forall k: nat, e: Entry | k < |s.entries| && e in s.entries[k] :: e.1 != rid)
    && (forall j: nat | Inserts(changes, |changes|, j) :: changes[j].rid != rid)
  }

  lemma {:induction false} SetPagesEnd(pairs: set<Entry>) returns (from: nat)
    ensures forall e | e in pairs :: e.1.page < from
  {
    from := 0;
    if e :| e in pairs {
      from := SetPagesEnd(pairs - {e});
      from := if from <= e.1.page then e.1.page + 1 else from;
    }
  }

  lemma {:induction false} EntryPagesEnd(entries: seq<set<Entry>>) returns (from: nat)
    ensures forall k: nat, e | k < |entries| && e in entries[k] :: e.1.page < from
  {
    from := 0;
    for k := 0 to |entries|
      invariant forall l: nat, e | l < k && e in entries[l] :: e.1.page < from
    {
      var more := SetPagesEnd(entries[k]);
      from := if from <= more then more else from;
    }
  }

  lemma {:induction false} LogPagesEnd(changes: seq<Change>) returns (from: nat)
    ensures forall j: nat | Inserts(changes, |changes|, j) :: changes[j].rid.page < from
  {
    from := 0;
    for j := 0 to |changes|
      invariant forall l: nat | l < j && Inserts(changes, |changes|, l) :: changes[l].rid.page < from
    {
      if changes[j].Insertion? && from <= changes[j].rid.page {
        from := changes[j].rid.page + 1;
      }
    }
  }

  lemma UnmentionedRid(s: Contents, changes: seq<Change>, columns: seq<nat>) returns (rid: Rid)
    ensures Unmentioned(s, changes, columns, rid)
  {
    var inEntries := EntryPagesEnd(s.entries);
    var inLog := LogPagesEnd(changes);
    rid := UnusedRid(s.rows, inEntries + inLog);
  }

  lemma RestWithOneLess(history: seq<Rows>, changes: seq<Change>, sc: Schema, m: nat, p: nat, s: Contents, row: Row, rid: Rid)
    requires ComesBack(history, changes, sc, m, p, s, row) && Unmentioned(s, changes, sc.columns, rid)
    requires RestIsRight(Put(s, rid, row, sc), changes, sc.columns, m)
    ensures RestIsRight(s, changes, sc.columns, m)
  {
    var t := Put(s, rid, row, sc);
    forall k: nat, e: Entry | k < |sc.columns|
      ensures e in s.entries[k] && !Claimed(changes, sc.columns, m, k, e) <==> IsOfResident(s.rows, changes, m, sc.columns[k], e)
    {
      assert t.entries[k] == s.entries[k] + {PairOf(sc.columns, row, rid, k)};
      assert e in t.entries[k] && !Claimed(changes, sc.columns, m, k, e) <==> IsOfResident(t.rows, changes, m, sc.columns[k], e);
    }
  }

  lemma UnclashedWithOneLess(changes: seq<Change>, columns: seq<nat>, m: nat, p: nat, next: nat, s: Contents, row: Row, rid: Rid)
    requires Unmentioned(s, changes, columns, rid) && next == p + 1 && m <= |changes|
    requires Unclashed(s.rows[rid := row], changes, columns, m) && NoneClashes(s.rows[rid := row], changes, columns, m, next)
    ensures Unclashed(s.rows, changes, columns, m) && NoneClashes(s.rows, changes, columns, m, next)
  {
    var more := s.rows[rid := row];
    forall d: nat, q: nat, j: nat | d < m && Conflict(changes, columns, d, q, j)
      ensures !Vacated(s.rows, changes, d, m, changes[j].rid)
    {
      assert Inserts(changes, |changes|, j) && !Vacated(more, changes, d, m, changes[j].rid);
    }
    forall q: nat, j: nat | next <= q && Conflict(changes, columns, m, q, j)
      ensures changes[j].rid in s.rows
    {
      assert Inserts(changes, |changes|, j) && changes[j].rid in more;
    }
  }

  /** If a candidate took the vacant place of an insertion with which it conflicts, its pair would be
      taken for one to remove. */
  lemma PlacesAreTaken(history: seq<Rows>, changes: seq<Change>, sc: Schema, m: nat, p: nat, s: Contents, row: Row, j: nat)
    requires ComesBack(history, changes, sc, m, p, s, row) && Conflict(changes, sc.columns, m, p, j) && changes[j].rid !in s.rows
    ensures !RestIsRight(Put(s, changes[j].rid, row, sc), changes, sc.columns, m)
  {
    var rid := changes[j].rid;
    var t := Put(s, rid, row, sc);
    var k: nat :| k < |sc.columns| && sc.columns[k] < |changes[j].row| && sc.columns[k] < |row|
                  && changes[j].row[sc.columns[k]] == row[sc.columns[k]];
    var e := PairOf(sc.columns, row, rid, k);
    CandidateIsNoGuest(history, changes, sc, m, p);
    assert IsClaim(changes, sc.columns, m, j, k, e);
    assert IsOfResident(t.rows, changes, m, sc.columns[k], e);
  }

  /** What is needed wherever the next candidate goes is needed before. */
  lemma MidwayBefore(history: seq<Rows>, changes: seq<Change>, sc: Schema, m: nat, p: nat, next: nat, s: Contents, row: Row)
    requires ComesBack(history, changes, sc, m, p, s, row) && next == p + 1
    requires forall rid: Rid | rid !in s.rows :: Midway(Put(s, rid, row, sc), changes, sc.columns, m, next)
    ensures Midway(s, changes, sc.columns, m, p)
  {
    var rid := UnmentionedRid(s, changes, sc.columns);
    assert Midway(Put(s, rid, row, sc), changes, sc.columns, m, next);
    RestWithOneLess(history, changes, sc, m, p, s, row, rid);
    UnclashedWithOneLess(changes, sc.columns, m, p, next, s, row, rid);
    forall j: nat | Inserts(changes, m, j)
      ensures ListedEverywhere(s.entries, sc.columns, changes[j].row, changes[j].rid)
    {
      assert Inserts(changes, |changes|, j);
      MoreListed(s.entries, sc.columns, row, rid, changes[j].row, changes[j].rid);
    }
    forall q: nat, j: nat | p <= q && Conflict(changes, sc.columns, m, q, j)
      ensures changes[j].rid in s.rows
    {
      if q == p && changes[j].rid !in s.rows {
        PlacesAreTaken(history, changes, sc, m, p, s, row, j);
      }
    }
  }

  /* ---------------------------------------------------------------- one step of a rollback */

  lemma InsertionFirst(s: Contents, changes: seq<Change>, m: nat, i: nat, rid: Rid, row: Row, goal: Rows, sc: Schema)
    requires i == m + 1 <= |changes| && changes[m] == Insertion(rid, row)
    ensures Restores(s, changes, i, goal, sc) <==> Restores(Taken(s, rid, row, sc), changes, m, goal, sc)
  {
    var t := Taken(s, rid, row, sc);
    assert UndoesLast(s, changes, i, 0, t, sc);
    forall u
      ensures RollsBack(s, changes, i, 0, u, sc) <==> RollsBack(t, changes, m, 0, u, sc)
    {
    }
  }

  /** However the candidates from `p` on are put back, what follows restores the table. */
  ghost predicate RestoresAfter(s: Contents, changes: seq<Change>, m: nat, cs: seq<Candidate>, p: nat, goal: Rows, sc: Schema) {
    forall mid | PutsBack(s, cs, p, 0, mid, sc) :: Restores(mid, changes, m, goal, sc)
  }

  lemma DeletionFirst(s: Contents, changes: seq<Change>, m: nat, i: nat, cs: seq<Candidate>, goal: Rows, sc: Schema)
    requires i == m + 1 <= |changes| && changes[m] == Deletion(cs)
    ensures Restores(s, changes, i, goal, sc) <==> RestoresAfter(s, changes, m, cs, 0, goal, sc)
  {
    if Restores(s, changes, i, goal, sc) {
      forall mid, u | PutsBack(s, cs, 0, 0, mid, sc) && RollsBack(mid, changes, m, 0, u, sc)
        ensures AsBefore(u, goal, sc)
      {
        assert UndoesLast(s, changes, i, 0, mid, sc);
        assert RollsBack(s, changes, i, 0, u, sc);
      }
    }
    if RestoresAfter(s, changes, m, cs, 0, goal, sc) {
      forall u | RollsBack(s, changes, i, 0, u, sc)
        ensures AsBefore(u, goal, sc)
      {
        var mid :| UndoesLast(s, changes, i, 0, mid, sc) && RollsBack(mid, changes, m, 0, u, sc);
        assert PutsBack(s, cs, 0, 0, mid, sc) && Restores(mid, changes, m, goal, sc);
      }
    }
  }

  lemma AllBackAgain(s: Contents, changes: seq<Change>, m: nat, cs: seq<Candidate>, goal: Rows, sc: Schema)
    ensures RestoresAfter(s, changes, m, cs, |cs|, goal, sc) <==> Restores(s, changes, m, goal, sc)
  {
    assert PutsBack(s, cs, |cs|, 0, s, sc);
  }

  lemma OneMoreFirst(s: Contents, changes: seq<Change>, m: nat, cs: seq<Candidate>, p: nat, next: nat, row: Row, goal: Rows, sc: Schema)
    requires next == p + 1 <= |cs| && row == cs[p].record && Admitted(s.rows, row, sc)
    ensures RestoresAfter(s, changes, m, cs, p, goal, sc)
       <==> forall rid: Rid | rid !in s.rows :: RestoresAfter(Put(s, rid, row, sc), changes, m, cs, next, goal, sc)
  {
    if RestoresAfter(s, changes, m, cs, p, goal, sc) {
      forall rid: Rid, mid | rid !in s.rows && PutsBack(Put(s, rid, row, sc), cs, next, 0, mid, sc)
        ensures Restores(mid, changes, m, goal, sc)
      {
        assert PutsBack(s, cs, p, 0, mid, sc);
      }
    }
    if forall rid: Rid | rid !in s.rows :: RestoresAfter(Put(s, rid, row, sc), changes, m, cs, next, goal, sc) {
      forall mid | PutsBack(s, cs, p, 0, mid, sc)
        ensures Restores(mid, changes, m, goal, sc)
      {
        var rid: Rid :| rid !in s.rows && PutsBack(Put(s, rid, row, sc), cs, next, 0, mid, sc);
      }
    }
  }

  /* ---------------------------------------------------------------- a row that is not taken stays */

  lemma {:induction false} PuttingKeeps(s: Contents, cs: seq<Candidate>, p: nat, from: nat, u: Contents, sc: Schema, key: Value)
    requires PutsBack(s, cs, p, from, u, sc) && KeyStored(s.rows, key, sc.keyColumn)
    ensures KeyStored(u.rows, key, sc.keyColumn)
    decreases |cs| - p
  {
    if p < |cs| && Admitted(s.rows, cs[p].record, sc) {
      var next, row := p + 1, cs[p].record;
      var rid: Rid :| rid !in s.rows && from <= rid.page && PutsBack(Put(s, rid, row, sc), cs, next, from, u, sc);
      var r :| r in s.rows && sc.keyColumn < |s.rows[r]| && s.rows[r][sc.keyColumn] == key;
      assert r in s.rows[rid := row] && s.rows[rid := row][r] == s.rows[r];
      PuttingKeeps(Put(s, rid, row, sc), cs, next, from, u, sc, key);
    }
  }

  lemma TakingKeeps(s: Contents, rid: Rid, row: Row, sc: Schema, key: Value)
    requires sc.keyColumn < |row| && row[sc.keyColumn] != key && KeyStored(s.rows, key, sc.keyColumn)
    ensures KeyStored(Taken(s, rid, row, sc).rows, key, sc.keyColumn)
  {
    var r :| r in s.rows && sc.keyColumn < |s.rows[r]| && s.rows[r][sc.keyColumn] == key;
    assert r in Without(s.rows, sc.keyColumn, {row[sc.keyColumn]});
  }

  lemma {:induction false} KeyStays(s: Contents, changes: seq<Change>, i: nat, u: Contents, sc: Schema, key: Value)
    requires i <= |changes| && RollsBack(s, changes, i, 0, u, sc) && KeyStored(s.rows, key, sc.keyColumn)
    requires forall j: nat | Inserts(changes, i, j) :: sc.keyColumn < |changes[j].row| && changes[j].row[sc.keyColumn] != key
    ensures KeyStored(u.rows, key, sc.keyColumn)
    decreases i
  {
    if i != 0 {
      var last: nat := i - 1;
      var mid :| UndoesLast(s, changes, i, 0, mid, sc) && RollsBack(mid, changes, last, 0, u, sc);
      match changes[last] {
        case Insertion(rid, row) =>
          assert Inserts(changes, i, last);
          TakingKeeps(s, rid, row, sc, key);
        case Deletion(cs) => PuttingKeeps(s, cs, 0, 0, mid, sc, key);
      }
      forall j: nat | Inserts(changes, last, j)
        ensures Inserts(changes, i, j)
      {
      }
      KeyStays(mid, changes, last, u, sc, key);
    }
  }

  /** If the pairs of the last insertion are not there, its row stays, and the table is not restored. */
  lemma StuckRowStays(history: seq<Rows>, changes: seq<Change>, sc: Schema, m: nat, i: nat, rid: Rid, row: Row, s: Contents)
    requires LastInserts(history, changes, sc, m, i, rid, row) && StoredSomewhere(s.rows, row)
    requires !ListedEverywhere(s.entries, sc.columns, row, rid)
    ensures !Restores(Taken(s, rid, row, sc), changes, m, history[0], sc)
  {
    var t := Taken(s, rid, row, sc);
    RowIsWide(history, changes, sc, i, m);
    TakenIfNotListed(s, rid, row, sc);
    var at :| at in s.rows && s.rows[at] == row;
    var u := CanRollBack(t, changes, m, 0, sc);
    forall j: nat | Inserts(changes, m, j)
      ensures sc.keyColumn < |changes[j].row| && changes[j].row[sc.keyColumn] != row[sc.keyColumn]
    {
      InsertionsDiffer(history, changes, sc, j, m);
    }
    KeyStays(t, changes, m, u, sc, row[sc.keyColumn]);
    if AsBefore(u, history[0], sc) {
      NewKeyIsNotBack(history[0], u.rows, sc, row[sc.keyColumn]);
    }
  }

  lemma NewKeyIsNotBack(start: Rows, rows: Rows, sc: Schema, key: Value)
    requires WellKeyed(start, sc) && KeyStored(rows, key, sc.keyColumn) && Records(rows) == Records(start)
    ensures key in ByKey(start, sc.keyColumn)
  {
    ByKeyHolds(start, sc);
    var r :| r in rows && sc.keyColumn < |rows[r]| && rows[r][sc.keyColumn] == key;
    SameRecordsSameRows(rows, start, r);
  }

  /* ---------------------------------------------------------------- exactly */

  lemma NothingLeftToUndo(changes: seq<Change>, s: Contents, goal: Rows, sc: Schema)
    requires WellKeyed(s.rows, sc) && |s.entries| == |sc.columns| && Records(s.rows) == Records(goal)
    ensures Restores(s, changes, 0, goal, sc) <==> Restorable(s, changes, sc.columns, 0)
  {
    assert RollsBack(s, changes, 0, 0, s, sc);
    var exact := Exactly(s.rows, sc).entries;
    forall k: nat, e: Entry | k < |sc.columns|
      ensures !Claimed(changes, sc.columns, 0, k, e)
      ensures IsOfResident(s.rows, changes, 0, sc.columns[k], e) <==> e in exact[k]
    {
      assert exact[k] == IndexOf(s.rows, sc.columns[k]);
    }
    if RestIsRight(s, changes, sc.columns, 0) {
      forall k: nat | k < |sc.columns|
        ensures s.entries[k] == exact[k]
      {
        forall e: Entry
          ensures e in s.entries[k] <==> e in exact[k]
        {
          assert e in s.entries[k] && !Claimed(changes, sc.columns, 0, k, e) <==> IsOfResident(s.rows, changes, 0, sc.columns[k], e);
        }
      }
      assert s.entries == exact;
    }
  }

  lemma OneInsertionLess(history: seq<Rows>, changes: seq<Change>, sc: Schema, m: nat, i: nat, rid: Rid, row: Row, rows: Rows)
    requires LastInserts(history, changes, sc, m, i, rid, row) && WellKeyed(rows, sc) && StoredSomewhere(rows, row)
    requires Records(rows) == Records(history[i])
    ensures sc.keyColumn < |row| && Records(Without(rows, sc.keyColumn, {row[sc.keyColumn]})) == Records(history[m])
    ensures WellKeyed(Without(rows, sc.keyColumn, {row[sc.keyColumn]}), sc)
  {
    RowIsWide(history, changes, sc, i, m);
    RecordsInsert(history[m], rid, row);
    OneRowLess(rows, row, sc);
    SameOrNot(Records(history[m]), Records(Without(rows, sc.keyColumn, {row[sc.keyColumn]})), row);
  }

  /** Whatever rows and indexes hold, as long as the records are those the log says: every way to roll back
      restores the table exactly if every pair that will be removed is there, the other pairs are those of
      the rows that stay, and no row that comes back can take a place where it shares a pair with a row
      that is still to be removed. */
  lemma {:induction false} RestoredIfRestorable(history: seq<Rows>, changes: seq<Change>, sc: Schema, i: nat, s: Contents)
    requires CleanLog(history, changes, sc) && i <= |changes|
    requires WellKeyed(s.rows, sc) && |s.entries| == |sc.columns| && Records(s.rows) == Records(history[i])
    ensures Restores(s, changes, i, history[0], sc) <==> Restorable(s, changes, sc.columns, i)
    decreases 2 * i, 0
  {
    if i == 0 {
      NothingLeftToUndo(changes, s, history[0], sc);
    } else {
      var m: nat := i - 1;
      match changes[m]
      case Insertion(rid, row) =>
        assert Inserts(changes, i, m);
        GuestIsStored(history, changes, sc, s.rows, i, m);
        InsertionFirst(s, changes, m, i, rid, row, history[0], sc);
        InsertionNeeds(history, changes, sc, m, i, rid, row, s);
        if ListedEverywhere(s.entries, sc.columns, row, rid) {
          TakenIfListed(s, rid, row, sc);
          OneInsertionLess(history, changes, sc, m, i, rid, row, s.rows);
          RestoredIfRestorable(history, changes, sc, m, Taken(s, rid, row, sc));
        } else {
          StuckRowStays(history, changes, sc, m, i, rid, row, s);
        }
      case Deletion(cs) =>
        DeletionFirst(s, changes, m, i, cs, history[0], sc);
        DeletionBegins(s, changes, sc.columns, m, i);
        DeletionCanBeUndone(history, changes, s.rows, sc, m, i);
        NothingAdded(s.rows, cs);
        RestoredIfMidway(history, changes, sc, m, i, cs, 0, s.rows, s);
    }
  }

  /** The same while the candidates of a deletion come back. */
  lemma {:induction false} RestoredIfMidway(history: seq<Rows>, changes: seq<Change>, sc: Schema, m: nat, i: nat, cs: seq<Candidate>,
                                            p: nat, before: Rows, s: Contents)
    requires CleanLog(history, changes, sc) && i == m + 1 <= |changes| && changes[m] == Deletion(cs) && p <= |cs|
    requires WellKeyed(s.rows, sc) && |s.entries| == |sc.columns| && WellKeyed(before, sc) && Records(before) == Records(history[i])
    requires Added(before, s.rows, cs, p) && WelcomeFrom(s.rows, cs, p, sc) && Acceptable(cs, sc.keyColumn, sc.columns)
    ensures RestoresAfter(s, changes, m, cs, p, history[0], sc) <==> Midway(s, changes, sc.columns, m, p)
    decreases 2 * m + 1, |cs| - p
  {
    if p == |cs| {
      DeletionCanBeUndone(history, changes, before, sc, m, i);
      AllAdded(before, s.rows, cs);
      AllBackAgain(s, changes, m, cs, history[0], sc);
      RestoredIfRestorable(history, changes, sc, m, s);
    } else {
      var next, row := p + 1, cs[p].record;
      assert Admitted(s.rows, row, sc);
      OneMoreFirst(s, changes, m, cs, p, next, row, history[0], sc);
      forall rid: Rid | rid !in s.rows
        ensures RestoresAfter(Put(s, rid, row, sc), changes, m, cs, next, history[0], sc)
           <==> Midway(Put(s, rid, row, sc), changes, sc.columns, m, next)
        ensures Midway(s, changes, sc.columns, m, p) ==> Midway(Put(s, rid, row, sc), changes, sc.columns, m, next)
      {
        OneMoreAdded(before, s.rows, cs, p, next, rid);
        OthersStayWelcome(s.rows, cs, p, next, sc, rid);
        RestoredIfMidway(history, changes, sc, m, i, cs, next, before, Put(s, rid, row, sc));
        if Midway(s, changes, sc.columns, m, p) {
          OneMoreMidway(history, changes, sc, m, p, next, s, row, rid);
        }
      }
      if forall rid: Rid | rid !in s.rows :: Midway(Put(s, rid, row, sc), changes, sc.columns, m, next) {
        MidwayBefore(history, changes, sc, m, p, next, s, row);
      }
    }
  }

  /* ---------------------------------------------------------------- from exact indexes */

  /** The identifiers of the log are where its rows are now, and no index can tell the row at each of
      them from the one the log has for it: the rows are in place, up to an exchange among look-alikes. */
  ghost predicate AtHome(rows: Rows, changes: seq<Change>, columns: seq<nat>) {
    && (forall j: nat | Inserts(changes, |changes|, j) :: Lookalike(rows, changes[j].rid, changes[j].row, columns))
    && (forall r | r in rows :: Guest(changes, |changes|, rows[r]) <==> exists j: nat :: Inserts(changes, |changes|, j) && changes[j].rid == r)
  }

  lemma AtHomeMeans(history: seq<Rows>, changes: seq<Change>, s: Contents, sc: Schema)
    requires CleanLog(history, changes, sc) && Sound(s, sc)
    ensures AtHome(s.rows, changes, sc.columns)
       <==> Backed(s.entries, changes, sc.columns, |changes|) && RestIsRight(s, changes, sc.columns, |changes|)
  {
    forall j: nat | Inserts(changes, |changes|, j)
      ensures ListedEverywhere(s.entries, sc.columns, changes[j].row, changes[j].rid)
         <==> Lookalike(s.rows, changes[j].rid, changes[j].row, sc.columns)
    {
      RowIsWide(history, changes, sc, |changes|, j);
      ListedLooksAlike(s, changes[j].rid, changes[j].row, sc);
    }
    if Backed(s.entries, changes, sc.columns, |changes|) {
      forall k: nat, e: Entry | k < |sc.columns|
        ensures e in s.entries[k] <==> e.1 in s.rows && e.0 == s.rows[e.1][sc.columns[k]]
        ensures e in s.entries[k] ==>
                  (Claimed(changes, sc.columns, |changes|, k, e) <==> exists j: nat :: Inserts(changes, |changes|, j) && changes[j].rid == e.1)
      {
        assert s.entries[k] == IndexOf(s.rows, sc.columns[k]);
        if e in s.entries[k] {
          ClaimedWhere(history, changes, s, sc, k, e);
        }
      }
      RestWhere(history, changes, s, sc);
    }
  }

  lemma ClaimedWhere(history: seq<Rows>, changes: seq<Change>, s: Contents, sc: Schema, k: nat, e: Entry)
    requires CleanLog(history, changes, sc) && Sound(s, sc) && k < |sc.columns| && e in s.entries[k]
    requires forall j: nat | Inserts(changes, |changes|, j) :: Lookalike(s.rows, changes[j].rid, changes[j].row, sc.columns)
    ensures Claimed(changes, sc.columns, |changes|, k, e) <==> exists j: nat :: Inserts(changes, |changes|, j) && changes[j].rid == e.1
  {
    assert s.entries[k] == IndexOf(s.rows, sc.columns[k]);
    if j: nat :| Inserts(changes, |changes|, j) && changes[j].rid == e.1 {
      RowIsWide(history, changes, sc, |changes|, j);
      assert IsClaim(changes, sc.columns, |changes|, j, k, e);
    }
    if j: nat :| IsClaim(changes, sc.columns, |changes|, j, k, e) {
      assert Inserts(changes, |changes|, j) && changes[j].rid == e.1;
    }
  }

  lemma RestWhere(history: seq<Rows>, changes: seq<Change>, s: Contents, sc: Schema)
    requires CleanLog(history, changes, sc) && Sound(s, sc)
    requires forall k: nat, e: Entry | k < |sc.columns| :: e in s.entries[k] <==> e.1 in s.rows && e.0 == s.rows[e.1][sc.columns[k]]
    requires forall k: nat, e: Entry | k < |sc.columns| && e in s.entries[k] ::
               Claimed(changes, sc.columns, |changes|, k, e) <==> exists j: nat :: Inserts(changes, |changes|, j) && changes[j].rid == e.1
    ensures RestIsRight(s, changes, sc.columns, |changes|)
       <==> forall r | r in s.rows ::
              Guest(changes, |changes|, s.rows[r]) <==> exists j: nat :: Inserts(changes, |changes|, j) && changes[j].rid == r
  {
    if RestIsRight(s, changes, sc.columns, |changes|) {
      forall r | r in s.rows
        ensures Guest(changes, |changes|, s.rows[r]) <==> exists j: nat :: Inserts(changes, |changes|, j) && changes[j].rid == r
      {
        var e := (s.rows[r][sc.columns[0]], r);
        assert e in s.entries[0];
        assert !Claimed(changes, sc.columns, |changes|, 0, e) <==> IsOfResident(s.rows, changes, |changes|, sc.columns[0], e);
      }
    }
  }

  /** From any table with exact indexes and the records the log says, for a transaction that inserted new
      keys and deleted none of its own rows: rollback restores the table for every choice of identifiers
      exactly if there are no indexes, or the rows it inserted are at home and no row that comes back can
      clash with one of them. */
  lemma RestoredFromExactly(history: seq<Rows>, changes: seq<Change>, s: Contents, sc: Schema)
    requires Course(history, changes, sc) && NothingTakenBack(changes, sc.keyColumn)
    requires InsertsNewKeys(ByKey(history[0], sc.keyColumn), changes, sc.keyColumn)
    requires Sound(s, sc) && Records(s.rows) == Records(history[|changes|])
    ensures Restores(s, changes, |changes|, history[0], sc)
       <==> sc.columns == [] || (AtHome(s.rows, changes, sc.columns) && Unclashed(s.rows, changes, sc.columns, |changes|))
  {
    if sc.columns == [] {
      forall u | RollsBack(s, changes, |changes|, 0, u, sc)
        ensures AsBefore(u, history[0], sc)
      {
        LoggedRollback(history, changes, s, sc, u);
      }
    } else {
      RestoredIfRestorable(history, changes, sc, |changes|, s);
      AtHomeMeans(history, changes, s, sc);
    }
  }

  /* ---------------------------------------------------------------- two inputs */

  /** INSERT of a row, then a DELETE that fails and puts the row back elsewhere: rolled back, the row of
      the transaction stays. */
  lemma MovedRowStays(start: Rows, rid: Rid, row: Row, now: Rows, u: Contents, sc: Schema)
    requires WellKeyed(now, sc) && sc.columns != [] && rid !in start && Records(now) == Records(start[rid := row])
    requires rid !in now && RollsBack(Exactly(now, sc), [Insertion(rid, row)], 1, 0, u, sc)
    ensures u == Exactly(now, sc) && Records(u.rows) == Records(start) + multiset{row} && Records(u.rows) != Records(start)
  {
    var s, changes := Exactly(now, sc), [Insertion(rid, row)];
    var mid :| UndoesLast(s, changes, 1, 0, mid, sc) && RollsBack(mid, changes, 0, 0, u, sc);
    TakenFromNowhere(s, rid, row, sc);
    RecordsInsert(start, rid, row);
    OneMoreIsMore(Records(start), row);
  }

  /** A row that was inserted, deleted and inserted again, and has moved to where it was first: the table
      is restored although the transaction deleted a row that it had inserted. */
  lemma MovedBackIsRestored(start: Rows, first: Rid, second: Rid, row: Row, c: Candidate, sc: Schema)
    requires WellKeyed(start[first := row], sc) && first !in start && second !in start && first != second
    requires sc.columns != [] && c.record == row
    ensures var changes := [Insertion(first, row), Deletion([c]), Insertion(second, row)];
      && !NothingTakenBack(changes, sc.keyColumn)
      && Records(start[first := row]) == Records(start[second := row])
      && Restores(Exactly(start[first := row], sc), changes, 3, start, sc)
  {
    var changes := [Insertion(first, row), Deletion([c]), Insertion(second, row)];
    var rows := start[first := row];
    var s := Exactly(rows, sc);
    assert rows[first] == row && |row| == sc.width;
    assert c in changes[1].candidates && TakesBack(changes[1], changes[0], sc.keyColumn);
    RecordsInsert(start, first, row);
    RecordsInsert(start, second, row);
    TakenFromNowhere(s, second, row, sc);
    InsertionFirst(s, changes, 2, 3, second, row, start, sc);
    NothingComesBack(s, changes, c, first, start, sc);
    TakenInPlace(s, first, row, sc);
    WithoutNew(start, first, row, sc.keyColumn);
    InsertionFirst(s, changes, 0, 1, first, row, start, sc);
    assert forall u | RollsBack(Exactly(start, sc), changes, 0, 0, u, sc) :: u == Exactly(start, sc);
  }

  lemma NothingComesBack(s: Contents, changes: seq<Change>, c: Candidate, at: Rid, goal: Rows, sc: Schema)
    requires |changes| == 3 && changes[1] == Deletion([c]) && WellKeyed(s.rows, sc) && at in s.rows && s.rows[at] == c.record
    ensures Restores(s, changes, 2, goal, sc) <==> Restores(s, changes, 1, goal, sc)
  {
    assert |c.record| == sc.width && !Admitted(s.rows, c.record, sc);
    DeletionFirst(s, changes, 1, 2, [c], goal, sc);
    forall mid
      ensures PutsBack(s, [c], 0, 0, mid, sc) <==> mid == s
    {
    }
  }
}
