/** Execution of a physical plan over the tree of a FROM clause, and why it answers the query. */
module Operators {
  import opened Arithmetic
  import opened Values
  import opened Predicates
  import opened Plans
  import opened Wrappers
  import opened Bags

  /** The rows of each table. */
  type Database = map<Name, seq<Row>>

  /** Every table of the source exists and its rows are of the right types. */
  ghost predicate Conforms(db: Database, s: Source) {
    match s
    case TableRef(table, types, _) => table in db && forall row | row in db[table] :: TypedRow(row, types)
    case JoinRef(left, right, _, _) => Conforms(db, left) && Conforms(db, right)
  }

  /* ---------------------------------------------------------------- what a query means */

  function Matched(l: Row, r: Row, leftColumn: nat, rightColumn: nat): seq<Row> {
    if leftColumn < |l| && rightColumn < |r| && l[leftColumn] == r[rightColumn] then [l + r] else []
  }

  /** What one left row contributes, right row by right row. */
  function Matcher(l: Row, leftColumn: nat, rightColumn: nat): Row -> seq<Row> {
    r => Matched(l, r, leftColumn, rightColumn)
  }

  function JoinOne(l: Row, right: seq<Row>, leftColumn: nat, rightColumn: nat): seq<Row> {
    FlatMap(right, Matcher(l, leftColumn, rightColumn))
  }

  /** What the right side contributes, left row by left row. */
  function Joiner(right: seq<Row>, leftColumn: nat, rightColumn: nat): Row -> seq<Row> {
    l => JoinOne(l, right, leftColumn, rightColumn)
  }

  /** The inner equijoin of two lists of rows. */
  function JoinRows(left: seq<Row>, right: seq<Row>, leftColumn: nat, rightColumn: nat): seq<Row> {
    FlatMap(left, Joiner(right, leftColumn, rightColumn))
  }

  /** All rows of a source, before any predicate. */
  ghost function AllRows(db: Database, s: Source): seq<Row>
    requires Conforms(db, s)
  {
    match s
    case TableRef(table, _, _) => db[table]
    case JoinRef(left, right, leftColumn, rightColumn) =>
      JoinRows(AllRows(db, left), AllRows(db, right), leftColumn, rightColumn)
  }

  /** The predicate on a row of a node whose columns start at `offset`. */
  predicate Holds(row: Row, c: Condition, offset: nat) {
    offset <= c.column < offset + |row| && MatchesValue(row[c.column - offset], c)
  }

  function Selector(c: Condition, offset: nat): Row -> bool {
    row => Holds(row, c, offset)
  }

  function Selected(rows: seq<Row>, c: Condition, offset: nat): seq<Row> {
    Filter(rows, Selector(c, offset))
  }

  /** The rows a node must deliver: filtered if its part of the plan takes care of the predicate. */
  ghost function Answer(db: Database, p: Physical, s: Source, where: Option<Condition>, offset: nat): seq<Row>
    requires Conforms(db, s)
  {
    if Consumes(p) && where.Some? then Selected(AllRows(db, s), where.value, offset) else AllRows(db, s)
  }

  /* ---------------------------------------------------------------- joins and predicates commute */

  lemma JoinOneStep(l: Row, init: seq<Row>, last: Row, lc: nat, rc: nat)
    ensures JoinOne(l, init + [last], lc, rc) == JoinOne(l, init, lc, rc) + Matched(l, last, lc, rc)
  {
  }

  lemma JoinStep(init: seq<Row>, last: Row, right: seq<Row>, lc: nat, rc: nat)
    ensures JoinRows(init + [last], right, lc, rc) == JoinRows(init, right, lc, rc) + JoinOne(last, right, lc, rc)
  {
  }

  lemma SelectStep(init: seq<Row>, last: Row, c: Condition, offset: nat)
    ensures Selected(init + [last], c, offset)
         == if Holds(last, c, offset) then Selected(init, c, offset) + [last] else Selected(init, c, offset)
  {
  }

  lemma SelectAppend(a: seq<Row>, b: seq<Row>, c: Condition, offset: nat)
    ensures Selected(a + b, c, offset) == Selected(a, c, offset) + Selected(b, c, offset)
  {
    FilterAppend(a, b, Selector(c, offset));
  }

  lemma TypedConcat(l: Row, r: Row, lt: seq<SqlType>, rt: seq<SqlType>)
    requires TypedRow(l, lt) && TypedRow(r, rt)
    ensures TypedRow(l + r, lt + rt)
  {
  }

  lemma {:induction false} JoinOneMembers(l: Row, right: seq<Row>, lc: nat, rc: nat)
    ensures forall row | row in JoinOne(l, right, lc, rc) :: exists r :: r in right && row == l + r
  {
    if right != [] {
      var init, last := right[..|right| - 1], right[|right| - 1];
      assert right == init + [last];
      JoinOneMembers(l, init, lc, rc);
      JoinOneStep(l, init, last, lc, rc);
    }
  }

  lemma {:induction false} AllRowsTyped(db: Database, s: Source)
    requires Conforms(db, s)
    ensures forall row | row in AllRows(db, s) :: TypedRow(row, Types(s))
  {
    match s
    case TableRef(_, _, _) =>
    case JoinRef(left, right, lc, rc) =>
      AllRowsTyped(db, left);
      AllRowsTyped(db, right);
      JoinTyped(AllRows(db, left), AllRows(db, right), Types(left), Types(right), lc, rc);
  }

  predicate Wide(rows: seq<Row>, width: nat) {
    forall row | row in rows :: |row| == width
  }

  lemma AllRowsWide(db: Database, s: Source)
    requires Conforms(db, s)
    ensures Wide(AllRows(db, s), Width(s))
  {
    AllRowsTyped(db, s);
  }

  lemma {:induction false} JoinTyped(left: seq<Row>, right: seq<Row>, lt: seq<SqlType>, rt: seq<SqlType>, lc: nat, rc: nat)
    requires forall row | row in left :: TypedRow(row, lt)
    requires forall row | row in right :: TypedRow(row, rt)
    ensures forall row | row in JoinRows(left, right, lc, rc) :: TypedRow(row, lt + rt)
  {
    if left != [] {
      var init, last := left[..|left| - 1], left[|left| - 1];
      assert left == init + [last];
      JoinTyped(init, right, lt, rt, lc, rc);
      JoinStep(init, last, right, lc, rc);
      JoinOneMembers(last, right, lc, rc);
      forall row | row in JoinOne(last, right, lc, rc)
        ensures TypedRow(row, lt + rt)
      {
        var r :| r in right && row == last + r;
        TypedConcat(last, r, lt, rt);
      }
    }
  }

  /** A predicate on a left column selects all or nothing of what one left row joins with. */
  lemma {:induction false} SelectJoinOneLeft(l: Row, right: seq<Row>, lc: nat, rc: nat, c: Condition, offset: nat)
    requires offset <= c.column < offset + |l|
    ensures Selected(JoinOne(l, right, lc, rc), c, offset) == if Holds(l, c, offset) then JoinOne(l, right, lc, rc) else []
  {
    JoinOneMembers(l, right, lc, rc);
    var rows := JoinOne(l, right, lc, rc);
    if Holds(l, c, offset) {
      FilterAll(rows, Selector(c, offset));
    } else {
      FilterNone(rows, Selector(c, offset));
    }
  }

  lemma {:induction false} SelectJoinLeft(left: seq<Row>, right: seq<Row>, lc: nat, rc: nat, c: Condition, offset: nat, width: nat)
    requires Wide(left, width)
    requires offset <= c.column < offset + width
    ensures Selected(JoinRows(left, right, lc, rc), c, offset) == JoinRows(Selected(left, c, offset), right, lc, rc)
  {
    if left != [] {
      var init, last := left[..|left| - 1], left[|left| - 1];
      assert left == init + [last];
      SelectJoinLeft(init, right, lc, rc, c, offset, width);
      JoinStep(init, last, right, lc, rc);
      SelectStep(init, last, c, offset);
      if Holds(last, c, offset) {
        JoinStep(Selected(init, c, offset), last, right, lc, rc);
      }
      SelectAppend(JoinRows(init, right, lc, rc), JoinOne(last, right, lc, rc), c, offset);
      SelectJoinOneLeft(last, right, lc, rc, c, offset);
    }
  }

  /** A predicate on a right column selects among the rows to join with; these start at `start`. */
  lemma SelectMatched(l: Row, r: Row, lc: nat, rc: nat, c: Condition, offset: nat, start: nat)
    requires start == offset + |l| && start <= c.column
    ensures Selected(Matched(l, r, lc, rc), c, offset) == if Holds(r, c, start) then Matched(l, r, lc, rc) else []
  {
    assert Holds(l + r, c, offset) <==> Holds(r, c, start);
    assert [] + [l + r] == [l + r];
    SelectStep([], l + r, c, offset);
  }

  lemma {:induction false} SelectJoinOneRight(l: Row, right: seq<Row>, lc: nat, rc: nat, c: Condition, offset: nat, start: nat)
    requires start == offset + |l| && start <= c.column
    ensures Selected(JoinOne(l, right, lc, rc), c, offset) == JoinOne(l, Selected(right, c, start), lc, rc)
  {
    if right != [] {
      var init, last := right[..|right| - 1], right[|right| - 1];
      assert right == init + [last];
      SelectJoinOneRight(l, init, lc, rc, c, offset, start);
      JoinOneStep(l, init, last, lc, rc);
      SelectStep(init, last, c, start);
      if Holds(last, c, start) {
        JoinOneStep(l, Selected(init, c, start), last, lc, rc);
      }
      SelectAppend(JoinOne(l, init, lc, rc), Matched(l, last, lc, rc), c, offset);
      SelectMatched(l, last, lc, rc, c, offset, start);
    }
  }

  lemma {:induction false} SelectJoinRight(left: seq<Row>, right: seq<Row>, lc: nat, rc: nat, c: Condition, offset: nat, width: nat, start: nat)
    requires Wide(left, width) && start == offset + width && start <= c.column
    ensures Selected(JoinRows(left, right, lc, rc), c, offset) == JoinRows(left, Selected(right, c, start), lc, rc)
  {
    if left != [] {
      var init, last := left[..|left| - 1], left[|left| - 1];
      assert left == init + [last];
      assert last in left;
      var chosen := Selected(right, c, start);
      calc {
        Selected(JoinRows(left, right, lc, rc), c, offset);
      ==  { JoinStep(init, last, right, lc, rc); }
        Selected(JoinRows(init, right, lc, rc) + JoinOne(last, right, lc, rc), c, offset);
      ==  { SelectAppend(JoinRows(init, right, lc, rc), JoinOne(last, right, lc, rc), c, offset); }
        Selected(JoinRows(init, right, lc, rc), c, offset) + Selected(JoinOne(last, right, lc, rc), c, offset);
      ==  { SelectJoinRight(init, right, lc, rc, c, offset, width, start); SelectJoinOneRight(last, right, lc, rc, c, offset, start); }
        JoinRows(init, chosen, lc, rc) + JoinOne(last, chosen, lc, rc);
      ==  { JoinStep(init, last, chosen, lc, rc); }
        JoinRows(left, chosen, lc, rc);
      }
    }
  }

  /** The bag a join gives depends on the bags it is given, not on their order. */
  lemma JoinSameBag(left: seq<Row>, left': seq<Row>, right: seq<Row>, right': seq<Row>, lc: nat, rc: nat)
    requires multiset(left) == multiset(left') && multiset(right) == multiset(right')
    ensures multiset(JoinRows(left, right, lc, rc)) == multiset(JoinRows(left', right', lc, rc))
  {
    forall l
      ensures multiset(JoinOne(l, right, lc, rc)) == multiset(JoinOne(l, right', lc, rc))
    {
      FlatMapSameBag(right, right', Matcher(l, lc, rc), Matcher(l, lc, rc));
    }
    FlatMapSameBag(left, left', Joiner(right, lc, rc), Joiner(right', lc, rc));
  }

  /* ---------------------------------------------------------------- how often a row is delivered */

  /** The two rows join. */
  predicate Joins(l: Row, r: Row, lc: nat, rc: nat) {
    lc < |l| && rc < |r| && l[lc] == r[rc]
  }

  lemma ConcatSplits(l: Row, r: Row, k: Row, q: Row)
    requires |k| == |l|
    ensures k + q == l + r <==> k == l && q == r
  {
    assert (k + q)[..|k|] == k && (l + r)[..|l|] == l && (k + q)[|k|..] == q && (l + r)[|l|..] == r;
  }

  lemma {:induction false} JoinOneCount(l: Row, right: seq<Row>, lc: nat, rc: nat, k: Row, r: Row)
    requires |k| == |l|
    ensures multiset(JoinOne(l, right, lc, rc))[k + r] == if k == l && Joins(l, r, lc, rc) then multiset(right)[r] else 0
  {
    if right != [] {
      var init, last := right[..|right| - 1], right[|right| - 1];
      assert right == init + [last];
      JoinOneCount(l, init, lc, rc, k, r);
      JoinOneStep(l, init, last, lc, rc);
      ConcatSplits(l, last, k, r);
    }
  }

  /** A joined row occurs once for each occurrence of its left part with each of its right part, and
      otherwise not at all. */
  lemma JoinCounts(left: seq<Row>, right: seq<Row>, lc: nat, rc: nat, l: Row, r: Row)
    requires Wide(left, |l|)
    ensures multiset(JoinRows(left, right, lc, rc))[l + r]
         == if Joins(l, r, lc, rc) then multiset(left)[l] * multiset(right)[r] else 0
  {
    var times := if Joins(l, r, lc, rc) then multiset(right)[r] else 0;
    forall k | k in left
      ensures multiset(Joiner(right, lc, rc)(k))[l + r] == if k == l then times else 0
    {
      JoinOneCount(k, right, lc, rc, l, r);
    }
    FlatMapCount(left, Joiner(right, lc, rc), l, l + r, times);
    MultipleIsProduct(times, multiset(left)[l]);
  }

  /** Rows that are too short to have a left part are not joined rows. */
  lemma JoinedAreLong(left: seq<Row>, right: seq<Row>, lc: nat, rc: nat, width: nat, row: Row)
    requires Wide(left, width) && |row| < width
    ensures multiset(JoinRows(left, right, lc, rc))[row] == 0
  {
    if left != [] {
      var init, last := left[..|left| - 1], left[|left| - 1];
      assert left == init + [last] && last in left;
      JoinedAreLong(init, right, lc, rc, width, row);
      JoinStep(init, last, right, lc, rc);
      JoinOneMembers(last, right, lc, rc);
      assert row !in JoinOne(last, right, lc, rc);
    }
  }

  /** How often a row occurs in a source: the product of how often each table has its part of the row,
      if all the join conditions hold. */
  ghost function Occurrences(db: Database, s: Source, row: Row): nat
    requires Conforms(db, s)
  {
    match s
    case TableRef(table, _, _) => multiset(db[table])[row]
    case JoinRef(left, right, leftColumn, rightColumn) =>
      if |row| < Width(left) then 0
      else
        var l, r := row[..Width(left)], row[Width(left)..];
        if Joins(l, r, leftColumn, rightColumn) then Occurrences(db, left, l) * Occurrences(db, right, r) else 0
  }

  lemma {:induction false} AllRowsCounts(db: Database, s: Source, row: Row)
    requires Conforms(db, s)
    ensures multiset(AllRows(db, s))[row] == Occurrences(db, s, row)
  {
    match s
    case TableRef(_, _, _) =>
    case JoinRef(left, right, lc, rc) =>
      var width := Width(left);
      AllRowsWide(db, left);
      if |row| < width {
        JoinedAreLong(AllRows(db, left), AllRows(db, right), lc, rc, width, row);
      } else {
        var l, r := row[..width], row[width..];
        assert row == l + r;
        AllRowsCounts(db, left, l);
        AllRowsCounts(db, right, r);
        JoinCounts(AllRows(db, left), AllRows(db, right), lc, rc, l, r);
      }
  }

  /** A query asks for a row as often as it occurs, if it satisfies the predicate. */
  ghost function Asked(db: Database, s: Source, where: Option<Condition>, row: Row): nat
    requires Conforms(db, s)
  {
    if where.None? || (where.value.column < |row| && MatchesValue(row[where.value.column], where.value))
    then Occurrences(db, s, row) else 0
  }

  lemma AskedIsAnswered(db: Database, s: Source, where: Option<Condition>, rows: seq<Row>)
    requires Conforms(db, s)
    requires multiset(rows) == multiset(if where.Some? then Selected(AllRows(db, s), where.value, 0) else AllRows(db, s))
    ensures forall row :: multiset(rows)[row] == Asked(db, s, where, row)
  {
    forall row
      ensures multiset(rows)[row] == Asked(db, s, where, row)
    {
      AllRowsCounts(db, s, row);
      if where.Some? {
        FilterCount(AllRows(db, s), Selector(where.value, 0), row);
      }
    }
  }

  /* ---------------------------------------------------------------- reading a leaf */

  function KeySelector(column: nat, key: Value): Row -> bool {
    row => column < |row| && row[column] == key
  }

  function RangeSelector(column: nat, lower: Value, upper: Value): Row -> bool {
    row => column < |row| && Enclosed(row[column], lower, upper)
  }

  /** A full scan of a table, in an order of the table's choice. */
  method ScanTable(rows: seq<Row>) returns (found: seq<Row>)
    ensures multiset(found) == multiset(rows)
  {
    found := rows;
  }

  /** An equality search by key or by index, in an order of the structure's choice. */
  method Search(rows: seq<Row>, column: nat, key: Value) returns (found: seq<Row>)
    ensures multiset(found) == multiset(Filter(rows, KeySelector(column, key)))
  {
    found := Filter(rows, KeySelector(column, key));
  }

  /** A closed range search by key or by index, in an order of the structure's choice. */
  method SearchRange(rows: seq<Row>, column: nat, lower: Value, upper: Value) returns (found: seq<Row>)
    ensures multiset(found) == multiset(Filter(rows, RangeSelector(column, lower, upper)))
  {
    found := Filter(rows, RangeSelector(column, lower, upper));
  }

  /** What the access path of a leaf brings, before the residual filter. */
  ghost function Candidates(rows: seq<Row>, keyColumn: nat, indexes: seq<Index>, route: Route, c: Condition): seq<Row> {
    match route
    case Scan => rows
    case TableSearch =>
      if EqualityKey(c).Ok? then Filter(rows, KeySelector(keyColumn, EqualityKey(c).value)) else []
    case TableRange =>
      if RangeValues(c).Ok? then Filter(rows, RangeSelector(keyColumn, RangeValues(c).value.0, RangeValues(c).value.1)) else []
    case IndexSearch(k) =>
      if k < |indexes| && EqualityKey(c).Ok? then Filter(rows, KeySelector(indexes[k].column, EqualityKey(c).value)) else []
    case IndexRange(k) =>
      if k < |indexes| && RangeValues(c).Ok?
      then Filter(rows, RangeSelector(indexes[k].column, RangeValues(c).value.0, RangeValues(c).value.1)) else []
  }

  /** The predicate is on this column of these rows, which start at `offset`. */
  predicate OnColumn(rows: seq<Row>, types: seq<SqlType>, column: nat, c: Condition, offset: nat) {
    && (forall row | row in rows :: TypedRow(row, types))
    && offset + column == c.column && column < |types| && Typed(c) && c.columnType == types[column]
  }

  lemma SearchCovers(rows: seq<Row>, types: seq<SqlType>, column: nat, c: Condition, offset: nat)
    requires OnColumn(rows, types, column, c, offset) && EqualityKey(c).Ok?
    ensures var found := Filter(rows, KeySelector(column, EqualityKey(c).value));
      found == Selected(rows, c, offset) && Selected(found, c, offset) == Selected(rows, c, offset)
  {
    var p := KeySelector(column, EqualityKey(c).value);
    forall row | row in rows
      ensures p(row) <==> Selector(c, offset)(row)
    {
      EqualityCaptures(row[column], c);
    }
    FilterAgree(rows, p, Selector(c, offset));
    SelectedTwice(rows, c, offset);
  }

  lemma RangeCovers(rows: seq<Row>, types: seq<SqlType>, column: nat, c: Condition, offset: nat)
    requires OnColumn(rows, types, column, c, offset) && RangeValues(c).Ok?
    ensures var range := RangeValues(c).value;
      var found := Filter(rows, RangeSelector(column, range.0, range.1));
      && Selected(found, c, offset) == Selected(rows, c, offset)
      && (!Strict(c) ==> found == Selected(rows, c, offset))
  {
    var range := RangeValues(c).value;
    var p := RangeSelector(column, range.0, range.1);
    forall row | row in rows
      ensures Selector(c, offset)(row) ==> p(row)
      ensures !Strict(c) ==> (p(row) <==> Selector(c, offset)(row))
    {
      RangeCaptures(row[column], c);
    }
    FilterTwice(rows, p, Selector(c, offset));
    if !Strict(c) {
      FilterAgree(rows, p, Selector(c, offset));
    }
  }

  lemma SelectedTwice(rows: seq<Row>, c: Condition, offset: nat)
    ensures Selected(Selected(rows, c, offset), c, offset) == Selected(rows, c, offset)
  {
    FilterTwice(rows, Selector(c, offset), Selector(c, offset));
  }

  /** A route that fits brings everything that matches; without a residual filter, nothing else. */
  lemma CandidatesCover(rows: seq<Row>, types: seq<SqlType>, keyColumn: nat, indexes: seq<Index>, route: Route,
                        residual: bool, c: Condition, offset: nat)
    requires forall row | row in rows :: TypedRow(row, types)
    requires offset <= c.column < offset + |types| && Typed(c) && c.columnType == types[c.column - offset]
    requires RouteFits(c, c.column - offset, keyColumn, indexes, route, residual)
    ensures var found := Candidates(rows, keyColumn, indexes, route, c);
      && Selected(found, c, offset) == Selected(rows, c, offset)
      && (!residual ==> found == Selected(rows, c, offset))
  {
    var column: nat := c.column - offset;
    if route.TableSearch? || route.IndexSearch? {
      assert Candidates(rows, keyColumn, indexes, route, c) == Filter(rows, KeySelector(column, EqualityKey(c).value));
      SearchCovers(rows, types, column, c, offset);
    } else if route.TableRange? || route.IndexRange? {
      var range := RangeValues(c).value;
      assert Candidates(rows, keyColumn, indexes, route, c) == Filter(rows, RangeSelector(column, range.0, range.1));
      RangeCovers(rows, types, column, c, offset);
    }
  }

  /** The condition is one the route can look up. */
  predicate Answerable(route: Route, indexes: seq<Index>, c: Condition) {
    match route
    case Scan => true
    case TableSearch | IndexSearch(_) => EqualityKey(c).Ok?
    case TableRange => RangeValues(c).Ok?
    case IndexRange(k) => k < |indexes| && indexes[k].kind == BPlusUnclustered && RangeValues(c).Ok?
  }

  method ReadCandidates(rows: seq<Row>, keyColumn: nat, meta: TableMeta, route: Route, where: Option<Condition>)
    returns (r: Result<seq<Row>>)
    requires (route.IndexSearch? || route.IndexRange?) ==> route.index < |meta.indexes|
    ensures where.None? ==> (r.Err? <==> !route.Scan?)
    ensures route.Scan? ==> r.Ok? && multiset(r.value) == multiset(rows)
    ensures where.Some? && r.Ok? ==>
              multiset(r.value) == multiset(Candidates(rows, keyColumn, meta.indexes, route, where.value))
    ensures where.Some? ==> (r.Ok? <==> Answerable(route, meta.indexes, where.value))
  {
    if route.Scan? {
      var found := ScanTable(rows);
      return Ok(found);
    }
    if where.None? {
      return Err(MissingCondition);
    }
    if route.TableSearch? || route.IndexSearch? {
      var key := EqualityKey(where.value);
      if key.Err? {
        return Err(key.error);
      }
      var found := Search(rows, if route.TableSearch? then keyColumn else meta.indexes[route.index].column, key.value);
      return Ok(found);
    }
    if route.IndexRange? && meta.indexes[route.index].kind != BPlusUnclustered {
      return Err(RangeUnsupported);
    }
    var range := RangeValues(where.value);
    if range.Err? {
      return Err(range.error);
    }
    var found := SearchRange(rows, if route.TableRange? then keyColumn else meta.indexes[route.index].column,
                             range.value.0, range.value.1);
    return Ok(found);
  }

  /* ---------------------------------------------------------------- joining */

  /** The hash join reads the two streams it is given. */
  method HashJoin(left: seq<Row>, right: seq<Row>, lc: nat, rc: nat) returns (found: seq<Row>)
    ensures multiset(found) == multiset(JoinRows(left, right, lc, rc))
  {
    found := JoinRows(left, right, lc, rc);
  }

  /** The index nested loop looks every left row's key up in the table itself. */
  method ProbeJoin(left: seq<Row>, table: seq<Row>, lc: nat, rc: nat) returns (found: seq<Row>)
    ensures multiset(found) == multiset(JoinRows(left, table, lc, rc))
  {
    found := [];
    for i := 0 to |left|
      invariant found == JoinRows(left[..i], table, lc, rc)
    {
      JoinStep(left[..i], left[i], table, lc, rc);
      assert left[..i + 1] == left[..i] + [left[i]];
      found := found + JoinOne(left[i], table, lc, rc);
    }
    assert left[..|left|] == left;
  }

  /* ---------------------------------------------------------------- executing a plan */

  /** Physical and logical tree have the same shape, and the positions they use exist. */
  predicate Executable(p: Physical, s: Source, where: Option<Condition>, offset: nat)
    decreases p
  {
    match p
    case Access(meta, route, residual) =>
      && s.TableRef?
      && ((route.IndexSearch? || route.IndexRange?) ==> route.index < |meta.indexes|)
      && (residual && where.Some? ==> offset <= where.value.column < offset + Width(s))
    case Join(left, right, _, _, strategy, _, _, residual) =>
      && s.JoinRef?
      && Executable(left, s.left, where, offset)
      && Executable(right, s.right, where, offset + Width(s.left))
      && (strategy.Auto? ==> s.right.TableRef?)
      && (residual && where.Some? ==> offset <= where.value.column < offset + Width(s))
  }

  lemma {:induction false} WellPlannedIsExecutable(p: Physical, s: Source, where: Option<Condition>, offset: nat)
    requires WellPlanned(p, s, where, offset)
    ensures Executable(p, s, where, offset)
    decreases p
  {
    match p
    case Access(_, _, _) =>
    case Join(left, right, _, _, _, _, _, _) =>
      WellPlannedIsExecutable(left, s.left, where, offset);
      WellPlannedIsExecutable(right, s.right, where, offset + Width(s.left));
  }

  /** The predicate with its column counted from the start of this node. */
  function LocalCondition(c: Condition, offset: nat): (local: Condition)
    requires offset <= c.column
    ensures local.column == c.column - offset
    ensures forall row: Row :: Holds(row, local, 0) <==> Holds(row, c, offset)
  {
    c.(column := c.column - offset)
  }

  method FilterRows(rows: seq<Row>, c: Condition, offset: nat) returns (found: seq<Row>)
    requires offset <= c.column
    ensures found == Selected(rows, c, offset)
  {
    var local := LocalCondition(c, offset);
    found := [];
    for i := 0 to |rows|
      invariant found == Selected(rows[..i], c, offset)
    {
      assert rows[..i + 1] == rows[..i] + [rows[i]];
      SelectStep(rows[..i], rows[i], c, offset);
      if Holds(rows[i], local, 0) {
        found := found + [rows[i]];
      }
    }
    assert rows[..|rows|] == rows;
  }

  /** A part of a plan that takes care of the predicate spans the predicate's column. */
  lemma {:induction false} ConsumerSpans(p: Physical, s: Source, where: Option<Condition>, offset: nat)
    requires WellPlanned(p, s, where, offset) && Consumes(p)
    ensures Spans(s, where, offset)
    decreases p
  {
    match p
    case Access(_, _, _) =>
    case Join(left, right, _, _, _, _, _, residual) =>
      if Consumes(left) {
        ConsumerSpans(left, s.left, where, offset);
      } else if Consumes(right) {
        ConsumerSpans(right, s.right, where, offset + Width(s.left));
      }
  }

  /** The rows of a node before its residual filter. */
  ghost function Unfiltered(db: Database, p: Physical, s: Source, where: Option<Condition>, offset: nat): seq<Row>
    requires Conforms(db, s) && Executable(p, s, where, offset)
  {
    match p
    case Access(meta, route, _) =>
      if where.Some? then Candidates(db[s.table], s.keyColumn, meta.indexes, route, where.value) else db[s.table]
    case Join(left, right, _, _, _, _, _, _) =>
      if (Consumes(left) || Consumes(right)) && where.Some? then Selected(AllRows(db, s), where.value, offset)
      else AllRows(db, s)
  }

  predicate HasResidual(p: Physical) {
    p.residual
  }

  /** A node answers with its unfiltered rows, once its residual filter has been applied. */
  lemma FilteredAnswers(db: Database, p: Physical, s: Source, where: Option<Condition>, offset: nat)
    requires Conforms(db, s) && Executable(p, s, where, offset) && WellPlanned(p, s, where, offset)
    ensures HasResidual(p) ==> where.Some?
    ensures var rows := Unfiltered(db, p, s, where, offset);
      Answer(db, p, s, where, offset) == if HasResidual(p) then Selected(rows, where.value, offset) else rows
  {
    match p
    case Access(meta, route, residual) =>
      if Consumes(p) {
        CandidatesCover(db[s.table], s.types, s.keyColumn, meta.indexes, route, residual, where.value, offset);
      }
    case Join(left, right, _, _, _, _, _, residual) =>
      if Consumes(p) {
        ConsumerSpans(p, s, where, offset);
        SelectedTwice(AllRows(db, s), where.value, offset);
      }
  }

  /** In these, `start` is where the columns of the right side start. */
  lemma JoinedWhenNeitherConsumes(db: Database, p: Physical, s: Source, where: Option<Condition>, offset: nat, start: nat)
    requires Conforms(db, s) && p.Join? && s.JoinRef? && !Consumes(p.left) && !Consumes(p.right)
    ensures JoinRows(Answer(db, p.left, s.left, where, offset), Answer(db, p.right, s.right, where, start),
                     s.leftColumn, s.rightColumn)
         == AllRows(db, s)
  {
  }

  lemma JoinedWhenLeftConsumes(db: Database, p: Physical, s: Source, where: Option<Condition>, offset: nat, start: nat)
    requires Conforms(db, s) && p.Join? && s.JoinRef? && start == offset + Width(s.left)
    requires WellPlanned(p.left, s.left, where, offset) && WellPlanned(p.right, s.right, where, start)
    requires Consumes(p.left)
    ensures where.Some?
    ensures JoinRows(Answer(db, p.left, s.left, where, offset), Answer(db, p.right, s.right, where, start),
                     s.leftColumn, s.rightColumn)
         == Selected(AllRows(db, s), where.value, offset)
  {
    ConsumerSpans(p.left, s.left, where, offset);
    if Consumes(p.right) {
      ConsumerSpans(p.right, s.right, where, start);
    }
    AllRowsWide(db, s.left);
    SelectJoinLeft(AllRows(db, s.left), AllRows(db, s.right), s.leftColumn, s.rightColumn, where.value, offset, Width(s.left));
  }

  lemma JoinedWhenRightConsumes(db: Database, p: Physical, s: Source, where: Option<Condition>, offset: nat, start: nat)
    requires Conforms(db, s) && p.Join? && s.JoinRef? && start == offset + Width(s.left)
    requires WellPlanned(p.right, s.right, where, start)
    requires Consumes(p.right) && !Consumes(p.left) && where.Some?
    ensures JoinRows(Answer(db, p.left, s.left, where, offset), Answer(db, p.right, s.right, where, start),
                     s.leftColumn, s.rightColumn)
         == Selected(AllRows(db, s), where.value, offset)
  {
    ConsumerSpans(p.right, s.right, where, start);
    SelectRightRows(db, s, where.value, offset, start);
    assert Answer(db, p.left, s.left, where, offset) == AllRows(db, s.left);
    assert Answer(db, p.right, s.right, where, start) == Selected(AllRows(db, s.right), where.value, start);
  }

  lemma SelectRightRows(db: Database, s: Source, c: Condition, offset: nat, start: nat)
    requires Conforms(db, s) && s.JoinRef? && start == offset + Width(s.left) && start <= c.column
    ensures JoinRows(AllRows(db, s.left), Selected(AllRows(db, s.right), c, start), s.leftColumn, s.rightColumn)
         == Selected(AllRows(db, s), c, offset)
  {
    AllRowsWide(db, s.left);
    SelectJoinRight(AllRows(db, s.left), AllRows(db, s.right), s.leftColumn, s.rightColumn, c, offset, Width(s.left), start);
  }

  /** Joining the answers of both sides gives the unfiltered rows of the join. */
  lemma JoinedAnswers(db: Database, p: Physical, s: Source, where: Option<Condition>, offset: nat, start: nat)
    requires Conforms(db, s) && Executable(p, s, where, offset) && WellPlanned(p, s, where, offset) && p.Join?
    requires start == offset + Width(s.left)
    ensures JoinRows(Answer(db, p.left, s.left, where, offset), Answer(db, p.right, s.right, where, start),
                     p.leftColumn, p.rightColumn)
         == Unfiltered(db, p, s, where, offset)
  {
    if Consumes(p.left) {
      JoinedWhenLeftConsumes(db, p, s, where, offset, start);
    } else if Consumes(p.right) {
      ConsumerSpans(p.right, s.right, where, start);
      JoinedWhenRightConsumes(db, p, s, where, offset, start);
    } else {
      JoinedWhenNeitherConsumes(db, p, s, where, offset, start);
    }
  }

  /* ---------------------------------------------------------------- what executing a plan delivers */

  /** Which of the automatic joins the core answers by probing: for the node and where it starts. */
  type Probing = (Physical, nat) -> bool

  /** What the access path of a leaf brings, if it can be followed. */
  ghost function Read(db: Database, p: Physical, s: Source, where: Option<Condition>): Option<seq<Row>>
    requires p.Access? && s.TableRef? && Conforms(db, s)
  {
    if p.route.Scan? then Some(db[s.table])
    else if where.None? || !Answerable(p.route, p.meta.indexes, where.value) then None
    else Some(Candidates(db[s.table], s.keyColumn, p.meta.indexes, p.route, where.value))
  }

  /** The rows a node delivers under any plan that can be executed, right or not; none when an error
      ends the execution. A probe reads the right table itself, by the column of the probe; an automatic
      join without anything to probe is an error even where the core would not probe. */
  ghost function Delivered(db: Database, p: Physical, s: Source, where: Option<Condition>, offset: nat, probing: Probing): Option<seq<Row>>
    requires Conforms(db, s) && Executable(p, s, where, offset)
    decreases p, 1
  {
    var rows := if p.Join? then Joined(db, p, s, where, offset, probing) else Read(db, p, s, where);
    if rows.None? || !HasResidual(p) then rows
    else if where.None? then None
    else Some(Selected(rows.value, where.value, offset))
  }

  ghost function Joined(db: Database, p: Physical, s: Source, where: Option<Condition>, offset: nat, probing: Probing): Option<seq<Row>>
    requires Conforms(db, s) && Executable(p, s, where, offset) && p.Join?
    decreases p, 0
  {
    var left := Delivered(db, p.left, s.left, where, offset, probing);
    var right := Delivered(db, p.right, s.right, where, offset + Width(s.left), probing);
    if left.None? || right.None? || (p.strategy.Auto? && Probed(p, s).None?) then None
    else if p.strategy.Auto? && probing(p, offset) then
      Some(JoinRows(left.value, db[s.right.table], p.leftColumn, Probed(p, s).value))
    else Some(JoinRows(left.value, right.value, p.leftColumn, p.rightColumn))
  }

  /** The column of the right table that an automatic join would look up, whatever it joins on. */
  function Probed(p: Physical, s: Source): Option<nat>
    requires p.Join? && s.JoinRef? && s.right.TableRef? && p.right.Access?
  {
    ProbedColumn(s, p.right, p.probe)
  }

  lemma ReadsCandidates(db: Database, p: Physical, s: Source, where: Option<Condition>, offset: nat)
    requires p.Access? && Conforms(db, s) && Executable(p, s, where, offset) && WellPlanned(p, s, where, offset)
    ensures Read(db, p, s, where) == Some(Unfiltered(db, p, s, where, offset))
  {
  }

  lemma RightJoins(db: Database, p: Physical, s: Source, where: Option<Condition>, offset: nat, start: nat, probing: Probing)
    requires Conforms(db, s) && Executable(p, s, where, offset) && WellPlanned(p, s, where, offset) && p.Join?
    requires start == offset + Width(s.left)
    requires Delivered(db, p.left, s.left, where, offset, probing) == Some(Answer(db, p.left, s.left, where, offset))
    requires Delivered(db, p.right, s.right, where, start, probing) == Some(Answer(db, p.right, s.right, where, start))
    ensures Joined(db, p, s, where, offset, probing) == Some(Unfiltered(db, p, s, where, offset))
  {
    JoinedAnswers(db, p, s, where, offset, start);
  }

  /** A plan that is right delivers the answer, whichever way the automatic joins go. */
  lemma {:induction false} RightPlansDeliver(db: Database, p: Physical, s: Source, where: Option<Condition>, offset: nat, probing: Probing)
    requires Conforms(db, s) && Executable(p, s, where, offset) && WellPlanned(p, s, where, offset)
    ensures Delivered(db, p, s, where, offset, probing) == Some(Answer(db, p, s, where, offset))
    decreases p
  {
    if p.Join? {
      var start := offset + Width(s.left);
      RightPlansDeliver(db, p.left, s.left, where, offset, probing);
      RightPlansDeliver(db, p.right, s.right, where, start, probing);
      RightJoins(db, p, s, where, offset, start, probing);
    } else {
      ReadsCandidates(db, p, s, where, offset);
    }
    FilteredAnswers(db, p, s, where, offset);
  }

  /** Some automatic join of the plan has nothing to probe. */
  predicate LacksProbe(p: Physical, s: Source) {
    p.Join? && s.JoinRef?
    && ((p.strategy.Auto? && s.right.TableRef? && p.right.Access? && Probed(p, s).None?) || LacksProbe(p.left, s.left) || LacksProbe(p.right, s.right))
  }

  /** Without a predicate, execution fails exactly for plans with a part that takes care of one or an
      automatic join with nothing to probe. */
  lemma {:induction false} WithoutAPredicate(db: Database, p: Physical, s: Source, where: Option<Condition>, offset: nat, probing: Probing)
    requires Conforms(db, s) && Executable(p, s, where, offset) && where.None?
    ensures Delivered(db, p, s, where, offset, probing).None? <==> Consumes(p) || LacksProbe(p, s)
    decreases p
  {
    if p.Join? {
      WithoutAPredicate(db, p.left, s.left, where, offset, probing);
      WithoutAPredicate(db, p.right, s.right, where, offset + Width(s.left), probing);
    }
  }

  /** Executes one node of the source, whatever order the structures choose. */
  method ExecuteSource(db: Database, p: Physical, s: Source, where: Option<Condition>, offset: nat, probing: Probing)
    returns (r: Result<seq<Row>>)
    requires Conforms(db, s) && Executable(p, s, where, offset)
    ensures r.Ok? <==> Delivered(db, p, s, where, offset, probing).Some?
    ensures r.Ok? ==> multiset(r.value) == multiset(Delivered(db, p, s, where, offset, probing).value)
    decreases p, 1
  {
    if p.Join? {
      r := ExecuteJoin(db, p, s, where, offset, probing);
    } else {
      r := ReadCandidates(db[s.table], s.keyColumn, p.meta, p.route, where);
    }
    if r.Err? || !HasResidual(p) {
      return;
    }
    if where.None? {
      return Err(MissingCondition);
    }
    ghost var rows := if p.Join? then Joined(db, p, s, where, offset, probing) else Read(db, p, s, where);
    FilterSameBag(r.value, rows.value, Selector(where.value, offset));
    var found := FilterRows(r.value, where.value, offset);
    r := Ok(found);
  }

  lemma JoinedIs(db: Database, p: Physical, s: Source, where: Option<Condition>, offset: nat, probing: Probing,
                 l: seq<Row>, r: seq<Row>)
    requires Conforms(db, s) && Executable(p, s, where, offset) && p.Join?
    requires Delivered(db, p.left, s.left, where, offset, probing) == Some(l)
    requires Delivered(db, p.right, s.right, where, offset + Width(s.left), probing) == Some(r)
    ensures Joined(db, p, s, where, offset, probing)
         == if p.strategy.Auto? && Probed(p, s).None? then None
            else if p.strategy.Auto? && probing(p, offset)
            then Some(JoinRows(l, db[s.right.table], p.leftColumn, Probed(p, s).value))
            else Some(JoinRows(l, r, p.leftColumn, p.rightColumn))
  {
  }

  method ExecuteJoin(db: Database, p: Physical, s: Source, where: Option<Condition>, offset: nat, probing: Probing)
    returns (r: Result<seq<Row>>)
    requires Conforms(db, s) && Executable(p, s, where, offset) && p.Join?
    ensures r.Ok? <==> Joined(db, p, s, where, offset, probing).Some?
    ensures r.Ok? ==> multiset(r.value) == multiset(Joined(db, p, s, where, offset, probing).value)
    decreases p, 0
  {
    r := ExecuteSource(db, p.left, s.left, where, offset, probing);
    if r.Err? {
      return;
    }
    var left := r.value;
    ghost var l := Delivered(db, p.left, s.left, where, offset, probing).value;
    r := ExecuteSource(db, p.right, s.right, where, offset + Width(s.left), probing);
    if r.Err? {
      return;
    }
    var right := r.value;
    ghost var r' := Delivered(db, p.right, s.right, where, offset + Width(s.left), probing).value;
    JoinedIs(db, p, s, where, offset, probing, l, r');
    if p.strategy.Auto? && Probed(p, s).None? {
      return Err(NothingToProbe);
    }
    var found;
    if p.strategy.Auto? && probing(p, offset) {
      var probed := Probed(p, s).value;
      found := ProbeJoin(left, db[s.right.table], p.leftColumn, probed);
      JoinSameBag(left, l, db[s.right.table], db[s.right.table], p.leftColumn, probed);
    } else {
      found := HashJoin(left, right, p.leftColumn, p.rightColumn);
      JoinSameBag(left, l, right, r', p.leftColumn, p.rightColumn);
    }
    r := Ok(found);
  }

  /* ---------------------------------------------------------------- whole queries */

  /** The check before execution: a filter needs a predicate, and a predicate needs someone to take
      care of it. */
  predicate Validated(p: Physical, where: Option<Condition>) {
    (HasResidual(p) ==> where.Some?) && (where.Some? ==> Consumes(p))
  }

  method ExecutePlan(db: Database, p: Physical, s: Source, where: Option<Condition>, probing: Probing) returns (r: Result<seq<Row>>)
    requires Conforms(db, s) && Executable(p, s, where, 0)
    ensures r.Ok? <==> Validated(p, where) && Delivered(db, p, s, where, 0, probing).Some?
    ensures where.Some? && !Consumes(p) ==> r == Err(ScanNeedsFilter)
    ensures where.None? && HasResidual(p) ==> r == Err(MissingCondition)
    ensures (where.Some? ==> Consumes(p)) && (where.None? ==> !HasResidual(p)) ==>
              (r.Ok? <==> Delivered(db, p, s, where, 0, probing).Some?)
    ensures r.Ok? ==> multiset(r.value) == multiset(Delivered(db, p, s, where, 0, probing).value)
    ensures Validated(p, where) && WellPlanned(p, s, where, 0) ==>
              && r.Ok?
              && multiset(r.value)
                 == multiset(if where.Some? then Selected(AllRows(db, s), where.value, 0) else AllRows(db, s))
  {
    if HasResidual(p) && where.None? {
      return Err(MissingCondition);
    }
    if where.Some? && !Consumes(p) {
      return Err(ScanNeedsFilter);
    }
    if WellPlanned(p, s, where, 0) {
      RightPlansDeliver(db, p, s, where, 0, probing);
    }
    r := ExecuteSource(db, p, s, where, 0, probing);
  }

  /** Every query the binder accepts is answered: the rows delivered are those of the whole join
      that satisfy the predicate, whichever way the automatic joins go. */
  method Query(db: Database, cat: Catalogue, s: Source, where: Option<Condition>, probing: Probing) returns (rows: seq<Row>)
    requires Conforms(db, s) && Covers(cat, s) && WellFormedSource(s) && Bound(s, where)
    ensures multiset(rows)
         == multiset(if where.Some? then Selected(AllRows(db, s), where.value, 0) else AllRows(db, s))
    ensures forall row :: multiset(rows)[row] == Asked(db, s, where, row)
  {
    var p := Optimize(s, cat, where);
    OptimizedPlanIsWellPlanned(s, cat, where);
    WellPlannedIsExecutable(p, s, where, 0);
    FilteredAnswers(db, p, s, where, 0);
    var r := ExecutePlan(db, p, s, where, probing);
    rows := r.value;
    AskedIsAnswered(db, s, where, rows);
  }
}
