/** DELETE from plan to result: the candidates are read, filtered, and deleted. */
module DeleteExecution {
  import opened Values
  import opened Predicates
  import opened Plans
  import opened Routes
  import opened Store
  import opened Dml
  import opened Collections
  import opened Wrappers

  /** A DELETE keeps the identifiers that the indexes need: it may search the table by key only
      where there are no indexes. */
  function OptimizeDelete(c: Condition, meta: TableMeta, keyColumn: nat): Choice {
    ChooseAccess(c, c.column, keyColumn, meta, meta.indexes == [])
  }

  predicate RowHolds(row: Row, c: Condition) {
    c.column < |row| && Matches(row, c)
  }

  ghost predicate Describes(meta: TableMeta, t: Table) {
    && |meta.indexes| == |t.columns|
    && forall k | 0 <= k < |t.columns| :: meta.indexes[k].column == t.columns[k]
  }

  /** The candidates are the rows at the identifiers `chosen`, each once; `at` says which is where. */
  ghost predicate Collected(rows: map<Rid, Row>, cs: seq<Candidate>, at: seq<Rid>, chosen: set<Rid>) {
    && |at| == |cs| && Lists(at, chosen)
    && (forall i | 0 <= i < |cs| :: LiveAt(rows, cs[i], at[i]))
  }

  /** Candidates read by identifier. */
  method ReadByRid(t: Table, rids: seq<Rid>, ghost chosen: set<Rid>) returns (cs: seq<Candidate>)
    requires Lists(rids, chosen) && chosen <= t.rows.Keys
    ensures Collected(t.rows, cs, rids, chosen)
    ensures forall i | 0 <= i < |cs| :: cs[i].rid.Some?
  {
    cs := [];
    for n := 0 to |rids|
      invariant |cs| == n
      invariant forall i | 0 <= i < n :: rids[i] in t.rows && cs[i] == Candidate(Some(rids[i]), t.rows[rids[i]])
    {
      assert rids[n] in rids;
      cs := cs + [Candidate(Some(rids[n]), t.rows[rids[n]])];
    }
  }

  /** Candidates read by key range, without identifiers. */
  method ReadByKey(t: Table, lower: Value, upper: Value) returns (cs: seq<Candidate>, ghost at: seq<Rid>)
    requires t.Valid()
    ensures Collected(t.rows, cs, at, set r | r in t.rows && Enclosed(t.rows[r][t.keyColumn], lower, upper))
  {
    var found;
    found, at := t.RangeSearch(lower, upper);
    cs := [];
    for n := 0 to |found|
      invariant |cs| == n && forall i | 0 <= i < n :: cs[i] == Candidate(None, found[i])
    {
      cs := cs + [Candidate(None, found[n])];
    }
  }

  /** The rows among `chosen` that satisfy the predicate. */
  ghost function Holding(rows: map<Rid, Row>, chosen: set<Rid>, c: Condition): set<Rid> {
    set r | r in chosen && r in rows && RowHolds(rows[r], c)
  }

  lemma OneMoreKept(rows: map<Rid, Row>, cs: seq<Candidate>, at: seq<Rid>, chosen: set<Rid>, n: nat, c: Condition,
                    kept: seq<Candidate>, there: seq<Rid>)
    requires Collected(rows, cs, at, chosen) && n < |cs|
    requires Collected(rows, kept, there, Holding(rows, set i | 0 <= i < n :: at[i], c))
    ensures RowHolds(cs[n].record, c) ==>
              Collected(rows, kept + [cs[n]], there + [at[n]], Holding(rows, set i | 0 <= i < n + 1 :: at[i], c))
    ensures !RowHolds(cs[n].record, c) ==>
              Collected(rows, kept, there, Holding(rows, set i | 0 <= i < n + 1 :: at[i], c))
  {
    var r := at[n];
    var before, after := set i | 0 <= i < n :: at[i], set i | 0 <= i < n + 1 :: at[i];
    OneMoreListed(at, n);
    assert LiveAt(rows, cs[n], r);
    assert Holding(rows, after, c) == Holding(rows, before, c) + (if RowHolds(cs[n].record, c) then {r} else {});
    assert r !in there;
  }

  lemma OneMoreListed<T>(at: seq<T>, n: nat)
    requires n < |at| && forall i, j | 0 <= i < j < |at| :: at[i] != at[j]
    ensures var before := set i | 0 <= i < n :: at[i];
      && at[n] !in before && (set i | 0 <= i < n + 1 :: at[i]) == before + {at[n]}
  {
  }

  /** Filtering candidates keeps those that satisfy the predicate. */
  method FilterCandidates(t: Table, cs: seq<Candidate>, c: Condition, ghost at: seq<Rid>, ghost chosen: set<Rid>)
    returns (kept: seq<Candidate>, ghost there: seq<Rid>)
    requires Collected(t.rows, cs, at, chosen)
    ensures Collected(t.rows, kept, there, Holding(t.rows, chosen, c))
    ensures forall i | 0 <= i < |kept| :: kept[i] in cs
  {
    kept, there := [], [];
    for n := 0 to |cs|
      invariant Collected(t.rows, kept, there, Holding(t.rows, set i | 0 <= i < n :: at[i], c))
      invariant forall i | 0 <= i < |kept| :: kept[i] in cs
    {
      OneMoreKept(t.rows, cs, at, chosen, n, c, kept, there);
      if RowHolds(cs[n].record, c) {
        kept, there := kept + [cs[n]], there + [at[n]];
      }
    }
    assert chosen == set i | 0 <= i < |cs| :: at[i];
  }

  /* ---------------------------------------------------------------- candidates of a plan */

  /** The plan finds all candidates, and what it brings besides is filtered. */
  ghost predicate Fits(t: Table, meta: TableMeta, c: Condition, choice: Choice) {
    && Describes(meta, t)
    && RouteFits(c, c.column, t.keyColumn, meta.indexes, choice.route, choice.residual)
    && (choice.route.TableSearch? || choice.route.TableRange? ==> t.columns == [])
  }

  lemma OptimizedDeleteFits(t: Table, meta: TableMeta, c: Condition)
    requires Describes(meta, t)
    ensures Fits(t, meta, c, OptimizeDelete(c, meta, t.keyColumn))
  {
  }

  /** The route is the right one, by the table itself only where there are no indexes. */
  lemma DeleteRouteIsRight(c: Condition, meta: TableMeta, keyColumn: nat)
    ensures var choice := OptimizeDelete(c, meta, keyColumn);
      RightRoute(choice.route, choice.residual, c, c.column, keyColumn, meta, meta.indexes == [])
  {
    RouteIsRight(c, c.column, keyColumn, meta, meta.indexes == []);
  }

  /** The rows are of the types of their columns, and the predicate is on one of these. */
  ghost predicate WellTyped(rows: map<Rid, Row>, types: seq<SqlType>, c: Condition) {
    && (forall r | r in rows :: TypedRow(rows[r], types))
    && c.column < |types| && Typed(c) && c.columnType == types[c.column]
  }

  /** The identifiers a range of a column selects. */
  ghost function InColumn(rows: map<Rid, Row>, column: nat, lower: Value, upper: Value): set<Rid> {
    set r | r in rows && column < |rows[r]| && Enclosed(rows[r][column], lower, upper)
  }

  /** The ends of the range a condition reads: an equality search has equal ends. */
  function Ends(c: Condition): (Value, Value) {
    if EqualityKey(c).Ok? then (EqualityKey(c).value, EqualityKey(c).value)
    else if RangeValues(c).Ok? then RangeValues(c).value
    else (c.value, c.value)
  }

  lemma EndsCover(rows: map<Rid, Row>, types: seq<SqlType>, c: Condition)
    requires WellTyped(rows, types, c)
    ensures var read := InColumn(rows, c.column, Ends(c).0, Ends(c).1);
      && Holding(rows, rows.Keys, c) <= read
      && (!Strict(c) ==> read == Holding(rows, rows.Keys, c))
  {
    forall r | r in rows
      ensures RowHolds(rows[r], c) ==> Enclosed(rows[r][c.column], Ends(c).0, Ends(c).1)
      ensures !Strict(c) ==> (Enclosed(rows[r][c.column], Ends(c).0, Ends(c).1) <==> RowHolds(rows[r], c))
    {
      var v := rows[r][c.column];
      if EqualityKey(c).Ok? {
        EqualityCaptures(v, c);
        BoundsEncloseTheDomain(v, c.columnType);
        EqualEnds(v, c.value);
      } else {
        RangeCaptures(v, c);
      }
    }
  }

  /** An exact index pairs no identifier with two keys, so a search lists no identifier twice. */
  lemma IndexListsRowsOnce(t: Table, k: nat, lower: Value, upper: Value, found: seq<Rid>, pairs: seq<Entry>)
    requires t.Valid() && t.Exact() && k < |t.columns|
    requires Lists(pairs, set e | e in t.entries[k] && Enclosed(e.0, lower, upper))
    requires |found| == |pairs| && forall i | 0 <= i < |pairs| :: found[i] == pairs[i].1
    ensures Lists(found, InColumn(t.rows, t.columns[k], lower, upper))
  {
    forall i | 0 <= i < |pairs|
      ensures found[i] in t.rows && pairs[i] == (t.rows[found[i]][t.columns[k]], found[i])
      ensures Enclosed(pairs[i].0, lower, upper)
    {
      assert pairs[i] in pairs;
    }
    forall r | r in InColumn(t.rows, t.columns[k], lower, upper)
      ensures r in found
    {
      var pair := (t.rows[r][t.columns[k]], r);
      assert pair in t.entries[k] && pair in pairs;
      var i :| 0 <= i < |pairs| && pairs[i] == pair;
      assert found[i] == r;
    }
  }

  /* ---------------------------------------------------------------- the statement */

  /** The route names an index that exists. */
  predicate RouteExists(meta: TableMeta, route: Route) {
    (route.IndexSearch? || route.IndexRange?) ==> route.index < |meta.indexes|
  }

  /** The column whose values a route looks up. */
  function ColumnRead(t: Table, meta: TableMeta, route: Route): nat
    requires RouteExists(meta, route)
  {
    if route.IndexSearch? || route.IndexRange? then meta.indexes[route.index].column else t.keyColumn
  }

  /** The rows a route brings, before any filter. */
  ghost function Brought(t: Table, meta: TableMeta, c: Condition, route: Route): set<Rid>
    requires RouteExists(meta, route)
    reads t
  {
    if route.Scan? then t.rows.Keys else InColumn(t.rows, ColumnRead(t, meta, route), Ends(c).0, Ends(c).1)
  }

  /** The ends of the range a route looks up, or why the condition has none. */
  function EndsFor(c: Condition, meta: TableMeta, route: Route): (ends: Result<(Value, Value)>)
    requires RouteExists(meta, route)
    ensures ends.Ok? ==> ends.value == Ends(c)
    ensures RouteFits(c, ColumnOf(route, meta), 0, meta.indexes, route, true) ==> ends.Ok?
  {
    match route
    case Scan => Ok(Ends(c))
    case TableSearch | IndexSearch(_) =>
      var key := EqualityKey(c);
      if key.Err? then Err(key.error) else Ok((key.value, key.value))
    case TableRange => RangeValues(c)
    case IndexRange(k) => if meta.indexes[k].kind != BPlusUnclustered then Err(RangeUnsupported) else RangeValues(c)
  }

  function ColumnOf(route: Route, meta: TableMeta): nat
    requires RouteExists(meta, route)
  {
    if route.IndexSearch? || route.IndexRange? then meta.indexes[route.index].column else 0
  }

  method ReadCandidates(t: Table, meta: TableMeta, c: Condition, route: Route)
    returns (r: Result<seq<Candidate>>, ghost at: seq<Rid>)
    requires t.Valid() && t.Exact() && Describes(meta, t) && RouteExists(meta, route)
    ensures r.Ok? ==> Collected(t.rows, r.value, at, Brought(t, meta, c, route))
    ensures r.Ok? && !route.TableSearch? && !route.TableRange? ==> forall i | 0 <= i < |r.value| :: r.value[i].rid.Some?
    ensures r.Ok? <==> EndsFor(c, meta, route).Ok?
  {
    var ends := EndsFor(c, meta, route);
    if ends.Err? {
      at := [];
      return Err(ends.error), at;
    }
    var (lower, upper) := ends.value;
    var cs;
    if route.TableSearch? || route.TableRange? {
      cs, at := ReadByKey(t, lower, upper);
      assert Brought(t, meta, c, route) == set r | r in t.rows && Enclosed(t.rows[r][t.keyColumn], lower, upper);
    } else {
      var rids;
      if route.Scan? {
        rids := t.ScanWithRids();
      } else {
        ghost var pairs;
        rids, pairs := t.IndexSearch(route.index, lower, upper);
        IndexListsRowsOnce(t, route.index, lower, upper, rids, pairs);
      }
      cs := ReadByRid(t, rids, Brought(t, meta, c, route));
      at := rids;
    }
    r := Ok(cs);
  }

  /** Under a plan that fits, the candidates are exactly the rows that satisfy the predicate. */
  method CollectCandidates(t: Table, meta: TableMeta, c: Condition, choice: Choice, ghost types: seq<SqlType>)
    returns (r: Result<seq<Candidate>>, ghost at: seq<Rid>)
    requires t.Valid() && t.Exact() && Describes(meta, t) && RouteExists(meta, choice.route)
    requires WellTyped(t.rows, types, c)
    ensures Fits(t, meta, c, choice) ==>
              && r.Ok? && Collected(t.rows, r.value, at, Holding(t.rows, t.rows.Keys, c))
              && (t.columns != [] ==> forall i | 0 <= i < |r.value| :: r.value[i].rid.Some?)
    ensures r.Ok? ==> exists chosen :: chosen <= t.rows.Keys && Collected(t.rows, r.value, at, chosen)
    ensures Fits(t, meta, c, choice) ==> r.Ok? && |r.value| == |Holding(t.rows, t.rows.Keys, c)|
  {
    at := [];
    if choice.route.Scan? && !choice.residual {
      return Err(ScanNeedsFilter), at;
    }
    r, at := ReadCandidates(t, meta, c, choice.route);
    if r.Err? {
      return;
    }
    ghost var brought := Brought(t, meta, c, choice.route);
    BroughtEnough(t, meta, c, choice, types);
    if choice.route.Scan? || choice.residual {
      var kept, there := FilterCandidates(t, r.value, c, at, brought);
      r, at := Ok(kept), there;
    }
    if Fits(t, meta, c, choice) {
      ListedOnce(at, Holding(t.rows, t.rows.Keys, c));
    }
  }

  lemma BroughtEnough(t: Table, meta: TableMeta, c: Condition, choice: Choice, types: seq<SqlType>)
    requires t.Valid() && Describes(meta, t) && RouteExists(meta, choice.route) && WellTyped(t.rows, types, c)
    ensures var brought := Brought(t, meta, c, choice.route);
      && brought <= t.rows.Keys
      && (Fits(t, meta, c, choice) ==>
            && Holding(t.rows, brought, c) == Holding(t.rows, t.rows.Keys, c)
            && (!choice.route.Scan? && !choice.residual ==> brought == Holding(t.rows, t.rows.Keys, c)))
  {
    EndsCover(t.rows, types, c);
  }

  /** The rows that do not satisfy the predicate, where they are. */
  ghost function NotHolding(rows: map<Rid, Row>, c: Condition): map<Rid, Row> {
    map r | r in rows && !RowHolds(rows[r], c) :: rows[r]
  }

  lemma CollectedAreLive(rows: map<Rid, Row>, cs: seq<Candidate>, at: seq<Rid>, chosen: set<Rid>)
    requires Collected(rows, cs, at, chosen)
    ensures Live(rows, cs) && Stored(rows, cs)
  {
    LiveIsStored(rows, cs);
  }

  lemma CollectedAreAcceptable(rows: map<Rid, Row>, cs: seq<Candidate>, at: seq<Rid>, chosen: set<Rid>, keyColumn: nat,
                               columns: seq<nat>, width: nat)
    requires Collected(rows, cs, at, chosen) && UniqueKeys(rows, keyColumn) && keyColumn < width
    requires forall r | r in rows :: |rows[r]| == width
    requires forall k | 0 <= k < |columns| :: columns[k] < width
    requires columns != [] ==> forall i | 0 <= i < |cs| :: cs[i].rid.Some?
    ensures Acceptable(cs, keyColumn, columns)
  {
  }

  /** Candidates that are all there, each once, are accepted, and removing them by key removes
      exactly their rows. */
  lemma CollectedIsDeletable(rows: map<Rid, Row>, cs: seq<Candidate>, at: seq<Rid>, chosen: set<Rid>, keyColumn: nat)
    requires Collected(rows, cs, at, chosen) && UniqueKeys(rows, keyColumn)
    requires forall r | r in rows :: keyColumn < |rows[r]|
    ensures Without(rows, keyColumn, KeysOf(cs, keyColumn)) == rows - chosen
    ensures |cs| == |chosen|
  {
    assert forall i | 0 <= i < |cs| :: LiveAt(rows, cs[i], at[i]);
    forall r | r in rows
      ensures r in chosen <==> rows[r][keyColumn] in KeysOf(cs, keyColumn)
    {
      if r in chosen {
        assert r in at;
        var i :| 0 <= i < |at| && at[i] == r;
        assert LiveAt(rows, cs[i], r);
      }
    }
    ListedOnce(at, chosen);
  }

  /** The rows that satisfy the predicate are accepted, and removing them by key leaves the others. */
  lemma HoldingIsDeletable(t: Table, c: Condition, cs: seq<Candidate>, at: seq<Rid>)
    requires t.Valid() && Collected(t.rows, cs, at, Holding(t.rows, t.rows.Keys, c))
    requires t.columns != [] ==> forall i | 0 <= i < |cs| :: cs[i].rid.Some?
    ensures Acceptable(cs, t.keyColumn, t.columns) && |cs| == |Holding(t.rows, t.rows.Keys, c)|
    ensures Without(t.rows, t.keyColumn, KeysOf(cs, t.keyColumn)) == NotHolding(t.rows, c)
  {
    var chosen := Holding(t.rows, t.rows.Keys, c);
    CollectedAreAcceptable(t.rows, cs, at, chosen, t.keyColumn, t.columns, t.width);
    CollectedIsDeletable(t.rows, cs, at, chosen, t.keyColumn);
    assert t.rows - chosen == NotHolding(t.rows, c);
  }

  /** DELETE under a plan that fits: it succeeds exactly when nothing fails, and then exactly the rows
      that satisfy the predicate are gone and every index is right; when one step fails and nothing
      else, the table holds the records it held. Under any other plan it may at worst delete the
      wrong rows. */
  method ExecuteDelete(t: Table, meta: TableMeta, c: Condition, choice: Choice, ghost types: seq<SqlType>)
    returns (r: Result<DeleteResult>)
    requires t.Valid() && t.Exact() && Describes(meta, t) && RouteExists(meta, choice.route)
    requires WellTyped(t.rows, types, c)
    modifies t
    ensures t.Valid() && t.NothingDangles() && old(t.faults) <= t.faults
    ensures Fits(t, meta, c, choice) ==> r.Ok? && !r.value.Rejected? && (r.value.Deleted? <==> t.faults == old(t.faults))
    ensures r.Err? || r.value.Rejected? ==> t.rows == old(t.rows) && t.entries == old(t.entries)
    ensures Fits(t, meta, c, choice) && r.value.Deleted? ==>
              && t.rows == NotHolding(old(t.rows), c)
              && r.value.count == |Holding(old(t.rows), old(t.rows).Keys, c)|
    ensures Fits(t, meta, c, choice) && r.value.Aborted? ==>
              forall q | q in NotHolding(old(t.rows), c) :: q in t.rows && t.rows[q] == old(t.rows)[q]
    ensures r.Ok? && r.value.Deleted? ==> t.Exact()
    ensures r.Ok? && r.value.Aborted? && t.faults == old(t.faults) + 1 ==> t.Exact() && Records(t.rows) == Records(old(t.rows))
  {
    var candidates, at := CollectCandidates(t, meta, c, choice, types);
    if candidates.Err? {
      return Err(candidates.error);
    }
    ghost var chosen :| chosen <= t.rows.Keys && Collected(t.rows, candidates.value, at, chosen);
    CollectedAreLive(t.rows, candidates.value, at, chosen);
    if Fits(t, meta, c, choice) {
      HoldingIsDeletable(t, c, candidates.value, at);
    }
    var deletion := DeleteWithIndexes(t, candidates.value);
    r := Ok(deletion);
  }
}
