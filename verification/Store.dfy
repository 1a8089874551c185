/** A heap table with its secondary indexes, as the native core offers them: each operation may
    fail, and row identifiers are handed out freely, those of removed rows included. */
module Store {
  import opened Values
  import opened Collections
  import opened Wrappers

  datatype Rid = Rid(page: nat, slot: nat)

  type Entry = (Value, Rid)

  /** No two rows have the same primary key. */
  ghost predicate UniqueKeys(rows: map<Rid, Row>, keyColumn: nat) {
    forall r, s | r in rows && s in rows && keyColumn < |rows[r]| && keyColumn < |rows[s]|
                  && rows[r][keyColumn] == rows[s][keyColumn] :: r == s
  }

  /** The pairs an index on `column` has to hold. */
  ghost function IndexOf(rows: map<Rid, Row>, column: nat): set<Entry> {
    set r | r in rows && column < |rows[r]| :: (rows[r][column], r)
  }

  /** The rows whose key is not among `keys`. */
  ghost function Without(rows: map<Rid, Row>, keyColumn: nat, keys: set<Value>): map<Rid, Row> {
    map r | r in rows && (keyColumn < |rows[r]| ==> rows[r][keyColumn] !in keys) :: rows[r]
  }

  /* ---------------------------------------------------------------- the records of a table */

  ghost function AnyOf<K, V>(m: map<K, V>): (k: K)
    requires m != map[]
    ensures k in m
  {
    var k :| k in m;
    k
  }

  /** The values of a map, as often as they occur: the records of a table, wherever they are. */
  ghost function Records<K, V>(m: map<K, V>): multiset<V>
    decreases |m|
  {
    if m == map[] then multiset{}
    else Records(m - {AnyOf(m)}) + multiset{m[AnyOf(m)]}
  }

  lemma SameEitherWay<V>(whole: multiset<V>, noP: multiset<V>, noK: multiset<V>, inner: multiset<V>, p: V, k: V)
    requires whole == noP + multiset{p} && noP == inner + multiset{k} && noK == inner + multiset{p}
    ensures whole == noK + multiset{k}
  {
  }

  lemma {:induction false} RecordsRemove<K, V>(m: map<K, V>, k: K)
    requires k in m
    ensures Records(m) == Records(m - {k}) + multiset{m[k]}
    decreases |m|
  {
    var p := AnyOf(m);
    if p != k {
      var noP, noK := m - {p}, m - {k};
      var inner := noP - {k};
      assert inner == noK - {p};
      assert |noP| < |m| && |noK| < |m|;
      RecordsRemove(noP, k);
      RecordsRemove(noK, p);
      assert noP[k] == m[k] && noK[p] == m[p];
      SameEitherWay(Records(m), Records(noP), Records(noK), Records(inner), m[p], m[k]);
    }
  }

  lemma RecordsInsert<K, V>(m: map<K, V>, k: K, v: V)
    requires k !in m
    ensures Records(m[k := v]) == Records(m) + multiset{v}
  {
    var more := m[k := v];
    RecordsRemove(more, k);
    assert more - {k} == m && more[k] == v;
  }

  /** There is always an identifier that is not in use, as far back as one likes. */
  lemma {:induction false} UnusedRid(rows: map<Rid, Row>, from: nat) returns (rid: Rid)
    ensures rid !in rows && from <= rid.page
  {
    var bound: nat := from;
    ghost var left := rows.Keys;
    while left != {}
      invariant left <= rows.Keys && from <= bound
      invariant forall r | r in rows && r !in left :: r.page < bound
      decreases left
    {
      var r :| r in left;
      bound := if bound <= r.page then r.page + 1 else bound;
      left := left - {r};
    }
    rid := Rid(bound, 0);
  }

  method ListAll<T(==, !new)>(all: set<T>) returns (found: seq<T>)
    ensures Lists(found, all)
  {
    found := [];
    var left := all;
    while left != {}
      invariant left <= all
      invariant forall x :: x in found <==> x in all && x !in left
      invariant Different(found)
      decreases left
    {
      var x :| x in left;
      found := found + [x];
      left := left - {x};
    }
  }

  class Table {
    const width: nat
    const keyColumn: nat
    /** The column of each secondary index. */
    const columns: seq<nat>
    var rows: map<Rid, Row>
    var entries: seq<set<Entry>>
    /** In a reliable table no call fails unless something is wrong with what it is given. */
    const reliable: bool
    /** How many calls so far failed although nothing they were given was wrong. */
    ghost var faults: nat

    ghost predicate Valid()
      reads this
    {
      && keyColumn < width
      && (forall k | 0 <= k < |columns| :: columns[k] < width)
      && |entries| == |columns|
      && (forall r | r in rows :: |rows[r]| == width)
      && UniqueKeys(rows, keyColumn)
    }

    /** Every index holds exactly the pairs of its column. */
    ghost predicate Exact()
      reads this
    {
      |entries| == |columns| && forall k | 0 <= k < |columns| :: entries[k] == IndexOf(rows, columns[k])
    }

    /** No index holds a pair that is not in the table. */
    ghost predicate NothingDangles()
      reads this
    {
      |entries| == |columns| && forall k | 0 <= k < |columns| :: entries[k] <= IndexOf(rows, columns[k])
    }

    /** The row has the right width and its key is new: there is no reason to refuse it. */
    ghost predicate Admits(row: Row)
      requires Valid()
      reads this
    {
      |row| == width && forall r | r in rows :: rows[r][keyColumn] != row[keyColumn]
    }

    constructor (width: nat, keyColumn: nat, columns: seq<nat>, reliable: bool)
      requires keyColumn < width && forall k | 0 <= k < |columns| :: columns[k] < width
      ensures Valid() && Exact() && rows == map[] && faults == 0
    {
      this.width, this.keyColumn, this.columns, this.reliable := width, keyColumn, columns, reliable;
      rows := map[];
      entries := seq(|columns|, _ => {});
      faults := 0;
    }

    /** Every row once, with its identifier, in an order of the table's choice. */
    method ScanWithRids() returns (found: seq<Rid>)
      ensures Lists(found, rows.Keys)
    {
      found := ListAll(rows.Keys);
    }

    /** The rows whose key lies between two values, in an order of the table's choice; `at` says
        where they are, which the table does not tell its caller. */
    method RangeSearch(lower: Value, upper: Value) returns (found: seq<Row>, ghost at: seq<Rid>)
      requires Valid()
      ensures Lists(at, set r | r in rows && Enclosed(rows[r][keyColumn], lower, upper))
      ensures |found| == |at| && forall i | 0 <= i < |at| :: at[i] in rows && found[i] == rows[at[i]]
    {
      var rids := ListAll(set r | r in rows && Enclosed(rows[r][keyColumn], lower, upper));
      at := rids;
      found := [];
      for n := 0 to |rids|
        invariant |found| == n && forall i | 0 <= i < n :: rids[i] in rows && found[i] == rows[rids[i]]
      {
        assert rids[n] in rids;
        found := found + [rows[rids[n]]];
      }
    }

    /** The identifiers an index pairs with keys between two values, one for each pair, in an order of
        the index's choice; `pairs` says which. An equality search has both ends equal. */
    method IndexSearch(k: nat, lower: Value, upper: Value) returns (found: seq<Rid>, ghost pairs: seq<Entry>)
      requires k < |entries|
      ensures Lists(pairs, set e | e in entries[k] && Enclosed(e.0, lower, upper))
      ensures |found| == |pairs| && forall i | 0 <= i < |pairs| :: found[i] == pairs[i].1
    {
      var listed := ListAll(set e | e in entries[k] && Enclosed(e.0, lower, upper));
      pairs := listed;
      found := [];
      for n := 0 to |listed|
        invariant |found| == n && forall i | 0 <= i < n :: found[i] == listed[i].1
      {
        found := found + [listed[n].1];
      }
    }

    /** Adds a row at an identifier of the table's choice, or fails without effect. A repeated key
        or a row of the wrong width always fails; failing on any other row is a fault. */
    method Insert(row: Row) returns (rid: Option<Rid>)
      requires Valid()
      modifies `rows, `faults
      ensures Valid()
      ensures reliable ==> faults == old(faults)
      ensures faults == old(faults) + (if rid.None? && old(Admits(row)) then 1 else 0)
      ensures rid.None? ==> rows == old(rows)
      ensures rid.Some? ==> old(Admits(row))
      ensures rid.Some? ==> rid.value !in old(rows) && rows == old(rows)[rid.value := row]
    {
      var fails: bool := *;
      if |row| != width || exists r | r in rows :: rows[r][keyColumn] == row[keyColumn] {
        return None;
      }
      if fails && !reliable {
        faults := faults + 1;
        return None;
      }
      ghost var unused := UnusedRid(rows, 0);
      var chosen: Rid :| chosen !in rows;
      rows := rows[chosen := row];
      return Some(chosen);
    }

    /** Removes the rows with the given key and says how many there were, or fails without effect. */
    method Remove(key: Value) returns (removed: Option<nat>)
      requires Valid()
      modifies `rows, `faults
      ensures Valid()
      ensures reliable ==> faults == old(faults)
      ensures faults == old(faults) + (if removed.None? then 1 else 0)
      ensures removed.None? ==> rows == old(rows)
      ensures removed.Some? ==> rows == Without(old(rows), keyColumn, {key})
      ensures removed.Some? ==> removed.value == |set r | r in old(rows) && old(rows)[r][keyColumn] == key|
    {
      var fails: bool := *;
      if fails && !reliable {
        faults := faults + 1;
        return None;
      }
      var gone := set r | r in rows && rows[r][keyColumn] == key;
      rows := map r | r in rows && rows[r][keyColumn] != key :: rows[r];
      return Some(|gone|);
    }

    /** Adds a pair to an index. A failure may strike before or after the pair is added. */
    method IndexInsert(k: nat, key: Value, rid: Rid) returns (ok: bool)
      requires k < |entries|
      modifies `entries, `faults
      ensures reliable ==> faults == old(faults)
      ensures faults == old(faults) + (if ok then 0 else 1)
      ensures |entries| == |old(entries)|
      ensures forall j | 0 <= j < |entries| && j != k :: entries[j] == old(entries)[j]
      ensures entries[k] == old(entries)[k] + {(key, rid)} || (!ok && entries[k] == old(entries)[k])
    {
      var before: bool := *;
      if !before || reliable {
        entries := entries[k := entries[k] + {(key, rid)}];
      }
      var after: bool := *;
      ok := reliable || (!before && !after);
      faults := faults + (if ok then 0 else 1);
    }

    /** Removes a pair and says whether it was there, or fails without effect. */
    method IndexRemoveOne(k: nat, key: Value, rid: Rid) returns (found: Option<bool>)
      requires k < |entries|
      modifies `entries, `faults
      ensures reliable ==> faults == old(faults)
      ensures faults == old(faults) + (if found.None? then 1 else 0)
      ensures found.None? ==> entries == old(entries)
      ensures found.Some? ==> found.value == ((key, rid) in old(entries)[k])
      ensures found.Some? ==> entries == old(entries)[k := old(entries)[k] - {(key, rid)}]
    {
      var fails: bool := *;
      if fails && !reliable {
        faults := faults + 1;
        return None;
      }
      found := Some((key, rid) in entries[k]);
      entries := entries[k := entries[k] - {(key, rid)}];
    }
  }
}
