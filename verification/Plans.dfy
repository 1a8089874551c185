/** Logical sources, physical plans, and the optimizer that chooses one for the other. */
module Plans {
  import opened Utf8
  import opened Values
  import opened Predicates
  import opened Wrappers

  type Name = seq<Scalar>

  /* ---------------------------------------------------------------- catalogue */

  datatype IndexKind = BPlusUnclustered | ExtendibleHashIndex | OtherKind

  datatype Index = Index(name: Name, column: nat, kind: IndexKind)

  datatype Structure = Heap | Sequential | BPlusClustered

  datatype TableMeta = TableMeta(structure: Structure, indexes: seq<Index>)

  /* ---------------------------------------------------------------- sources and plans */

  /** The FROM clause; the columns of a join condition are positions in their own side. */
  datatype Source =
    | TableRef(table: Name, types: seq<SqlType>, keyColumn: nat)
    | JoinRef(left: Source, right: Source, leftColumn: nat, rightColumn: nat)

  datatype Route =
    | Scan
    | TableSearch
    | TableRange
    | IndexSearch(index: nat)
    | IndexRange(index: nat)

  datatype Strategy = Auto | Hash

  datatype Physical =
    | Access(meta: TableMeta, route: Route, residual: bool)
    | Join(left: Physical, right: Physical, leftColumn: nat, rightColumn: nat,
           strategy: Strategy, probe: Option<nat>, onPrimaryKey: bool, residual: bool)

  function Types(s: Source): seq<SqlType> {
    match s
    case TableRef(_, types, _) => types
    case JoinRef(left, right, _, _) => Types(left) + Types(right)
  }

  function Width(s: Source): nat {
    |Types(s)|
  }

  /** Column positions that exist. */
  predicate WellFormedSource(s: Source) {
    match s
    case TableRef(_, types, keyColumn) => keyColumn < |types|
    case JoinRef(left, right, leftColumn, rightColumn) =>
      && WellFormedSource(left) && WellFormedSource(right)
      && leftColumn < Width(left) && rightColumn < Width(right)
  }

  /* ---------------------------------------------------------------- choosing an index */

  function Rank(kind: IndexKind): nat {
    if kind == ExtendibleHashIndex then 0 else 1
  }

  /** Hash indexes come first, then the smaller name. */
  predicate Before(a: Index, b: Index) {
    Rank(a.kind) < Rank(b.kind) || (Rank(a.kind) == Rank(b.kind) && !LexLe(b.name, a.name))
  }

  predicate Applicable(ix: Index, column: int, forRange: bool, allowHash: bool) {
    && ix.column == column
    && (ix.kind == BPlusUnclustered || (ix.kind == ExtendibleHashIndex && !forRange && allowHash))
  }

  function BestIndex(indexes: seq<Index>, column: int, forRange: bool, allowHash: bool): (best: Option<nat>)
    ensures best.Some? ==>
              && best.value < |indexes| && Applicable(indexes[best.value], column, forRange, allowHash)
              && forall j | 0 <= j < |indexes| && Applicable(indexes[j], column, forRange, allowHash) ::
                   !Before(indexes[j], indexes[best.value])
    ensures best.None? ==> forall j | 0 <= j < |indexes| :: !Applicable(indexes[j], column, forRange, allowHash)
  {
    if indexes == [] then None
    else
      var n := |indexes| - 1;
      var best := BestIndex(indexes[..n], column, forRange, allowHash);
      assert forall j | 0 <= j < n :: indexes[..n][j] == indexes[j];
      if !Applicable(indexes[n], column, forRange, allowHash) then best
      else if best.None? then
        LexTotal(indexes[n].name, indexes[n].name);
        Some(n)
      else if Before(indexes[n], indexes[best.value]) then
        BeforeIsAnOrder(indexes, n, best.value);
        Some(n)
      else best
  }

  lemma BeforeIsAnOrder(indexes: seq<Index>, n: nat, best: nat)
    requires n < |indexes| && best < |indexes| && Before(indexes[n], indexes[best])
    ensures !Before(indexes[n], indexes[n])
    ensures forall j | 0 <= j < |indexes| && !Before(indexes[j], indexes[best]) :: !Before(indexes[j], indexes[n])
  {
    LexTotal(indexes[n].name, indexes[n].name);
    forall j | 0 <= j < |indexes| && !Before(indexes[j], indexes[best])
      ensures !Before(indexes[j], indexes[n])
    {
      LexTotal(indexes[n].name, indexes[best].name);
      LexTotal(indexes[j].name, indexes[n].name);
      if LexLe(indexes[j].name, indexes[n].name) && LexLe(indexes[n].name, indexes[best].name) {
        LexTransitive(indexes[j].name, indexes[n].name, indexes[best].name);
        LexTotal(indexes[j].name, indexes[best].name);
      }
    }
  }

  /* ---------------------------------------------------------------- choosing a route */

  datatype Choice = Choice(route: Route, residual: bool)

  predicate IndexBeatsTable(table: TableMeta, index: Option<nat>) {
    index.Some? && table.structure == Heap
  }

  /** Texts that a hash index cannot look up: with a null character, or longer than the column. */
  predicate HashAllowed(c: Condition)
    requires c.Comparison?
  {
    !(c.value.TextValue?
      && (0 in c.value.s || (c.columnType.VarcharType? && c.columnType.length < |Encode(c.value.s)|)))
  }

  function PlanEquality(c: Condition, table: TableMeta, column: int, usePrimary: bool): Choice
    requires c.Comparison?
  {
    var index := BestIndex(table.indexes, column, false, HashAllowed(c));
    if usePrimary && !IndexBeatsTable(table, index) then Choice(TableSearch, false)
    else if index.Some? then Choice(IndexSearch(index.value), false)
    else Choice(Scan, true)
  }

  function PlanRange(table: TableMeta, column: int, usePrimary: bool, strict: bool): Choice {
    var index := BestIndex(table.indexes, column, true, true);
    if usePrimary && !IndexBeatsTable(table, index) then Choice(TableRange, strict)
    else if index.Some? then Choice(IndexRange(index.value), strict)
    else Choice(Scan, true)
  }

  /** `column` is the position inside the leaf. */
  function ChooseAccess(c: Condition, column: int, keyColumn: nat, table: TableMeta, primaryAllowed: bool): Choice {
    var usePrimary := column == keyColumn && primaryAllowed;
    match c
    case Between(_, _, _, _) => PlanRange(table, column, usePrimary, false)
    case Comparison(_, _, operator, _) =>
      if operator == Equal then PlanEquality(c, table, column, usePrimary)
      else PlanRange(table, column, usePrimary, Strict(c))
  }

  /** The route finds every matching row of the leaf, and what it brings besides is filtered. */
  predicate RouteFits(c: Condition, column: int, keyColumn: nat, indexes: seq<Index>, route: Route, residual: bool) {
    match route
    case Scan => residual
    case TableSearch => EqualityKey(c).Ok? && column == keyColumn
    case TableRange => RangeValues(c).Ok? && column == keyColumn && (Strict(c) ==> residual)
    case IndexSearch(k) => k < |indexes| && EqualityKey(c).Ok? && indexes[k].column == column
    case IndexRange(k) =>
      && k < |indexes| && RangeValues(c).Ok? && indexes[k].column == column
      && indexes[k].kind == BPlusUnclustered && (Strict(c) ==> residual)
  }

  lemma ChosenRouteFits(c: Condition, column: int, keyColumn: nat, table: TableMeta, primaryAllowed: bool)
    ensures var choice := ChooseAccess(c, column, keyColumn, table, primaryAllowed);
      && RouteFits(c, column, keyColumn, table.indexes, choice.route, choice.residual)
      && (choice.route.TableSearch? || choice.route.TableRange? ==> primaryAllowed)
      && (choice.route.Scan? || !choice.residual || Strict(c))
  {
  }

  /* ---------------------------------------------------------------- choosing a plan */

  /** Where the leaf that owns a column of the output schema starts. */
  function OwnerOf(s: Source, column: nat, offset: nat): (start: Option<nat>)
    decreases s
  {
    match s
    case TableRef(_, types, _) => if offset <= column < offset + |types| then Some(offset) else None
    case JoinRef(left, right, _, _) =>
      var inLeft := OwnerOf(left, column, offset);
      if inLeft.Some? then inLeft else OwnerOf(right, column, offset + Width(left))
  }

  lemma {:induction false} OwnerFound(s: Source, column: nat, offset: nat)
    ensures OwnerOf(s, column, offset).Some? <==> offset <= column < offset + Width(s)
    ensures OwnerOf(s, column, offset).Some? ==> offset <= OwnerOf(s, column, offset).value <= column
  {
    match s
    case TableRef(_, _, _) =>
    case JoinRef(left, right, _, _) =>
      OwnerFound(left, column, offset);
      OwnerFound(right, column, offset + Width(left));
  }

  type Catalogue = map<Name, TableMeta>

  predicate Covers(cat: Catalogue, s: Source) {
    match s
    case TableRef(table, _, _) => table in cat
    case JoinRef(left, right, _, _) => Covers(cat, left) && Covers(cat, right)
  }

  /** A leaf can be probed only where it is read whole: the probe looks at the table itself, not at
      the rows the leaf let through. */
  function ChooseProbe(s: Source, right: Physical): (probe: (Option<nat>, bool))
    requires s.JoinRef?
    ensures probe.0.Some? || probe.1 ==> right.Access? && right.route.Scan? && !right.residual
  {
    if !right.Access? || !right.route.Scan? || right.residual || !s.right.TableRef? then (None, false)
    else if s.rightColumn == s.right.keyColumn && right.meta.structure != Heap then (None, true)
    else (BestIndex(right.meta.indexes, s.rightColumn, false, true), false)
  }

  function OptimizeSource(s: Source, cat: Catalogue, where: Option<Condition>, owner: Option<nat>, offset: nat): Physical
    requires Covers(cat, s)
    decreases s
  {
    match s
    case TableRef(table, types, keyColumn) =>
      if where.None? || owner != Some(offset) || types == [] then
        Access(cat[table], Scan, false)
      else
        var choice := ChooseAccess(where.value, where.value.column - offset, keyColumn, cat[table], true);
        Access(cat[table], choice.route, choice.residual)
    case JoinRef(left, right, leftColumn, rightColumn) =>
      JoinOf(s, OptimizeSource(left, cat, where, owner, offset), OptimizeSource(right, cat, where, owner, offset + Width(left)),
             where.Some? && owner.None?)
  }

  /** The join of two planned sides. */
  function JoinOf(s: Source, left: Physical, right: Physical, residual: bool): Physical
    requires s.JoinRef?
  {
    var (probe, onPrimaryKey) := ChooseProbe(s, right);
    Join(left, right, s.leftColumn, s.rightColumn, if probe.Some? || onPrimaryKey then Auto else Hash,
         probe, onPrimaryKey, residual)
  }

  function Optimize(s: Source, cat: Catalogue, where: Option<Condition>): Physical
    requires Covers(cat, s)
  {
    OptimizeSource(s, cat, where, if where.None? then None else OwnerOf(s, where.value.column, 0), 0)
  }

  /* ---------------------------------------------------------------- what makes a plan right */

  /** Does some node of the plan take care of the predicate? */
  predicate Consumes(p: Physical) {
    match p
    case Access(_, route, residual) => !route.Scan? || residual
    case Join(left, right, _, _, _, _, _, residual) => residual || Consumes(left) || Consumes(right)
  }

  /** The predicate's column lies in the columns of this node, which start at `offset`. */
  predicate Spans(s: Source, where: Option<Condition>, offset: nat) {
    && where.Some? && offset <= where.value.column < offset + Width(s)
    && Typed(where.value) && where.value.columnType == Types(s)[where.value.column - offset]
  }

  /** Every node that takes care of the predicate spans its column and does so by a route that
      fits, and a table is probed only where its leaf is read whole. */
  predicate WellPlanned(p: Physical, s: Source, where: Option<Condition>, offset: nat)
    decreases p
  {
    match p
    case Access(meta, route, residual) =>
      && s.TableRef? && s.keyColumn < |s.types|
      && (Consumes(p) ==>
            && Spans(s, where, offset)
            && RouteFits(where.value, where.value.column - offset, s.keyColumn, meta.indexes, route, residual))
    case Join(left, right, leftColumn, rightColumn, strategy, probe, onPrimaryKey, residual) =>
      && s.JoinRef? && s.leftColumn == leftColumn && s.rightColumn == rightColumn
      && leftColumn < Width(s.left) && rightColumn < Width(s.right)
      && WellPlanned(left, s.left, where, offset)
      && WellPlanned(right, s.right, where, offset + Width(s.left))
      && (strategy.Auto? ==> right.Access? && !Consumes(right) && ProbeFits(s, right, probe, onPrimaryKey))
      && (residual ==> Spans(s, where, offset))
  }

  /** The column of the right table that a probe looks up: that of the index, or the primary key, which
      a heap cannot look up. */
  function ProbedColumn(s: Source, right: Physical, probe: Option<nat>): (column: Option<nat>)
    requires s.JoinRef? && s.right.TableRef? && right.Access?
  {
    match probe
    case Some(k) => if k < |right.meta.indexes| then Some(right.meta.indexes[k].column) else None
    case None => if right.meta.structure == Heap then None else Some(s.right.keyColumn)
  }

  /** The probe looks rows up by the join column. */
  predicate ProbeFits(s: Source, right: Physical, probe: Option<nat>, onPrimaryKey: bool)
    requires s.JoinRef? && right.Access?
  {
    s.right.TableRef? && ProbedColumn(s, right, probe) == Some(s.rightColumn) && (probe.None? ==> onPrimaryKey)
  }

  /** A predicate the binder accepts: on a column of the source, of that column's type. */
  predicate Bound(s: Source, where: Option<Condition>) {
    where.Some? ==> Spans(s, where, 0)
  }

  /** The owner is the leaf with the predicate's column, inside this node or somewhere else. */
  predicate OwnerIsRight(s: Source, where: Option<Condition>, owner: Option<nat>, offset: nat) {
    where.Some? ==>
      && owner.Some?
      && (if offset <= where.value.column < offset + Width(s)
          then owner == OwnerOf(s, where.value.column, offset) && Spans(s, where, offset)
          else owner.value < offset || offset + Width(s) <= owner.value)
  }

  lemma OwnerBelow(s: Source, where: Option<Condition>, owner: Option<nat>, offset: nat)
    requires s.JoinRef? && OwnerIsRight(s, where, owner, offset)
    ensures OwnerIsRight(s.left, where, owner, offset)
    ensures OwnerIsRight(s.right, where, owner, offset + Width(s.left))
  {
    if where.Some? {
      OwnerFound(s.left, where.value.column, offset);
      OwnerFound(s.right, where.value.column, offset + Width(s.left));
    }
  }

  lemma LeafIsWellPlanned(s: Source, cat: Catalogue, where: Option<Condition>, owner: Option<nat>, offset: nat)
    requires s.TableRef? && Covers(cat, s) && WellFormedSource(s) && OwnerIsRight(s, where, owner, offset)
    ensures var p := OptimizeSource(s, cat, where, owner, offset);
      && WellPlanned(p, s, where, offset)
      && (Consumes(p) <==> where.Some? && offset <= where.value.column < offset + Width(s))
  {
    if where.Some? && owner == Some(offset) && s.types != [] {
      ChosenRouteFits(where.value, where.value.column - offset, s.keyColumn, cat[s.table], true);
    }
  }

  /** A join of two right plans is right, if nobody has to filter above it. */
  lemma JoinIsWellPlanned(s: Source, left: Physical, right: Physical, where: Option<Condition>, offset: nat, start: nat)
    requires s.JoinRef? && WellFormedSource(s) && start == offset + Width(s.left)
    requires WellPlanned(left, s.left, where, offset) && WellPlanned(right, s.right, where, start)
    ensures WellPlanned(JoinOf(s, left, right, false), s, where, offset)
    ensures Consumes(JoinOf(s, left, right, false)) <==> Consumes(left) || Consumes(right)
  {
  }

  lemma {:induction false} OptimizedSourceIsWellPlanned(s: Source, cat: Catalogue, where: Option<Condition>, owner: Option<nat>, offset: nat)
    requires Covers(cat, s) && WellFormedSource(s) && OwnerIsRight(s, where, owner, offset)
    ensures var p := OptimizeSource(s, cat, where, owner, offset);
      && WellPlanned(p, s, where, offset)
      && (Consumes(p) <==> where.Some? && offset <= where.value.column < offset + Width(s))
    decreases s
  {
    match s
    case TableRef(_, _, _) => LeafIsWellPlanned(s, cat, where, owner, offset);
    case JoinRef(left, right, _, _) =>
      OwnerBelow(s, where, owner, offset);
      var start := offset + Width(left);
      OptimizedSourceIsWellPlanned(left, cat, where, owner, offset);
      OptimizedSourceIsWellPlanned(right, cat, where, owner, start);
      JoinIsWellPlanned(s, OptimizeSource(left, cat, where, owner, offset), OptimizeSource(right, cat, where, owner, start),
                        where, offset, start);
  }

  /** The optimizer's plans are right for every source and every predicate the binder accepts, and
      take care of the predicate exactly when there is one. */
  lemma OptimizedPlanIsWellPlanned(s: Source, cat: Catalogue, where: Option<Condition>)
    requires Covers(cat, s) && WellFormedSource(s) && Bound(s, where)
    ensures WellPlanned(Optimize(s, cat, where), s, where, 0)
    ensures Consumes(Optimize(s, cat, where)) <==> where.Some?
  {
    if where.Some? {
      OwnerFound(s, where.value.column, 0);
    }
    var owner := if where.None? then None else OwnerOf(s, where.value.column, 0);
    OptimizedSourceIsWellPlanned(s, cat, where, owner, 0);
  }
}
