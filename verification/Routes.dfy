/** Which route the optimizer chooses for a predicate, which probe for a join, and so which plan. */
module Routes {
  import opened Plans
  import opened Predicates
  import opened Utf8
  import opened Values
  import opened Wrappers

  predicate IsEquality(c: Condition) {
    c.Comparison? && c.operator == Equal
  }

  /** A hash index cannot look up a text with a null character, or one too long for the column. */
  predicate Unhashable(c: Condition) {
    && c.Comparison? && c.value.TextValue?
    && (0 in c.value.s || (c.columnType.VarcharType? && c.columnType.length < |Encode(c.value.s)|))
  }

  /** An ordered index answers every predicate on its column, a hash index only equality. */
  predicate Usable(ix: Index, column: int, c: Condition) {
    && ix.column == column
    && (ix.kind == BPlusUnclustered || (ix.kind == ExtendibleHashIndex && IsEquality(c) && !Unhashable(c)))
  }

  ghost predicate SomeUsable(indexes: seq<Index>, column: int, c: Condition) {
    exists j :: 0 <= j < |indexes| && Usable(indexes[j], column, c)
  }

  /** No other usable index is better: none is a hash index if this one is not, and of those of its
      kind none has a smaller name. */
  ghost predicate BestOf(indexes: seq<Index>, column: int, c: Condition, k: nat) {
    && k < |indexes| && Usable(indexes[k], column, c)
    && forall j | 0 <= j < |indexes| && Usable(indexes[j], column, c) ::
         if indexes[j].kind == indexes[k].kind then LexLe(indexes[k].name, indexes[j].name)
         else indexes[k].kind == ExtendibleHashIndex
  }

  /** The route to take: by the table itself for a predicate on its key, unless the table is a heap and
      some index can be used; else by the best index; else by reading everything. Filtering remains
      for what was not looked up, and for strict comparisons, which are looked up as closed ranges. */
  ghost predicate RightRoute(route: Route, residual: bool, c: Condition, column: int, keyColumn: nat, table: TableMeta, primaryAllowed: bool) {
    var usable := SomeUsable(table.indexes, column, c);
    var byTable := column == keyColumn && primaryAllowed && !(table.structure == Heap && usable);
    && (match route
        case TableSearch => byTable && IsEquality(c)
        case TableRange => byTable && !IsEquality(c)
        case IndexSearch(k) => !byTable && IsEquality(c) && BestOf(table.indexes, column, c, k)
        case IndexRange(k) => !byTable && !IsEquality(c) && BestOf(table.indexes, column, c, k)
        case Scan => !byTable && !usable)
    && (residual <==> route.Scan? || (c.Comparison? && (c.operator == LessThan || c.operator == GreaterThan)))
  }

  lemma UsableIsApplicable(ix: Index, column: int, c: Condition)
    ensures Usable(ix, column, c)
       <==> Applicable(ix, column, !IsEquality(c), !IsEquality(c) || HashAllowed(c))
  {
  }

  lemma BestIsBest(indexes: seq<Index>, column: int, c: Condition)
    ensures var best := BestIndex(indexes, column, !IsEquality(c), !IsEquality(c) || HashAllowed(c));
      if best.Some? then BestOf(indexes, column, c, best.value) else !SomeUsable(indexes, column, c)
  {
    var best := BestIndex(indexes, column, !IsEquality(c), !IsEquality(c) || HashAllowed(c));
    forall j | 0 <= j < |indexes|
      ensures Usable(indexes[j], column, c) <==> Applicable(indexes[j], column, !IsEquality(c), !IsEquality(c) || HashAllowed(c))
      ensures best.Some? ==> (LexLe(indexes[best.value].name, indexes[j].name) || LexLe(indexes[j].name, indexes[best.value].name))
    {
      UsableIsApplicable(indexes[j], column, c);
      if best.Some? {
        LexTotal(indexes[best.value].name, indexes[j].name);
      }
    }
  }

  lemma RouteIsRight(c: Condition, column: int, keyColumn: nat, table: TableMeta, primaryAllowed: bool)
    ensures var choice := ChooseAccess(c, column, keyColumn, table, primaryAllowed);
      RightRoute(choice.route, choice.residual, c, column, keyColumn, table, primaryAllowed)
  {
    BestIsBest(table.indexes, column, c);
    var best := BestIndex(table.indexes, column, !IsEquality(c), !IsEquality(c) || HashAllowed(c));
    if best.Some? {
      assert SomeUsable(table.indexes, column, c);
    }
  }

  /* ---------------------------------------------------------------- probes */

  /** The predicate that looking up a join column is like. */
  function LikeEquality(column: nat): Condition {
    Comparison(column, IntType, Equal, IntValue(0))
  }

  /** What to probe: a table read whole by its key, unless it is a heap, and else by its best index on the
      join column. Only with something to probe is the choice of the join left open. */
  ghost predicate RightProbe(s: Source, right: Physical, strategy: Strategy, probe: Option<nat>, onPrimaryKey: bool)
    requires s.JoinRef?
  {
    var whole := right.Access? && right.route.Scan? && !right.residual && s.right.TableRef?;
    var byKey := whole && s.rightColumn == s.right.keyColumn && right.meta.structure != Heap;
    && (onPrimaryKey <==> byKey)
    && (probe.Some? <==> whole && !byKey && SomeUsable(right.meta.indexes, s.rightColumn, LikeEquality(s.rightColumn)))
    && (probe.Some? ==> BestOf(right.meta.indexes, s.rightColumn, LikeEquality(s.rightColumn), probe.value))
    && (strategy == Auto <==> probe.Some? || onPrimaryKey)
  }

  lemma ProbeIsRight(s: Source, left: Physical, right: Physical, residual: bool)
    requires s.JoinRef?
    ensures var p := JoinOf(s, left, right, residual); RightProbe(s, right, p.strategy, p.probe, p.onPrimaryKey)
  {
    if right.Access? {
      BestIsBest(right.meta.indexes, s.rightColumn, LikeEquality(s.rightColumn));
    }
  }

  /* ---------------------------------------------------------------- plans */

  /** The plan for a source: the leaf with the predicate's column takes the right route, the others are
      read whole, and joins probe what is right. */
  ghost predicate RightPlan(p: Physical, s: Source, cat: Catalogue, where: Option<Condition>, offset: nat)
    requires Covers(cat, s)
    decreases s
  {
    match s
    case TableRef(table, types, keyColumn) =>
      && p.Access? && p.meta == cat[table]
      && (if where.Some? && offset <= where.value.column < offset + |types|
          then RightRoute(p.route, p.residual, where.value, where.value.column - offset, keyColumn, p.meta, true)
          else p.route.Scan? && !p.residual)
    case JoinRef(left, right, leftColumn, rightColumn) =>
      && p.Join? && p.leftColumn == leftColumn && p.rightColumn == rightColumn && !p.residual
      && RightProbe(s, p.right, p.strategy, p.probe, p.onPrimaryKey)
      && RightPlan(p.left, left, cat, where, offset)
      && RightPlan(p.right, right, cat, where, offset + Width(left))
  }

  lemma LeafPlanIsRight(s: Source, cat: Catalogue, where: Option<Condition>, owner: Option<nat>, offset: nat)
    requires s.TableRef? && Covers(cat, s) && OwnerIsRight(s, where, owner, offset) && (where.None? ==> owner.None?)
    ensures RightPlan(OptimizeSource(s, cat, where, owner, offset), s, cat, where, offset)
  {
    if where.Some? && offset <= where.value.column < offset + |s.types| {
      var column, table := where.value.column - offset, cat[s.table];
      var choice := ChooseAccess(where.value, column, s.keyColumn, table, true);
      RouteIsRight(where.value, column, s.keyColumn, table, true);
      RightLeaf(s, cat, where, owner, offset, choice.route, choice.residual);
    }
  }

  lemma RightLeaf(s: Source, cat: Catalogue, where: Option<Condition>, owner: Option<nat>, offset: nat, route: Route, residual: bool)
    requires s.TableRef? && Covers(cat, s) && where.Some? && offset <= where.value.column < offset + |s.types|
    requires OptimizeSource(s, cat, where, owner, offset) == Access(cat[s.table], route, residual)
    requires RightRoute(route, residual, where.value, where.value.column - offset, s.keyColumn, cat[s.table], true)
    ensures RightPlan(OptimizeSource(s, cat, where, owner, offset), s, cat, where, offset)
  {
  }

  lemma JoinPlanIsRight(s: Source, cat: Catalogue, left: Physical, right: Physical, where: Option<Condition>, offset: nat, start: nat)
    requires s.JoinRef? && Covers(cat, s) && start == offset + Width(s.left)
    requires RightPlan(left, s.left, cat, where, offset) && RightPlan(right, s.right, cat, where, start)
    ensures RightPlan(JoinOf(s, left, right, false), s, cat, where, offset)
  {
    ProbeIsRight(s, left, right, false);
  }

  lemma {:induction false} SourcePlanIsRight(s: Source, cat: Catalogue, where: Option<Condition>, owner: Option<nat>, offset: nat)
    requires Covers(cat, s) && WellFormedSource(s) && OwnerIsRight(s, where, owner, offset) && (where.None? ==> owner.None?)
    ensures RightPlan(OptimizeSource(s, cat, where, owner, offset), s, cat, where, offset)
    decreases s
  {
    match s
    case TableRef(_, _, _) => LeafPlanIsRight(s, cat, where, owner, offset);
    case JoinRef(left, right, _, _) =>
      OwnerBelow(s, where, owner, offset);
      var start := offset + Width(left);
      SourcePlanIsRight(left, cat, where, owner, offset);
      SourcePlanIsRight(right, cat, where, owner, start);
      JoinPlanIsRight(s, cat, OptimizeSource(left, cat, where, owner, offset), OptimizeSource(right, cat, where, owner, start),
                      where, offset, start);
  }

  /** The optimizer's plan is the right one for every source and every predicate the binder accepts. */
  lemma OptimizedPlanIsRight(s: Source, cat: Catalogue, where: Option<Condition>)
    requires Covers(cat, s) && WellFormedSource(s) && Bound(s, where)
    ensures RightPlan(Optimize(s, cat, where), s, cat, where, 0)
  {
    if where.Some? {
      OwnerFound(s, where.value.column, 0);
    }
    SourcePlanIsRight(s, cat, where, if where.None? then None else OwnerOf(s, where.value.column, 0), 0);
  }
}
