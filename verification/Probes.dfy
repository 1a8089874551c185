/** When an automatic join may probe: what the plan's own checks let through, and exactly when probing
    the table behind a leaf gives the right rows. */
module Probes {
  import opened Values
  import opened Predicates
  import opened Plans
  import opened Operators
  import opened Wrappers
  import opened Bags

  /** The rules the plan's own constructors enforce. */
  predicate Accepted(p: Physical, s: Source, where: Option<Condition>, offset: nat)
    decreases p
  {
    match p
    case Access(meta, route, _) =>
      && s.TableRef?
      && (if where.Some? && offset <= where.value.column < offset + Width(s)
          then
            var column := where.value.column - offset;
            && ((route.IndexSearch? || route.IndexRange?) ==>
                  route.index < |meta.indexes| && meta.indexes[route.index].column == column)
            && (route.IndexRange? ==> meta.indexes[route.index].kind == BPlusUnclustered)
            && (route.TableSearch? || route.TableRange? ==> column == s.keyColumn)
          else route.Scan?)
    case Join(left, right, _, _, strategy, probe, onPrimaryKey, _) =>
      && s.JoinRef?
      && (strategy.Auto? <==> probe.Some? || onPrimaryKey) && !(probe.Some? && onPrimaryKey)
      && Accepted(left, s.left, where, offset)
      && Accepted(right, s.right, where, offset + Width(s.left))
  }

  /* ---------------------------------------------------------------- a leaf by itself */

  /** Reads a closed range for a strict comparison and does not filter afterwards. */
  predicate Unfilters(p: Physical, c: Condition) {
    p.Access? && (p.route.TableRange? || p.route.IndexRange?) && !p.residual && Strict(c)
  }

  predicate NoneHasTheLiteral(rows: seq<Row>, column: nat, c: Condition)
    requires c.Comparison?
  {
    forall row | row in rows && column < |row| :: row[column] != c.value
  }

  lemma StrictRangeIsRightExactly(rows: seq<Row>, types: seq<SqlType>, column: nat, c: Condition, offset: nat)
    requires OnColumn(rows, types, column, c, offset) && Strict(c)
    ensures var range := RangeValues(c).value;
      multiset(Filter(rows, RangeSelector(column, range.0, range.1))) == multiset(Selected(rows, c, offset))
      <==> NoneHasTheLiteral(rows, column, c)
  {
    var range := RangeValues(c).value;
    var inRange, holds := RangeSelector(column, range.0, range.1), Selector(c, offset);
    forall row | row in rows
      ensures column < |row| && (inRange(row) && !holds(row) <==> row[column] == c.value) && (holds(row) ==> inRange(row))
    {
      RangeCaptures(row[column], c);
    }
    LooserFilter(rows, inRange, holds);
  }

  /** A leaf whose route can answer the predicate, and that filters what it has to, delivers the answer. */
  lemma FilteringLeafIsRight(db: Database, p: Physical, s: Source, where: Option<Condition>, offset: nat, probing: Probing)
    requires p.Access? && Conforms(db, s) && Executable(p, s, where, offset) && Accepted(p, s, where, offset) && Spans(s, where, offset)
    requires !Unfilters(p, where.value) && Answerable(p.route, p.meta.indexes, where.value)
    ensures Delivered(db, p, s, where, offset, probing) == Some(Answer(db, p, s, where, offset))
  {
    if Consumes(p) {
      CandidatesCover(db[s.table], s.types, s.keyColumn, p.meta.indexes, p.route, p.residual, where.value, offset);
    }
  }

  /** One that does not filter delivers the range. */
  lemma UnfilteringLeafDelivers(db: Database, p: Physical, s: Source, where: Option<Condition>, offset: nat, column: nat, probing: Probing)
    requires p.Access? && Conforms(db, s) && Executable(p, s, where, offset) && Accepted(p, s, where, offset) && Spans(s, where, offset)
    requires Unfilters(p, where.value) && Answerable(p.route, p.meta.indexes, where.value) && offset + column == where.value.column
    ensures var range := RangeValues(where.value).value;
      && Delivered(db, p, s, where, offset, probing) == Some(Filter(db[s.table], RangeSelector(column, range.0, range.1)))
      && Answer(db, p, s, where, offset) == Selected(db[s.table], where.value, offset)
  {
  }

  lemma UnanswerableLeafFails(db: Database, p: Physical, s: Source, where: Option<Condition>, offset: nat, probing: Probing)
    requires p.Access? && Conforms(db, s) && Executable(p, s, where, offset) && where.Some?
    requires !Answerable(p.route, p.meta.indexes, where.value)
    ensures Delivered(db, p, s, where, offset, probing).None?
  {
  }

  ghost predicate SameBag(delivered: Option<seq<Row>>, answer: seq<Row>) {
    delivered.Some? && multiset(delivered.value) == multiset(answer)
  }

  lemma UnfilteringLeafIsRightExactly(db: Database, p: Physical, s: Source, where: Option<Condition>, offset: nat, column: nat, probing: Probing)
    requires p.Access? && Conforms(db, s) && Executable(p, s, where, offset) && Accepted(p, s, where, offset) && Spans(s, where, offset)
    requires Unfilters(p, where.value) && Answerable(p.route, p.meta.indexes, where.value) && offset + column == where.value.column
    ensures Delivered(db, p, s, where, offset, probing).Some?
    ensures SameBag(Delivered(db, p, s, where, offset, probing), Answer(db, p, s, where, offset))
       <==> NoneHasTheLiteral(db[s.table], column, where.value)
  {
    UnfilteringLeafDelivers(db, p, s, where, offset, column, probing);
    StrictRangeIsRightExactly(db[s.table], s.types, column, where.value, offset);
  }

  /** What an accepted leaf delivers for a predicate on its own columns: an error if its route cannot
      answer the predicate, and otherwise the right rows, unless it reads a closed range for a strict
      comparison without filtering, and some row has the literal. */
  lemma LeafIsRightExactly(db: Database, p: Physical, s: Source, where: Option<Condition>, offset: nat, column: nat, probing: Probing)
    requires p.Access? && Conforms(db, s) && Executable(p, s, where, offset) && Accepted(p, s, where, offset) && Spans(s, where, offset)
    requires offset + column == where.value.column
    ensures Delivered(db, p, s, where, offset, probing).Some? <==> Answerable(p.route, p.meta.indexes, where.value)
    ensures SameBag(Delivered(db, p, s, where, offset, probing), Answer(db, p, s, where, offset))
       <==> && Answerable(p.route, p.meta.indexes, where.value)
            && (!Unfilters(p, where.value) || NoneHasTheLiteral(db[s.table], column, where.value))
  {
    if !Answerable(p.route, p.meta.indexes, where.value) {
      UnanswerableLeafFails(db, p, s, where, offset, probing);
    } else if Unfilters(p, where.value) {
      UnfilteringLeafIsRightExactly(db, p, s, where, offset, column, probing);
    } else {
      FilteringLeafIsRight(db, p, s, where, offset, probing);
    }
  }

  /* ---------------------------------------------------------------- a join that probes */

  lemma {:induction false} JoinOneHas(l: Row, right: seq<Row>, lc: nat, rc: nat, row: Row)
    ensures row in JoinOne(l, right, lc, rc) <==> exists r :: r in right && Joins(l, r, lc, rc) && row == l + r
  {
    if right != [] {
      var init, last := right[..|right| - 1], right[|right| - 1];
      assert right == init + [last];
      JoinOneHas(l, init, lc, rc, row);
      JoinOneStep(l, init, last, lc, rc);
    }
  }

  lemma {:induction false} JoinHas(left: seq<Row>, right: seq<Row>, lc: nat, rc: nat, row: Row)
    ensures row in JoinRows(left, right, lc, rc)
       <==> exists l, r :: l in left && r in right && Joins(l, r, lc, rc) && row == l + r
  {
    if left != [] {
      var init, last := left[..|left| - 1], left[|left| - 1];
      assert left == init + [last];
      JoinHas(init, right, lc, rc, row);
      JoinStep(init, last, right, lc, rc);
      JoinOneHas(last, right, lc, rc, row);
    }
  }

  /** Every right row that a left row joins with satisfies the predicate. */
  ghost predicate NothingRejected(left: seq<Row>, right: seq<Row>, lc: nat, rc: nat, c: Condition, offset: nat) {
    forall l, r | l in left && r in right && Joins(l, r, lc, rc) :: Holds(r, c, offset)
  }

  lemma HoldsOnTheRight(l: Row, r: Row, c: Condition, offset: nat, width: nat)
    requires |l| == width && offset + width <= c.column
    ensures Holds(l + r, c, offset) <==> Holds(r, c, offset + width)
  {
  }

  lemma RejectedRowIsJoined(left: seq<Row>, right: seq<Row>, lc: nat, rc: nat, c: Condition, offset: nat, width: nat) returns (row: Row)
    requires Wide(left, width) && offset + width <= c.column
    requires !NothingRejected(left, right, lc, rc, c, offset + width)
    ensures row in JoinRows(left, right, lc, rc) && !Holds(row, c, offset)
  {
    var l, r :| l in left && r in right && Joins(l, r, lc, rc) && !Holds(r, c, offset + width);
    row := l + r;
    JoinHas(left, right, lc, rc, row);
    HoldsOnTheRight(l, r, c, offset, width);
  }

  lemma NoJoinedRowIsRejected(left: seq<Row>, right: seq<Row>, lc: nat, rc: nat, c: Condition, offset: nat, width: nat, row: Row)
    requires Wide(left, width) && offset + width <= c.column
    requires NothingRejected(left, right, lc, rc, c, offset + width) && row in JoinRows(left, right, lc, rc)
    ensures Holds(row, c, offset)
  {
    JoinHas(left, right, lc, rc, row);
    var l, r :| l in left && r in right && Joins(l, r, lc, rc) && row == l + r;
    HoldsOnTheRight(l, r, c, offset, width);
  }

  lemma SelectKeepsJoinExactly(left: seq<Row>, right: seq<Row>, lc: nat, rc: nat, c: Condition, offset: nat, width: nat)
    requires Wide(left, width) && offset + width <= c.column
    ensures multiset(Selected(JoinRows(left, right, lc, rc), c, offset)) == multiset(JoinRows(left, right, lc, rc))
       <==> NothingRejected(left, right, lc, rc, c, offset + width)
  {
    var rows, holds := JoinRows(left, right, lc, rc), Selector(c, offset);
    FilterKeepsAllExactly(rows, holds);
    if NothingRejected(left, right, lc, rc, c, offset + width) {
      forall row | row in rows
        ensures holds(row)
      {
        NoJoinedRowIsRejected(left, right, lc, rc, c, offset, width, row);
      }
    } else {
      var row := RejectedRowIsJoined(left, right, lc, rc, c, offset, width);
      assert !holds(row);
    }
  }

  /** Both sides of an automatic join are right. */
  predicate SidesAreRight(p: Physical, s: Source, where: Option<Condition>, offset: nat) {
    && p.Join? && s.JoinRef? && s.leftColumn == p.leftColumn && s.rightColumn == p.rightColumn
    && WellPlanned(p.left, s.left, where, offset)
    && WellPlanned(p.right, s.right, where, offset + Width(s.left))
    && p.strategy.Auto? && p.right.Access? && s.right.TableRef?
  }

  /** It probes the join column, but perhaps of a table behind a filtered leaf. */
  predicate ProbesAnyLeaf(p: Physical, s: Source, where: Option<Condition>, offset: nat) {
    && SidesAreRight(p, s, where, offset) && ProbeFits(s, p.right, p.probe, p.onPrimaryKey)
    && (p.residual ==> Spans(s, where, offset))
  }

  lemma LeftDelivers(db: Database, p: Physical, s: Source, where: Option<Condition>, offset: nat, probing: Probing)
    requires Conforms(db, s) && Executable(p, s, where, offset) && SidesAreRight(p, s, where, offset)
    ensures Delivered(db, p.left, s.left, where, offset, probing) == Some(Answer(db, p.left, s.left, where, offset))
  {
    RightPlansDeliver(db, p.left, s.left, where, offset, probing);
  }

  lemma RightDelivers(db: Database, p: Physical, s: Source, where: Option<Condition>, offset: nat, start: nat, probing: Probing)
    requires Conforms(db, s) && Executable(p, s, where, offset) && SidesAreRight(p, s, where, offset)
    requires start == offset + Width(s.left)
    ensures Delivered(db, p.right, s.right, where, start, probing) == Some(Answer(db, p.right, s.right, where, start))
  {
    RightPlansDeliver(db, p.right, s.right, where, start, probing);
  }

  lemma ProbeDelivers(db: Database, p: Physical, s: Source, where: Option<Condition>, offset: nat, start: nat, probing: Probing)
    requires Conforms(db, s) && Executable(p, s, where, offset) && ProbesAnyLeaf(p, s, where, offset) && probing(p, offset)
    requires s.JoinRef? && start == offset + Width(s.left)
    ensures Joined(db, p, s, where, offset, probing)
         == Some(JoinRows(Answer(db, p.left, s.left, where, offset), AllRows(db, s.right), s.leftColumn, s.rightColumn))
  {
    LeftDelivers(db, p, s, where, offset, probing);
    RightDelivers(db, p, s, where, offset, start, probing);
    JoinedIs(db, p, s, where, offset, probing, Answer(db, p.left, s.left, where, offset), Answer(db, p.right, s.right, where, start));
  }

  /** A leaf that is read whole can be probed. */
  lemma ProbingAWholeLeaf(db: Database, p: Physical, s: Source, where: Option<Condition>, offset: nat, start: nat, probing: Probing)
    requires Conforms(db, s) && Executable(p, s, where, offset) && ProbesAnyLeaf(p, s, where, offset) && probing(p, offset)
    requires s.JoinRef? && start == offset + Width(s.left)
    requires !Consumes(p.right)
    ensures Delivered(db, p, s, where, offset, probing) == Some(Answer(db, p, s, where, offset))
  {
    ProbeDelivers(db, p, s, where, offset, start, probing);
    if Consumes(p.left) {
      JoinedWhenLeftConsumes(db, p, s, where, offset, start);
      SelectedTwice(AllRows(db, s), where.value, offset);
    }
  }

  lemma ProbingAFilteredLeaf(db: Database, p: Physical, s: Source, where: Option<Condition>, offset: nat, start: nat, probing: Probing)
    requires Conforms(db, s) && Executable(p, s, where, offset) && ProbesAnyLeaf(p, s, where, offset) && probing(p, offset)
    requires s.JoinRef? && start == offset + Width(s.left)
    requires Consumes(p.right)
    ensures where.Some? && start <= where.value.column
    ensures Answer(db, p, s, where, offset) == Selected(AllRows(db, s), where.value, offset)
    ensures Delivered(db, p, s, where, offset, probing)
         == Some(if p.residual then Selected(AllRows(db, s), where.value, offset) else AllRows(db, s))
  {
    ConsumerSpans(p.right, s.right, where, start);
    if Consumes(p.left) {
      ConsumerSpans(p.left, s.left, where, offset);
      assert false;
    }
    ProbeDelivers(db, p, s, where, offset, start, probing);
  }

  lemma FilteredProbeIsRightExactly(db: Database, p: Physical, s: Source, where: Option<Condition>, offset: nat, start: nat, probing: Probing)
    requires Conforms(db, s) && Executable(p, s, where, offset) && ProbesAnyLeaf(p, s, where, offset) && probing(p, offset)
    requires Consumes(p.right) && start == offset + Width(s.left)
    ensures where.Some? && Delivered(db, p, s, where, offset, probing).Some?
    ensures SameBag(Delivered(db, p, s, where, offset, probing), Answer(db, p, s, where, offset))
       <==> p.residual || NothingRejected(AllRows(db, s.left), AllRows(db, s.right), s.leftColumn, s.rightColumn, where.value, start)
  {
    ProbingAFilteredLeaf(db, p, s, where, offset, start, probing);
    FilteredLeafIsRight(db, s, where.value, offset, start);
  }

  /** When probing gives the right rows: the leaf is read whole, or the join filters again, or the
      filter of the leaf rejects no row that a left row joins with. */
  lemma ProbeIsRightExactly(db: Database, p: Physical, s: Source, where: Option<Condition>, offset: nat, start: nat, probing: Probing)
    requires Conforms(db, s) && Executable(p, s, where, offset) && ProbesAnyLeaf(p, s, where, offset) && probing(p, offset)
    requires start == offset + Width(s.left)
    ensures Consumes(p.right) ==> where.Some?
    ensures Delivered(db, p, s, where, offset, probing).Some?
    ensures SameBag(Delivered(db, p, s, where, offset, probing), Answer(db, p, s, where, offset))
       <==> p.residual || !Consumes(p.right)
            || NothingRejected(AllRows(db, s.left), AllRows(db, s.right), s.leftColumn, s.rightColumn, where.value, start)
  {
    if Consumes(p.right) {
      FilteredProbeIsRightExactly(db, p, s, where, offset, start, probing);
    } else {
      ProbingAWholeLeaf(db, p, s, where, offset, start, probing);
    }
  }

  /* ---------------------------------------------------------------- probing another column */

  /** The rows that one column of the right side joins with are those that the other does. */
  ghost predicate JoinAlike(left: seq<Row>, right: seq<Row>, lc: nat, rc: nat, other: nat) {
    forall l, r | l in left && r in right :: Joins(l, r, lc, other) <==> Joins(l, r, lc, rc)
  }

  lemma {:induction false} SameJoinOne(l: Row, right: seq<Row>, lc: nat, rc: nat, other: nat)
    requires forall r | r in right :: Joins(l, r, lc, other) <==> Joins(l, r, lc, rc)
    ensures JoinOne(l, right, lc, other) == JoinOne(l, right, lc, rc)
  {
    if right != [] {
      var init, last := right[..|right| - 1], right[|right| - 1];
      assert right == init + [last];
      SameJoinOne(l, init, lc, rc, other);
      JoinOneStep(l, init, last, lc, rc);
      JoinOneStep(l, init, last, lc, other);
      assert last in right && (Joins(l, last, lc, other) <==> Joins(l, last, lc, rc));
    }
  }

  lemma {:induction false} SameJoin(left: seq<Row>, right: seq<Row>, lc: nat, rc: nat, other: nat)
    requires JoinAlike(left, right, lc, rc, other)
    ensures JoinRows(left, right, lc, other) == JoinRows(left, right, lc, rc)
  {
    if left != [] {
      var init, last := left[..|left| - 1], left[|left| - 1];
      assert left == init + [last] && last in left;
      SameJoin(init, right, lc, rc, other);
      JoinStep(init, last, right, lc, rc);
      JoinStep(init, last, right, lc, other);
      SameJoinOne(last, right, lc, rc, other);
    }
  }

  /** Joined rows tell which rows were joined. */
  lemma PairIsJoined(left: seq<Row>, right: seq<Row>, lc: nat, rc: nat, width: nat, l: Row, r: Row)
    requires Wide(left, width) && l in left && r in right
    ensures l + r in JoinRows(left, right, lc, rc) <==> Joins(l, r, lc, rc)
  {
    JoinHas(left, right, lc, rc, l + r);
    forall k, q | k in left && q in right && k + q == l + r
      ensures k == l && q == r
    {
      assert |k| == |l| && (k + q)[..|k|] == k && (l + r)[..|l|] == l && (k + q)[|k|..] == q && (l + r)[|l|..] == r;
    }
  }

  lemma SameBagsJoinAlike(left: seq<Row>, right: seq<Row>, lc: nat, rc: nat, other: nat, width: nat)
    requires Wide(left, width)
    ensures multiset(JoinRows(left, right, lc, other)) == multiset(JoinRows(left, right, lc, rc))
       <==> JoinAlike(left, right, lc, rc, other)
  {
    if JoinAlike(left, right, lc, rc, other) {
      SameJoin(left, right, lc, rc, other);
    } else {
      var l, r :| l in left && r in right && !(Joins(l, r, lc, other) <==> Joins(l, r, lc, rc));
      PairIsJoined(left, right, lc, rc, width, l, r);
      PairIsJoined(left, right, lc, other, width, l, r);
      DifferentMembers(JoinRows(left, right, lc, other), JoinRows(left, right, lc, rc), l + r);
    }
  }

  lemma DifferentMembers<T>(a: seq<T>, b: seq<T>, x: T)
    requires !(x in a <==> x in b)
    ensures multiset(a) != multiset(b)
  {
    assert (x in a <==> x in multiset(a)) && (x in b <==> x in multiset(b));
  }

  /** A join that probes some column behind a leaf that is read whole, and does not filter. */
  predicate ProbesAnyColumn(p: Physical, s: Source, where: Option<Condition>, offset: nat) {
    SidesAreRight(p, s, where, offset) && Probed(p, s).Some? && !Consumes(p.right) && !p.residual
  }

  lemma AnyProbeDelivers(db: Database, p: Physical, s: Source, where: Option<Condition>, offset: nat, start: nat, probing: Probing)
    requires Conforms(db, s) && Executable(p, s, where, offset) && ProbesAnyColumn(p, s, where, offset) && probing(p, offset)
    requires start == offset + Width(s.left)
    ensures Delivered(db, p, s, where, offset, probing)
         == Some(JoinRows(Answer(db, p.left, s.left, where, offset), AllRows(db, s.right), s.leftColumn, Probed(p, s).value))
  {
    LeftDelivers(db, p, s, where, offset, probing);
    RightDelivers(db, p, s, where, offset, start, probing);
    JoinedIs(db, p, s, where, offset, probing, Answer(db, p.left, s.left, where, offset), Answer(db, p.right, s.right, where, start));
  }

  lemma AnswerOfSides(db: Database, p: Physical, s: Source, where: Option<Condition>, offset: nat, start: nat)
    requires Conforms(db, s) && ProbesAnyColumn(p, s, where, offset) && start == offset + Width(s.left)
    ensures Answer(db, p, s, where, offset)
         == JoinRows(Answer(db, p.left, s.left, where, offset), AllRows(db, s.right), s.leftColumn, s.rightColumn)
  {
    if Consumes(p.left) {
      JoinedWhenLeftConsumes(db, p, s, where, offset, start);
    } else {
      JoinedWhenNeitherConsumes(db, p, s, where, offset, start);
    }
  }

  lemma AnswerIsWide(db: Database, p: Physical, s: Source, where: Option<Condition>, offset: nat)
    requires Conforms(db, s)
    ensures Wide(Answer(db, p, s, where, offset), Width(s))
  {
    AllRowsWide(db, s);
    if Consumes(p) && where.Some? {
      forall row | row in Selected(AllRows(db, s), where.value, offset)
        ensures row in AllRows(db, s)
      {
        FilterCount(AllRows(db, s), Selector(where.value, offset), row);
        assert 0 < multiset(Selected(AllRows(db, s), where.value, offset))[row];
      }
    }
  }

  /** Probing some column of the right table, whichever index the plan names, gives the right rows exactly
      if every left row finds the same right rows by it as by the join column. */
  lemma AnyProbeIsRightExactly(db: Database, p: Physical, s: Source, where: Option<Condition>, offset: nat, probing: Probing)
    requires Conforms(db, s) && Executable(p, s, where, offset) && ProbesAnyColumn(p, s, where, offset) && probing(p, offset)
    ensures SameBag(Delivered(db, p, s, where, offset, probing), Answer(db, p, s, where, offset))
       <==> JoinAlike(Answer(db, p.left, s.left, where, offset), AllRows(db, s.right), s.leftColumn, s.rightColumn, Probed(p, s).value)
  {
    var start := offset + Width(s.left);
    AnyProbeDelivers(db, p, s, where, offset, start, probing);
    AnswerOfSides(db, p, s, where, offset, start);
    AnswerIsWide(db, p.left, s.left, where, offset);
    SameBagsJoinAlike(Answer(db, p.left, s.left, where, offset), AllRows(db, s.right), s.leftColumn, s.rightColumn, Probed(p, s).value, Width(s.left));
  }

  lemma FilteredLeafIsRight(db: Database, s: Source, c: Condition, offset: nat, start: nat)
    requires Conforms(db, s) && s.JoinRef? && start == offset + Width(s.left) && start <= c.column
    ensures multiset(AllRows(db, s)) == multiset(Selected(AllRows(db, s), c, offset))
       <==> NothingRejected(AllRows(db, s.left), AllRows(db, s.right), s.leftColumn, s.rightColumn, c, start)
  {
    AllRowsWide(db, s.left);
    RowsOfJoin(db, s);
    SelectKeepsRowsExactly(AllRows(db, s), AllRows(db, s.left), AllRows(db, s.right), s.leftColumn, s.rightColumn, c, offset, Width(s.left), start);
  }

  lemma SelectKeepsRowsExactly(rows: seq<Row>, left: seq<Row>, right: seq<Row>, lc: nat, rc: nat, c: Condition, offset: nat, width: nat, start: nat)
    requires rows == JoinRows(left, right, lc, rc)
    requires Wide(left, width) && start == offset + width && start <= c.column
    ensures multiset(rows) == multiset(Selected(rows, c, offset)) <==> NothingRejected(left, right, lc, rc, c, start)
  {
    SelectKeepsJoinExactly(left, right, lc, rc, c, offset, width);
  }

  lemma RowsOfJoin(db: Database, s: Source)
    requires Conforms(db, s) && s.JoinRef?
    ensures AllRows(db, s) == JoinRows(AllRows(db, s.left), AllRows(db, s.right), s.leftColumn, s.rightColumn)
  {
  }

  /* ---------------------------------------------------------------- some database goes wrong */

  /** Wherever the source names the table, it has these columns. */
  predicate SameSchema(s: Source, table: Name, types: seq<SqlType>) {
    match s
    case TableRef(name, has, _) => name == table ==> has == types
    case JoinRef(left, right, _, _) => SameSchema(left, table, types) && SameSchema(right, table, types)
  }

  function WithRow(db: Database, table: Name, row: Row): Database {
    db[table := (if table in db then db[table] else []) + [row]]
  }

  /** A row more takes no row away. */
  lemma {:induction false} MoreRows(db: Database, s: Source, table: Name, types: seq<SqlType>, row: Row)
    requires Conforms(db, s) && SameSchema(s, table, types) && TypedRow(row, types)
    ensures Conforms(WithRow(db, table, row), s)
    ensures forall l | l in AllRows(db, s) :: l in AllRows(WithRow(db, table, row), s)
  {
    match s
    case TableRef(_, _, _) =>
    case JoinRef(left, right, lc, rc) =>
      MoreRows(db, left, table, types, row);
      MoreRows(db, right, table, types, row);
      var more := WithRow(db, table, row);
      forall l | l in AllRows(db, s)
        ensures l in AllRows(more, s)
      {
        JoinHas(AllRows(db, left), AllRows(db, right), lc, rc, l);
        JoinHas(AllRows(more, left), AllRows(more, right), lc, rc, l);
      }
  }

  lemma OneRowIsRejected(db: Database, s: Source, c: Condition, start: nat, l: Row, r: Row)
    requires Conforms(db, s) && s.JoinRef? && s.right.TableRef? && SameSchema(s, s.right.table, s.right.types)
    requires l in AllRows(db, s.left) && TypedRow(r, s.right.types) && Joins(l, r, s.leftColumn, s.rightColumn)
    requires !Holds(r, c, start)
    ensures var more := WithRow(db, s.right.table, r);
      Conforms(more, s) && !NothingRejected(AllRows(more, s.left), AllRows(more, s.right), s.leftColumn, s.rightColumn, c, start)
  {
    MoreRows(db, s, s.right.table, s.right.types, r);
    MoreRows(db, s.left, s.right.table, s.right.types, r);
    var more := WithRow(db, s.right.table, r);
    assert more[s.right.table][|more[s.right.table]| - 1] == r;
    assert l in AllRows(more, s.left) && r in AllRows(more, s.right);
  }

  /** A join that may probe behind a filter is wrong for some database as soon as the filter rejects
      one row of the right types that can join. */
  lemma SomeDatabaseGoesWrong(db: Database, p: Physical, s: Source, where: Option<Condition>, offset: nat, start: nat, probing: Probing, l: Row, r: Row)
    requires Conforms(db, s) && Executable(p, s, where, offset) && ProbesAnyLeaf(p, s, where, offset) && probing(p, offset)
    requires Consumes(p.right) && !p.residual && SameSchema(s, s.right.table, s.right.types) && start == offset + Width(s.left)
    requires l in AllRows(db, s.left) && TypedRow(r, s.right.types) && Joins(l, r, s.leftColumn, s.rightColumn)
    requires where.Some? && !Holds(r, where.value, start)
    ensures var more := WithRow(db, s.right.table, r);
      && Conforms(more, s) && Delivered(more, p, s, where, offset, probing).Some?
      && !SameBag(Delivered(more, p, s, where, offset, probing), Answer(more, p, s, where, offset))
  {
    OneRowIsRejected(db, s, where.value, start, l, r);
    ProbeIsRightExactly(WithRow(db, s.right.table, r), p, s, where, offset, start, probing);
  }

  const KEY_ONLY: Row := [IntValue(1)]
  const KEY_AND_FIVE: Row := [IntValue(1), IntValue(5)]
  const TWO_TABLES: Database := map[[1] := [KEY_ONLY], [2] := [KEY_AND_FIVE]]
  const BOTH: Source := JoinRef(TableRef([1], [IntType], 0), TableRef([2], [IntType, IntType], 0), 0, 0)
  const IS_SEVEN := Comparison(2, IntType, Equal, IntValue(7))
  const PLAIN := TableMeta(Sequential, [])
  const PROBE_BEHIND_FILTER: Physical :=
    Join(Access(PLAIN, Scan, false), Access(PLAIN, Scan, true), 0, 0, Auto, None, true, false)

  lemma TwoTablesConform()
    ensures Conforms(TWO_TABLES, BOTH)
    ensures [1] in TWO_TABLES && TWO_TABLES[[1]] == [KEY_ONLY] && [2] in TWO_TABLES && TWO_TABLES[[2]] == [KEY_AND_FIVE]
  {
  }

  lemma ProbeBehindAFilterIsAccepted()
    ensures WellFormedSource(BOTH) && Bound(BOTH, Some(IS_SEVEN))
    ensures Accepted(PROBE_BEHIND_FILTER, BOTH, Some(IS_SEVEN), 0) && Validated(PROBE_BEHIND_FILTER, Some(IS_SEVEN))
    ensures Executable(PROBE_BEHIND_FILTER, BOTH, Some(IS_SEVEN), 0)
    ensures ProbesAnyLeaf(PROBE_BEHIND_FILTER, BOTH, Some(IS_SEVEN), 0)
  {
    assert WellPlanned(PROBE_BEHIND_FILTER.right, BOTH.right, Some(IS_SEVEN), 1);
  }

  lemma FiveIsRejected()
    ensures Conforms(TWO_TABLES, BOTH)
    ensures !NothingRejected(AllRows(TWO_TABLES, BOTH.left), AllRows(TWO_TABLES, BOTH.right), 0, 0, IS_SEVEN, 1)
  {
    TwoTablesConform();
    assert KEY_ONLY in TWO_TABLES[[1]] && KEY_AND_FIVE in TWO_TABLES[[2]];
    assert Joins(KEY_ONLY, KEY_AND_FIVE, 0, 0) && !Holds(KEY_AND_FIVE, IS_SEVEN, 1);
  }

  /** The constructors accept, and the check before execution lets through, a plan that probes the
      table behind a filtered leaf: executed with that probe, it delivers rows that do not satisfy
      the predicate. */
  lemma ProbingBehindAFilterGoesWrong(probing: Probing)
    requires probing(PROBE_BEHIND_FILTER, 0)
    ensures Conforms(TWO_TABLES, BOTH) && WellFormedSource(BOTH) && Bound(BOTH, Some(IS_SEVEN))
    ensures Accepted(PROBE_BEHIND_FILTER, BOTH, Some(IS_SEVEN), 0) && Validated(PROBE_BEHIND_FILTER, Some(IS_SEVEN))
    ensures Executable(PROBE_BEHIND_FILTER, BOTH, Some(IS_SEVEN), 0)
    ensures var delivered := Delivered(TWO_TABLES, PROBE_BEHIND_FILTER, BOTH, Some(IS_SEVEN), 0, probing);
      && delivered.Some?
      && multiset(delivered.value) != multiset(Selected(AllRows(TWO_TABLES, BOTH), IS_SEVEN, 0))
  {
    ProbeBehindAFilterIsAccepted();
    FiveIsRejected();
    ProbeIsRightExactly(TWO_TABLES, PROBE_BEHIND_FILTER, BOTH, Some(IS_SEVEN), 0, 1, probing);
  }
}
