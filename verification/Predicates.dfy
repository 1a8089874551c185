/** WHERE predicates on one column: evaluated on a row in memory, and as the closed ranges that
    tables and indexes accept. */
module Predicates {
  import opened Utf8
  import opened Values

  datatype Operator = Equal | LessThan | LessOrEqual | GreaterThan | GreaterOrEqual

  /** A predicate on the column at a position of some schema, whose type comes along. */
  datatype Condition =
    | Comparison(column: nat, columnType: SqlType, operator: Operator, value: Value)
    | Between(column: nat, columnType: SqlType, lower: Value, upper: Value)

  datatype Error = NotAnEquality | NotARange | MissingCondition | ScanNeedsFilter | RangeUnsupported | NothingToProbe

  datatype Result<+T> = Ok(value: T) | Err(error: Error)

  /** The smallest and the largest value of a column type. */
  function DomainBounds(t: SqlType): (Value, Value) {
    match t
    case IntType => (IntValue(INT_MIN), IntValue(INT_MAX))
    case DoubleType => (DoubleValue(NegInf), DoubleValue(PosInf))
    case BoolType => (BoolValue(false), BoolValue(true))
    case DateType => (DateValue(INT_MIN), DateValue(INT_MAX))
    case VarcharType(n) => (TextValue([]), TextValue(Greatest(n)))
    case PointType => (PointValue(-90.0, -180.0), PointValue(90.0, 180.0))
  }

  /** Every value a column can hold lies between the bounds of its domain, and the bounds are
      values the column can hold. */
  lemma BoundsEncloseTheDomain(v: Value, t: SqlType)
    requires InDomain(v, t)
    ensures var (lower, upper) := DomainBounds(t);
      && InDomain(lower, t) && InDomain(upper, t)
      && SameKind(v, lower) && SameKind(v, upper)
      && Enclosed(v, lower, upper)
  {
    match t
    case VarcharType(n) =>
      GreatestIsGreatest(n, v.s);
      GreatestFillsTheColumn(n);
    case _ =>
  }

  function EqualityKey(c: Condition): Result<Value> {
    if c.Comparison? && c.operator == Equal then Ok(c.value) else Err(NotAnEquality)
  }

  /** The inclusive ends of the range to read for a condition. */
  function RangeValues(c: Condition): Result<(Value, Value)> {
    match c
    case Between(_, _, lower, upper) => Ok((lower, upper))
    case Comparison(_, t, operator, value) =>
      match operator
      case Equal => Err(NotARange)
      case LessThan | LessOrEqual => Ok((DomainBounds(t).0, value))
      case GreaterThan | GreaterOrEqual => Ok((value, DomainBounds(t).1))
  }

  predicate MatchesValue(v: Value, c: Condition) {
    match c
    case Between(_, _, lower, upper) => 0 <= Compare(v, lower) && Compare(v, upper) <= 0
    case Comparison(_, _, operator, value) =>
      var order := Compare(v, value);
      match operator
      case Equal => order == 0
      case LessThan => order < 0
      case LessOrEqual => order <= 0
      case GreaterThan => 0 < order
      case GreaterOrEqual => 0 <= order
  }

  /** What the operators mean on values of one kind; a range includes both of its ends. */
  lemma MatchesMeans(v: Value, c: Condition)
    requires if c.Between? then SameKind(v, c.lower) && SameKind(v, c.upper) else SameKind(v, c.value)
    ensures c.Between? ==> (MatchesValue(v, c) <==> (v == c.lower || Less(c.lower, v)) && (v == c.upper || Less(v, c.upper)))
    ensures c.Comparison? && c.operator == Equal ==> (MatchesValue(v, c) <==> v == c.value)
    ensures c.Comparison? && c.operator == LessThan ==> (MatchesValue(v, c) <==> Less(v, c.value))
    ensures c.Comparison? && c.operator == LessOrEqual ==> (MatchesValue(v, c) <==> v == c.value || Less(v, c.value))
    ensures c.Comparison? && c.operator == GreaterThan ==> (MatchesValue(v, c) <==> Less(c.value, v))
    ensures c.Comparison? && c.operator == GreaterOrEqual ==> (MatchesValue(v, c) <==> v == c.value || Less(c.value, v))
  {
    match c
    case Between(_, _, lower, upper) =>
      LessIsTotal(v, lower);
      LessIsTotal(v, upper);
    case Comparison(_, _, _, value) =>
      LessIsTotal(v, value);
  }

  predicate Matches(row: Row, c: Condition)
    requires c.column < |row|
  {
    MatchesValue(row[c.column], c)
  }

  predicate Strict(c: Condition) {
    c.Comparison? && (c.operator == LessThan || c.operator == GreaterThan)
  }

  /** The literals of a condition are of the kind of its column. */
  predicate Typed(c: Condition) {
    var kind := DomainBounds(c.columnType).0;
    match c
    case Between(_, _, lower, upper) => SameKind(kind, lower) && SameKind(kind, upper)
    case Comparison(_, _, _, value) => SameKind(kind, value)
  }

  /** Reading a closed range misses nothing that matches. It brings nothing else either, except,
      under `<` and `>`, values equal to the literal, which the residual filter then removes. */
  lemma RangeCaptures(v: Value, c: Condition)
    requires InDomain(v, c.columnType) && Typed(c) && RangeValues(c).Ok?
    ensures var range := RangeValues(c).value;
      && (MatchesValue(v, c) ==> Enclosed(v, range.0, range.1))
      && (!Strict(c) ==> (Enclosed(v, range.0, range.1) <==> MatchesValue(v, c)))
      && (Strict(c) ==>
            && (Enclosed(v, range.0, range.1) <==> MatchesValue(v, c) || v == c.value)
            && !(MatchesValue(v, c) && v == c.value))
  {
    BoundsEncloseTheDomain(v, c.columnType);
    match c
    case Between(_, _, lower, upper) =>
      LessIsTotal(v, lower);
      LessIsTotal(v, upper);
    case Comparison(_, _, _, value) =>
      LessIsTotal(v, value);
  }

  /** An equality search finds exactly what matches. */
  lemma EqualityCaptures(v: Value, c: Condition)
    requires InDomain(v, c.columnType) && Typed(c) && EqualityKey(c).Ok?
    ensures v == EqualityKey(c).value <==> MatchesValue(v, c)
  {
    BoundsEncloseTheDomain(v, c.columnType);
    LessIsTotal(v, c.value);
  }

  /** A range whose ends are equal holds that value alone. */
  lemma EqualEnds(v: Value, key: Value)
    requires SameKind(v, key)
    ensures Enclosed(v, key, key) <==> v == key
  {
    LessIsTotal(v, key);
  }
}
