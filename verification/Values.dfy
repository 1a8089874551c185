/** Column types, values, and their order. */
module Values {
  import opened Utf8

  /** Doubles without NaN, which SQL literals and CSV fields cannot produce. */
  datatype Extended = NegInf | Finite(r: real) | PosInf

  const INT_MIN: int := -0x8000_0000
  const INT_MAX: int := 0x7FFF_FFFF

  datatype SqlType = IntType | DoubleType | BoolType | DateType | VarcharType(length: nat) | PointType

  datatype Value =
    | IntValue(i: int)
    | DoubleValue(x: Extended)
    | BoolValue(b: bool)
    | DateValue(day: int)
    | TextValue(s: seq<Scalar>)
    | PointValue(latitude: real, longitude: real)

  type Row = seq<Value>

  predicate ExtendedLess(x: Extended, y: Extended) {
    match (x, y)
    case (NegInf, _) => !y.NegInf?
    case (_, PosInf) => !x.PosInf?
    case (Finite(a), Finite(b)) => a < b
    case _ => false
  }

  /** Are the two values of the same kind, so that they can be compared? */
  predicate SameKind(a: Value, b: Value) {
    match a
    case IntValue(_) => b.IntValue?
    case DoubleValue(_) => b.DoubleValue?
    case BoolValue(_) => b.BoolValue?
    case DateValue(_) => b.DateValue?
    case TextValue(_) => b.TextValue?
    case PointValue(_, _) => b.PointValue?
  }

  /** The order of values of one kind: numbers by size, false before true, texts by code points,
      points by latitude and then longitude. */
  predicate Less(a: Value, b: Value) {
    match (a, b)
    case (IntValue(i), IntValue(j)) => i < j
    case (DoubleValue(x), DoubleValue(y)) => ExtendedLess(x, y)
    case (BoolValue(p), BoolValue(q)) => !p && q
    case (DateValue(d), DateValue(e)) => d < e
    case (TextValue(s), TextValue(t)) => !LexLe(t, s)
    case (PointValue(x, y), PointValue(u, v)) => x < u || (x == u && y < v)
    case _ => false
  }

  /** Comparison by `<` alone, as -1, 0 or 1. */
  function Compare(a: Value, b: Value): int {
    if Less(a, b) then -1 else if Less(b, a) then 1 else 0
  }

  /** The value lies between two values, both included. */
  predicate Enclosed(v: Value, lower: Value, upper: Value) {
    !Less(v, lower) && !Less(upper, v)
  }

  /** On values of one kind, `Less` is a strict total order, so 0 means equal. */
  lemma LessIsTotal(a: Value, b: Value)
    requires SameKind(a, b)
    ensures !(Less(a, b) && Less(b, a))
    ensures Less(a, b) || Less(b, a) || a == b
    ensures Compare(a, b) == 0 <==> a == b
  {
    if a.TextValue? {
      LexTotal(a.s, b.s);
      LexTotal(a.s, a.s);
    }
  }

  lemma LessIsTransitive(a: Value, b: Value, c: Value)
    requires SameKind(a, b) && SameKind(b, c) && Less(a, b) && Less(b, c)
    ensures Less(a, c)
  {
    if a.TextValue? {
      LexTotal(a.s, b.s);
      LexTotal(b.s, c.s);
      if LexLe(c.s, a.s) {
        LexTransitive(c.s, a.s, b.s);
      }
    }
  }

  /** A text comes before another where they first differ, or where it ends. */
  ghost predicate ComesFirst(s: seq<nat>, t: seq<nat>, i: nat) {
    i <= |s| && i < |t| && s[..i] == t[..i] && (i == |s| || s[i] < t[i])
  }

  lemma SameHead(s: seq<nat>, t: seq<nat>, i: nat)
    requires ComesFirst(s, t, i)
    ensures i == 0 || s[0] == t[0]
  {
    if i != 0 {
      assert s[..i][0] == t[..i][0];
    }
  }

  lemma {:induction false} LexDecides(s: seq<nat>, t: seq<nat>)
    ensures !LexLe(t, s) <==> exists i :: ComesFirst(s, t, i)
  {
    forall i: nat | ComesFirst(s, t, i)
      ensures i == 0 || s[0] == t[0]
    {
      SameHead(s, t, i);
    }
    if s != [] && t != [] && s[0] == t[0] {
      LexDecides(s[1..], t[1..]);
      if i: nat :| ComesFirst(s[1..], t[1..], i) {
        var j: nat := i + 1;
        assert s[..j] == [s[0]] + s[1..][..i] && t[..j] == [t[0]] + t[1..][..i];
        assert ComesFirst(s, t, j);
      }
      if j: nat :| ComesFirst(s, t, j) {
        assert j != 0;
        var i: nat := j - 1;
        assert s[1..][..i] == s[..j][1..] && t[1..][..i] == t[..j][1..];
        assert ComesFirst(s[1..], t[1..], i);
      }
    } else if t != [] {
      if s == [] || s[0] < t[0] {
        assert ComesFirst(s, t, 0);
      }
    }
  }

  /** A real number at which the second double has not been reached and the first one has. */
  predicate Parts(q: real, x: Extended, y: Extended) {
    && (x.NegInf? || (x.Finite? && x.r <= q))
    && (y.PosInf? || (y.Finite? && q < y.r))
  }

  /** What the order means: of doubles, that some real number parts the two, with the infinities at the
      ends; of texts, that the first comes first where they differ. */
  lemma LessMeans(a: Value, b: Value)
    requires SameKind(a, b)
    ensures a.IntValue? ==> (Less(a, b) <==> a.i < b.i)
    ensures a.DoubleValue? ==> (Less(a, b) <==> exists q :: Parts(q, a.x, b.x))
    ensures a.BoolValue? ==> (Less(a, b) <==> a.b == false && b.b == true)
    ensures a.DateValue? ==> (Less(a, b) <==> a.day < b.day)
    ensures a.TextValue? ==> (Less(a, b) <==> exists i :: ComesFirst(a.s, b.s, i))
    ensures a.PointValue? ==>
              (Less(a, b) <==> if a.latitude == b.latitude then a.longitude < b.longitude else a.latitude < b.latitude)
  {
    match a
    case TextValue(s) => LexDecides(s, b.s);
    case DoubleValue(x) =>
      var q := if x.Finite? then x.r else if b.x.Finite? then b.x.r - 1.0 else 0.0;
      assert Less(a, b) ==> Parts(q, x, b.x);
    case _ =>
  }

  /** The core compares texts by their octets; that is the same order. */
  lemma TextOrderIsOctetOrder(s: seq<Scalar>, t: seq<Scalar>)
    ensures Less(TextValue(s), TextValue(t)) <==> !LexLe(Encode(t), Encode(s))
  {
    EncodingKeepsOrder(t, s);
  }

  /** The values a column of this type can hold. */
  predicate InDomain(v: Value, t: SqlType) {
    match t
    case IntType => v.IntValue? && INT_MIN <= v.i <= INT_MAX
    case DoubleType => v.DoubleValue?
    case BoolType => v.BoolValue?
    case DateType => v.DateValue? && INT_MIN <= v.day <= INT_MAX
    case VarcharType(n) => v.TextValue? && |Encode(v.s)| <= n
    case PointType => v.PointValue? && -90.0 <= v.latitude <= 90.0 && -180.0 <= v.longitude <= 180.0
  }

  predicate TypedRow(row: Row, types: seq<SqlType>) {
    |row| == |types| && forall i | 0 <= i < |row| :: InDomain(row[i], types[i])
  }
}
