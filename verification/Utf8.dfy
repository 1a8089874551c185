/** UTF-8 as RFC 3629 defines it: encoding, the byte patterns of section 4, and the order of
    encoded strings. */
module Utf8 {
  type Byte = b: nat | b < 0x100

  /** Unicode scalar values: code points without the surrogates. */
  type Scalar = c: nat | c <= 0x10FFFF && !(0xD800 <= c <= 0xDFFF)

  /* ---------------------------------------------------------------- encoding */

  /** The octets of one character, by the table in section 3. */
  function EncodeOne(c: Scalar): (e: seq<Byte>)
    ensures 1 <= |e| <= 4
  {
    if c < 0x80 then [c]
    else if c < 0x800 then [0xC0 + c / 64, 0x80 + c % 64]
    else if c < 0x10000 then [0xE0 + c / 64 / 64, 0x80 + c / 64 % 64, 0x80 + c % 64]
    else [0xF0 + c / 64 / 64 / 64, 0x80 + c / 64 / 64 % 64, 0x80 + c / 64 % 64, 0x80 + c % 64]
  }

  function Encode(s: seq<Scalar>): seq<Byte> {
    if s == [] then [] else EncodeOne(s[0]) + Encode(s[1..])
  }

  ghost predicate WellFormed(data: seq<Byte>) {
    exists s: seq<Scalar> :: Encode(s) == data
  }

  /* ---------------------------------------------------------------- recognising */

  /** How many octets a sequence with this first octet has; 0 if none starts with it. */
  function SequenceLength(lead: Byte): nat {
    if lead < 0x80 then 1
    else if 0xC2 <= lead <= 0xDF then 2
    else if 0xE0 <= lead <= 0xEF then 3
    else if 0xF0 <= lead <= 0xF4 then 4
    else 0
  }

  /** The octets allowed in second place: fewer than `80-BF` after E0, ED, F0 and F4. */
  predicate SecondAllowed(lead: Byte, b: Byte) {
    && (if lead == 0xE0 then 0xA0 else if lead == 0xF0 then 0x90 else 0x80) <= b
    && b <= (if lead == 0xED then 0x9F else if lead == 0xF4 then 0x8F else 0xBF)
  }

  predicate Tail(b: Byte) {
    0x80 <= b <= 0xBF
  }

  datatype First = Char(n: nat) | Truncated | IllFormed

  /** What a non-empty byte string starts with. */
  function FirstOf(data: seq<Byte>): (f: First)
    requires data != []
    ensures f.Char? ==> 1 <= f.n <= |data| && f.n <= 4
  {
    var n := SequenceLength(data[0]);
    if n == 0 then IllFormed
    else if n == 1 then Char(1)
    else if |data| == 1 then Truncated
    else if !SecondAllowed(data[0], data[1]) then IllFormed
    else if n == 2 then Char(2)
    else if |data| == 2 then Truncated
    else if !Tail(data[2]) then IllFormed
    else if n == 3 then Char(3)
    else if |data| == 3 then Truncated
    else if !Tail(data[3]) then IllFormed
    else Char(4)
  }

  lemma FirstOfEncoded(c: Scalar, rest: seq<Byte>)
    ensures FirstOf(EncodeOne(c) + rest) == Char(|EncodeOne(c)|)
  {
  }

  /** The character a recognised sequence stands for. */
  function DecodeFirst(data: seq<Byte>): (c: Scalar)
    requires data != [] && FirstOf(data).Char?
    ensures EncodeOne(c) == data[..FirstOf(data).n]
  {
    var lead: int, n := data[0], FirstOf(data).n;
    if n == 1 then lead
    else if n == 2 then
      TwoOctets(data[0], data[1]);
      (lead - 0xC0) * 64 + Low6(data[1])
    else if n == 3 then
      ThreeOctets(data[0], data[1], data[2]);
      ((lead - 0xE0) * 64 + Low6(data[1])) * 64 + Low6(data[2])
    else
      FourOctets(data[0], data[1], data[2], data[3]);
      (((lead - 0xF0) * 64 + Low6(data[1])) * 64 + Low6(data[2])) * 64 + Low6(data[3])
  }

  /** The six bits a continuation octet carries. */
  function Low6(b: Byte): (x: int) {
    b - 0x80
  }

  lemma Horner(high: nat, low: nat)
    requires low < 64
    ensures (high * 64 + low) / 64 == high && (high * 64 + low) % 64 == low
  {
  }

  lemma TwoOctets(a: Byte, b: Byte)
    requires SequenceLength(a) == 2 && SecondAllowed(a, b)
    ensures var c: int := (a - 0xC0) * 64 + Low6(b);
      0x80 <= c < 0x800 && EncodeOne(c) == [a, b]
  {
  }

  lemma ThreeOctets(a: Byte, b: Byte, d: Byte)
    requires SequenceLength(a) == 3 && SecondAllowed(a, b) && Tail(d)
    ensures var c: int := ((a - 0xE0) * 64 + Low6(b)) * 64 + Low6(d);
      0x800 <= c < 0x10000 && !(0xD800 <= c <= 0xDFFF) && EncodeOne(c) == [a, b, d]
  {
  }

  lemma FourOctets(a: Byte, b: Byte, d: Byte, e: Byte)
    requires SequenceLength(a) == 4 && SecondAllowed(a, b) && Tail(d) && Tail(e)
    ensures var c: int := (((a - 0xF0) * 64 + Low6(b)) * 64 + Low6(d)) * 64 + Low6(e);
      0x10000 <= c <= 0x10FFFF && EncodeOne(c) == [a, b, d, e]
  {
    Horner(a - 0xF0, Low6(b));
    Horner((a - 0xF0) * 64 + Low6(b), Low6(d));
    Horner(((a - 0xF0) * 64 + Low6(b)) * 64 + Low6(d), Low6(e));
  }

  lemma FirstOfExtended(data: seq<Byte>, more: seq<Byte>)
    requires data != [] && !FirstOf(data).Truncated?
    ensures FirstOf(data + more) == FirstOf(data)
  {
  }

  /** How far a decoder gets through `data`: to the start of an unfinished character at the end, or
      to the first octets that start no character. */
  datatype Progress = Clean(consumed: nat) | Ill(at: nat)

  function Scan(data: seq<Byte>): (p: Progress)
    ensures p.Clean? ==> p.consumed <= |data|
    ensures p.Ill? ==> p.at < |data|
  {
    if data == [] then Clean(0)
    else
      match FirstOf(data)
      case IllFormed => Ill(0)
      case Truncated => Clean(0)
      case Char(n) =>
        match Scan(data[n..])
        case Clean(consumed) => Clean(n + consumed)
        case Ill(at) => Ill(n + at)
  }

  /** How far scanning `data` gets, as a number of octets. */
  function Reach(data: seq<Byte>): (n: nat)
    ensures n <= |data|
  {
    match Scan(data)
    case Clean(consumed) => consumed
    case Ill(at) => at
  }

  lemma {:induction false} ScanEncoded(s: seq<Scalar>, rest: seq<Byte>)
    ensures Scan(Encode(s) + rest)
         == (match Scan(rest)
             case Clean(consumed) => Clean(|Encode(s)| + consumed)
             case Ill(at) => Ill(|Encode(s)| + at))
  {
    if s == [] {
      assert Encode(s) + rest == rest;
    } else {
      var e, tail := EncodeOne(s[0]), Encode(s[1..]) + rest;
      assert Encode(s) + rest == e + tail;
      FirstOfEncoded(s[0], tail);
      assert (e + tail)[|e|..] == tail;
      ScanEncoded(s[1..], rest);
    }
  }

  lemma ReachStep(data: seq<Byte>, n: nat)
    requires data != [] && FirstOf(data) == Char(n)
    ensures n <= |data| && Reach(data) == n + Reach(data[n..])
    ensures data[..Reach(data)] == data[..n] + data[n..][..Reach(data[n..])]
  {
  }

  lemma EncodeFirst(c: Scalar, t: seq<Scalar>)
    ensures Encode([c] + t) == EncodeOne(c) + Encode(t)
  {
    assert ([c] + t)[1..] == t;
  }

  /** The part a scan gets through is well-formed. */
  lemma {:induction false} ReachWellFormed(data: seq<Byte>) returns (s: seq<Scalar>)
    ensures Encode(s) == data[..Reach(data)]
  {
    if data == [] || !FirstOf(data).Char? {
      s := [];
    } else {
      var n := FirstOf(data).n;
      var t := ReachWellFormed(data[n..]);
      s := [DecodeFirst(data)] + t;
      EncodeFirst(DecodeFirst(data), t);
      ReachStep(data, n);
    }
  }

  /** Scanning gets through all of a byte string exactly when it is the encoding of some string of
      scalar values. */
  lemma WellFormedIsScanned(data: seq<Byte>)
    ensures WellFormed(data) <==> Scan(data) == Clean(|data|)
  {
    if WellFormed(data) {
      var s: seq<Scalar> :| Encode(s) == data;
      ScanEncoded(s, []);
      assert data + [] == data;
    }
    var s := ReachWellFormed(data);
    assert data[..|data|] == data;
  }

  /** A scan stops at the end of the longest well-formed prefix. */
  lemma ReachIsLongest(data: seq<Byte>)
    ensures WellFormed(data[..Reach(data)])
    ensures forall m | 0 <= m <= |data| && WellFormed(data[..m]) :: m <= Reach(data)
  {
    var s := ReachWellFormed(data);
    forall m | 0 <= m <= |data| && WellFormed(data[..m])
      ensures m <= Reach(data)
    {
      var t: seq<Scalar> :| Encode(t) == data[..m];
      ScanEncoded(t, data[m..]);
      assert data == data[..m] + data[m..];
    }
  }

  /** Scanning can be interrupted anywhere: what follows the consumed octets decides the rest. */
  lemma {:induction false} ScanResumes(data: seq<Byte>, more: seq<Byte>)
    ensures Scan(data).Ill? ==> Scan(data + more) == Scan(data)
    ensures Scan(data).Clean? ==>
              var n := Scan(data).consumed;
              Scan(data + more) == (match Scan(data[n..] + more)
                                    case Clean(consumed) => Clean(n + consumed)
                                    case Ill(at) => Ill(n + at))
  {
    if data == [] || FirstOf(data).Truncated? {
      assert data[0..] == data;
    } else {
      FirstOfExtended(data, more);
      if FirstOf(data).Char? {
        var n := FirstOf(data).n;
        assert (data + more)[n..] == data[n..] + more;
        ScanResumes(data[n..], more);
        if Scan(data[n..]).Clean? {
          assert data[n + Scan(data[n..]).consumed..] == data[n..][Scan(data[n..]).consumed..];
        }
      }
    }
  }

  /** The octets a scan leaves over belong to one unfinished character, so none is a line feed. */
  lemma {:induction false} LeftoverIsShort(data: seq<Byte>)
    requires Scan(data).Clean?
    ensures |data| - Scan(data).consumed <= 3
    ensures forall i | Scan(data).consumed <= i < |data| :: 0x80 <= data[i]
  {
    if data != [] && FirstOf(data).Char? {
      var n := FirstOf(data).n;
      LeftoverIsShort(data[n..]);
      forall i | Scan(data).consumed <= i < |data|
        ensures 0x80 <= data[i]
      {
        assert data[i] == data[n..][i - n];
      }
    }
  }

  /* ---------------------------------------------------------------- order */

  /** Lexicographic order, on code points as on octets. */
  predicate LexLe(a: seq<nat>, b: seq<nat>) {
    a == [] || (b != [] && (a[0] < b[0] || (a[0] == b[0] && LexLe(a[1..], b[1..]))))
  }

  lemma {:induction false} LexTotal(a: seq<nat>, b: seq<nat>)
    ensures LexLe(a, b) || LexLe(b, a)
    ensures LexLe(a, b) && LexLe(b, a) ==> a == b
  {
    if a != [] && b != [] {
      LexTotal(a[1..], b[1..]);
      assert a == [a[0]] + a[1..] && b == [b[0]] + b[1..];
    }
  }

  lemma {:induction false} LexTransitive(a: seq<nat>, b: seq<nat>, c: seq<nat>)
    requires LexLe(a, b) && LexLe(b, c)
    ensures LexLe(a, c)
  {
    if a != [] && a[0] == b[0] == c[0] {
      LexTransitive(a[1..], b[1..], c[1..]);
    }
  }

  lemma {:induction false} LexCommonPrefix(p: seq<nat>, a: seq<nat>, b: seq<nat>)
    ensures LexLe(p + a, p + b) <==> LexLe(a, b)
  {
    if p == [] {
      assert p + a == a && p + b == b;
    } else {
      assert (p + a)[1..] == p[1..] + a && (p + b)[1..] == p[1..] + b;
      LexCommonPrefix(p[1..], a, b);
    }
  }

  ghost predicate DiffersAt(x: seq<Byte>, y: seq<Byte>, i: nat) {
    i < |x| && i < |y| && x[..i] == y[..i] && x[i] < y[i]
  }

  /** The encodings of a smaller and a larger character differ at some octet, which is smaller. */
  lemma FirstDifference(c: Scalar, d: Scalar) returns (i: nat)
    requires c < d
    ensures DiffersAt(EncodeOne(c), EncodeOne(d), i)
  {
    var x, y := EncodeOne(c), EncodeOne(d);
    if |x| != |y| || |x| == 1 {
      i := 0;
    } else if |x| == 2 {
      i := if c / 64 < d / 64 then 0 else 1;
    } else if |x| == 3 {
      i := ThreeOctetsDiffer(c, d);
    } else {
      i := FourOctetsDiffer(c, d);
    }
  }

  lemma ThreeOctetsDiffer(c: Scalar, d: Scalar) returns (i: nat)
    requires c < d && |EncodeOne(c)| == |EncodeOne(d)| == 3
    ensures DiffersAt(EncodeOne(c), EncodeOne(d), i)
  {
    i := if c / 64 / 64 < d / 64 / 64 then 0 else if c / 64 < d / 64 then 1 else 2;
  }

  lemma FourOctetsDiffer(c: Scalar, d: Scalar) returns (i: nat)
    requires c < d && |EncodeOne(c)| == |EncodeOne(d)| == 4
    ensures DiffersAt(EncodeOne(c), EncodeOne(d), i)
  {
    i := if c / 64 / 64 / 64 < d / 64 / 64 / 64 then 0
    else if c / 64 / 64 < d / 64 / 64 then 1 else if c / 64 < d / 64 then 2 else 3;
  }

  lemma DifferenceDecides(x: seq<Byte>, y: seq<Byte>, i: nat, a: seq<Byte>, b: seq<Byte>)
    requires DiffersAt(x, y, i)
    ensures LexLe(x + a, y + b) && !LexLe(y + b, x + a)
  {
    var u, v := [x[i]] + (x[i + 1..] + a), [y[i]] + (y[i + 1..] + b);
    assert x + a == x[..i] + u;
    assert y + b == x[..i] + v;
    LexCommonPrefix(x[..i], u, v);
    LexCommonPrefix(x[..i], v, u);
  }

  lemma OneOrder(c: Scalar, d: Scalar, a: seq<Byte>, b: seq<Byte>)
    requires c < d
    ensures LexLe(EncodeOne(c) + a, EncodeOne(d) + b)
    ensures !LexLe(EncodeOne(d) + b, EncodeOne(c) + a)
  {
    var i := FirstDifference(c, d);
    DifferenceDecides(EncodeOne(c), EncodeOne(d), i, a, b);
  }

  /** Section 1: octet order is code point order. */
  lemma {:induction false} EncodingKeepsOrder(s: seq<Scalar>, t: seq<Scalar>)
    ensures LexLe(Encode(s), Encode(t)) <==> LexLe(s, t)
  {
    if s != [] && t != [] {
      if s[0] == t[0] {
        EncodingKeepsOrder(s[1..], t[1..]);
        LexCommonPrefix(EncodeOne(s[0]), Encode(s[1..]), Encode(t[1..]));
      } else if s[0] < t[0] {
        OneOrder(s[0], t[0], Encode(s[1..]), Encode(t[1..]));
      } else {
        OneOrder(t[0], s[0], Encode(t[1..]), Encode(s[1..]));
      }
    }
  }

  /** Encoding loses nothing. */
  lemma EncodingIsInjective(s: seq<Scalar>, t: seq<Scalar>)
    requires Encode(s) == Encode(t)
    ensures s == t
  {
    EncodingKeepsOrder(s, t);
    EncodingKeepsOrder(t, s);
    LexTotal(Encode(s), Encode(t));
    LexTotal(s, t);
  }

  /* ---------------------------------------------------------------- the greatest string */

  const LAST: Scalar := 0x10FFFF

  /** The upper bound the repository uses for VARCHAR(n): the largest character as often as it
      fits, and the largest that fits in the octets left over. */
  function Greatest(n: nat): seq<Scalar> {
    if 4 <= n then [LAST] + Greatest(n - 4)
    else if n == 3 then [0xFFFF]
    else if n == 2 then [0x7FF]
    else if n == 1 then [0x7F]
    else []
  }

  lemma {:induction false} GreatestFillsTheColumn(n: nat)
    ensures |Encode(Greatest(n))| == n
  {
    if 4 <= n {
      GreatestFillsTheColumn(n - 4);
      assert Greatest(n)[1..] == Greatest(n - 4);
    } else if n != 0 {
      assert Greatest(n)[1..] == [];
    }
  }

  /** No string of at most `n` octets is greater, in either order. */
  lemma {:induction false} GreatestIsGreatest(n: nat, s: seq<Scalar>)
    requires |Encode(s)| <= n
    ensures LexLe(s, Greatest(n))
    ensures LexLe(Encode(s), Encode(Greatest(n)))
    decreases n
  {
    if s != [] {
      if 4 <= n {
        assert Greatest(n)[1..] == Greatest(n - 4);
        if s[0] == LAST {
          GreatestIsGreatest(n - 4, s[1..]);
        }
      } else {
        assert s[0] == Greatest(n)[0] ==> s[1..] == [];
      }
    }
    EncodingKeepsOrder(s, Greatest(n));
  }
}
