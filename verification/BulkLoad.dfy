/** How a CSV upload decides the encoding of a file it reads in blocks. */
module BulkLoad {
  import opened Utf8

  const LF: Byte := 10

  datatype Check = Accepted | Rejected(line: nat)
  datatype Encoding = Utf8Text | Cp1252Text | NoEncoding(line: nat)

  function Flatten(chunks: seq<seq<Byte>>): seq<Byte> {
    if chunks == [] then [] else Flatten(chunks[..|chunks| - 1]) + chunks[|chunks| - 1]
  }

  function CountLF(data: seq<Byte>): nat {
    if data == [] then 0
    else CountLF(data[..|data| - 1]) + (if data[|data| - 1] == LF then 1 else 0)
  }

  lemma {:induction false} CountAppend(a: seq<Byte>, b: seq<Byte>)
    ensures CountLF(a + b) == CountLF(a) + CountLF(b)
  {
    if b == [] {
      assert a + b == a;
    } else {
      assert (a + b)[..|a + b| - 1] == a + b[..|b| - 1];
      CountAppend(a, b[..|b| - 1]);
    }
  }

  lemma {:induction false} CountNone(data: seq<Byte>)
    requires forall i | 0 <= i < |data| :: data[i] != LF
    ensures CountLF(data) == 0
  {
    if data != [] {
      CountNone(data[..|data| - 1]);
    }
  }

  /** The verdict on a whole file: its line is that of the first octet no character starts with. */
  function Verdict(data: seq<Byte>): Check {
    if Scan(data) == Clean(|data|) then Accepted else Rejected(1 + CountLF(data[..Reach(data)]))
  }

  /** The verdict accepts exactly what encodes a string of scalar values, and otherwise names the
      line on which the longest well-formed prefix ends. */
  lemma VerdictMeans(data: seq<Byte>)
    ensures Verdict(data).Accepted? <==> WellFormed(data)
    ensures Verdict(data).Rejected? ==>
              exists n | 0 <= n <= |data| ::
                && WellFormed(data[..n])
                && (forall m | 0 <= m <= |data| && WellFormed(data[..m]) :: m <= n)
                && Verdict(data).line == 1 + CountLF(data[..n])
  {
    WellFormedIsScanned(data);
    ReachIsLongest(data);
  }

  /** Where the check stands after the octets `before`: no bad octet yet, an unfinished character
      at the end, and the line that is being read. */
  ghost predicate Standing(before: seq<Byte>, pending: seq<Byte>, line: int) {
    && Scan(before).Clean?
    && pending == before[Scan(before).consumed..]
    && line == 1 + CountLF(before[..Scan(before).consumed])
  }

  ghost predicate NoLF(data: seq<Byte>) {
    forall i | 0 <= i < |data| :: data[i] != LF
  }

  lemma PendingHasNoLF(before: seq<Byte>, pending: seq<Byte>, line: int)
    requires Standing(before, pending, line)
    ensures NoLF(pending)
  {
    LeftoverIsShort(before);
  }

  lemma Regroup(before: seq<Byte>, n: nat, chunk: seq<Byte>)
    requires n <= |before|
    ensures before + chunk == before[..n] + (before[n..] + chunk)
  {
  }

  lemma BlockResumes(before: seq<Byte>, pending: seq<Byte>, line: int, chunk: seq<Byte>)
    requires Standing(before, pending, line)
    ensures Reach(before + chunk) == Scan(before).consumed + Reach(pending + chunk)
    ensures Scan(before + chunk).Clean? == Scan(pending + chunk).Clean?
  {
    ScanResumes(before, chunk);
  }

  /** How much of a block lies before position `at` of `pending + chunk`. */
  function Cut(pending: seq<Byte>, at: nat): nat {
    if at < |pending| then 0 else at - |pending|
  }

  /** Counting line feeds in the block alone is counting them in everything read. */
  lemma CountedInBlock(good: seq<Byte>, pending: seq<Byte>, chunk: seq<Byte>, at: nat)
    requires NoLF(pending) && at <= |pending| + |chunk|
    ensures CountLF((good + (pending + chunk))[..|good| + at]) == CountLF(good) + CountLF(chunk[..Cut(pending, at)])
  {
    var data := pending + chunk;
    assert (good + data)[..|good| + at] == good + data[..at];
    CountAppend(good, data[..at]);
    if at < |pending| {
      assert data[..at] == pending[..at];
      CountNone(pending[..at]);
    } else {
      assert data[..at] == pending + chunk[..at - |pending|];
      CountNone(pending);
      CountAppend(pending, chunk[..at - |pending|]);
    }
  }

  lemma NoneFurtherOn(data: seq<Byte>, at: nat, from: nat)
    requires at <= from <= |data| && NoLF(data[at..])
    ensures CountLF(data[from..]) == 0
  {
    var tail := data[from..];
    forall i | 0 <= i < |tail|
      ensures tail[i] != LF
    {
      assert data[at..][from - at + i] == data[from + i];
    }
    CountNone(tail);
  }

  /** Nothing is missed by counting all of a block when what is left over has no line feed. */
  lemma CountedToTheEnd(pending: seq<Byte>, chunk: seq<Byte>, at: nat)
    requires at <= |pending| + |chunk| && NoLF((pending + chunk)[at..])
    ensures CountLF(chunk) == CountLF(chunk[..Cut(pending, at)])
  {
    NoneInRest(pending, chunk, at, Cut(pending, at));
    CountInTwo(chunk, Cut(pending, at));
  }

  lemma NoneInRest(pending: seq<Byte>, chunk: seq<Byte>, at: nat, cut: nat)
    requires at <= |pending| + cut <= |pending| + |chunk| && NoLF((pending + chunk)[at..])
    ensures CountLF(chunk[cut..]) == 0
  {
    BehindFirst(pending, chunk, cut);
    NoneFurtherOn(pending + chunk, at, |pending| + cut);
  }

  lemma BehindFirst(first: seq<Byte>, second: seq<Byte>, n: nat)
    requires n <= |second|
    ensures (first + second)[|first| + n..] == second[n..]
  {
  }

  lemma CountInTwo(data: seq<Byte>, n: nat)
    requires n <= |data|
    ensures CountLF(data) == CountLF(data[..n]) + CountLF(data[n..])
  {
    assert data == data[..n] + data[n..];
    CountAppend(data[..n], data[n..]);
  }

  /** The line on which the good part of a block ends. */
  lemma LineAfter(before: seq<Byte>, pending: seq<Byte>, line: int, chunk: seq<Byte>)
    requires Standing(before, pending, line)
    ensures var at := Reach(pending + chunk);
      && Cut(pending, at) <= |chunk|
      && line + CountLF(chunk[..Cut(pending, at)]) == 1 + CountLF((before + chunk)[..Reach(before + chunk)])
  {
    var consumed, at := Scan(before).consumed, Reach(pending + chunk);
    var good := before[..consumed];
    BlockResumes(before, pending, line, chunk);
    PendingHasNoLF(before, pending, line);
    Regroup(before, consumed, chunk);
    CountedInBlock(good, pending, chunk, at);
    SameCount(before + chunk, good + (pending + chunk), Reach(before + chunk), |good| + at);
  }

  lemma SameCount(a: seq<Byte>, b: seq<Byte>, m: nat, n: nat)
    requires a == b && m == n <= |a|
    ensures CountLF(a[..m]) == CountLF(b[..n])
  {
  }

  lemma Leftover(before: seq<Byte>, pending: seq<Byte>, line: int, chunk: seq<Byte>)
    requires Standing(before, pending, line) && Scan(pending + chunk).Clean?
    ensures Scan(before + chunk).Clean?
    ensures (before + chunk)[Reach(before + chunk)..] == (pending + chunk)[Reach(pending + chunk)..]
  {
    var consumed := Scan(before).consumed;
    BlockResumes(before, pending, line, chunk);
    Regroup(before, consumed, chunk);
    SameRest(before + chunk, before[..consumed], pending + chunk, Reach(before + chunk), Reach(pending + chunk));
  }

  lemma SameRest(whole: seq<Byte>, first: seq<Byte>, second: seq<Byte>, m: nat, n: nat)
    requires whole == first + second && m == |first| + n && n <= |second|
    ensures whole[m..] == second[n..]
  {
  }

  /** After a block without bad octets, all of its line feeds are counted. */
  lemma CleanBlock(before: seq<Byte>, pending: seq<Byte>, line: int, chunk: seq<Byte>)
    requires Standing(before, pending, line) && Scan(pending + chunk).Clean?
    ensures Standing(before + chunk, (pending + chunk)[Scan(pending + chunk).consumed..], line + CountLF(chunk))
  {
    Leftover(before, pending, line, chunk);
    LineAfter(before, pending, line, chunk);
    LeftoverIsShort(pending + chunk);
    CountedToTheEnd(pending, chunk, Reach(pending + chunk));
  }

  /** However the file is cut into blocks, the check gives the verdict on the whole file. */
  method CheckUtf8(chunks: seq<seq<Byte>>) returns (r: Check)
    ensures r == Verdict(Flatten(chunks))
  {
    var pending: seq<Byte> := [];
    var line := 1;
    for i := 0 to |chunks|
      invariant 1 <= line && Standing(Flatten(chunks[..i]), pending, line)
    {
      var chunk := chunks[i];
      ghost var before := Flatten(chunks[..i]);
      assert chunks[..i + 1][..i] == chunks[..i];
      match Scan(pending + chunk) {
        case Ill(at) =>
          BlockResumes(before, pending, line, chunk);
          LineAfter(before, pending, line, chunk);
          RejectionStands(chunks, i + 1);
          return Rejected(line + CountLF(chunk[..Cut(pending, at)]));
        case Clean(consumed) =>
          CleanBlock(before, pending, line, chunk);
          pending := (pending + chunk)[consumed..];
          line := line + CountLF(chunk);
      }
    }
    assert chunks[..|chunks|] == chunks;
    return if pending == [] then Accepted else Rejected(line);
  }

  /** Octets that no character starts with stay so, whatever is read after them. */
  lemma {:induction false} RejectionStands(chunks: seq<seq<Byte>>, i: nat)
    requires i <= |chunks| && Scan(Flatten(chunks[..i])).Ill?
    ensures Scan(Flatten(chunks)) == Scan(Flatten(chunks[..i]))
    ensures Flatten(chunks)[..Reach(Flatten(chunks))] == Flatten(chunks[..i])[..Reach(Flatten(chunks[..i]))]
    decreases |chunks|
  {
    if i == |chunks| {
      assert chunks[..i] == chunks;
    } else {
      var shorter := chunks[..|chunks| - 1];
      assert shorter[..i] == chunks[..i];
      RejectionStands(shorter, i);
      ScanResumes(Flatten(shorter), chunks[|chunks| - 1]);
    }
  }

  /* ---------------------------------------------------------------- choosing an encoding */

  predicate IsPair(a: Byte, b: Byte) {
    0xC2 <= a <= 0xF4 && 0x80 <= b <= 0xBF
  }

  /** Somewhere an octet that starts a multi-octet character is followed by a continuation. */
  predicate HasMultibyte(data: seq<Byte>) {
    exists i :: 0 <= i < |data| - 1 && IsPair(data[i], data[i + 1])
  }

  function LastOf(data: seq<Byte>): seq<Byte> {
    if data == [] then [] else data[|data| - 1..]
  }

  method HasUtf8Multibyte(chunks: seq<seq<Byte>>) returns (found: bool)
    requires forall c | c in chunks :: c != []
    ensures found <==> HasMultibyte(Flatten(chunks))
    ensures found <==> HasWideStart(Flatten(chunks))
  {
    HasMultibyteMeans(Flatten(chunks));
    var last: seq<Byte> := [];
    for i := 0 to |chunks|
      invariant !HasMultibyte(Flatten(chunks[..i]))
      invariant last == LastOf(Flatten(chunks[..i]))
    {
      var chunk := chunks[i];
      ghost var before := Flatten(chunks[..i]);
      assert chunks[..i + 1][..i] == chunks[..i];
      assert chunk in chunks;
      PairAcrossBlocks(before, last, chunk);
      if HasMultibyte(last + chunk) {
        PairStays(chunks, i + 1);
        return true;
      }
      last := chunk[|chunk| - 1..];
    }
    assert chunks[..|chunks|] == chunks;
    return false;
  }

  lemma NoPairAt(data: seq<Byte>, i: nat)
    requires !HasMultibyte(data)
    ensures i + 1 < |data| ==> !IsPair(data[i], data[i + 1])
  {
  }

  lemma PairAcrossBlocks(before: seq<Byte>, last: seq<Byte>, chunk: seq<Byte>)
    requires !HasMultibyte(before)
    requires last == LastOf(before)
    ensures HasMultibyte(before + chunk) <==> HasMultibyte(last + chunk)
  {
    var skipped := |before| - |last|;
    forall i | 0 <= i < |before + chunk|
      ensures skipped <= i ==> (before + chunk)[i] == (last + chunk)[i - skipped]
      ensures i < |before| ==> (before + chunk)[i] == before[i]
    {
    }
    if HasMultibyte(last + chunk) {
      var i :| 0 <= i < |last + chunk| - 1 && IsPair((last + chunk)[i], (last + chunk)[i + 1]);
      assert IsPair((before + chunk)[skipped + i], (before + chunk)[skipped + i + 1]);
    }
    if HasMultibyte(before + chunk) {
      var i :| 0 <= i < |before + chunk| - 1 && IsPair((before + chunk)[i], (before + chunk)[i + 1]);
      NoPairAt(before, i);
      assert IsPair((last + chunk)[i - skipped], (last + chunk)[i - skipped + 1]);
    }
  }

  lemma {:induction false} PairStays(chunks: seq<seq<Byte>>, i: nat)
    requires i <= |chunks| && HasMultibyte(Flatten(chunks[..i]))
    ensures HasMultibyte(Flatten(chunks))
    decreases |chunks|
  {
    if i == |chunks| {
      assert chunks[..i] == chunks;
    } else {
      var shorter := chunks[..|chunks| - 1];
      assert shorter[..i] == chunks[..i];
      PairStays(shorter, i);
      var data := Flatten(shorter);
      var at :| 0 <= at < |data| - 1 && IsPair(data[at], data[at + 1]);
      assert IsPair(Flatten(chunks)[at], Flatten(chunks)[at + 1]);
    }
  }

  /** Windows-1252 leaves five octets undefined. */
  predicate Cp1252Defined(b: Byte) {
    b != 0x81 && b != 0x8D && b != 0x8F && b != 0x90 && b != 0x9D
  }

  predicate AllDefined(data: seq<Byte>) {
    forall i | 0 <= i < |data| :: Cp1252Defined(data[i])
  }

  lemma {:induction false} DefinedInBlocks(chunks: seq<seq<Byte>>)
    ensures AllDefined(Flatten(chunks)) <==> forall c | c in chunks :: AllDefined(c)
  {
    if chunks != [] {
      var shorter, last := chunks[..|chunks| - 1], chunks[|chunks| - 1];
      DefinedInBlocks(shorter);
      assert chunks == shorter + [last];
      assert forall c | c in shorter :: c in chunks;
      DefinedAppend(Flatten(shorter), last);
    }
  }

  lemma DefinedAppend(a: seq<Byte>, b: seq<Byte>)
    ensures AllDefined(a + b) <==> AllDefined(a) && AllDefined(b)
  {
    assert forall i | 0 <= i < |a| :: a[i] == (a + b)[i];
    assert forall i | 0 <= i < |b| :: b[i] == (a + b)[|a| + i];
  }

  /** The encoding of a whole file. */
  function EncodingOf(data: seq<Byte>): Encoding {
    match Verdict(data)
    case Accepted => Utf8Text
    case Rejected(line) =>
      if HasMultibyte(data) || !AllDefined(data) then NoEncoding(line) else Cp1252Text
  }

  /** However the file is cut into blocks, the choice is the one for the whole file. */
  method DetectEncoding(chunks: seq<seq<Byte>>) returns (e: Encoding)
    requires forall c | c in chunks :: c != []
    ensures e == EncodingOf(Flatten(chunks))
    ensures e == Utf8Text <==> WellFormed(Flatten(chunks))
    ensures e == Cp1252Text ==> !HasWideStart(Flatten(chunks))
  {
    EncodingMeans(Flatten(chunks));
    var check := CheckUtf8(chunks);
    if check.Accepted? {
      return Utf8Text;
    }
    var multibyte := HasUtf8Multibyte(chunks);
    if multibyte {
      return NoEncoding(check.line);
    }
    DefinedInBlocks(chunks);
    for i := 0 to |chunks|
      invariant forall c | c in chunks[..i] :: AllDefined(c)
    {
      if !AllDefined(chunks[i]) {
        return NoEncoding(check.line);
      }
    }
    assert chunks[..|chunks|] == chunks;
    return Cp1252Text;
  }

  /* ---------------------------------------------------------------- what the choice means */

  /** The encoding of some character above 0x7F starts with this octet. */
  ghost predicate StartsWide(b: Byte) {
    exists c: Scalar :: 0x80 <= c && EncodeOne(c)[0] == b
  }

  /** Some encoding has this octet after its first. */
  ghost predicate ComesLater(b: Byte) {
    exists c: Scalar, k: nat :: 0 < k < |EncodeOne(c)| && EncodeOne(c)[k] == b
  }

  /** Somewhere an octet that starts such a character stands before one that comes later in some. */
  ghost predicate HasWideStart(data: seq<Byte>) {
    exists i, j :: 0 <= i && j == i + 1 && j < |data| && StartsWide(data[i]) && ComesLater(data[j])
  }

  lemma StartsByValue(b: Byte)
    ensures StartsWide(b) <==> 0xC2 <= b <= 0xF4
  {
    if 0xC2 <= b <= 0xF4 {
      var c: Scalar :=
        if b < 0xE0 then (b - 0xC0) * 64
        else if b == 0xE0 then 0x800
        else if b < 0xF0 then (b - 0xE0) * 4096
        else if b == 0xF0 then 0x10000
        else (b - 0xF0) * 262144;
      assert EncodeOne(c)[0] == b;
    }
  }

  lemma LaterByValue(b: Byte)
    ensures ComesLater(b) <==> 0x80 <= b <= 0xBF
  {
    if 0x80 <= b <= 0xBF {
      assert EncodeOne(b)[1] == b;
    }
  }

  lemma PairMeans(a: Byte, b: Byte)
    ensures IsPair(a, b) <==> StartsWide(a) && ComesLater(b)
  {
    StartsByValue(a);
    LaterByValue(b);
  }

  lemma HasMultibyteMeans(data: seq<Byte>)
    ensures HasMultibyte(data) <==> HasWideStart(data)
  {
    if HasMultibyte(data) {
      var i :| 0 <= i < |data| - 1 && IsPair(data[i], data[i + 1]);
      var j := i + 1;
      PairMeans(data[i], data[j]);
    }
    if HasWideStart(data) {
      var i, j :| 0 <= i && j == i + 1 && j < |data| && StartsWide(data[i]) && ComesLater(data[j]);
      PairMeans(data[i], data[j]);
      assert IsPair(data[i], data[i + 1]);
    }
  }

  lemma {:induction false} LineFeedsAreCounted(data: seq<Byte>)
    ensures CountLF(data) == multiset(data)[10]
  {
    if data != [] {
      LineFeedsAreCounted(data[..|data| - 1]);
      assert data == data[..|data| - 1] + [data[|data| - 1]];
    }
  }

  /** UTF-8 is what encodes a string, Windows-1252 what does not, has all of its octets defined there,
      and nowhere looks like a character above 0x7F. Otherwise the file has no encoding, and the line
      is the one on which the longest well-formed beginning ends. */
  lemma EncodingMeans(data: seq<Byte>)
    ensures EncodingOf(data) == Utf8Text <==> WellFormed(data)
    ensures EncodingOf(data) == Cp1252Text <==>
            && !WellFormed(data) && !HasWideStart(data)
            && forall i | 0 <= i < |data| :: data[i] !in {0x81, 0x8D, 0x8F, 0x90, 0x9D}
    ensures EncodingOf(data).NoEncoding? ==>
              exists n | 0 <= n <= |data| ::
                && WellFormed(data[..n])
                && (forall m | 0 <= m <= |data| && WellFormed(data[..m]) :: m <= n)
                && EncodingOf(data).line == 1 + multiset(data[..n])[10]
  {
    VerdictMeans(data);
    HasMultibyteMeans(data);
    forall n | 0 <= n <= |data|
      ensures CountLF(data[..n]) == multiset(data[..n])[10]
    {
      LineFeedsAreCounted(data[..n]);
    }
  }

  /** A file in which a character above 0x7F is encoded whole is never taken for Windows-1252. */
  lemma WholeCharacterIsSeen(before: seq<Byte>, c: Scalar, after: seq<Byte>)
    requires 0x80 <= c
    ensures EncodingOf(before + EncodeOne(c) + after) != Cp1252Text
  {
    var data, i := before + EncodeOne(c) + after, |before|;
    var j := i + 1;
    assert data[i] == EncodeOne(c)[0] && data[j] == EncodeOne(c)[1];
    assert StartsWide(data[i]) && ComesLater(data[j]);
    HasMultibyteMeans(data);
  }
}
