/** A client that reads a framed answer to several ranges back. */
module RangeReading {
  import opened Text
  import opened Ranges

  // ---------- numbers ----------

  predicate AllDecimal(s: string) {
    forall i :: 0 <= i < |s| ==> '0' <= s[i] <= '9'
  }

  function Number(s: string): nat
    requires AllDecimal(s)
  {
    if s == "" then 0 else Number(s[..|s| - 1]) * 10 + (s[|s| - 1] as int - '0' as int)
  }

  /** A number is written in digits, without leading zeros. */
  lemma {:induction false} DecimalReads(n: nat)
    ensures AllDecimal(Decimal(n)) && Number(Decimal(n)) == n
    ensures n > 0 ==> Decimal(n)[0] != '0'
  {
    var s := Decimal(n);
    if n >= 10 {
      DecimalReads(n / 10);
      assert s[..|s| - 1] == Decimal(n / 10);
    } else {
      assert s[..0] == "";
    }
  }

  /** A bound of a range, -1 where it is missing. */
  function BoundOf(s: string): Option<int> {
    if s == "" then Some(-1) else if AllDecimal(s) then Some(Number(s) as int) else None
  }

  // ---------- one part ----------

  /** What is behind the expected text. */
  function Past(s: string, expected: string): Option<string> {
    if |expected| <= |s| && s[..|expected|] == expected then Some(s[|expected|..]) else None
  }

  /** The text in front of the byte, and what is behind it. */
  function Until(s: string, c: char): Option<(string, string)> {
    var k := IndexOf(s, c);
    if k < |s| then Some((s[..k], s[k + 1..])) else None
  }

  /** What a client finds in front of a part's bytes: its type, its range and the length of the whole content. */
  datatype Head = Head(contentType: string, range: Range, total: nat)

  function ReadType(s: string): Option<(string, string)> {
    match Past(s, "Content-Type: ")
    case None => Some(("", s))
    case Some(t) =>
      match Until(t, '\r')
      case None => None
      case Some((contentType, rest)) =>
        match Past(rest, "\n")
        case None => None
        case Some(more) => Some((contentType, more))
  }

  function ReadNumbers(s: string): Option<(Range, nat, string)> {
    match Until(s, '-')
    case None => None
    case Some((first, s1)) =>
      match Until(s1, '/')
      case None => None
      case Some((last, s2)) =>
        match Until(s2, '\r')
        case None => None
        case Some((total, s3)) =>
          match (BoundOf(first), BoundOf(last), BoundOf(total))
          case (Some(a), Some(b), Some(n)) => if n < 0 then None else Some((Range(a, b), n, s3))
          case _ => None
  }

  function ReadHead(s: string, boundary: string): Option<(Head, string)> {
    match Past(s, "--" + boundary + "\r\n")
    case None => None
    case Some(s1) =>
      match ReadType(s1)
      case None => None
      case Some((contentType, s2)) =>
        match Past(s2, "Content-Range: bytes ")
        case None => None
        case Some(s3) =>
          match ReadNumbers(s3)
          case None => None
          case Some((range, total, s4)) =>
            match Past(s4, "\n\r\n")
            case None => None
            case Some(s5) => Some((Head(contentType, range, total), s5))
  }

  /** How many bytes a range stands for, of so many. */
  function Extent(r: Range, total: nat): int {
    if r.first == -1 && r.last == -1 then total
    else if r.first == -1 then (if r.last < total then r.last else total)
    else if r.last == -1 then total - r.first
    else r.last - r.first + 1
  }

  datatype Got = Got(head: Head, data: string)

  function ReadPart(s: string, boundary: string): Option<(Got, string)> {
    match ReadHead(s, boundary)
    case None => None
    case Some((head, rest)) =>
      var n := Extent(head.range, head.total);
      if !(0 <= n <= |rest|) then None
      else
        match Past(rest[n..], "\r\n")
        case None => None
        case Some(more) => Some((Got(head, rest[..n]), more))
  }

  /** The parts up to the closing delimiter, which must end the answer. */
  function ReadParts(s: string, boundary: string): Option<seq<Got>>
    decreases |s|
  {
    if s == "--" + boundary + "--" then Some([])
    else
      match ReadPart(s, boundary)
      case None => None
      case Some((got, rest)) =>
        if |rest| >= |s| then None
        else
          match ReadParts(rest, boundary)
          case None => None
          case Some(more) => Some([got] + more)
  }

  // ---------- reading what was written ----------

  lemma PastIs(expected: string, rest: string)
    ensures Past(expected + rest, expected) == Some(rest)
  {
    assert (expected + rest)[..|expected|] == expected && (expected + rest)[|expected|..] == rest;
  }

  lemma UntilIs(a: string, c: char, rest: string)
    requires Lacks(a, c)
    ensures Until(a + ([c] + rest), c) == Some((a, rest))
  {
    var s := a + ([c] + rest);
    assert s == a + [c] + rest;
    IndexOfAppend(a, c, rest);
    assert s[..|a|] == a && s[|a| + 1..] == rest;
  }

  function BoundText(bound: int): string {
    if bound >= 0 then Decimal(bound) else ""
  }

  lemma BoundReads(bound: int)
    requires bound >= -1
    ensures AllDecimal(BoundText(bound)) && BoundOf(BoundText(bound)) == Some(bound)
  {
    if bound >= 0 {
      DecimalReads(bound);
    }
  }

  lemma DigitsLack(s: string)
    requires AllDecimal(s)
    ensures Lacks(s, '-') && Lacks(s, '/') && Lacks(s, '\r')
  {
  }

  /** The numbers of a part's range line, and what is behind them. */
  function NumbersText(r: Range, total: nat, rest: string): string {
    BoundText(r.first) + (['-'] + (BoundText(r.last) + (['/'] + (Decimal(total) + (['\r'] + rest)))))
  }

  lemma NumbersRead(r: Range, total: nat, rest: string)
    requires WellFormed(r)
    ensures ReadNumbers(NumbersText(r, total, rest)) == Some((r, total, rest))
  {
    BoundReads(r.first);
    BoundReads(r.last);
    DecimalReads(total);
    DigitsLack(BoundText(r.first));
    DigitsLack(BoundText(r.last));
    DigitsLack(Decimal(total));
    hide AllDecimal, Until, Number, Decimal, BoundText, Lacks;
    var s2 := Decimal(total) + (['\r'] + rest);
    var s1 := BoundText(r.last) + (['/'] + s2);
    UntilIs(Decimal(total), '\r', rest);
    UntilIs(BoundText(r.last), '/', s2);
    UntilIs(BoundText(r.first), '-', s1);
  }

  lemma NoTypeRead(s: string)
    requires "Content-Range: " <= s
    ensures ReadType(s) == Some(("", s))
  {
    assert s[8] == 'R' && s[..14][8] == 'R';
  }

  lemma TypeRead(contentType: string, rest: string)
    requires Lacks(contentType, '\r')
    ensures ReadType("Content-Type: " + (contentType + (['\r'] + ("\n" + rest)))) == Some((contentType, rest))
  {
    PastIs("Content-Type: ", contentType + (['\r'] + ("\n" + rest)));
    UntilIs(contentType, '\r', "\n" + rest);
    PastIs("\n", rest);
    hide Past, Until;
  }

  function TypeText(contentType: string, rest: string): string {
    if contentType == "" then rest else "Content-Type: " + (contentType + (['\r'] + ("\n" + rest)))
  }

  lemma FieldIs(r: Range, total: nat, rest: string)
    requires WellFormed(r)
    ensures "Content-Range: " + ContentRangeField(r, total) + "\r\n\r\n" + rest
         == "Content-Range: bytes " + NumbersText(r, total, "\n\r\n" + rest)
  {
    var a, b, c := BoundText(r.first), BoundText(r.last), Decimal(total);
    assert ContentRangeField(r, total) == "bytes " + a + "-" + b + "/" + c;
    hide Decimal, BoundText, ContentRangeField;
    NumbersRegroup(a, b, c, "\n\r\n" + rest);
    assert "\r\n\r\n" + rest == ['\r'] + ("\n\r\n" + rest);
    assert "Content-Range: " + "bytes " == "Content-Range: bytes ";
  }

  lemma NumbersRegroup(a: string, b: string, c: string, x: string)
    ensures "Content-Range: " + ("bytes " + a + "-" + b + "/" + c) + (['\r'] + x)
         == "Content-Range: " + "bytes " + (a + (['-'] + (b + (['/'] + (c + (['\r'] + x))))))
  {
    assert a + "-" + b + "/" + c + (['\r'] + x) == a + (['-'] + (b + (['/'] + (c + (['\r'] + x)))));
  }

  lemma HeadIs(r: Range, total: nat, boundary: string, contentType: string, rest: string)
    requires WellFormed(r)
    ensures PartHead(r, total, boundary, contentType) + rest
         == "--" + boundary + "\r\n"
            + TypeText(contentType, "Content-Range: bytes " + NumbersText(r, total, "\n\r\n" + rest))
  {
    FieldIs(r, total, rest);
    hide ContentRangeField, NumbersText, TypeText;
    var field := ContentRangeField(r, total);
    var kind := if contentType != "" then "Content-Type: " + contentType + "\r\n" else "";
    KindRegroup(contentType, "Content-Range: " + field + "\r\n\r\n" + rest);
    HeadRegroup("--" + boundary + "\r\n", kind, "Content-Range: ", field, "\r\n\r\n", rest);
  }

  lemma HeadRegroup(open: string, kind: string, key: string, field: string, end: string, rest: string)
    ensures open + kind + key + field + end + rest == open + (kind + (key + field + end + rest))
  {
    assert open + kind + key + field + end == open + (kind + (key + field + end));
  }

  lemma KindRegroup(contentType: string, x: string)
    ensures (if contentType != "" then "Content-Type: " + contentType + "\r\n" else "") + x == TypeText(contentType, x)
  {
    if contentType != "" {
      assert "Content-Type: " + contentType + "\r\n" + x == "Content-Type: " + (contentType + (['\r'] + ("\n" + x)));
    }
  }

  lemma HeadRead(r: Range, total: nat, boundary: string, contentType: string, rest: string)
    requires WellFormed(r) && Lacks(contentType, '\r')
    ensures ReadHead(PartHead(r, total, boundary, contentType) + rest, boundary)
         == Some((Head(contentType, r, total), rest))
  {
    var numbers := NumbersText(r, total, "\n\r\n" + rest);
    var field := "Content-Range: bytes " + numbers;
    HeadIs(r, total, boundary, contentType, rest);
    PastIs("--" + boundary + "\r\n", TypeText(contentType, field));
    if contentType == "" {
      assert field[..15] == "Content-Range: ";
      NoTypeRead(field);
    } else {
      TypeRead(contentType, field);
    }
    PastIs("Content-Range: bytes ", numbers);
    NumbersRead(r, total, "\n\r\n" + rest);
    PastIs("\n\r\n", rest);
    hide Past, ReadType, ReadNumbers, NumbersText, PartHead, Lacks;
  }

  lemma ExtentIs(r: Range, source: string)
    requires WellFormed(r) && Inside(r, |source|)
    ensures Extent(r, |source|) == |Slice(r, source)|
  {
  }

  lemma PartRead(r: Range, source: string, boundary: string, contentType: string, rest: string)
    requires WellFormed(r) && Inside(r, |source|) && Lacks(contentType, '\r')
    ensures ReadPart(Part(r, source, boundary, contentType) + rest, boundary)
         == Some((Got(Head(contentType, r, |source|), Slice(r, source)), rest))
  {
    var head, slice := PartHead(r, |source|, boundary, contentType), Slice(r, source);
    ExtentIs(r, source);
    hide PartHead, Slice, ReadHead, Past, Lacks;
    assert head + slice + "\r\n" + rest == head + (slice + ("\r\n" + rest));
    HeadRead(r, |source|, boundary, contentType, slice + ("\r\n" + rest));
    SliceCut(slice, "\r\n" + rest);
    PastIs("\r\n", rest);
  }

  lemma SliceCut(a: string, b: string)
    ensures (a + b)[..|a|] == a && (a + b)[|a|..] == b
  {
  }

  lemma PartLonger(r: Range, source: string, boundary: string, contentType: string)
    requires WellFormed(r) && Inside(r, |source|)
    ensures |Part(r, source, boundary, contentType)| > |"--" + boundary + "--"|
  {
  }

  lemma ReadCons(s: string, boundary: string, got: Got, rest: string)
    requires ReadPart(s, boundary) == Some((got, rest)) && |rest| < |s| && |s| > |"--" + boundary + "--"|
    ensures ReadParts(s, boundary)
         == match ReadParts(rest, boundary) { case None => None case Some(more) => Some([got] + more) }
  {
    hide ReadPart;
  }

  ghost predicate Reads(got: Option<seq<Got>>, ranges: seq<Range>, i: nat, source: string, contentType: string)
    requires i <= |ranges| && AllInside(ranges, |source|)
  {
    && got.Some? && |got.value| == |ranges| - i
    && forall k :: i <= k < |ranges| ==>
         got.value[k - i] == Got(Head(contentType, ranges[k], |source|), Slice(ranges[k], source))
  }

  lemma ReadsCons(more: seq<Got>, ranges: seq<Range>, i: nat, source: string, contentType: string)
    requires i < |ranges| && AllInside(ranges, |source|) && Reads(Some(more), ranges, i + 1, source, contentType)
    ensures var got := Got(Head(contentType, ranges[i], |source|), Slice(ranges[i], source));
            Reads(Some([got] + more), ranges, i, source, contentType)
  {
    hide Slice;
  }

  /** A client finds each range asked for, with its type and numbers, and the bytes the range stands for. */
  lemma {:induction false} PartsRead(ranges: seq<Range>, i: nat, source: string, boundary: string, contentType: string)
    requires i <= |ranges| && AllInside(ranges, |source|) && Lacks(contentType, '\r')
    ensures Reads(ReadParts(Parts(ranges, i, source, boundary, contentType), boundary), ranges, i, source, contentType)
    decreases |ranges| - i
  {
    if i < |ranges| {
      var part := Part(ranges[i], source, boundary, contentType);
      var rest := Parts(ranges, i + 1, source, boundary, contentType);
      PartRead(ranges[i], source, boundary, contentType, rest);
      PartLonger(ranges[i], source, boundary, contentType);
      PartsRead(ranges, i + 1, source, boundary, contentType);
      hide Part, ReadPart, Slice, Lacks, Reads, ReadParts;
      ReadCons(part + rest, boundary, Got(Head(contentType, ranges[i], |source|), Slice(ranges[i], source)), rest);
      ReadsSome(ReadParts(rest, boundary), ranges, i + 1, source, contentType);
      ReadsCons(ReadParts(rest, boundary).value, ranges, i, source, contentType);
    }
  }

  lemma ReadsSome(got: Option<seq<Got>>, ranges: seq<Range>, i: nat, source: string, contentType: string)
    requires i <= |ranges| && AllInside(ranges, |source|) && Reads(got, ranges, i, source, contentType)
    ensures got.Some?
  {
  }
}
