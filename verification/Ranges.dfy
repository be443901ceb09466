/** Byte ranges of a response whose content comes from a provider: which slice each range selects, and the
    announced length of the answer against the bytes written. */
module Ranges {
  import opened Text

  const SIZE_LIMIT: nat := 0x1_0000_0000_0000_0000
  const SSIZE_MAX: nat := 0x7FFF_FFFF_FFFF_FFFF

  /** A range as parsed from the header, with -1 for a missing bound. */
  datatype Range = Range(first: int, last: int)

  /** What the header parser lets through: bounds that fit, and in order when both are given. */
  predicate WellFormed(r: Range) {
    -1 <= r.first <= SSIZE_MAX && -1 <= r.last <= SSIZE_MAX
    && (r.first != -1 && r.last != -1 ==> r.first <= r.last)
  }

  // ---------- offset and length of a range ----------

  function ToSize(x: int): (r: nat)
    ensures r < SIZE_LIMIT
  {
    x % SIZE_LIMIT
  }

  function ToSsize(x: nat): int {
    if x % SIZE_LIMIT <= SSIZE_MAX then x % SIZE_LIMIT else x % SIZE_LIMIT - SIZE_LIMIT
  }

  function Max(a: int, b: int): int { if a > b then a else b }

  /** Offset and length, with the conversions between signed and unsigned sizes. */
  function OffsetAndLength(r: Range, contentLength: nat): (nat, nat) {
    if r.first == -1 && r.last == -1 then (0, contentLength)
    else
      var slen := ToSsize(contentLength);
      var first := if r.first == -1 then Max(0, slen - r.last) else r.first;
      var last := if r.first == -1 || r.last == -1 then slen - 1 else r.last;
      (ToSize(first), ToSize(ToSize(last - first) + 1))
  }

  /** The range selects bytes of a content of this length. */
  predicate Inside(r: Range, contentLength: nat) {
    if r.first == -1 then true else if r.last == -1 then r.first <= contentLength else r.last < contentLength
  }

  /** The bytes a range stands for (section 14.1.2 of RFC 9110): first to last, from first on, or the last so many. */
  function Slice(r: Range, source: string): string
    requires WellFormed(r) && Inside(r, |source|)
  {
    if r.first == -1 then
      if r.last == -1 then source
      else if r.last >= |source| then source
      else source[|source| - r.last..]
    else if r.last == -1 then source[r.first..]
    else source[r.first..r.last + 1]
  }

  lemma Wrapped(x: int)
    ensures 0 <= x < SIZE_LIMIT ==> ToSize(x) == x
    ensures x < 0 <= x + SIZE_LIMIT ==> ToSize(x) == x + SIZE_LIMIT
  {
  }

  /** The computed offset and length lie in the content exactly if the range does. */
  lemma InsideExactly(r: Range, n: nat)
    requires WellFormed(r) && n <= SSIZE_MAX
    ensures var (offset, length) := OffsetAndLength(r, n); offset + length <= n <==> Inside(r, n)
  {
    Wrapped(n);
    var first := if r.first == -1 then Max(0, n - r.last) else r.first;
    var last := if r.first == -1 || r.last == -1 then n - 1 else r.last;
    Wrapped(first);
    Wrapped(last - first);
    Wrapped(ToSize(last - first) + 1);
    Wrapped(ToSize(last - first) + 1 - SIZE_LIMIT);
    assert ToSize(SIZE_LIMIT) == 0;
  }

  /** And then they denote the slice the range stands for. */
  lemma SelectsSlice(r: Range, source: string)
    requires WellFormed(r) && Inside(r, |source|) && |source| <= SSIZE_MAX
    ensures var (offset, length) := OffsetAndLength(r, |source|);
            offset + length <= |source| && source[offset..offset + length] == Slice(r, source)
  {
    var n := |source|;
    InsideExactly(r, n);
    Wrapped(n);
    var first := if r.first == -1 then Max(0, n - r.last) else r.first;
    var last := if r.first == -1 || r.last == -1 then n - 1 else r.last;
    Wrapped(first);
    Wrapped(last - first);
    Wrapped(ToSize(last - first) + 1);
    assert ToSize(SIZE_LIMIT) == 0;
  }

  // ---------- the text around the parts ----------

  function Decimal(n: nat): (s: string)
    ensures s != ""
  {
    if n < 10 then [('0' as int + n) as char] else Decimal(n / 10) + [('0' as int + n % 10) as char]
  }

  function ContentRangeField(r: Range, contentLength: nat): string {
    "bytes " + (if r.first >= 0 then Decimal(r.first) else "") + "-"
    + (if r.last >= 0 then Decimal(r.last) else "") + "/" + Decimal(contentLength)
  }

  /** Everything of a part before its bytes. */
  function PartHead(r: Range, contentLength: nat, boundary: string, contentType: string): string {
    "--" + boundary + "\r\n"
    + (if contentType != "" then "Content-Type: " + contentType + "\r\n" else "")
    + "Content-Range: " + ContentRangeField(r, contentLength) + "\r\n\r\n"
  }

  function Part(r: Range, source: string, boundary: string, contentType: string): string
    requires WellFormed(r) && Inside(r, |source|)
  {
    PartHead(r, |source|, boundary, contentType) + Slice(r, source) + "\r\n"
  }

  predicate AllInside(ranges: seq<Range>, contentLength: nat) {
    forall i :: 0 <= i < |ranges| ==> WellFormed(ranges[i]) && Inside(ranges[i], contentLength)
  }

  /** The parts of the ranges from index `i` on, and the closing delimiter. */
  function Parts(ranges: seq<Range>, i: nat, source: string, boundary: string, contentType: string): string
    requires i <= |ranges| && AllInside(ranges, |source|)
    decreases |ranges| - i
  {
    if i == |ranges| then "--" + boundary + "--"
    else Part(ranges[i], source, boundary, contentType) + Parts(ranges, i + 1, source, boundary, contentType)
  }

  /** The whole body of the answer. */
  function Body(ranges: seq<Range>, source: string, boundary: string, contentType: string): string
    requires AllInside(ranges, |source|)
  {
    if ranges == [] then source
    else if |ranges| == 1 then Slice(ranges[0], source)
    else Parts(ranges, 0, source, boundary, contentType)
  }

  // ---------- the content provider ----------

  /** What the provider writes to the sink when asked for so many bytes at an offset; its answer may depend on
      everything written before. */
  type Provider = (string, nat, nat) -> seq<string>

  function Flat(pieces: seq<string>): string {
    if pieces == [] then "" else Flat(pieces[..|pieces| - 1]) + pieces[|pieces| - 1]
  }

  /** Asked for bytes inside the source, the provider writes some of them in any number of pieces, and no more. */
  ghost predicate Supplies(provider: Provider, source: string) {
    forall before: string, offset: nat, length: nat :: 0 < length && offset + length <= |source| ==>
      var t := Flat(provider(before, offset, length));
      0 < |t| <= length && t == source[offset..offset + |t|]
  }

  /** `text` has gone to the target: it was counted, or appended to what was written. */
  predicate Took(counting: bool, length0: nat, written0: string, length: nat, written: string, text: string) {
    if counting then length == ToSize(length0 + |text|) && written == written0
    else written == written0 + text && length == length0
  }

  /** Where the shared part writer puts its tokens: a counter, or a stream. */
  class Target {
    const counting: bool
    const provider: Provider
    ghost const source: string
    var length: nat
    var written: string

    ghost predicate Valid()
      reads this
    {
      Supplies(provider, source) && length < SIZE_LIMIT
    }

    constructor (counting: bool, provider: Provider, ghost source: string)
      requires Supplies(provider, source)
      ensures Valid() && this.counting == counting && this.provider == provider && this.source == source
      ensures length == 0 && written == ""
    {
      this.counting, this.provider, this.source := counting, provider, source;
      length, written := 0, "";
    }

    method Token(t: string)
      modifies this
      ensures Took(counting, old(length), old(written), length, written, t)
    {
      if counting {
        length := ToSize(length + |t|);
      } else {
        written := written + t;
      }
    }

    /** The loop over the provider. */
    method WriteContent(offset: nat, len: nat)
      requires Valid() && offset + len <= |source|
      modifies `written
      ensures written == old(written) + source[offset..offset + len]
    {
      var off, end := offset, offset + len;
      while off < end
        invariant offset <= off <= end
        invariant written == old(written) + source[offset..off]
      {
        var pieces := provider(written, off, end - off);
        ghost var before, from := written, off;
        for i := 0 to |pieces|
          invariant written == before + Flat(pieces[..i])
          invariant off == from + |Flat(pieces[..i])|
        {
          assert pieces[..i + 1][..i] == pieces[..i];
          written := written + pieces[i];
          off := off + |pieces[i]|;
        }
        assert pieces[..|pieces|] == pieces;
        assert source[offset..from] + source[from..off] == source[offset..off];
      }
    }

    method Content(offset: nat, len: nat)
      requires Valid() && offset + len <= |source|
      modifies this
      ensures Took(counting, old(length), old(written), length, written, source[offset..offset + len])
    {
      if counting {
        length := ToSize(length + len);
      } else {
        WriteContent(offset, len);
      }
    }
  }

  lemma TookTwice(counting: bool, l0: nat, w0: string, l1: nat, w1: string, l2: nat, w2: string, a: string, b: string)
    requires Took(counting, l0, w0, l1, w1, a) && Took(counting, l1, w1, l2, w2, b)
    ensures Took(counting, l0, w0, l2, w2, a + b)
  {
    if counting {
      SizePlus(l0 + |a|, |b|);
    }
  }

  lemma SizePlus(x: nat, y: nat)
    ensures ToSize(ToSize(x) + y) == ToSize(x + y)
  {
    var q := x / SIZE_LIMIT;
    assert x + y == SIZE_LIMIT * q + (ToSize(x) + y);
    SizeMultiple(q, ToSize(x) + y);
  }

  lemma SizeMultiple(q: nat, z: nat)
    ensures ToSize(SIZE_LIMIT * q + z) == ToSize(z)
  {
  }

  /** The delimiter line and the type line. */
  method WriteHeadStart(boundary: string, contentType: string, target: Target, ghost l0: nat, ghost w0: string)
      returns (ghost sent: string)
    requires target.Valid() && Took(target.counting, l0, w0, target.length, target.written, "")
    modifies target
    ensures sent == "--" + boundary + "\r\n" + if contentType != "" then "Content-Type: " + contentType + "\r\n" else ""
    ensures Took(target.counting, l0, w0, target.length, target.written, sent)
  {
    hide Took;
    sent := Send(target, l0, w0, "", "--");
    sent := Send(target, l0, w0, sent, boundary);
    sent := Send(target, l0, w0, sent, "\r\n");
    assert sent == "--" + boundary + "\r\n";
    if contentType != "" {
      ghost var first := sent;
      sent := Send(target, l0, w0, sent, "Content-Type: ");
      sent := Send(target, l0, w0, sent, contentType);
      sent := Send(target, l0, w0, sent, "\r\n");
      assert sent == first + ("Content-Type: " + contentType + "\r\n");
    }
  }

  /** The tokens in front of a part's bytes. */
  method WriteHead(r: Range, contentLength: nat, boundary: string, contentType: string, target: Target)
    requires target.Valid()
    modifies target
    ensures Took(target.counting, old(target.length), old(target.written), target.length, target.written,
                 PartHead(r, contentLength, boundary, contentType))
  {
    ghost var l0, w0, sent := target.length, target.written, "";
    assert w0 + "" == w0;
    assert Took(target.counting, l0, w0, l0, w0, "");
    hide Took, ContentRangeField;
    sent := WriteHeadStart(boundary, contentType, target, l0, w0);
    ghost var first := sent;
    sent := Send(target, l0, w0, sent, "Content-Range: ");
    sent := Send(target, l0, w0, sent, ContentRangeField(r, contentLength));
    sent := Send(target, l0, w0, sent, "\r\n");
    sent := Send(target, l0, w0, sent, "\r\n");
    assert sent == first + "Content-Range: " + ContentRangeField(r, contentLength) + "\r\n" + "\r\n";
    assert sent == PartHead(r, contentLength, boundary, contentType);
  }

  /** One token, with the account of everything sent since `(l0, w0)`. */
  method Send(target: Target, ghost l0: nat, ghost w0: string, ghost sent: string, t: string)
      returns (ghost all: string)
    requires Took(target.counting, l0, w0, target.length, target.written, sent)
    modifies target
    ensures all == sent + t && Took(target.counting, l0, w0, target.length, target.written, all)
  {
    ghost var l1, w1 := target.length, target.written;
    target.Token(t);
    all := sent + t;
    TookTwice(target.counting, l0, w0, l1, w1, target.length, target.written, sent, t);
  }

  /** One part: its head, its bytes, its line end. */
  method WritePart(r: Range, contentLength: nat, boundary: string, contentType: string, target: Target,
      ghost l0: nat, ghost w0: string, ghost sent: string) returns (ghost all: string)
    requires target.Valid() && contentLength == |target.source| <= SSIZE_MAX
    requires WellFormed(r) && Inside(r, contentLength)
    requires Took(target.counting, l0, w0, target.length, target.written, sent)
    modifies target
    ensures all == sent + Part(r, target.source, boundary, contentType)
    ensures Took(target.counting, l0, w0, target.length, target.written, all)
  {
    ghost var l1, w1 := target.length, target.written;
    WriteHead(r, contentLength, boundary, contentType, target);
    ghost var head := PartHead(r, contentLength, boundary, contentType);
    TookTwice(target.counting, l0, w0, l1, w1, target.length, target.written, sent, head);
    ghost var l2, w2 := target.length, target.written;
    var (offset, length) := OffsetAndLength(r, contentLength);
    SelectsSlice(r, target.source);
    target.Content(offset, length);
    ghost var slice := Slice(r, target.source);
    TookTwice(target.counting, l0, w0, l2, w2, target.length, target.written, sent + head, slice);
    all := Send(target, l0, w0, sent + head + slice, "\r\n");
    Regroup3(sent, head, slice, "\r\n");
  }

  lemma Regroup3(a: string, b: string, c: string, d: string)
    ensures a + b + c + d == a + (b + c + d)
  {
  }

  method WriteClosing(boundary: string, target: Target, ghost l0: nat, ghost w0: string, ghost sent: string)
      returns (ghost all: string)
    requires Took(target.counting, l0, w0, target.length, target.written, sent)
    modifies target
    ensures all == sent + ("--" + boundary + "--")
    ensures Took(target.counting, l0, w0, target.length, target.written, all)
  {
    all := Send(target, l0, w0, sent, "--");
    all := Send(target, l0, w0, all, boundary);
    all := Send(target, l0, w0, all, "--");
    assert all == sent + ("--" + boundary + "--");
  }

  lemma PartsStep(sent: string, ranges: seq<Range>, i: nat, source: string, boundary: string, contentType: string)
    requires i < |ranges| && AllInside(ranges, |source|)
    ensures sent + Parts(ranges, i, source, boundary, contentType)
         == sent + Part(ranges[i], source, boundary, contentType) + Parts(ranges, i + 1, source, boundary, contentType)
  {
    Associative(sent, Part(ranges[i], source, boundary, contentType), Parts(ranges, i + 1, source, boundary,
      contentType));
  }

  /** The loop over the ranges that both computing the length and writing the answer go through. */
  method ProcessMultipartRanges(ranges: seq<Range>, contentLength: nat, boundary: string, contentType: string,
      target: Target)
    requires target.Valid() && contentLength == |target.source| <= SSIZE_MAX && AllInside(ranges, contentLength)
    modifies target
    ensures Took(target.counting, old(target.length), old(target.written), target.length, target.written,
                 Parts(ranges, 0, target.source, boundary, contentType))
  {
    ghost var l0, w0, sent := target.length, target.written, "";
    ghost var source := target.source;
    assert w0 + "" == w0;
    for i := 0 to |ranges|
      invariant target.Valid() && Took(target.counting, l0, w0, target.length, target.written, sent)
      invariant sent + Parts(ranges, i, source, boundary, contentType) == Parts(ranges, 0, source, boundary,
        contentType)
    {
      PartsStep(sent, ranges, i, source, boundary, contentType);
      sent := WritePart(ranges[i], contentLength, boundary, contentType, target, l0, w0, sent);
    }
    sent := WriteClosing(boundary, target, l0, w0, sent);
  }

  /** The framed answer: its length computed first, then its bytes written. */
  method RespondFramed(ranges: seq<Range>, provider: Provider, ghost source: string, contentLength: nat,
      boundary: string, contentType: string) returns (announced: nat, body: string)
    requires contentLength == |source| <= SSIZE_MAX && AllInside(ranges, contentLength) && Supplies(provider, source)
    ensures body == Parts(ranges, 0, source, boundary, contentType) && announced == ToSize(|body|)
  {
    var counter := new Target(true, provider, source);
    ProcessMultipartRanges(ranges, contentLength, boundary, contentType, counter);
    announced := counter.length;
    var writer := new Target(false, provider, source);
    ProcessMultipartRanges(ranges, contentLength, boundary, contentType, writer);
    body := writer.written;
    assert body == "" + Parts(ranges, 0, source, boundary, contentType);
  }

  /** The bytes of one slice, written unframed. */
  method RespondPlain(offset: nat, length: nat, provider: Provider, ghost source: string) returns (body: string)
    requires offset + length <= |source| && Supplies(provider, source)
    ensures body == source[offset..offset + length]
  {
    var writer := new Target(false, provider, source);
    writer.WriteContent(offset, length);
    body := writer.written;
    assert body == "" + source[offset..offset + length];
  }

  /** The answer to a request with these ranges: the `Content-Length` announced beforehand, and the body written.
      The body is the slices the ranges stand for, framed when there are several, and its length is announced
      exactly unless it does not fit a size. */
  method Respond(ranges: seq<Range>, provider: Provider, ghost source: string, contentLength: nat, boundary: string,
      contentType: string) returns (announced: nat, body: string)
    requires 0 < contentLength == |source| <= SSIZE_MAX && AllInside(ranges, contentLength)
    requires Supplies(provider, source)
    ensures body == Body(ranges, source, boundary, contentType)
    ensures announced == |body| <==> |body| < SIZE_LIMIT
  {
    if ranges == [] {
      announced := contentLength;
      body := RespondPlain(0, contentLength, provider, source);
      assert source[0..contentLength] == source;
    } else if |ranges| == 1 {
      var (offset, length) := OffsetAndLength(ranges[0], contentLength);
      SelectsSlice(ranges[0], source);
      announced := length;
      body := RespondPlain(offset, length, provider, source);
    } else {
      announced, body := RespondFramed(ranges, provider, source, contentLength, boundary, contentType);
    }
  }
}
