/** Which bytes are a chunked body, whoever wrote them: the reader accepts exactly the texts of this form. */
module ChunkedGrammar {
  import opened Text
  import opened UrlCoding
  import opened LineReader
  import opened ChunkedCoding

  // ---------- lines ----------

  /** A line with its end. */
  predicate Line(s: string) {
    s != "" && s[|s| - 1] == '\n' && Lacks(s[..|s| - 1], '\n')
  }

  lemma LineFirst(line: string, rest: string)
    requires Line(line)
    ensures FirstLine(line + rest) == line && AfterLine(line + rest) == rest
  {
    var head := line[..|line| - 1];
    assert line + rest == head + ['\n'] + rest && line == head + ['\n'];
    IndexOfAppend(head, '\n', rest);
    assert (line + rest)[..|line|] == line && (line + rest)[|line|..] == rest;
  }

  lemma FirstIsLine(s: string)
    requires !Lacks(s, '\n')
    ensures Line(FirstLine(s)) && s == FirstLine(s) + AfterLine(s)
  {
  }

  lemma NoLineEnd(s: string)
    requires Lacks(s, '\n')
    ensures AfterLine(s) == ""
  {
  }

  lemma BlankIs(line: string)
    requires Line(line)
    ensures CString(line) == CRLF <==> line == CRLF
  {
    assert IndexOf(CRLF, 0 as char) == 2;
    if CString(line) == CRLF {
      assert line[..2] == CRLF && line[1] == '\n';
    }
  }

  lemma BlankLine()
    ensures Line(CRLF)
  {
    assert CRLF[..1] == "\r";
  }

  // ---------- chunk sizes ----------

  /** The size a chunk's first line announces. */
  function Size(line: string): Option<nat> {
    Strtoul16(CString(line))
  }

  predicate AllDigits(s: string) {
    forall i :: 0 <= i < |s| ==> HexValue(s[i]) < 16
  }

  function Value(digits: string): nat
    requires AllDigits(digits)
  {
    if digits == "" then 0 else Value(digits[..|digits| - 1]) * 16 + HexValue(digits[|digits| - 1])
  }

  predicate Spaces(s: string) {
    forall i :: 0 <= i < |s| ==> IsSpace(s[i])
  }

  lemma {:induction false} DigitsRead(s: string, i: nat, digits: string)
    requires i + |digits| <= |s| && s[i..i + |digits|] == digits && AllDigits(digits)
    ensures Digits(s, i, 0) == Digits(s, i + |digits|, Value(digits))
  {
    if digits != "" {
      var init := digits[..|digits| - 1];
      assert s[i..i + |init|] == init;
      DigitsRead(s, i, init);
      assert s[i + |init|] == digits[|init|];
    }
  }

  /** What may follow the digits of a size: nothing, or something that is neither another digit nor makes a leading zero
      a prefix. */
  predicate EndsSize(tail: string) {
    tail != "" ==> HexValue(tail[0]) == 16 && tail[0] != 'x' && tail[0] != 'X'
  }

  lemma {:induction false} SpacesSkipped(s: string, i: nat, k: nat)
    requires i <= k <= |s| && (forall j :: i <= j < k ==> IsSpace(s[j])) && (k < |s| ==> !IsSpace(s[k]))
    ensures SkipSpaces(s, i) == k
    decreases k - i
  {
    if i < k {
      SpacesSkipped(s, i + 1, k);
    }
  }

  predicate Sign(s: string) { s == "" || s == "+" || s == "-" }

  predicate Prefix(s: string) { s == "" || s == "0x" || s == "0X" }

  /** What the digits behind a sign stand for, in a machine word: values beyond it are read as the largest one. */
  function Signed(sign: string, v: nat): nat {
    if v > ULONG_MAX then ULONG_MAX else if sign == "-" && v > 0 then ULONG_MAX + 1 - v else v
  }

  lemma NegatedIs(v: nat)
    requires v <= ULONG_MAX
    ensures (ULONG_MAX + 1 - v) % (ULONG_MAX + 1) == if v > 0 then ULONG_MAX + 1 - v else 0
  {
  }

  lemma StrtoulIs(s: string, i: nat, p: nat, j: nat, v: nat, end: nat)
    requires SkipSpaces(s, 0) == i < |s| && p == (if s[i] == '-' || s[i] == '+' then i + 1 else i)
    requires j == if p + 2 < |s| && s[p] == '0' && (s[p + 1] == 'x' || s[p + 1] == 'X') && HexValue(s[p + 2]) < 16
                  then p + 2 else p
    requires j <= |s| && Digits(s, j, 0) == (v, end) && j < end
    ensures Strtoul16(s) == Some(Signed(if s[i] == '-' then "-" else "", v))
  {
    hide Digits, SkipSpaces, HexValue;
    if v <= ULONG_MAX {
      NegatedIs(v);
    }
  }

  lemma DigitsAt(s: string, j: nat, digits: string)
    requires digits != "" && AllDigits(digits)
    requires j + |digits| <= |s| && s[j..j + |digits|] == digits && EndsSize(s[j + |digits|..])
    ensures Digits(s, j, 0) == (Value(digits), j + |digits|)
    ensures HexValue(s[j]) < 16 && (j + 1 < |s| ==> s[j + 1] != 'x' && s[j + 1] != 'X')
  {
    var e := j + |digits|;
    assert s[j] == digits[0];
    DigitsRead(s, j, digits);
    assert e < |s| ==> s[e] == s[e..][0];
    assert |digits| > 1 ==> s[j + 1] == digits[1];
  }

  /** Behind the white space in front of a size, the digits are at `j`. */
  lemma SizeOf(s: string, i: nat, sign: string, prefix: string, j: nat, digits: string)
    requires SkipSpaces(s, 0) == i < |s| && digits != "" && AllDigits(digits) && Sign(sign) && Prefix(prefix)
    requires j == i + |sign| + |prefix| && j + |digits| <= |s|
    requires (sign != "" ==> s[i] == sign[0])
    requires (prefix != "" ==> s[j - 2] == '0' && s[j - 1] == prefix[1])
    requires s[j..j + |digits|] == digits && EndsSize(s[j + |digits|..])
    ensures Strtoul16(s) == Some(Signed(sign, Value(digits)))
  {
    DigitsAt(s, j, digits);
    hide AllDigits, Value, Digits, SkipSpaces, EndsSize, Strtoul16;
    assert sign == "" ==> s[i] != '-' && s[i] != '+';
    StrtoulIs(s, i, i + |sign|, j, Value(digits), j + |digits|);
  }

  /** A size is read from its hexadecimal digits, in either case, behind any white space, a sign and a `0x`, and in
      front of any extension. */
  lemma SizeReads(spaces: string, sign: string, prefix: string, digits: string, tail: string)
    requires Spaces(spaces) && Sign(sign) && Prefix(prefix) && digits != "" && AllDigits(digits) && EndsSize(tail)
    ensures Strtoul16(spaces + (sign + (prefix + (digits + tail)))) == Some(Signed(sign, Value(digits)))
  {
    hide *;
    var s := spaces + (sign + (prefix + (digits + tail)));
    var j := SizeParts(s, spaces, sign, prefix, digits, tail);
    BehindSpaces(s, spaces, sign, prefix, digits);
    SizeOf(s, |spaces|, sign, prefix, j, digits);
  }

  lemma SizeParts(s: string, spaces: string, sign: string, prefix: string, digits: string, tail: string)
      returns (j: nat)
    requires s == spaces + (sign + (prefix + (digits + tail))) && digits != ""
    ensures |spaces| < |s| && s[..|spaces|] == spaces
    ensures s[|spaces|] == if sign != "" then sign[0] else if prefix != "" then prefix[0] else digits[0]
    ensures j == |spaces| + |sign| + |prefix| && j + |digits| <= |s|
    ensures s[j..j + |digits|] == digits && s[j + |digits|..] == tail
    ensures |prefix| == 2 ==> s[j - 2] == prefix[0] && s[j - 1] == prefix[1]
  {
    assert s[0..] == s;
    FoundAt(s, 0, spaces, sign + (prefix + (digits + tail)));
    FoundAt(s, |spaces|, sign, prefix + (digits + tail));
    FoundAt(s, |spaces| + |sign|, prefix, digits + tail);
    j := |spaces| + |sign| + |prefix|;
    FoundAt(s, j, digits, tail);
  }

  lemma FoundAt(s: string, i: nat, x: string, rest: string)
    requires i <= |s| && s[i..] == x + rest
    ensures i + |x| <= |s| && s[i..i + |x|] == x && s[i + |x|..] == rest
    ensures |x| > 0 ==> s[i] == x[0]
    ensures |x| > 1 ==> s[i + 1] == x[1]
  {
    CutPrefix(s, i, x, rest);
    assert |x| > 0 ==> s[i] == s[i..][0];
    assert |x| > 1 ==> s[i + 1] == s[i..][1];
  }

  lemma BehindSpaces(s: string, spaces: string, sign: string, prefix: string, digits: string)
    requires |spaces| < |s| && s[..|spaces|] == spaces && Spaces(spaces)
    requires Sign(sign) && Prefix(prefix) && digits != "" && AllDigits(digits)
    requires s[|spaces|] == if sign != "" then sign[0] else if prefix != "" then prefix[0] else digits[0]
    ensures SkipSpaces(s, 0) == |spaces|
    ensures prefix != "" ==> prefix[0] == '0' && |prefix| == 2
    ensures |sign| <= 1
  {
    assert forall k :: 0 <= k < |spaces| ==> s[k] == spaces[k];
    assert HexValue(digits[0]) < 16;
    SpacesSkipped(s, 0, |spaces|);
  }

  /** Without a digit there is no size. */
  lemma NoSize(spaces: string, tail: string)
    requires Spaces(spaces)
    requires tail == "" || (!IsSpace(tail[0]) && tail[0] != '-' && tail[0] != '+' && HexValue(tail[0]) == 16)
    ensures Strtoul16(spaces + tail) == None
  {
    var s := spaces + tail;
    assert forall k :: 0 <= k < |spaces| ==> s[k] == spaces[k];
    assert tail != "" ==> s[|spaces|] == tail[0];
    SpacesSkipped(s, 0, |spaces|);
    assert Digits(s, |spaces|, 0) == (0, |spaces|);
  }

  // ---------- bodies ----------

  /** A chunk: the line with its size, and its data. */
  datatype Frame = Frame(line: string, data: string)

  predicate Framed(f: Frame) {
    Line(f.line) && f.data != "" && Size(f.line) == Some(|f.data|) && |f.data| != ULONG_MAX
  }

  /** A line of the trailer. */
  predicate Field(line: string) {
    Line(line) && line != CRLF && |line| <= HEADER_MAX_LENGTH
  }

  /** A body: chunks, the line with size zero, and the lines of the trailer. */
  datatype ChunkedBody = ChunkedBody(frames: seq<Frame>, last: string, trailer: seq<string>)

  predicate Wellformed(b: ChunkedBody) {
    && (forall i :: 0 <= i < |b.frames| ==> Framed(b.frames[i]))
    && Line(b.last) && Size(b.last) == Some(0)
    && forall i :: 0 <= i < |b.trailer| ==> Field(b.trailer[i])
  }

  function TrailerText(lines: seq<string>): string {
    if lines == [] then CRLF else lines[0] + TrailerText(lines[1..])
  }

  function BodyText(b: ChunkedBody): string
    decreases |b.frames|
  {
    if b.frames == [] then b.last + TrailerText(b.trailer)
    else b.frames[0].line + (b.frames[0].data + (CRLF + BodyText(b.(frames := b.frames[1..]))))
  }

  function BodyData(frames: seq<Frame>): string {
    if frames == [] then "" else frames[0].data + BodyData(frames[1..])
  }

  // ---------- well-formed bodies are accepted ----------

  lemma {:induction false} TrailerAccepted(lines: seq<string>, rest: string)
    requires forall i :: 0 <= i < |lines| ==> Field(lines[i])
    ensures DecodeTrailer(TrailerText(lines) + rest) == (true, rest)
  {
    if lines == [] {
      BlankLine();
      LineFirst(CRLF, rest);
      BlankIs(CRLF);
    } else {
      var line, more := lines[0], TrailerText(lines[1..]);
      Associative(line, more, rest);
      LineFirst(line, more + rest);
      BlankIs(line);
      TrailerAccepted(lines[1..], rest);
    }
  }

  lemma LastAccepted(b: ChunkedBody, rest: string)
    requires Wellformed(b) && b.frames == []
    ensures DecodeChunks(BodyText(b) + rest) == Decoded(true, "", rest)
  {
    Associative(b.last, TrailerText(b.trailer), rest);
    LineFirst(b.last, TrailerText(b.trailer) + rest);
    TrailerAccepted(b.trailer, rest);
  }

  lemma DataTaken(data: string, more: string)
    requires more != ""
    ensures TakeChunk(data + (CRLF + more), |data|) == Go(data, more)
  {
    var behind := data + (CRLF + more);
    BlankLine();
    LineFirst(CRLF, more);
    BlankIs(CRLF);
    assert behind[..|data|] == data && behind[|data|..] == CRLF + more;
  }

  /** What a size line leads to. */
  lemma SizeDecodes(line: string, rest: string, n: nat)
    requires Size(line) == Some(n) && 0 < n != ULONG_MAX
    ensures DecodeLine(line, rest)
         == match TakeChunk(rest, n) { case Stop(end) => end case Go(data, next) => Prepend(data, DecodeChunks(next)) }
  {
    hide Strtoul16, CString, TakeChunk, DecodeChunks, DecodeTrailer;
  }

  lemma FirstDecodes(input: string, line: string, rest: string)
    requires input != "" && FirstLine(input) == line && AfterLine(input) == rest
    ensures DecodeChunks(input) == DecodeLine(line, rest)
  {
    hide FirstLine, DecodeLine;
  }

  /** One chunk with more behind it. */
  lemma FrameAccepted(f: Frame, more: string)
    requires Framed(f) && more != ""
    ensures DecodeChunks(f.line + (f.data + (CRLF + more))) == Prepend(f.data, DecodeChunks(more))
  {
    var behind := f.data + (CRLF + more);
    LineFirst(f.line, behind);
    hide FirstLine, AfterLine, DecodeLine, DecodeChunks, TakeChunk, Size;
    FirstDecodes(f.line + behind, f.line, behind);
    DataTaken(f.data, more);
    SizeDecodes(f.line, behind, |f.data|);
  }

  lemma BodyNotEmpty(b: ChunkedBody)
    requires Wellformed(b)
    ensures BodyText(b) != ""
  {
  }

  lemma {:induction false} BodyAccepted(b: ChunkedBody, rest: string)
    requires Wellformed(b)
    ensures DecodeChunks(BodyText(b) + rest) == Decoded(true, BodyData(b.frames), rest)
    decreases |b.frames|
  {
    if b.frames == [] {
      LastAccepted(b, rest);
    } else {
      var f, next := b.frames[0], b.(frames := b.frames[1..]);
      var text := BodyText(next);
      BodyAccepted(next, rest);
      BodyNotEmpty(next);
      Associative(f.line, f.data + (CRLF + text), rest);
      Associative(f.data, CRLF + text, rest);
      Associative(CRLF, text, rest);
      hide DecodeChunks, Framed, Line;
      FrameAccepted(f, text + rest);
    }
  }

  // ---------- and nothing else is ----------

  lemma TrailerEnds(input: string)
    requires DecodeTrailer(input).0
    ensures !Lacks(input, '\n')
  {
    assert IndexOf(CRLF, 0 as char) == 2;
    if CString(FirstLine(input)) == CRLF {
      assert FirstLine(input)[1] == '\n';
    }
  }

  lemma {:induction false} TrailerParsed(input: string) returns (lines: seq<string>)
    requires DecodeTrailer(input).0
    ensures forall i :: 0 <= i < |lines| ==> Field(lines[i])
    ensures input == TrailerText(lines) + DecodeTrailer(input).1
    decreases |input|
  {
    var line, rest := FirstLine(input), AfterLine(input);
    TrailerEnds(input);
    FirstIsLine(input);
    BlankIs(line);
    if line == CRLF {
      lines := [];
    } else {
      var more := TrailerParsed(rest);
      lines := [line] + more;
      assert lines[1..] == more;
      Associative(line, TrailerText(more), DecodeTrailer(rest).1);
    }
  }

  /** What has been taken is a chunk's data and its line end. */
  lemma TakenIs(rest: string, n: nat) returns (next: string)
    requires TakeChunk(rest, n).Go?
    ensures n <= |rest| && rest == rest[..n] + (CRLF + next) && TakeChunk(rest, n) == Go(rest[..n], next) && next != ""
  {
    var behind := rest[n..];
    next := AfterLine(behind);
    if Lacks(behind, '\n') {
      NoLineEnd(behind);
    } else {
      FirstIsLine(behind);
      BlankIs(FirstLine(behind));
      assert rest == rest[..n] + behind;
    }
  }

  lemma StopRefuses(rest: string, n: nat)
    ensures TakeChunk(rest, n).Stop? ==> !TakeChunk(rest, n).end.ok
    ensures n > 0 ==> TakeChunk("", n).Stop?
  {
  }

  /** An accepted input begins with a line that has its end. */
  lemma AcceptedLine(input: string)
    requires DecodeChunks(input).ok
    ensures input != "" && Line(FirstLine(input)) && input == FirstLine(input) + AfterLine(input)
    ensures DecodeLine(FirstLine(input), AfterLine(input)) == DecodeChunks(input)
  {
    var line, rest := FirstLine(input), AfterLine(input);
    if Lacks(input, '\n') {
      NoLineEnd(input);
      NothingBehind(line);
    }
    FirstIsLine(input);
  }

  lemma NothingBehind(line: string)
    ensures !DecodeLine(line, "").ok
  {
    var size := Size(line);
    if size.Some? && 0 < size.value != ULONG_MAX {
      SizeDecodes(line, "", size.value);
      StopRefuses("", size.value);
    }
    hide Strtoul16, TakeChunk, CString, DecodeChunks;
  }

  /** And the line announces a size. */
  lemma AcceptedSize(line: string, rest: string)
    requires DecodeLine(line, rest).ok
    ensures var size := Size(line);
            && size.Some? && size.value != ULONG_MAX
            && (size.value == 0 ==>
                  DecodeTrailer(rest) == (true, DecodeLine(line, rest).rest) && DecodeLine(line, rest).data == "")
            && (size.value > 0 ==>
                  && TakeChunk(rest, size.value).Go?
                  && var step := TakeChunk(rest, size.value);
                     DecodeLine(line, rest) == Prepend(step.data, DecodeChunks(step.next)))
  {
    var size := Size(line);
    if size.Some? && 0 < size.value != ULONG_MAX {
      SizeDecodes(line, rest, size.value);
      StopRefuses(rest, size.value);
    }
    hide Strtoul16, TakeChunk, CString, DecodeChunks, DecodeTrailer;
  }

  lemma LastBody(line: string, rest: string) returns (b: ChunkedBody)
    requires Line(line) && Size(line) == Some(0) && DecodeTrailer(rest).0
    ensures Wellformed(b) && b.frames == [] && BodyText(b) + DecodeTrailer(rest).1 == line + rest
    ensures BodyData(b.frames) == ""
  {
    hide Line, Size;
    var lines := TrailerParsed(rest);
    b := ChunkedBody([], line, lines);
    Associative(line, TrailerText(lines), DecodeTrailer(rest).1);
  }

  /** One more chunk in front of a body. */
  lemma ConsBody(f: Frame, d: ChunkedBody, left: string) returns (b: ChunkedBody)
    requires Framed(f) && Wellformed(d)
    ensures Wellformed(b) && BodyText(b) + left == f.line + (f.data + (CRLF + (BodyText(d) + left)))
    ensures BodyData(b.frames) == f.data + BodyData(d.frames)
  {
    b := d.(frames := [f] + d.frames);
    assert b.frames[1..] == d.frames;
    assert b.(frames := d.frames) == d;
    hide Framed, Line, Size;
    Associative(CRLF, BodyText(d), left);
    Associative(f.data, CRLF + BodyText(d), left);
    Associative(f.line, f.data + (CRLF + BodyText(d)), left);
  }

  /** What the reader accepts is a well-formed body, of which it has delivered the data and left what is behind it. */
  lemma {:induction false} BodyParsed(input: string) returns (b: ChunkedBody)
    requires DecodeChunks(input).ok
    ensures Wellformed(b) && input == BodyText(b) + DecodeChunks(input).rest
    ensures DecodeChunks(input).data == BodyData(b.frames)
    decreases |input|
  {
    AcceptedLine(input);
    hide DecodeChunks, DecodeLine, DecodeTrailer, TakeChunk, FirstLine, AfterLine, Line, Size, Wellformed, BodyText;
    var line, rest := FirstLine(input), AfterLine(input);
    AcceptedSize(line, rest);
    var n := Size(line).value;
    if n == 0 {
      b := LastBody(line, rest);
    } else {
      var next := TakenIs(rest, n);
      var d := BodyParsed(next);
      b := ConsBody(Frame(line, rest[..n]), d, DecodeChunks(next).rest);
    }
  }

  /** The reader accepts exactly the inputs that begin with a well-formed body, delivers its data and leaves what is
      behind it. */
  lemma ChunkedExactlyParsed(input: string, data: string, rest: string)
    ensures DecodeChunks(input) == Decoded(true, data, rest)
       <==> exists b :: Wellformed(b) && input == BodyText(b) + rest && data == BodyData(b.frames)
  {
    if DecodeChunks(input) == Decoded(true, data, rest) {
      var b := BodyParsed(input);
    }
    if b :| Wellformed(b) && input == BodyText(b) + rest && data == BodyData(b.frames) {
      BodyAccepted(b, rest);
    }
  }

  /** What is accepted is accepted with anything behind it. */
  lemma MoreBehind(input: string, more: string)
    requires DecodeChunks(input).ok
    ensures var r := DecodeChunks(input); DecodeChunks(input + more) == Decoded(true, r.data, r.rest + more)
  {
    hide DecodeChunks, BodyText, Wellformed;
    var b := BodyParsed(input);
    Associative(BodyText(b), DecodeChunks(input).rest, more);
    BodyAccepted(b, DecodeChunks(input).rest + more);
  }

  /** A body that is cut short anywhere is refused. */
  lemma CutRefused(b: ChunkedBody, k: nat)
    requires Wellformed(b) && k < |BodyText(b)|
    ensures !DecodeChunks(BodyText(b)[..k]).ok
  {
    hide DecodeChunks, BodyText, Wellformed;
    var text := BodyText(b);
    assert text == text[..k] + text[k..] && text == text + "";
    if DecodeChunks(text[..k]).ok {
      MoreBehind(text[..k], text[k..]);
      BodyAccepted(b, "");
    }
  }
}
