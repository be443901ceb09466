/** Reading back what the chunked writer wrote. */
module ChunkedRoundTrip {
  import opened Text
  import opened LineReader
  import opened ChunkedCoding

  /** Sizes fit a machine word. */
  predicate Sendable(call: SinkCall) {
    call.Write? ==> |call.data| < ULONG_MAX
  }

  /** The lines of a text, line ends included. */
  function Lines(s: string): seq<string>
    decreases |s|
  {
    if s == "" then [] else [FirstLine(s)] + Lines(AfterLine(s))
  }

  /** There is a blank line, and the lines in front of it are within the reader's limit. */
  ghost predicate FitsToBlank(lines: seq<string>) {
    exists j :: 0 <= j < |lines| && lines[j] == CRLF && Fitting(lines, j)
  }

  predicate Fitting(lines: seq<string>, j: nat)
    requires j <= |lines|
  {
    forall i :: 0 <= i < j ==> lines[i] != CRLF && |lines[i]| <= HEADER_MAX_LENGTH
  }

  ghost predicate TrailerFits(t: Trailer) {
    FitsToBlank(Lines(TrailerFrom(t, 0)))
  }

  predicate SingleLine(kv: (string, string)) {
    Lacks(kv.0, '\n') && Lacks(kv.1, '\n')
  }

  /** All fields from `i` on are within the reader's limit. */
  predicate FieldsFit(t: Trailer, i: nat) {
    forall k :: i <= k < |t| ==> |FieldLine(t[k])| <= HEADER_MAX_LENGTH
  }

  /** All data given to the sink from call `i` on. */
  function DataFrom(calls: seq<SinkCall>, i: nat): string
    requires i <= |calls|
    decreases |calls| - i
  {
    if i == |calls| then "" else (if calls[i].Write? then calls[i].data else "") + DataFrom(calls, i + 1)
  }

  /** Some call finishes the body, with trailer lines within the limit up to the first blank one, and no data is given
      to the sink behind the first call that does. */
  ghost predicate FinishesFrom(calls: seq<SinkCall>, i: nat)
    requires i <= |calls|
    decreases |calls| - i
  {
    i < |calls| &&
    match calls[i]
    case Done(t) => TrailerFits(t) && DataFrom(calls, i + 1) == ""
    case Write(_) => FinishesFrom(calls, i + 1)
  }

  lemma LineOf(line: string, rest: string)
    requires Lacks(line, '\n')
    ensures FirstLine(line + CRLF + rest) == line + CRLF && AfterLine(line + CRLF + rest) == rest
  {
    var s := line + CRLF + rest;
    var head := line + "\r";
    assert s == head + ['\n'] + rest;
    IndexOfAppend(head, '\n', rest);
    assert s[..|head| + 1] == line + CRLF;
    assert s[|head| + 1..] == rest;
  }

  lemma CStringOfCrlf()
    ensures CString(CRLF) == CRLF
  {
    assert IndexOf(CRLF, 0 as char) == 2;
  }

  lemma HexNoNul(n: nat)
    ensures CString(Hex(n) + CRLF) == Hex(n) + CRLF && Lacks(Hex(n), '\n')
  {
    var s := Hex(n) + CRLF;
    var k := IndexOf(s, 0 as char);
    assert s[|Hex(n)|] == '\r' && s[|Hex(n)| + 1] == '\n';
    assert k == |s|;
  }

  /** A chunk followed by more input delivers its data and is followed by what the rest delivers. */
  lemma ChunkDecodes(d: string, rest: string)
    requires 0 < |d| < ULONG_MAX
    ensures DecodeChunks(Chunk(d) + rest) == Prepend(d, DecodeChunks(rest))
  {
    var h := Hex(|d|);
    var body := d + (CRLF + rest);
    assert Chunk(d) + rest == h + CRLF + body;
    HexNoNul(|d|);
    LineOf(h, body);
    SizeLine(|d|);
    BodyDecodes(d, rest);
  }

  lemma BodyDecodes(d: string, rest: string)
    ensures DecodeBody(d + (CRLF + rest), |d|) == Prepend(d, DecodeChunks(rest))
  {
    var all := d + (CRLF + rest);
    assert all[..|d|] == d && all[|d|..] == CRLF + rest;
    assert CRLF + rest == "" + CRLF + rest;
    LineOf("", rest);
    assert "" + CRLF == CRLF;
    CStringOfCrlf();
  }

  lemma FieldDecodes(kv: (string, string), more: string)
    requires SingleLine(kv)
    ensures DecodeTrailer(FieldLine(kv) + more) ==
            if |FieldLine(kv)| > HEADER_MAX_LENGTH then (false, more) else DecodeTrailer(more)
  {
    var field := kv.0 + ": " + kv.1;
    var line := FieldLine(kv);
    assert line == field + CRLF;
    LineOf(field, more);
    assert line[1] == field[1] != '\n';
    assert CString(line) != CRLF;
  }

  lemma BlankDecodes(rest: string)
    ensures DecodeTrailer(CRLF + rest) == (true, rest)
  {
    assert CRLF + rest == "" + CRLF + rest && "" + CRLF == CRLF;
    LineOf("", rest);
    CStringOfCrlf();
  }

  lemma TrailerStep(kv: (string, string), more: string, rest: string)
    requires SingleLine(kv)
    ensures DecodeTrailer(FieldLine(kv) + more + rest) ==
            if |FieldLine(kv)| > HEADER_MAX_LENGTH then (false, more + rest) else DecodeTrailer(more + rest)
  {
    Associative(FieldLine(kv), more, rest);
    FieldDecodes(kv, more + rest);
  }

  /** A trailer of single-line fields is accepted, and consumed, exactly if its lines are within the limit. */
  lemma {:induction false} TrailerDecodes(t: Trailer, i: nat, rest: string)
    requires i <= |t| && forall k :: i <= k < |t| ==> SingleLine(t[k])
    ensures DecodeTrailer(TrailerFrom(t, i) + rest).0 == FieldsFit(t, i)
    ensures FieldsFit(t, i) ==> DecodeTrailer(TrailerFrom(t, i) + rest).1 == rest
    decreases |t| - i
  {
    if i == |t| {
      BlankDecodes(rest);
    } else {
      TrailerStep(t[i], TrailerFrom(t, i + 1), rest);
      TrailerDecodes(t, i + 1, rest);
      FitsFrom(t, i);
    }
  }

  lemma FitsFrom(t: Trailer, i: nat)
    requires i < |t|
    ensures FieldsFit(t, i) <==> |FieldLine(t[i])| <= HEADER_MAX_LENGTH && FieldsFit(t, i + 1)
  {
  }

  // ---------- trailers of any fields ----------

  /** Some line of the text is blank. */
  predicate HasBlank(s: string)
    decreases |s|
  {
    !Lacks(s, '\n') && (FirstLine(s) == CRLF || HasBlank(AfterLine(s)))
  }

  lemma FirstOfTwo(a: string, b: string)
    requires !Lacks(a, '\n')
    ensures FirstLine(a + b) == FirstLine(a) && AfterLine(a + b) == AfterLine(a) + b
    ensures FirstLine(a) != "" && FirstLine(a)[|FirstLine(a)| - 1] == '\n'
  {
    var k := IndexOf(a, '\n');
    var head := a[..k];
    assert a == head + ['\n'] + a[k + 1..];
    assert a + b == head + ['\n'] + (a[k + 1..] + b);
    IndexOfAppend(head, '\n', a[k + 1..] + b);
    assert (a + b)[..k + 1] == a[..k + 1];
    assert (a + b)[k + 1..] == a[k + 1..] + b;
  }

  predicate EndsLine(a: string) {
    a == "" || a[|a| - 1] == '\n'
  }

  lemma {:induction false} BlankBehind(a: string, s: string)
    requires EndsLine(a) && HasBlank(s)
    ensures HasBlank(a + s)
    decreases |a|
  {
    if a == "" {
      assert a + s == s;
    } else {
      FirstOfTwo(a, s);
      var b := AfterLine(a);
      assert b != "" ==> b[|b| - 1] == a[|a| - 1];
      BlankBehind(b, s);
      assert (a + s)[|a| - 1] == '\n';
    }
  }

  lemma {:induction false} TrailerHasBlank(t: Trailer, i: nat)
    requires i <= |t|
    ensures HasBlank(TrailerFrom(t, i))
    decreases |t| - i
  {
    if i == |t| {
      assert CRLF[1] == '\n' && CRLF == "" + CRLF + "";
      LineOf("", "");
    } else {
      TrailerHasBlank(t, i + 1);
      BlankBehind(FieldLine(t[i]), TrailerFrom(t, i + 1));
    }
  }

  lemma BlankLineIs(s: string)
    requires s != ""
    ensures CString(FirstLine(s)) == CRLF <==> FirstLine(s) == CRLF
  {
    CStringOfCrlf();
    var line := FirstLine(s);
    if CString(line) == CRLF {
      assert line[..2] == CRLF && line[1] == '\n';
      assert s[1] == line[1];
    }
  }

  lemma FitsFirst(line: string, more: seq<string>)
    ensures FitsToBlank([line] + more)
       <==> line == CRLF || (|line| <= HEADER_MAX_LENGTH && FitsToBlank(more))
  {
    var lines := [line] + more;
    if line == CRLF {
      assert lines[0] == CRLF && Fitting(lines, 0);
    } else {
      if FitsToBlank(lines) {
        var j :| 0 <= j < |lines| && lines[j] == CRLF && Fitting(lines, j);
        assert more[j - 1] == CRLF && lines[0] == line;
        assert forall i :: 0 <= i < j - 1 ==> more[i] == lines[i + 1];
        assert Fitting(more, j - 1);
      }
      if |line| <= HEADER_MAX_LENGTH && FitsToBlank(more) {
        var j :| 0 <= j < |more| && more[j] == CRLF && Fitting(more, j);
        assert lines[j + 1] == CRLF;
        assert forall i :: 0 < i < j + 1 ==> lines[i] == more[i - 1];
        assert Fitting(lines, j + 1);
      }
    }
  }

  /** The reader accepts the lines up to the first blank one if none of them is over the limit. */
  lemma {:induction false} LinesDecode(s: string, rest: string)
    requires HasBlank(s)
    ensures DecodeTrailer(s + rest).0 == FitsToBlank(Lines(s))
    decreases |s|
  {
    FirstOfTwo(s, rest);
    BlankLineIs(s + rest);
    FitsFirst(FirstLine(s), Lines(AfterLine(s)));
    if FirstLine(s) != CRLF {
      LinesDecode(AfterLine(s), rest);
    }
  }

  /** For single-line fields that is a matter of the fields. */
  lemma SingleLinesFit(t: Trailer)
    requires forall k :: 0 <= k < |t| ==> SingleLine(t[k])
    ensures TrailerFits(t) <==> FieldsFit(t, 0)
  {
    TrailerHasBlank(t, 0);
    LinesDecode(TrailerFrom(t, 0), "");
    TrailerDecodes(t, 0, "");
  }

  lemma DoneDecodes(t: Trailer, rest: string)
    ensures var r := DecodeChunks(Emission(Done(t)) + rest);
            && r.ok == TrailerFits(t) && r.data == ""
            && (r.ok && (forall i :: 0 <= i < |t| ==> SingleLine(t[i])) ==> r.rest == rest)
  {
    var trailer := TrailerFrom(t, 0) + rest;
    assert Emission(Done(t)) + rest == "0" + CRLF + trailer;
    assert Hex(0) == "0";
    HexNoNul(0);
    LineOf("0", trailer);
    SizeLine(0);
    TrailerHasBlank(t, 0);
    LinesDecode(TrailerFrom(t, 0), rest);
    if forall i :: 0 <= i < |t| ==> SingleLine(t[i]) {
      TrailerDecodes(t, 0, rest);
    }
  }

  /** What decoding the calls from `i` on yields. */
  function Received(calls: seq<SinkCall>, i: nat): Decoded
    requires i <= |calls|
  {
    DecodeChunks(EmitFrom(calls, i))
  }

  lemma ReceivedWrite(calls: seq<SinkCall>, i: nat, d: string)
    requires i < |calls| && calls[i] == Write(d) && |d| < ULONG_MAX
    ensures Received(calls, i) == Prepend(d, Received(calls, i + 1))
  {
    var rest := EmitFrom(calls, i + 1);
    if d != "" {
      ChunkDecodes(d, rest);
    } else {
      assert "" + rest == rest;
      assert "" + DecodeChunks(rest).data == DecodeChunks(rest).data;
    }
  }

  lemma ReceivedDone(calls: seq<SinkCall>, i: nat, t: Trailer)
    requires i < |calls| && calls[i] == Done(t)
    ensures var r := Received(calls, i);
            && r.ok == TrailerFits(t) && r.data == ""
            && (r.ok && (forall k :: 0 <= k < |t| ==> SingleLine(t[k])) ==> r.rest == EmitFrom(calls, i + 1))
  {
    DoneDecodes(t, EmitFrom(calls, i + 1));
  }

  predicate Complete(r: Decoded, data: string) {
    r.ok && r.data == data
  }

  lemma ExactWrite(calls: seq<SinkCall>, i: nat, d: string)
    requires i < |calls| && calls[i] == Write(d) && |d| < ULONG_MAX
    ensures Complete(Received(calls, i), DataFrom(calls, i)) <==>
      Complete(Received(calls, i + 1), DataFrom(calls, i + 1))
  {
    ReceivedWrite(calls, i, d);
    SamePrefix(d, Received(calls, i + 1).data, DataFrom(calls, i + 1));
  }

  lemma ExactDone(calls: seq<SinkCall>, i: nat, t: Trailer)
    requires i < |calls| && calls[i] == Done(t)
    ensures Complete(Received(calls, i), DataFrom(calls, i)) <==> TrailerFits(t) && DataFrom(calls, i + 1) == ""
  {
    ReceivedDone(calls, i, t);
    assert "" + DataFrom(calls, i + 1) == DataFrom(calls, i + 1);
  }

  /** Chunked round trip, exactly: the reader accepts and delivers all the data given to the sink if and only
      if the body was finished, with trailer lines within the limit up to the first blank one, and no data was given to
      the sink behind that. */
  lemma {:induction false} ChunkedExactly(calls: seq<SinkCall>, i: nat)
    requires i <= |calls| && forall k :: i <= k < |calls| ==> Sendable(calls[k])
    ensures var r := Received(calls, i);
            (r.ok && r.data == DataFrom(calls, i)) <==> FinishesFrom(calls, i)
    decreases |calls| - i
  {
    if i < |calls| {
      hide Received, TrailerFits, DataFrom;
      match calls[i] {
        case Done(t) => ExactDone(calls, i, t);
        case Write(d) =>
          ExactWrite(calls, i, d);
          ChunkedExactly(calls, i + 1);
      }
    }
  }

  /** When finishing is the only call of its kind and the last one, with single-line fields, an accepted body leaves no
      byte over. */
  lemma {:induction false} ChunkedConsumed(calls: seq<SinkCall>, i: nat, t: Trailer)
    requires i < |calls| && forall k :: i <= k < |calls| ==> Sendable(calls[k])
    requires calls[|calls| - 1] == Done(t) && forall k :: i <= k < |calls| - 1 ==> calls[k].Write?
    requires forall k :: 0 <= k < |t| ==> SingleLine(t[k])
    ensures var r := Received(calls, i);
            r.data == DataFrom(calls, i) && r.ok == TrailerFits(t) && (r.ok ==> r.rest == "")
    decreases |calls| - i
  {
    match calls[i]
    case Done(_) =>
      ReceivedDone(calls, i, t);
      assert EmitFrom(calls, i + 1) == "" && DataFrom(calls, i) == "";
    case Write(d) =>
      hide Received, TrailerFits;
      ReceivedWrite(calls, i, d);
      ChunkedConsumed(calls, i + 1, t);
  }
}
