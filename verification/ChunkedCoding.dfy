/** The chunked transfer coding: the writer behind a content sink, and the reader over a stream. */
module ChunkedCoding {
  import opened Text
  import opened UrlCoding
  import opened SocketStream
  import opened LineReader

  const RECV_BUFSIZ: nat := 4096
  const ULONG_MAX: nat := 0xFFFF_FFFF_FFFF_FFFF

  // ---------- chunk sizes ----------

  function LowerHex(v: nat): (c: char)
    requires v < 16
    ensures HexValue(c) == v
  {
    if v < 10 then ('0' as int + v) as char else ('a' as int + (v - 10)) as char
  }

  /** Hexadecimal text of a size. */
  function Hex(n: nat): (s: string)
    ensures s != "" && forall i :: 0 <= i < |s| ==> HexValue(s[i]) < 16
  {
    if n < 16 then [LowerHex(n)] else Hex(n / 16) + [LowerHex(n % 16)]
  }

  method FromIToHex(size: nat) returns (ret: string)
    ensures ret == Hex(size)
  {
    var n := size;
    ret := [LowerHex(n % 16)];
    n := n / 16;
    while n > 0
      invariant Hex(size) == if n > 0 then Hex(n) + ret else ret
    {
      ret := [LowerHex(n % 16)] + ret;
      n := n / 16;
    }
  }

  /** Value of the longest run of digits at `i`, continuing `acc`, and where it ends. */
  function Digits(s: string, i: nat, acc: nat): (r: (nat, nat))
    requires i <= |s|
    ensures i <= r.1 <= |s|
    decreases |s| - i
  {
    if i < |s| && HexValue(s[i]) < 16 then Digits(s, i + 1, acc * 16 + HexValue(s[i])) else (acc, i)
  }

  /** `strtoul` in base 16 on a 64-bit machine: white space, a sign, an optional `0x`, digits.
      `None` when there are no digits; saturates at `ULONG_MAX`. */
  function Strtoul16(s: string): Option<nat> {
    var i := SkipSpaces(s, 0);
    var negative := i < |s| && s[i] == '-';
    var j := if i < |s| && (s[i] == '-' || s[i] == '+') then i + 1 else i;
    var k := if j + 2 < |s| && s[j] == '0' && (s[j + 1] == 'x' || s[j + 1] == 'X') && HexValue(s[j + 2]) < 16
             then j + 2 else j;
    var (v, end) := Digits(s, k, 0);
    if end == k then None
    else if v > ULONG_MAX then Some(ULONG_MAX)
    else if negative then Some((ULONG_MAX + 1 - v) % (ULONG_MAX + 1))
    else Some(v)
  }

  /** Reading the digits of `n` at `i` arrives behind them with the value `n`. */
  lemma {:induction false} DigitsOfHex(n: nat, s: string, i: nat)
    requires i + |Hex(n)| <= |s| && s[i..i + |Hex(n)|] == Hex(n)
    ensures Digits(s, i, 0) == Digits(s, i + |Hex(n)|, n)
  {
    hide HexValue, LowerHex;
    var h := Hex(n);
    if n < 16 {
      assert s[i] == s[i..i + |h|][0] == h[0];
    } else {
      var g := Hex(n / 16);
      var m := |g|;
      assert s[i..i + m] == s[i..i + |h|][..m] == g;
      DigitsOfHex(n / 16, s, i);
      assert s[i + m] == s[i..i + |h|][m] == h[m] == LowerHex(n % 16);
      assert Digits(s, i + m, n / 16) == Digits(s, i + m + 1, n / 16 * 16 + n % 16);
      assert n / 16 * 16 + n % 16 == n;
    }
  }

  /** Text that starts with a digit and has no prefix is read as digits alone. */
  lemma StrtoulPlain(s: string)
    requires |s| >= 2 && HexValue(s[0]) < 16 && s[1] != 'x' && s[1] != 'X'
    ensures var (v, end) := Digits(s, 0, 0);
            end > 0 && v <= ULONG_MAX ==> Strtoul16(s) == Some(v)
  {
    assert SkipSpaces(s, 0) == 0;
  }

  lemma HexLine(n: nat) returns (s: string)
    ensures s == Hex(n) + CRLF && |s| >= 2 && HexValue(s[0]) < 16 && s[1] != 'x' && s[1] != 'X'
    ensures s[0..0 + |Hex(n)|] == Hex(n) && |Hex(n)| < |s| && s[|Hex(n)|] == '\r'
  {
    var h := Hex(n);
    s := h + CRLF;
    assert s[0] == h[0];
    if |h| > 1 {
      assert s[1] == h[1] && HexValue(h[1]) < 16;
    } else {
      assert s[1] == '\r';
    }
  }

  /** The size line of a chunk reads back as the size. */
  lemma SizeLine(n: nat)
    requires n <= ULONG_MAX
    ensures Strtoul16(Hex(n) + CRLF) == Some(n)
  {
    var s := HexLine(n);
    DigitsOfHex(n, s, 0);
    assert Digits(s, |Hex(n)|, n) == (n, |Hex(n)|);
    StrtoulPlain(s);
  }

  // ---------- the reader ----------

  /** Verdict, bytes delivered and input left over. */
  datatype Decoded = Decoded(ok: bool, data: string, rest: string)

  /** Trailer lines up to the blank one. */
  function DecodeTrailer(input: string): (r: (bool, string))
    decreases |input|
  {
    if input == "" then (false, "")
    else
      var line, rest := FirstLine(input), AfterLine(input);
      if CString(line) == CRLF then (true, rest)
      else if |line| > HEADER_MAX_LENGTH then (false, rest)
      else DecodeTrailer(rest)
  }

  /** What `read_content_chunked` makes of the bytes of an error-free stream. */
  function DecodeChunks(input: string): Decoded
    decreases |input|, 2
  {
    if input == "" then Decoded(false, "", "") else DecodeLine(FirstLine(input), AfterLine(input))
  }

  /** The same, behind the size line `line`. */
  function DecodeLine(line: string, rest: string): Decoded
    decreases |rest|, 1
  {
    var size := Strtoul16(CString(line));
    if size.None? || size.value == ULONG_MAX then Decoded(false, "", rest)
    else if size.value == 0 then
      var (ok, left) := DecodeTrailer(rest);
      Decoded(ok, "", left)
    else DecodeBody(rest, size.value)
  }

  /** One chunk: either the end of reading, or its data and the size line behind it. */
  datatype ChunkStep = Stop(end: Decoded) | Go(data: string, next: string)

  /** The data of a chunk of `n` bytes and its line end. */
  function TakeChunk(rest: string, n: nat): (r: ChunkStep)
    ensures r.Go? ==> |r.next| < |rest|
  {
    if |rest| < n then Stop(Decoded(false, rest, ""))
    else
      var d, behind := rest[..n], rest[n..];
      if behind == "" || CString(FirstLine(behind)) != CRLF || AfterLine(behind) == "" then
        Stop(Decoded(false, d, AfterLine(behind)))
      else Go(d, AfterLine(behind))
  }

  function DecodeBody(rest: string, n: nat): Decoded
    decreases |rest|, 0
  {
    match TakeChunk(rest, n)
    case Stop(end) => end
    case Go(data, next) =>
      var r := DecodeChunks(next);
      r.(data := data + r.data)
  }

  /** The content receiver: its answer when the bytes delivered so far are `data`. */
  type Receiver = string -> bool

  ghost predicate Accepting(receiver: Receiver) {
    forall data :: receiver(data)
  }

  predicate ReadUpTo(all: string, len: nat, ok: bool, data: string, rest: string) {
    if len <= |all| then ok && data == all[..len] && rest == all[len..] else !ok && data == all && rest == ""
  }

  lemma ReadDone(all: string, len: nat, data: string, rest: string)
    requires data + rest == all && |data| <= len
    ensures |data| == len ==> ReadUpTo(all, len, true, data, rest)
    ensures |data| < len && rest == "" ==> ReadUpTo(all, len, false, data, rest)
  {
  }

  method ReadWithLength(strm: Stream, len: nat, before: string, receiver: Receiver) returns (ok: bool, data: string)
    requires strm.Valid()
    modifies strm, strm.sock, strm.buff
    ensures strm.Valid() && data + strm.Pending() == old(strm.Pending())
    ensures |data| <= len && (ok ==> |data| == len)
    ensures strm.sock.reliable && Accepting(receiver) ==> ReadUpTo(old(strm.Pending()), len, ok, data, strm.Pending())
  {
    hide ReadUpTo;
    ghost var all := strm.Pending();
    var r := 0;
    data := "";
    while r < len
      invariant strm.Valid() && |data| == r <= len
      invariant data + strm.Pending() == all
      decreases len - r
    {
      var n;
      n, data := ReadPiece(strm, len - r, data, all);
      if n <= 0 {
        ReadDone(all, len, data, strm.Pending());
        return false, data;
      }
      r := r + n;
      if !receiver(before + data) {
        return false, data;
      }
    }
    ReadDone(all, len, data, strm.Pending());
    return true, data;
  }

  /** One read from the stream, put behind the data read before. */
  method ReadPiece(strm: Stream, left: nat, before: string, ghost all: string) returns (n: int, data: string)
    requires strm.Valid() && left > 0 && before + strm.Pending() == all
    modifies strm, strm.sock, strm.buff
    ensures strm.Valid() && data + strm.Pending() == all && n <= left
    ensures |data| == |before| + if n > 0 then n else 0
    ensures n <= 0 && strm.sock.reliable ==> strm.Pending() == ""
  {
    var piece;
    n, piece := strm.Read(if left < RECV_BUFSIZ then left else RECV_BUFSIZ);
    Associative(before, piece, strm.Pending());
    data := before + piece;
  }

  method ReadTrailer(reader: Reader) returns (ok: bool)
    requires reader.Valid()
    modifies reader, reader.fixedBuffer, reader.strm, reader.strm.sock, reader.strm.buff
    ensures reader.Valid()
    ensures reader.strm.sock.reliable ==> (ok, reader.strm.Pending()) == DecodeTrailer(old(reader.strm.Pending()))
  {
    ghost var want := DecodeTrailer(reader.strm.Pending());
    ok := reader.GetLine();
    if !ok {
      return false;
    }
    ghost var rest := reader.strm.Pending();
    while CString(reader.Line()) != CRLF
      invariant reader.Valid() && rest == reader.strm.Pending()
      invariant reader.strm.sock.reliable ==>
                  want == if CString(reader.Line()) == CRLF then (true, rest)
                          else if |reader.Line()| > HEADER_MAX_LENGTH then (false, rest) else DecodeTrailer(rest)
      decreases |rest|
    {
      if |reader.Line()| > HEADER_MAX_LENGTH {
        return false;
      }
      ok := reader.GetLine();
      if !ok {
        return false;
      }
      rest := reader.strm.Pending();
    }
    return true;
  }

  /** What reading one chunk leaves: the next size line in the reader, or the end. */
  predicate ReadStep(step: ChunkStep, ok: bool, data: string, line: string, rest: string) {
    if ok then step.Go? && step.data == data && TookLine(step.next, true, line, rest)
    else step == Stop(Decoded(false, data, rest))
  }

  lemma ChunkEnd(all: string, n: nat, data: string, behind: string, ok: bool, line: string, rest: string)
    requires ReadUpTo(all, n, true, data, behind) && TookLine(behind, ok, line, rest)
    ensures TakeChunk(all, n) == if ok && CString(line) == CRLF && rest != "" then Go(data, rest)
                                 else Stop(Decoded(false, data, rest))
  {
    assert AfterLine(behind) == rest;
  }

  /** One chunk behind its size line, and the size line after it. */
  method ReadChunk(reader: Reader, n: nat, before: string, receiver: Receiver) returns (ok: bool, data: string)
    requires reader.Valid()
    modifies reader, reader.fixedBuffer, reader.strm, reader.strm.sock, reader.strm.buff
    ensures reader.Valid()
    ensures ok ==> |reader.strm.Pending()| < |old(reader.strm.Pending())|
    ensures reader.strm.sock.reliable && Accepting(receiver) ==>
              ReadStep(TakeChunk(old(reader.strm.Pending()), n), ok, data, reader.Line(), reader.strm.Pending())
  {
    ghost var all := reader.strm.Pending();
    ok, data := ReadWithLength(reader.strm, n, before, receiver);
    ghost var behind := reader.strm.Pending();
    if !ok {
      return;
    }
    ok := reader.GetLine();
    ghost var line, rest := reader.Line(), reader.strm.Pending();
    if reader.strm.sock.reliable && Accepting(receiver) {
      ChunkEnd(all, n, data, behind, ok, line, rest);
    }
    if !ok || CString(reader.Line()) != CRLF {
      return false, data;
    }
    ok := reader.GetLine();
  }

  /** `read_content_chunked`, with its line buffer of sixteen bytes. */
  method ReadContentChunked(strm: Stream, receiver: Receiver) returns (ok: bool, data: string)
    requires strm.Valid()
    modifies strm, strm.sock, strm.buff
    ensures strm.Valid()
    ensures strm.sock.reliable && Accepting(receiver) ==>
              Decoded(ok, data, strm.Pending()) == DecodeChunks(old(strm.Pending()))
  {
    hide Strtoul16, CString, DecodeTrailer, TakeChunk, ReadStep;
    var buf := new char[16](_ => 0 as char);
    var reader := new Reader(strm, buf);
    ghost var want := DecodeChunks(strm.Pending());
    data := "";
    ok := reader.GetLine();
    if !ok {
      return;
    }
    ghost var line, rest := reader.Line(), strm.Pending();
    while true
      invariant reader.Valid() && reader.strm == strm && fresh(reader) && fresh(reader.fixedBuffer)
      invariant line == reader.Line() && rest == strm.Pending()
      invariant strm.sock.reliable && Accepting(receiver) ==> want == Prepend(data, DecodeLine(line, rest))
      decreases |rest|
    {
      var size := Strtoul16(CString(reader.Line()));
      if size.None? || size.value == ULONG_MAX {
        return false, data;
      }
      if size.value == 0 {
        ok := ReadTrailer(reader);
        return;
      }
      var piece;
      ok, piece := ReadChunk(reader, size.value, data, receiver);
      if strm.sock.reliable && Accepting(receiver) {
        StepDecoded(data, line, rest, size.value, ok, piece, reader.Line(), strm.Pending());
      }
      data := data + piece;
      if !ok {
        return;
      }
      line, rest := reader.Line(), strm.Pending();
    }
  }

  function Prepend(data: string, d: Decoded): Decoded { d.(data := data + d.data) }

  lemma StepDecoded(data: string, line: string, rest: string, n: nat, ok: bool, piece: string, line': string,
      rest': string)
    requires Strtoul16(CString(line)) == Some(n) && n != ULONG_MAX && n != 0
    requires ReadStep(TakeChunk(rest, n), ok, piece, line', rest')
    ensures Prepend(data, DecodeLine(line, rest)) ==
            if ok then Prepend(data + piece, DecodeLine(line', rest')) else Decoded(false, data + piece, rest')
  {
    if ok {
      var next := TakeChunk(rest, n).next;
      assert AfterLine(next) == rest';
      var r := DecodeLine(line', rest');
      assert DecodeChunks(next) == r;
      Associative(data, piece, r.data);
    }
  }

  // ---------- the writer ----------

  /** The sending side of a connection; a write may take only part of what it is given. */
  class OutStream {
    var written: string

    constructor ()
      ensures written == ""
    {
      written := "";
    }

    method Write(data: string) returns (n: nat)
      requires data != ""
      modifies this
      ensures 0 < n <= |data| && written == old(written) + data[..n]
    {
      n :| 0 < n <= |data|;
      written := written + data[..n];
    }

    method WriteData(d: string)
      modifies this
      ensures written == old(written) + d
    {
      var offset := 0;
      while offset < |d|
        invariant offset <= |d| && written == old(written) + d[..offset]
      {
        var n := Write(d[offset..]);
        assert d[..offset] + d[offset..][..n] == d[..offset + n];
        offset := offset + n;
      }
    }
  }

  type Trailer = seq<(string, string)>

  /** What a content provider may do with the sink it is given. */
  datatype SinkCall = Write(data: string) | Done(trailer: Trailer)

  function Chunk(d: string): string { Hex(|d|) + CRLF + d + CRLF }

  function FieldLine(kv: (string, string)): string { kv.0 + ": " + kv.1 + CRLF }

  function TrailerFrom(t: Trailer, i: nat): string
    requires i <= |t|
    decreases |t| - i
  {
    if i == |t| then CRLF else FieldLine(t[i]) + TrailerFrom(t, i + 1)
  }

  function Emission(call: SinkCall): string {
    match call
    case Write(d) => if d == "" then "" else Chunk(d)
    case Done(t) => "0" + CRLF + TrailerFrom(t, 0)
  }

  function EmitFrom(calls: seq<SinkCall>, i: nat): string
    requires i <= |calls|
    decreases |calls| - i
  {
    if i == |calls| then "" else Emission(calls[i]) + EmitFrom(calls, i + 1)
  }

  /** `data_available` after these calls, the last of which decides. */
  predicate StillOpen(calls: seq<SinkCall>) {
    OpenAfter(calls, |calls|)
  }

  predicate OpenAfter(calls: seq<SinkCall>, j: nat)
    requires j <= |calls|
  {
    j == 0 || (calls[j - 1].Write? && calls[j - 1].data != "")
  }

  class Sink {
    const out: OutStream
    var dataAvailable: bool
    var offset: nat

    constructor (out: OutStream)
      ensures this.out == out && dataAvailable && offset == 0
    {
      this.out, dataAvailable, offset := out, true, 0;
    }

    method PutData(d: string)
      modifies this, out
      ensures out.written == old(out.written) + Emission(Write(d)) && dataAvailable == (d != "")
      ensures offset == old(offset) + |d|
    {
      dataAvailable := |d| > 0;
      offset := offset + |d|;
      if |d| > 0 {
        var size := FromIToHex(|d|);
        out.WriteData(size + "\r\n" + d + "\r\n");
      }
    }

    method Finish(trailer: Trailer)
      modifies this, out
      ensures out.written == old(out.written) + Emission(Done(trailer)) && !dataAvailable
      ensures offset == old(offset)
    {
      dataAvailable := false;
      ghost var before, all := out.written, Emission(Done(trailer));
      out.WriteData("0\r\n");
      for i := 0 to |trailer|
        invariant !dataAvailable && offset == old(offset)
        invariant out.written + TrailerFrom(trailer, i) == before + all
      {
        ghost var w := out.written;
        var kv := trailer[i];
        var line := kv.0 + ": " + kv.1 + "\r\n";
        Associative(w, FieldLine(kv), TrailerFrom(trailer, i + 1));
        out.WriteData(line);
      }
      out.WriteData("\r\n");
    }

    method Put(call: SinkCall)
      modifies this, out
      ensures out.written == old(out.written) + Emission(call) && dataAvailable == StillOpen([call])
    {
      match call
      case Write(d) => PutData(d);
      case Done(t) => Finish(t);
    }
  }

  /** The sink calls that happen when the provider would make the calls of `schedule[i..]`, one element
      per invocation: the loop asks again as long as data is available. */
  function Executed(schedule: seq<seq<SinkCall>>, i: nat): seq<SinkCall>
    requires i <= |schedule|
    decreases |schedule| - i
  {
    if i == |schedule| then []
    else schedule[i] + if StillOpen(schedule[i]) then Executed(schedule, i + 1) else []
  }

  predicate Ends(schedule: seq<seq<SinkCall>>, i: nat)
    requires i <= |schedule|
    decreases |schedule| - i
  {
    i < |schedule| && (!StillOpen(schedule[i]) || Ends(schedule, i + 1))
  }

  lemma EmitOne(w: string, calls: seq<SinkCall>, j: nat)
    requires j < |calls|
    ensures w + EmitFrom(calls, j) == w + Emission(calls[j]) + EmitFrom(calls, j + 1)
  {
    Associative(w, Emission(calls[j]), EmitFrom(calls, j + 1));
  }

  method Provide(sink: Sink, calls: seq<SinkCall>)
    requires sink.dataAvailable
    modifies sink, sink.out
    ensures sink.out.written == old(sink.out.written) + EmitFrom(calls, 0)
    ensures sink.dataAvailable == StillOpen(calls)
  {
    hide EmitFrom;
    ghost var all := sink.out.written + EmitFrom(calls, 0);
    for j := 0 to |calls|
      invariant sink.out.written + EmitFrom(calls, j) == all
      invariant sink.dataAvailable == OpenAfter(calls, j)
    {
      ProvideOne(sink, calls, j, all);
    }
    EmitNothing(sink.out.written, calls);
  }

  lemma EmitNothing(w: string, calls: seq<SinkCall>)
    ensures w + EmitFrom(calls, |calls|) == w
  {
  }

  method ProvideOne(sink: Sink, calls: seq<SinkCall>, j: nat, ghost all: string)
    requires j < |calls| && sink.out.written + EmitFrom(calls, j) == all
    modifies sink, sink.out
    ensures sink.out.written + EmitFrom(calls, j + 1) == all && sink.dataAvailable == OpenAfter(calls, j + 1)
  {
    EmitOne(sink.out.written, calls, j);
    hide Emission, EmitFrom;
    sink.Put(calls[j]);
  }

  lemma {:induction false} EmitAppend(a: seq<SinkCall>, b: seq<SinkCall>, i: nat)
    requires i <= |a|
    ensures EmitFrom(a + b, i) == EmitFrom(a, i) + EmitFrom(b, 0)
    decreases |a| - i
  {
    if i < |a| {
      EmitAppend(a, b, i + 1);
    } else {
      EmitShift(a, b, 0);
    }
  }

  lemma {:induction false} EmitShift(a: seq<SinkCall>, b: seq<SinkCall>, i: nat)
    requires i <= |b|
    ensures EmitFrom(a + b, |a| + i) == EmitFrom(b, i)
    decreases |b| - i
  {
    if i < |b| {
      hide Emission;
      assert (a + b)[|a| + i] == b[i];
      EmitShift(a, b, i + 1);
    }
  }

  /** `write_content_chunked` without compression; running out of schedule stands for a provider that cancels. */
  method WriteContentChunked(out: OutStream, schedule: seq<seq<SinkCall>>) returns (ok: bool)
    modifies out
    ensures out.written == old(out.written) + EmitFrom(Executed(schedule, 0), 0)
    ensures ok == Ends(schedule, 0)
  {
    var sink := new Sink(out);
    ghost var w, todo := out.written, Executed(schedule, 0);
    ghost var all := w + EmitFrom(todo, 0);
    var i := 0;
    while sink.dataAvailable
      invariant i <= |schedule| && sink.out == out && fresh(sink) && w == out.written
      invariant todo == if sink.dataAvailable then Executed(schedule, i) else []
      invariant w + EmitFrom(todo, 0) == all
      invariant Ends(schedule, 0) == (!sink.dataAvailable || Ends(schedule, i))
      decreases |schedule| - i
    {
      if i == |schedule| {
        return false;
      }
      todo := if StillOpen(schedule[i]) then Executed(schedule, i + 1) else [];
      EmitAppend(schedule[i], todo, 0);
      Associative(w, EmitFrom(schedule[i], 0), EmitFrom(todo, 0));
      Provide(sink, schedule[i]);
      w := out.written;
      i := i + 1;
    }
    return true;
  }
}
