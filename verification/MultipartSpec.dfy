/** What one call of the multipart form parser does, as a function of its state and the unread bytes.
    `MultipartParser` is proved to compute exactly this; the theorems are in the modules
    from `MultipartChunks` to `MultipartOpening`. */
module MultipartSpec {
  import opened Text
  import opened UrlCoding

  datatype FileInfo = FileInfo(name: string, filename: string, contentType: string)

  const NO_FILE := FileInfo("", "", "")

  /** A callback invocation: a header block was completed, or body bytes arrived. */
  datatype Event = Header(file: FileInfo) | Content(data: string)

  /** The two callbacks as one oracle: the answer to the last event of a history. */
  type Callbacks = seq<Event> -> bool

  /** States 0 to 4 of the parser, in order. */
  datatype State = InitialBoundary | NewEntry | Headers | Body | Boundary

  datatype Snapshot = Snapshot(state: State, valid: bool, file: FileInfo, rest: string, log: seq<Event>)

  const START := Snapshot(InitialBoundary, false, NO_FILE, "", [])

  /** `Return` leaves `parse` with a verdict, `Continue` goes round its loop again. */
  datatype Outcome = Return(ok: bool, next: Snapshot) | Continue(next: Snapshot)

  function OpeningLine(boundary: string): string { DASH + boundary + CRLF }

  function Delimiter(boundary: string): string { CRLF + DASH + boundary }

  // ---------- header lines ----------

  /** Whether `parse_header` accepts the line: a non-empty key, a colon and a non-blank value. */
  predicate ParsesAsHeader(line: string) {
    var end := DropBlanks(line, |line|);
    var colon := IndexOf(line[..end], ':');
    0 < colon < end && SkipBlanks(line[..end], colon + 1) < end
  }

  const CONTENT_TYPE := "Content-Type:"
  const DISPOSITION := "Content-Disposition:"
  const FORM_DATA := "form-data;"
  const RFC5987 := "UTF-8''"

  predicate OneLine(s: string) {
    Lacks(s, '\r') && Lacks(s, '\n')
  }

  /** The capture of the pattern `^Content-Disposition:\s*form-data;\s*(.*)$`, ignoring case. */
  function DispositionText(line: string): Option<string> {
    if !StartsWithIgnoreCase(line, DISPOSITION) then None
    else
      var i := SkipSpaces(line, |DISPOSITION|);
      if !StartsWithIgnoreCase(line[i..], FORM_DATA) then None
      else
        var text := line[SkipSpaces(line, i + |FORM_DATA|)..];
        if OneLine(text) then Some(text) else None
  }

  function TrimQuotes(s: string): string {
    if |s| >= 2 && s[0] == '"' && s[|s| - 1] == '"' then s[1..|s| - 1] else s
  }

  /** The piece `kv` reads as `key=value`. */
  predicate Binds(kv: string, key: string, value: string) {
    var e := KeyValue(kv);
    e.Some? && TrimQuotes(e.value.0) == key && value == TrimQuotes(e.value.1)
  }

  /** Value of the first `key` among `key=value` pieces. */
  function Lookup(pieces: seq<string>, key: string): (r: Option<string>)
    ensures r.Some? ==> exists kv :: kv in pieces && Binds(kv, key, r.value)
  {
    if pieces == [] then None
    else
      var e := KeyValue(pieces[0]);
      if e.Some? && TrimQuotes(e.value.0) == key then
        assert Binds(pieces[0], key, TrimQuotes(e.value.1));
        Some(TrimQuotes(e.value.1))
      else Lookup(pieces[1..], key)
  }

  /** The file information after one header line, and whether the line was acceptable. */
  function ApplyHeader(line: string, file: FileInfo): (bool, FileInfo) {
    if !ParsesAsHeader(line) then (false, file)
    else if StartsWithIgnoreCase(line, CONTENT_TYPE) then
      (true, file.(contentType := TrimCopy(line[|CONTENT_TYPE|..])))
    else
      match DispositionText(line)
      case None => (true, file)
      case Some(text) => ApplyDisposition(Dedup(Split(text, ';')), file)
  }

  function ApplyDisposition(params: seq<string>, file: FileInfo): (bool, FileInfo) {
    match Lookup(params, "name")
    case None => (false, file)
    case Some(name) =>
      var plain := Lookup(params, "filename");
      var named := file.(name := name, filename := if plain.Some? then plain.value else file.filename);
      match Lookup(params, "filename*")
      case None => (true, named)
      case Some(ext) =>
        if |ext| > |RFC5987| && StartsWithIgnoreCase(ext, RFC5987) && OneLine(ext) then
          (true, named.(filename := DecodeUrl(ext[|RFC5987|..], false)))
        else (false, named)
  }

  // ---------- one turn of the loop ----------

  /** Consumes the header line that ends at `pos`. */
  function TakeLine(s: Snapshot, pos: nat): (r: (bool, Snapshot))
    requires pos + 2 <= |s.rest|
    ensures r.0 ==> r.1.rest == s.rest[pos + 2..]
  {
    var (ok, file) := ApplyHeader(s.rest[..pos], s.file);
    if ok then (true, s.(file := file, rest := s.rest[pos + 2..]))
    else (false, s.(file := file, valid := false))
  }

  /** The blank line that ends a header block. */
  function EndHeaders(s: Snapshot, callbacks: Callbacks): Outcome
    requires 2 <= |s.rest|
  {
    var log := s.log + [Header(s.file)];
    if callbacks(log) then Continue(s.(log := log, rest := s.rest[2..], state := Body))
    else Return(false, s.(log := log, valid := false))
  }

  /** The inner loop over header lines. */
  function ReadHeaders(s: Snapshot, callbacks: Callbacks): (o: Outcome)
    ensures o.Continue? ==> |o.next.rest| < |s.rest|
    decreases |s.rest|
  {
    var pos := Find(s.rest, CRLF);
    if pos == |s.rest| then Return(true, s)
    else if pos == 0 then EndHeaders(s, callbacks)
    else
      var (ok, t) := TakeLine(s, pos);
      if ok then ReadHeaders(t, callbacks) else Return(false, t)
  }

  /** Hands the first `len` unread bytes to the content callback; if it agrees, drops `used` bytes. */
  function Deliver(s: Snapshot, len: nat, used: nat, state: State, callbacks: Callbacks): (bool, Snapshot)
    requires len <= used <= |s.rest|
  {
    var log := s.log + [Content(s.rest[..len])];
    if callbacks(log) then (true, s.(log := log, rest := s.rest[used..], state := state))
    else (false, s.(log := log, valid := false))
  }

  function ReadBody(s: Snapshot, delim: string, callbacks: Callbacks): (o: Outcome)
    requires delim != ""
    ensures o.Continue? ==> |o.next.rest| < |s.rest|
  {
    if |delim| > |s.rest| then Return(true, s)
    else
      var pos := Find(s.rest, delim);
      if pos < |s.rest| then
        var (ok, t) := Deliver(s, pos, pos + |delim|, Boundary, callbacks);
        if ok then Continue(t) else Return(false, t)
      else
        var len := |s.rest| - |delim|;
        if len == 0 then Return(true, s)
        else
          var (ok, t) := Deliver(s, len, len, Body, callbacks);
          Return(ok, t)
  }

  function ReadBoundary(s: Snapshot): (o: Outcome)
    ensures o.Continue? ==> |o.next.rest| < |s.rest|
  {
    if |s.rest| < 2 then Return(true, s)
    else if s.rest[..2] == CRLF then Continue(s.(rest := s.rest[2..], state := NewEntry))
    else if s.rest[..2] == DASH then Continue(s.(rest := "", valid := true))
    else Return(true, s)
  }

  /** Drops everything up to the opening line, or everything there is. */
  function SkipTo(s: Snapshot, open: string): Snapshot
    requires open != ""
  {
    s.(rest := s.rest[Find(s.rest, open)..])
  }

  /** Consumes the opening line the unread bytes must begin with. */
  function TakeOpening(s: Snapshot, open: string): (o: Outcome)
    requires open != ""
    ensures o.Continue? ==> |o.next.rest| < |s.rest|
  {
    if |open| > |s.rest| then Return(true, s)
    else if s.rest[..|open|] != open then Return(false, s)
    else Continue(s.(rest := s.rest[|open|..], state := NewEntry))
  }

  function ReadOpening(s: Snapshot, open: string): (o: Outcome)
    requires open != ""
    ensures o.Continue? ==> |o.next.rest| < |s.rest|
  {
    TakeOpening(SkipTo(s, open), open)
  }

  function Step(s: Snapshot, boundary: string, callbacks: Callbacks): (o: Outcome)
    ensures o.Continue? ==> |o.next.rest| < |s.rest| ||
                            (|o.next.rest| == |s.rest| && s.state.NewEntry? && !o.next.state.NewEntry?)
  {
    match s.state
    case InitialBoundary => ReadOpening(s, OpeningLine(boundary))
    case NewEntry => Continue(s.(file := NO_FILE, state := Headers))
    case Headers =>
      if Find(s.rest, CRLF) > HEADER_MAX_LENGTH then Return(false, s)
      else ReadHeaders(s, callbacks)
    case Body => ReadBody(s, Delimiter(boundary), callbacks)
    case Boundary => ReadBoundary(s)
  }

  /** The loop of `parse`: until the buffer is empty or a step returns. */
  function Run(s: Snapshot, boundary: string, callbacks: Callbacks): (bool, Snapshot)
    decreases |s.rest|, if s.state.NewEntry? then 1 else 0
  {
    if s.rest == "" then (true, s)
    else
      match Step(s, boundary, callbacks)
      case Return(ok, t) => (ok, t)
      case Continue(t) => Run(t, boundary, callbacks)
  }

  /** One call of `parse` with a chunk of input. */
  function Feed(s: Snapshot, chunk: string, boundary: string, callbacks: Callbacks): (bool, Snapshot) {
    Run(s.(rest := s.rest + chunk), boundary, callbacks)
  }
}
