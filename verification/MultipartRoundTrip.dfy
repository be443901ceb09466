/** The serializer, and the theorem that parsing what it writes gives the items back under any chunking. */
module MultipartRoundTrip {
  import opened Text
  import opened MultipartSpec
  import opened MultipartChunks
  import opened MultipartHeaders

  /** `is_multipart_boundary_chars_valid`. */
  predicate ValidBoundary(boundary: string) {
    forall i :: 0 <= i < |boundary| ==> IsAlnum(boundary[i]) || boundary[i] == '-' || boundary[i] == '_'
  }

  method BoundaryCharsValid(boundary: string) returns (valid: bool)
    ensures valid == ValidBoundary(boundary)
  {
    valid := true;
    for i := 0 to |boundary|
      invariant valid && forall k :: 0 <= k < i ==> IsAlnum(boundary[k]) || boundary[k] == '-' || boundary[k] == '_'
    {
      var c := boundary[i];
      if !IsAlnum(c) && c != '-' && c != '_' {
        return false;
      }
    }
  }

  function ItemText(item: Part, boundary: string): string {
    OpeningLine(boundary) + HeaderBlock(item.file) + item.content + CRLF
  }

  function SerializeFrom(items: seq<Part>, i: nat, boundary: string): string
    requires i <= |items|
    decreases |items| - i
  {
    if i == |items| then DASH + boundary + DASH + CRLF
    else ItemText(items[i], boundary) + SerializeFrom(items, i + 1, boundary)
  }

  function Serialize(items: seq<Part>, boundary: string): string {
    SerializeFrom(items, 0, boundary)
  }

  method SerializeDisposition(f: FileInfo) returns (line: string)
    ensures line == DispositionLine(f)
  {
    line := "Content-Disposition: form-data; name=\"" + f.name + "\"";
    assert line == DISPOSITION + " " + FORM_DATA + " " + Quoted("name", f.name);
    if f.filename != "" {
      ghost var before := line;
      line := line + "; filename=\"" + f.filename + "\"";
      assert line == before + ("; " + Quoted("filename", f.filename));
      Associative(DISPOSITION + " " + FORM_DATA + " ", Quoted("name", f.name), "; " + Quoted("filename", f.filename));
    }
  }

  method SerializeItemBegin(item: Part, boundary: string) returns (body: string)
    ensures body == OpeningLine(boundary) + HeaderBlock(item.file)
  {
    body := "--" + boundary + "\r\n";
    var line := SerializeDisposition(item.file);
    var block := line + "\r\n";
    if item.file.contentType != "" {
      var typeLine := "Content-Type: " + item.file.contentType;
      assert typeLine == TypeLine(item.file);
      Associative(block, typeLine, "\r\n");
      block := block + typeLine + "\r\n";
    }
    block := block + "\r\n";
    body := body + block;
  }

  method SerializeMultipart(items: seq<Part>, boundary: string) returns (body: string)
    ensures body == Serialize(items, boundary)
  {
    body := "";
    for i := 0 to |items|
      invariant body + SerializeFrom(items, i, boundary) == Serialize(items, boundary)
    {
      Associative(body, ItemText(items[i], boundary), SerializeFrom(items, i + 1, boundary));
      var begin := SerializeItemBegin(items[i], boundary);
      var text := begin + items[i].content + "\r\n";
      body := body + text;
    }
    var finish := "--" + boundary + "--" + "\r\n";
    body := body + finish;
  }

  /** An item whose every part keeps its meaning in the text of a form. */
  ghost predicate Faithful(item: Part, boundary: string) {
    && Clean(item.file.name) && Clean(item.file.filename)
    && Trimmed(item.file.contentType) && !Contains(item.file.contentType, CRLF)
    && !Contains(item.content, Delimiter(boundary))
  }

  /** The header lines of an item are within the parser's limit. */
  predicate LinesWithin(f: FileInfo) {
    |DispositionLine(f)| < HEADER_MAX_LENGTH && |TypeLine(f)| < HEADER_MAX_LENGTH
  }

  /** An item the parser can give back. */
  ghost predicate Carried(item: Part, boundary: string) {
    Faithful(item, boundary) && LinesWithin(item.file)
  }

  // ---------- the text behind the opening line ----------

  /** What follows the opening line of item `i`, up to and including the closing dashes. */
  function Tail(items: seq<Part>, i: nat, boundary: string): string
    requires i < |items|
    decreases |items| - i
  {
    EntryText(items[i], After(items, i, boundary), boundary)
  }

  function After(items: seq<Part>, i: nat, boundary: string): string
    requires i < |items|
    decreases |items| - i, 0
  {
    if i + 1 == |items| then DASH else CRLF + Tail(items, i + 1, boundary)
  }

  lemma RegroupLast(d: string, b: string, n: string, h: string, c: string)
    ensures d + b + n + h + c + n + (d + b + d + n) == d + b + n + (h + (c + (n + d + b) + d)) + n
  {
    assert n + (d + b + d + n) == (n + d + b) + d + n;
    assert d + b + n + h + c + n + (d + b + d + n) == d + b + n + h + c + (n + (d + b + d + n));
    assert h + (c + (n + d + b) + d) == h + c + ((n + d + b) + d);
  }

  lemma RegroupNext(d: string, b: string, n: string, h: string, c: string, t: string)
    ensures d + b + n + h + c + n + (d + b + n + t + n) == d + b + n + (h + (c + (n + d + b) + (n + t))) + n
  {
    assert n + (d + b + n + t + n) == (n + d + b) + (n + t) + n;
    assert d + b + n + h + c + n + (d + b + n + t + n) == d + b + n + h + c + (n + (d + b + n + t + n));
    assert h + (c + (n + d + b) + (n + t)) == h + c + ((n + d + b) + (n + t));
  }

  lemma {:induction false} SerializeTail(items: seq<Part>, i: nat, boundary: string)
    requires i < |items|
    ensures SerializeFrom(items, i, boundary) == OpeningLine(boundary) + Tail(items, i, boundary) + CRLF
    decreases |items| - i
  {
    var h, c := HeaderBlock(items[i].file), items[i].content;
    if i + 1 == |items| {
      assert SerializeFrom(items, i + 1, boundary) == DASH + boundary + DASH + CRLF;
      RegroupLast(DASH, boundary, CRLF, h, c);
    } else {
      SerializeTail(items, i + 1, boundary);
      RegroupNext(DASH, boundary, CRLF, h, c, Tail(items, i + 1, boundary));
    }
  }

  // ---------- parsing one item ----------

  lemma OneLineNoCrlf(s: string)
    requires OneLine(s)
    ensures !Contains(s, CRLF)
  {
    forall i ensures !OccursAt(s, CRLF, i) {
      if 0 <= i && i + 2 <= |s| {
        assert s[i..i + 2][0] == s[i];
      }
    }
  }

  lemma FindLineEnd(line: string, rest: string)
    requires !Contains(line, CRLF)
    ensures Find(line + CRLF + rest, CRLF) == |line|
    ensures (line + CRLF + rest)[..|line|] == line && (line + CRLF + rest)[|line| + 2..] == rest
  {
    FindAfter(line, CRLF, rest);
  }

  lemma TypeLineNoCrlf(f: FileInfo)
    requires !Contains(f.contentType, CRLF)
    ensures !Contains(TypeLine(f), CRLF)
  {
    var k := |CONTENT_TYPE| + 1;
    var line := TypeLine(f);
    assert OneLine(CONTENT_TYPE + " ");
    forall i ensures !OccursAt(line, CRLF, i) {
      if 0 <= i && i + 2 <= |line| {
        if i < k {
          assert line[i..i + 2][0] == line[i] == (CONTENT_TYPE + " ")[i];
        } else {
          assert line[i..i + 2] == f.contentType[i - k..i - k + 2];
          assert !OccursAt(f.contentType, CRLF, i - k);
        }
      }
    }
  }

  lemma DispositionLineOneLine(f: FileInfo)
    requires Clean(f.name) && Clean(f.filename)
    ensures OneLine(DispositionLine(f))
  {
    DispositionOneLine(f);
  }

  /** The blank line. */
  lemma HeadersEnd(s: Snapshot, x: string, callbacks: Callbacks)
    requires Accepting(callbacks) && s.rest == CRLF + x
    ensures ReadHeaders(s, callbacks) == Continue(s.(log := s.log + [Header(s.file)], rest := x, state := Body))
    ensures LinesFit(s.rest, s.file)
  {
    assert s.rest == "" + CRLF + x;
    OneLineNoCrlf("");
    FindLineEnd("", x);
  }

  /** One accepted header line. */
  lemma HeadersLine(s: Snapshot, line: string, x: string, callbacks: Callbacks)
    requires line != "" && !Contains(line, CRLF) && |line| < HEADER_MAX_LENGTH && s.rest == line + CRLF + x
    requires ApplyHeader(line, s.file).0
    ensures var next := s.(file := ApplyHeader(line, s.file).1, rest := x);
            ReadHeaders(s, callbacks) == ReadHeaders(next, callbacks) &&
            (LinesFit(x, next.file) ==> LinesFit(s.rest, s.file))
  {
    FindLineEnd(line, x);
  }

  lemma HeadersTyped(s: Snapshot, f: FileInfo, x: string, callbacks: Callbacks)
    requires Accepting(callbacks) && Trimmed(f.contentType) && !Contains(f.contentType, CRLF) && f.contentType != ""
    requires |TypeLine(f)| < HEADER_MAX_LENGTH && s.file == f.(contentType := "")
    requires s.rest == TypeLine(f) + CRLF + (CRLF + x)
    ensures ReadHeaders(s, callbacks) == Continue(s.(file := f, log := s.log + [Header(f)], rest := x, state := Body))
    ensures LinesFit(s.rest, s.file)
  {
    TypeLineNoCrlf(f);
    TypeApplies(f, s.file);
    hide ApplyHeader, ReadHeaders, TypeLine;
    HeadersLine(s, TypeLine(f), CRLF + x, callbacks);
    HeadersEnd(s.(file := f, rest := CRLF + x), x, callbacks);
  }

  /** The optional content type line and the blank line. */
  lemma HeadersRest(s: Snapshot, f: FileInfo, x: string, callbacks: Callbacks)
    requires Accepting(callbacks) && Trimmed(f.contentType) && !Contains(f.contentType, CRLF)
    requires |TypeLine(f)| < HEADER_MAX_LENGTH && s.file == f.(contentType := "")
    requires s.rest == TypePart(f) + x
    ensures ReadHeaders(s, callbacks) == Continue(s.(file := f, log := s.log + [Header(f)], rest := x, state := Body))
    ensures LinesFit(s.rest, s.file)
  {
    hide ReadHeaders, LinesFit;
    if f.contentType == "" {
      assert s.rest == CRLF + x;
      HeadersEnd(s, x, callbacks);
    } else {
      assert s.rest == TypeLine(f) + CRLF + (CRLF + x);
      HeadersTyped(s, f, x, callbacks);
    }
  }

  lemma HeadersOfItem(s: Snapshot, item: Part, x: string, boundary: string, callbacks: Callbacks)
    requires Accepting(callbacks) && Carried(item, boundary) && s.file == NO_FILE
    requires s.rest == HeaderBlock(item.file) + x
    ensures ReadHeaders(s, callbacks) ==
            Continue(s.(file := item.file, log := s.log + [Header(item.file)], rest := x, state := Body))
    ensures LinesFit(s.rest, s.file)
  {
    var f := item.file;
    var line := DispositionLine(f);
    DispositionLineOneLine(f);
    OneLineNoCrlf(line);
    DispositionApplies(f);
    var rest := TypePart(f) + x;
    RegroupBlock(line, CRLF, TypePart(f), x);
    HeadersLine(s, line, rest, callbacks);
    HeadersRest(s.(file := f.(contentType := ""), rest := rest), f, x, callbacks);
  }

  lemma RegroupBlock(a: string, n: string, b: string, x: string)
    ensures a + n + b + x == a + n + (b + x)
  {
  }

  lemma DelimiterHasNoBorder(boundary: string)
    requires ValidBoundary(boundary)
    ensures forall j :: 0 < j < |Delimiter(boundary)| ==> Delimiter(boundary)[j] != Delimiter(boundary)[0]
  {
  }

  lemma BodyOfItem(s: Snapshot, content: string, x: string, boundary: string, callbacks: Callbacks)
    requires Accepting(callbacks) && ValidBoundary(boundary) && !Contains(content, Delimiter(boundary))
    requires s.rest == content + Delimiter(boundary) + x
    ensures ReadBody(s, Delimiter(boundary), callbacks) ==
            Continue(s.(log := s.log + [Content(content)], rest := x, state := Boundary))
  {
    DelimiterHasNoBorder(boundary);
    FindAfter(content, Delimiter(boundary), x);
    assert s.rest[..|content|] == content;
    assert s.rest[|content| + |Delimiter(boundary)|..] == x;
  }

  lemma Advance(s: Snapshot, t: Snapshot, boundary: string, callbacks: Callbacks)
    requires s.rest != "" && Step(s, boundary, callbacks) == Continue(t)
    ensures Run(s, boundary, callbacks) == Run(t, boundary, callbacks)
    ensures (s.state.Headers? ==> LinesFit(s.rest, s.file)) && !s.state.Boundary? && Tame(t, boundary, callbacks) ==>
              Tame(s, boundary, callbacks)
  {
  }

  /** The text of one entry, from behind the delimiter line in front of it, with `after` behind its delimiter. */
  function EntryText(item: Part, after: string, boundary: string): string {
    HeaderBlock(item.file) + (item.content + Delimiter(boundary) + after)
  }

  /** The state behind the delimiter of the entry `item`. */
  function Behind(s: Snapshot, item: Part, after: string): Snapshot {
    s.(state := Boundary, file := item.file, rest := after,
       log := s.log + [Header(item.file)] + [Content(item.content)])
  }

  lemma HeadRun(s: Snapshot, item: Part, body: string, boundary: string, callbacks: Callbacks) returns (t: Snapshot)
    requires Accepting(callbacks) && Carried(item, boundary)
    requires s.state.NewEntry? && s.rest == HeaderBlock(item.file) + body
    ensures t == s.(file := item.file, log := s.log + [Header(item.file)], rest := body, state := Body)
    ensures Run(s, boundary, callbacks) == Run(t, boundary, callbacks)
    ensures Tame(t, boundary, callbacks) ==> Tame(s, boundary, callbacks)
  {
    var s1 := s.(file := NO_FILE, state := Headers);
    Advance(s, s1, boundary, callbacks);
    HeadersOfItem(s1, item, body, boundary, callbacks);
    FitsWithinLimit(s1.rest, s1.file);
    t := s1.(file := item.file, log := s.log + [Header(item.file)], rest := body, state := Body);
    Advance(s1, t, boundary, callbacks);
  }

  /** From the start of an entry to the bytes behind its delimiter. */
  lemma ItemRun(s: Snapshot, item: Part, after: string, boundary: string, callbacks: Callbacks)
    requires Accepting(callbacks) && ValidBoundary(boundary) && Carried(item, boundary)
    requires s.state.NewEntry? && s.rest == EntryText(item, after, boundary)
    ensures var t := Behind(s, item, after);
            Run(s, boundary, callbacks) == Run(t, boundary, callbacks) &&
            (Tame(t, boundary, callbacks) ==> Tame(s, boundary, callbacks))
  {
    var t := HeadRun(s, item, item.content + Delimiter(boundary) + after, boundary, callbacks);
    BodyOfItem(t, item.content, after, boundary, callbacks);
    Advance(t, Behind(s, item, after), boundary, callbacks);
  }

  lemma PartsOfItem(log: seq<Event>, item: Part)
    ensures Parts(log + [Header(item.file)] + [Content(item.content)]) == Parts(log) + [item]
  {
    PartsSnoc(log, Header(item.file));
    PartsSnoc(log + [Header(item.file)], Content(item.content));
    assert "" + item.content == item.content;
  }

  lemma ClosingStep(t: Snapshot, boundary: string, callbacks: Callbacks)
    requires t.state.Boundary? && t.rest == DASH
    ensures Run(t, boundary, callbacks) == (true, t.(rest := "", valid := true))
    ensures Tame(t, boundary, callbacks)
  {
    assert t.rest[..2] == DASH;
    assert Step(t, boundary, callbacks) == Continue(t.(rest := "", valid := true));
  }

  lemma NextStep(t: Snapshot, tail: string, boundary: string, callbacks: Callbacks)
    requires t.state.Boundary? && t.rest == CRLF + tail
    ensures var u := t.(rest := tail, state := NewEntry);
            Run(t, boundary, callbacks) == Run(u, boundary, callbacks) &&
            (Tame(u, boundary, callbacks) ==> Tame(t, boundary, callbacks))
  {
    assert t.rest[..2] == CRLF && t.rest[2..] == tail;
    assert Step(t, boundary, callbacks) == Continue(t.(rest := tail, state := NewEntry));
  }

  lemma EntryRun(s: Snapshot, item: Part, after: string, boundary: string, callbacks: Callbacks) returns (t: Snapshot)
    requires Accepting(callbacks) && ValidBoundary(boundary) && Carried(item, boundary)
    requires s.state.NewEntry? && s.rest == EntryText(item, after, boundary)
    ensures t.state.Boundary? && t.rest == after && t.valid == s.valid
    ensures Parts(t.log) == Parts(s.log) + [item]
    ensures Run(s, boundary, callbacks) == Run(t, boundary, callbacks)
    ensures Tame(t, boundary, callbacks) ==> Tame(s, boundary, callbacks)
  {
    ItemRun(s, item, after, boundary, callbacks);
    PartsOfItem(s.log, item);
    t := Behind(s, item, after);
  }

  lemma Peel<T>(done: seq<T>, items: seq<T>, i: nat)
    requires i < |items|
    ensures done + [items[i]] + items[i + 1..] == done + items[i..]
  {
    assert items[i..] == [items[i]] + items[i + 1..];
  }

  /** The whole text behind the opening line in one piece. */
  lemma {:induction false} TailRun(s: Snapshot, items: seq<Part>, i: nat, boundary: string, callbacks: Callbacks)
    requires Accepting(callbacks) && ValidBoundary(boundary) && i < |items|
    requires forall k :: i <= k < |items| ==> Carried(items[k], boundary)
    requires s.state.NewEntry? && s.rest == Tail(items, i, boundary)
    ensures var (ok, t) := Run(s, boundary, callbacks);
            ok && t.valid && t.state.Boundary? && t.rest == "" && Parts(t.log) == Parts(s.log) + items[i..]
    ensures Tame(s, boundary, callbacks)
    decreases |items| - i
  {
    var t := EntryRun(s, items[i], After(items, i, boundary), boundary, callbacks);
    if i + 1 == |items| {
      ClosingStep(t, boundary, callbacks);
      assert items[i..] == [items[i]];
    } else {
      var tail := Tail(items, i + 1, boundary);
      NextStep(t, tail, boundary, callbacks);
      TailRun(t.(rest := tail, state := NewEntry), items, i + 1, boundary, callbacks);
      Peel(Parts(s.log), items, i);
    }
  }

  // ---------- the closing CRLF, and the theorem ----------

  /** The closing delimiter has been read and `pending` is what remains of the line end behind it. */
  predicate Closed(t: Snapshot, pending: string) {
    t.valid &&
    ((t.state.Boundary? && (t.rest + pending == "" || t.rest + pending == "\n" || t.rest + pending == CRLF))
     || (t.state.NewEntry? && t.rest + pending == ""))
  }

  lemma ClosedFeed(t: Snapshot, c: string, d: string, boundary: string, callbacks: Callbacks)
    requires Closed(t, c + d)
    ensures var (ok, u) := Feed(t, c, boundary, callbacks); ok && u.log == t.log && Closed(u, d)
  {
    var w := t.rest + c;
    assert w + d == t.rest + (c + d);
    if w == "" {
      assert Feed(t, c, boundary, callbacks) == (true, t.(rest := ""));
    } else if |w| == 1 {
      assert Step(t.(rest := w), boundary, callbacks) == Return(true, t.(rest := w));
    } else {
      assert w == CRLF && d == "";
      assert w[..2] == CRLF && w[2..] == "";
      var u := t.(rest := "", state := NewEntry);
      assert Step(t.(rest := w), boundary, callbacks) == Continue(u);
      assert Run(u, boundary, callbacks) == (true, u);
    }
  }

  /** The line end of the closing delimiter changes nothing, however it is cut. */
  lemma {:induction false} ClosedAll(t: Snapshot, chunks: seq<string>, boundary: string, callbacks: Callbacks)
    requires Closed(t, Flatten(chunks))
    ensures var (ok, u) := FeedAll(t, chunks, boundary, callbacks); ok && u.valid && u.log == t.log
    decreases |chunks|
  {
    if chunks != [] {
      ClosedFeed(t, chunks[0], Flatten(chunks[1..]), boundary, callbacks);
      ClosedAll(Feed(t, chunks[0], boundary, callbacks).1, chunks[1..], boundary, callbacks);
    }
  }

  /** Bytes that arrive in the same chunk behind the closing delimiter are dropped. */
  lemma {:induction false} RunPastClose(s: Snapshot, e: string, boundary: string, callbacks: Callbacks)
    requires Accepting(callbacks) && !s.state.InitialBoundary? && !s.valid && Tame(s, boundary, callbacks)
    requires Run(s, boundary, callbacks).0 && Run(s, boundary, callbacks).1.valid
    ensures Run(Plus(s, e), boundary, callbacks) == Run(s, boundary, callbacks)
    decreases |s.rest|, if s.state.NewEntry? then 1 else 0
  {
    var o := Step(s, boundary, callbacks);
    match s.state
    case Headers =>
      HeadersPlus(s, e, callbacks);
      HeadersKeep(s, callbacks);
      FitsWithinLimit(s.rest, s.file);
      HeadersFound(s, e, callbacks);
      RunPastClose(o.next, e, boundary, callbacks);
    case Body =>
      BodyLeft(s, e, boundary, callbacks);
      RunPastClose(o.next, e, boundary, callbacks);
    case Boundary =>
      BoundaryPlus(s, e);
      if !Closes(s) {
        RunPastClose(o.next, e, boundary, callbacks);
      }
    case NewEntry =>
      RunPastClose(o.next, e, boundary, callbacks);
  }

  lemma HeadersFound(s: Snapshot, e: string, callbacks: Callbacks)
    requires s.rest != "" && ReadHeaders(s, callbacks).Continue? && Find(s.rest, CRLF) <= HEADER_MAX_LENGTH
    ensures Find(s.rest + e, CRLF) <= HEADER_MAX_LENGTH
  {
    FindStable(s.rest, e, CRLF);
  }

  /** A run that gets out of the body has found the delimiter. */
  lemma BodyLeft(s: Snapshot, e: string, boundary: string, callbacks: Callbacks)
    requires Accepting(callbacks) && s.state.Body? && !s.valid && s.rest != ""
    requires var t := Run(s, boundary, callbacks).1; t.valid || !t.state.Body?
    ensures var o := Step(s, boundary, callbacks);
            o.Continue? && !o.next.valid && o.next.state.Boundary? &&
            Step(Plus(s, e), boundary, callbacks) == Continue(Plus(o.next, e))
  {
    var delim := Delimiter(boundary);
    if Find(s.rest, delim) < |s.rest| {
      BodyPlusFound(s, e, delim, callbacks);
    } else {
      BodyPlusWaiting(s, e, delim, callbacks);
    }
  }

  /** `text` read from `s` ends exactly with the closing delimiter. */
  ghost predicate ClosesWith(s: Snapshot, text: string, parts: seq<Part>, boundary: string, callbacks: Callbacks) {
    && !s.state.InitialBoundary? && !s.valid && Tame(Plus(s, text), boundary, callbacks)
    && var (ok, v) := Run(Plus(s, text), boundary, callbacks);
       ok && v.valid && v.state.Boundary? && v.rest == "" && Parts(v.log) == parts
  }

  /** A chunk that ends inside the text. */
  lemma ChunkInside(s: Snapshot, c: string, more: string, parts: seq<Part>, boundary: string, callbacks: Callbacks)
    requires Accepting(callbacks) && ClosesWith(s, c + more, parts, boundary, callbacks) && more != ""
    ensures var (ok, t) := Feed(s, c, boundary, callbacks);
            ok && ClosesWith(t, more, parts, boundary, callbacks)
  {
    PlusPlus(s, c, more);
    RunPlus(Plus(s, c), more, boundary, callbacks);
  }

  /** The chunk that reaches the end of the text. */
  lemma ChunkEnding(s: Snapshot, text: string, e: string, parts: seq<Part>, boundary: string, callbacks: Callbacks)
    requires Accepting(callbacks) && ClosesWith(s, text, parts, boundary, callbacks)
    ensures var (ok, t) := Feed(s, text + e, boundary, callbacks);
            ok && t.valid && t.state.Boundary? && t.rest == "" && Parts(t.log) == parts
  {
    PlusPlus(s, text, e);
    RunPastClose(Plus(s, text), e, boundary, callbacks);
  }

  lemma CutInside(c: string, d: string, text: string, e: string)
    requires c + d == text + e && |c| < |text|
    ensures text == c + text[|c|..] && text[|c|..] != "" && d == text[|c|..] + e
  {
    assert (c + d)[..|c|] == c && (c + d)[|c|..] == d;
    assert (text + e)[..|c|] == text[..|c|] && (text + e)[|c|..] == text[|c|..] + e;
  }

  lemma CutBehind(c: string, d: string, text: string, e: string)
    requires c + d == text + e && |c| >= |text|
    ensures c == text + c[|text|..] && c[|text|..] + d == e
  {
    assert (c + d)[..|text|] == c[..|text|] && (c + d)[|text|..] == c[|text|..] + d;
    assert (text + e)[..|text|] == text && (text + e)[|text|..] == e;
  }

  /** The text and the line end behind it, in any chunks. */
  lemma {:induction false} FeedText(s: Snapshot, chunks: seq<string>, text: string, parts: seq<Part>,
      boundary: string, callbacks: Callbacks)
    requires Accepting(callbacks) && ClosesWith(s, text, parts, boundary, callbacks)
    requires Flatten(chunks) == text + CRLF
    ensures var (ok, t) := FeedAll(s, chunks, boundary, callbacks); ok && t.valid && Parts(t.log) == parts
    decreases |chunks|
  {
    var c, d := chunks[0], Flatten(chunks[1..]);
    if |c| < |text| {
      CutInside(c, d, text, CRLF);
      ChunkInside(s, c, text[|c|..], parts, boundary, callbacks);
      FeedText(Feed(s, c, boundary, callbacks).1, chunks[1..], text[|c|..], parts, boundary, callbacks);
    } else {
      CutBehind(c, d, text, CRLF);
      ChunkEnding(s, text, c[|text|..], parts, boundary, callbacks);
      CrlfSuffix(c[|text|..], d);
      ClosedAll(Feed(s, c, boundary, callbacks).1, chunks[1..], boundary, callbacks);
    }
  }

  lemma CrlfSuffix(a: string, b: string)
    requires a + b == CRLF
    ensures b == "" || b == "\n" || b == CRLF
  {
    assert b == CRLF[|a|..] by { assert (a + b)[|a|..] == b; }
  }

  /** The first chunk that is not empty has at least `n` bytes. */
  predicate OpensWhole(chunks: seq<string>, n: nat) {
    chunks != [] && if chunks[0] == "" then OpensWhole(chunks[1..], n) else |chunks[0]| >= n
  }

  lemma OpeningStep(c: string, boundary: string, callbacks: Callbacks)
    requires OpeningLine(boundary) <= c
    ensures var x := c[|OpeningLine(boundary)|..];
            Feed(START, c, boundary, callbacks) == Feed(START.(state := NewEntry), x, boundary, callbacks)
  {
    var open := OpeningLine(boundary);
    assert "" + c == c;
    assert c[0..|open|] == c[..|open|] == open;
    FindUnique(c, open, 0);
    assert c[0..] == c;
    var x := c[|open|..];
    assert "" + x == x;
    assert Step(START.(rest := c), boundary, callbacks) == Continue(START.(state := NewEntry, rest := x));
  }

  lemma FlattenCons(x: string, cs: seq<string>)
    ensures Flatten([x] + cs) == x + Flatten(cs)
  {
    assert ([x] + cs)[1..] == cs;
  }

  /** Behind an opening line that arrives in one piece the parser is at the first entry, with the rest of the
      input, however cut, in front of it. */
  lemma {:induction false} BehindOpening(chunks: seq<string>, rest: string, boundary: string, callbacks: Callbacks)
    returns (more: seq<string>)
    requires OpensWhole(chunks, |OpeningLine(boundary)|) && Flatten(chunks) == OpeningLine(boundary) + rest
    ensures more != [] && Flatten(more) == rest
    ensures FeedAll(START, chunks, boundary, callbacks) == FeedAll(START.(state := NewEntry), more, boundary, callbacks)
    decreases |chunks|
  {
    var c, cs := chunks[0], chunks[1..];
    if c == "" {
      assert START.(rest := START.rest + "") == START;
      more := BehindOpening(cs, rest, boundary, callbacks);
    } else {
      var open := OpeningLine(boundary);
      CutBehind(c, Flatten(cs), open, rest);
      OpeningStep(c, boundary, callbacks);
      more := [c[|open|..]] + cs;
      FlattenCons(c[|open|..], cs);
      assert more[1..] == cs;
    }
  }

  /** Round trip. Whatever items the format can carry, and however their serialization is cut into
      chunks, as long as the first one that is not empty holds the whole opening line, the parser
      reports exactly the items, in order, and declares the form valid. */
  lemma RoundTrip(items: seq<Part>, chunks: seq<string>, boundary: string, callbacks: Callbacks)
    requires Accepting(callbacks) && ValidBoundary(boundary) && items != []
    requires forall k :: 0 <= k < |items| ==> Carried(items[k], boundary)
    requires Flatten(chunks) == Serialize(items, boundary) && OpensWhole(chunks, |OpeningLine(boundary)|)
    ensures var (ok, t) := FeedAll(START, chunks, boundary, callbacks);
            ok && t.valid && Parts(t.log) == items
  {
    var tail := Tail(items, 0, boundary);
    var s := START.(state := NewEntry);
    SerializeTail(items, 0, boundary);
    assert OpeningLine(boundary) + tail + CRLF == OpeningLine(boundary) + (tail + CRLF);
    assert s.rest + tail == tail;
    TailRun(Plus(s, tail), items, 0, boundary, callbacks);
    assert Parts(s.log) + items[0..] == items;
    var more := BehindOpening(chunks, tail + CRLF, boundary, callbacks);
    FeedText(s, more, tail, items, boundary, callbacks);
  }
}
