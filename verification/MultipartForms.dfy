/** Forms whose parts have any header lines: what the parser reports of them, and when it refuses them. */
module MultipartForms {
  import opened Text
  import opened MultipartSpec
  import opened MultipartChunks
  import opened MultipartHeaders
  import opened MultipartRoundTrip
  import opened MultipartFields

  /** A part as a client writes it. */
  datatype Entry = Entry(fields: seq<Field>, content: string)

  /** A header line that ends where it is meant to and is within the parser's limit. */
  ghost predicate Fits(h: Field) {
    Written(h) && Line(h) != "" && !Contains(Line(h), CRLF) && |Line(h)| < HEADER_MAX_LENGTH
  }

  ghost predicate AllFit(fields: seq<Field>) {
    forall j :: 0 <= j < |fields| ==> Fits(fields[j])
  }

  predicate AllAccepted(fields: seq<Field>) {
    forall j :: 0 <= j < |fields| ==> Accepted(fields[j])
  }

  /** The header lines of a part and the blank line behind them. */
  ghost function Block(fields: seq<Field>): string
    requires AllFit(fields)
  {
    if fields == [] then CRLF else Line(fields[0]) + CRLF + Block(fields[1..])
  }

  /** The part's file as its header lines have it, one after the other. */
  function FileOf(fields: seq<Field>, file: FileInfo): FileInfo {
    if fields == [] then file else FileOf(fields[1..], Meaning(fields[0], file))
  }

  function PartOf(e: Entry): Part {
    Part(FileOf(e.fields, NO_FILE), e.content)
  }

  function PartsOf(entries: seq<Entry>): seq<Part> {
    seq(|entries|, i requires 0 <= i < |entries| => PartOf(entries[i]))
  }

  ghost predicate Sound(e: Entry, boundary: string) {
    AllFit(e.fields) && !Contains(e.content, Delimiter(boundary))
  }

  ghost predicate AllSound(entries: seq<Entry>, boundary: string) {
    forall i :: 0 <= i < |entries| ==> Sound(entries[i], boundary)
  }

  /** The text of a form, from entry `i` on. */
  ghost function FormFrom(entries: seq<Entry>, i: nat, boundary: string): string
    requires i <= |entries| && AllSound(entries, boundary)
    decreases |entries| - i
  {
    if i == |entries| then DASH + boundary + DASH + CRLF
    else
      OpeningLine(boundary) + Block(entries[i].fields) + entries[i].content + CRLF + FormFrom(entries, i + 1, boundary)
  }

  ghost function Form(entries: seq<Entry>, boundary: string): string
    requires AllSound(entries, boundary)
  {
    FormFrom(entries, 0, boundary)
  }

  // ---------- the text behind the opening line ----------

  /** What follows the opening line of entry `i`, with `z` behind the closing dashes. */
  ghost function FormTail(entries: seq<Entry>, i: nat, z: string, boundary: string): string
    requires i < |entries| && AllSound(entries, boundary)
    decreases |entries| - i, 1
  {
    Block(entries[i].fields) + (entries[i].content + Delimiter(boundary) + BehindEntry(entries, i, z, boundary))
  }

  ghost function BehindEntry(entries: seq<Entry>, i: nat, z: string, boundary: string): string
    requires i < |entries| && AllSound(entries, boundary)
    decreases |entries| - i, 0
  {
    if i + 1 == |entries| then DASH + z else CRLF + FormTail(entries, i + 1, z, boundary)
  }

  lemma RegroupForm(d: string, b: string, n: string, h: string, c: string, x: string)
    ensures d + b + n + h + c + n + (d + b + x) == d + b + n + (h + (c + (n + d + b) + x))
  {
    assert n + (d + b + x) == (n + d + b) + x;
    assert d + b + n + h + c + n + (d + b + x) == d + b + n + h + c + (n + (d + b + x));
    assert h + (c + (n + d + b) + x) == h + c + ((n + d + b) + x);
  }

  lemma {:induction false} FormIs(entries: seq<Entry>, i: nat, boundary: string)
    requires i < |entries| && AllSound(entries, boundary)
    ensures FormFrom(entries, i, boundary) == OpeningLine(boundary) + FormTail(entries, i, CRLF, boundary)
    decreases |entries| - i
  {
    assert Sound(entries[i], boundary);
    hide Block, AllSound;
    var h, c := Block(entries[i].fields), entries[i].content;
    if i + 1 == |entries| {
      Associative(DASH + boundary, DASH, CRLF);
      RegroupForm(DASH, boundary, CRLF, h, c, DASH + CRLF);
    } else {
      FormIs(entries, i + 1, boundary);
      var tail := FormTail(entries, i + 1, CRLF, boundary);
      Associative(DASH + boundary, CRLF, tail);
      RegroupForm(DASH, boundary, CRLF, h, c, CRLF + tail);
    }
  }

  lemma RegroupEnd(h: string, c: string, d: string, x: string, z: string)
    ensures h + (c + d + x) + z == h + (c + d + (x + z))
  {
  }

  lemma {:induction false} TailEnd(entries: seq<Entry>, i: nat, z: string, boundary: string)
    requires i < |entries| && AllSound(entries, boundary)
    ensures FormTail(entries, i, z, boundary) == FormTail(entries, i, "", boundary) + z
    decreases |entries| - i
  {
    assert Sound(entries[i], boundary);
    hide Block, AllSound;
    var h, c, d := Block(entries[i].fields), entries[i].content, Delimiter(boundary);
    if i + 1 == |entries| {
      assert DASH + "" == DASH;
      RegroupEnd(h, c, d, DASH, z);
    } else {
      TailEnd(entries, i + 1, z, boundary);
      var tail := FormTail(entries, i + 1, "", boundary);
      Associative(CRLF, tail, z);
      RegroupEnd(h, c, d, CRLF + tail, z);
    }
  }

  // ---------- header lines ----------

  /** A header line the parser refuses. */
  lemma RefusedLine(s: Snapshot, line: string, x: string, callbacks: Callbacks)
    requires line != "" && !Contains(line, CRLF) && |line| < HEADER_MAX_LENGTH && s.rest == line + CRLF + x
    requires !ApplyHeader(line, s.file).0
    ensures ReadHeaders(s, callbacks).Return? && !ReadHeaders(s, callbacks).ok
    ensures LinesFit(s.rest, s.file)
  {
    FindLineEnd(line, x);
  }

  /** What reading the header lines comes to. */
  predicate HeadersRead(s: Snapshot, fields: seq<Field>, x: string, o: Outcome) {
    if AllAccepted(fields) then
      var file := FileOf(fields, s.file);
      o == Continue(s.(file := file, log := s.log + [Header(file)], rest := x, state := Body))
    else
      o.Return? && !o.ok
  }

  lemma AllAcceptedStep(fields: seq<Field>)
    requires fields != []
    ensures AllAccepted(fields) <==> Accepted(fields[0]) && AllAccepted(fields[1..])
  {
    assert fields == [fields[0]] + fields[1..];
  }

  lemma {:induction false} BlockRead(s: Snapshot, fields: seq<Field>, x: string, callbacks: Callbacks)
    requires Accepting(callbacks) && AllFit(fields) && s.rest == Block(fields) + x
    ensures HeadersRead(s, fields, x, ReadHeaders(s, callbacks))
    ensures LinesFit(s.rest, s.file)
    decreases |fields|
  {
    if fields == [] {
      HeadersEnd(s, x, callbacks);
    } else {
      var line, rest := Line(fields[0]), Block(fields[1..]) + x;
      assert Fits(fields[0]);
      RegroupBlock(line, CRLF, Block(fields[1..]), x);
      FieldApplies(fields[0], s.file);
      AllAcceptedStep(fields);
      hide ReadHeaders, LinesFit, ApplyHeader, Block, Fits, Accepted, Meaning, Line;
      if Accepted(fields[0]) {
        HeadersLine(s, line, rest, callbacks);
        BlockRead(s.(file := Meaning(fields[0], s.file), rest := rest), fields[1..], x, callbacks);
      } else {
        RefusedLine(s, line, rest, callbacks);
      }
    }
  }

  // ---------- parts ----------

  lemma Refused(s: Snapshot, boundary: string, callbacks: Callbacks)
    requires s.rest != "" && Step(s, boundary, callbacks).Return? && !Step(s, boundary, callbacks).ok
    requires s.state.Headers? && LinesFit(s.rest, s.file)
    ensures !Run(s, boundary, callbacks).0 && Tame(s, boundary, callbacks)
  {
  }

  lemma BlockNotEmpty(fields: seq<Field>)
    requires AllFit(fields)
    ensures Block(fields) != ""
  {
  }

  /** From the start of a part to its content, or to its refusal. */
  lemma HeadGoes(s: Snapshot, e: Entry, body: string, boundary: string, callbacks: Callbacks) returns (t: Snapshot)
    requires Accepting(callbacks) && Sound(e, boundary)
    requires s.state.NewEntry? && s.rest == Block(e.fields) + body
    ensures !AllAccepted(e.fields) ==> !Run(s, boundary, callbacks).0 && Tame(s, boundary, callbacks)
    ensures var file := PartOf(e).file;
            t == s.(file := file, log := s.log + [Header(file)], rest := body, state := Body)
    ensures AllAccepted(e.fields) ==>
              && Run(s, boundary, callbacks) == Run(t, boundary, callbacks)
              && (Tame(t, boundary, callbacks) ==> Tame(s, boundary, callbacks))
  {
    var s1 := s.(file := NO_FILE, state := Headers);
    BlockNotEmpty(e.fields);
    Advance(s, s1, boundary, callbacks);
    BlockRead(s1, e.fields, body, callbacks);
    FitsWithinLimit(s1.rest, s1.file);
    var file := PartOf(e).file;
    t := s1.(file := file, log := s.log + [Header(file)], rest := body, state := Body);
    if AllAccepted(e.fields) {
      Advance(s1, t, boundary, callbacks);
    } else {
      Refused(s1, boundary, callbacks);
    }
  }

  lemma PartsGrow(log: seq<Event>, part: Part)
    ensures Parts(log + [Header(part.file)] + [Content(part.content)]) == Parts(log) + [part]
  {
    PartsOfItem(log, part);
  }

  /** A part from its start to behind its delimiter, or to its refusal. */
  lemma EntryGoes(s: Snapshot, e: Entry, after: string, boundary: string, callbacks: Callbacks) returns (t: Snapshot)
    requires Accepting(callbacks) && ValidBoundary(boundary) && Sound(e, boundary)
    requires s.state.NewEntry? && s.rest == Block(e.fields) + (e.content + Delimiter(boundary) + after)
    ensures !AllAccepted(e.fields) ==> !Run(s, boundary, callbacks).0 && Tame(s, boundary, callbacks)
    ensures t.state.Boundary? && t.rest == after && t.valid == s.valid && Parts(t.log) == Parts(s.log) + [PartOf(e)]
    ensures AllAccepted(e.fields) ==>
              && Run(s, boundary, callbacks) == Run(t, boundary, callbacks)
              && (Tame(t, boundary, callbacks) ==> Tame(s, boundary, callbacks))
  {
    var u := HeadGoes(s, e, e.content + Delimiter(boundary) + after, boundary, callbacks);
    BodyOfItem(u, e.content, after, boundary, callbacks);
    t := u.(state := Boundary, rest := after, log := u.log + [Content(e.content)]);
    Advance(u, t, boundary, callbacks);
    PartsGrow(s.log, PartOf(e));
  }

  predicate AllAcceptedFrom(entries: seq<Entry>, i: nat) {
    forall k :: i <= k < |entries| ==> AllAccepted(entries[k].fields)
  }

  /** What reading the text behind an opening line comes to. */
  predicate FormRead(s: Snapshot, entries: seq<Entry>, i: nat, ok: bool, t: Snapshot)
    requires i <= |entries|
  {
    && ok == AllAcceptedFrom(entries, i)
    && (ok ==> t.valid && t.state.Boundary? && t.rest == "" && Parts(t.log) == Parts(s.log) + PartsOf(entries)[i..])
  }

  lemma FormReadStep(s: Snapshot, t: Snapshot, entries: seq<Entry>, i: nat, ok: bool, u: Snapshot)
    requires i < |entries| && AllAccepted(entries[i].fields) && Parts(t.log) == Parts(s.log) + [PartOf(entries[i])]
    requires FormRead(t, entries, i + 1, ok, u)
    ensures FormRead(s, entries, i, ok, u)
  {
    Peel(Parts(s.log), PartsOf(entries), i);
  }

  lemma LastRead(s: Snapshot, t: Snapshot, entries: seq<Entry>)
    requires entries != [] && AllAccepted(entries[|entries| - 1].fields)
    requires Parts(t.log) == Parts(s.log) + [PartOf(entries[|entries| - 1])]
    requires t.valid && t.state.Boundary? && t.rest == ""
    ensures FormRead(s, entries, |entries| - 1, true, t)
  {
    assert PartsOf(entries)[|entries| - 1..] == [PartOf(entries[|entries| - 1])];
  }

  lemma RefusedRead(s: Snapshot, entries: seq<Entry>, i: nat, t: Snapshot)
    requires i < |entries| && !AllAccepted(entries[i].fields)
    ensures FormRead(s, entries, i, false, t)
  {
  }

  lemma TailIs(entries: seq<Entry>, i: nat, z: string, boundary: string)
    requires i < |entries| && AllSound(entries, boundary)
    ensures Sound(entries[i], boundary)
    ensures FormTail(entries, i, z, boundary)
         == Block(entries[i].fields) + (entries[i].content + Delimiter(boundary) + BehindEntry(entries, i, z, boundary))
  {
    assert Sound(entries[i], boundary);
  }

  /** The closing dashes, behind the last part. */
  lemma ClosingRead(s: Snapshot, t: Snapshot, entries: seq<Entry>, boundary: string, callbacks: Callbacks)
    requires entries != [] && AllAccepted(entries[|entries| - 1].fields)
    requires t.state.Boundary? && t.rest == DASH
    requires Parts(t.log) == Parts(s.log) + [PartOf(entries[|entries| - 1])]
    ensures FormRead(s, entries, |entries| - 1, Run(t, boundary, callbacks).0, Run(t, boundary, callbacks).1)
    ensures Tame(t, boundary, callbacks)
  {
    ClosingStep(t, boundary, callbacks);
    LastRead(s, t.(rest := "", valid := true), entries);
  }

  /** The whole text behind the opening line in one piece. What is behind the closing dashes does not matter if the form
      is refused. */
  lemma {:induction false} TailRead(s: Snapshot, entries: seq<Entry>, i: nat, z: string, boundary: string,
      callbacks: Callbacks)
    requires Accepting(callbacks) && ValidBoundary(boundary) && i < |entries| && AllSound(entries, boundary)
    requires s.state.NewEntry? && s.rest == FormTail(entries, i, z, boundary)
    requires z == "" || !AllAcceptedFrom(entries, i)
    ensures FormRead(s, entries, i, Run(s, boundary, callbacks).0, Run(s, boundary, callbacks).1)
    ensures Tame(s, boundary, callbacks)
    decreases |entries| - i
  {
    TailIs(entries, i, z, boundary);
    hide Run, Tame, Block, AllAccepted, AllSound, PartOf, PartsOf, Delimiter, Sound, FormTail, FormRead;
    var t := EntryGoes(s, entries[i], BehindEntry(entries, i, z, boundary), boundary, callbacks);
    if !AllAccepted(entries[i].fields) {
      RefusedRead(s, entries, i, Run(s, boundary, callbacks).1);
    } else if i + 1 == |entries| {
      assert t.rest == DASH;
      ClosingRead(s, t, entries, boundary, callbacks);
    } else {
      var tail := FormTail(entries, i + 1, z, boundary);
      NextStep(t, tail, boundary, callbacks);
      var u := t.(rest := tail, state := NewEntry);
      TailRead(u, entries, i + 1, z, boundary, callbacks);
      FormReadStep(s, u, entries, i, Run(s, boundary, callbacks).0, Run(s, boundary, callbacks).1);
    }
  }

  // ---------- the theorem ----------

  /** Forms, exactly. However the parts of a form write their header lines, and however the form is cut into chunks that
      leave its opening line whole, the parser accepts it exactly if it accepts every header line; it then declares the
      form valid and reports its parts, each with the file its header lines stand for. */
  lemma FormsExactly(entries: seq<Entry>, chunks: seq<string>, boundary: string, callbacks: Callbacks)
    requires Accepting(callbacks) && ValidBoundary(boundary) && entries != [] && AllSound(entries, boundary)
    requires Flatten(chunks) == Form(entries, boundary) && OpensWhole(chunks, |OpeningLine(boundary)|)
    ensures var (ok, t) := FeedAll(START, chunks, boundary, callbacks);
            && ok == AllAcceptedFrom(entries, 0)
            && (ok ==> t.valid && Parts(t.log) == PartsOf(entries))
  {
    var s := START.(state := NewEntry);
    var tail := FormTail(entries, 0, "", boundary);
    FormIs(entries, 0, boundary);
    TailEnd(entries, 0, CRLF, boundary);
    hide FormTail, Form, Run, Tame, AllSound, AllAcceptedFrom, OpeningLine;
    var more := BehindOpening(chunks, tail + CRLF, boundary, callbacks);
    if AllAcceptedFrom(entries, 0) {
      assert "" + tail == tail;
      TailRead(Plus(s, tail), entries, 0, "", boundary, callbacks);
      assert [] + PartsOf(entries)[0..] == PartsOf(entries);
      FeedText(s, more, tail, PartsOf(entries), boundary, callbacks);
    } else {
      assert "" + (tail + CRLF) == tail + CRLF;
      TailRead(Plus(s, tail + CRLF), entries, 0, CRLF, boundary, callbacks);
      ChunkIndependence(s, more, boundary, callbacks);
    }
  }

  /** Whatever is in front of the opening line in the chunk that holds it makes no difference. */
  lemma PreambleSkipped(pre: string, x: string, more: seq<string>, boundary: string, callbacks: Callbacks)
    requires forall i :: 0 <= i < |pre| ==> !OccursAt(pre + (OpeningLine(boundary) + x), OpeningLine(boundary), i)
    ensures FeedAll(START, [pre + (OpeningLine(boundary) + x)] + more, boundary, callbacks)
         == FeedAll(START, [OpeningLine(boundary) + x] + more, boundary, callbacks)
  {
    var open := OpeningLine(boundary);
    var c := open + x;
    assert (pre + c)[|pre|..] == c && c[0..] == c;
    assert (pre + c)[|pre|..|pre| + |open|] == c[..|open|] == open;
    FindUnique(pre + c, open, |pre|);
    assert c[0..|open|] == open;
    FindUnique(c, open, 0);
    assert "" + (pre + c) == pre + c && "" + c == c;
    assert SkipTo(START.(rest := pre + c), open) == SkipTo(START.(rest := c), open);
    assert Feed(START, pre + c, boundary, callbacks) == Feed(START, c, boundary, callbacks);
    assert ([pre + c] + more)[1..] == ([c] + more)[1..] == more;
  }

  lemma {:induction false} LongLineFails(s: Snapshot, chunks: seq<string>, boundary: string, callbacks: Callbacks)
    requires (s.state.NewEntry? && s.rest == "") || s.state.Headers?
    requires s.rest == "" || Find(s.rest, CRLF) == |s.rest| <= HEADER_MAX_LENGTH
    requires Find(s.rest + Flatten(chunks), CRLF) > HEADER_MAX_LENGTH
    ensures !FeedAll(s, chunks, boundary, callbacks).0
    decreases |chunks|
  {
    assert s.rest + "" == s.rest;
    if chunks != [] {
      var w, d := s.rest + chunks[0], Flatten(chunks[1..]);
      Associative(s.rest, chunks[0], d);
      if Find(w, CRLF) < |w| {
        FindStable(w, d, CRLF);
      }
      var t := LongLineChunk(s, chunks[0], boundary, callbacks);
      if Feed(s, chunks[0], boundary, callbacks).0 {
        LongLineFails(t, chunks[1..], boundary, callbacks);
      }
    }
  }

  lemma LongLineChunk(s: Snapshot, c: string, boundary: string, callbacks: Callbacks) returns (t: Snapshot)
    requires (s.state.NewEntry? && s.rest == "") || s.state.Headers?
    requires var pos := Find(s.rest + c, CRLF); pos == |s.rest + c| || pos > HEADER_MAX_LENGTH
    ensures var (ok, u) := Feed(s, c, boundary, callbacks);
            if Find(s.rest + c, CRLF) > HEADER_MAX_LENGTH then !ok
            else
              && ok && u == t && t.rest == s.rest + c
              && ((t.state.NewEntry? && t.rest == "") || t.state.Headers?)
  {
    var w := s.rest + c;
    t := Feed(s, c, boundary, callbacks).1;
    if w != "" {
      var h := if s.state.NewEntry? then s.(rest := w, file := NO_FILE, state := Headers) else s.(rest := w);
      assert Run(s.(rest := w), boundary, callbacks) == Run(h, boundary, callbacks);
    }
  }

  /** A form whose first header line is beyond the limit is refused, in any chunks that leave the opening line whole. */
  lemma LongLineRefused(chunks: seq<string>, x: string, boundary: string, callbacks: Callbacks)
    requires Flatten(chunks) == OpeningLine(boundary) + x && OpensWhole(chunks, |OpeningLine(boundary)|)
    requires Find(x, CRLF) > HEADER_MAX_LENGTH
    ensures !FeedAll(START, chunks, boundary, callbacks).0
  {
    var more := BehindOpening(chunks, x, boundary, callbacks);
    assert "" + x == x;
    LongLineFails(START.(state := NewEntry), more, boundary, callbacks);
  }

  /** Behind a delimiter, bytes that neither end the line nor close the form keep the parser waiting for good. */
  lemma {:induction false} JunkWaits(s: Snapshot, chunks: seq<string>, boundary: string, callbacks: Callbacks)
    requires s.state.Boundary?
    requires var text := s.rest + Flatten(chunks); |text| >= 2 ==> text[..2] != CRLF && text[..2] != DASH
    ensures FeedAll(s, chunks, boundary, callbacks) == (true, s.(rest := s.rest + Flatten(chunks)))
    decreases |chunks|
  {
    if chunks == [] {
      assert s.rest + "" == s.rest;
    } else {
      var w, d := s.rest + chunks[0], Flatten(chunks[1..]);
      Associative(s.rest, chunks[0], d);
      assert |w| >= 2 ==> (w + d)[..2] == w[..2];
      var t := s.(rest := w);
      assert Feed(s, chunks[0], boundary, callbacks) == (true, t);
      JunkWaits(t, chunks[1..], boundary, callbacks);
    }
  }

  // ---------- other header lines beside those of the serializer ----------

  const STYLE := Style(DISPOSITION, " ", FORM_DATA, " ")

  function TypeField(f: FileInfo): seq<Field> {
    if f.contentType == "" then [] else [Type(CONTENT_TYPE, " ", f.contentType)]
  }

  function WithOthers(extra: seq<string>, fields: seq<Field>): seq<Field> {
    if extra == [] then fields else [Other(extra[0])] + WithOthers(extra[1..], fields)
  }

  /** The serializer's lines for an item, with other lines between its disposition and its type. */
  function Dressed(item: Part, extra: seq<string>): Entry {
    var f := item.file;
    Entry([Disposition(STYLE, f.name, f.filename)] + WithOthers(extra, TypeField(f)), item.content)
  }

  function Lines(extra: seq<string>): string {
    if extra == [] then "" else extra[0] + CRLF + Lines(extra[1..])
  }

  /** A header line of some other field: the parser is to take no notice of it. */
  ghost predicate Ignorable(line: string) {
    && !Spells(line, CONTENT_TYPE) && !Spells(line, DISPOSITION) && WellFormedLine(line)
    && !Contains(line, CRLF) && |line| < HEADER_MAX_LENGTH
  }

  ghost predicate AllIgnorable(extra: seq<string>) {
    forall j :: 0 <= j < |extra| ==> Ignorable(extra[j])
  }

  /** `k: v` is such a line unless its key is one of the two. */
  lemma FieldIgnorable(k: string, v: string)
    requires k != "" && Lacks(k, ':') && v != "" && Trimmed(v)
    requires !Contains(k + ": " + v, CRLF) && |k + ": " + v| < HEADER_MAX_LENGTH
    requires !Spells(k + ": " + v, CONTENT_TYPE) && !Spells(k + ": " + v, DISPOSITION)
    ensures Ignorable(k + ": " + v)
  {
    HeaderAccepted(k, v);
    WellFormedExactly(k + ": " + v);
  }

  /** These fields of a part fit, are accepted and leave the file as `after`. */
  ghost predicate Leaves(fields: seq<Field>, file: FileInfo, after: FileInfo, text: string) {
    AllFit(fields) && AllAccepted(fields) && FileOf(fields, file) == after && Block(fields) == text
  }

  lemma LeavesOne(h: Field, fields: seq<Field>, file: FileInfo, after: FileInfo, text: string)
    requires Fits(h) && Accepted(h) && Leaves(fields, Meaning(h, file), after, text)
    ensures Leaves([h] + fields, file, after, Line(h) + CRLF + text)
  {
    var all := [h] + fields;
    assert all[1..] == fields;
  }

  lemma {:induction false} LeavesOthers(extra: seq<string>, fields: seq<Field>, file: FileInfo, after: FileInfo,
      text: string)
    requires AllIgnorable(extra) && Leaves(fields, file, after, text)
    ensures Leaves(WithOthers(extra, fields), file, after, Lines(extra) + text)
  {
    if extra == [] {
      assert "" + text == text;
    } else {
      assert Ignorable(extra[0]);
      LeavesOthers(extra[1..], fields, file, after, text);
      LeavesOne(Other(extra[0]), WithOthers(extra[1..], fields), file, after, Lines(extra[1..]) + text);
      Associative(extra[0] + CRLF, Lines(extra[1..]), text);
    }
  }

  lemma LeavesType(f: FileInfo, before: FileInfo)
    requires Trimmed(f.contentType) && !Contains(f.contentType, CRLF) && |TypeLine(f)| < HEADER_MAX_LENGTH
    requires before == f.(contentType := "")
    ensures Leaves(TypeField(f), before, f, TypePart(f))
  {
    TypeLineNoCrlf(f);
    if f.contentType == "" {
      assert "" + CRLF == CRLF;
    } else {
      var h := Type(CONTENT_TYPE, " ", f.contentType);
      assert Line(h) == TypeLine(f);
      assert Leaves([], f, f, CRLF);
      LeavesOne(h, [], before, f, CRLF);
      assert [h] + [] == [h];
    }
  }

  lemma DispositionFits(f: FileInfo)
    requires Clean(f.name) && Clean(f.filename) && |DispositionLine(f)| < HEADER_MAX_LENGTH
    ensures var h := Disposition(STYLE, f.name, f.filename);
            Fits(h) && Line(h) == DispositionLine(f)
  {
    DispositionLineOneLine(f);
    OneLineNoCrlf(DispositionLine(f));
    assert DispositionParams(f) == DispositionParams(FileInfo(f.name, f.filename, ""));
  }

  /** The dressed item stands for the item, and its header is the serializer's with the other lines in between. */
  lemma DressedIs(item: Part, extra: seq<string>, boundary: string)
    requires Carried(item, boundary) && AllIgnorable(extra)
    ensures var e := Dressed(item, extra);
            && Sound(e, boundary) && AllAccepted(e.fields) && PartOf(e) == item
            && Block(e.fields) == DispositionLine(item.file) + CRLF + (Lines(extra) + TypePart(item.file))
  {
    var f := item.file;
    var before := f.(contentType := "");
    var h := Disposition(STYLE, f.name, f.filename);
    DispositionFits(f);
    LeavesType(f, before);
    LeavesOthers(extra, TypeField(f), before, f, TypePart(f));
    assert Meaning(h, NO_FILE) == before;
    LeavesOne(h, WithOthers(extra, TypeField(f)), NO_FILE, f, Lines(extra) + TypePart(f));
  }

  /** The serialization of items, each with other header lines between its disposition and its type. */
  function DressedFrom(items: seq<Part>, extras: seq<seq<string>>, i: nat, boundary: string): string
    requires i <= |items| == |extras|
    decreases |items| - i
  {
    if i == |items| then DASH + boundary + DASH + CRLF
    else
      var f := items[i].file;
      OpeningLine(boundary) + (DispositionLine(f) + CRLF + (Lines(extras[i]) + TypePart(f))) + items[i].content + CRLF
      + DressedFrom(items, extras, i + 1, boundary)
  }

  function DressedAll(items: seq<Part>, extras: seq<seq<string>>): seq<Entry>
    requires |items| == |extras|
  {
    seq(|items|, i requires 0 <= i < |items| => Dressed(items[i], extras[i]))
  }

  lemma DressedSound(items: seq<Part>, extras: seq<seq<string>>, boundary: string)
    requires |items| == |extras|
    requires forall i :: 0 <= i < |items| ==> Carried(items[i], boundary) && AllIgnorable(extras[i])
    ensures AllSound(DressedAll(items, extras), boundary) && AllAcceptedFrom(DressedAll(items, extras), 0)
    ensures PartsOf(DressedAll(items, extras)) == items
  {
    forall i | 0 <= i < |items|
      ensures var e := Dressed(items[i], extras[i]);
              Sound(e, boundary) && AllAccepted(e.fields) && PartOf(e) == items[i]
    {
      DressedIs(items[i], extras[i], boundary);
    }
  }

  lemma {:induction false} DressedForm(items: seq<Part>, extras: seq<seq<string>>, i: nat, boundary: string)
    requires i <= |items| == |extras|
    requires forall i :: 0 <= i < |items| ==> Carried(items[i], boundary) && AllIgnorable(extras[i])
    requires AllSound(DressedAll(items, extras), boundary)
    ensures DressedFrom(items, extras, i, boundary) == FormFrom(DressedAll(items, extras), i, boundary)
    decreases |items| - i
  {
    if i < |items| {
      DressedIs(items[i], extras[i], boundary);
      hide Block, AllSound, Carried, AllIgnorable, Dressed;
      DressedForm(items, extras, i + 1, boundary);
    }
  }

  /** Other header lines change nothing: with any lines of other fields put into the serialization of its items, a form
      reports exactly the items and is valid, in any chunks that leave the opening line whole. */
  lemma OthersIgnored(items: seq<Part>, extras: seq<seq<string>>, chunks: seq<string>, boundary: string,
      callbacks: Callbacks)
    requires Accepting(callbacks) && ValidBoundary(boundary) && items != [] && |items| == |extras|
    requires forall i :: 0 <= i < |items| ==> Carried(items[i], boundary) && AllIgnorable(extras[i])
    requires Flatten(chunks) == DressedFrom(items, extras, 0, boundary)
    requires OpensWhole(chunks, |OpeningLine(boundary)|)
    ensures var (ok, t) := FeedAll(START, chunks, boundary, callbacks);
            ok && t.valid && Parts(t.log) == items
  {
    DressedSound(items, extras, boundary);
    DressedForm(items, extras, 0, boundary);
    hide *;
    FormsExactly(DressedAll(items, extras), chunks, boundary, callbacks);
  }
}
