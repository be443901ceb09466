/** Which forms come back: exactly those all of whose items are faithful. A file name with a reserved byte is lost
    because the only header that can report one, `filename*`, is longer than what it decodes to. */
module MultipartNames {
  import opened Text
  import opened UrlCoding
  import opened MultipartSpec
  import opened MultipartChunks
  import opened MultipartHeaders
  import opened MultipartRoundTrip
  import opened MultipartLimits

  // ---------- lengths ----------

  lemma BindsShort(kv: string, key: string, value: string)
    requires Binds(kv, key, value) && value != ""
    ensures |key| + 1 + |value| <= |kv|
  {
    SplitShort(kv, '=', 0, 0);
  }

  // ---------- what one header line makes of the file name ----------

  /** The name is clean, or shorter than `name`: in no case is it `name`, if that is not clean. */
  predicate Short(reported: string, name: string) {
    Clean(reported) || |reported| < |name|
  }

  /** No piece is long enough to carry `name` in `filename*`. */
  ghost predicate TooShort(params: seq<string>, name: string) {
    forall kv, v :: kv in params && Binds(kv, "filename*", v) ==> |kv| < |name| + 17
  }

  lemma DispositionNames(text: string, file: FileInfo, name: string)
    requires OneLine(text) && TooShort(Split(text, ';'), name) && Short(file.filename, name)
    ensures Short(ApplyDisposition(Dedup(Split(text, ';')), file).1.filename, name)
  {
    var params := Dedup(Split(text, ';'));
    DedupSubset(Split(text, ';'));
    LookupClean(text, "filename");
    var ext := Lookup(params, "filename*");
    if ext.Some? && |ext.value| > |RFC5987| {
      var kv :| kv in params && Binds(kv, "filename*", ext.value);
      BindsShort(kv, "filename*", ext.value);
      DecodeShrinks(ext.value[|RFC5987|..], 0, false);
    }
  }

  lemma ShortPieces(text: string, name: string)
    requires |text| < |name| + 17
    ensures TooShort(Split(text, ';'), name)
  {
    SplitShort(text, ';', 0, 0);
  }

  /** A line no longer than the name and a quote. */
  lemma ShortLine(line: string, file: FileInfo, name: string)
    requires |line| <= |name| + 1 && Short(file.filename, name)
    ensures Short(ApplyHeader(line, file).1.filename, name)
  {
    var text := DispositionText(line);
    if text.Some? {
      ShortPieces(text.value, name);
      DispositionNames(text.value, file, name);
    }
  }

  /** The disposition line up to the quote in front of the file name. */
  function Opening(name: string): string {
    DISPOSITION + " " + FORM_DATA + " " + (Quoted("name", name) + "; filename=\"")
  }

  lemma OpeningPieces(n: string, z: string, name: string)
    requires Clean(n) && |z| <= |name| + 1
    ensures TooShort(Split(Quoted("name", n) + "; filename=\"" + z, ';'), name)
  {
    hide Split, SplitFrom, Quoted, KeyValue, Clean, OneLine, TooShort, Trimmed;
    var a, b := Quoted("name", n), " filename=\"" + z;
    KeysShape();
    QuotedShape("name", n);
    QuotedKeyValue("name", n);
    hide Lacks, Piece;
    assert a + "; filename=\"" + z == a + [';'] + b;
    SplitAtFirst(a, ';', b);
    ShortPieces(b, name);
    NameIsNoFile(a, "\"" + n + "\"");
    TooShortBehind(a, Split(b, ';'), name);
  }

  lemma NameIsNoFile(kv: string, value: string)
    requires KeyValue(kv) == Some(("name", value))
    ensures forall v :: !Binds(kv, "filename*", v)
  {
    KeysShape();
    hide KeyValue;
  }

  lemma TooShortBehind(a: string, pieces: seq<string>, name: string)
    requires TooShort(pieces, name) && forall v :: !Binds(a, "filename*", v)
    ensures TooShort([a] + pieces, name)
  {
    hide Binds;
  }

  /** The disposition line, cut anywhere behind that quote. */
  lemma OpeningLineNames(n: string, z: string, name: string)
    requires Clean(n) && |z| <= |name| + 1
    ensures Short(ApplyHeader(Opening(n) + z, NO_FILE).1.filename, name)
  {
    var line := Opening(n) + z;
    var text := Quoted("name", n) + "; filename=\"" + z;
    assert line == "Content-Disposition" + (": " + FORM_DATA + " " + text);
    DispositionIsNotType(": " + FORM_DATA + " " + text);
    NotType(line, NO_FILE);
    hide ApplyHeader, Opening, StartsWithIgnoreCase, DispositionText, Quoted;
    if DispositionText(line).Some? {
      OpeningText(n, z);
      OpeningPieces(n, z, name);
      DispositionNames(text, NO_FILE, name);
    }
  }

  /** A line that is no type line leaves the information alone, or is read as a disposition. */
  lemma NotType(line: string, file: FileInfo)
    requires !StartsWithIgnoreCase(line, CONTENT_TYPE)
    ensures var text, next := DispositionText(line), ApplyHeader(line, file).1;
            next == file || (text.Some? && next == ApplyDisposition(Dedup(Split(text.value, ';')), file).1)
  {
  }

  lemma OpeningText(n: string, z: string)
    requires DispositionText(Opening(n) + z).Some?
    ensures var text := Quoted("name", n) + "; filename=\"" + z;
            DispositionText(Opening(n) + z) == Some(text) && OneLine(text)
  {
    var text := Quoted("name", n) + "; filename=\"" + z;
    assert Opening(n) + z == DISPOSITION + " " + FORM_DATA + " " + text;
    assert text[0] == 'n';
    DispositionTextOf(text);
  }

  // ---------- a header block with a reserved byte in its file name ----------

  /** `left` begins inside the file name, `r` being what is left of it, in front of `y`. */
  predicate InName(left: string, r: string, y: string) {
    left == r + "\"" + CRLF + y
  }

  /** The parser is inside the header block of `f`, which is followed by `x`, and `left` is still to be read. */
  ghost predicate Reading(file: FileInfo, left: string, f: FileInfo, x: string) {
    || (left == HeaderBlock(f) + x && file == NO_FILE)
    || (Short(file.filename, f.filename) &&
        ((exists r :: InName(left, r, TypePart(f) + x) && |r| <= |f.filename|)
         || left == TypePart(f) + x || left == CRLF + x))
  }

  /** All but the file name is as it should be. */
  ghost predicate Hazardous(f: FileInfo) {
    Clean(f.name) && Trimmed(f.contentType) && !Contains(f.contentType, CRLF) && !Clean(f.filename)
  }

  /** The first line end inside a name, or the one behind it. */
  lemma QuoteLine(left: string, r: string, y: string)
    requires InName(left, r, y)
    ensures var q := Find(left, CRLF);
            && q + 2 <= |left|
            && ((q == |r| + 1 && left[..q] == r + "\"" && left[q + 2..] == y)
                || (q + 2 <= |r| && InName(left[q + 2..], r[q + 2..], y)))
  {
    var k := |r| + 1;
    assert left[k..k + 2] == CRLF;
    assert OccursAt(left, CRLF, k);
    var q := Find(left, CRLF);
    assert left[q..q + 2][0] == left[q] == '\r' && left[q..q + 2][1] == left[q + 1] == '\n';
    assert left[|r|] == '"';
    if q < k {
      assert left == r[..q + 2] + (r[q + 2..] + "\"" + CRLF + y);
    }
  }

  lemma BlockShape(f: FileInfo, x: string)
    requires f.filename != ""
    ensures HeaderBlock(f) + x == Opening(f.name) + (f.filename + "\"" + CRLF + (TypePart(f) + x))
  {
    var q, e := "filename=\"" + f.filename + "\"", CRLF + (TypePart(f) + x);
    assert Quoted("filename", f.filename) == q;
    assert DispositionLine(f) == Opening(f.name) + (f.filename + "\"");
    assert HeaderBlock(f) + x == Opening(f.name) + (f.filename + "\"") + e;
    assert f.filename + "\"" + CRLF + (TypePart(f) + x) == f.filename + "\"" + e;
    Associative(Opening(f.name), f.filename + "\"", e);
  }

  lemma OpeningOneLine(n: string)
    requires Clean(n)
    ensures Lacks(Opening(n), '\r') && Opening(n) != ""
  {
    var q := Quoted("name", n);
    KeysShape();
    QuotedShape("name", n);
    FixedPartsLack();
    hide Quoted, Lacks;
    LacksBoth(q, "; filename=\"", '\r');
    LacksBoth(DISPOSITION + " " + FORM_DATA + " ", q + "; filename=\"", '\r');
  }

  lemma FixedPartsLack()
    ensures Lacks(DISPOSITION + " " + FORM_DATA + " ", '\r') && Lacks("; filename=\"", '\r')
  {
  }

  lemma LacksBoth(a: string, b: string, c: char)
    requires Lacks(a, c) && Lacks(b, c)
    ensures Lacks(a + b, c)
  {
  }

  lemma BehindLacking(a: string, b: string)
    requires Lacks(a, '\r')
    ensures Find(a + b, CRLF) == |a| + Find(b, CRLF)
  {
    var s := a + b;
    assert s[|a|..] == b;
    forall i | 0 <= i < |a| ensures !OccursAt(s, CRLF, i) {
      if i + 2 <= |s| {
        assert s[i..i + 2][0] == s[i] == a[i];
      }
    }
    FindDrop(s, CRLF, |a|);
  }

  lemma BehindQuote(left: string, r: string, next: FileInfo, f: FileInfo, x: string)
    requires InName(left, r, TypePart(f) + x) && |r| <= |f.filename| && Short(next.filename, f.filename)
    ensures var pos := Find(left, CRLF); pos + 2 <= |left| && Reading(next, left[pos + 2..], f, x)
  {
    QuoteLine(left, r, TypePart(f) + x);
  }

  lemma NameLine(left: string, r: string, y: string)
    requires InName(left, r, y)
    ensures Find(left, CRLF) <= |r| + 1 && Find(left, CRLF) + 2 <= |left|
  {
    QuoteLine(left, r, y);
  }

  /** The first line ends where `inner`, which begins with the file name, has its first line end. */
  lemma FirstLineFind(pre: string, inner: string, f: FileInfo, x: string) returns (q: nat)
    requires Hazardous(f) && pre == Opening(f.name) && InName(inner, f.filename, TypePart(f) + x)
    ensures pre != "" && Find(pre + inner, CRLF) == |pre| + q
    ensures q <= |f.filename| + 1 && q + 2 <= |inner| && q == Find(inner, CRLF)
  {
    OpeningOneLine(f.name);
    NameLine(inner, f.filename, TypePart(f) + x);
    hide TypePart, Opening, Find, FindFrom, InName, Lacks;
    BehindLacking(pre, inner);
    q := Find(inner, CRLF);
  }

  lemma FirstLineApplied(pre: string, inner: string, q: nat, f: FileInfo, x: string)
    requires Hazardous(f) && pre == Opening(f.name) && InName(inner, f.filename, TypePart(f) + x)
    requires q <= |f.filename| + 1 && q + 2 <= |inner| && q == Find(inner, CRLF)
    ensures Reading(ApplyHeader(pre + inner[..q], NO_FILE).1, inner[q + 2..], f, x)
  {
    hide TypePart, Opening, ApplyHeader, Find, FindFrom, Reading, InName;
    OpeningLineNames(f.name, inner[..q], f.filename);
    BehindQuote(inner, f.filename, ApplyHeader(pre + inner[..q], NO_FILE).1, f, x);
  }

  lemma FirstLineReading(left: string, f: FileInfo, x: string)
    requires Hazardous(f) && left == HeaderBlock(f) + x
    ensures var pos := Find(left, CRLF);
            && 0 < pos && pos + 2 <= |left|
            && Reading(ApplyHeader(left[..pos], NO_FILE).1, left[pos + 2..], f, x)
  {
    var pre, inner := Opening(f.name), f.filename + "\"" + CRLF + (TypePart(f) + x);
    BlockShape(f, x);
    hide HeaderBlock, TypePart, Opening, ApplyHeader, Find, FindFrom, Reading, Hazardous;
    var q := FirstLineFind(pre, inner, f, x);
    CutLater(pre, inner, q, 2);
    FirstLineApplied(pre, inner, q, f, x);
  }

  lemma NameLineReading(left: string, r: string, file: FileInfo, f: FileInfo, x: string)
    requires Hazardous(f) && InName(left, r, TypePart(f) + x) && |r| <= |f.filename| && Short(file.filename, f.filename)
    ensures var pos := Find(left, CRLF);
            && pos + 2 <= |left|
            && Reading(ApplyHeader(left[..pos], file).1, left[pos + 2..], f, x)
  {
    NameLine(left, r, TypePart(f) + x);
    hide InName, TypePart, ApplyHeader, Find, FindFrom, Reading;
    var line := left[..Find(left, CRLF)];
    ShortLine(line, file, f.filename);
    BehindQuote(left, r, ApplyHeader(line, file).1, f, x);
  }

  lemma TypeLineReading(left: string, file: FileInfo, f: FileInfo, x: string)
    requires Hazardous(f) && left == TypePart(f) + x && Short(file.filename, f.filename) && Find(left, CRLF) > 0
    ensures var pos := Find(left, CRLF);
            && pos + 2 <= |left|
            && Reading(ApplyHeader(left[..pos], file).1, left[pos + 2..], f, x)
  {
    BlankFirst(f, x);
    if f.contentType != "" {
      assert left == TypeLine(f) + CRLF + (CRLF + x);
      TypeLineNoCrlf(f);
      FindLineEnd(TypeLine(f), CRLF + x);
      TypeApplies(f, file);
    }
  }

  lemma BlankFirst(f: FileInfo, x: string)
    ensures Find(CRLF + x, CRLF) == 0
    ensures f.contentType == "" ==> TypePart(f) + x == CRLF + x
  {
    assert (CRLF + x)[0..2] == CRLF;
    FindUnique(CRLF + x, CRLF, 0);
  }

  /** One header line. */
  lemma LineReading(left: string, file: FileInfo, f: FileInfo, x: string)
    requires Hazardous(f) && Reading(file, left, f, x) && Find(left, CRLF) > 0
    ensures var pos := Find(left, CRLF);
            && pos + 2 <= |left|
            && Reading(ApplyHeader(left[..pos], file).1, left[pos + 2..], f, x)
  {
    BlankFirst(f, x);
    if left == HeaderBlock(f) + x && file == NO_FILE {
      FirstLineReading(left, f, x);
    } else if left == TypePart(f) + x {
      TypeLineReading(left, file, f, x);
    } else if left != CRLF + x {
      var r :| InName(left, r, TypePart(f) + x) && |r| <= |f.filename|;
      NameLineReading(left, r, file, f, x);
    }
  }

  lemma BlankReading(left: string, file: FileInfo, f: FileInfo, x: string)
    requires Hazardous(f) && Reading(file, left, f, x) && Find(left, CRLF) == 0
    ensures Short(file.filename, f.filename)
  {
    if left == HeaderBlock(f) + x {
      FirstLineReading(left, f, x);
    }
  }

  lemma TakenReading(s: Snapshot, future: string, f: FileInfo, x: string)
    requires Hazardous(f) && Reading(s.file, s.rest + future, f, x)
    requires 0 < Find(s.rest, CRLF) < |s.rest|
    ensures var (_, t) := TakeLine(s, Find(s.rest, CRLF));
            && t.log == s.log && t.state == s.state
            && (TakeLine(s, Find(s.rest, CRLF)).0 ==> Reading(t.file, t.rest + future, f, x))
  {
    var pos := Find(s.rest, CRLF);
    FindStable(s.rest, future, CRLF);
    LineReading(s.rest + future, s.file, f, x);
    CutFront(s.rest, future, pos, 2);
    hide ApplyHeader, Reading;
  }

  lemma {:induction false} HeadersReading(s: Snapshot, future: string, f: FileInfo, x: string, callbacks: Callbacks)
    requires Hazardous(f) && Reading(s.file, s.rest + future, f, x)
    ensures var o := ReadHeaders(s, callbacks);
            && (o.Return? && o.ok ==>
                  o.next.log == s.log && o.next.state == s.state && Reading(o.next.file, o.next.rest + future, f, x))
            && (o.Continue? ==> o.next.log == s.log + [Header(o.next.file)] && Short(o.next.file.filename, f.filename))
    decreases |s.rest|
  {
    var pos := Find(s.rest, CRLF);
    if pos < |s.rest| {
      FindStable(s.rest, future, CRLF);
      if pos == 0 {
        BlankReading(s.rest + future, s.file, f, x);
      } else {
        TakenReading(s, future, f, x);
        hide ApplyHeader, Reading, Short;
        var (ok, t) := TakeLine(s, pos);
        if ok {
          HeadersReading(t, future, f, x, callbacks);
        }
      }
    }
  }

  // ---------- what has been reported stays ----------

  predicate Grown(s: Snapshot, t: Snapshot) {
    |s.log| <= |t.log| && t.log[..|s.log|] == s.log
  }

  lemma {:induction false} HeadersGrow(s: Snapshot, callbacks: Callbacks)
    ensures Grown(s, ReadHeaders(s, callbacks).next)
    decreases |s.rest|
  {
    var pos := Find(s.rest, CRLF);
    if 0 < pos < |s.rest| {
      var (ok, t) := TakeLine(s, pos);
      if ok {
        HeadersGrow(t, callbacks);
      }
    }
  }

  lemma StepGrows(s: Snapshot, boundary: string, callbacks: Callbacks)
    ensures Grown(s, Step(s, boundary, callbacks).next)
  {
    match s.state
    case Headers => HeadersGrow(s, callbacks);
    case Body => BodyGrows(s, Delimiter(boundary), callbacks);
    case _ =>
  }

  lemma BodyGrows(s: Snapshot, delim: string, callbacks: Callbacks)
    requires delim != ""
    ensures Grown(s, ReadBody(s, delim, callbacks).next)
  {
  }

  lemma {:induction false} RunGrows(s: Snapshot, boundary: string, callbacks: Callbacks)
    ensures Grown(s, Run(s, boundary, callbacks).1)
    decreases |s.rest|, if s.state.NewEntry? then 1 else 0
  {
    if s.rest != "" {
      StepGrows(s, boundary, callbacks);
      hide Step;
      var o := Step(s, boundary, callbacks);
      if o.Continue? {
        RunGrows(o.next, boundary, callbacks);
      }
    }
  }

  lemma {:induction false} FeedAllGrows(s: Snapshot, chunks: seq<string>, boundary: string, callbacks: Callbacks)
    ensures Grown(s, FeedAll(s, chunks, boundary, callbacks).1)
    decreases |chunks|
  {
    if chunks != [] {
      RunGrows(Plus(s, chunks[0]), boundary, callbacks);
      FeedAllGrows(Feed(s, chunks[0], boundary, callbacks).1, chunks[1..], boundary, callbacks);
    }
  }

  /** The header information of a part never changes once it has been reported. */
  lemma {:induction false} FilesStay(log: seq<Event>, n: nat, k: nat)
    requires n <= |log| && k < |PartsUpTo(log, n)|
    ensures k < |Parts(log)| && Parts(log)[k].file == PartsUpTo(log, n)[k].file
    decreases |log| - n
  {
    if n < |log| {
      FilesStay(log, n + 1, k);
    }
  }

  /** Part `k` has been reported under another file name than `name`. */
  predicate Misnamed(s: Snapshot, k: nat, name: string) {
    k < |Parts(s.log)| && Parts(s.log)[k].file.filename != name
  }

  lemma MisnamedStays(s: Snapshot, t: Snapshot, k: nat, name: string)
    requires Grown(s, t) && Misnamed(s, k, name)
    ensures Misnamed(t, k, name)
  {
    PartsOfPrefix(s.log, t.log[|s.log|..], |s.log|);
    assert s.log + t.log[|s.log|..] == t.log;
    FilesStay(t.log, |s.log|, k);
  }

  /** The header block of part `k` is still being read. */
  ghost predicate Naming(s: Snapshot, future: string, k: nat, f: FileInfo, x: string) {
    && |Parts(s.log)| == k
    && ((s.state.NewEntry? && s.rest + future == HeaderBlock(f) + x)
        || (s.state.Headers? && Reading(s.file, s.rest + future, f, x)))
  }

  lemma {:induction false} RunNaming(s: Snapshot, future: string, k: nat, f: FileInfo, x: string, boundary: string,
      callbacks: Callbacks)
    requires Hazardous(f) && Naming(s, future, k, f, x)
    ensures var (ok, t) := Run(s, boundary, callbacks);
            ok ==> Naming(t, future, k, f, x) || Misnamed(t, k, f.filename)
    decreases |s.rest|, if s.state.NewEntry? then 1 else 0
  {
    if s.rest != "" {
      var o := Step(s, boundary, callbacks);
      if s.state.NewEntry? {
        RunNaming(o.next, future, k, f, x, boundary, callbacks);
      } else if Find(s.rest, CRLF) <= HEADER_MAX_LENGTH {
        HeadersReading(s, future, f, x, callbacks);
        if o.Continue? {
          PartsSnoc(s.log, Header(o.next.file));
          RunGrows(o.next, boundary, callbacks);
          MisnamedStays(o.next, Run(o.next, boundary, callbacks).1, k, f.filename);
        }
      }
    }
  }

  lemma {:induction false} FeedAllNaming(s: Snapshot, chunks: seq<string>, k: nat, f: FileInfo, x: string,
      boundary: string, callbacks: Callbacks)
    requires Hazardous(f) && Naming(s, Flatten(chunks), k, f, x)
    ensures var (ok, t) := FeedAll(s, chunks, boundary, callbacks);
            ok ==> |Parts(t.log)| == k || Misnamed(t, k, f.filename)
    decreases |chunks|
  {
    if chunks != [] {
      var c, future := chunks[0], Flatten(chunks[1..]);
      assert s.rest + (c + future) == s.rest + c + future;
      RunNaming(Plus(s, c), future, k, f, x, boundary, callbacks);
      var (ok, t) := Feed(s, c, boundary, callbacks);
      if ok && Naming(t, future, k, f, x) {
        FeedAllNaming(t, chunks[1..], k, f, x, boundary, callbacks);
      } else if ok {
        FeedAllGrows(t, chunks[1..], boundary, callbacks);
        MisnamedStays(t, FeedAll(t, chunks[1..], boundary, callbacks).1, k, f.filename);
      }
    }
  }

  // ---------- reaching an item ----------

  /** The entries from `i` up to `k`. */
  function Entries(items: seq<Part>, i: nat, k: nat, boundary: string): string
    requires i <= k <= |items|
    decreases k - i
  {
    if i == k then "" else EntryText(items[i], CRLF + Entries(items, i + 1, k, boundary), boundary)
  }

  lemma EntryExtend(item: Part, after: string, more: string, boundary: string)
    ensures EntryText(item, after, boundary) + more == EntryText(item, after + more, boundary)
  {
    var h, c := HeaderBlock(item.file), item.content + Delimiter(boundary);
    assert c + (after + more) == c + after + more;
    assert h + (c + after + more) == h + (c + after) + more;
  }

  lemma {:induction false} EntriesTail(items: seq<Part>, i: nat, k: nat, boundary: string)
    requires i <= k < |items|
    ensures Tail(items, i, boundary) == Entries(items, i, k, boundary) + Tail(items, k, boundary)
    decreases k - i
  {
    if i < k {
      EntriesTail(items, i + 1, k, boundary);
      var after := CRLF + Entries(items, i + 1, k, boundary);
      EntryExtend(items[i], after, Tail(items, k, boundary), boundary);
      Associative(CRLF, Entries(items, i + 1, k, boundary), Tail(items, k, boundary));
    }
  }

  /** Reading what is there ends in front of an entry, with `parts` reported. */
  ghost predicate AtEntry(s: Snapshot, parts: seq<Part>, boundary: string, callbacks: Callbacks) {
    && !s.state.InitialBoundary? && !s.valid && Tame(s, boundary, callbacks)
    && var (ok, t) := Run(s, boundary, callbacks);
       ok && !t.valid && t.state.NewEntry? && t.rest == "" && Parts(t.log) == parts
  }

  lemma EntryBefore(s: Snapshot, t: Snapshot, parts: seq<Part>, boundary: string, callbacks: Callbacks)
    requires Run(s, boundary, callbacks) == Run(t, boundary, callbacks)
    requires Tame(t, boundary, callbacks) ==> Tame(s, boundary, callbacks)
    requires AtEntry(t, parts, boundary, callbacks) && !s.state.InitialBoundary? && !s.valid
    ensures AtEntry(s, parts, boundary, callbacks)
  {
  }

  lemma PeelUpTo<T>(done: seq<T>, items: seq<T>, i: nat, k: nat)
    requires i < k <= |items|
    ensures done + [items[i]] + items[i + 1..k] == done + items[i..k]
  {
    assert items[i..k] == [items[i]] + items[i + 1..k];
  }

  /** One entry in front of others. */
  lemma EntryStep(s: Snapshot, item: Part, more: string, boundary: string, callbacks: Callbacks) returns (u: Snapshot)
    requires Accepting(callbacks) && ValidBoundary(boundary) && Carried(item, boundary)
    requires s.state.NewEntry? && !s.valid && s.rest == EntryText(item, CRLF + more, boundary)
    ensures u.state.NewEntry? && !u.valid && u.rest == more && Parts(u.log) == Parts(s.log) + [item]
    ensures forall parts :: AtEntry(u, parts, boundary, callbacks) ==> AtEntry(s, parts, boundary, callbacks)
  {
    var t := EntryRun(s, item, CRLF + more, boundary, callbacks);
    NextStep(t, more, boundary, callbacks);
    u := t.(rest := more, state := NewEntry);
    hide Run, Tame, AtEntry;
    forall parts | AtEntry(u, parts, boundary, callbacks) ensures AtEntry(s, parts, boundary, callbacks) {
      EntryBefore(t, u, parts, boundary, callbacks);
      EntryBefore(s, t, parts, boundary, callbacks);
    }
  }

  lemma {:induction false} EntriesRun(s: Snapshot, items: seq<Part>, i: nat, k: nat, boundary: string,
      callbacks: Callbacks)
    requires Accepting(callbacks) && ValidBoundary(boundary) && i <= k <= |items|
    requires forall j :: i <= j < k ==> Carried(items[j], boundary)
    requires s.state.NewEntry? && !s.valid && s.rest == Entries(items, i, k, boundary)
    ensures AtEntry(s, Parts(s.log) + items[i..k], boundary, callbacks)
    decreases k - i
  {
    if i == k {
      assert Parts(s.log) + items[i..k] == Parts(s.log);
    } else {
      hide Run, Tame, AtEntry, Carried, EntryText;
      var u := EntryStep(s, items[i], Entries(items, i + 1, k, boundary), boundary, callbacks);
      EntriesRun(u, items, i + 1, k, boundary, callbacks);
      PeelUpTo(Parts(s.log), items, i, k);
    }
  }

  lemma AtEntryNext(s: Snapshot, parts: seq<Part>, boundary: string, callbacks: Callbacks)
    requires AtEntry(s, parts, boundary, callbacks) && s.rest != ""
    requires var o := Step(s, boundary, callbacks); o.Continue? && !o.next.valid && !o.next.state.InitialBoundary?
    ensures AtEntry(Step(s, boundary, callbacks).next, parts, boundary, callbacks)
  {
    hide Step;
  }

  lemma BoundaryGoesOn(s: Snapshot, e: string, parts: seq<Part>, boundary: string, callbacks: Callbacks)
    requires AtEntry(s, parts, boundary, callbacks) && s.rest != "" && s.state.Boundary?
    ensures |s.rest| >= 2 && s.rest[..2] == CRLF
  {
    RunNothing(s.(rest := "", valid := true), boundary, callbacks);
  }

  lemma RunNothing(s: Snapshot, boundary: string, callbacks: Callbacks)
    requires s.rest == ""
    ensures Run(s, boundary, callbacks) == (true, s)
  {
  }

  /** On the way to an entry every step goes on, whatever input is behind it. */
  lemma EntryGoesOn(s: Snapshot, e: string, parts: seq<Part>, boundary: string, callbacks: Callbacks)
    requires Accepting(callbacks) && AtEntry(s, parts, boundary, callbacks) && s.rest != ""
    ensures var o := Step(s, boundary, callbacks);
            && o.Continue? && AtEntry(o.next, parts, boundary, callbacks)
            && Step(Plus(s, e), boundary, callbacks) == Continue(Plus(o.next, e))
  {
    match s.state {
      case Headers =>
        HeadersPlus(s, e, callbacks);
        HeadersKeep(s, callbacks);
        FitsWithinLimit(s.rest, s.file);
        HeadersFound(s, e, callbacks);
      case Body =>
        BodyLeft(s, e, boundary, callbacks);
      case Boundary =>
        BoundaryGoesOn(s, e, parts, boundary, callbacks);
        BoundaryPlus(s, e);
      case NewEntry =>
    }
    AtEntryNext(s, parts, boundary, callbacks);
  }

  /** Input that arrives in the same chunk behind an entry is read from there on. */
  lemma {:induction false} RunPastEntry(s: Snapshot, e: string, parts: seq<Part>, boundary: string,
      callbacks: Callbacks)
    requires Accepting(callbacks) && AtEntry(s, parts, boundary, callbacks)
    ensures Run(Plus(s, e), boundary, callbacks) == Run(Plus(Run(s, boundary, callbacks).1, e), boundary, callbacks)
    decreases |s.rest|, if s.state.NewEntry? then 1 else 0
  {
    if s.rest != "" {
      EntryGoesOn(s, e, parts, boundary, callbacks);
      hide Step, AtEntry;
      RunPastEntry(Step(s, boundary, callbacks).next, e, parts, boundary, callbacks);
    }
  }

  /** A chunk that ends inside the entries. */
  lemma EntryInside(s: Snapshot, c: string, text: string, parts: seq<Part>, boundary: string, callbacks: Callbacks)
    requires Accepting(callbacks) && AtEntry(Plus(s, c + text), parts, boundary, callbacks) && text != ""
    ensures var (ok, t) := Feed(s, c, boundary, callbacks); ok && AtEntry(Plus(t, text), parts, boundary, callbacks)
  {
    PlusPlus(s, c, text);
    RunPlus(Plus(s, c), text, boundary, callbacks);
  }

  /** The entries in any chunks, with `rest` behind them. */
  lemma {:induction false} FeedEntries(s: Snapshot, chunks: seq<string>, text: string, rest: string,
      parts: seq<Part>, boundary: string, callbacks: Callbacks)
    returns (t: Snapshot, more: seq<string>)
    requires Accepting(callbacks) && AtEntry(Plus(s, text), parts, boundary, callbacks)
    requires chunks != [] && Flatten(chunks) == text + rest
    ensures t.state.NewEntry? && t.rest == "" && Parts(t.log) == parts && Flatten(more) == rest
    ensures FeedAll(s, chunks, boundary, callbacks) == FeedAll(t, more, boundary, callbacks)
    decreases |chunks|
  {
    var c, cs := chunks[0], chunks[1..];
    if |c| < |text| {
      CutInside(c, Flatten(cs), text, rest);
      EntryInside(s, c, text[|c|..], parts, boundary, callbacks);
      t, more := FeedEntries(Feed(s, c, boundary, callbacks).1, cs, text[|c|..], rest, parts, boundary, callbacks);
    } else {
      CutBehind(c, Flatten(cs), text, rest);
      var e := c[|text|..];
      PlusPlus(s, text, e);
      RunPastEntry(Plus(s, text), e, parts, boundary, callbacks);
      t, more := Run(Plus(s, text), boundary, callbacks).1, [e] + cs;
      FlattenCons(e, cs);
      assert more[1..] == cs;
    }
  }

  // ---------- the theorem ----------

  ghost predicate Reports(items: seq<Part>, chunks: seq<string>, boundary: string, callbacks: Callbacks) {
    var (ok, t) := FeedAll(START, chunks, boundary, callbacks);
    ok && t.valid && Parts(t.log) == items
  }

  /** From the header block of item `k` on. */
  lemma HazardFails(t: Snapshot, more: seq<string>, items: seq<Part>, k: nat, boundary: string, callbacks: Callbacks)
    requires k < |items| && Hazardous(items[k].file)
    requires t.state.NewEntry? && t.rest == "" && Parts(t.log) == items[..k]
    requires Flatten(more) == Tail(items, k, boundary) + CRLF
    ensures var (ok, u) := FeedAll(t, more, boundary, callbacks); ok ==> Parts(u.log) != items
  {
    var f := items[k].file;
    var body := items[k].content + Delimiter(boundary) + After(items, k, boundary);
    Associative(HeaderBlock(f), body, CRLF);
    assert Flatten(more) == HeaderBlock(f) + (body + CRLF);
    hide Hazardous, FeedAll, Tail, EntryText, After, HeaderBlock, Delimiter;
    assert t.rest + Flatten(more) == Flatten(more);
    FeedAllNaming(t, more, k, f, body + CRLF, boundary, callbacks);
  }

  /** The whole text, cut behind the opening line and in front of item `k`. */
  lemma TextCut(items: seq<Part>, k: nat, boundary: string)
    requires k < |items|
    ensures Serialize(items, boundary)
         == OpeningLine(boundary) + (Entries(items, 0, k, boundary) + (Tail(items, k, boundary) + CRLF))
  {
    var open, text, tail := OpeningLine(boundary), Entries(items, 0, k, boundary), Tail(items, k, boundary);
    SerializeTail(items, 0, boundary);
    EntriesTail(items, 0, k, boundary);
    hide OpeningLine, Entries, Tail;
    Associative(text, tail, CRLF);
    Associative(open, text + tail, CRLF);
  }

  lemma FirstHazardFails(items: seq<Part>, k: nat, chunks: seq<string>, boundary: string, callbacks: Callbacks)
    requires Accepting(callbacks) && ValidBoundary(boundary) && k < |items|
    requires Flatten(chunks) == Serialize(items, boundary) && OpensWhole(chunks, |OpeningLine(boundary)|)
    requires (forall j :: 0 <= j < k ==> Carried(items[j], boundary)) && Hazardous(items[k].file)
    ensures !Reports(items, chunks, boundary, callbacks)
  {
    var s := START.(state := NewEntry);
    var text, rest := Entries(items, 0, k, boundary), Tail(items, k, boundary) + CRLF;
    TextCut(items, k, boundary);
    assert "" + text == text && [] + items[0..k] == items[..k];
    hide Entries, Tail, OpeningLine, OpensWhole, Serialize, FeedAll, AtEntry, Carried, Hazardous;
    var more := BehindOpening(chunks, text + rest, boundary, callbacks);
    EntriesRun(Plus(s, text), items, 0, k, boundary, callbacks);
    var t, last := FeedEntries(s, more, text, rest, items[..k], boundary, callbacks);
    HazardFails(t, last, items, k, boundary, callbacks);
  }

  lemma {:induction false} FirstHazard(items: seq<Part>, n: nat, boundary: string) returns (k: nat)
    requires n <= |items| && AllSealed(items, Delimiter(boundary))
    requires forall j :: 0 <= j < |items| ==> LinesWithin(items[j].file)
    requires exists j :: 0 <= j < n && !Faithful(items[j], boundary)
    ensures k < n && Hazardous(items[k].file) && forall j :: 0 <= j < k ==> Carried(items[j], boundary)
  {
    assert Sealed(items[n - 1], Delimiter(boundary));
    if forall j :: 0 <= j < n - 1 ==> Faithful(items[j], boundary) {
      k := n - 1;
    } else {
      k := FirstHazard(items, n - 1, boundary);
    }
  }

  /** Round trip, exactly. A form whose header lines are within the parser's limit, cut in any way that leaves its
      opening line whole, comes back if and only if all of its items are faithful: names and file names without a
      reserved byte, content types trimmed and without a line end, contents without the delimiter. */
  lemma RoundTripExactly(items: seq<Part>, chunks: seq<string>, boundary: string, callbacks: Callbacks)
    requires Accepting(callbacks) && ValidBoundary(boundary) && items != []
    requires forall k :: 0 <= k < |items| ==> LinesWithin(items[k].file)
    requires Flatten(chunks) == Serialize(items, boundary) && OpensWhole(chunks, |OpeningLine(boundary)|)
    ensures Reports(items, chunks, boundary, callbacks)
       <==> forall k :: 0 <= k < |items| ==> Faithful(items[k], boundary)
  {
    if forall k :: 0 <= k < |items| ==> Faithful(items[k], boundary) {
      RoundTrip(items, chunks, boundary, callbacks);
    } else if Reports(items, chunks, boundary, callbacks) {
      ReportsSound(chunks, boundary, callbacks);
      var k := FirstHazard(items, |items|, boundary);
      FirstHazardFails(items, k, chunks, boundary, callbacks);
    }
  }
}
