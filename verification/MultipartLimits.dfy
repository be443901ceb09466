/** What the parser can report at all: for any input, in any chunks, whatever the callbacks answer. */
module MultipartLimits {
  import opened Text
  import opened MultipartSpec
  import opened MultipartChunks
  import opened MultipartHeaders

  // ---------- names ----------

  /** `p` contains no `d`, and no byte that `s` lacks. */
  ghost predicate Drawn(p: string, s: string, d: char) {
    Lacks(p, d) && forall c :: Lacks(s, c) ==> Lacks(p, c)
  }

  lemma DrawnSlice(s: string, a: nat, b: nat, d: char)
    requires a <= b <= |s| && forall k :: a <= k < b ==> s[k] != d
    ensures Drawn(s[a..b], s, d)
  {
    assert forall k :: 0 <= k < b - a ==> s[a..b][k] == s[a + k];
  }

  lemma TrimLacks(seg: string, c: char)
    requires Lacks(seg, c)
    ensures Lacks(TrimCopy(seg), c)
  {
    var l, r := SkipBlanks(seg, 0), DropBlanks(seg, |seg|);
    if l < r {
      assert forall k :: 0 <= k < r - l ==> seg[l..r][k] == seg[l + k];
    }
  }

  lemma PieceDrawn(s: string, beg: nat, i: nat, d: char)
    requires beg <= i <= |s| && forall k :: beg <= k < i ==> s[k] != d
    ensures forall p :: p in Piece(s[beg..i]) ==> Drawn(p, s, d)
  {
    DrawnSlice(s, beg, i, d);
    hide TrimCopy, Lacks;
    forall c | Lacks(s[beg..i], c) ensures Lacks(TrimCopy(s[beg..i]), c) {
      TrimLacks(s[beg..i], c);
    }
  }

  lemma {:induction false} SplitDrawn(s: string, d: char, beg: nat, i: nat)
    requires beg <= i <= |s| && forall k :: beg <= k < i ==> s[k] != d
    ensures forall p :: p in SplitFrom(s, d, beg, i) ==> Drawn(p, s, d)
    decreases |s| - i
  {
    PieceDrawn(s, beg, i, d);
    if i < |s| {
      if s[i] == d {
        SplitDrawn(s, d, i + 1, i + 1);
      } else {
        SplitDrawn(s, d, beg, i + 1);
      }
    }
  }

  lemma {:induction false} DedupSubset(pieces: seq<string>)
    ensures forall p :: p in Dedup(pieces) ==> p in pieces
  {
    if pieces != [] {
      DedupSubset(pieces[..|pieces| - 1]);
    }
  }

  lemma TrimQuotesLacks(s: string, c: char)
    requires Lacks(s, c)
    ensures Lacks(TrimQuotes(s), c)
  {
  }

  lemma LookupClean(text: string, key: string)
    requires OneLine(text)
    ensures var r := Lookup(Dedup(Split(text, ';')), key); r.Some? ==> Clean(r.value)
  {
    var pieces := Dedup(Split(text, ';'));
    var r := Lookup(pieces, key);
    if r.Some? {
      var kv :| kv in pieces && Binds(kv, key, r.value);
      DedupSubset(Split(text, ';'));
      SplitDrawn(text, ';', 0, 0);
      SplitDrawn(kv, '=', 0, 0);
      var v := KeyValue(kv).value.1;
      assert v == "" || v in Split(kv, '=');
      assert Clean(v);
      TrimQuotesLacks(v, ';');
      TrimQuotesLacks(v, '=');
      TrimQuotesLacks(v, '\r');
      TrimQuotesLacks(v, '\n');
    }
  }

  /** Header information as it can be reported, but for the file name. */
  ghost predicate FileSound(f: FileInfo) {
    Clean(f.name) && Trimmed(f.contentType) && !Contains(f.contentType, CRLF)
  }

  lemma NoneInSlice(s: string, l: nat, r: nat, pat: string)
    requires l <= r <= |s| && !Contains(s, pat)
    ensures !Contains(s[l..r], pat)
  {
    assert s == s[..l] + s[l..];
    assert s[l..] == s[l..r] + s[r..];
    hide Contains;
    NoneInSuffix(s[..l], s[l..], pat);
    NoneInPrefix(s[l..r], s[r..], pat);
  }

  lemma TrimIsTrimmed(s: string)
    ensures Trimmed(TrimCopy(s))
  {
  }

  lemma TrimHasNone(s: string, pat: string)
    requires !Contains(s, pat) && pat != ""
    ensures !Contains(TrimCopy(s), pat)
  {
    hide Contains;
    NoneInEmpty(pat);
    var l, r := SkipBlanks(s, 0), DropBlanks(s, |s|);
    if l < r {
      NoneInSlice(s, l, r, pat);
    }
  }

  lemma NoneInEmpty(pat: string)
    requires pat != ""
    ensures !Contains("", pat)
  {
    forall i ensures !OccursAt("", pat, i) { }
  }

  lemma TypeSound(line: string)
    requires |line| >= |CONTENT_TYPE| && !Contains(line, CRLF)
    ensures Trimmed(TrimCopy(line[|CONTENT_TYPE|..])) && !Contains(TrimCopy(line[|CONTENT_TYPE|..]), CRLF)
  {
    var value := line[|CONTENT_TYPE|..];
    assert line[|CONTENT_TYPE|..|line|] == value;
    NoneInSlice(line, |CONTENT_TYPE|, |line|, CRLF);
    TrimIsTrimmed(value);
    TrimHasNone(value, CRLF);
  }

  /** No header line, however malformed, yields a name with a reserved byte, or a content type with a line end or
      with blanks around it. */
  lemma HeaderSound(line: string, file: FileInfo)
    requires FileSound(file) && !Contains(line, CRLF)
    ensures FileSound(ApplyHeader(line, file).1)
  {
    if StartsWithIgnoreCase(line, CONTENT_TYPE) {
      TypeSound(line);
    } else {
      var text := DispositionText(line);
      if text.Some? {
        LookupClean(text.value, "name");
      }
    }
  }

  lemma LineHasNoEnd(rest: string)
    ensures !Contains(rest[..Find(rest, CRLF)], CRLF)
  {
    var pos := Find(rest, CRLF);
    var line := rest[..pos];
    assert line + rest[pos..] == rest;
    forall i ensures !OccursAt(line, CRLF, i) {
      if 0 <= i && i + 2 <= |line| {
        OccursExtend(line, rest[pos..], CRLF, i);
      }
    }
  }

  lemma {:induction false} HeadersFileSound(s: Snapshot, callbacks: Callbacks)
    requires FileSound(s.file)
    ensures var o := ReadHeaders(s, callbacks);
            && FileSound(o.next.file)
            && (o.next.log == s.log + [Header(o.next.file)] || (o.Return? && o.next.log == s.log))
            && o.next.state == (if o.Continue? then Body else s.state)
    decreases |s.rest|
  {
    var pos := Find(s.rest, CRLF);
    if 0 < pos < |s.rest| {
      LineHasNoEnd(s.rest);
      HeaderSound(s.rest[..pos], s.file);
      var (ok, t) := TakeLine(s, pos);
      if ok {
        HeadersFileSound(t, callbacks);
      }
    }
  }

  // ---------- what is reported, for any input and any chunking ----------

  /** No delimiter begins in the bytes already handed out, whatever may still arrive. */
  predicate Pending(given: string, rest: string, delim: string) {
    (given == "" || |delim| <= |rest| + 1) &&
    forall i :: 0 <= i < |given| ==> !OccursAt(given + rest, delim, i)
  }

  ghost predicate Sealed(p: Part, delim: string) {
    FileSound(p.file) && !Contains(p.content, delim)
  }

  ghost predicate Sound(s: Snapshot, boundary: string) {
    var delim := Delimiter(boundary);
    var ps := Parts(s.log);
    && FileSound(s.file)
    && (if s.state.Body? then
          && ps != [] && (forall k :: 0 <= k < |ps| - 1 ==> Sealed(ps[k], delim))
          && FileSound(ps[|ps| - 1].file) && Pending(ps[|ps| - 1].content, s.rest, delim)
        else
          forall k :: 0 <= k < |ps| ==> Sealed(ps[k], delim))
  }

  lemma PendingMore(given: string, rest: string, d: string, delim: string)
    requires Pending(given, rest, delim)
    ensures Pending(given, rest + d, delim)
  {
    assert given + (rest + d) == given + rest + d;
    forall i | 0 <= i < |given| ensures !OccursAt(given + (rest + d), delim, i) {
      OccursExtend(given + rest, d, delim, i);
    }
  }

  /** Neither the bytes handed out before nor the ones handed out now begin a delimiter. */
  lemma PendingMove(given: string, rest: string, n: nat, delim: string)
    requires Pending(given, rest, delim) && n <= |rest| && delim != ""
    requires forall i :: 0 <= i < n ==> !OccursAt(rest, delim, i)
    ensures forall i :: 0 <= i < |given| + n ==> !OccursAt(given + rest, delim, i)
    ensures !Contains(given + rest[..n], delim)
    ensures n + |delim| <= |rest| ==> Pending(given + rest[..n], rest[n..], delim)
  {
    var w := given + rest;
    assert w[|given|..] == rest;
    forall i | 0 <= i < |given| + n ensures !OccursAt(w, delim, i) {
      if i >= |given| {
        OccursDrop(w, delim, |given|, i);
      }
    }
    var a, b := given + rest[..n], rest[n..];
    assert a + b == w;
    forall i ensures !OccursAt(a, delim, i) {
      if 0 <= i && i + |delim| <= |a| {
        OccursExtend(a, b, delim, i);
      }
    }
  }

  /** Bytes that are handed out keep every part sealed, whatever the callback answers. */
  lemma DeliverSound(s: Snapshot, n: nat, used: nat, state: State, boundary: string, callbacks: Callbacks)
    requires s.state.Body? && Sound(s, boundary) && n <= used <= |s.rest|
    requires forall i :: 0 <= i < n ==> !OccursAt(s.rest, Delimiter(boundary), i)
    requires state.Body? ==> used == n && n + |Delimiter(boundary)| <= |s.rest|
    ensures var (ok, t) := Deliver(s, n, used, state, callbacks);
            (ok ==> Sound(t, boundary)) && (!ok ==> AllSealed(Parts(t.log), Delimiter(boundary)))
  {
    var delim := Delimiter(boundary);
    var ps := Parts(s.log);
    PartsSnoc(s.log, Content(s.rest[..n]));
    PendingMove(ps[|ps| - 1].content, s.rest, n, delim);
  }

  /** An outcome that leaves a sound state, unless it is a refusal. */
  ghost predicate SoundOutcome(o: Outcome, boundary: string) {
    if o.Return? && !o.ok then AllSealed(Parts(o.next.log), Delimiter(boundary)) else Sound(o.next, boundary)
  }

  lemma BodySound(s: Snapshot, boundary: string, callbacks: Callbacks)
    requires s.state.Body? && Sound(s, boundary)
    ensures SoundOutcome(ReadBody(s, Delimiter(boundary), callbacks), boundary)
  {
    var delim := Delimiter(boundary);
    if |delim| <= |s.rest| {
      var pos := Find(s.rest, delim);
      if pos < |s.rest| {
        DeliverSound(s, pos, pos + |delim|, Boundary, boundary, callbacks);
      } else if |s.rest| > |delim| {
        DeliverSound(s, |s.rest| - |delim|, |s.rest| - |delim|, Body, boundary, callbacks);
      }
    }
  }

  lemma HeaderSealed(log: seq<Event>, file: FileInfo, delim: string)
    requires AllSealed(Parts(log), delim) && FileSound(file) && delim != ""
    ensures Parts(log + [Header(file)]) == Parts(log) + [Part(file, "")]
    ensures AllSealed(Parts(log) + [Part(file, "")], delim)
  {
    PartsSnoc(log, Header(file));
    NoneInEmpty(delim);
  }

  lemma HeadersSound(s: Snapshot, boundary: string, callbacks: Callbacks)
    requires s.state.Headers? && Sound(s, boundary)
    ensures SoundOutcome(ReadHeaders(s, callbacks), boundary)
  {
    HeadersFileSound(s, callbacks);
    var o := ReadHeaders(s, callbacks);
    hide ReadHeaders, FileSound;
    SoundParts(s, boundary);
    if o.next.log != s.log {
      HeaderSealed(s.log, o.next.file, Delimiter(boundary));
    }
  }

  lemma StepSound(s: Snapshot, boundary: string, callbacks: Callbacks)
    requires Sound(s, boundary)
    ensures SoundOutcome(Step(s, boundary, callbacks), boundary)
  {
    NoneInEmpty(CRLF);
    match s.state
    case Headers =>
      HeadersSound(s, boundary, callbacks);
      SoundParts(s, boundary);
    case Body => BodySound(s, boundary, callbacks);
    case _ => SoundParts(s, boundary);
  }

  lemma {:induction false} RunSound(s: Snapshot, boundary: string, callbacks: Callbacks)
    requires Sound(s, boundary)
    ensures var (ok, t) := Run(s, boundary, callbacks);
            (ok ==> Sound(t, boundary)) && AllSealed(Parts(t.log), Delimiter(boundary))
    decreases |s.rest|, if s.state.NewEntry? then 1 else 0
  {
    SoundParts(s, boundary);
    if s.rest != "" {
      StepSound(s, boundary, callbacks);
      var o := Step(s, boundary, callbacks);
      if o.Continue? {
        RunSound(o.next, boundary, callbacks);
      } else if o.ok {
        SoundParts(o.next, boundary);
      }
    }
  }

  lemma PlusSound(s: Snapshot, d: string, boundary: string)
    requires Sound(s, boundary)
    ensures Sound(Plus(s, d), boundary)
  {
    if s.state.Body? {
      var ps := Parts(s.log);
      PendingMore(ps[|ps| - 1].content, s.rest, d, Delimiter(boundary));
    }
  }

  lemma {:induction false} FeedAllSound(s: Snapshot, chunks: seq<string>, boundary: string, callbacks: Callbacks)
    requires Sound(s, boundary)
    ensures AllSealed(Parts(FeedAll(s, chunks, boundary, callbacks).1.log), Delimiter(boundary))
    decreases |chunks|
  {
    SoundParts(s, boundary);
    if chunks != [] {
      PlusSound(s, chunks[0], boundary);
      RunSound(Plus(s, chunks[0]), boundary, callbacks);
      var (ok, t) := Feed(s, chunks[0], boundary, callbacks);
      if ok {
        FeedAllSound(t, chunks[1..], boundary, callbacks);
      }
    }
  }

  lemma SoundParts(s: Snapshot, boundary: string)
    requires Sound(s, boundary)
    ensures AllSealed(Parts(s.log), Delimiter(boundary))
  {
    if s.state.Body? {
      var ps := Parts(s.log);
      var content := ps[|ps| - 1].content;
      PendingMove(content, s.rest, 0, Delimiter(boundary));
      assert content + s.rest[..0] == content;
    }
  }

  ghost predicate AllSealed(parts: seq<Part>, delim: string) {
    forall k :: 0 <= k < |parts| ==> Sealed(parts[k], delim)
  }

  /** Safety over every input: whatever bytes arrive in whatever chunks, and whatever the callbacks answer, no
      reported name holds a reserved byte, no reported content type a line end, no reported content the delimiter. */
  lemma ReportsSound(chunks: seq<string>, boundary: string, callbacks: Callbacks)
    ensures AllSealed(Parts(FeedAll(START, chunks, boundary, callbacks).1.log), Delimiter(boundary))
  {
    NoneInEmpty(CRLF);
    FeedAllSound(START, chunks, boundary, callbacks);
  }
}
