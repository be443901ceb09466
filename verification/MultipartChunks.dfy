/** How the parser's answers depend on the way its input is cut into chunks. */
module MultipartChunks {
  import opened Text
  import opened MultipartSpec

  // ---------- what the callbacks have reported ----------

  /** A form item as its consumer sees it: the header information and all its body bytes. */
  datatype Part = Part(file: FileInfo, content: string)

  function Report(parts: seq<Part>, e: Event): seq<Part> {
    match e
    case Header(file) => parts + [Part(file, "")]
    case Content(data) =>
      if parts == [] then []
      else
        var last := parts[|parts| - 1];
        parts[..|parts| - 1] + [last.(content := last.content + data)]
  }

  function PartsUpTo(log: seq<Event>, n: nat): seq<Part>
    requires n <= |log|
  {
    if n == 0 then [] else Report(PartsUpTo(log, n - 1), log[n - 1])
  }

  function Parts(log: seq<Event>): seq<Part> {
    PartsUpTo(log, |log|)
  }

  lemma {:induction false} PartsOfPrefix(log: seq<Event>, more: seq<Event>, n: nat)
    requires n <= |log|
    ensures PartsUpTo(log + more, n) == PartsUpTo(log, n)
  {
    if n > 0 {
      PartsOfPrefix(log, more, n - 1);
    }
  }

  lemma PartsSnoc(log: seq<Event>, e: Event)
    ensures Parts(log + [e]) == Report(Parts(log), e)
  {
    PartsOfPrefix(log, [e], |log|);
  }

  /** Reporting body bytes in two pieces or in one makes no difference. */
  lemma PartsSplit(log: seq<Event>, a: string, b: string)
    ensures Parts(log + [Content(a)] + [Content(b)]) == Parts(log + [Content(a + b)])
    ensures Parts(log + [Content("")]) == Parts(log)
  {
    PartsSnoc(log, Content(a));
    PartsSnoc(log + [Content(a)], Content(b));
    PartsSnoc(log, Content(a + b));
    PartsSnoc(log, Content(""));
    var p := Parts(log);
    if p != [] {
      var last := p[|p| - 1];
      assert last.content + a + b == last.content + (a + b);
      assert last.content + "" == last.content;
      assert p[..|p| - 1] + [last] == p;
    }
  }

  ghost predicate Accepting(callbacks: Callbacks) {
    forall log :: callbacks(log)
  }

  /** Equal but for how body bytes were grouped into content events. */
  predicate Same(s: Snapshot, t: Snapshot) {
    s.state == t.state && s.valid == t.valid && s.file == t.file && s.rest == t.rest && Parts(s.log) == Parts(t.log)
  }

  predicate SameOutcome(o: Outcome, p: Outcome) {
    o.Return? == p.Return? && (o.Return? ==> o.ok == p.ok) && Same(o.next, p.next)
  }

  lemma {:induction false} HeadersSame(s: Snapshot, t: Snapshot, callbacks: Callbacks)
    requires Same(s, t) && Accepting(callbacks)
    ensures SameOutcome(ReadHeaders(s, callbacks), ReadHeaders(t, callbacks))
    decreases |s.rest|
  {
    var pos := Find(s.rest, CRLF);
    if pos == |s.rest| {
    } else if pos == 0 {
      PartsSnoc(s.log, Header(s.file));
      PartsSnoc(t.log, Header(t.file));
    } else {
      var (ok, s') := TakeLine(s, pos);
      var (_, t') := TakeLine(t, pos);
      if ok {
        HeadersSame(s', t', callbacks);
      }
    }
  }

  lemma SnocSame(log: seq<Event>, log': seq<Event>, e: Event)
    requires Parts(log) == Parts(log')
    ensures Parts(log + [e]) == Parts(log' + [e])
  {
    PartsSnoc(log, e);
    PartsSnoc(log', e);
  }

  lemma DeliverSame(s: Snapshot, t: Snapshot, len: nat, used: nat, state: State, callbacks: Callbacks)
    requires Same(s, t) && Accepting(callbacks) && len <= used <= |s.rest|
    ensures Deliver(s, len, used, state, callbacks).0 && Deliver(t, len, used, state, callbacks).0
    ensures Same(Deliver(s, len, used, state, callbacks).1, Deliver(t, len, used, state, callbacks).1)
  {
    SnocSame(s.log, t.log, Content(s.rest[..len]));
  }

  lemma BodySame(s: Snapshot, t: Snapshot, delim: string, callbacks: Callbacks)
    requires Same(s, t) && Accepting(callbacks) && delim != ""
    ensures SameOutcome(ReadBody(s, delim, callbacks), ReadBody(t, delim, callbacks))
  {
    var n, len := |s.rest|, |delim|;
    if len <= n {
      var pos := Find(s.rest, delim);
      if pos < n {
        DeliverSame(s, t, pos, pos + len, Boundary, callbacks);
      } else if n > len {
        DeliverSame(s, t, n - len, n - len, Body, callbacks);
      }
    }
  }

  lemma StepSame(s: Snapshot, t: Snapshot, boundary: string, callbacks: Callbacks)
    requires Same(s, t) && Accepting(callbacks)
    ensures SameOutcome(Step(s, boundary, callbacks), Step(t, boundary, callbacks))
  {
    match s.state
    case Headers => HeadersSame(s, t, callbacks);
    case Body => BodySame(s, t, Delimiter(boundary), callbacks);
    case _ =>
  }

  /** The grouping of past content events does not influence the future. */
  lemma {:induction false} RunSame(s: Snapshot, t: Snapshot, boundary: string, callbacks: Callbacks)
    requires Same(s, t) && Accepting(callbacks)
    ensures Run(s, boundary, callbacks).0 == Run(t, boundary, callbacks).0
    ensures Same(Run(s, boundary, callbacks).1, Run(t, boundary, callbacks).1)
    decreases |s.rest|, if s.state.NewEntry? then 1 else 0
  {
    if s.rest != "" {
      StepSame(s, t, boundary, callbacks);
      var o, p := Step(s, boundary, callbacks), Step(t, boundary, callbacks);
      if o.Continue? {
        RunSame(o.next, p.next, boundary, callbacks);
      }
    }
  }

  // ---------- streams on which chunking does not matter ----------

  /** The next header line, complete or not, stays under the length limit. */
  predicate LineFits(rest: string) {
    var pos := Find(rest, CRLF);
    if pos < |rest| then pos < HEADER_MAX_LENGTH else |rest| <= HEADER_MAX_LENGTH
  }

  ghost predicate LinesFit(rest: string, file: FileInfo)
    decreases |rest|
  {
    var pos := Find(rest, CRLF);
    LineFits(rest) &&
    (0 < pos < |rest| ==> var (ok, next) := ApplyHeader(rest[..pos], file); ok ==> LinesFit(rest[pos + 2..], next))
  }

  /** Every header line met while reading the whole input fits the limit, and nothing follows
      the closing delimiter. */
  ghost predicate Tame(s: Snapshot, boundary: string, callbacks: Callbacks)
    decreases |s.rest|, if s.state.NewEntry? then 1 else 0
  {
    s.rest == "" ||
    (&& (s.state.Headers? ==> LinesFit(s.rest, s.file))
     && (s.state.Boundary? && |s.rest| >= 2 && s.rest[..2] == DASH ==> |s.rest| == 2)
     && var o := Step(s, boundary, callbacks); o.Continue? ==> Tame(o.next, boundary, callbacks))
  }

  function Plus(s: Snapshot, d: string): Snapshot {
    s.(rest := s.rest + d)
  }

  lemma PlusPlus(s: Snapshot, c: string, d: string)
    ensures Plus(Plus(s, c), d) == Plus(s, c + d)
  {
    assert s.rest + c + d == s.rest + (c + d);
  }

  lemma LineFitsPrefix(r: string, d: string)
    requires LineFits(r + d)
    ensures LineFits(r)
  {
    if Find(r, CRLF) < |r| {
      FindStable(r, d, CRLF);
    } else {
      FindLate(r, d, CRLF);
    }
  }

  lemma TakeLinePlus(s: Snapshot, pos: nat, d: string)
    requires pos + 2 <= |s.rest|
    ensures var (ok, t) := TakeLine(s, pos); TakeLine(Plus(s, d), pos) == (ok, Plus(t, d))
  {
    assert (s.rest + d)[..pos] == s.rest[..pos];
    assert (s.rest + d)[pos + 2..] == s.rest[pos + 2..] + d;
  }

  /** More input behind a header block: what was decided stays decided, and an interrupted block
      is resumed where it stopped. */
  lemma {:induction false} HeadersPlus(s: Snapshot, d: string, callbacks: Callbacks)
    requires Accepting(callbacks)
    ensures var o := ReadHeaders(s, callbacks);
            (o.Return? && o.ok ==> o.next.state == s.state && o.next.valid == s.valid) &&
            ReadHeaders(Plus(s, d), callbacks) ==
              if o.Continue? then Continue(Plus(o.next, d))
              else if !o.ok then Return(false, Plus(o.next, d))
              else ReadHeaders(Plus(o.next, d), callbacks)
    decreases |s.rest|
  {
    var pos := Find(s.rest, CRLF);
    if pos < |s.rest| {
      FindStable(s.rest, d, CRLF);
      if pos == 0 {
        assert (s.rest + d)[2..] == s.rest[2..] + d;
      } else {
        TakeLinePlus(s, pos, d);
        var (ok, t) := TakeLine(s, pos);
        if ok {
          HeadersPlus(t, d, callbacks);
        }
      }
    }
  }

  lemma {:induction false} FitPrefix(r: string, d: string, file: FileInfo)
    requires LinesFit(r + d, file)
    ensures LinesFit(r, file)
    decreases |r|
  {
    hide ApplyHeader, LineFits, LinesFit;
    LinesFitIs(r, file);
    LinesFitIs(r + d, file);
    LineFitsPrefix(r, d);
    var pos := Find(r, CRLF);
    if 0 < pos < |r| {
      FindStable(r, d, CRLF);
      CutFront(r, d, pos, 2);
      var (ok, next) := ApplyHeader(r[..pos], file);
      if ok {
        FitPrefix(r[pos + 2..], d, next);
      }
    }
  }

  lemma LinesFitIs(rest: string, file: FileInfo)
    ensures var pos := Find(rest, CRLF);
            LinesFit(rest, file) <==>
              LineFits(rest) &&
              (0 < pos < |rest| ==>
                 var (ok, next) := ApplyHeader(rest[..pos], file);
                 ok ==> LinesFit(rest[pos + 2..], next))
  {
  }

  lemma {:induction false} FitResume(s: Snapshot, d: string, callbacks: Callbacks)
    requires LinesFit(s.rest + d, s.file)
    ensures var o := ReadHeaders(s, callbacks);
            o.Return? && o.ok ==> LinesFit(o.next.rest + d, o.next.file)
    decreases |s.rest|
  {
    hide ApplyHeader, LineFits, LinesFit;
    LinesFitIs(s.rest + d, s.file);
    var pos := Find(s.rest, CRLF);
    if 0 < pos < |s.rest| {
      FindStable(s.rest, d, CRLF);
      CutFront(s.rest, d, pos, 2);
      var (ok, t) := TakeLine(s, pos);
      if ok {
        FitResume(t, d, callbacks);
      }
    }
  }

  // ---------- more input behind an unfinished body ----------

  lemma DeliverPlus(s: Snapshot, d: string, len: nat, used: nat, state: State, callbacks: Callbacks)
    requires Accepting(callbacks) && len <= used <= |s.rest|
    ensures var (ok, t) := Deliver(s, len, used, state, callbacks);
            ok && Deliver(Plus(s, d), len, used, state, callbacks) == (true, Plus(t, d))
  {
    assert (s.rest + d)[..len] == s.rest[..len];
    assert (s.rest + d)[used..] == s.rest[used..] + d;
  }

  /** Delivering bytes in two steps reports what delivering them in one step reports. */
  lemma DeliverTwice(s: Snapshot, n: nat, len: nat, used: nat, state: State, callbacks: Callbacks)
    requires Accepting(callbacks) && n <= len <= used <= |s.rest|
    ensures var t := Deliver(s, n, n, s.state, callbacks).1;
            |t.rest| == |s.rest| - n &&
            Same(Deliver(t, len - n, used - n, state, callbacks).1, Deliver(s, len, used, state, callbacks).1)
  {
    var a, b := s.rest[..n], s.rest[n..len];
    assert a + b == s.rest[..len];
    assert s.rest[n..][..len - n] == b;
    assert s.rest[n..][used - n..] == s.rest[used..];
    PartsSplit(s.log, a, b);
  }

  /** The delimiter is complete in the buffer: later input waits behind it. */
  lemma BodyPlusFound(s: Snapshot, d: string, delim: string, callbacks: Callbacks)
    requires Accepting(callbacks) && delim != "" && Find(s.rest, delim) < |s.rest|
    ensures var o := ReadBody(s, delim, callbacks);
            o.Continue? && ReadBody(Plus(s, d), delim, callbacks) == Continue(Plus(o.next, d))
  {
    FindStable(s.rest, d, delim);
    var pos := Find(s.rest, delim);
    DeliverPlus(s, d, pos, pos + |delim|, Boundary, callbacks);
  }

  lemma FlushedFound(u: Snapshot, v: Snapshot, n: nat, delim: string, callbacks: Callbacks)
    requires Accepting(callbacks) && delim != "" && u.state.Body? && n + |delim| <= |u.rest|
    requires v == Deliver(u, n, n, Body, callbacks).1
    requires Find(u.rest, delim) == n + Find(v.rest, delim) < |u.rest|
    ensures SameOutcome(ReadBody(u, delim, callbacks), ReadBody(v, delim, callbacks))
  {
    var pos := Find(u.rest, delim);
    DeliverTwice(u, n, pos, pos + |delim|, Boundary, callbacks);
  }

  lemma FlushedMissing(u: Snapshot, v: Snapshot, n: nat, delim: string, callbacks: Callbacks)
    requires Accepting(callbacks) && delim != "" && u.state.Body? && 0 < n && n + |delim| <= |u.rest|
    requires v == Deliver(u, n, n, Body, callbacks).1
    requires Find(u.rest, delim) == n + Find(v.rest, delim) == |u.rest|
    ensures SameOutcome(ReadBody(u, delim, callbacks), ReadBody(v, delim, callbacks))
  {
    var len := |u.rest| - |delim|;
    if len > n {
      DeliverTwice(u, n, len, len, Body, callbacks);
    }
  }

  /** Flushing bytes that cannot begin the delimiter does not change what happens to the body. */
  lemma FlushedBody(u: Snapshot, n: nat, delim: string, callbacks: Callbacks)
    requires Accepting(callbacks) && delim != "" && u.state.Body? && 0 < n && n + |delim| <= |u.rest|
    requires forall i :: 0 <= i < n ==> !OccursAt(u.rest, delim, i)
    ensures SameOutcome(ReadBody(u, delim, callbacks), ReadBody(Deliver(u, n, n, Body, callbacks).1, delim, callbacks))
  {
    var v := Deliver(u, n, n, Body, callbacks).1;
    FindDrop(u.rest, delim, n);
    if Find(u.rest, delim) < |u.rest| {
      FlushedFound(u, v, n, delim, callbacks);
    } else {
      FlushedMissing(u, v, n, delim, callbacks);
    }
  }

  /** The delimiter is not there yet: flushing what cannot belong to it does not change the outcome. */
  lemma BodyPlusWaiting(s: Snapshot, d: string, delim: string, callbacks: Callbacks)
    requires Accepting(callbacks) && delim != "" && Find(s.rest, delim) == |s.rest| && s.state.Body?
    ensures var o := ReadBody(s, delim, callbacks);
            o.Return? && o.ok && o.next.state.Body? && o.next.valid == s.valid &&
            SameOutcome(ReadBody(Plus(s, d), delim, callbacks), ReadBody(Plus(o.next, d), delim, callbacks))
  {
    var n := |s.rest| - |delim|;
    if n > 0 {
      DeliverPlus(s, d, n, n, Body, callbacks);
      FindLate(s.rest, d, delim);
      FlushedBody(Plus(s, d), n, delim, callbacks);
    }
  }

  // ---------- one step, one run, a sequence of chunks ----------

  lemma FitsWithinLimit(rest: string, file: FileInfo)
    requires LinesFit(rest, file)
    ensures Find(rest, CRLF) <= HEADER_MAX_LENGTH
  {
  }

  lemma BoundaryPlus(s: Snapshot, d: string)
    requires |s.rest| >= 2
    ensures (s.rest + d)[..2] == s.rest[..2] && (s.rest + d)[2..] == s.rest[2..] + d
  {
  }

  predicate Closes(s: Snapshot) {
    s.state.Boundary? && |s.rest| >= 2 && s.rest[..2] == DASH
  }

  /** What a step does to `s` and to the same state with `d` behind its input. */
  predicate Continues(s: Snapshot, o: Outcome, o': Outcome, resumed: Outcome, d: string) {
    && (o.Continue? && !Closes(s) ==>
          o' == Continue(Plus(o.next, d)) && !o.next.valid && !o.next.state.InitialBoundary?)
    && (o.Return? && !o.ok ==> o'.Return? && !o'.ok)
    && (o.Return? && o.ok ==> o.next.state == s.state && !o.next.valid && SameOutcome(o', resumed))
  }

  lemma StepPlusHeaders(s: Snapshot, d: string, boundary: string, callbacks: Callbacks)
    requires Accepting(callbacks) && s.state.Headers? && !s.valid && LinesFit(s.rest + d, s.file)
    ensures var o := Step(s, boundary, callbacks);
            Continues(s, o, Step(Plus(s, d), boundary, callbacks), Step(Plus(o.next, d), boundary, callbacks), d)
  {
    HeadersPlus(s, d, callbacks);
    HeadersKeep(s, callbacks);
    FitPrefix(s.rest, d, s.file);
    FitsWithinLimit(s.rest, s.file);
    FitsWithinLimit(s.rest + d, s.file);
    FitResume(s, d, callbacks);
    var o := ReadHeaders(s, callbacks);
    if o.Return? && o.ok {
      FitsWithinLimit(o.next.rest + d, o.next.file);
    }
  }

  /** One step seen from an input that is continued by `d`. */
  lemma StepPlus(s: Snapshot, d: string, boundary: string, callbacks: Callbacks)
    requires Accepting(callbacks) && !s.state.InitialBoundary? && !s.valid && s.rest != ""
    requires s.state.Headers? ==> LinesFit(s.rest + d, s.file)
    ensures var o := Step(s, boundary, callbacks);
            Continues(s, o, Step(Plus(s, d), boundary, callbacks), Step(Plus(o.next, d), boundary, callbacks), d)
  {
    match s.state
    case Headers =>
      StepPlusHeaders(s, d, boundary, callbacks);
    case Body =>
      var delim := Delimiter(boundary);
      if Find(s.rest, delim) < |s.rest| {
        BodyPlusFound(s, d, delim, callbacks);
      } else {
        BodyPlusWaiting(s, d, delim, callbacks);
      }
    case Boundary =>
      if |s.rest| >= 2 {
        BoundaryPlus(s, d);
      }
    case NewEntry =>
  }

  lemma {:induction false} HeadersKeep(s: Snapshot, callbacks: Callbacks)
    requires Accepting(callbacks)
    ensures var o := ReadHeaders(s, callbacks);
            o.Continue? ==> o.next.state.Body? && o.next.valid == s.valid
    decreases |s.rest|
  {
    var pos := Find(s.rest, CRLF);
    if 0 < pos < |s.rest| {
      var (ok, t) := TakeLine(s, pos);
      if ok {
        HeadersKeep(t, callbacks);
      }
    }
  }

  lemma {:induction false} TameSame(s: Snapshot, t: Snapshot, boundary: string, callbacks: Callbacks)
    requires Same(s, t) && Accepting(callbacks) && Tame(s, boundary, callbacks)
    ensures Tame(t, boundary, callbacks)
    decreases |s.rest|, if s.state.NewEntry? then 1 else 0
  {
    if s.rest != "" {
      StepSame(s, t, boundary, callbacks);
      var o := Step(s, boundary, callbacks);
      if o.Continue? {
        TameSame(o.next, Step(t, boundary, callbacks).next, boundary, callbacks);
      }
    }
  }

  lemma RunOfStep(s: Snapshot, t: Snapshot, boundary: string, callbacks: Callbacks)
    requires Accepting(callbacks) && s.rest != "" && t.rest != ""
    requires SameOutcome(Step(s, boundary, callbacks), Step(t, boundary, callbacks))
    ensures Run(s, boundary, callbacks).0 == Run(t, boundary, callbacks).0
    ensures Same(Run(s, boundary, callbacks).1, Run(t, boundary, callbacks).1)
  {
    var o := Step(s, boundary, callbacks);
    if o.Continue? {
      RunSame(o.next, Step(t, boundary, callbacks).next, boundary, callbacks);
    }
  }

  ghost predicate Agree(s: Snapshot, t: Snapshot, boundary: string, callbacks: Callbacks) {
    Run(s, boundary, callbacks).0 == Run(t, boundary, callbacks).0 &&
    Same(Run(s, boundary, callbacks).1, Run(t, boundary, callbacks).1)
  }

  /** An interrupted step, resumed with more input, and the same step on all of the input. */
  lemma ResumeStep(s: Snapshot, d: string, boundary: string, callbacks: Callbacks)
    requires Accepting(callbacks) && !s.state.InitialBoundary? && !s.valid && s.rest != ""
    requires Tame(Plus(s, d), boundary, callbacks)
    requires Step(s, boundary, callbacks).Return? && Step(s, boundary, callbacks).ok
    ensures var t := Step(s, boundary, callbacks).next;
            Agree(Plus(s, d), Plus(t, d), boundary, callbacks) && Tame(Plus(t, d), boundary, callbacks)
  {
    StepPlus(s, d, boundary, callbacks);
    var t := Step(s, boundary, callbacks).next;
    if t.rest + d != "" {
      RunOfStep(Plus(s, d), Plus(t, d), boundary, callbacks);
      if s.state.Headers? {
        FitResume(s, d, callbacks);
        FitPrefix(s.rest, d, s.file);
        FitsWithinLimit(s.rest, s.file);
      }
      var o' := Step(Plus(s, d), boundary, callbacks);
      if o'.Continue? {
        TameSame(o'.next, Step(Plus(t, d), boundary, callbacks).next, boundary, callbacks);
      }
    }
  }

  /** Running on part of the input and then on the rest agrees with running on all of it; a refusal
      of the part is a refusal of the whole; and the closing delimiter ends a tame input. */
  lemma {:induction false} RunPlus(s: Snapshot, d: string, boundary: string, callbacks: Callbacks)
    requires Accepting(callbacks) && !s.state.InitialBoundary? && !s.valid
    requires Tame(Plus(s, d), boundary, callbacks)
    ensures var (ok, t) := Run(s, boundary, callbacks);
            && (!ok ==> !Run(Plus(s, d), boundary, callbacks).0)
            && (ok ==> Agree(Plus(s, d), Plus(t, d), boundary, callbacks))
            && (ok && t.valid ==> d == "" && t.rest == "")
            && (ok && !t.valid ==> !t.state.InitialBoundary? && Tame(Plus(t, d), boundary, callbacks))
    decreases |s.rest|, if s.state.NewEntry? then 1 else 0
  {
    if s.rest != "" {
      if s.state.Headers? {
        FitPrefix(s.rest, d, s.file);
      }
      StepPlus(s, d, boundary, callbacks);
      var o := Step(s, boundary, callbacks);
      if Closes(s) {
        BoundaryPlus(s, d);
        assert d == "";
        assert Plus(s, d) == s;
      } else if o.Continue? {
        RunPlus(o.next, d, boundary, callbacks);
      } else if o.ok {
        ResumeStep(s, d, boundary, callbacks);
      }
    }
  }

  // ---------- sequences of chunks ----------

  function Flatten(chunks: seq<string>): string {
    if chunks == [] then "" else chunks[0] + Flatten(chunks[1..])
  }

  /** `parse` called with each chunk in turn, until a call returns false. */
  function FeedAll(s: Snapshot, chunks: seq<string>, boundary: string, callbacks: Callbacks): (bool, Snapshot)
    decreases |chunks|
  {
    if chunks == [] then (true, s)
    else
      var (ok, t) := Feed(s, chunks[0], boundary, callbacks);
      if ok then FeedAll(t, chunks[1..], boundary, callbacks) else (false, t)
  }

  /** Chunk independence. For every input behind the opening line that is tame, every way to cut it into
      chunks yields the verdict of the whole input, and, if that is favourable, the same parser state and
      the same parts. */
  lemma {:induction false} ChunkIndependence(s: Snapshot, chunks: seq<string>, boundary: string, callbacks: Callbacks)
    requires Accepting(callbacks) && !s.state.InitialBoundary? && !s.valid && chunks != []
    requires Tame(Plus(s, Flatten(chunks)), boundary, callbacks)
    ensures var (ok, t) := FeedAll(s, chunks, boundary, callbacks);
            var (whole, u) := Feed(s, Flatten(chunks), boundary, callbacks);
            ok == whole && (ok ==> Same(t, u))
    decreases |chunks|
  {
    var c, d := chunks[0], Flatten(chunks[1..]);
    PlusPlus(s, c, d);
    RunPlus(Plus(s, c), d, boundary, callbacks);
    var (ok, t) := Feed(s, c, boundary, callbacks);
    if chunks[1..] == [] {
      assert Plus(s, c + d) == Plus(s, c);
    } else if ok && t.valid {
      FeedNothing(t, chunks[1..], boundary, callbacks);
      assert Plus(Plus(s, c), "") == Plus(s, c);
    } else if ok {
      ChunkIndependence(t, chunks[1..], boundary, callbacks);
    }
  }

  lemma {:induction false} FeedNothing(s: Snapshot, chunks: seq<string>, boundary: string, callbacks: Callbacks)
    requires s.rest == "" && Flatten(chunks) == ""
    ensures FeedAll(s, chunks, boundary, callbacks) == (true, s)
  {
    if chunks != [] {
      assert chunks[0] == "";
      FeedNothing(s, chunks[1..], boundary, callbacks);
    }
  }

  // ---------- exact streaming of a body ----------

  function Bytes(log: seq<Event>, from: nat): string
    requires from <= |log|
    decreases |log| - from
  {
    if from == |log| then ""
    else (match log[from] case Header(_) => "" case Content(data) => data) + Bytes(log, from + 1)
  }

  lemma {:induction false} BytesSnoc(log: seq<Event>, data: string, from: nat)
    requires from <= |log|
    ensures Bytes(log + [Content(data)], from) == Bytes(log, from) + data
    decreases |log| - from
  {
    if from < |log| {
      BytesSnoc(log, data, from + 1);
    }
  }

  function Min(a: nat, b: nat): nat {
    if a < b then a else b
  }

  /** `t` is `s` after body bytes only: those handed out and those held back make up `input`, and what is held
      back is as long as the delimiter, or all there is. */
  predicate Streamed(s: Snapshot, t: Snapshot, input: string, boundary: string) {
    && t.state.Body? && |s.log| <= |t.log| && t.log[..|s.log|] == s.log
    && Bytes(t.log, |s.log|) + t.rest == input
    && |t.rest| == Min(|input|, |Delimiter(boundary)|)
  }

  /** As long as the delimiter has not arrived, one more chunk is streamed. */
  lemma BodyHolds(s: Snapshot, c: string, boundary: string, callbacks: Callbacks)
    requires Accepting(callbacks) && s.state.Body? && !Contains(s.rest + c, Delimiter(boundary))
    ensures var (ok, t) := Feed(s, c, boundary, callbacks);
            ok && Streamed(s, t, s.rest + c, boundary) && t.(rest := "", log := []) == s.(rest := "", log := [])
  {
    var u := Plus(s, c);
    var delim := Delimiter(boundary);
    FindContains(u.rest, delim);
    var n := |u.rest| - |delim|;
    assert u.rest != "" ==> Run(u, boundary, callbacks) == (true, ReadBody(u, delim, callbacks).next);
    if n > 0 {
      BytesSnoc(s.log, u.rest[..n], |s.log|);
      assert u.rest[..n] + u.rest[n..] == u.rest;
    }
  }

  lemma StreamedTrans(s: Snapshot, t: Snapshot, u: Snapshot, input: string, d: string, boundary: string)
    requires Streamed(s, t, input, boundary) && Streamed(t, u, t.rest + d, boundary)
    ensures Streamed(s, u, input + d, boundary)
  {
    BytesJoin(u.log, |s.log|, |t.log|);
    BytesPrefix(t.log, u.log, |s.log|);
    var a := Bytes(t.log, |s.log|);
    assert u.log[..|s.log|] == u.log[..|t.log|][..|s.log|];
    hide Bytes, Delimiter;
    Associative(a, Bytes(u.log, |t.log|), u.rest);
    Associative(a, t.rest, d);
  }

  lemma BodyChunk(s: Snapshot, c: string, d: string, boundary: string, callbacks: Callbacks)
    requires Accepting(callbacks) && s.state.Body? && !Contains(s.rest + c + d, Delimiter(boundary))
    ensures var (ok, t) := Feed(s, c, boundary, callbacks);
            ok && Streamed(s, t, s.rest + c, boundary) && !Contains(t.rest + d, Delimiter(boundary))
  {
    var delim := Delimiter(boundary);
    NoneInPrefix(s.rest + c, d, delim);
    BodyHolds(s, c, boundary, callbacks);
    var t := Feed(s, c, boundary, callbacks).1;
    var given := Bytes(t.log, |s.log|);
    assert given + (t.rest + d) == s.rest + c + d;
    NoneInSuffix(given, t.rest + d, delim);
  }

  /** Body streaming is exact while the delimiter is outstanding, for every input and every chunking. */
  lemma {:induction false} BodyStreams(s: Snapshot, chunks: seq<string>, boundary: string, callbacks: Callbacks)
    requires Accepting(callbacks) && s.state.Body? && |s.rest| <= |Delimiter(boundary)|
    requires !Contains(s.rest + Flatten(chunks), Delimiter(boundary))
    ensures var (ok, t) := FeedAll(s, chunks, boundary, callbacks);
            ok && Streamed(s, t, s.rest + Flatten(chunks), boundary)
    decreases |chunks|
  {
    if chunks == [] {
      assert s.rest + "" == s.rest;
    } else {
      var c, d := chunks[0], Flatten(chunks[1..]);
      assert s.rest + Flatten(chunks) == s.rest + c + d;
      BodyChunk(s, c, d, boundary, callbacks);
      var t := Feed(s, c, boundary, callbacks).1;
      BodyStreams(t, chunks[1..], boundary, callbacks);
      StreamedTrans(s, t, FeedAll(t, chunks[1..], boundary, callbacks).1, s.rest + c, d, boundary);
    }
  }

  lemma NoneInPrefix(a: string, b: string, pat: string)
    requires !Contains(a + b, pat)
    ensures !Contains(a, pat)
  {
    forall i ensures !OccursAt(a, pat, i) {
      if 0 <= i && i + |pat| <= |a| {
        OccursExtend(a, b, pat, i);
      }
    }
  }

  lemma NoneInSuffix(a: string, b: string, pat: string)
    requires !Contains(a + b, pat)
    ensures !Contains(b, pat)
  {
    forall i ensures !OccursAt(b, pat, i) {
      if 0 <= i && i + |pat| <= |b| {
        assert (a + b)[|a| + i..|a| + i + |pat|] == b[i..i + |pat|];
        assert !OccursAt(a + b, pat, |a| + i);
      }
    }
  }

  /** Bytes of the events from `from` up to `to`. */
  function BytesBetween(log: seq<Event>, from: nat, to: nat): string
    requires from <= to <= |log|
  {
    Bytes(log[..to], from)
  }

  lemma {:induction false} BytesJoin(log: seq<Event>, from: nat, mid: nat)
    requires from <= mid <= |log|
    ensures Bytes(log, from) == BytesBetween(log, from, mid) + Bytes(log, mid)
    decreases mid - from
  {
    if from < mid {
      BytesJoin(log, from + 1, mid);
    }
  }

  lemma BytesPrefix(log: seq<Event>, longer: seq<Event>, from: nat)
    requires from <= |log| <= |longer| && longer[..|log|] == log
    ensures BytesBetween(longer, from, |log|) == Bytes(log, from)
  {
  }

  /** No delimiter begins in the bytes handed out, even one that a later chunk completes. */
  lemma GivenIsClear(s: Snapshot, t: Snapshot, input: string, c: string, boundary: string)
    requires Streamed(s, t, input, boundary) && !Contains(input, Delimiter(boundary))
    ensures var given := Bytes(t.log, |s.log|);
            && input + c == given + (t.rest + c)
            && Find(input + c, Delimiter(boundary)) == |given| + Find(t.rest + c, Delimiter(boundary))
  {
    var given, delim := Bytes(t.log, |s.log|), Delimiter(boundary);
    var w := input + c;
    assert w == given + (t.rest + c) && w[|given|..] == t.rest + c;
    forall i | 0 <= i < |given| ensures !OccursAt(w, delim, i) {
      OccursExtend(input, c, delim, i);
    }
    FindDrop(w, delim, |given|);
  }

  /** `next` is `s` after handing out all of `body`, with `rest` behind the delimiter. */
  predicate Completed(s: Snapshot, next: Snapshot, body: string, rest: string) {
    && next.state.Boundary? && |s.log| <= |next.log| && next.log[..|s.log|] == s.log
    && Bytes(next.log, |s.log|) == body && next.rest == rest
  }

  /** The state behind a delimiter of length `n` found at `p`. */
  function AtDelimiter(t: Snapshot, p: nat, n: nat): Snapshot
    requires p + n <= |t.rest|
  {
    t.(state := Boundary, log := t.log + [Content(t.rest[..p])], rest := t.rest[p + n..])
  }

  lemma FoundStep(t: Snapshot, boundary: string, callbacks: Callbacks)
    requires Accepting(callbacks) && t.state.Body? && Find(t.rest, Delimiter(boundary)) < |t.rest|
    ensures Step(t, boundary, callbacks)
         == Continue(AtDelimiter(t, Find(t.rest, Delimiter(boundary)), |Delimiter(boundary)|))
  {
  }

  lemma CompletesAt(s: Snapshot, t: Snapshot, w: string, p: nat, n: nat)
    requires |s.log| <= |t.log| && t.log[..|s.log|] == s.log && p + n <= |t.rest|
    requires w == Bytes(t.log, |s.log|) + t.rest
    ensures var at := |w| - |t.rest| + p; Completed(s, AtDelimiter(t, p, n), w[..at], w[at + n..])
  {
    BytesSnoc(t.log, t.rest[..p], |s.log|);
  }

  /** The step on `t` and the chunk `c` consumes the first delimiter of `w`, and with it all bytes of `w` in front of
      that have been handed out since `s`, and nothing else. */
  predicate StreamsOut(s: Snapshot, t: Snapshot, c: string, w: string, boundary: string, callbacks: Callbacks) {
    var pos := Find(w, Delimiter(boundary));
    var o := Step(Plus(t, c), boundary, callbacks);
    && pos + |Delimiter(boundary)| <= |w| && o.Continue?
    && Completed(s, o.next, w[..pos], w[pos + |Delimiter(boundary)|..])
  }

  lemma LastChunk(s: Snapshot, t: Snapshot, input: string, c: string, boundary: string, callbacks: Callbacks)
    requires Accepting(callbacks) && Streamed(s, t, input, boundary)
    requires !Contains(input, Delimiter(boundary)) && Contains(input + c, Delimiter(boundary))
    ensures StreamsOut(s, t, c, input + c, boundary, callbacks)
  {
    GivenIsClear(s, t, input, c, boundary);
    FindContains(input + c, Delimiter(boundary));
    hide Step, Contains, Bytes, Completed, AtDelimiter, OccursAt;
    var u := Plus(t, c);
    FoundStep(u, boundary, callbacks);
    CompletesAt(s, u, input + c, Find(u.rest, Delimiter(boundary)), |Delimiter(boundary)|);
  }

  /** Body streaming is exact. However the body and its delimiter were cut into chunks, the step that consumes
      the delimiter has completed the bytes handed out to all of the body and nothing else, and what comes
      behind the delimiter is left. */
  lemma BodyCompletes(s: Snapshot, chunks: seq<string>, c: string, boundary: string, callbacks: Callbacks)
    requires Accepting(callbacks) && s.state.Body? && |s.rest| <= |Delimiter(boundary)|
    requires !Contains(s.rest + Flatten(chunks), Delimiter(boundary))
    requires Contains(s.rest + Flatten(chunks) + c, Delimiter(boundary))
    ensures var (ok, t) := FeedAll(s, chunks, boundary, callbacks);
            ok && StreamsOut(s, t, c, s.rest + Flatten(chunks) + c, boundary, callbacks)
  {
    BodyStreams(s, chunks, boundary, callbacks);
    hide StreamsOut, FeedAll;
    LastChunk(s, FeedAll(s, chunks, boundary, callbacks).1, s.rest + Flatten(chunks), c, boundary, callbacks);
  }
}
