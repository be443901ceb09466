/** The parser heeds its callbacks: whatever the input, it goes on exactly as long as they agree. */
module MultipartCallbacks {
  import opened Text
  import opened MultipartSpec
  import opened MultipartChunks

  /** From `s` to `t` every callback but the last has agreed. If the last one refused, the call has failed and the form
      is not valid; if the call has not failed, it agreed as well. */
  predicate Heeds(s: Snapshot, t: Snapshot, ok: bool, callbacks: Callbacks) {
    && s.log <= t.log
    && (forall i :: |s.log| < i < |t.log| ==> callbacks(t.log[..i]))
    && (|s.log| < |t.log| && !callbacks(t.log) ==> !ok && !t.valid)
  }

  lemma HeedsOne(s: Snapshot, t: Snapshot, e: Event, ok: bool, callbacks: Callbacks)
    requires t.log == s.log + [e] && (!callbacks(t.log) ==> !ok && !t.valid)
    ensures Heeds(s, t, ok, callbacks)
  {
  }

  lemma HeedsThen(s: Snapshot, t: Snapshot, u: Snapshot, ok: bool, callbacks: Callbacks)
    requires Heeds(s, t, true, callbacks) && Heeds(t, u, ok, callbacks)
    ensures Heeds(s, u, ok, callbacks)
  {
    forall i | |s.log| < i < |u.log| ensures callbacks(u.log[..i]) {
      if i <= |t.log| {
        assert u.log[..i] == t.log[..i];
        assert t.log[..|t.log|] == t.log;
      }
    }
    if |t.log| == |u.log| {
      assert t.log == u.log;
    }
  }

  lemma {:induction false} HeadersHeed(s: Snapshot, callbacks: Callbacks)
    ensures var o := ReadHeaders(s, callbacks); Heeds(s, o.next, o.Continue? || o.ok, callbacks)
    decreases |s.rest|
  {
    var pos := Find(s.rest, CRLF);
    if pos == |s.rest| {
    } else if pos == 0 {
      HeedsOne(s, EndHeaders(s, callbacks).next, Header(s.file), EndHeaders(s, callbacks).Continue?, callbacks);
    } else {
      var (ok, t) := TakeLine(s, pos);
      if ok {
        HeadersHeed(t, callbacks);
      }
    }
  }

  lemma BodyHeeds(s: Snapshot, delim: string, callbacks: Callbacks)
    requires delim != ""
    ensures var o := ReadBody(s, delim, callbacks); Heeds(s, o.next, o.Continue? || o.ok, callbacks)
  {
    var o := ReadBody(s, delim, callbacks);
    var pos := Find(s.rest, delim);
    if |delim| <= |s.rest| && (pos < |s.rest| || |delim| < |s.rest|) {
      var len := if pos < |s.rest| then pos else |s.rest| - |delim|;
      HeedsOne(s, o.next, Content(s.rest[..len]), o.Continue? || o.ok, callbacks);
    }
  }

  lemma StepHeeds(s: Snapshot, boundary: string, callbacks: Callbacks)
    ensures var o := Step(s, boundary, callbacks); Heeds(s, o.next, o.Continue? || o.ok, callbacks)
  {
    match s.state
    case InitialBoundary =>
    case NewEntry =>
    case Headers => HeadersHeed(s, callbacks);
    case Body => BodyHeeds(s, Delimiter(boundary), callbacks);
    case Boundary =>
  }

  lemma {:induction false} RunHeeds(s: Snapshot, boundary: string, callbacks: Callbacks)
    ensures var (ok, t) := Run(s, boundary, callbacks); Heeds(s, t, ok, callbacks)
    decreases |s.rest|, if s.state.NewEntry? then 1 else 0
  {
    if s.rest != "" {
      StepHeeds(s, boundary, callbacks);
      var o := Step(s, boundary, callbacks);
      if o.Continue? {
        RunHeeds(o.next, boundary, callbacks);
        var (ok, t) := Run(o.next, boundary, callbacks);
        HeedsThen(s, o.next, t, ok, callbacks);
      }
    }
  }

  lemma {:induction false} FeedsHeed(s: Snapshot, chunks: seq<string>, boundary: string, callbacks: Callbacks)
    ensures var (ok, t) := FeedAll(s, chunks, boundary, callbacks); Heeds(s, t, ok, callbacks)
    decreases |chunks|
  {
    if chunks != [] {
      RunHeeds(s.(rest := s.rest + chunks[0]), boundary, callbacks);
      var (ok, t) := Feed(s, chunks[0], boundary, callbacks);
      if ok {
        FeedsHeed(t, chunks[1..], boundary, callbacks);
        var (ok', u) := FeedAll(t, chunks[1..], boundary, callbacks);
        HeedsThen(s, t, u, ok', callbacks);
      }
    }
  }

  /** For every input, every chunking and all callbacks: no callback is made behind one that refused, and if one refused
      the parser has failed and the form is not valid. */
  lemma CallbacksHeeded(chunks: seq<string>, boundary: string, callbacks: Callbacks)
    ensures var (ok, t) := FeedAll(START, chunks, boundary, callbacks);
            && (forall i :: 0 < i < |t.log| ==> callbacks(t.log[..i]))
            && (t.log != [] && !callbacks(t.log) ==> !ok && !t.valid)
  {
    FeedsHeed(START, chunks, boundary, callbacks);
  }
}
