/** The incremental multipart form parser, with its sliding buffer updated in place. */
module MultipartParser {
  import opened Text
  import opened MultipartSpec

  class Parser {
    const boundary: string
    const openingLine: string
    const delimiter: string

    var state: State
    var valid: bool
    var file: FileInfo

    var buf: string
    var spos: nat
    var epos: nat

    /** What the callbacks have been told so far; their answers may depend on it. */
    var log: seq<Event>

    ghost predicate Valid()
      reads this
    {
      spos <= epos <= |buf| && openingLine == OpeningLine(boundary) && delimiter == Delimiter(boundary)
    }

    /** The bytes received and not yet consumed. */
    ghost function Unread(): string
      requires Valid()
      reads this
    {
      buf[spos..epos]
    }

    ghost function Abs(): Snapshot
      requires Valid()
      reads this
    {
      Snapshot(state, valid, file, Unread(), log)
    }

    constructor (boundary: string)
      ensures Valid() && this.boundary == boundary && Abs() == START
    {
      this.boundary := boundary;
      openingLine := DASH + boundary + CRLF;
      delimiter := CRLF + DASH + boundary;
      state, valid, file := InitialBoundary, false, NO_FILE;
      buf, spos, epos := "", 0, 0;
      log := [];
    }

    // ---------- the buffer ----------

    function BufSize(): nat
      requires spos <= epos
      reads this
    {
      epos - spos
    }

    /** Whether `pat` occurs in the buffer at absolute position `at`. */
    method StartsWith(at: nat, pat: string) returns (r: bool)
      requires Valid() && spos <= at <= epos
      ensures r == OccursAt(Unread(), pat, at - spos)
    {
      if epos - at < |pat| {
        return false;
      }
      ghost var u := Unread();
      for i := 0 to |pat|
        invariant forall k :: 0 <= k < i ==> buf[at + k] == pat[k]
      {
        assert u[at - spos..at - spos + |pat|][i] == buf[at + i];
        if buf[at + i] != pat[i] {
          return false;
        }
      }
      forall k | 0 <= k < |pat| ensures u[at - spos..at - spos + |pat|][k] == pat[k] {
        assert u[at - spos..at - spos + |pat|][k] == buf[at + k];
      }
      return true;
    }

    method NextByte(from: nat, c: char) returns (pos: nat)
      requires Valid() && from <= epos
      ensures from <= pos <= epos && forall k :: from <= k < pos ==> buf[k] != c
      ensures pos < epos ==> buf[pos] == c
    {
      pos := from;
      while true
        invariant from <= pos <= epos && forall k :: from <= k < pos ==> buf[k] != c
        decreases epos - pos
      {
        if pos == epos || buf[pos] == c {
          return;
        }
        pos := pos + 1;
      }
    }

    lemma NoMatchBefore(pat: string, from: nat, pos: nat)
      requires Valid() && spos <= from <= pos <= epos && |pat| > 0
      requires forall k :: from <= k < pos ==> buf[k] != pat[0]
      ensures forall i :: from - spos <= i < pos - spos ==> !OccursAt(Unread(), pat, i)
    {
      var u := Unread();
      forall i | from - spos <= i < pos - spos ensures !OccursAt(u, pat, i) {
        assert u[i] == buf[spos + i];
        if i + |pat| <= |u| {
          assert u[i..i + |pat|][0] == u[i];
        }
      }
    }

    method Find(pat: string) returns (r: nat)
      requires Valid() && |pat| > 0
      ensures r == Text.Find(Unread(), pat)
    {
      ghost var u := Unread();
      var off := spos;
      while off < epos
        invariant spos <= off <= epos
        invariant forall i :: 0 <= i < off - spos ==> !OccursAt(u, pat, i)
      {
        var pos := NextByte(off, pat[0]);
        NoMatchBefore(pat, off, pos);
        if pos == epos {
          return BufSize();
        }
        var remaining := epos - pos;
        if |pat| > remaining {
          return BufSize();
        }
        var here := StartsWith(pos, pat);
        if here {
          FindUnique(u, pat, pos - spos);
          return pos - spos;
        }
        off := pos + 1;
      }
      return BufSize();
    }

    method Erase(n: nat)
      requires Valid() && n <= BufSize()
      modifies `spos
      ensures Valid() && Unread() == old(Unread())[n..]
    {
      spos := spos + n;
    }

    /** Moves the unread bytes to the front of the buffer and puts the new ones behind them. */
    method Append(data: string)
      requires Valid()
      modifies `buf, `spos, `epos
      ensures Valid() && Unread() == old(Unread()) + data
    {
      ghost var u := Unread();
      var remaining := BufSize();
      if remaining > 0 && spos > 0 {
        for i := 0 to remaining
          invariant spos == old(spos) && epos == old(epos) && |buf| == |old(buf)|
          invariant forall k :: 0 <= k < i ==> buf[k] == u[k]
          invariant forall k :: i <= k < remaining ==> buf[spos + k] == u[k]
        {
          buf := buf[i := buf[spos + i]];
        }
      }
      assert forall k :: 0 <= k < remaining ==> buf[k] == u[k];
      spos := 0;
      epos := remaining;
      if remaining + |data| > |buf| {
        buf := buf + seq(remaining + |data| - |buf|, _ => 0 as char);
      }
      for i := 0 to |data|
        invariant spos == 0 && epos == remaining && |buf| >= remaining + |data|
        invariant forall k :: 0 <= k < remaining ==> buf[k] == u[k]
        invariant forall k :: 0 <= k < i ==> buf[remaining + k] == data[k]
      {
        buf := buf[epos + i := data[i]];
      }
      epos := epos + |data|;
      assert Unread() == u + data;
    }

    // ---------- one turn of the loop ----------

    method FinishHeaders(callbacks: Callbacks) returns (go: bool)
      requires Valid() && 2 <= BufSize()
      modifies this
      ensures Valid()
      ensures EndHeaders(old(Abs()), callbacks) == if go then Continue(Abs()) else Return(false, Abs())
    {
      log := log + [Header(file)];
      if !callbacks(log) {
        valid := false;
        return false;
      }
      Erase(2);
      state := Body;
      return true;
    }

    method TakeHeaderLine(pos: nat) returns (accepted: bool)
      requires Valid() && pos + 2 <= BufSize()
      modifies this
      ensures Valid() && (accepted, Abs()) == TakeLine(old(Abs()), pos)
      ensures state == old(state)
    {
      var header := buf[spos..spos + pos];
      assert header == Unread()[..pos];
      var (ok, info) := ApplyHeader(header, file);
      accepted, file := ok, info;
      if accepted {
        Erase(pos + 2);
      } else {
        valid := false;
      }
    }

    /** State 2: one header line after another, up to the blank line. */
    method ReadHeaderLines(first: nat, callbacks: Callbacks) returns (go: bool, ok: bool)
      requires Valid() && state.Headers? && first == Text.Find(Unread(), CRLF)
      modifies this
      ensures Valid()
      ensures ReadHeaders(old(Abs()), callbacks) == if go then Continue(Abs()) else Return(ok, Abs())
    {
      ghost var want := ReadHeaders(Abs(), callbacks);
      var pos := first;
      while pos < BufSize()
        invariant Valid() && state.Headers? && pos == Text.Find(Unread(), CRLF)
        invariant ReadHeaders(Abs(), callbacks) == want
        decreases BufSize()
      {
        if pos == 0 {
          go := FinishHeaders(callbacks);
          return go, go;
        }
        var accepted := TakeHeaderLine(pos);
        if !accepted {
          return false, false;
        }
        pos := Find(CRLF);
      }
      return false, true;
    }

    method SkipToOpening()
      requires Valid()
      modifies `spos
      ensures Valid() && Abs() == SkipTo(old(Abs()), openingLine)
    {
      var n := Find(openingLine);
      Erase(n);
    }

    method ConsumeOpening() returns (go: bool, ok: bool)
      requires Valid()
      modifies `spos, `state
      ensures Valid()
      ensures TakeOpening(old(Abs()), openingLine) == if go then Continue(Abs()) else Return(ok, Abs())
    {
      if |openingLine| > BufSize() {
        return false, true;
      }
      assert Unread()[0..|openingLine|] == Unread()[..|openingLine|];
      var here := StartsWith(spos, openingLine);
      if !here {
        return false, false;
      }
      Erase(|openingLine|);
      state := NewEntry;
      return true, true;
    }

    /** State 0: drop everything up to the opening line and consume that. */
    method ReadInitialBoundary() returns (go: bool, ok: bool)
      requires Valid() && state.InitialBoundary?
      modifies `spos, `state
      ensures Valid()
      ensures ReadOpening(old(Abs()), openingLine) == if go then Continue(Abs()) else Return(ok, Abs())
    {
      SkipToOpening();
      go, ok := ConsumeOpening();
    }

    method DeliverBytes(len: nat, used: nat, then_: State, callbacks: Callbacks) returns (ok: bool)
      requires Valid() && len <= used <= BufSize()
      modifies this
      ensures Valid() && (ok, Abs()) == Deliver(old(Abs()), len, used, then_, callbacks)
    {
      assert buf[spos..spos + len] == Unread()[..len];
      log := log + [Content(buf[spos..spos + len])];
      ok := callbacks(log);
      if ok {
        Erase(used);
        state := then_;
      } else {
        valid := false;
      }
    }

    method ReadBodyBytes(callbacks: Callbacks) returns (go: bool, ok: bool)
      requires Valid() && state.Body?
      modifies this
      ensures Valid()
      ensures ReadBody(old(Abs()), Delimiter(boundary), callbacks) == if go then Continue(Abs()) else Return(ok, Abs())
    {
      if |delimiter| > BufSize() {
        return false, true;
      }
      var pos := Find(delimiter);
      if pos < BufSize() {
        go := DeliverBytes(pos, pos + |delimiter|, Boundary, callbacks);
        return go, go;
      }
      var len := BufSize() - |delimiter|;
      ok := true;
      if len > 0 {
        ok := DeliverBytes(len, len, Body, callbacks);
      }
      return false, ok;
    }

    method ReadBoundaryBytes() returns (go: bool, ok: bool)
      requires Valid() && state.Boundary?
      modifies this
      ensures Valid()
      ensures ReadBoundary(old(Abs())) == if go then Continue(Abs()) else Return(ok, Abs())
    {
      if 2 > BufSize() {
        return false, true;
      }
      var crlf := StartsWith(spos, CRLF);
      if crlf {
        Erase(2);
        state := NewEntry;
        return true, true;
      }
      var dash := StartsWith(spos, DASH);
      if dash {
        Erase(2);
        valid := true;
        Erase(BufSize());
        return true, true;
      }
      return false, true;
    }

    method Turn(callbacks: Callbacks) returns (go: bool, ok: bool)
      requires Valid()
      modifies this
      ensures Valid()
      ensures Step(old(Abs()), boundary, callbacks) == if go then Continue(Abs()) else Return(ok, Abs())
    {
      match state
      case InitialBoundary =>
        go, ok := ReadInitialBoundary();
      case NewEntry =>
        file := NO_FILE;
        state := Headers;
        go, ok := true, true;
      case Headers =>
        var pos := Find(CRLF);
        if pos > HEADER_MAX_LENGTH {
          return false, false;
        }
        go, ok := ReadHeaderLines(pos, callbacks);
      case Body =>
        go, ok := ReadBodyBytes(callbacks);
      case Boundary =>
        go, ok := ReadBoundaryBytes();
    }

    /** `parse`: takes in a chunk, runs the callbacks it completes and keeps the rest for later. */
    method Parse(chunk: string, callbacks: Callbacks) returns (ok: bool)
      requires Valid()
      modifies this
      ensures Valid() && (ok, Abs()) == Feed(old(Abs()), chunk, boundary, callbacks)
    {
      Append(chunk);
      ghost var want := Run(Abs(), boundary, callbacks);
      while BufSize() > 0
        invariant Valid() && Run(Abs(), boundary, callbacks) == want
        decreases BufSize(), if state.NewEntry? then 1 else 0
      {
        var go, verdict := Turn(callbacks);
        if !go {
          return verdict;
        }
      }
      return true;
    }
  }
}
