/** The client's socket, shared by any number of threads that send requests or stop the client.
    `request_mutex_` (recursive) is held for a whole `send`, `socket_mutex_` only inside one critical section;
    each critical section is one step here. */
module ClientSocket {

  import opened Text

  type Thread = nat

  datatype Sock = Invalid | Live | ShutDown

  /** Where a call of `send` stands: before `send_` has counted itself in, between that and its scope exit,
      or behind its scope exit. */
  datatype Phase = Entering | InFlight | Left(ok: bool)

  datatype Frame = Frame(thread: Thread, phase: Phase, second: bool)

  /** `frames` lists the calls of `send` of all threads in the order they began. `failed` records a violated
      assertion, `foreignClose` that a socket was closed under another thread's request. */
  datatype State = State(
    sock: Sock,
    requestsInFlight: int,
    fromThread: Option<Thread>,
    closeWhenDone: bool,
    lockOwner: Option<Thread>,
    lockDepth: nat,
    frames: seq<Frame>,
    failed: bool,
    foreignClose: bool)

  const START := State(Invalid, 0, None, false, None, 0, [], false, false)

  datatype Event =
    | Lock(t: Thread)
    | Enter(t: Thread, alive: bool, connected: bool)
    | CloseEarly(t: Thread)
    | Leave(t: Thread, ok: bool, closeConnection: bool)
    | Retry(t: Thread)
    | Unlock(t: Thread)
    | Stop(t: Thread)

  // ---------- shared helpers of the critical sections ----------

  function Assert(s: State, cond: bool): State {
    s.(failed := s.failed || !cond)
  }

  predicate MayTouch(s: State, t: Thread) {
    s.requestsInFlight == 0 || s.fromThread == Some(t)
  }

  predicate ForeignRequest(s: State, t: Thread) {
    exists i :: 0 <= i < |s.frames| && s.frames[i].phase.InFlight? && s.frames[i].thread != t
  }

  function ShutdownSsl(s: State, t: Thread): State {
    Assert(s, MayTouch(s, t))
  }

  function ShutdownSocket(s: State): State {
    if s.sock == Invalid then s else s.(sock := ShutDown)
  }

  function CloseSocket(s: State, t: Thread): State {
    var a := Assert(s, MayTouch(s, t));
    if a.sock == Invalid then a
    else a.(sock := Invalid, foreignClose := a.foreignClose || ForeignRequest(a, t))
  }

  function CloseAll(s: State, t: Thread): State {
    CloseSocket(ShutdownSocket(ShutdownSsl(s, t)), t)
  }

  // ---------- the steps ----------

  /** Index of the innermost call of `t`, or `|s.frames|`. */
  function TopFrom(frames: seq<Frame>, t: Thread, n: nat): (i: nat)
    requires n <= |frames|
    ensures i < n || i == |frames|
    ensures i < n ==> frames[i].thread == t && forall j :: i < j < n ==> frames[j].thread != t
    ensures i == |frames| ==> forall j :: 0 <= j < n ==> frames[j].thread != t
  {
    if n == 0 then |frames|
    else if frames[n - 1].thread == t then n - 1
    else TopFrom(frames, t, n - 1)
  }

  function Top(s: State, t: Thread): nat {
    TopFrom(s.frames, t, |s.frames|)
  }

  /** Phase of the innermost call of `t`. */
  function TopPhase(s: State, t: Thread): Option<Phase> {
    if Top(s, t) < |s.frames| then Some(s.frames[Top(s, t)].phase) else None
  }

  predicate HasLeft(p: Option<Phase>) {
    p.Some? && p.value.Left?
  }

  /** A thread starts a `send` when it has none going, or from within the one it has in flight (a redirect or
      an authentication round); taking the recursive mutex needs it free or already owned. */
  predicate Enabled(s: State, e: Event) {
    match e
    case Lock(t) =>
      (s.lockOwner == None || s.lockOwner == Some(t))
      && (TopPhase(s, t) == None || TopPhase(s, t) == Some(InFlight))
    case Enter(t, _, _) => TopPhase(s, t) == Some(Entering)
    case CloseEarly(t) => TopPhase(s, t) == Some(InFlight)
    case Leave(t, _, _) => TopPhase(s, t) == Some(InFlight)
    case Retry(t) => TopPhase(s, t) == Some(Left(false)) && !s.frames[Top(s, t)].second
    case Unlock(t) => HasLeft(TopPhase(s, t))
    case Stop(t) => true
  }

  function SetPhase(s: State, t: Thread, p: Phase): State {
    var i := Top(s, t);
    if i < |s.frames| then s.(frames := s.frames[i := s.frames[i].(phase := p)]) else s
  }

  function DoLock(s: State, t: Thread): State {
    s.(lockOwner := Some(t), lockDepth := s.lockDepth + 1, frames := s.frames + [Frame(t, Entering, false)])
  }

  function DoUnlock(s: State, t: Thread): State {
    var i := Top(s, t);
    var depth := if s.lockDepth > 0 then s.lockDepth - 1 else 0;
    if i < |s.frames| then
      s.(frames := s.frames[..i] + s.frames[i + 1..], lockDepth := depth,
         lockOwner := if depth == 0 then None else s.lockOwner)
    else s
  }

  function CountIn(s: State, t: Thread): State {
    var s1 := if s.requestsInFlight > 1 then Assert(s, s.fromThread == Some(t)) else s;
    SetPhase(s1.(requestsInFlight := s1.requestsInFlight + 1, fromThread := Some(t)), t, InFlight)
  }

  /** First critical section of `send_`: replace a dead socket, then count the request in. */
  function DoEnter(s: State, t: Thread, alive: bool, connected: bool): State {
    var s0 := s.(closeWhenDone := false);
    var isAlive := s0.sock != Invalid && alive;
    var s1 := if s0.sock != Invalid && !isAlive then CloseAll(s0, t) else s0;
    if !isAlive && !connected then SetPhase(s1, t, Left(false))
    else
      CountIn(if isAlive then s1 else s1.(sock := Live), t)
  }

  function CountOut(s: State, t: Thread, ok: bool): State {
    var s1 := SetPhase(s, t, Left(ok)).(requestsInFlight := s.requestsInFlight - 1);
    if s1.requestsInFlight <= 0 then Assert(s1, s1.requestsInFlight == 0).(fromThread := None) else s1
  }

  /** The scope exit of `send_`. */
  function DoLeave(s: State, t: Thread, ok: bool, closeConnection: bool): State {
    var s1 := CountOut(s, t, ok);
    if s1.closeWhenDone || closeConnection || !ok then CloseAll(s1, t) else s1
  }

  function DoRetry(s: State, t: Thread): State {
    var i := Top(s, t);
    if i < |s.frames| then s.(frames := s.frames[i := Frame(t, Entering, true)]) else s
  }

  function DoStop(s: State, t: Thread): State {
    if s.requestsInFlight > 0 then ShutdownSocket(s).(closeWhenDone := true) else CloseAll(s, t)
  }

  function Step(s: State, e: Event): State {
    match e
    case Lock(t) => DoLock(s, t)
    case Enter(t, alive, connected) => DoEnter(s, t, alive, connected)
    case CloseEarly(t) => CloseAll(s, t)
    case Leave(t, ok, closeConnection) => DoLeave(s, t, ok, closeConnection)
    case Retry(t) => DoRetry(s, t)
    case Unlock(t) => DoUnlock(s, t)
    case Stop(t) => DoStop(s, t)
  }

  // ---------- runs ----------

  function Exec(s: State, run: seq<Event>): State
    decreases |run|
  {
    if run == [] then s else Step(Exec(s, run[..|run| - 1]), run[|run| - 1])
  }

  /** Every event of the run is enabled where it happens. */
  predicate Legal(s: State, run: seq<Event>)
    decreases |run|
  {
    run != [] ==>
      Legal(s, run[..|run| - 1]) && Enabled(Exec(s, run[..|run| - 1]), run[|run| - 1])
  }

  // ---------- the invariant ----------

  function Open(frames: seq<Frame>): nat {
    if frames == [] then 0
    else Open(frames[..|frames| - 1]) + if frames[|frames| - 1].phase.InFlight? then 1 else 0
  }

  /** All calls belong to the owner of the request mutex, which it holds once per call; all but the innermost
      are in flight; the counters describe them; nothing has gone wrong. */
  ghost predicate Inv(s: State) {
    && s.lockDepth == |s.frames|
    && (s.lockOwner == None <==> s.frames == [])
    && (forall i :: 0 <= i < |s.frames| ==> s.lockOwner == Some(s.frames[i].thread))
    && (forall i :: 0 <= i < |s.frames| - 1 ==> s.frames[i].phase.InFlight?)
    && s.requestsInFlight == Open(s.frames)
    && s.fromThread == (if s.requestsInFlight > 0 then s.lockOwner else None)
    && (s.closeWhenDone && s.requestsInFlight == 0 ==> s.sock == Invalid)
    && !s.failed && !s.foreignClose
  }

  lemma OpenTop(frames: seq<Frame>, f: Frame)
    ensures Open(frames + [f]) == Open(frames) + if f.phase.InFlight? then 1 else 0
  {
    assert (frames + [f])[..|frames|] == frames;
  }

  lemma {:induction false} OpenNone(frames: seq<Frame>, i: nat)
    requires i < |frames| && frames[i].phase.InFlight?
    ensures Open(frames) > 0
  {
    if i < |frames| - 1 {
      OpenNone(frames[..|frames| - 1], i);
    }
  }

  /** The innermost call of the owner is the last frame. */
  lemma TopIsLast(s: State, t: Thread)
    requires Inv(s) && Top(s, t) < |s.frames|
    ensures s.lockOwner == Some(t) && Top(s, t) == |s.frames| - 1
  {
  }

  lemma SetLast(s: State, f: Frame) returns (rest: seq<Frame>)
    requires s.frames != []
    ensures rest == s.frames[..|s.frames| - 1]
    ensures s.frames[|s.frames| - 1 := f] == rest + [f] && s.frames == rest + [s.frames[|s.frames| - 1]]
    ensures Open(s.frames[|s.frames| - 1 := f]) == Open(rest) + if f.phase.InFlight? then 1 else 0
  {
    rest := s.frames[..|s.frames| - 1];
    OpenTop(rest, f);
    assert s.frames[|s.frames| - 1 := f] == rest + [f];
  }

  /** Closing is safe for the owner, and for anyone while nothing is in flight. */
  lemma CloseAllKeeps(s: State, t: Thread)
    requires Inv(s) && MayTouch(s, t)
    ensures Inv(CloseAll(s, t)) && CloseAll(s, t) == s.(sock := Invalid)
  {
    if ForeignRequest(ShutdownSocket(s), t) {
      var i :| 0 <= i < |s.frames| && s.frames[i].phase.InFlight? && s.frames[i].thread != t;
      OpenNone(s.frames, i);
      assert false;
    }
  }

  lemma LockKeeps(s: State, t: Thread)
    requires Inv(s) && Enabled(s, Lock(t))
    ensures Inv(DoLock(s, t))
  {
    OpenTop(s.frames, Frame(t, Entering, false));
    if s.frames != [] {
      assert s.frames[0].thread == t;
      TopIsLast(s, t);
    }
  }

  lemma UnlockKeeps(s: State, t: Thread)
    requires Inv(s) && Enabled(s, Unlock(t))
    ensures Inv(DoUnlock(s, t))
  {
    TopIsLast(s, t);
    var n := |s.frames| - 1;
    assert s.frames[..n] + s.frames[n + 1..] == s.frames[..n];
  }

  /** Replacing the innermost call by another of the same thread, neither being in flight. */
  lemma ReplaceKeeps(s: State, f: Frame)
    requires Inv(s) && s.frames != [] && f.thread == s.frames[|s.frames| - 1].thread
    requires !f.phase.InFlight? && !s.frames[|s.frames| - 1].phase.InFlight?
    ensures Inv(s.(frames := s.frames[|s.frames| - 1 := f]))
  {
    var rest := SetLast(s, f);
    OpenTop(rest, s.frames[|s.frames| - 1]);
  }

  lemma RetryKeeps(s: State, t: Thread)
    requires Inv(s) && Enabled(s, Retry(t))
    ensures Inv(DoRetry(s, t))
  {
    TopIsLast(s, t);
    hide TopFrom, Inv, Open;
    ReplaceKeeps(s, Frame(t, Entering, true));
  }

  lemma CountInKeeps(s: State, t: Thread)
    requires Inv(s) && TopPhase(s, t) == Some(Entering) && !s.closeWhenDone
    ensures Inv(CountIn(s, t))
  {
    TopIsLast(s, t);
    var _ := SetLast(s, s.frames[|s.frames| - 1].(phase := InFlight));
  }

  lemma RefuseKeeps(s: State, t: Thread)
    requires Inv(s) && TopPhase(s, t) == Some(Entering)
    ensures Inv(SetPhase(s, t, Left(false)))
  {
    TopIsLast(s, t);
    hide TopFrom, Inv, Open;
    ReplaceKeeps(s, s.frames[|s.frames| - 1].(phase := Left(false)));
  }

  lemma EnterKeeps(s: State, t: Thread, alive: bool, connected: bool)
    requires Inv(s) && Enabled(s, Enter(t, alive, connected))
    ensures Inv(DoEnter(s, t, alive, connected))
  {
    TopIsLast(s, t);
    var s0 := s.(closeWhenDone := false);
    CloseAllKeeps(s0, t);
    var isAlive := s0.sock != Invalid && alive;
    var s1 := if s0.sock != Invalid && !isAlive then CloseAll(s0, t) else s0;
    if !isAlive && !connected {
      RefuseKeeps(s1, t);
    } else {
      CountInKeeps(if isAlive then s1 else s1.(sock := Live), t);
    }
  }

  lemma CountOutKeeps(s: State, t: Thread, ok: bool)
    requires Inv(s) && TopPhase(s, t) == Some(InFlight)
    ensures Inv(CountOut(s, t, ok).(closeWhenDone := false))
    ensures MayTouch(CountOut(s, t, ok), t)
  {
    TopIsLast(s, t);
    var _ := SetLast(s, s.frames[|s.frames| - 1].(phase := Left(ok)));
  }

  lemma LeaveKeeps(s: State, t: Thread, ok: bool, closeConnection: bool)
    requires Inv(s) && Enabled(s, Leave(t, ok, closeConnection))
    ensures Inv(DoLeave(s, t, ok, closeConnection))
  {
    CountOutKeeps(s, t, ok);
    CloseAllKeeps(CountOut(s, t, ok).(closeWhenDone := false), t);
  }

  lemma StopKeeps(s: State, t: Thread)
    requires Inv(s)
    ensures Inv(DoStop(s, t))
  {
    if s.requestsInFlight == 0 {
      CloseAllKeeps(s, t);
    }
  }

  lemma StepKeeps(s: State, e: Event)
    requires Inv(s) && Enabled(s, e)
    ensures Inv(Step(s, e))
  {
    match e
    case Lock(t) => LockKeeps(s, t);
    case Enter(t, alive, connected) => EnterKeeps(s, t, alive, connected);
    case CloseEarly(t) =>
      TopIsLast(s, t);
      OpenNone(s.frames, Top(s, t));
      CloseAllKeeps(s, t);
    case Leave(t, ok, closeConnection) => LeaveKeeps(s, t, ok, closeConnection);
    case Retry(t) => RetryKeeps(s, t);
    case Unlock(t) => UnlockKeeps(s, t);
    case Stop(t) => StopKeeps(s, t);
  }

  lemma {:induction false} InvRun(run: seq<Event>)
    requires Legal(START, run)
    ensures Inv(Exec(START, run))
    decreases |run|
  {
    if run != [] {
      InvRun(run[..|run| - 1]);
      StepKeeps(Exec(START, run[..|run| - 1]), run[|run| - 1]);
    }
  }

  // ---------- main results ----------

  /** Safety in every interleaving of any number of threads: the counter is the number of requests in flight,
      they all belong to the thread recorded and holding the request mutex, no assertion ever fails, and no
      socket is closed under a request of another thread. */
  lemma SafeInEveryRun(run: seq<Event>)
    requires Legal(START, run)
    ensures var s := Exec(START, run);
            && s.requestsInFlight == Open(s.frames)
            && (s.requestsInFlight > 0 ==> s.fromThread == s.lockOwner != None)
            && (forall i :: 0 <= i < |s.frames| && s.frames[i].phase.InFlight? ==>
                  s.fromThread == Some(s.frames[i].thread))
            && !s.failed && !s.foreignClose
  {
    InvRun(run);
    var s := Exec(START, run);
    forall i | 0 <= i < |s.frames| && s.frames[i].phase.InFlight? ensures s.requestsInFlight > 0 {
      OpenNone(s.frames, i);
    }
  }

  /** `stop` during a request only shuts the socket down; otherwise it closes it. */
  lemma StopSpares(run: seq<Event>, t: Thread)
    requires Legal(START, run)
    ensures var s, after := Exec(START, run), DoStop(Exec(START, run), t);
            if exists i :: 0 <= i < |s.frames| && s.frames[i].phase.InFlight?
            then after == s.(closeWhenDone := true, sock := if s.sock == Invalid then Invalid else ShutDown)
            else after == s.(sock := Invalid)
  {
    InvRun(run);
    var s := Exec(START, run);
    if i :| 0 <= i < |s.frames| && s.frames[i].phase.InFlight? {
      OpenNone(s.frames, i);
    } else {
      NoneOpen(s.frames);
      CloseAllKeeps(s, t);
    }
  }

  lemma {:induction false} NoneOpen(frames: seq<Frame>)
    requires forall i :: 0 <= i < |frames| ==> !frames[i].phase.InFlight?
    ensures Open(frames) == 0
  {
    if frames != [] {
      NoneOpen(frames[..|frames| - 1]);
    }
  }

  predicate Entries(run: seq<Event>) {
    exists i :: 0 <= i < |run| && run[i].Enter?
  }

  lemma StepRemembers(s: State, e: Event)
    requires !e.Enter? && (s.closeWhenDone || s.sock == Invalid)
    ensures Step(s, e).closeWhenDone || Step(s, e).sock == Invalid
  {
  }

  lemma {:induction false} StopRemembered(s: State, run: seq<Event>)
    requires Legal(s, run) && !Entries(run) && (s.closeWhenDone || s.sock == Invalid)
    ensures Exec(s, run).closeWhenDone || Exec(s, run).sock == Invalid
    decreases |run|
  {
    if run != [] {
      var init, last := run[..|run| - 1], run[|run| - 1];
      assert forall i :: 0 <= i < |init| ==> init[i] == run[i];
      StopRemembered(s, init);
      StepRemembers(Exec(s, init), last);
    }
  }

  lemma {:induction false} ExecPlus(s: State, a: seq<Event>, b: seq<Event>)
    ensures Exec(s, a + b) == Exec(Exec(s, a), b)
    ensures Legal(s, a + b) ==> Legal(s, a) && Legal(Exec(s, a), b)
    decreases |b|
  {
    if b == [] {
      assert a + b == a;
    } else {
      assert (a + b)[..|a + b| - 1] == a + b[..|b| - 1];
      ExecPlus(s, a, b[..|b| - 1]);
    }
  }

  /** A `stop` leaves the socket closed once nothing is in flight any more, provided no `send_` began since. */
  lemma StopHonoured(before: seq<Event>, t: Thread, later: seq<Event>)
    requires Legal(START, before + [Stop(t)] + later) && !Entries(later)
    ensures var s := Exec(START, before + [Stop(t)] + later);
            Open(s.frames) == 0 ==> s.sock == Invalid
  {
    var run := before + [Stop(t)];
    ExecPlus(START, run, later);
    ExecPlus(START, before, [Stop(t)]);
    assert [Stop(t)][..0] == [];
    StopSpares(before, t);
    assert Exec(START, run) == DoStop(Exec(START, before), t);
    StopRemembered(Exec(START, run), later);
    InvRun(run + later);
  }

  lemma Extend(run: seq<Event>, e: Event)
    requires Legal(START, run) && Enabled(Exec(START, run), e)
    ensures Legal(START, run + [e]) && Exec(START, run + [e]) == Step(Exec(START, run), e)
  {
    assert (run + [e])[..|run|] == run;
  }

  /** The innermost call, being in flight, returns successfully over a connection it keeps. */
  lemma FinishCall(run: seq<Event>) returns (longer: seq<Event>)
    requires Legal(START, run)
    requires var s := Exec(START, run); s.frames != [] && s.frames[|s.frames| - 1].phase.InFlight? && !s.closeWhenDone
    ensures Legal(START, longer) && run <= longer
    ensures var s, after := Exec(START, run), Exec(START, longer);
            && after.frames == s.frames[..|s.frames| - 1]
            && after.sock == s.sock && !after.closeWhenDone
  {
    InvRun(run);
    var s := Exec(START, run);
    var n := |s.frames| - 1;
    var t := s.frames[n].thread;
    Extend(run, Leave(t, true, false));
    longer := run + [Leave(t, true, false)];
    var s1 := Exec(START, longer);
    assert s1.frames == s.frames[n := s.frames[n].(phase := Left(true))];
    Extend(longer, Unlock(t));
    longer := longer + [Unlock(t)];
    assert Exec(START, longer).frames == s1.frames[..n] + s1.frames[n + 1..];
  }

  lemma {:induction false} FinishAll(run: seq<Event>) returns (longer: seq<Event>)
    requires Legal(START, run) && !Exec(START, run).closeWhenDone
    requires var s := Exec(START, run); forall i :: 0 <= i < |s.frames| ==> s.frames[i].phase.InFlight?
    ensures Legal(START, longer) && run <= longer
    ensures Exec(START, longer).frames == [] && Exec(START, longer).sock == Exec(START, run).sock
    decreases |Exec(START, run).frames|
  {
    longer := run;
    if Exec(START, run).frames != [] {
      longer := FinishCall(run);
      longer := FinishAll(longer);
    }
  }

  /** The innermost call, being in flight, sends again and finds the socket dead. */
  lemma Redirect(run: seq<Event>, o: Thread) returns (longer: seq<Event>)
    requires Legal(START, run) && TopPhase(Exec(START, run), o) == Some(InFlight)
    ensures Legal(START, longer) && run <= longer
    ensures var s, after := Exec(START, run), Exec(START, longer);
            && after.frames == s.frames + [Frame(o, InFlight, false)]
            && after.sock == Live && !after.closeWhenDone
  {
    InvRun(run);
    var s := Exec(START, run);
    TopIsLast(s, o);
    Extend(run, Lock(o));
    longer := run + [Lock(o)];
    var s1 := Exec(START, longer);
    assert s1.frames == s.frames + [Frame(o, Entering, false)];
    InvRun(longer);
    CloseAllKeeps(s1.(closeWhenDone := false), o);
    Extend(longer, Enter(o, false, true));
    longer := longer + [Enter(o, false, true)];
    assert Exec(START, longer).frames == s.frames + [Frame(o, InFlight, false)];
  }

  /** The proviso is needed whenever `stop` meets a request in flight: a redirect sent from within that request
      forgets the `stop`, and the connection it makes can stay open when everything is done. */
  lemma StopForgotten(before: seq<Event>, t: Thread, o: Thread) returns (run: seq<Event>)
    requires Legal(START, before) && TopPhase(Exec(START, before), o) == Some(InFlight)
    ensures Legal(START, run) && before + [Stop(t)] <= run
    ensures Exec(START, run).frames == [] && Exec(START, run).sock == Live
  {
    Extend(before, Stop(t));
    StopKeepsCalls(Exec(START, before), t);
    run := Redirect(before + [Stop(t)], o);
    InvRun(run);
    run := FinishAll(run);
  }

  lemma StopKeepsCalls(s: State, t: Thread)
    ensures DoStop(s, t).frames == s.frames
  {
  }

  /** A `stop` came, and no `send_` has begun since. */
  predicate StoppedSinceEntry(run: seq<Event>) {
    exists i :: 0 <= i < |run| && run[i].Stop? && forall j :: i < j < |run| ==> !run[j].Enter?
  }

  lemma StoppedStep(run: seq<Event>)
    requires run != []
    ensures var last := run[|run| - 1];
            StoppedSinceEntry(run) <==>
            last.Stop? || (!last.Enter? && StoppedSinceEntry(run[..|run| - 1]))
  {
    var init := run[..|run| - 1];
    if StoppedSinceEntry(init) && !run[|run| - 1].Enter? {
      var i :| 0 <= i < |init| && init[i].Stop? && forall j :: i < j < |init| ==> !init[j].Enter?;
      assert run[i].Stop? && forall j :: i < j < |run| - 1 ==> run[j] == init[j];
    }
    if StoppedSinceEntry(run) && !run[|run| - 1].Stop? {
      var i :| 0 <= i < |run| && run[i].Stop? && forall j :: i < j < |run| ==> !run[j].Enter?;
      assert init[i].Stop? && forall j :: i < j < |init| ==> init[j] == run[j];
    }
  }

  /** The socket is to be closed behind the requests in flight exactly if `stop` was called since the last of them
      began. */
  lemma {:induction false} CloseWhenDoneIs(run: seq<Event>)
    requires Legal(START, run)
    ensures var s := Exec(START, run);
            && (s.closeWhenDone ==> StoppedSinceEntry(run))
            && (StoppedSinceEntry(run) && s.requestsInFlight > 0 ==> s.closeWhenDone)
    decreases |run|
  {
    if run != [] {
      var init, last := run[..|run| - 1], run[|run| - 1];
      CloseWhenDoneIs(init);
      StoppedStep(run);
      FlagStep(Exec(START, init), last);
    }
  }

  lemma CloseLeaves(s: State, t: Thread)
    ensures var after := CloseAll(s, t);
            && after.closeWhenDone == s.closeWhenDone
            && after.requestsInFlight == s.requestsInFlight
            && after.frames == s.frames
            && after.sock == Invalid
  {
  }

  lemma CountLeaves(s: State, t: Thread, ok: bool)
    ensures CountIn(s, t).closeWhenDone == CountOut(s, t, ok).closeWhenDone == s.closeWhenDone
    ensures CountOut(s, t, ok).requestsInFlight == s.requestsInFlight - 1
    ensures CountIn(s, t).requestsInFlight == s.requestsInFlight + 1
    ensures CountIn(s, t).sock == CountOut(s, t, ok).sock == s.sock
  {
  }

  lemma FlagStep(s: State, e: Event)
    ensures Step(s, e).closeWhenDone <==> !e.Enter? && (s.closeWhenDone || (e.Stop? && s.requestsInFlight > 0))
    ensures !e.Enter? ==> Step(s, e).requestsInFlight <= s.requestsInFlight
  {
    hide TopFrom, CloseAll, CountIn, CountOut;
    match e
    case Lock(_) =>
    case Enter(t, _, _) =>
      var s0 := s.(closeWhenDone := false);
      CloseLeaves(s0, t);
      CountLeaves(s0, t, true);
      CountLeaves(CloseAll(s0, t).(sock := Live), t, true);
      CountLeaves(s0.(sock := Live), t, true);
    case CloseEarly(t) => CloseLeaves(s, t);
    case Leave(t, ok, _) =>
      CountLeaves(s, t, ok);
      CloseLeaves(CountOut(s, t, ok), t);
    case Retry(_) =>
    case Unlock(_) =>
    case Stop(t) => CloseLeaves(s, t);
  }

  /** The end of a request closes the socket exactly if the request failed, if the connection is not to be kept or if
      `stop` was called since the last `send_` began; otherwise the connection stays as it was. */
  lemma LeaveExactly(run: seq<Event>, t: Thread, ok: bool, closeConnection: bool)
    requires Legal(START, run + [Leave(t, ok, closeConnection)])
    ensures var s, after := Exec(START, run), Exec(START, run + [Leave(t, ok, closeConnection)]);
            && after.sock == (if closeConnection || !ok || StoppedSinceEntry(run) then Invalid else s.sock)
            && CallMoves(s, after, t, InFlight, Left(ok))
            && after.requestsInFlight == s.requestsInFlight - 1
  {
    var e := Leave(t, ok, closeConnection);
    ExecLast(run, e);
    InvRun(run);
    CloseWhenDoneIs(run);
    var s := Exec(START, run);
    TopIsLast(s, t);
    OpenNone(s.frames, Top(s, t));
    CountLeaves(s, t, ok);
    CloseLeaves(CountOut(s, t, ok), t);
    CountMoves(s, t, ok);
    hide TopFrom, Inv, StoppedSinceEntry, CallMoves, CountOut, CloseAll;
    assert s.closeWhenDone <==> StoppedSinceEntry(run);
  }

  /** The innermost call, of thread `t`, goes from one phase to another; no other call changes. */
  predicate CallMoves(s: State, after: State, t: Thread, from: Phase, to: Phase) {
    && s.frames != []
    && var f := s.frames[|s.frames| - 1];
       && f.thread == t
       && f.phase == from
       && after.frames == s.frames[|s.frames| - 1 := f.(phase := to)]
  }

  lemma CountMoves(s: State, t: Thread, ok: bool)
    requires Inv(s) && TopPhase(s, t).Some?
    ensures CallMoves(s, CountOut(s, t, ok), t, TopPhase(s, t).value, Left(ok))
    ensures CallMoves(s, CountIn(s, t), t, TopPhase(s, t).value, InFlight)
    ensures CallMoves(s, SetPhase(s, t, Left(ok)), t, TopPhase(s, t).value, Left(ok))
  {
    TopIsLast(s, t);
  }

  lemma ExecLast(run: seq<Event>, e: Event)
    ensures Exec(START, run + [e]) == Step(Exec(START, run), e)
    ensures Legal(START, run + [e]) <==> Legal(START, run) && Enabled(Exec(START, run), e)
  {
    assert (run + [e])[..|run|] == run;
  }

  predicate Enters(s: State, after: State, t: Thread, alive: bool, connected: bool) {
    var kept := s.sock != Invalid && alive;
    && after.sock == (if kept then s.sock else if connected then Live else Invalid)
    && CallMoves(s, after, t, Entering, if kept || connected then InFlight else Left(false))
    && after.requestsInFlight == s.requestsInFlight + (if kept || connected then 1 else 0)
    && !after.closeWhenDone
  }

  lemma EnterIs(s: State, t: Thread, alive: bool, connected: bool)
    requires Inv(s) && TopPhase(s, t) == Some(Entering)
    ensures Enters(s, DoEnter(s, t, alive, connected), t, alive, connected)
  {
    var s0 := s.(closeWhenDone := false);
    CloseAllKeeps(s0, t);
    var isAlive := s0.sock != Invalid && alive;
    var s1 := if s0.sock != Invalid && !isAlive then CloseAll(s0, t) else s0;
    var s2 := if isAlive then s1 else s1.(sock := Live);
    CountMoves(s1, t, false);
    CountMoves(s2, t, false);
    hide TopFrom, Top, Inv, ForeignRequest;
    if !isAlive && !connected {
    } else {
      CountLeaves(s2, t, false);
      hide CountIn;
    }
  }

  /** A `send_` keeps a connection that is alive and makes a new one otherwise; it goes ahead exactly if it then has
      one, and else leaves no socket behind. */
  lemma EnterExactly(run: seq<Event>, t: Thread, alive: bool, connected: bool)
    requires Legal(START, run + [Enter(t, alive, connected)])
    ensures Enters(Exec(START, run), Exec(START, run + [Enter(t, alive, connected)]), t, alive, connected)
  {
    ExecLast(run, Enter(t, alive, connected));
    InvRun(run);
    hide *;
    EnterIs(Exec(START, run), t, alive, connected);
  }

  /** Which calls of `send` there are behind the events that do not belong to a request in flight. */
  predicate CallsFollow(s: State, after: State, e: Event) {
    match e
    case Lock(t) => after.frames == s.frames + [Frame(t, Entering, false)] && after.lockOwner == Some(t)
    case Unlock(t) =>
      && s.frames != []
      && after.frames == s.frames[..|s.frames| - 1]
      && s.frames[|s.frames| - 1].thread == t
      && s.frames[|s.frames| - 1].phase.Left?
    case Retry(t) =>
      && s.frames != []
      && s.frames[|s.frames| - 1] == Frame(t, Left(false), false)
      && after.frames == s.frames[|s.frames| - 1 := Frame(t, Entering, true)]
    case _ => after.frames == s.frames
  }

  /** Only the innermost call begins or ends, the request mutex is free exactly while there is none, and nothing but
      the critical sections of `send_` and `stop` touches the socket. */
  lemma OthersExactly(run: seq<Event>, e: Event)
    requires Legal(START, run + [e]) && !e.Enter? && !e.Leave? && !e.Stop?
    ensures var s, after := Exec(START, run), Exec(START, run + [e]);
            && CallsFollow(s, after, e)
            && (after.lockOwner == None <==> after.frames == [])
            && after.sock == (if e.CloseEarly? then Invalid else s.sock)
            && after.requestsInFlight == s.requestsInFlight
            && after.closeWhenDone == s.closeWhenDone
  {
    ExecLast(run, e);
    InvRun(run);
    InvRun(run + [e]);
    var s := Exec(START, run);
    match e
    case Lock(_) =>
    case Unlock(t) =>
      TopIsLast(s, t);
      var n := |s.frames| - 1;
      assert s.frames[..n] + s.frames[n + 1..] == s.frames[..n];
    case Retry(t) => TopIsLast(s, t);
    case CloseEarly(t) =>
      TopIsLast(s, t);
      OpenNone(s.frames, Top(s, t));
      CloseAllKeeps(s, t);
  }

  lemma OwnerCanMove(s: State, t: Thread)
    requires Inv(s)
    ensures if s.lockOwner == None then Enabled(s, Lock(t))
            else var o := s.lockOwner.value;
              Enabled(s, Enter(o, false, false)) || Enabled(s, Leave(o, false, true)) || Enabled(s, Unlock(o))
  {
  }

  /** No deadlock: the owner's innermost call can always move on, and a free mutex can be taken. */
  lemma NeverStuck(run: seq<Event>, t: Thread)
    requires Legal(START, run)
    ensures var s := Exec(START, run);
            if s.lockOwner == None then Enabled(s, Lock(t))
            else var o := s.lockOwner.value;
              Enabled(s, Enter(o, false, false)) || Enabled(s, Leave(o, false, true)) || Enabled(s, Unlock(o))
  {
    InvRun(run);
    hide *;
    OwnerCanMove(Exec(START, run), t);
  }
}
