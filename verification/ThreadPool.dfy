/** The server's worker pool: any number of workers and callers around one mutex and one condition variable.
    A step is one critical section, one notification or one job run to its end. */
module ThreadPool {

  type Job = nat

  /** `Ready` is about to take the mutex and look at the queue, `Waiting` sleeps on the condition variable. */
  datatype Worker = Ready | Waiting | Running(job: Job) | Exited

  /** `notices` and `broadcasts` count the calls of `notify_one` and `notify_all` still to be made by callers that
      have left their critical section. The histories `accepted`, `dequeued`, `ran` and `late` (jobs accepted
      when no worker was left) are never read by a step. */
  datatype State = State(
    jobs: seq<Job>,
    shutdown: bool,
    maxQueued: nat,
    workers: seq<Worker>,
    notices: nat,
    broadcasts: nat,
    accepted: seq<Job>,
    dequeued: seq<Job>,
    ran: seq<Job>,
    late: seq<Job>)

  datatype Event =
    | Enqueue(job: Job)
    | NotifyOne(w: nat)
    | NotifyNobody
    | Shutdown
    | NotifyAll
    | SpuriousWake(w: nat)
    | Look(w: nat)
    | Finish(w: nat)

  function Start(n: nat, maxQueued: nat): State {
    State([], false, maxQueued, seq(n, i => Ready), 0, 0, [], [], [], [])
  }

  predicate AllExited(workers: seq<Worker>) {
    forall i :: 0 <= i < |workers| ==> workers[i] == Exited
  }

  predicate NobodyWaits(workers: seq<Worker>) {
    forall i :: 0 <= i < |workers| ==> workers[i] != Waiting
  }

  predicate Full(s: State) {
    s.maxQueued > 0 && |s.jobs| >= s.maxQueued
  }

  // ---------- the steps ----------

  predicate Enabled(s: State, e: Event) {
    match e
    case Enqueue(_) => true
    case NotifyOne(w) => s.notices > 0 && w < |s.workers| && s.workers[w] == Waiting
    case NotifyNobody => s.notices > 0 && NobodyWaits(s.workers)
    case Shutdown => true
    case NotifyAll => s.broadcasts > 0
    case SpuriousWake(w) => w < |s.workers| && s.workers[w] == Waiting
    case Look(w) => w < |s.workers| && s.workers[w] == Ready
    case Finish(w) => w < |s.workers| && s.workers[w].Running?
  }

  function SetWorker(s: State, w: nat, k: Worker): State {
    if w < |s.workers| then s.(workers := s.workers[w := k]) else s
  }

  function DoEnqueue(s: State, job: Job): State {
    if Full(s) then s
    else
      s.(jobs := s.jobs + [job], notices := s.notices + 1, accepted := s.accepted + [job],
         late := if AllExited(s.workers) then s.late + [job] else s.late)
  }

  /** A worker at the head of its loop: sleep, leave, or take the oldest job. */
  function DoLook(s: State, w: nat): State {
    if s.jobs == [] then SetWorker(s, w, if s.shutdown then Exited else Waiting)
    else
      SetWorker(s, w, Running(s.jobs[0])).(jobs := s.jobs[1..], dequeued := s.dequeued + [s.jobs[0]])
  }

  function DoFinish(s: State, w: nat): State {
    if w < |s.workers| && s.workers[w].Running? then SetWorker(s, w, Ready).(ran := s.ran + [s.workers[w].job])
    else s
  }

  function WakeAll(workers: seq<Worker>): (r: seq<Worker>)
    ensures |r| == |workers|
    ensures forall i :: 0 <= i < |workers| ==> r[i] == if workers[i] == Waiting then Ready else workers[i]
  {
    if workers == [] then []
    else
      WakeAll(workers[..|workers| - 1])
      + [if workers[|workers| - 1] == Waiting then Ready else workers[|workers| - 1]]
  }

  function Step(s: State, e: Event): State {
    match e
    case Enqueue(job) => DoEnqueue(s, job)
    case NotifyOne(w) => SetWorker(s, w, Ready).(notices := if s.notices > 0 then s.notices - 1 else 0)
    case NotifyNobody => s.(notices := if s.notices > 0 then s.notices - 1 else 0)
    case Shutdown => s.(shutdown := true, broadcasts := s.broadcasts + 1)
    case NotifyAll =>
      s.(workers := WakeAll(s.workers), broadcasts := if s.broadcasts > 0 then s.broadcasts - 1 else 0)
    case SpuriousWake(w) => SetWorker(s, w, Ready)
    case Look(w) => DoLook(s, w)
    case Finish(w) => DoFinish(s, w)
  }

  // ---------- runs ----------

  function Exec(s: State, run: seq<Event>): State
    decreases |run|
  {
    if run == [] then s else Step(Exec(s, run[..|run| - 1]), run[|run| - 1])
  }

  predicate Legal(s: State, run: seq<Event>)
    decreases |run|
  {
    run != [] ==>
      Legal(s, run[..|run| - 1]) && Enabled(Exec(s, run[..|run| - 1]), run[|run| - 1])
  }

  // ---------- what workers hold ----------

  function HeldBy(k: Worker): multiset<Job> {
    if k.Running? then multiset{k.job} else multiset{}
  }

  /** The jobs being run right now. */
  function Held(workers: seq<Worker>): multiset<Job> {
    if workers == [] then multiset{}
    else Held(workers[..|workers| - 1]) + HeldBy(workers[|workers| - 1])
  }

  function AwakeOne(k: Worker): nat {
    if k == Ready || k.Running? then 1 else 0
  }

  function Awake(workers: seq<Worker>): nat {
    if workers == [] then 0 else Awake(workers[..|workers| - 1]) + AwakeOne(workers[|workers| - 1])
  }

  function Weight(k: Worker): nat {
    match k
    case Exited => 0
    case Ready => 1
    case Waiting => 2
    case Running(_) => 2
  }

  function Weights(workers: seq<Worker>): nat {
    if workers == [] then 0 else Weights(workers[..|workers| - 1]) + Weight(workers[|workers| - 1])
  }

  lemma AddToBoth(a: multiset<Job>, b: multiset<Job>, c: multiset<Job>, d: multiset<Job>, l: multiset<Job>)
    requires a + b == c + d
    ensures a + l + b == c + l + d
  {
    assert a + l + b == a + b + l;
    assert c + l + d == c + d + l;
  }

  /** What changing one worker does to the three sums. */
  lemma {:induction false} SetOne(workers: seq<Worker>, w: nat, k: Worker)
    requires w < |workers|
    ensures Held(workers[w := k]) + HeldBy(workers[w]) == Held(workers) + HeldBy(k)
    ensures Awake(workers[w := k]) + AwakeOne(workers[w]) == Awake(workers) + AwakeOne(k)
    ensures Weights(workers[w := k]) + Weight(workers[w]) == Weights(workers) + Weight(k)
  {
    hide HeldBy, AwakeOne, Weight;
    var n := |workers| - 1;
    var init, after := workers[..n], workers[w := k];
    if w == n {
      assert after[..n] == init;
    } else {
      SetOne(init, w, k);
      assert after[..n] == init[w := k];
      AddToBoth(Held(init[w := k]), HeldBy(workers[w]), Held(init), HeldBy(k), HeldBy(workers[n]));
    }
  }

  lemma {:induction false} WakeAllSums(workers: seq<Worker>)
    ensures Held(WakeAll(workers)) == Held(workers)
    ensures Awake(WakeAll(workers)) >= Awake(workers)
    ensures Weights(WakeAll(workers)) <= Weights(workers)
  {
    if workers != [] {
      var n := |workers| - 1;
      assert WakeAll(workers)[..n] == WakeAll(workers[..n]);
      WakeAllSums(workers[..n]);
    }
  }

  // ---------- the invariant ----------

  /** Jobs leave in the order they came, each dequeued job is running or has run, and the queue keeps its bound;
      no wake-up is lost; workers leave only after shutdown and only past an empty queue. */
  ghost predicate Conserved(s: State) {
    && s.accepted == s.dequeued + s.jobs
    && multiset(s.dequeued) == multiset(s.ran) + Held(s.workers)
    && (s.maxQueued > 0 ==> |s.jobs| <= s.maxQueued)
  }

  ghost predicate WakeUpsKept(s: State) {
    && (NobodyWaits(s.workers) || |s.jobs| <= s.notices + Awake(s.workers))
    && (s.shutdown ==> NobodyWaits(s.workers) || s.broadcasts > 0)
  }

  ghost predicate LateKept(s: State) {
    && (if AllExited(s.workers) then s.jobs == s.late else s.late == [])
    && (forall i :: 0 <= i < |s.workers| && s.workers[i] == Exited ==> s.shutdown)
  }

  lemma TakenIsHeld(d: multiset<Job>, r: multiset<Job>, h: multiset<Job>, held: multiset<Job>, job: multiset<Job>)
    requires d == r + h && held + multiset{} == h + job
    ensures d + job == r + held
  {
    assert held == h + job;
    assert r + h + job == r + (h + job);
  }

  lemma HeldIsRun(d: multiset<Job>, r: multiset<Job>, h: multiset<Job>, held: multiset<Job>, job: multiset<Job>)
    requires d == r + h && held + job == h + multiset{}
    ensures d == r + job + held
  {
    assert h == held + job;
    assert r + job + held == r + (held + job);
  }

  lemma LookConserves(s: State, w: nat)
    requires Conserved(s) && Enabled(s, Look(w))
    ensures Conserved(DoLook(s, w))
  {
    if s.jobs == [] {
      SetOne(s.workers, w, if s.shutdown then Exited else Waiting);
      TakenIsHeld(multiset(s.dequeued), multiset(s.ran), Held(s.workers), Held(DoLook(s, w).workers), multiset{});
    } else {
      var job := s.jobs[0];
      assert [job] + s.jobs[1..] == s.jobs;
      assert s.dequeued + [job] + s.jobs[1..] == s.dequeued + s.jobs;
      SetOne(s.workers, w, Running(job));
      TakenIsHeld(multiset(s.dequeued), multiset(s.ran), Held(s.workers), Held(s.workers[w := Running(job)]),
        multiset{job});
      assert multiset(s.dequeued + [job]) == multiset(s.dequeued) + multiset{job};
    }
  }

  lemma WakeConserves(s: State, w: nat)
    requires Conserved(s) && w < |s.workers| && s.workers[w] == Waiting
    ensures Conserved(SetWorker(s, w, Ready))
  {
    SetOne(s.workers, w, Ready);
    assert Held(s.workers[w := Ready]) + multiset{} == Held(s.workers[w := Ready]);
  }

  lemma FinishConserves(s: State, w: nat)
    requires Conserved(s) && Enabled(s, Finish(w))
    ensures Conserved(DoFinish(s, w))
  {
    var job := s.workers[w].job;
    SetOne(s.workers, w, Ready);
    HeldIsRun(multiset(s.dequeued), multiset(s.ran), Held(s.workers), Held(s.workers[w := Ready]), multiset{job});
    assert multiset(s.ran + [job]) == multiset(s.ran) + multiset{job};
  }

  lemma StepConserves(s: State, e: Event)
    requires Conserved(s) && Enabled(s, e)
    ensures Conserved(Step(s, e))
  {
    match e
    case Enqueue(job) => assert s.dequeued + s.jobs + [job] == s.dequeued + (s.jobs + [job]);
    case NotifyOne(w) => WakeConserves(s, w);
    case NotifyAll => WakeAllSums(s.workers);
    case SpuriousWake(w) => WakeConserves(s, w);
    case Look(w) => LookConserves(s, w);
    case Finish(w) => FinishConserves(s, w);
    case NotifyNobody =>
    case Shutdown =>
  }

  /** Replacing one worker by one that does not wait. */
  lemma SetKeepsNobody(workers: seq<Worker>, w: nat, k: Worker)
    requires w < |workers| && k != Waiting && NobodyWaits(workers)
    ensures NobodyWaits(workers[w := k])
  {
  }

  lemma LookKeepsWakeUps(s: State, w: nat)
    requires WakeUpsKept(s) && Enabled(s, Look(w))
    ensures WakeUpsKept(DoLook(s, w))
  {
    var k := DoLook(s, w).workers[w];
    SetOne(s.workers, w, k);
    if k != Waiting && NobodyWaits(s.workers) {
      SetKeepsNobody(s.workers, w, k);
    }
  }

  /** Waking one worker, with or without using up a notice. */
  lemma WakeKeepsWakeUps(s: State, w: nat, notices: nat)
    requires WakeUpsKept(s) && w < |s.workers| && s.workers[w] == Waiting && notices + 1 >= s.notices
    ensures WakeUpsKept(SetWorker(s, w, Ready).(notices := notices))
  {
    SetOne(s.workers, w, Ready);
  }

  lemma FinishKeepsWakeUps(s: State, w: nat)
    requires WakeUpsKept(s) && Enabled(s, Finish(w))
    ensures WakeUpsKept(DoFinish(s, w))
  {
    SetOne(s.workers, w, Ready);
    if NobodyWaits(s.workers) {
      SetKeepsNobody(s.workers, w, Ready);
    }
  }

  lemma StepKeepsWakeUps(s: State, e: Event)
    requires WakeUpsKept(s) && Enabled(s, e)
    ensures WakeUpsKept(Step(s, e))
  {
    match e
    case NotifyOne(w) => WakeKeepsWakeUps(s, w, s.notices - 1);
    case SpuriousWake(w) => WakeKeepsWakeUps(s, w, s.notices);
    case Look(w) => LookKeepsWakeUps(s, w);
    case Finish(w) => FinishKeepsWakeUps(s, w);
    case NotifyAll => assert NobodyWaits(Step(s, e).workers);
    case Enqueue(_) =>
    case NotifyNobody =>
    case Shutdown =>
  }

  lemma SetKeepsSome(workers: seq<Worker>, w: nat, k: Worker)
    requires w < |workers| && workers[w] != Exited
    ensures !AllExited(workers) && (k != Exited ==> !AllExited(workers[w := k]))
  {
    assert k != Exited ==> workers[w := k][w] != Exited;
  }

  lemma StepKeepsLate(s: State, e: Event)
    requires LateKept(s) && Enabled(s, e)
    ensures LateKept(Step(s, e))
  {
    match e
    case NotifyOne(w) => SetKeepsSome(s.workers, w, Ready);
    case SpuriousWake(w) => SetKeepsSome(s.workers, w, Ready);
    case Look(w) => SetKeepsSome(s.workers, w, DoLook(s, w).workers[w]);
    case Finish(w) => SetKeepsSome(s.workers, w, Ready);
    case NotifyAll =>
      if !AllExited(s.workers) {
        var i :| 0 <= i < |s.workers| && s.workers[i] != Exited;
        assert WakeAll(s.workers)[i] != Exited;
      }
    case Enqueue(_) =>
    case NotifyNobody =>
    case Shutdown =>
  }

  // ---------- main results ----------

  ghost predicate Inv(s: State) {
    Conserved(s) && WakeUpsKept(s) && LateKept(s)
  }

  lemma StepKeeps(s: State, e: Event)
    requires Inv(s) && Enabled(s, e)
    ensures Inv(Step(s, e))
  {
    StepConserves(s, e);
    StepKeepsWakeUps(s, e);
    StepKeepsLate(s, e);
  }

  lemma StepKeepsSize(s: State, e: Event)
    ensures Step(s, e).maxQueued == s.maxQueued && |Step(s, e).workers| == |s.workers|
  {
  }

  lemma {:induction false} NobodyRuns(workers: seq<Worker>)
    requires forall i :: 0 <= i < |workers| ==> !workers[i].Running?
    ensures Held(workers) == multiset{}
  {
    if workers != [] {
      NobodyRuns(workers[..|workers| - 1]);
    }
  }

  lemma {:induction false} InvRun(n: nat, maxQueued: nat, run: seq<Event>)
    requires Legal(Start(n, maxQueued), run)
    ensures Inv(Exec(Start(n, maxQueued), run))
    ensures Exec(Start(n, maxQueued), run).maxQueued == maxQueued && |Exec(Start(n, maxQueued), run).workers| == n
    decreases |run|
  {
    if run == [] {
      NobodyRuns(Start(n, maxQueued).workers);
    } else {
      var before := Exec(Start(n, maxQueued), run[..|run| - 1]);
      InvRun(n, maxQueued, run[..|run| - 1]);
      StepKeeps(before, run[|run| - 1]);
      StepKeepsSize(before, run[|run| - 1]);
    }
  }

  /** In every interleaving: jobs are taken in the order they were accepted, each one taken is being run by one
      worker or has run once, and the queue keeps within a positive bound. */
  lemma PoolConserves(n: nat, maxQueued: nat, run: seq<Event>)
    requires Legal(Start(n, maxQueued), run)
    ensures var s := Exec(Start(n, maxQueued), run);
            && s.accepted == s.dequeued + s.jobs
            && multiset(s.dequeued) == multiset(s.ran) + Held(s.workers)
            && (maxQueued > 0 ==> |s.jobs| <= maxQueued)
  {
    InvRun(n, maxQueued, run);
  }

  /** A job is accepted exactly if there is room for it: without a bound, or as long as fewer jobs than the bound have
      been accepted and not taken. A refused job changes nothing. */
  lemma EnqueueExactly(n: nat, maxQueued: nat, run: seq<Event>, job: Job)
    requires Legal(Start(n, maxQueued), run + [Enqueue(job)])
    ensures var s, t := Exec(Start(n, maxQueued), run), Exec(Start(n, maxQueued), run + [Enqueue(job)]);
            && |s.dequeued| <= |s.accepted|
            && (maxQueued == 0 || |s.accepted| - |s.dequeued| < maxQueued ==>
                  && t.accepted == s.accepted + [job]
                  && t.dequeued == s.dequeued && t.ran == s.ran && t.workers == s.workers)
            && (maxQueued > 0 && |s.accepted| - |s.dequeued| >= maxQueued ==> t == s)
  {
    ExecLast(Start(n, maxQueued), run, Enqueue(job));
    InvRun(n, maxQueued, run);
  }

  lemma ExecLast(s: State, run: seq<Event>, e: Event)
    ensures Exec(s, run + [e]) == Step(Exec(s, run), e)
    ensures Legal(s, run + [e]) <==> Legal(s, run) && Enabled(Exec(s, run), e)
  {
    assert (run + [e])[..|run|] == run;
  }

  /** What a worker does that looks at the queue: with every accepted job taken it leaves or sleeps, otherwise it runs
      the oldest job not yet taken. */
  predicate TakesOldest(s: State, t: State, w: nat) {
    && w < |s.workers|
    && s.workers[w] == Ready
    && |s.dequeued| <= |s.accepted|
    && if |s.dequeued| == |s.accepted| then
         t == s.(workers := s.workers[w := if s.shutdown then Exited else Waiting])
       else
         var job := s.accepted[|s.dequeued|];
         && t.workers == s.workers[w := Running(job)]
         && t.dequeued == s.dequeued + [job]
         && t.ran == s.ran
  }

  /** Only callers add jobs, only workers take them, each takes the oldest, and a job has run when its worker is done
      with it. */
  lemma OnlyWorkersTake(n: nat, maxQueued: nat, run: seq<Event>, e: Event)
    requires Legal(Start(n, maxQueued), run + [e])
    ensures var s, t := Exec(Start(n, maxQueued), run), Exec(Start(n, maxQueued), run + [e]);
            && (!e.Enqueue? ==> t.accepted == s.accepted)
            && (if e.Look? then TakesOldest(s, t, e.w) else t.dequeued == s.dequeued)
            && (if e.Finish? then
                  && e.w < |s.workers|
                  && s.workers[e.w].Running?
                  && t.ran == s.ran + [s.workers[e.w].job]
                  && t.workers == s.workers[e.w := Ready]
                else
                  t.ran == s.ran)
  {
    ExecLast(Start(n, maxQueued), run, e);
    InvRun(n, maxQueued, run);
  }

  lemma AllRanIff(accepted: seq<Job>, dequeued: seq<Job>, jobs: seq<Job>)
    requires accepted == dequeued + jobs
    ensures multiset(accepted) == multiset(dequeued) <==> jobs == []
  {
    assert multiset(accepted) == multiset(dequeued) + multiset(jobs);
    assert |multiset(accepted)| == |multiset(dequeued)| + |jobs|;
  }

  /** Once every worker has left, all accepted jobs have run exactly if none was accepted after the last one left. */
  lemma AllRanExactly(n: nat, maxQueued: nat, run: seq<Event>)
    requires Legal(Start(n, maxQueued), run) && AllExited(Exec(Start(n, maxQueued), run).workers)
    ensures var s := Exec(Start(n, maxQueued), run);
            multiset(s.ran) == multiset(s.accepted) <==> s.late == []
  {
    InvRun(n, maxQueued, run);
    var s := Exec(Start(n, maxQueued), run);
    NobodyRuns(s.workers);
    AllRanIff(s.accepted, s.dequeued, s.jobs);
  }

  /** No job is enqueued once `shutdown` has begun. */
  predicate Orderly(s: State, run: seq<Event>)
    decreases |run|
  {
    run != [] ==>
      Orderly(s, run[..|run| - 1]) && (run[|run| - 1].Enqueue? ==> !Exec(s, run[..|run| - 1]).shutdown)
  }

  /** A job comes late only behind shutdown, if there is a worker. */
  lemma StepOnTime(s: State, e: Event)
    requires LateKept(s) && s.workers != [] && s.late == [] && (e.Enqueue? ==> !s.shutdown)
    ensures Step(s, e).late == []
  {
    assert AllExited(s.workers) ==> s.workers[0] == Exited;
  }

  /** With at least one worker and no enqueueing after shutdown, no job comes too late. */
  lemma {:induction false} OrderlyNeverLate(n: nat, maxQueued: nat, run: seq<Event>)
    requires n > 0 && Legal(Start(n, maxQueued), run) && Orderly(Start(n, maxQueued), run)
    ensures Exec(Start(n, maxQueued), run).late == []
    decreases |run|
  {
    if run != [] {
      OrderlyNeverLate(n, maxQueued, run[..|run| - 1]);
      InvRun(n, maxQueued, run[..|run| - 1]);
      StepOnTime(Exec(Start(n, maxQueued), run[..|run| - 1]), run[|run| - 1]);
    }
  }

  lemma DeadStep(s: State, e: Event)
    requires AllExited(s.workers) && Enabled(s, e)
    ensures Step(s, e).workers == s.workers && Step(s, e).ran == s.ran
  {
    assert WakeAll(s.workers) == s.workers;
  }

  /** A job accepted after the last worker has left never runs, whatever happens later. */
  lemma {:induction false} LateNeverRuns(s: State, run: seq<Event>)
    requires AllExited(s.workers) && Legal(s, run)
    ensures Exec(s, run).workers == s.workers && Exec(s, run).ran == s.ran
    decreases |run|
  {
    if run != [] {
      LateNeverRuns(s, run[..|run| - 1]);
      DeadStep(Exec(s, run[..|run| - 1]), run[|run| - 1]);
    }
  }

  // ---------- shutdown ends ----------

  /** Caller's steps: they may come at any time or never. */
  predicate FromOutside(e: Event) {
    e.Enqueue? || e.Shutdown?
  }

  function Measure(s: State): nat {
    2 * |s.jobs| + s.notices + s.broadcasts + Weights(s.workers)
  }

  lemma StepShrinks(s: State, e: Event)
    requires s.shutdown && Enabled(s, e) && !FromOutside(e)
    ensures Measure(Step(s, e)) < Measure(s) && Step(s, e).shutdown
  {
    match e
    case NotifyOne(w) => SetOne(s.workers, w, Ready);
    case NotifyNobody =>
    case NotifyAll => WakeAllSums(s.workers);
    case SpuriousWake(w) => SetOne(s.workers, w, Ready);
    case Look(w) => SetOne(s.workers, w, DoLook(s, w).workers[w]);
    case Finish(w) => SetOne(s.workers, w, Ready);
  }

  lemma {:induction false} ShutdownBounded(s: State, run: seq<Event>)
    requires s.shutdown && Legal(s, run) && forall i :: 0 <= i < |run| ==> !FromOutside(run[i])
    ensures |run| + Measure(Exec(s, run)) <= Measure(s) && Exec(s, run).shutdown
    decreases |run|
  {
    if run != [] {
      var init := run[..|run| - 1];
      assert forall i :: 0 <= i < |init| ==> init[i] == run[i];
      ShutdownBounded(s, init);
      StepShrinks(Exec(s, init), run[|run| - 1]);
    }
  }

  /** Nothing is left to happen but callers' steps and spurious wake-ups. */
  ghost predicate Quiet(s: State) {
    forall e :: Enabled(s, e) ==> FromOutside(e) || e.SpuriousWake?
  }

  lemma {:induction false} NobodyAwake(workers: seq<Worker>)
    requires forall i :: 0 <= i < |workers| ==> workers[i] == Waiting || workers[i] == Exited
    ensures Awake(workers) == 0 && Held(workers) == multiset{}
  {
    if workers != [] {
      NobodyAwake(workers[..|workers| - 1]);
    }
  }

  lemma QuietWorkers(s: State)
    requires Quiet(s)
    ensures forall i :: 0 <= i < |s.workers| ==> s.workers[i] == Waiting || s.workers[i] == Exited
    ensures s.notices == 0 && s.broadcasts == 0
  {
    assert !Enabled(s, NotifyAll) && !Enabled(s, NotifyNobody);
    forall i | 0 <= i < |s.workers| ensures s.workers[i] == Waiting || s.workers[i] == Exited {
      assert !Enabled(s, Look(i)) && !Enabled(s, Finish(i));
    }
    if !NobodyWaits(s.workers) {
      var w :| 0 <= w < |s.workers| && s.workers[w] == Waiting;
      assert !Enabled(s, NotifyOne(w));
    }
  }

  /** No wake-up is lost: when the pool comes to rest, either every job has run, or all workers have left. */
  lemma RestMeansDone(n: nat, maxQueued: nat, run: seq<Event>)
    requires Legal(Start(n, maxQueued), run) && Quiet(Exec(Start(n, maxQueued), run))
    ensures var s := Exec(Start(n, maxQueued), run);
            AllExited(s.workers) || (s.jobs == [] && multiset(s.ran) == multiset(s.accepted))
  {
    InvRun(n, maxQueued, run);
    var s := Exec(Start(n, maxQueued), run);
    QuietWorkers(s);
    NobodyAwake(s.workers);
    AllRanIff(s.accepted, s.dequeued, s.jobs);
  }

  lemma {:induction false} ExecPlus(s: State, a: seq<Event>, b: seq<Event>)
    requires Legal(s, a) && Legal(Exec(s, a), b)
    ensures Exec(s, a + b) == Exec(Exec(s, a), b) && Legal(s, a + b)
    decreases |b|
  {
    if b == [] {
      assert a + b == a;
    } else {
      assert (a + b)[..|a + b| - 1] == a + b[..|b| - 1];
      ExecPlus(s, a, b[..|b| - 1]);
    }
  }

  /** Shutdown ends: behind it the pool takes a bounded number of steps in any interleaving, and when it can
      take no more every worker has left, so that the joins return. */
  lemma ShutdownEnds(n: nat, maxQueued: nat, before: seq<Event>, run: seq<Event>)
    requires Legal(Start(n, maxQueued), before)
    requires var s := Exec(Start(n, maxQueued), before);
             s.shutdown && Legal(s, run) && forall i :: 0 <= i < |run| ==> !FromOutside(run[i])
    ensures var s := Exec(Start(n, maxQueued), before);
            |run| <= Measure(s) && (Quiet(Exec(s, run)) ==> AllExited(Exec(s, run).workers))
  {
    var s := Exec(Start(n, maxQueued), before);
    ShutdownBounded(s, run);
    ExecPlus(Start(n, maxQueued), before, run);
    InvRun(n, maxQueued, before + run);
    if Quiet(Exec(s, run)) {
      QuietWorkers(Exec(s, run));
    }
  }

  // ---------- enqueueing behind shutdown ----------

  /** Behind shutdown, as long as a worker is left, the pool can do something by itself. */
  lemma CanGoOn(s: State) returns (e: Event)
    requires Inv(s) && s.shutdown && !AllExited(s.workers)
    ensures Enabled(s, e) && !FromOutside(e)
  {
    if Quiet(s) {
      QuietWorkers(s);
      assert false;
    }
    e :| Enabled(s, e) && !FromOutside(e);
  }

  predicate NoneOutside(run: seq<Event>) {
    forall i :: 0 <= i < |run| ==> !FromOutside(run[i])
  }

  lemma GoOn(s: State, e: Event, rest: seq<Event>)
    requires Enabled(s, e) && !FromOutside(e) && Legal(Step(s, e), rest) && NoneOutside(rest)
    ensures Legal(s, [e] + rest) && NoneOutside([e] + rest) && Exec(s, [e] + rest) == Exec(Step(s, e), rest)
  {
    assert [e][..0] == [] && Exec(s, [e]) == Step(s, e) && Legal(s, [e]);
    ExecPlus(s, [e], rest);
  }

  lemma StayPut(s: State)
    ensures Legal(s, []) && NoneOutside([]) && Exec(s, []) == s
  {
  }

  /** So it can get rid of all its workers before a caller's next step. */
  lemma {:induction false} Drain(s: State) returns (run: seq<Event>)
    requires Inv(s) && s.shutdown
    ensures Legal(s, run) && NoneOutside(run)
    ensures AllExited(Exec(s, run).workers) && Exec(s, run).late == s.late && Inv(Exec(s, run))
    decreases Measure(s)
  {
    hide Legal, Exec, Inv, NoneOutside, Measure, Enabled;
    if AllExited(s.workers) {
      StayPut(s);
      run := [];
    } else {
      var e := CanGoOn(s);
      StepKeeps(s, e);
      StepShrinks(s, e);
      assert Step(s, e).late == s.late;
      var rest := Drain(Step(s, e));
      GoOn(s, e, rest);
      run := [e] + rest;
    }
  }

  /** A job enqueued behind shutdown may always come too late: from every run in which none has yet, some steps of
      the pool alone lead to where the next job enqueued is accepted and never run. */
  lemma LateIsPossible(n: nat, maxQueued: nat, before: seq<Event>, job: Job) returns (more: seq<Event>)
    requires Legal(Start(n, maxQueued), before)
    requires var s := Exec(Start(n, maxQueued), before); s.shutdown && s.late == []
    ensures NoneOutside(more) && Legal(Start(n, maxQueued), before + more + [Enqueue(job)])
    ensures Exec(Start(n, maxQueued), before + more + [Enqueue(job)]).late == [job]
    ensures AllExited(Exec(Start(n, maxQueued), before + more + [Enqueue(job)]).workers)
  {
    var start := Start(n, maxQueued);
    var s := Exec(start, before);
    InvRun(n, maxQueued, before);
    more := Drain(s);
    ExecPlus(start, before, more);
    assert (before + more + [Enqueue(job)])[..|before + more|] == before + more;
  }
}
