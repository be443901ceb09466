/** Which processes a run of the collector reports. */
module CollectorRuns {
  import opened Text
  import opened HarvestSpec
  import opened Collector

  /** A process that is there, and either can be opened or is the one the cache knows. */
  predicate Readable(known: map<Pid, Snapshot>, pid: Pid, s: Sample) {
    && s.Sample?
    && (s.opens
        || (pid in known && known[pid].stats.command == s.stats.command && known[pid].stats.ppid == s.stats.ppid))
  }

  predicate ReadAt(events: seq<Event>, k: nat, pid: Pid, privileged: bool)
    requires k < |events|
  {
    events[k].Tick? ==> Readable(After(events, k, privileged).known, pid, events[k].samples(pid))
  }

  /** Event `j` asked for the process, and every tick behind it, of the first `n` events, could read it. */
  predicate ReadSince(events: seq<Event>, j: nat, n: nat, pid: Pid, privileged: bool) {
    && j < n <= |events| && Asks(events[j], pid)
    && forall k :: j < k < n ==> ReadAt(events, k, pid, privileged)
  }

  predicate StillRead(events: seq<Event>, n: nat, pid: Pid, privileged: bool) {
    exists j :: 0 <= j < n && ReadSince(events, j, n, pid, privileged)
  }

  lemma ReadSinceStep(events: seq<Event>, j: nat, n: nat, pid: Pid, privileged: bool)
    requires j < n < |events|
    ensures ReadSince(events, j, n + 1, pid, privileged)
       <==> ReadSince(events, j, n, pid, privileged) && ReadAt(events, n, pid, privileged)
  {
    hide ReadAt, Asks;
  }

  lemma StillReadStep(events: seq<Event>, n: nat, pid: Pid, privileged: bool)
    requires n < |events|
    ensures StillRead(events, n + 1, pid, privileged)
       <==> Asks(events[n], pid) || (StillRead(events, n, pid, privileged) && ReadAt(events, n, pid, privileged))
  {
    hide ReadAt, Asks;
    assert ReadSince(events, n, n + 1, pid, privileged) <==> Asks(events[n], pid);
    hide ReadSince;
    if j :| 0 <= j < n && ReadSince(events, j, n, pid, privileged) {
      ReadSinceStep(events, j, n, pid, privileged);
    }
    if StillRead(events, n + 1, pid, privileged) {
      var j :| 0 <= j < n + 1 && ReadSince(events, j, n + 1, pid, privileged);
      if j < n {
        ReadSinceStep(events, j, n, pid, privileged);
      }
    }
  }

  /** Harvested next are exactly the processes asked for that could be read at every tick since. */
  lemma {:induction false} HarvestedExactly(events: seq<Event>, n: nat, pid: Pid, privileged: bool)
    requires n <= |events|
    ensures pid in After(events, n, privileged).pids <==> StillRead(events, n, pid, privileged)
  {
    if n > 0 {
      HarvestedExactly(events, n - 1, pid, privileged);
      StillReadStep(events, n - 1, pid, privileged);
      if events[n - 1].Spans? {
        WantedExactly(events[n - 1].services, |events[n - 1].services|, pid);
      }
    }
  }

  predicate Mentions(batch: seq<Status>, pid: Pid) {
    exists i :: 0 <= i < |batch| && batch[i].pid == pid
  }

  /** The status shows the process as the sample does, with counters only for a collector that may read them. */
  predicate Shows(st: Status, s: Sample, privileged: bool) {
    && s.Sample?
    && st.command == s.stats.command && st.ppid == s.stats.ppid
    && st.threads == s.stats.threads && st.state == s.stats.state
    && st.rss == s.stats.rss && st.vms == s.stats.vms
    && st.readCount == (if privileged && s.io.Some? then s.io.value.readCount else 0)
    && st.writeCount == (if privileged && s.io.Some? then s.io.value.writeCount else 0)
  }

  /** Every tick sends one status for each process asked for that could be read at every tick since, this one
      included, and no other status. */
  ghost predicate BatchExact(events: seq<Event>, n: nat, privileged: bool, batch: seq<Status>)
    requires n < |events| && events[n].Tick?
  {
    && (forall pid :: Mentions(batch, pid) <==> StillRead(events, n + 1, pid, privileged))
    && (forall i, j :: 0 <= i < j < |batch| ==> batch[i].pid != batch[j].pid)
    && (forall i :: 0 <= i < |batch| ==> Shows(batch[i], events[n].samples(batch[i].pid), privileged))
  }

  lemma ReportedShows(cached: Option<Snapshot>, pid: Pid, s: Sample, privileged: bool, st: Status)
    requires Reported(cached, pid, s, privileged) == Some(st)
    ensures st.pid == pid && Shows(st, s, privileged)
  {
  }

  lemma BatchShows(before: RunState, samples: Pid -> Sample, privileged: bool, batch: seq<Status>)
      returns (order: seq<Pid>)
    requires Batch(before, samples, privileged, batch)
    ensures Enumerates(order, AfterTick(before, samples, privileged).pids) && |order| == |batch|
    ensures forall i :: 0 <= i < |order| ==> batch[i].pid == order[i] && Shows(batch[i], samples(order[i]), privileged)
  {
    hide AfterTick, Reported, Shows, Enumerates;
    order :|
      && Enumerates(order, AfterTick(before, samples, privileged).pids) && |order| == |batch|
      && forall i :: 0 <= i < |order| ==>
           Reported(Cached(before.known, order[i]), order[i], samples(order[i]), privileged) == Some(batch[i]);
    forall i | 0 <= i < |order| ensures batch[i].pid == order[i] && Shows(batch[i], samples(order[i]), privileged) {
      ReportedShows(Cached(before.known, order[i]), order[i], samples(order[i]), privileged, batch[i]);
    }
  }

  lemma BatchMentions(order: seq<Pid>, batch: seq<Status>, pid: Pid)
    requires |order| == |batch| && forall i :: 0 <= i < |order| ==> batch[i].pid == order[i]
    ensures Mentions(batch, pid) <==> pid in Elements(order)
  {
  }

  lemma OncePerProcess(order: seq<Pid>, batch: seq<Status>)
    requires Distinct(order)
    requires |order| == |batch| && forall i :: 0 <= i < |order| ==> batch[i].pid == order[i]
    ensures forall i, j :: 0 <= i < j < |batch| ==> batch[i].pid != batch[j].pid
  {
    forall i, j | 0 <= i < j < |batch| ensures batch[i].pid != batch[j].pid {
      DistinctAt(order, i, j);
    }
  }

  lemma AfterTickIs(events: seq<Event>, n: nat, privileged: bool)
    requires n < |events| && events[n].Tick?
    ensures After(events, n + 1, privileged) == AfterTick(After(events, n, privileged), events[n].samples, privileged)
  {
  }

  lemma BatchIsExact(events: seq<Event>, n: nat, privileged: bool, batch: seq<Status>)
    requires n < |events| && events[n].Tick?
    requires Batch(After(events, n, privileged), events[n].samples, privileged, batch)
    ensures BatchExact(events, n, privileged, batch)
  {
    hide Batch, After, AfterTick, Shows, Distinct, StillRead, Mentions, Elements;
    var order := BatchShows(After(events, n, privileged), events[n].samples, privileged, batch);
    AfterTickIs(events, n, privileged);
    OncePerProcess(order, batch);
    forall pid ensures Mentions(batch, pid) <==> StillRead(events, n + 1, pid, privileged) {
      HarvestedExactly(events, n + 1, pid, privileged);
      BatchMentions(order, batch, pid);
    }
  }

  /** In every run: each tick sends exactly the statuses due. */
  lemma SentExactly(events: seq<Event>, privileged: bool, sent: seq<seq<Status>>, n: nat)
    requires Sent(events, |events|, privileged, sent)
    requires n < |events| && events[n].Tick?
    ensures Ticks(events, n) < |sent| && BatchExact(events, n, privileged, sent[Ticks(events, n)])
  {
    hide Batch, BatchExact, After;
    BatchIsExact(events, n, privileged, sent[Ticks(events, n)]);
  }

  lemma {:induction false} TickOf(events: seq<Event>, n: nat, b: nat) returns (k: nat)
    requires n <= |events| && b < Ticks(events, n)
    ensures k < n && events[k].Tick? && Ticks(events, k) == b
  {
    if events[n - 1].Tick? && Ticks(events, n - 1) == b {
      k := n - 1;
    } else {
      k := TickOf(events, n - 1, b);
    }
  }

  /** Whatever is sent is of a process that an event before the tick asked for. */
  lemma SentWasAsked(events: seq<Event>, privileged: bool, sent: seq<seq<Status>>, b: nat, i: nat)
      returns (j: nat, k: nat)
    requires Sent(events, |events|, privileged, sent) && b < |sent| && i < |sent[b]|
    ensures j < k < |events| && events[k].Tick? && Ticks(events, k) == b && Asks(events[j], sent[b][i].pid)
  {
    k := TickOf(events, |events|, b);
    SentExactly(events, privileged, sent, k);
    hide Sent, Ticks, After, Readable, Asks, Shows;
    assert Mentions(sent[b], sent[b][i].pid);
    j :| 0 <= j < k + 1 && ReadSince(events, j, k + 1, sent[b][i].pid, privileged);
  }
}
