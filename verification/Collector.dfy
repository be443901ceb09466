/** The process collector: a least-recently-used cache of processes updated in place by each round of harvesting. */
module Collector {
  import opened Text
  import opened HarvestSpec

  // ---------- the cache ----------

  function Without(keys: seq<Pid>, k: Pid): seq<Pid> {
    if keys == [] then []
    else Without(keys[..|keys| - 1], k) + if keys[|keys| - 1] == k then [] else [keys[|keys| - 1]]
  }

  lemma {:induction false} WithoutMembers(keys: seq<Pid>, k: Pid)
    ensures forall x :: x in Without(keys, k) <==> x in keys && x != k
  {
    if keys != [] {
      WithoutMembers(keys[..|keys| - 1], k);
      assert keys == keys[..|keys| - 1] + [keys[|keys| - 1]];
    }
  }

  /** No key occurs twice. */
  predicate Distinct(keys: seq<Pid>) {
    keys == [] || (keys[|keys| - 1] !in keys[..|keys| - 1] && Distinct(keys[..|keys| - 1]))
  }

  lemma {:induction false} WithoutAbsent(keys: seq<Pid>, k: Pid)
    requires k !in keys
    ensures Without(keys, k) == keys
  {
    if keys != [] {
      WithoutAbsent(keys[..|keys| - 1], k);
    }
  }

  lemma WithoutAbsentOr(keys: seq<Pid>, k: Pid)
    ensures k !in keys ==> Without(keys, k) == keys
  {
    if k !in keys {
      WithoutAbsent(keys, k);
    }
  }

  lemma {:induction false} WithoutPlus(a: seq<Pid>, b: seq<Pid>, k: Pid)
    ensures Without(a + b, k) == Without(a, k) + Without(b, k)
  {
    if b == [] {
      assert a + b == a;
    } else {
      assert (a + b)[..|a + b| - 1] == a + b[..|b| - 1];
      WithoutPlus(a, b[..|b| - 1], k);
    }
  }

  lemma {:induction false} WithoutDistinct(keys: seq<Pid>, k: Pid)
    requires Distinct(keys)
    ensures Distinct(Without(keys, k))
  {
    if keys != [] {
      var init, last := keys[..|keys| - 1], keys[|keys| - 1];
      WithoutDistinct(init, k);
      WithoutMembers(init, k);
      if last != k {
        DistinctSnoc(Without(init, k), last);
      } else {
        assert Without(keys, k) == Without(init, k);
      }
    }
  }

  lemma DistinctSnoc(keys: seq<Pid>, k: Pid)
    requires Distinct(keys) && k !in keys
    ensures Distinct(keys + [k])
  {
    assert (keys + [k])[..|keys|] == keys;
  }

  lemma {:induction false} DistinctTail(keys: seq<Pid>)
    requires Distinct(keys) && keys != []
    ensures keys[0] !in keys[1..] && Distinct(keys[1..])
  {
    var n := |keys| - 1;
    if n > 0 {
      DistinctTail(keys[..n]);
      assert keys[..n][1..] == keys[1..][..n - 1];
      assert keys[1..] == keys[..n][1..] + [keys[n]];
    }
  }

  /** An LRU cache without a size limit; `keys` runs from the least to the most recently used. */
  class Lru<V> {
    var keys: seq<Pid>
    var entries: map<Pid, V>

    ghost predicate Valid()
      reads this
    {
      Distinct(keys) && forall k :: k in keys <==> k in entries
    }

    constructor ()
      ensures Valid() && keys == []
    {
      keys, entries := [], map[];
    }

    function Len(): nat
      reads this
    {
      |keys|
    }

    method Touch(k: Pid)
      requires Valid() && k in keys
      modifies `keys
      ensures Valid() && keys == Without(old(keys), k) + [k]
    {
      WithoutDistinct(keys, k);
      WithoutMembers(keys, k);
      DistinctSnoc(Without(keys, k), k);
      keys := Without(keys, k) + [k];
    }

    method Get(k: Pid) returns (v: Option<V>)
      requires Valid()
      modifies `keys
      ensures Valid() && v == if k in entries then Some(entries[k]) else None
      ensures keys == if k in entries then Without(old(keys), k) + [k] else old(keys)
    {
      if k !in entries {
        return None;
      }
      Touch(k);
      return Some(entries[k]);
    }

    method Add(k: Pid, v: V)
      requires Valid()
      modifies this
      ensures Valid() && entries == old(entries)[k := v] && keys == Without(old(keys), k) + [k]
    {
      if k in entries {
        Touch(k);
      } else {
        WithoutAbsent(keys, k);
        DistinctSnoc(keys, k);
        keys := keys + [k];
      }
      entries := entries[k := v];
    }

    method Remove(k: Pid)
      requires Valid()
      modifies this
      ensures Valid() && entries == old(entries) - {k} && keys == Without(old(keys), k)
    {
      WithoutDistinct(keys, k);
      WithoutMembers(keys, k);
      keys := Without(keys, k);
      entries := entries - {k};
    }

    method RemoveOldest()
      requires Valid()
      modifies this
      ensures Valid()
      ensures if old(keys) == [] then keys == [] && entries == old(entries)
              else keys == old(keys)[1..] && entries == old(entries) - {old(keys)[0]}
    {
      if keys == [] {
        return;
      }
      DistinctTail(keys);
      ghost var before := keys;
      entries := entries - {keys[0]};
      keys := keys[1..];
      assert before == [before[0]] + keys;
    }
  }

  // ---------- the harvester ----------

  class LinuxProcess {
    const pid: Pid
    const privileged: bool
    var stats: Stats
    var prevStats: Stats
    var previousIo: Option<Io>
    var previousRx: int
    var previousTx: int

    constructor (pid: Pid, privileged: bool, stats: Stats)
      ensures this.pid == pid && this.privileged == privileged
      ensures Abs() == Snapshot(stats, NO_STATS, None, 0, 0)
    {
      this.pid, this.privileged, this.stats := pid, privileged, stats;
      prevStats, previousIo, previousRx, previousTx := NO_STATS, None, 0, 0;
    }

    function Abs(): Snapshot
      reads this
    {
      Snapshot(stats, prevStats, previousIo, previousRx, previousTx)
    }

    ghost predicate Is(pid: Pid, privileged: bool, snapshot: Snapshot)
      reads this
    {
      this.pid == pid && this.privileged == privileged && Abs() == snapshot
    }
  }

  function Cached(known: map<Pid, Snapshot>, pid: Pid): Option<Snapshot> {
    if pid in known then Some(known[pid]) else None
  }

  /** What a harvest reports, if anything, given what the cache knows. */
  function Reported(cached: Option<Snapshot>, pid: Pid, s: Sample, privileged: bool): Option<Status> {
    match Acquire(cached, s)
    case None => None
    case Some(p) => Some(Report(pid, p, s, privileged))
  }

  /** What the cache knows after a harvest. */
  function Harvested(known: map<Pid, Snapshot>, pid: Pid, s: Sample, privileged: bool): map<Pid, Snapshot> {
    match NextCached(Cached(known, pid), s, privileged)
    case None => known
    case Some(c) => known[pid := c]
  }

  /** What a harvest does to the knowledge of the cache, case by case. */
  lemma HarvestedIs(known: map<Pid, Snapshot>, pid: Pid, s: Sample, privileged: bool)
    ensures var reported := Reported(Cached(known, pid), pid, s, privileged);
            var after := Harvested(known, pid, s, privileged);
            if reported.None? then after == known
            else if pid !in known then
              after == known[pid := Advance(Snapshot(s.stats, NO_STATS, None, 0, 0), s, privileged)]
            else if SameProcess(s.stats, known[pid].stats) then
              after == known[pid := Advance(known[pid].(stats := s.stats), s, privileged)]
            else after == known
  {
    assert pid in known ==> known[pid := known[pid]] == known;
  }

  class Harvester {
    const privileged: bool
    const cache: Lru<LinuxProcess>
    /** What the cached processes hold, by PID. */
    ghost var known: map<Pid, Snapshot>

    constructor (privileged: bool, cache: Lru<LinuxProcess>)
      requires cache.Valid() && cache.keys == []
      ensures this.privileged == privileged && this.cache == cache && Valid() && known == map[]
    {
      forall k ensures k !in cache.entries {
        assert k !in cache.keys;
      }
      this.privileged, this.cache, known := privileged, cache, map[];
    }

    ghost function Processes(): set<LinuxProcess>
      reads cache
    {
      set p | p in cache.entries :: cache.entries[p]
    }

    ghost predicate Valid()
      reads this, cache, Processes()
    {
      && cache.Valid() && known.Keys == cache.entries.Keys
      && forall p :: p in cache.entries ==> cache.entries[p].Is(p, privileged, known[p])
    }

    ghost function Entry(pid: Pid): set<LinuxProcess>
      reads cache
    {
      if pid in cache.entries then {cache.entries[pid]} else {}
    }

    /** A snapshot of the process, reusing the cached one if it is the same process. */
    method GetLinuxProcess(cached: Option<LinuxProcess>, pid: Pid, s: Sample) returns (p: Option<LinuxProcess>)
      modifies if cached.Some? then {cached.value} else {}
      ensures match Acquire(old(if cached.Some? then Some(cached.value.Abs()) else None), s)
              case None => p == None
              case Some(a) => p.Some? && p.value.Abs() == a
      ensures var reused := s.Sample? && cached.Some? && SameProcess(s.stats, old(cached.value.stats));
              if reused then p == cached
              else (cached.Some? ==> cached.value.Abs() == old(cached.value.Abs()))
                   && (p.Some? ==> fresh(p.value) && p.value.pid == pid && p.value.privileged == privileged)
    {
      if s.Gone? {
        return None;
      }
      if cached.None? || s.stats.command != cached.value.stats.command || s.stats.ppid != cached.value.stats.ppid {
        if !s.opens {
          return None;
        }
        var q := new LinuxProcess(pid, privileged, s.stats);
        return Some(q);
      }
      cached.value.stats := s.stats;
      return cached;
    }

    method PopulateGauges(status: Status, process: LinuxProcess) returns (r: Status)
      ensures r == status.(
        threads := process.stats.threads, state := process.stats.state,
        cpuDelta := if process.prevStats.cpu == NO_CPU then status.cpuDelta
                    else CpuDelta(process.stats.cpu, process.prevStats.cpu),
        rss := process.stats.rss, vms := process.stats.vms,
        rssDelta := Sub64(process.stats.rss, process.prevStats.rss),
        vmsDelta := Sub64(process.stats.vms, process.prevStats.vms))
    {
      r := status;
      var now, before := process.stats.cpu, process.prevStats.cpu;
      if before != NO_CPU {
        r := r.(cpuDelta := Cpu(now.user - before.user, now.system - before.system, now.wait - before.wait));
      }
      r := r.(threads := process.stats.threads, state := process.stats.state);
      r := r.(vms := process.stats.vms, vmsDelta := Sub64(process.stats.vms, process.prevStats.vms));
      r := r.(rss := process.stats.rss, rssDelta := Sub64(process.stats.rss, process.prevStats.rss));
    }

    /** `reading` is what an attempt to read the counters yields. */
    method PopulateIoCounters(status: Status, source: LinuxProcess, reading: Option<Io>) returns (r: Status)
      modifies source`previousIo
      ensures source.previousIo == if !source.privileged then None
                                   else if reading.Some? then reading else old(source.previousIo)
      ensures var prev := PreviousIo(old(source.Abs()));
              r == if !source.privileged || reading.None? then status
                   else status.(readCount := reading.value.readCount, writeCount := reading.value.writeCount,
                                readDelta := SubU64(reading.value.readBytes, prev.readBytes),
                                writeDelta := SubU64(reading.value.writeBytes, prev.writeBytes))
    {
      r := status;
      var previous := if source.previousIo.Some? then source.previousIo.value else Io(0, 0, 0, 0);
      if source.privileged && reading.None? {
        return;
      }
      var counters := if source.privileged then reading else None;
      source.previousIo := counters;
      if counters.Some? {
        r := r.(readCount := counters.value.readCount, writeCount := counters.value.writeCount);
        r := r.(readDelta := SubU64(counters.value.readBytes, previous.readBytes));
        r := r.(writeDelta := SubU64(counters.value.writeBytes, previous.writeBytes));
      }
    }

    method PopulateNetworkInfo(status: Status, source: LinuxProcess, reading: Option<(int, int)>) returns (r: Status)
      modifies source`previousRx, source`previousTx
      ensures (source.previousRx, source.previousTx)
           == if reading.Some? then reading.value else (old(source.previousRx), old(source.previousTx))
      ensures r == if reading.None? then status
                   else var d := NetDelta(reading.value, old(source.previousRx), old(source.previousTx));
                     status.(rxDelta := d.0, txDelta := d.1)
    {
      r := status;
      if reading.None? {
        return;
      }
      var (rx, tx) := reading.value;
      if rx <= source.previousRx || tx <= source.previousTx {
        r := r.(rxDelta := 0, txDelta := 0);
      } else {
        r := r.(rxDelta := Sub64(rx, source.previousRx), txDelta := Sub64(tx, source.previousTx));
      }
      source.previousRx := rx;
      source.previousTx := tx;
    }

    /** Fills in a status from an acquired snapshot and leaves the snapshot ready for the next round. */
    method Populate(process: LinuxProcess, s: Sample) returns (status: Status)
      requires s.Sample? && process.privileged == privileged
      modifies process
      ensures status == Report(process.pid, old(process.Abs()), s, privileged)
      ensures process.Abs() == Advance(old(process.Abs()), s, privileged)
    {
      status :=
        Status(process.pid, process.stats.command, process.stats.ppid, 0, "", NO_CPU, 0, 0, 0, 0, 0, 0, 0, 0, 0, 0);
      status := PopulateGauges(status, process);
      status := PopulateIoCounters(status, process, s.io);
      status := PopulateNetworkInfo(status, process, s.net);
      process.prevStats := process.stats;
    }

    /** Everything but the entry of one PID is as known. */
    ghost predicate OthersValid(pid: Pid)
      reads this, cache, Processes()
    {
      && cache.Valid() && known.Keys == cache.entries.Keys
      && forall p :: p in cache.entries && p != pid ==> cache.entries[p].Is(p, privileged, known[p])
    }

    /** Second half of a harvest: reports from an acquired process, which joins the cache if there was no entry. */
    method ReportFrom(pid: Pid, q: LinuxProcess, s: Sample, hasCachedEntry: bool) returns (r: Status)
      requires s.Sample? && OthersValid(pid) && q.pid == pid && q.privileged == privileged
      requires hasCachedEntry <==> pid in known
      requires hasCachedEntry && cache.entries[pid] != q ==> cache.entries[pid].Is(pid, privileged, known[pid])
      modifies cache, `known, q
      ensures Valid()
      ensures r == Report(pid, old(q.Abs()), s, privileged)
      ensures known == if hasCachedEntry && old(cache.entries)[pid] != q then old(known)
                       else old(known)[pid := Advance(old(q.Abs()), s, privileged)]
      ensures cache.keys == if hasCachedEntry then old(cache.keys) else old(cache.keys) + [pid]
      ensures cache.entries == if hasCachedEntry then old(cache.entries) else old(cache.entries)[pid := q]
    {
      hide Report, Advance;
      ghost var left := Advance(q.Abs(), s, privileged);
      r := Populate(q, s);
      assert OthersValid(pid);
      Enter(pid, q, hasCachedEntry, left);
    }

    /** The process joins the cache if there was no entry. */
    method Enter(pid: Pid, q: LinuxProcess, hasCachedEntry: bool, ghost left: Snapshot)
      requires OthersValid(pid) && q.Is(pid, privileged, left) && (hasCachedEntry <==> pid in known)
      requires hasCachedEntry && cache.entries[pid] != q ==> cache.entries[pid].Is(pid, privileged, known[pid])
      modifies cache, `known
      ensures Valid()
      ensures known == if hasCachedEntry && old(cache.entries)[pid] != q then old(known) else old(known)[pid := left]
      ensures cache.keys == if hasCachedEntry then old(cache.keys) else old(cache.keys) + [pid]
      ensures cache.entries == if hasCachedEntry then old(cache.entries) else old(cache.entries)[pid := q]
    {
      if !hasCachedEntry {
        WithoutAbsent(cache.keys, pid);
        cache.Add(pid, q);
      }
      known := if hasCachedEntry && cache.entries[pid] != q then known else known[pid := left];
    }

    method Forget(pid: Pid)
      requires Valid()
      modifies cache, `known
      ensures Valid() && known == old(known) - {pid}
      ensures cache.keys == Without(old(cache.keys), pid) && cache.entries == old(cache.entries) - {pid}
    {
      cache.Remove(pid);
      known := known - {pid};
    }

    /** One harvest of one process: what is reported, and the cache afterwards. */
    method Harvest(pid: Pid, s: Sample) returns (status: Option<Status>)
      requires Valid()
      modifies cache, `known, Entry(pid)
      ensures Valid()
      ensures status == Reported(Cached(old(known), pid), pid, s, privileged)
      ensures known == Harvested(old(known), pid, s, privileged)
      ensures cache.keys == if pid in old(known) || status.Some? then Without(old(cache.keys), pid) + [pid]
                            else old(cache.keys)
      ensures forall p :: p in cache.entries ==>
                if p in old(cache.entries) then cache.entries[p] == old(cache.entries)[p]
                else p == pid && fresh(cache.entries[p])
    {
      HarvestedIs(known, pid, s, privileged);
      var cached := cache.Get(pid);
      assert Valid();
      var process := GetLinuxProcess(cached, pid, s);
      assert OthersValid(pid);
      if process.None? {
        return None;
      }
      WithoutAbsentOr(cache.keys, pid);
      var r := ReportFrom(pid, process.value, s, cached.Some?);
      status := Some(r);
    }
  }

  // ---------- the collector ----------

  /** What the collector needs of a service: the process it is reported for, and whether process metrics are wanted. */
  datatype Service = Service(procPid: Pid, wantsProcess: bool)

  /** The services to harvest are filed under their processes. */
  predicate Filed(pids: map<Pid, Service>) {
    forall p :: p in pids ==> pids[p].procPid == p
  }

  lemma {:induction false} WithoutTwice(keys: seq<Pid>, k: Pid)
    ensures Without(keys + [k], k) == Without(keys, k)
  {
    assert (keys + [k])[..|keys|] == keys;
    assert Without(keys, k) + [] == Without(keys, k);
  }

  /** Using `k` moves it from the older keys to the end; taking it out leaves the recent ones alone. */
  lemma UseKey(older: seq<Pid>, recent: seq<Pid>, k: Pid)
    requires k !in recent
    ensures Without(older + recent, k) == Without(older, k) + recent
    ensures Without(older + recent, k) + [k] == Without(older, k) + (recent + [k])
    ensures Without(Without(older + recent, k) + [k], k) == Without(older, k) + recent
  {
    WithoutPlus(older, recent, k);
    WithoutAbsent(recent, k);
    var used := Without(older, k) + recent;
    WithoutMembers(older, k);
    WithoutTwice(used, k);
    WithoutAbsent(used, k);
    Associative(Without(older, k), recent, [k]);
  }

  /** What the cache knows behind one turn of the harvesting loop. */
  function Collected(known: map<Pid, Snapshot>, pid: Pid, s: Sample, privileged: bool): map<Pid, Snapshot> {
    if Reported(Cached(known, pid), pid, s, privileged).None? then known - {pid}
    else Harvested(known, pid, s, privileged)
  }

  /** Bookkeeping of a round: `recent` are the processes of `done` that could be harvested, with their statuses in the
      same order, and `removed` the others. */
  ghost predicate Counted(before: map<Pid, Snapshot>, samples: Pid -> Sample, privileged: bool, done: set<Pid>,
      recent: seq<Pid>, results: seq<Status>, removed: seq<Pid>)
  {
    && |results| == |recent|
    && (forall i :: 0 <= i < |recent| ==>
          recent[i] in done
          && Reported(Cached(before, recent[i]), recent[i], samples(recent[i]), privileged) == Some(results[i]))
    && (forall p :: p in done ==> (p in recent <==> Reported(Cached(before, p), p, samples(p), privileged).Some?))
    && (forall p :: p in removed <==> p in done && p !in recent)
  }

  /** Every one of these processes has been brought forward by its sample. */
  ghost predicate Brought(before: map<Pid, Snapshot>, samples: Pid -> Sample, privileged: bool, recent: seq<Pid>,
      known: map<Pid, Snapshot>)
  {
    forall p :: p in recent ==>
      p in known && NextCached(Cached(before, p), samples(p), privileged) == Some(known[p])
  }

  /** One more process of the round. */
  lemma CountOne(before: map<Pid, Snapshot>, samples: Pid -> Sample, privileged: bool, done: set<Pid>, pid: Pid,
      recent: seq<Pid>, results: seq<Status>, removed: seq<Pid>)
    requires Counted(before, samples, privileged, done, recent, results, removed)
    requires pid !in done
    ensures match Reported(Cached(before, pid), pid, samples(pid), privileged)
            case None => Counted(before, samples, privileged, done + {pid}, recent, results, removed + [pid])
            case Some(st) => Counted(before, samples, privileged, done + {pid}, recent + [pid], results + [st], removed)
  {
    assert forall p :: p in recent ==> p in done;
  }

  lemma BringOne(before: map<Pid, Snapshot>, samples: Pid -> Sample, privileged: bool, recent: seq<Pid>,
      known: map<Pid, Snapshot>, pid: Pid)
    requires Brought(before, samples, privileged, recent, known) && pid !in recent
    requires Cached(known, pid) == Cached(before, pid)
    ensures var after := Collected(known, pid, samples(pid), privileged);
            Brought(before, samples, privileged,
                    if Reported(Cached(before, pid), pid, samples(pid), privileged).Some? then recent + [pid]
                    else recent, after)
  {
  }

  // ---------- whole runs ----------

  datatype Event = Spans(services: seq<Service>) | Tick(samples: Pid -> Sample)

  function Wanted(services: seq<Service>, n: nat): set<Pid>
    requires n <= |services|
  {
    if n == 0 then {}
    else Wanted(services, n - 1) + if services[n - 1].wantsProcess then {services[n - 1].procPid} else {}
  }

  /** The processes to harvest and what the cache knows. */
  datatype RunState = RunState(pids: set<Pid>, known: map<Pid, Snapshot>)

  predicate Alive(known: map<Pid, Snapshot>, p: Pid, s: Sample) {
    Acquire(Cached(known, p), s).Some?
  }

  function AfterTick(before: RunState, samples: Pid -> Sample, privileged: bool): RunState {
    var alive := set p | p in before.pids && Alive(before.known, p, samples(p));
    RunState(alive, map p | p in alive :: NextCached(Cached(before.known, p), samples(p), privileged).value)
  }

  function After(events: seq<Event>, n: nat, privileged: bool): RunState
    requires n <= |events|
  {
    if n == 0 then RunState({}, map[])
    else
      var before := After(events, n - 1, privileged);
      match events[n - 1]
      case Spans(services) => before.(pids := before.pids + Wanted(services, |services|))
      case Tick(samples) => AfterTick(before, samples, privileged)
  }

  function Elements(s: seq<Pid>): set<Pid> {
    set p | p in s
  }

  /** `order` lists each of these processes once. */
  ghost predicate Enumerates(order: seq<Pid>, pids: set<Pid>) {
    Distinct(order) && Elements(order) == pids
  }

  /** The statuses of one tick: one for each process that is alive. */
  ghost predicate Batch(before: RunState, samples: Pid -> Sample, privileged: bool, results: seq<Status>) {
    exists order ::
      && Enumerates(order, AfterTick(before, samples, privileged).pids) && |order| == |results|
      && forall i :: 0 <= i < |order| ==>
           Reported(Cached(before.known, order[i]), order[i], samples(order[i]), privileged) == Some(results[i])
  }

  /** Of the first `n` events, every tick has sent its batch. */
  ghost predicate Sent(events: seq<Event>, n: nat, privileged: bool, sent: seq<seq<Status>>) {
    && n <= |events| && |sent| == Ticks(events, n)
    && forall i :: 0 <= i < n && events[i].Tick? ==>
         Ticks(events, i) < |sent|
           && Batch(After(events, i, privileged), events[i].samples, privileged, sent[Ticks(events, i)])
  }

  lemma {:induction false} TicksGrow(events: seq<Event>, i: nat, n: nat)
    requires i < n <= |events|
    ensures Ticks(events, i) + (if events[i].Tick? then 1 else 0) <= Ticks(events, n)
  {
    if i < n - 1 {
      TicksGrow(events, i, n - 1);
    }
  }

  lemma TickCounts(events: seq<Event>, i: nat)
    requires i < |events|
    ensures Ticks(events, i + 1) == Ticks(events, i) + if events[i].Tick? then 1 else 0
  {
  }

  lemma SendOne(events: seq<Event>, i: nat, privileged: bool, sent: seq<seq<Status>>, results: seq<Status>)
    requires i < |events| && events[i].Tick? && Sent(events, i, privileged, sent)
    requires Batch(After(events, i, privileged), events[i].samples, privileged, results)
    ensures Sent(events, i + 1, privileged, sent + [results])
  {
    hide Batch, After, Ticks;
    var more := sent + [results];
    assert Ticks(events, i + 1) == Ticks(events, i) + 1 by { TickCounts(events, i); }
    forall j | 0 <= j < i + 1 && events[j].Tick?
      ensures Ticks(events, j) < |more|
        && Batch(After(events, j, privileged), events[j].samples, privileged, more[Ticks(events, j)])
    {
      if j < i {
        TicksGrow(events, j, i);
        assert more[Ticks(events, j)] == sent[Ticks(events, j)];
      } else {
        assert more[Ticks(events, j)] == results;
      }
    }
  }

  lemma SendNothing(events: seq<Event>, i: nat, privileged: bool, sent: seq<seq<Status>>)
    requires i < |events| && events[i].Spans? && Sent(events, i, privileged, sent)
    ensures Sent(events, i + 1, privileged, sent)
  {
  }

  /** A finished round is the tick of the specification. */
  lemma TickIs(before: RunState, samples: Pid -> Sample, privileged: bool, keys: seq<Pid>, results: seq<Status>,
      removed: seq<Pid>, known: map<Pid, Snapshot>)
    requires Counted(before.known, samples, privileged, before.pids, keys, results, removed)
    requires Brought(before.known, samples, privileged, keys, known)
    requires Distinct(keys) && Elements(keys) == known.Keys
    ensures RunState(before.pids - Elements(removed), known) == AfterTick(before, samples, privileged)
    ensures Batch(before, samples, privileged, results)
  {
    var after := AfterTick(before, samples, privileged);
    forall p ensures p in keys <==> p in after.pids {
      if p in keys {
        var i :| 0 <= i < |keys| && keys[i] == p;
        assert keys[i] in before.pids;
      }
    }
    assert Elements(keys) == after.pids;
    assert before.pids - Elements(removed) == after.pids;
    assert known.Keys == after.known.Keys;
    assert forall p :: p in known ==> p in keys && known[p] == after.known[p];
    assert known == after.known;
    assert Enumerates(keys, after.pids);
  }

  function Ticks(events: seq<Event>, n: nat): nat
    requires n <= |events|
  {
    if n == 0 then 0 else Ticks(events, n - 1) + if events[n - 1].Tick? then 1 else 0
  }

  lemma {:induction false} DistinctAt(keys: seq<Pid>, i: nat, j: nat)
    requires Distinct(keys) && i < j < |keys|
    ensures keys[i] != keys[j]
  {
    var n := |keys| - 1;
    if j < n {
      DistinctAt(keys[..n], i, j);
    } else {
      assert keys[..n][i] == keys[i];
    }
  }

  lemma DistinctPrefix(keys: seq<Pid>, i: nat)
    requires Distinct(keys) && i < |keys|
    ensures keys[i] !in keys[..i] && Elements(keys[..i + 1]) == Elements(keys[..i]) + {keys[i]}
  {
    forall k | 0 <= k < i ensures keys[..i][k] != keys[i] {
      DistinctAt(keys, k, i);
    }
    assert keys[..i + 1] == keys[..i] + [keys[i]];
  }

  /** Iteration over a map: some order of its keys. */
  method MapOrder(pids: set<Pid>) returns (order: seq<Pid>)
    ensures Enumerates(order, pids)
  {
    order := [];
    var todo := pids;
    while exists p :: p in todo
      invariant todo <= pids && Enumerates(order, pids - todo)
      decreases |todo|
    {
      var pid :| pid in todo;
      assert pid !in Elements(order);
      DistinctSnoc(order, pid);
      assert Elements(order + [pid]) == Elements(order) + {pid};
      assert pids - (todo - {pid}) == pids - todo + {pid};
      order := order + [pid];
      todo := todo - {pid};
    }
    assert pids - todo == pids;
  }

  /** How far a round has come: the first `i` processes are accounted for, and the others are untouched. */
  ghost predicate Progress(before: map<Pid, Snapshot>, samples: Pid -> Sample, privileged: bool, order: seq<Pid>,
      i: nat, recent: seq<Pid>, results: seq<Status>, removed: seq<Pid>, known: map<Pid, Snapshot>)
  {
    && i <= |order|
    && (forall j :: i <= j < |order| ==> Cached(known, order[j]) == Cached(before, order[j]))
    && Counted(before, samples, privileged, Elements(order[..i]), recent, results, removed)
    && Brought(before, samples, privileged, recent, known)
  }

  lemma ProgressOne(before: map<Pid, Snapshot>, samples: Pid -> Sample, privileged: bool, order: seq<Pid>,
      i: nat, recent: seq<Pid>, results: seq<Status>, removed: seq<Pid>, known: map<Pid, Snapshot>)
    requires Distinct(order) && i < |order|
    requires Progress(before, samples, privileged, order, i, recent, results, removed, known)
    ensures order[i] !in recent
    ensures var after := Collected(known, order[i], samples(order[i]), privileged);
            var st := Reported(Cached(known, order[i]), order[i], samples(order[i]), privileged);
            Progress(before, samples, privileged, order, i + 1, if st.Some? then recent + [order[i]] else recent,
                     if st.Some? then results + [st.value] else results,
                     if st.None? then removed + [order[i]] else removed, after)
  {
    var pid := order[i];
    DistinctPrefix(order, i);
    assert forall p :: p in recent ==> p in Elements(order[..i]);
    CountOne(before, samples, privileged, Elements(order[..i]), pid, recent, results, removed);
    BringOne(before, samples, privileged, recent, known, pid);
    forall j | i < j < |order| ensures order[j] != pid {
      DistinctAt(order, i, j);
    }
  }

  lemma ProgressStarts(before: map<Pid, Snapshot>, samples: Pid -> Sample, privileged: bool, order: seq<Pid>)
    ensures Progress(before, samples, privileged, order, 0, [], [], [], before)
  {
  }

  lemma ProgressEnds(before: map<Pid, Snapshot>, samples: Pid -> Sample, privileged: bool, order: seq<Pid>,
      pids: set<Pid>, recent: seq<Pid>, results: seq<Status>, removed: seq<Pid>, known: map<Pid, Snapshot>)
    requires Progress(before, samples, privileged, order, |order|, recent, results, removed, known)
    requires Enumerates(order, pids)
    ensures Counted(before, samples, privileged, pids, recent, results, removed)
    ensures Brought(before, samples, privileged, recent, known)
  {
    assert order[..|order|] == order;
  }

  class Collector {
    const harvest: Harvester
    const cache: Lru<LinuxProcess>

    ghost predicate Valid()
      reads this, harvest, harvest.cache, harvest.Processes()
    {
      harvest.cache == cache && harvest.Valid()
    }

    constructor (privileged: bool)
      ensures Valid() && fresh(cache) && fresh(harvest) && cache.keys == []
    {
      var lru := new Lru<LinuxProcess>();
      cache := lru;
      harvest := new Harvester(privileged, lru);
    }

    /** One turn of the harvesting loop. */
    method CollectOne(pid: Pid, service: Service, s: Sample, ghost older: seq<Pid>, ghost recent: seq<Pid>)
        returns (status: Option<Status>)
      requires Valid() && service.procPid == pid && cache.keys == older + recent && pid !in recent
      modifies cache, harvest`known, harvest.Entry(pid)
      ensures Valid()
      ensures status == Reported(Cached(old(harvest.known), pid), pid, s, harvest.privileged)
      ensures harvest.known == Collected(old(harvest.known), pid, s, harvest.privileged)
      ensures cache.keys == Without(older, pid) + if status.Some? then recent + [pid] else recent
      ensures forall p :: p in cache.entries ==>
                if p in old(cache.entries) then cache.entries[p] == old(cache.entries)[p]
                else p == pid && fresh(cache.entries[p])
    {
      UseKey(older, recent, pid);
      if pid !in harvest.known {
        WithoutAbsent(cache.keys, pid);
      }
      HarvestedIs(harvest.known, pid, s, harvest.privileged);
      status := harvest.Harvest(service.procPid, s);
      if status.None? {
        harvest.Forget(pid);
      }
    }

    /** The state of the harvesting loop before its `i`th turn. */
    ghost predicate InRound(before: map<Pid, Snapshot>, samples: Pid -> Sample, order: seq<Pid>, i: nat,
        older: seq<Pid>, recent: seq<Pid>, results: seq<Status>, removed: seq<Pid>)
      reads this, harvest, harvest.cache, harvest.Processes()
    {
      && Valid() && harvest.cache.keys == older + recent && Distinct(order)
      && Progress(before, samples, harvest.privileged, order, i, recent, results, removed, harvest.known)
    }

    /** One turn of the harvesting loop, with what it adds to the results. */
    method CollectNext(service: Service, samples: Pid -> Sample, ghost before: map<Pid, Snapshot>,
        ghost order: seq<Pid>, ghost i: nat, ghost older: seq<Pid>, ghost recent: seq<Pid>, results: seq<Status>,
        removed: seq<Pid>)
        returns (results': seq<Status>, removed': seq<Pid>, ghost older': seq<Pid>, ghost recent': seq<Pid>)
      requires i < |order| && service.procPid == order[i]
      requires InRound(before, samples, order, i, older, recent, results, removed)
      modifies cache, harvest`known, harvest.Entry(order[i])
      ensures InRound(before, samples, order, i + 1, older', recent', results', removed')
      ensures forall p :: p in cache.entries ==>
                fresh(cache.entries[p]) || (p in old(cache.entries) && cache.entries[p] == old(cache.entries)[p])
    {
      results', removed' := results, removed;
      var pid := service.procPid;
      ProgressOne(before, samples, harvest.privileged, order, i, recent, results, removed, harvest.known);
      var status := CollectOne(pid, service, samples(pid), older, recent);
      older', recent' := Without(older, pid), if status.Some? then recent + [pid] else recent;
      if status.None? {
        removed' := removed + [pid];
        return;
      }
      results' := results + [status.value];
    }

    /** The harvesting loop, over the map in any order: the processes harvested end up behind all others. */
    method HarvestAll(pids: map<Pid, Service>, samples: Pid -> Sample)
        returns (results: seq<Status>, removed: seq<Pid>, ghost older: seq<Pid>, ghost recent: seq<Pid>)
      requires Valid() && Filed(pids)
      modifies cache, harvest`known, harvest.Processes()
      ensures Valid() && cache.keys == older + recent
      ensures Counted(old(harvest.known), samples, harvest.privileged, pids.Keys, recent, results, removed)
      ensures Brought(old(harvest.known), samples, harvest.privileged, recent, harvest.known)
      ensures forall p :: p in cache.entries ==>
                fresh(cache.entries[p]) || (p in old(cache.entries) && cache.entries[p] == old(cache.entries)[p])
    {
      hide Progress, Counted, Brought;
      results, removed := [], [];
      ghost var before := harvest.known;
      older, recent := cache.keys, [];
      var order := MapOrder(pids.Keys);
      ProgressStarts(before, samples, harvest.privileged, order);
      for i := 0 to |order|
        invariant InRound(before, samples, order, i, older, recent, results, removed)
        invariant forall p :: p in cache.entries ==>
                    fresh(cache.entries[p]) || (p in old(cache.entries) && cache.entries[p] == old(cache.entries)[p])
      {
        var pid := order[i];
        assert pid in Elements(order);
        results, removed, older, recent :=
          CollectNext(pids[pid], samples, before, order, i, older, recent, results, removed);
      }
      ProgressEnds(before, samples, harvest.privileged, order, pids.Keys, recent, results, removed, harvest.known);
    }

    /** Purges the processes that were not harvested in this round: they are the oldest. */
    method Purge(harvested: nat, ghost older: seq<Pid>, ghost recent: seq<Pid>)
      requires Valid() && cache.keys == older + recent && |recent| == harvested
      modifies cache, harvest`known
      ensures Valid() && cache.keys == recent
      ensures forall p :: p in recent ==> p in old(harvest.known) && p in harvest.known
                                          && harvest.known[p] == old(harvest.known)[p]
      ensures forall p :: p in cache.entries ==> p in old(cache.entries) && cache.entries[p] == old(cache.entries)[p]
    {
      ghost var left := older;
      while cache.Len() > harvested
        invariant Valid() && cache.keys == left + recent
        invariant forall p :: p in recent ==> p in old(harvest.known) && p in harvest.known
                                              && harvest.known[p] == old(harvest.known)[p]
        invariant forall p :: p in cache.entries ==> p in old(cache.entries)
                                                     && cache.entries[p] == old(cache.entries)[p]
        decreases |left|
      {
        DistinctTail(cache.keys);
        assert cache.keys[1..] == left[1..] + recent;
        harvest.known := harvest.known - {left[0]};
        cache.RemoveOldest();
        left := left[1..];
      }
    }

    /** One round of harvesting. The cache then holds exactly the processes harvested in this round, each brought
        forward by its sample; none of them was purged, and all others are reported as removed. */
    method Collect(pids: map<Pid, Service>, samples: Pid -> Sample) returns (results: seq<Status>, removed: seq<Pid>)
      requires Valid() && Filed(pids)
      modifies cache, harvest`known, harvest.Processes()
      ensures Valid()
      ensures Counted(old(harvest.known), samples, harvest.privileged, pids.Keys, cache.keys, results, removed)
      ensures Brought(old(harvest.known), samples, harvest.privileged, cache.keys, harvest.known)
      ensures forall p :: p in cache.entries ==>
                fresh(cache.entries[p]) || (p in old(cache.entries) && cache.entries[p] == old(cache.entries)[p])
      ensures Distinct(cache.keys) && Elements(cache.keys) == harvest.known.Keys
    {
      ghost var older, recent;
      results, removed, older, recent := HarvestAll(pids, samples);
      Purge(|results|, older, recent);
      forall p ensures p in Elements(cache.keys) <==> p in harvest.known.Keys {
        assert p in cache.keys <==> p in cache.entries.Keys;
      }
    }

    lemma NothingKnown()
      requires Valid() && cache.keys == []
      ensures harvest.known == map[] && cache.entries == map[]
    {
      forall p ensures p !in cache.entries {
        assert p !in cache.keys;
      }
    }

    /** A tick: one round, and what is left to harvest afterwards. */
    method TickOnce(pids: map<Pid, Service>, samples: Pid -> Sample)
        returns (results: seq<Status>, left: map<Pid, Service>)
      requires Valid() && Filed(pids)
      modifies cache, harvest`known, harvest.Processes()
      ensures Valid() && Filed(left)
      ensures RunState(left.Keys, harvest.known)
           == AfterTick(RunState(pids.Keys, old(harvest.known)), samples, harvest.privileged)
      ensures Batch(RunState(pids.Keys, old(harvest.known)), samples, harvest.privileged, results)
      ensures forall p :: p in cache.entries ==>
                fresh(cache.entries[p]) || (p in old(cache.entries) && cache.entries[p] == old(cache.entries)[p])
    {
      ghost var before := harvest.known;
      var removed;
      results, removed := Collect(pids, samples);
      TickIs(RunState(pids.Keys, before), samples, harvest.privileged, cache.keys, results, removed, harvest.known);
      left := pids - Elements(removed);
      assert left.Keys == pids.Keys - Elements(removed);
    }

    /** The collector's loop: spans add services, each tick harvests them all, drops those that are gone, and sends
        the statuses of the others. */
    method Run(events: seq<Event>) returns (sent: seq<seq<Status>>)
      requires Valid() && cache.keys == []
      modifies cache, harvest`known
      ensures Valid() && harvest.known == After(events, |events|, harvest.privileged).known
      ensures Sent(events, |events|, harvest.privileged, sent)
    {
      sent := [];
      var pids: map<Pid, Service> := map[];
      NothingKnown();
      assert pids.Keys == {};
      for i := 0 to |events|
        invariant Valid() && Filed(pids)
        invariant forall p :: p in cache.entries ==> fresh(cache.entries[p])
        invariant RunState(pids.Keys, harvest.known) == After(events, i, harvest.privileged)
        invariant Sent(events, i, harvest.privileged, sent)
      {
        ghost var before := After(events, i, harvest.privileged);
        match events[i] {
          case Spans(services) =>
            pids := AddServices(pids, services);
            SendNothing(events, i, harvest.privileged, sent);
          case Tick(samples) =>
            var results;
            results, pids := TickOnce(pids, samples);
            SendOne(events, i, harvest.privileged, sent, results);
            sent := sent + [results];
        }
      }
    }

    method AddServices(before: map<Pid, Service>, services: seq<Service>) returns (pids: map<Pid, Service>)
      requires Filed(before)
      ensures Filed(pids) && pids.Keys == before.Keys + Wanted(services, |services|)
    {
      pids := before;
      for i := 0 to |services|
        invariant Filed(pids) && pids.Keys == before.Keys + Wanted(services, i)
      {
        if !services[i].wantsProcess {
          continue;
        }
        pids := pids[services[i].procPid := services[i]];
      }
    }
  }

  // ---------- which processes are reported ----------

  /** Spans of a service that wants process metrics, running as `pid`. */
  predicate Asks(e: Event, pid: Pid) {
    && e.Spans?
    && exists i :: 0 <= i < |e.services| && e.services[i].wantsProcess && e.services[i].procPid == pid
  }

  /** Exactly the services that want process metrics have their processes harvested. */
  lemma {:induction false} WantedExactly(services: seq<Service>, n: nat, pid: Pid)
    requires n <= |services|
    ensures pid in Wanted(services, n)
       <==> exists i :: 0 <= i < n && services[i].wantsProcess && services[i].procPid == pid
  {
    if n > 0 {
      WantedExactly(services, n - 1, pid);
    }
  }

  // ---------- deltas over a whole run ----------

  /** The samples the ticks among the events from `j` up to `n` took of one process. */
  function SamplesOf(events: seq<Event>, j: nat, n: nat, pid: Pid): seq<Sample>
    requires j <= n <= |events|
  {
    if n == j then []
    else
      SamplesOf(events, j, n - 1, pid)
      + match events[n - 1] { case Spans(_) => [] case Tick(samples) => [samples(pid)] }
  }

  lemma {:induction false} CachedPrefix(samples: seq<Sample>, s: Sample, n: nat, privileged: bool)
    requires n <= |samples|
    ensures CachedAfter(samples + [s], n, privileged) == CachedAfter(samples, n, privileged)
  {
    if n > 0 {
      CachedPrefix(samples, s, n - 1, privileged);
    }
  }

  predicate AlwaysRead(events: seq<Event>, j: nat, n: nat, pid: Pid)
    requires j <= n <= |events|
  {
    AllRead(SamplesOf(events, j, n, pid))
  }

  lemma AlwaysReadStep(events: seq<Event>, j: nat, n: nat, pid: Pid)
    requires j < n <= |events| && AlwaysRead(events, j, n, pid)
    ensures AlwaysRead(events, j, n - 1, pid)
    ensures events[n - 1].Tick? ==> events[n - 1].samples(pid).Sample? && events[n - 1].samples(pid).opens
  {
    var before := SamplesOf(events, j, n - 1, pid);
    var all := SamplesOf(events, j, n, pid);
    assert forall i :: 0 <= i < |before| ==> all[i] == before[i];
    if events[n - 1].Tick? {
      assert all[|before|] == events[n - 1].samples(pid);
    }
  }

  /** Event `j` asks for a process that is not being harvested: one never asked for, or one that has been dropped. */
  predicate Joins(events: seq<Event>, j: nat, pid: Pid, privileged: bool) {
    && j < |events| && Asks(events[j], pid)
    && pid !in After(events, j, privileged).pids
  }

  /** Nothing is known of processes that are not being harvested. */
  lemma {:induction false} KnownAreHarvested(events: seq<Event>, n: nat, privileged: bool)
    requires n <= |events|
    ensures After(events, n, privileged).known.Keys <= After(events, n, privileged).pids
  {
    if n > 0 {
      KnownAreHarvested(events, n - 1, privileged);
    }
  }

  lemma TickFollows(before: RunState, samples: Pid -> Sample, pid: Pid, privileged: bool)
    requires pid in before.pids && samples(pid).Sample? && samples(pid).opens
    ensures pid in AfterTick(before, samples, privileged).pids
    ensures Cached(AfterTick(before, samples, privileged).known, pid)
         == NextCached(Cached(before.known, pid), samples(pid), privileged)
  {
  }

  /** The process is being harvested, and the cache has followed its samples since event `j`. */
  predicate Followed(events: seq<Event>, j: nat, n: nat, pid: Pid, privileged: bool)
    requires j <= n <= |events|
  {
    var state, samples := After(events, n, privileged), SamplesOf(events, j, n, pid);
    pid in state.pids && Cached(state.known, pid) == CachedAfter(samples, |samples|, privileged)
  }

  lemma JoinedFollowed(events: seq<Event>, j: nat, pid: Pid, privileged: bool)
    requires Joins(events, j, pid, privileged)
    ensures Followed(events, j, j + 1, pid, privileged)
  {
    KnownAreHarvested(events, j, privileged);
    WantedExactly(events[j].services, |events[j].services|, pid);
    assert SamplesOf(events, j, j, pid) == [] && SamplesOf(events, j, j + 1, pid) == [];
  }

  lemma SpansFollowed(events: seq<Event>, j: nat, n: nat, pid: Pid, privileged: bool)
    requires j < n <= |events| && events[n - 1].Spans? && Followed(events, j, n - 1, pid, privileged)
    ensures Followed(events, j, n, pid, privileged)
  {
    assert SamplesOf(events, j, n, pid) == SamplesOf(events, j, n - 1, pid);
  }

  lemma TickFollowed(events: seq<Event>, j: nat, n: nat, pid: Pid, privileged: bool)
    requires j < n <= |events| && events[n - 1].Tick? && Followed(events, j, n - 1, pid, privileged)
    requires events[n - 1].samples(pid).Sample? && events[n - 1].samples(pid).opens
    ensures Followed(events, j, n, pid, privileged)
  {
    var samples, s := SamplesOf(events, j, n - 1, pid), events[n - 1].samples(pid);
    assert SamplesOf(events, j, n, pid) == samples + [s];
    TickFollows(After(events, n - 1, privileged), events[n - 1].samples, pid, privileged);
    CachedPrefix(samples, s, |samples|, privileged);
    hide AfterTick, NextCached;
  }

  /** A process that joins at any event and is found at every tick from then on stays in the run, and the cache follows
      its samples. */
  lemma {:induction false} RunFollows(events: seq<Event>, j: nat, n: nat, pid: Pid, privileged: bool)
    requires j < n <= |events| && Joins(events, j, pid, privileged) && AlwaysRead(events, j, n, pid)
    ensures Followed(events, j, n, pid, privileged)
  {
    hide Followed, Joins, AlwaysRead;
    if n == j + 1 {
      JoinedFollowed(events, j, pid, privileged);
    } else {
      AlwaysReadStep(events, j, n, pid);
      RunFollows(events, j, n - 1, pid, privileged);
      if events[n - 1].Tick? {
        TickFollowed(events, j, n, pid, privileged);
      } else {
        SpansFollowed(events, j, n, pid, privileged);
      }
    }
  }

  lemma StatusOfLast(all: seq<Sample>, samples: seq<Sample>, s: Sample, cached: Option<Snapshot>, pid: Pid,
      privileged: bool)
    requires all == samples + [s] && AllRead(all) && cached == CachedAfter(samples, |samples|, privileged)
    ensures Reported(cached, pid, s, privileged) == Some(StatusOf(all, |all| - 1, privileged).(pid := pid))
  {
    assert all[|samples|] == s;
    CachedPrefix(samples, s, |samples|, privileged);
  }

  /** What the tick `n` reports about a process is what the telescoping results speak about. */
  ghost predicate ReportsLast(events: seq<Event>, n: nat, all: seq<Sample>, pid: Pid, privileged: bool)
    requires n < |events| && events[n].Tick?
  {
    var before, samples := After(events, n, privileged), events[n].samples;
    && AllRead(all) && |all| > 0 && pid in AfterTick(before, samples, privileged).pids
    && Reported(Cached(before.known, pid), pid, samples(pid), privileged)
       == Some(StatusOf(all, |all| - 1, privileged).(pid := pid))
  }

  /** So it is for every process that has joined and was found at every tick since. */
  lemma RunReports(events: seq<Event>, j: nat, n: nat, pid: Pid, privileged: bool)
    requires j < n < |events| && Joins(events, j, pid, privileged)
    requires events[n].Tick? && AlwaysRead(events, j, n + 1, pid)
    ensures ReportsLast(events, n, SamplesOf(events, j, n + 1, pid), pid, privileged)
  {
    var all, samples, s := SamplesOf(events, j, n + 1, pid), SamplesOf(events, j, n, pid), events[n].samples(pid);
    assert all == samples + [s];
    AlwaysReadStep(events, j, n + 1, pid);
    hide AfterTick, NextCached, After, SamplesOf, CachedAfter, StatusOf, Reported, Joins;
    RunFollows(events, j, n, pid, privileged);
    var before := After(events, n, privileged);
    TickFollows(before, events[n].samples, pid, privileged);
    StatusOfLast(all, samples, s, Cached(before.known, pid), pid, privileged);
  }
}
