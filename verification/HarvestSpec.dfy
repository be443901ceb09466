/** What harvesting reports about one process: gauges, and deltas against the sample before. */
module HarvestSpec {
  import opened Text

  type Pid = int

  const INT64_LIMIT: int := 0x8000_0000_0000_0000
  const UINT64_LIMIT: int := 0x1_0000_0000_0000_0000

  /** Difference of two `int64`. */
  function Sub64(a: int, b: int): (r: int)
    ensures -INT64_LIMIT <= r < INT64_LIMIT
  {
    (a - b + INT64_LIMIT) % UINT64_LIMIT - INT64_LIMIT
  }

  /** Difference of two `uint64`. */
  function SubU64(a: nat, b: nat): (r: nat)
    ensures r < UINT64_LIMIT
  {
    (a - b) % UINT64_LIMIT
  }

  datatype Cpu = Cpu(user: real, system: real, wait: real)

  const NO_CPU := Cpu(0.0, 0.0, 0.0)

  datatype Stats = Stats(command: string, ppid: Pid, threads: int, state: string, rss: int, vms: int, cpu: Cpu)

  const NO_STATS := Stats("", 0, 0, "", 0, 0, NO_CPU)

  datatype Io = Io(readCount: nat, writeCount: nat, readBytes: nat, writeBytes: nat)

  /** What the process file system says in one round: the process is gone, or its statistics, whether a handle on it
      can be opened, and the I/O and network counters if they could be read. */
  datatype Sample = Gone | Sample(stats: Stats, opens: bool, io: Option<Io>, net: Option<(int, int)>)

  /** The fields of a cached process that later rounds use. */
  datatype Snapshot = Snapshot(stats: Stats, prevStats: Stats, previousIo: Option<Io>, previousRx: int, previousTx: int)

  datatype Status = Status(
    pid: Pid,
    command: string,
    ppid: Pid,
    threads: int,
    state: string,
    cpuDelta: Cpu,
    rss: int,
    vms: int,
    rssDelta: int,
    vmsDelta: int,
    readCount: nat,
    writeCount: nat,
    readDelta: nat,
    writeDelta: nat,
    rxDelta: int,
    txDelta: int)

  // ---------- one harvest ----------

  predicate SameProcess(a: Stats, b: Stats) {
    a.command == b.command && a.ppid == b.ppid
  }

  /** The snapshot to report from: the cached one with new statistics, or a fresh one. */
  function Acquire(cached: Option<Snapshot>, s: Sample): Option<Snapshot> {
    if s.Gone? then None
    else if cached.None? || !SameProcess(s.stats, cached.value.stats) then
      (if s.opens then Some(Snapshot(s.stats, NO_STATS, None, 0, 0)) else None)
    else Some(cached.value.(stats := s.stats))
  }

  function CpuDelta(now: Cpu, before: Cpu): Cpu {
    if before == NO_CPU then NO_CPU else Cpu(now.user - before.user, now.system - before.system, now.wait - before.wait)
  }

  function NetDelta(now: (int, int), rx: int, tx: int): (int, int) {
    if now.0 <= rx || now.1 <= tx then (0, 0) else (Sub64(now.0, rx), Sub64(now.1, tx))
  }

  function PreviousIo(p: Snapshot): Io {
    if p.previousIo.Some? then p.previousIo.value else Io(0, 0, 0, 0)
  }

  /** The status reported from an acquired snapshot. */
  function Report(pid: Pid, p: Snapshot, s: Sample, privileged: bool): Status
    requires s.Sample?
  {
    var io := if privileged then s.io else None;
    var prev := PreviousIo(p);
    var net := if s.net.Some? then NetDelta(s.net.value, p.previousRx, p.previousTx) else (0, 0);
    Status(pid, p.stats.command, p.stats.ppid, p.stats.threads, p.stats.state,
           CpuDelta(p.stats.cpu, p.prevStats.cpu),
           p.stats.rss, p.stats.vms, Sub64(p.stats.rss, p.prevStats.rss), Sub64(p.stats.vms, p.prevStats.vms),
           if io.Some? then io.value.readCount else 0,
           if io.Some? then io.value.writeCount else 0,
           if io.Some? then SubU64(io.value.readBytes, prev.readBytes) else 0,
           if io.Some? then SubU64(io.value.writeBytes, prev.writeBytes) else 0,
           net.0, net.1)
  }

  /** The snapshot as it is left behind. */
  function Advance(p: Snapshot, s: Sample, privileged: bool): Snapshot
    requires s.Sample?
  {
    p.(prevStats := p.stats,
       previousIo := if !privileged then None else if s.io.Some? then s.io else p.previousIo,
       previousRx := if s.net.Some? then s.net.value.0 else p.previousRx,
       previousTx := if s.net.Some? then s.net.value.1 else p.previousTx)
  }

  /** A fresh snapshot joins the cache only if there was none: one that replaces another process is dropped. */
  function NextCached(cached: Option<Snapshot>, s: Sample, privileged: bool): Option<Snapshot> {
    match Acquire(cached, s)
    case None => cached
    case Some(p) =>
      if cached.Some? && !SameProcess(s.stats, cached.value.stats) then cached else Some(Advance(p, s, privileged))
  }

  // ---------- rounds of one PID ----------

  /** Every round finds a process it can report on. */
  predicate AllRead(samples: seq<Sample>) {
    forall i :: 0 <= i < |samples| ==> samples[i].Sample? && samples[i].opens
  }

  /** The cache entry after the first `n` rounds. */
  function CachedAfter(samples: seq<Sample>, n: nat, privileged: bool): Option<Snapshot>
    requires n <= |samples|
  {
    if n == 0 then None else NextCached(CachedAfter(samples, n - 1, privileged), samples[n - 1], privileged)
  }

  /** The status of round `i`. */
  function StatusOf(samples: seq<Sample>, i: nat, privileged: bool): Status
    requires AllRead(samples) && i < |samples|
  {
    Report(0, Acquire(CachedAfter(samples, i, privileged), samples[i]).value, samples[i], privileged)
  }

  /** The first `n` rounds found the same process. */
  predicate OneProcess(samples: seq<Sample>, n: nat)
    requires AllRead(samples) && n <= |samples|
  {
    forall i :: 0 <= i < n ==> SameProcess(samples[i].stats, samples[0].stats)
  }

  /** The sum of a reported quantity over the first `n` rounds. */
  function Total(samples: seq<Sample>, n: nat, privileged: bool, quantity: Status -> int): int
    requires AllRead(samples) && n <= |samples|
  {
    if n == 0 then 0
    else Total(samples, n - 1, privileged, quantity) + quantity(StatusOf(samples, n - 1, privileged))
  }

  /** Of one unchanged process, the cache holds the sample before. */
  lemma {:induction false} CachedIs(samples: seq<Sample>, n: nat, privileged: bool)
    requires AllRead(samples) && 0 < n <= |samples| && OneProcess(samples, n)
    ensures var c := CachedAfter(samples, n, privileged);
            c.Some? && c.value.stats == c.value.prevStats == samples[n - 1].stats
  {
    if n > 1 {
      CachedIs(samples, n - 1, privileged);
      assert SameProcess(samples[n - 1].stats, samples[0].stats) && SameProcess(samples[n - 2].stats, samples[0].stats);
    }
  }

  /** In round `i` of one unchanged process the snapshot is the cached one, with the new statistics. */
  lemma AcquiredIs(samples: seq<Sample>, i: nat, privileged: bool)
    requires AllRead(samples) && 0 < i < |samples| && OneProcess(samples, i + 1)
    ensures var c := CachedAfter(samples, i, privileged);
            c.Some? && c.value.prevStats == samples[i - 1].stats
            && SameProcess(samples[i].stats, c.value.stats)
            && Acquire(c, samples[i]) == Some(c.value.(stats := samples[i].stats))
  {
    CachedIs(samples, i, privileged);
    assert SameProcess(samples[i].stats, samples[0].stats) && SameProcess(samples[i - 1].stats, samples[0].stats);
  }

  // ---------- memory ----------

  predicate Counts(x: int) {
    0 <= x < INT64_LIMIT
  }

  predicate MemoryCounts(samples: seq<Sample>)
    requires AllRead(samples)
  {
    forall i :: 0 <= i < |samples| ==> Counts(samples[i].stats.rss) && Counts(samples[i].stats.vms)
  }

  lemma Sub64Exact(a: int, b: int)
    requires Counts(a) && Counts(b)
    ensures Sub64(a, b) == a - b
  {
  }

  datatype Memory = Resident | Virtual

  function Use(m: Memory, s: Stats): int {
    match m
    case Resident => s.rss
    case Virtual => s.vms
  }

  function Grown(m: Memory): Status -> int {
    match m
    case Resident => (s: Status) => s.rssDelta
    case Virtual => (s: Status) => s.vmsDelta
  }

  /** Round `i` found the process that was found first. */
  predicate First(samples: seq<Sample>, i: nat)
    requires AllRead(samples) && i < |samples|
  {
    SameProcess(samples[i].stats, samples[0].stats)
  }

  /** The last statistics of the first process among the first `n` rounds. */
  function Latest(samples: seq<Sample>, n: nat): Stats
    requires AllRead(samples) && n <= |samples|
  {
    if n == 0 then NO_STATS else if First(samples, n - 1) then samples[n - 1].stats else Latest(samples, n - 1)
  }

  /** The uses found for other processes in the first `n` rounds. */
  function Others(samples: seq<Sample>, n: nat, m: Memory): int
    requires AllRead(samples) && n <= |samples|
  {
    if n == 0 then 0
    else Others(samples, n - 1, m) + if First(samples, n - 1) then 0 else Use(m, samples[n - 1].stats)
  }

  /** The cache holds the latest statistics of the first process, whatever processes took over the PID. */
  lemma {:induction false} CachedIsLatest(samples: seq<Sample>, n: nat, privileged: bool)
    requires AllRead(samples) && 0 < n <= |samples|
    ensures var c := CachedAfter(samples, n, privileged);
            && c.Some? && c.value.stats == c.value.prevStats == Latest(samples, n)
            && SameProcess(c.value.stats, samples[0].stats)
  {
    if n > 1 {
      CachedIsLatest(samples, n - 1, privileged);
    }
  }

  /** A process that has taken over the PID reports its whole memory use as a delta, every time it is found, and
      leaves no trace in the cache. */
  lemma TakeoverReportsAll(samples: seq<Sample>, i: nat, privileged: bool)
    requires AllRead(samples) && MemoryCounts(samples) && 0 < i < |samples| && !First(samples, i)
    ensures StatusOf(samples, i, privileged).rssDelta == samples[i].stats.rss
    ensures StatusOf(samples, i, privileged).vmsDelta == samples[i].stats.vms
    ensures CachedAfter(samples, i + 1, privileged) == CachedAfter(samples, i, privileged)
  {
    CachedIsLatest(samples, i, privileged);
    Sub64Exact(samples[i].stats.rss, 0);
    Sub64Exact(samples[i].stats.vms, 0);
  }

  lemma {:induction false} LatestCounts(samples: seq<Sample>, n: nat)
    requires AllRead(samples) && MemoryCounts(samples) && n <= |samples|
    ensures Counts(Latest(samples, n).rss) && Counts(Latest(samples, n).vms)
  {
    if n > 0 {
      LatestCounts(samples, n - 1);
    }
  }

  lemma FirstReportsGrowth(samples: seq<Sample>, i: nat, privileged: bool)
    requires AllRead(samples) && MemoryCounts(samples) && i < |samples| && First(samples, i)
    ensures StatusOf(samples, i, privileged).rssDelta == samples[i].stats.rss - Latest(samples, i).rss
    ensures StatusOf(samples, i, privileged).vmsDelta == samples[i].stats.vms - Latest(samples, i).vms
  {
    if i > 0 {
      CachedIsLatest(samples, i, privileged);
    }
    LatestCounts(samples, i);
    Sub64Exact(samples[i].stats.rss, Latest(samples, i).rss);
    Sub64Exact(samples[i].stats.vms, Latest(samples, i).vms);
  }

  /** What memory deltas add up to, whatever processes the PID stands for: the latest use of the first process, and
      on top of that every use found for another one. */
  lemma {:induction false} MemoryAddsUp(samples: seq<Sample>, n: nat, privileged: bool, m: Memory)
    requires AllRead(samples) && MemoryCounts(samples) && n <= |samples|
    ensures Total(samples, n, privileged, Grown(m)) == Use(m, Latest(samples, n)) + Others(samples, n, m)
  {
    if n > 0 {
      MemoryAddsUp(samples, n - 1, privileged, m);
      if First(samples, n - 1) {
        FirstReportsGrowth(samples, n - 1, privileged);
      } else {
        TakeoverReportsAll(samples, n - 1, privileged);
      }
    }
  }

  /** No process but the first one is found using memory in the first `n` rounds. */
  predicate OthersIdle(samples: seq<Sample>, n: nat, m: Memory)
    requires AllRead(samples) && n <= |samples|
  {
    forall i :: 0 <= i < n && !First(samples, i) ==> Use(m, samples[i].stats) == 0
  }

  lemma {:induction false} OthersAreIdle(samples: seq<Sample>, n: nat, m: Memory)
    requires AllRead(samples) && MemoryCounts(samples) && n <= |samples|
    ensures Others(samples, n, m) >= 0 && (Others(samples, n, m) == 0 <==> OthersIdle(samples, n, m))
  {
    if n > 0 {
      OthersAreIdle(samples, n - 1, m);
    }
  }

  /** The deltas add up to the use found last if and only if no process but the first one was found using memory in an
      earlier round and, where the last round finds another one, the first one used none when it was found last. */
  lemma MemoryExactly(samples: seq<Sample>, n: nat, privileged: bool, m: Memory)
    requires AllRead(samples) && MemoryCounts(samples) && 0 < n <= |samples|
    ensures Total(samples, n, privileged, Grown(m)) == Use(m, samples[n - 1].stats)
       <==> if First(samples, n - 1) then OthersIdle(samples, n, m)
            else Use(m, Latest(samples, n)) == 0 && OthersIdle(samples, n - 1, m)
  {
    MemoryAddsUp(samples, n, privileged, m);
    OthersAreIdle(samples, n, m);
    OthersAreIdle(samples, n - 1, m);
    LatestCounts(samples, n);
  }

  /** Memory deltas of one process add up to its latest memory use. */
  lemma MemoryTelescopes(samples: seq<Sample>, n: nat, privileged: bool, m: Memory)
    requires AllRead(samples) && MemoryCounts(samples) && 0 < n <= |samples| && OneProcess(samples, n)
    ensures Total(samples, n, privileged, Grown(m)) == Use(m, samples[n - 1].stats)
  {
    MemoryExactly(samples, n, privileged, m);
  }

  lemma {:induction false} FirstTakeover(samples: seq<Sample>, n: nat) returns (k: nat)
    requires AllRead(samples) && n <= |samples| && !OneProcess(samples, n)
    ensures 0 < k < n && OneProcess(samples, k) && !First(samples, k)
  {
    if OneProcess(samples, n - 1) {
      k := n - 1;
    } else {
      k := FirstTakeover(samples, n - 1);
    }
  }

  /** The deltas of processes that use memory add up to the latest use in every round exactly if the PID keeps its
      process. */
  lemma MemoryKept(samples: seq<Sample>, privileged: bool, m: Memory)
    requires AllRead(samples) && MemoryCounts(samples)
    requires forall i :: 0 <= i < |samples| ==> Use(m, samples[i].stats) > 0
    ensures (forall n :: 0 < n <= |samples| ==>
               Total(samples, n, privileged, Grown(m)) == Use(m, samples[n - 1].stats))
        <==> OneProcess(samples, |samples|)
  {
    if OneProcess(samples, |samples|) {
      forall n | 0 < n <= |samples| ensures Total(samples, n, privileged, Grown(m)) == Use(m, samples[n - 1].stats) {
        MemoryTelescopes(samples, n, privileged, m);
      }
    } else {
      var k := FirstTakeover(samples, |samples|);
      MemoryExactly(samples, k + 1, privileged, m);
      assert First(samples, k - 1);
    }
  }

  // ---------- processor time ----------

  datatype Mode = User | System | Wait

  function Time(c: Cpu, m: Mode): real {
    match m
    case User => c.user
    case System => c.system
    case Wait => c.wait
  }

  function TotalCpu(samples: seq<Sample>, n: nat, privileged: bool, m: Mode): real
    requires AllRead(samples) && n <= |samples|
  {
    if n == 0 then 0.0
    else TotalCpu(samples, n - 1, privileged, m) + Time(StatusOf(samples, n - 1, privileged).cpuDelta, m)
  }

  predicate AtMost(a: Cpu, b: Cpu) {
    a.user <= b.user && a.system <= b.system && a.wait <= b.wait
  }

  function CpuBefore(samples: seq<Sample>, i: nat): Cpu
    requires AllRead(samples) && i <= |samples|
  {
    if i == 0 then NO_CPU else samples[i - 1].stats.cpu
  }

  /** Processor times start from zero or above and never shrink. */
  predicate CpuGrows(samples: seq<Sample>)
    requires AllRead(samples)
  {
    forall i :: 0 <= i < |samples| ==> AtMost(CpuBefore(samples, i), samples[i].stats.cpu)
  }

  /** First of the first `n` samples with any processor time, or `n`. */
  function FirstBusy(samples: seq<Sample>, n: nat): (f: nat)
    requires AllRead(samples) && n <= |samples|
    ensures f <= n && (f < n ==> samples[f].stats.cpu != NO_CPU)
  {
    if n == 0 then 0
    else
      var f := FirstBusy(samples, n - 1);
      if f < n - 1 || samples[n - 1].stats.cpu != NO_CPU then f else n
  }

  lemma {:induction false} BusyStaysBusy(samples: seq<Sample>, n: nat)
    requires AllRead(samples) && CpuGrows(samples) && 0 < n <= |samples|
    ensures AtMost(NO_CPU, samples[n - 1].stats.cpu)
    ensures FirstBusy(samples, n) < n <==> samples[n - 1].stats.cpu != NO_CPU
  {
    assert AtMost(CpuBefore(samples, n - 1), samples[n - 1].stats.cpu);
    if n > 1 {
      BusyStaysBusy(samples, n - 1);
    }
  }

  lemma CpuOfRound(samples: seq<Sample>, i: nat, privileged: bool)
    requires AllRead(samples) && i < |samples| && OneProcess(samples, i + 1)
    ensures StatusOf(samples, i, privileged).cpuDelta == CpuDelta(samples[i].stats.cpu, CpuBefore(samples, i))
  {
    if i > 0 {
      AcquiredIs(samples, i, privileged);
    }
  }

  lemma TimeOfDelta(now: Cpu, before: Cpu, m: Mode)
    ensures Time(CpuDelta(now, before), m) == if before == NO_CPU then 0.0 else Time(now, m) - Time(before, m)
  {
  }

  /** What the processor time deltas of the first `n` rounds should add up to. */
  function CpuSinceBusy(samples: seq<Sample>, n: nat, m: Mode): real
    requires AllRead(samples) && n <= |samples|
  {
    var f := FirstBusy(samples, n);
    if f == n then 0.0 else Time(samples[n - 1].stats.cpu, m) - Time(samples[f].stats.cpu, m)
  }

  lemma CpuStep(samples: seq<Sample>, n: nat, m: Mode)
    requires AllRead(samples) && CpuGrows(samples) && 0 < n <= |samples|
    ensures CpuSinceBusy(samples, n - 1, m) + Time(CpuDelta(samples[n - 1].stats.cpu, CpuBefore(samples, n - 1)), m)
         == CpuSinceBusy(samples, n, m)
  {
    TimeOfDelta(samples[n - 1].stats.cpu, CpuBefore(samples, n - 1), m);
    if n > 1 {
      BusyStaysBusy(samples, n - 1);
    }
  }

  /** Processor time deltas of one process add up to the latest time less that of its first busy sample. */
  lemma {:induction false} CpuTelescopes(samples: seq<Sample>, n: nat, privileged: bool, m: Mode)
    requires AllRead(samples) && CpuGrows(samples) && n <= |samples| && OneProcess(samples, n)
    ensures TotalCpu(samples, n, privileged, m) == CpuSinceBusy(samples, n, m)
  {
    if n > 0 {
      hide StatusOf, CpuSinceBusy, CpuDelta, FirstBusy;
      CpuTelescopes(samples, n - 1, privileged, m);
      CpuOfRound(samples, n - 1, privileged);
      CpuStep(samples, n, m);
    }
  }

  // ---------- I/O ----------

  /** The counters of the last round, among the first `n`, in which they could be read. */
  function LastIo(samples: seq<Sample>, n: nat): Option<Io>
    requires AllRead(samples) && n <= |samples|
  {
    if n == 0 then None else if samples[n - 1].io.Some? then samples[n - 1].io else LastIo(samples, n - 1)
  }

  lemma {:induction false} IoCached(samples: seq<Sample>, n: nat)
    requires AllRead(samples) && 0 < n <= |samples| && OneProcess(samples, n)
    ensures CachedAfter(samples, n, true).Some? && CachedAfter(samples, n, true).value.previousIo == LastIo(samples, n)
  {
    if n > 1 {
      IoCached(samples, n - 1);
      AcquiredIs(samples, n - 1, true);
    } else {
      assert CachedAfter(samples, 0, true) == None && LastIo(samples, 0) == None;
    }
  }

  predicate IoCounts(samples: seq<Sample>)
    requires AllRead(samples)
  {
    forall i :: 0 <= i < |samples| && samples[i].io.Some? ==>
      samples[i].io.value.readBytes < UINT64_LIMIT && samples[i].io.value.writeBytes < UINT64_LIMIT
  }

  const READ: Status -> int := (s: Status) => s.readDelta
  const WRITTEN: Status -> int := (s: Status) => s.writeDelta

  lemma ModularStep(total: int, now: nat, before: nat)
    requires total % UINT64_LIMIT == before && now < UINT64_LIMIT
    ensures (total + SubU64(now, before)) % UINT64_LIMIT == now
  {
    var q := total / UINT64_LIMIT;
    assert total == UINT64_LIMIT * q + before;
    if now >= before {
      assert SubU64(now, before) == now - before;
      Multiple(q, now);
    } else {
      assert SubU64(now, before) == now - before + UINT64_LIMIT by { Multiple(-1, now - before + UINT64_LIMIT); }
      Multiple(q + 1, now);
    }
  }

  lemma Multiple(q: int, r: nat)
    requires r < UINT64_LIMIT
    ensures (UINT64_LIMIT * q + r) % UINT64_LIMIT == r
  {
  }

  function BytesRead(io: Option<Io>): nat {
    if io.Some? then io.value.readBytes else 0
  }

  function BytesWritten(io: Option<Io>): nat {
    if io.Some? then io.value.writeBytes else 0
  }

  lemma IoOfRound(samples: seq<Sample>, i: nat)
    requires AllRead(samples) && i < |samples| && OneProcess(samples, i + 1)
    ensures var s, last, now := StatusOf(samples, i, true), LastIo(samples, i), samples[i].io;
            && s.readDelta == (if now.Some? then SubU64(BytesRead(now), BytesRead(last)) else 0)
            && s.writeDelta == (if now.Some? then SubU64(BytesWritten(now), BytesWritten(last)) else 0)
  {
    if i > 0 {
      IoCached(samples, i);
      AcquiredIs(samples, i, true);
    }
  }

  /** Byte deltas of one process, read by a privileged harvester, add up to the last counter read, modulo the
      counter's width and even across failed reads. */
  lemma {:induction false} IoTelescopes(samples: seq<Sample>, n: nat)
    requires AllRead(samples) && IoCounts(samples) && n <= |samples| && OneProcess(samples, n)
    ensures Total(samples, n, true, READ) % UINT64_LIMIT == BytesRead(LastIo(samples, n))
    ensures Total(samples, n, true, WRITTEN) % UINT64_LIMIT == BytesWritten(LastIo(samples, n))
  {
    if n > 0 {
      IoTelescopes(samples, n - 1);
      IoOfRound(samples, n - 1);
      var now, last := samples[n - 1].io, LastIo(samples, n - 1);
      if now.Some? {
        ModularStep(Total(samples, n - 1, true, READ), BytesRead(now), BytesRead(last));
        ModularStep(Total(samples, n - 1, true, WRITTEN), BytesWritten(now), BytesWritten(last));
      }
    }
  }

  // ---------- network ----------

  /** The counters of the last round, among the first `n`, in which they could be read. */
  function LastNet(samples: seq<Sample>, n: nat): (int, int)
    requires AllRead(samples) && n <= |samples|
  {
    if n == 0 then (0, 0) else if samples[n - 1].net.Some? then samples[n - 1].net.value else LastNet(samples, n - 1)
  }

  lemma {:induction false} NetCached(samples: seq<Sample>, n: nat, privileged: bool)
    requires AllRead(samples) && 0 < n <= |samples| && OneProcess(samples, n)
    ensures var c := CachedAfter(samples, n, privileged);
            c.Some? && (c.value.previousRx, c.value.previousTx) == LastNet(samples, n)
  {
    if n > 1 {
      NetCached(samples, n - 1, privileged);
      AcquiredIs(samples, n - 1, privileged);
    } else {
      assert CachedAfter(samples, 0, privileged) == None && LastNet(samples, 0) == (0, 0);
    }
  }

  predicate NetCounts(samples: seq<Sample>)
    requires AllRead(samples)
  {
    forall i :: 0 <= i < |samples| && samples[i].net.Some? ==>
      Counts(samples[i].net.value.0) && Counts(samples[i].net.value.1)
  }

  function NetReported(s: Status): (int, int) {
    (s.rxDelta, s.txDelta)
  }

  /** The network deltas of a round. */
  lemma NetOfRound(samples: seq<Sample>, i: nat, privileged: bool)
    requires AllRead(samples) && i < |samples| && OneProcess(samples, i + 1)
    ensures var s, last := StatusOf(samples, i, privileged), LastNet(samples, i);
            NetReported(s) == if samples[i].net.Some? then NetDelta(samples[i].net.value, last.0, last.1) else (0, 0)
  {
    if i > 0 {
      NetCached(samples, i, privileged);
      AcquiredIs(samples, i, privileged);
    }
  }

  lemma {:induction false} LastNetCounts(samples: seq<Sample>, n: nat)
    requires AllRead(samples) && NetCounts(samples) && n <= |samples|
    ensures Counts(LastNet(samples, n).0) && Counts(LastNet(samples, n).1)
  {
    if n > 0 && samples[n - 1].net.None? {
      LastNetCounts(samples, n - 1);
    }
  }

  /** The counters kept in the cache were read at some time, or are zero. */
  lemma {:induction false} CachedNetCounts(samples: seq<Sample>, n: nat, privileged: bool)
    requires AllRead(samples) && NetCounts(samples) && n <= |samples|
    ensures var c := CachedAfter(samples, n, privileged);
            c.Some? ==> Counts(c.value.previousRx) && Counts(c.value.previousTx)
  {
    if n > 0 {
      CachedNetCounts(samples, n - 1, privileged);
    }
  }

  lemma NetDeltaCounts(now: (int, int), rx: int, tx: int)
    requires Counts(now.0) && Counts(now.1) && Counts(rx) && Counts(tx)
    ensures NetDelta(now, rx, tx).0 >= 0 && NetDelta(now, rx, tx).1 >= 0
  {
    Sub64Exact(now.0, rx);
    Sub64Exact(now.1, tx);
  }

  /** Network deltas are never negative, whatever the counters do and whichever processes the PID stands for. */
  lemma NetNeverNegative(samples: seq<Sample>, i: nat, privileged: bool)
    requires AllRead(samples) && NetCounts(samples) && i < |samples|
    ensures StatusOf(samples, i, privileged).rxDelta >= 0 && StatusOf(samples, i, privileged).txDelta >= 0
  {
    CachedNetCounts(samples, i, privileged);
    var p := Acquire(CachedAfter(samples, i, privileged), samples[i]).value;
    if samples[i].net.Some? {
      NetDeltaCounts(samples[i].net.value, p.previousRx, p.previousTx);
    }
  }

  /** Neither counter read shrinks in the first `n` rounds. */
  predicate NetGrows(samples: seq<Sample>, n: nat)
    requires AllRead(samples) && n <= |samples|
  {
    forall i :: 0 <= i < n && samples[i].net.Some? ==>
      LastNet(samples, i).0 <= samples[i].net.value.0 && LastNet(samples, i).1 <= samples[i].net.value.1
  }

  datatype Direction = Receiving | Sending

  function Way(d: Direction, counters: (int, int)): int {
    match d
    case Receiving => counters.0
    case Sending => counters.1
  }

  function Back(d: Direction): Direction {
    match d
    case Receiving => Sending
    case Sending => Receiving
  }

  function Transferred(d: Direction): Status -> int {
    match d
    case Receiving => (s: Status) => s.rxDelta
    case Sending => (s: Status) => s.txDelta
  }

  /** Whenever there was traffic in direction `d`, there was traffic the other way as well. */
  predicate NetTogether(samples: seq<Sample>, n: nat, d: Direction)
    requires AllRead(samples) && n <= |samples|
  {
    forall i :: 0 <= i < n && samples[i].net.Some? && Way(d, LastNet(samples, i)) < Way(d, samples[i].net.value) ==>
      Way(Back(d), LastNet(samples, i)) < Way(Back(d), samples[i].net.value)
  }

  lemma NetStep(total: int, last: (int, int), now: (int, int), d: Direction)
    requires Counts(Way(d, last)) && Counts(Way(d, now)) && last.0 <= now.0 && last.1 <= now.1 && total <= Way(d, last)
    ensures var t := total + Way(d, NetDelta(now, last.0, last.1));
            && t <= Way(d, now)
            && (t == Way(d, now) <==>
                total == Way(d, last) && (Way(d, last) < Way(d, now) ==> Way(Back(d), last) < Way(Back(d), now)))
  {
    Sub64Exact(Way(d, now), Way(d, last));
  }

  /** Of counters that do not shrink, the deltas in either direction add up to at most the latest counter, and to
      exactly it if and only if there was no traffic in that direction in a round without any in the other. */
  lemma {:induction false} NetExactly(samples: seq<Sample>, n: nat, privileged: bool, d: Direction)
    requires AllRead(samples) && NetCounts(samples) && n <= |samples| && OneProcess(samples, n) && NetGrows(samples, n)
    ensures Total(samples, n, privileged, Transferred(d)) <= Way(d, LastNet(samples, n))
    ensures Total(samples, n, privileged, Transferred(d)) == Way(d, LastNet(samples, n)) <==> NetTogether(samples, n, d)
  {
    if n > 0 {
      NetExactly(samples, n - 1, privileged, d);
      NetOfRound(samples, n - 1, privileged);
      LastNetCounts(samples, n - 1);
      TogetherStep(samples, n, d);
      assert Transferred(d)(StatusOf(samples, n - 1, privileged))
          == Way(d, NetReported(StatusOf(samples, n - 1, privileged)));
      hide StatusOf, NetDelta, NetTogether, NetGrows, Transferred;
      if samples[n - 1].net.Some? {
        NetStep(Total(samples, n - 1, privileged, Transferred(d)), LastNet(samples, n - 1),
          samples[n - 1].net.value, d);
      }
    }
  }

  lemma TogetherStep(samples: seq<Sample>, n: nat, d: Direction)
    requires AllRead(samples) && 0 < n <= |samples| && NetGrows(samples, n) && NetCounts(samples)
    ensures NetTogether(samples, n, d) <==>
              NetTogether(samples, n - 1, d)
              && (samples[n - 1].net.Some? && Way(d, LastNet(samples, n - 1)) < Way(d, samples[n - 1].net.value) ==>
                    Way(Back(d), LastNet(samples, n - 1)) < Way(Back(d), samples[n - 1].net.value))
    ensures samples[n - 1].net.Some? ==>
              && LastNet(samples, n - 1).0 <= samples[n - 1].net.value.0
              && LastNet(samples, n - 1).1 <= samples[n - 1].net.value.1
              && Counts(Way(d, samples[n - 1].net.value))
  {
  }
}
