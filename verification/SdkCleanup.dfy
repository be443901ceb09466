/** Which instrumentation directories the webhook removes at start-up: those older than everything in use. */
module SdkCleanup {
  import opened Text
  import opened SemVer
  import opened Webhook

  const DUMMY: string := "v999.999.999"

  /** A process as the scan sees it: whether it can be opened, its environment and its container if readable. */
  datatype Process = Process(opens: bool, env: Option<map<string, string>>, container: Option<string>)

  /** The SDK version a process runs with, if the scan finds a valid one. */
  function VersionOf(p: Process): (v: Option<string>)
    ensures v.Some? ==> IsValid(v.value)
  {
    if !p.opens || p.env.None? || VERSION_VARIABLE !in p.env.value then None
    else
      var v := p.env.value[VERSION_VARIABLE];
      if IsValid(v) then Some(v) else None
  }

  /** The process can be inspected, and its environment names a valid version. */
  predicate RunsWith(p: Process, v: string) {
    && p.opens && p.env.Some? && VERSION_VARIABLE in p.env.value
    && p.env.value[VERSION_VARIABLE] == v && IsValid(v)
  }

  ghost predicate InUse(procs: seq<Process>, n: nat, v: string)
    requires n <= |procs|
  {
    exists i :: 0 <= i < n && RunsWith(procs[i], v)
  }

  // ---------- the running minimum ----------

  function Oldest(start: string, procs: seq<Process>, n: nat): string
    requires n <= |procs|
  {
    if n == 0 then start
    else
      var oldest := Oldest(start, procs, n - 1);
      var v := VersionOf(procs[n - 1]);
      if v.Some? && Compare(v.value, oldest) < 0 then v.value else oldest
  }

  /** Processes by container, in the order they are visited. */
  function InContainer(procs: seq<Process>, n: nat, c: string): seq<Process>
    requires n <= |procs|
  {
    if n == 0 then []
    else
      InContainer(procs, n - 1, c)
      + if procs[n - 1].opens && procs[n - 1].container == Some(c) then [procs[n - 1]] else []
  }

  lemma {:induction false} InContainerAre(procs: seq<Process>, n: nat, c: string, p: Process)
    requires n <= |procs|
    ensures p in InContainer(procs, n, c)
       <==> p.opens && p.container == Some(c) && exists i :: 0 <= i < n && procs[i] == p
  {
    if n > 0 {
      InContainerAre(procs, n - 1, c, p);
    }
  }

  /** Every process visited that can be opened is filed under its container, in order, and nothing else is. */
  ghost predicate Grouped(containers: map<string, seq<Process>>, procs: seq<Process>, n: nat)
    requires n <= |procs|
  {
    forall c :: if InContainer(procs, n, c) == [] then c !in containers
                else c in containers && containers[c] == InContainer(procs, n, c)
  }

  lemma NothingGrouped(procs: seq<Process>)
    ensures Grouped(map[], procs, 0)
  {
  }

  lemma GroupOne(containers: map<string, seq<Process>>, procs: seq<Process>, i: nat)
    requires i < |procs| && Grouped(containers, procs, i)
    ensures var p := procs[i];
            if !p.opens || p.container.None? then Grouped(containers, procs, i + 1)
            else
              var id := p.container.value;
              Grouped(containers[id := if id in containers then containers[id] + [p] else [p]], procs, i + 1)
  {
    forall c ensures InContainer(procs, i + 1, c)
                     == if procs[i].opens && procs[i].container == Some(c) then InContainer(procs, i, c) + [procs[i]]
                        else InContainer(procs, i, c)
    {
    }
  }

  class Scanner {
    var oldest: string
    const current: string

    constructor (current: string)
      ensures this.current == current && oldest == DUMMY
    {
      this.current := current;
      oldest := DUMMY;
    }

    function OldestSdkVersion(): string
      reads this
    {
      if oldest == DUMMY then current else oldest
    }

    /** The scan, over the processes in any order: the running minimum, and the processes of each container. */
    method FindExistingProcesses(procs: seq<Process>) returns (containers: map<string, seq<Process>>)
      modifies `oldest
      ensures oldest == Oldest(old(oldest), procs, |procs|)
      ensures Grouped(containers, procs, |procs|)
    {
      hide Compare, IsValid, Grouped;
      containers := map[];
      assert Grouped(containers, procs, 0) by { NothingGrouped(procs); }
      for i := 0 to |procs|
        invariant oldest == Oldest(old(oldest), procs, i)
        invariant Grouped(containers, procs, i)
      {
        var p := procs[i];
        GroupOne(containers, procs, i);
        if !p.opens {
          continue;
        }
        if p.env.Some? && VERSION_VARIABLE in p.env.value {
          var ver := p.env.value[VERSION_VARIABLE];
          if IsValid(ver) {
            if Compare(ver, oldest) < 0 {
              oldest := ver;
            }
          }
        }
        if p.container.None? {
          continue;
        }
        var id := p.container.value;
        if id in containers {
          containers := containers[id := containers[id] + [p]];
        } else {
          containers := containers[id := [p]];
        }
      }
    }
  }

  /** Whatever the order, the scan ends at a version in use that no other undercuts, or at the dummy if none is below
      it. */
  lemma {:induction false} OldestIsMinimum(procs: seq<Process>, n: nat)
    requires n <= |procs|
    ensures var oldest := Oldest(DUMMY, procs, n);
            && (oldest == DUMMY || (InUse(procs, n, oldest) && Compare(oldest, DUMMY) < 0))
            && (forall u :: InUse(procs, n, u) ==> Compare(oldest, u) <= 0)
  {
    hide Compare, IsValid;
    if n > 0 {
      OldestIsMinimum(procs, n - 1);
      var before, after := Oldest(DUMMY, procs, n - 1), Oldest(DUMMY, procs, n);
      var v := VersionOf(procs[n - 1]);
      if v.Some? {
        CompareLaws(v.value, before, DUMMY);
      }
      forall u | InUse(procs, n, u) ensures Compare(after, u) <= 0 {
        if InUse(procs, n - 1, u) {
          CompareLaws(after, before, u);
        } else {
          assert v == Some(u);
          CompareLaws(u, u, u);
        }
      }
    }
  }

  // ---------- the clean-up ----------

  /** An entry of the instrumentation directory; removing it may fail. */
  datatype Entry = Entry(name: string, isDir: bool, removable: bool)

  predicate Stale(e: Entry, minVersion: string) {
    e.isDir && IsValid(e.name) && Compare(e.name, minVersion) < 0
  }

  /** The stale entries from index `i` on, up to the first that cannot be removed, and whether all could. */
  function Removed(entries: seq<Entry>, minVersion: string, i: nat): (seq<string>, bool)
    requires i <= |entries|
    decreases |entries| - i
  {
    if i == |entries| then ([], true)
    else if !Stale(entries[i], minVersion) then Removed(entries, minVersion, i + 1)
    else if !entries[i].removable then ([], false)
    else
      var (rest, ok) := Removed(entries, minVersion, i + 1);
      ([entries[i].name] + rest, ok)
  }

  method CleanupOldInstrumentationVersions(entries: Option<seq<Entry>>, minVersion: string)
      returns (removed: seq<string>, ok: bool)
    ensures (removed, ok)
         == if IsValid(minVersion) && entries.Some? then Removed(entries.value, minVersion, 0) else ([], false)
  {
    hide Compare, IsValid;
    removed, ok := [], false;
    if !IsValid(minVersion) {
      return;
    }
    if entries.None? {
      return;
    }
    for i := 0 to |entries.value|
      invariant removed + Removed(entries.value, minVersion, i).0 == Removed(entries.value, minVersion, 0).0
      invariant Removed(entries.value, minVersion, i).1 == Removed(entries.value, minVersion, 0).1
    {
      var e := entries.value[i];
      if !e.isDir {
        continue;
      }
      if !IsValid(e.name) {
        continue;
      }
      if Compare(e.name, minVersion) < 0 {
        if !e.removable {
          assert removed + [] == removed;
          return;
        }
        Associative(removed, [e.name], Removed(entries.value, minVersion, i + 1).0);
        removed := removed + [e.name];
      }
    }
    assert removed + [] == removed;
    ok := true;
  }

  /** The version below which directories go. */
  function Threshold(procs: seq<Process>, current: string): string {
    var oldest := Oldest(DUMMY, procs, |procs|);
    var version := if oldest == DUMMY then current else oldest;
    if Compare(version, current) > 0 then current else version
  }

  /** `establishInitialProcessState`, where SDK versions are managed on a host path. */
  method EstablishInitialProcessState(procs: seq<Process>, usesImageVolume: bool, manageVersions: bool,
      pkgVersion: string,
      entries: Option<seq<Entry>>) returns (containers: map<string, seq<Process>>, removed: seq<string>)
    ensures removed == if !usesImageVolume && manageVersions && IsValid(pkgVersion) && entries.Some?
                       then Removed(entries.value, Threshold(procs, pkgVersion), 0).0 else []
    ensures Grouped(containers, procs, |procs|)
  {
    hide Compare, IsValid;
    var scanner := new Scanner(pkgVersion);
    containers := scanner.FindExistingProcesses(procs);
    removed := [];
    if !usesImageVolume && manageVersions {
      var oldestSdk := scanner.OldestSdkVersion();
      if Compare(oldestSdk, pkgVersion) > 0 {
        oldestSdk := pkgVersion;
      }
      ThresholdValid(procs, pkgVersion);
      var ok;
      removed, ok := CleanupOldInstrumentationVersions(entries, oldestSdk);
    }
  }

  /** The threshold is a valid version exactly if the package version is. */
  lemma ThresholdValid(procs: seq<Process>, current: string)
    ensures IsValid(Threshold(procs, current)) <==> IsValid(current)
  {
    hide Compare, IsValid;
    OldestIsMinimum(procs, |procs|);
    var oldest := Oldest(DUMMY, procs, |procs|);
    if IsValid(oldest) && !IsValid(current) {
      InvalidBelow(oldest, current);
    }
  }

  // ---------- main results ----------

  /** Older than the package version and than every version in use. */
  ghost predicate Due(name: string, procs: seq<Process>, current: string) {
    Compare(name, current) < 0 && forall u :: InUse(procs, |procs|, u) ==> Compare(name, u) < 0
  }

  /** Some version in use is below the dummy, or none is below the package version. */
  ghost predicate Covered(procs: seq<Process>, current: string) {
    || (exists u :: InUse(procs, |procs|, u) && Compare(u, DUMMY) < 0)
    || (forall u :: InUse(procs, |procs|, u) ==> Compare(current, u) <= 0)
  }

  /** With the cover, the threshold is the least of the package version and the versions in use. */
  lemma ThresholdIsLeast(procs: seq<Process>, current: string)
    requires Covered(procs, current)
    ensures var t := Threshold(procs, current);
            && (t == current || InUse(procs, |procs|, t)) && Compare(t, current) <= 0
            && forall u :: InUse(procs, |procs|, u) ==> Compare(t, u) <= 0
  {
    hide Compare, IsValid;
    OldestIsMinimum(procs, |procs|);
    var oldest, t := Oldest(DUMMY, procs, |procs|), Threshold(procs, current);
    CompareLaws(oldest, current, current);
    CompareLaws(current, current, current);
    if oldest == DUMMY {
      if w :| InUse(procs, |procs|, w) && Compare(w, DUMMY) < 0 {
        CompareLaws(w, DUMMY, w);
      }
    } else {
      forall u | InUse(procs, |procs|, u) ensures Compare(t, u) <= 0 {
        CompareLaws(current, oldest, u);
      }
    }
  }

  lemma BelowThreshold(procs: seq<Process>, current: string, name: string)
    requires Covered(procs, current)
    ensures Compare(name, Threshold(procs, current)) < 0 <==> Due(name, procs, current)
  {
    hide Compare, IsValid;
    ThresholdIsLeast(procs, current);
    var t := Threshold(procs, current);
    CompareLaws(name, t, current);
    forall u | InUse(procs, |procs|, u) ensures Compare(name, t) < 0 ==> Compare(name, u) < 0 {
      CompareLaws(name, t, u);
    }
  }

  /** The code removes exactly the directories older than the package version and everything in use, if and only if the
      processes are covered; otherwise it would remove a version that is in use. */
  lemma ThresholdExactly(procs: seq<Process>, current: string)
    ensures (forall name :: Compare(name, Threshold(procs, current)) < 0 <==> Due(name, procs, current))
        <==> Covered(procs, current)
  {
    hide Compare, IsValid;
    if Covered(procs, current) {
      forall name ensures Compare(name, Threshold(procs, current)) < 0 <==> Due(name, procs, current) {
        BelowThreshold(procs, current, name);
      }
    } else {
      var u := RemovesInUse(procs, current);
      assert InUse(procs, |procs|, u);
      CompareLaws(u, u, u);
      assert !Due(u, procs, current);
    }
  }

  /** Without the cover, the code takes a version in use for stale. */
  lemma RemovesInUse(procs: seq<Process>, current: string) returns (u: string)
    requires !Covered(procs, current)
    ensures InUse(procs, |procs|, u) && Compare(u, Threshold(procs, current)) < 0
  {
    hide Compare, IsValid;
    OldestIsMinimum(procs, |procs|);
    assert Oldest(DUMMY, procs, |procs|) == DUMMY;
    u :| InUse(procs, |procs|, u) && !(Compare(current, u) <= 0);
    CompareLaws(current, u, u);
  }

  /** A package version up to the dummy is always covered. */
  lemma OrdinaryIsCovered(procs: seq<Process>, current: string)
    requires Compare(current, DUMMY) <= 0
    ensures Covered(procs, current)
  {
    hide Compare, IsValid;
    forall u | InUse(procs, |procs|, u) && !(Compare(u, DUMMY) < 0) ensures Compare(current, u) <= 0 {
      CompareLaws(u, DUMMY, DUMMY);
      CompareLaws(current, DUMMY, u);
    }
  }

  lemma {:induction false} RemovedExactly(entries: seq<Entry>, minVersion: string, i: nat, name: string)
    requires i <= |entries| && forall k :: i <= k < |entries| ==> entries[k].removable
    ensures Removed(entries, minVersion, i).1
    ensures name in Removed(entries, minVersion, i).0
        <==> exists k :: i <= k < |entries| && entries[k].name == name && Stale(entries[k], minVersion)
    decreases |entries| - i
  {
    hide Compare, IsValid;
    if i < |entries| {
      RemovedExactly(entries, minVersion, i + 1, name);
      var later := exists k :: i + 1 <= k < |entries| && entries[k].name == name && Stale(entries[k], minVersion);
      assert (exists k :: i <= k < |entries| && entries[k].name == name && Stale(entries[k], minVersion))
        <==> later || (entries[i].name == name && Stale(entries[i], minVersion));
    }
  }

  lemma {:induction false} RemovedAreStale(entries: seq<Entry>, minVersion: string, i: nat, name: string)
    requires i <= |entries| && name in Removed(entries, minVersion, i).0
    ensures exists k :: i <= k < |entries| && entries[k].name == name && Stale(entries[k], minVersion)
    decreases |entries| - i
  {
    hide Compare, IsValid;
    if !(Stale(entries[i], minVersion) && name == entries[i].name) {
      RemovedAreStale(entries, minVersion, i + 1, name);
    }
  }

  /** Even with I/O errors nothing is removed but directories named by a valid version strictly below the package
      version and every version in use. */
  lemma CleansSafely(procs: seq<Process>, current: string, entries: seq<Entry>, name: string)
    requires Covered(procs, current) && name in Removed(entries, Threshold(procs, current), 0).0
    ensures IsValid(name) && Compare(name, current) < 0
    ensures forall i, u :: 0 <= i < |procs| && RunsWith(procs[i], u) ==> Compare(name, u) < 0
    ensures exists k :: 0 <= k < |entries| && entries[k].name == name && entries[k].isDir
  {
    hide Compare, IsValid;
    RemovedAreStale(entries, Threshold(procs, current), 0, name);
    BelowThreshold(procs, current, name);
    forall i, u | 0 <= i < |procs| && RunsWith(procs[i], u) ensures Compare(name, u) < 0 {
      assert InUse(procs, |procs|, u);
    }
  }

  /** Clean-up without I/O errors removes exactly the directories named by a valid version strictly below the package
      version and every version in use. */
  lemma CleansExactly(procs: seq<Process>, current: string, entries: seq<Entry>, name: string)
    requires Covered(procs, current) && forall k :: 0 <= k < |entries| ==> entries[k].removable
    ensures name in Removed(entries, Threshold(procs, current), 0).0
        <==> IsValid(name) && Due(name, procs, current)
             && exists k :: 0 <= k < |entries| && entries[k].name == name && entries[k].isDir
  {
    hide Compare, IsValid;
    RemovedExactly(entries, Threshold(procs, current), 0, name);
    BelowThreshold(procs, current, name);
  }

  lemma SameOldest(a: seq<Process>, b: seq<Process>)
    requires forall u :: InUse(a, |a|, u) <==> InUse(b, |b|, u)
    ensures Compare(Oldest(DUMMY, a, |a|), Oldest(DUMMY, b, |b|)) == 0
    ensures Oldest(DUMMY, a, |a|) == DUMMY <==> Oldest(DUMMY, b, |b|) == DUMMY
  {
    hide Compare, IsValid;
    OldestIsMinimum(a, |a|);
    OldestIsMinimum(b, |b|);
    var x, y := Oldest(DUMMY, a, |a|), Oldest(DUMMY, b, |b|);
    CompareLaws(x, y, x);
    CompareLaws(x, x, x);
  }

  /** What is removed depends on the set of versions in use only, not on the order in which processes are visited. */
  lemma OrderDoesNotMatter(a: seq<Process>, b: seq<Process>, current: string, name: string)
    requires forall u :: InUse(a, |a|, u) <==> InUse(b, |b|, u)
    ensures Compare(name, Threshold(a, current)) < 0 <==> Compare(name, Threshold(b, current)) < 0
  {
    hide Compare, IsValid;
    SameOldest(a, b);
    var x, y := Oldest(DUMMY, a, |a|), Oldest(DUMMY, b, |b|);
    CompareLaws(x, y, current);
    CompareLaws(y, x, current);
    CompareLaws(x, current, x);
    CompareLaws(y, current, y);
    CompareLaws(name, x, y);
    CompareLaws(name, y, x);
  }
}
