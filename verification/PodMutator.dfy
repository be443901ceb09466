/** The mutation of whole pods: which containers are touched, what stays, and what a second mutation does. */
module PodMutator {
  import opened Webhook
  import opened EnvSpec
  import opened PodMutation

  datatype Volume = Volume(name: string, source: string)

  datatype ContainerSpec = ContainerSpec(name: string, env: Env, mounts: seq<Mount>)

  /** A pod as a value: its volumes and containers are its spec, its labels are metadata. */
  datatype PodValue = PodValue(volumes: seq<Volume>, containers: seq<ContainerSpec>, labels: map<string, string>)

  /** What the mutator knows: the package version, the volume it mounts, which pods match by their metadata, and what it
      chooses for a container of a pod. */
  datatype Rules = Rules(
    version: string,
    volume: Volume,
    matches: map<string, string> -> bool,
    settings: (map<string, string>, string) -> Settings)

  // ---------- specification ----------

  predicate Labelled(labels: map<string, string>) {
    INSTRUMENTED_LABEL in labels && labels[INSTRUMENTED_LABEL] != ""
  }

  predicate AlreadyInstrumented(p: PodValue) {
    (exists i :: 0 <= i < |p.containers| && Has(p.containers[i].env, ConfigFile)) || Labelled(p.labels)
  }

  /** Position of the first volume of that name, or the length. */
  function VolumeIndex(volumes: seq<Volume>, name: string): (r: nat)
    ensures r <= |volumes| && (r < |volumes| ==> volumes[r].name == name)
    ensures forall i :: 0 <= i < r ==> volumes[i].name != name
  {
    if volumes == [] || volumes[0].name == name then 0 else 1 + VolumeIndex(volumes[1..], name)
  }

  function WithVolume(volumes: seq<Volume>, v: Volume): seq<Volume> {
    var i := VolumeIndex(volumes, VOLUME_NAME);
    if i < |volumes| then volumes[i := v] else volumes + [v]
  }

  /** A container that preloads something already is left alone. */
  function Instrumented(c: ContainerSpec, s: Settings): ContainerSpec {
    if Has(c.env, LdPreload) then c
    else c.(env := ApplyAll(c.env, Plan(s, c.name)), mounts := Mounted(c.mounts))
  }

  function InstrumentedAll(cs: seq<ContainerSpec>, labels: map<string, string>, r: Rules): (result: seq<ContainerSpec>)
    ensures |result| == |cs|
    ensures forall i :: 0 <= i < |cs| ==> result[i] == Instrumented(cs[i], r.settings(labels, cs[i].name))
  {
    seq(|cs|, i requires 0 <= i < |cs| => Instrumented(cs[i], r.settings(labels, cs[i].name)))
  }

  predicate Skips(p: PodValue, r: Rules) {
    AlreadyInstrumented(p) || !r.matches(p.labels)
  }

  /** The pod after a mutation. */
  function Mutated(p: PodValue, r: Rules): PodValue {
    if Skips(p, r) then p
    else
      PodValue(WithVolume(p.volumes, r.volume), InstrumentedAll(p.containers, p.labels, r),
               p.labels[INSTRUMENTED_LABEL := r.version])
  }

  /** Whether a mutation reports a change: it compares the spec, not the labels. */
  predicate Reports(p: PodValue, r: Rules) {
    Mutated(p, r).volumes != p.volumes || Mutated(p, r).containers != p.containers
  }

  // ---------- the pod, mutated in place ----------

  class Pod {
    var volumes: seq<Volume>
    var containers: seq<Container>
    var labels: map<string, string>

    constructor (volumes: seq<Volume>, containers: seq<Container>, labels: map<string, string>)
      requires forall i, j :: 0 <= i < j < |containers| ==> containers[i] != containers[j]
      ensures Valid() && this.volumes == volumes && this.containers == containers && this.labels == labels
    {
      this.volumes, this.containers, this.labels := volumes, containers, labels;
    }

    ghost predicate Valid()
      reads this
    {
      forall i, j :: 0 <= i < j < |containers| ==> containers[i] != containers[j]
    }

    function SpecOf(i: nat): ContainerSpec
      requires i < |containers|
      reads `containers, containers[i]
    {
      ContainerSpec(containers[i].name, containers[i].env, containers[i].mounts)
    }

    function SpecsTo(n: nat): (r: seq<ContainerSpec>)
      requires n <= |containers|
      reads `containers, containers
      ensures |r| == n && forall i :: 0 <= i < n ==> r[i] == SpecOf(i)
    {
      if n == 0 then [] else SpecsTo(n - 1) + [SpecOf(n - 1)]
    }

    function Specs(): (r: seq<ContainerSpec>)
      reads `containers, containers
      ensures |r| == |containers| && forall i :: 0 <= i < |containers| ==> r[i] == SpecOf(i)
    {
      SpecsTo(|containers|)
    }

    function Abs(): PodValue
      reads this, containers
    {
      PodValue(volumes, Specs(), labels)
    }

    method CheckInstrumented() returns (r: bool)
      ensures r <==> AlreadyInstrumented(Abs())
    {
      for i := 0 to |containers|
        invariant forall k :: 0 <= k < i ==> !Has(Specs()[k].env, ConfigFile)
      {
        HasIs(containers[i].env, ConfigFile);
        if IndexOfName(containers[i].env, ConfigFile) < |containers[i].env| {
          assert Has(Specs()[i].env, ConfigFile);
          return true;
        }
      }
      return Labelled(labels);
    }

    method MountVolume(v: Volume)
      modifies `volumes
      ensures volumes == WithVolume(old(volumes), v)
    {
      var pos := VolumeIndex(volumes, VOLUME_NAME);
      if pos == |volumes| {
        volumes := volumes + [v];
      } else {
        volumes := volumes[pos := v];
      }
    }

    /** One container, unless it preloads something already. */
    method InstrumentOne(c: Container, s: Settings)
      modifies c
      ensures ContainerSpec(c.name, c.env, c.mounts) == Instrumented(old(ContainerSpec(c.name, c.env, c.mounts)), s)
    {
      HasIs(c.env, LdPreload);
      if IndexOfName(c.env, LdPreload) < |c.env| {
        return;
      }
      c.AddMount();
      c.AddEnvVars(s);
    }

    method InstrumentContainers(r: Rules)
      requires Valid()
      modifies containers
      ensures Specs() == InstrumentedAll(old(Specs()), labels, r)
    {
      hide Instrumented;
      ghost var before := Specs();
      for i := 0 to |containers|
        invariant forall k :: 0 <= k < i ==> SpecOf(k) == Instrumented(before[k], r.settings(labels, before[k].name))
        invariant forall k :: i <= k < |containers| ==> SpecOf(k) == before[k]
      {
        var c := containers[i];
        assert SpecOf(i) == before[i];
        InstrumentOne(c, r.settings(labels, c.name));
      }
    }

    /** `mutatePod`. */
    method MutatePod(r: Rules) returns (changed: bool)
      requires Valid()
      modifies this, containers
      ensures Valid() && containers == old(containers)
      ensures Abs() == Mutated(old(Abs()), r) && (changed <==> Reports(old(Abs()), r))
    {
      hide Instrumented, AlreadyInstrumented, WithVolume;
      ghost var before := Abs();
      var instrumented := CheckInstrumented();
      if instrumented {
        assert Skips(before, r);
        return false;
      }
      if !r.matches(labels) {
        assert Skips(before, r);
        return false;
      }
      var originalVolumes, originalContainers := volumes, Specs();
      MountVolume(r.volume);
      InstrumentContainers(r);
      assert Specs() == InstrumentedAll(before.containers, before.labels, r);
      labels := labels[INSTRUMENTED_LABEL := r.version];
      assert Abs() == Mutated(before, r);
      changed := volumes != originalVolumes || Specs() != originalContainers;
    }
  }

  // ---------- main results ----------

  lemma WithVolumeTwice(volumes: seq<Volume>, v: Volume)
    requires v.name == VOLUME_NAME
    ensures WithVolume(WithVolume(volumes, v), v) == WithVolume(volumes, v)
  {
    var once := WithVolume(volumes, v);
    var i := VolumeIndex(volumes, VOLUME_NAME);
    assert once[i] == v;
    assert forall k :: 0 <= k < i ==> once[k] == volumes[k];
    assert VolumeIndex(once, VOLUME_NAME) == i;
  }

  /** An instrumented container is marked as such. */
  lemma InstrumentedMarked(c: ContainerSpec, s: Settings)
    ensures Has(Instrumented(c, s).env, LdPreload)
    ensures !Has(c.env, LdPreload) ==> Has(Instrumented(c, s).env, ConfigFile)
  {
    if !Has(c.env, LdPreload) {
      PlanMarks(s, c.name);
      hide ApplyAll, Plan;
      var plan := Plan(s, c.name);
      HasAfter(c.env, plan, LdPreload);
      HasAfter(c.env, plan, ConfigFile);
    }
  }

  lemma PlanMarks(s: Settings, container: string)
    ensures Names(Plan(s, container), LdPreload) && Names(Plan(s, container), ConfigFile)
  {
    HeadMarks(s);
    hide HeadOps, ConfigureOps, DisableOps, HeaderOps;
    NamesPrefix(HeadOps(s), Plan(s, container), LdPreload);
    NamesPrefix(HeadOps(s), Plan(s, container), ConfigFile);
  }

  lemma HeadMarks(s: Settings)
    ensures Names(HeadOps(s), LdPreload) && Names(HeadOps(s), ConfigFile)
  {
    var n := |SetText(SdkVersion, s.version)|;
    var ops := HeadOps(s);
    assert Plain(PRELOAD_VALUE)[0] != Lit("") && Plain(CONFIG_FILE_VALUE)[0] != Lit("");
    assert ops[n] == Put(LdPreload, Plain(PRELOAD_VALUE));
    assert ops[n + 1] == Put(ConfigFile, Plain(CONFIG_FILE_VALUE));
  }

  lemma NamesPrefix(a: seq<Op>, ops: seq<Op>, name: Name)
    requires a <= ops && Names(a, name)
    ensures Names(ops, name)
  {
    var k :| 0 <= k < |a| && a[k].name == name;
    assert ops[k].name == name;
  }

  /** Entry `k` is not the first of a name that the updates set. */
  predicate Kept(env: Env, ops: seq<Op>, k: nat)
    requires k < |env|
  {
    !Names(ops, env[k].name) || IndexOfName(env, env[k].name) != k
  }

  /** Containers that preload something are untouched; of the others the original variables keep their names and places,
      and every entry stays as it is unless it is the first of a name that the injector sets. */
  lemma MutationFrames(p: PodValue, r: Rules, i: nat)
    requires i < |p.containers|
    ensures var c, after := p.containers[i], Mutated(p, r).containers[i];
            && after.name == c.name
            && (Has(c.env, LdPreload) ==> after == c)
            && Extends(c.env, after.env)
            && forall k :: 0 <= k < |c.env| && Kept(c.env, Plan(r.settings(p.labels, c.name), c.name), k) ==>
                 after.env[k] == c.env[k]
  {
    var c := p.containers[i];
    ApplyFrames(c.env, Plan(r.settings(p.labels, c.name), c.name));
  }

  /** A second mutation reports no change and makes none, whatever the package version. */
  lemma MutationIdempotent(p: PodValue, r: Rules)
    requires r.volume.name == VOLUME_NAME
    ensures Mutated(Mutated(p, r), r) == Mutated(p, r) && !Reports(Mutated(p, r), r)
  {
    var q := Mutated(p, r);
    if !Skips(p, r) && !Skips(q, r) {
      NothingInstrumented(p, r);
      assert r.version == "";
      WithVolumeTwice(p.volumes, r.volume);
      forall i | 0 <= i < |q.containers|
        ensures Instrumented(q.containers[i], r.settings(q.labels, q.containers[i].name)) == q.containers[i]
      {
        InstrumentedMarked(p.containers[i], r.settings(p.labels, p.containers[i].name));
      }
      assert InstrumentedAll(q.containers, q.labels, r) == q.containers;
    }
  }

  /** A mutated pod is only taken for a fresh one if none of its containers was instrumented. */
  lemma NothingInstrumented(p: PodValue, r: Rules)
    requires !Skips(p, r) && !AlreadyInstrumented(Mutated(p, r))
    ensures r.version == "" && forall i :: 0 <= i < |p.containers| ==> Has(p.containers[i].env, LdPreload)
  {
    var q := Mutated(p, r);
    assert q.labels[INSTRUMENTED_LABEL] == r.version;
    forall i | 0 <= i < |p.containers| ensures Has(p.containers[i].env, LdPreload) {
      assert !Has(q.containers[i].env, ConfigFile);
      InstrumentedMarked(p.containers[i], r.settings(p.labels, p.containers[i].name));
    }
  }

  /** With a package version, every mutated pod is recognised as instrumented. */
  lemma MutationRecognised(p: PodValue, r: Rules)
    requires r.version != "" && !Skips(p, r)
    ensures AlreadyInstrumented(Mutated(p, r))
  {
    assert Mutated(p, r).labels[INSTRUMENTED_LABEL] == r.version;
  }
}
