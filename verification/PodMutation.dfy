/** Mutating a pod so that the injector and the SDKs are loaded into its containers. */
module PodMutation {
  import opened Text
  import opened EnvSpec
  import opened Webhook

  const VOLUME_NAME: string := "otel-inject-instrumentation"
  const CONFIG_FILE_VALUE: string := MOUNT_PATH + "/dist/injector/otelinject.conf"
  const NODE_NAME_KEY: string := "k8s.node.name"
  const INSTANCE_ID_KEY: string := "service.instance.id"
  const SKIP_METRICS_KEY: string := "span.metrics.skip"

  datatype Language = Dotnet | Java | Nodejs | Python

  const SUPPORTED: seq<Language> := [Dotnet, Java, Nodejs, Python]

  function PathOf(l: Language): Name {
    match l
    case Dotnet => DotnetPath
    case Java => JavaPath
    case Nodejs => NodejsPath
    case Python => PythonPath
  }

  /** The configuration, and what the name-choosing chains pick for one container of the pod; an empty string stands
      for nothing chosen. `sorted` lists a set of keys in order. */
  datatype Settings = Settings(
    version: string,
    endpoint: string,
    protocol: string,
    debug: bool,
    addUid: bool,
    propagators: string,
    sampler: Option<(string, string)>,
    exportMetrics: bool,
    exportTraces: bool,
    exportLogs: bool,
    skipSpanMetrics: bool,
    enabled: set<Language>,
    headers: seq<(Name, string)>,
    chosenNamespace: string,
    chosenServiceName: string,
    chosenVersion: string,
    chosenInstance: string,
    attributes: map<string, string>,
    annotations: map<string, string>,
    sorted: set<string> -> seq<string>)

  // ---------- the updates of one container ----------

  /** `setEnvVar` leaves the list alone when the value is empty. */
  function SetOps(name: Name, value: Value): seq<Op> {
    if Blank(value) then [] else [Put(name, value)]
  }

  function SetText(name: Name, text: string): seq<Op> {
    SetOps(name, Plain(text))
  }

  function HeadOps(s: Settings): seq<Op> {
    SetText(SdkVersion, s.version) + SetText(LdPreload, PRELOAD_VALUE) + SetText(ConfigFile, CONFIG_FILE_VALUE)
    + SetText(Endpoint, s.endpoint) + SetText(Protocol, s.protocol) + SetText(SemConvStability, "http")
    + (if s.debug then SetText(LogLevel, "debug") else [])
  }

  function ServiceNamespaceValue(s: Settings): Value {
    if s.chosenNamespace != "" then Plain(s.chosenNamespace) else [Ref(NamespaceName)]
  }

  function ServiceNameValue(s: Settings): Value {
    if s.chosenServiceName != "" then Plain(s.chosenServiceName) else [Ref(PodName)]
  }

  function FieldOps(s: Settings, container: string): seq<Op> {
    SetText(ContainerName, container)
    + [Field(NamespaceName, "metadata.namespace"), Field(PodName, "metadata.name"), Field(NodeName, "spec.nodeName")]
    + (if s.addUid then [Field(PodUid, "metadata.uid")] else [])
  }

  function ServiceOps(s: Settings): seq<Op> {
    SetOps(ServiceNamespace, ServiceNamespaceValue(s)) + SetOps(ServiceName, ServiceNameValue(s))
    + SetText(ServiceVersion, s.chosenVersion)
  }

  function InstanceValue(s: Settings, container: string): Value {
    if s.chosenInstance != "" then Plain(s.chosenInstance)
    else if container != "" then [Ref(NamespaceName), Lit("."), Ref(PodName), Lit("."), Lit(container)]
    else []
  }

  /** The attributes of the resource: configured ones and owners, node, instance, and annotations over all of them. */
  function Collected(s: Settings, container: string): map<string, Value> {
    var base := (map k | k in s.attributes :: Plain(s.attributes[k]))[NODE_NAME_KEY := [Ref(NodeName)]];
    var instance := InstanceValue(s, container);
    var named := if instance == [] then base else base[INSTANCE_ID_KEY := instance];
    named + map k | k in s.annotations :: Plain(s.annotations[k])
  }

  /** The extra resource attributes, among them a mark that the span metrics are already generated elsewhere. */
  function Extra(s: Settings, container: string): map<string, Value> {
    var collected := Collected(s, container);
    if s.skipSpanMetrics then collected[SKIP_METRICS_KEY := Plain("true")] else collected
  }

  /** `key=value` pairs separated by commas. */
  function Joined(extra: map<string, Value>, keys: seq<string>): Value {
    if keys == [] then []
    else
      var k := keys[|keys| - 1];
      Joined(extra, keys[..|keys| - 1]) + (if |keys| > 1 then [Lit(",")] else [])
      + [Lit(k + "=")] + if k in extra then extra[k] else []
  }

  function AttributeOps(s: Settings, container: string): seq<Op> {
    var extra := Extra(s, container);
    SetOps(ResourceAttributes, Joined(extra, s.sorted(extra.Keys)))
  }

  function SamplerOps(s: Settings): seq<Op> {
    match s.sampler
    case None => []
    case Some((name, arg)) => SetText(TracesSampler, name) + SetText(TracesSamplerArg, arg)
  }

  function Exporter(on: bool): string {
    if on then "otlp" else "none"
  }

  function ExporterOps(s: Settings): seq<Op> {
    SetText(MetricsExporter, Exporter(s.exportMetrics)) + SetText(TracesExporter, Exporter(s.exportTraces))
    + SetText(LogsExporter, Exporter(s.exportLogs))
  }

  /** Languages without an enabled SDK get an empty path. */
  function DisableOps(s: Settings, n: nat): seq<Op>
    requires n <= |SUPPORTED|
  {
    if n == 0 then []
    else
      DisableOps(s, n - 1)
      + if SUPPORTED[n - 1] in s.enabled then [] else [Put(PathOf(SUPPORTED[n - 1]), Plain(""))]
  }

  function HeaderOps(s: Settings, n: nat): seq<Op>
    requires n <= |s.headers|
  {
    if n == 0 then [] else HeaderOps(s, n - 1) + SetText(s.headers[n - 1].0, s.headers[n - 1].1)
  }

  function ConfigureOps(s: Settings, container: string): seq<Op> {
    FieldOps(s, container) + ServiceOps(s) + SetText(Propagators, s.propagators) + SamplerOps(s) + ExporterOps(s)
    + AttributeOps(s, container)
  }

  /** All updates of one container, in order. */
  function Plan(s: Settings, container: string): seq<Op> {
    HeadOps(s) + ConfigureOps(s, container) + DisableOps(s, |SUPPORTED|) + HeaderOps(s, |s.headers|)
  }

  // ---------- the container ----------

  datatype Mount = Mount(name: string, path: string, readOnly: bool)

  const INJECT_MOUNT := Mount(VOLUME_NAME, MOUNT_PATH, true)

  /** Position of the first mount of that name, or the length. */
  function MountIndex(mounts: seq<Mount>, name: string): (r: nat)
    ensures r <= |mounts| && (r < |mounts| ==> mounts[r].name == name)
    ensures forall i :: 0 <= i < r ==> mounts[i].name != name
  {
    if mounts == [] || mounts[0].name == name then 0 else 1 + MountIndex(mounts[1..], name)
  }

  function Mounted(mounts: seq<Mount>): seq<Mount> {
    var i := MountIndex(mounts, VOLUME_NAME);
    if i < |mounts| then mounts[i := INJECT_MOUNT] else mounts + [INJECT_MOUNT]
  }

  class Container {
    const name: string
    var env: Env
    var mounts: seq<Mount>

    constructor (name: string, env: Env, mounts: seq<Mount>)
      ensures this.name == name && this.env == env && this.mounts == mounts
    {
      this.name, this.env, this.mounts := name, env, mounts;
    }

    method SetEnvVarEvenIfEmpty(name: Name, value: Value)
      modifies `env
      ensures env == Apply(old(env), Put(name, value))
    {
      var pos := IndexOfName(env, name);
      if pos == |env| {
        env := env + [EnvVar(name, value, None)];
      } else {
        env := env[pos := env[pos].(from := None)];
        env := env[pos := env[pos].(value := value)];
      }
    }

    method SetEnvVar(name: Name, value: Value)
      modifies `env
      ensures env == ApplyAll(old(env), SetOps(name, value))
    {
      ApplyOne(env, Put(name, value));
      if !Blank(value) {
        SetEnvVarEvenIfEmpty(name, value);
      }
    }

    method SetEnvVarFromFieldPath(name: Name, path: string) returns (reference: Value)
      modifies `env
      ensures env == Apply(old(env), Field(name, path)) && reference == [Ref(name)]
    {
      env := env + [EnvVar(name, [], Some(path))];
      reference := [Ref(name)];
    }

    method AddMount()
      modifies `mounts
      ensures mounts == Mounted(old(mounts))
    {
      var i := MountIndex(mounts, VOLUME_NAME);
      if i == |mounts| {
        mounts := mounts + [INJECT_MOUNT];
      } else {
        mounts := mounts[i := INJECT_MOUNT];
      }
    }

    /** `SetEnvVar` with an account of everything applied since `start`. */
    method Set(name: Name, value: Value, ghost start: Env, ghost done: seq<Op>) returns (ghost all: seq<Op>)
      requires env == ApplyAll(start, done)
      modifies `env
      ensures all == done + SetOps(name, value) && env == ApplyAll(start, all)
    {
      all := done + SetOps(name, value);
      ApplyPlus(start, done, SetOps(name, value));
      SetEnvVar(name, value);
    }

    method SetField(name: Name, path: string, ghost start: Env, ghost done: seq<Op>)
        returns (reference: Value, ghost all: seq<Op>)
      requires env == ApplyAll(start, done)
      modifies `env
      ensures all == done + [Field(name, path)] && env == ApplyAll(start, all) && reference == [Ref(name)]
    {
      all := done + [Field(name, path)];
      ApplyPlus(start, done, [Field(name, path)]);
      ApplyOne(env, Field(name, path));
      reference := SetEnvVarFromFieldPath(name, path);
    }

    /** The first variables, before those that depend on the container. */
    method SetHead(s: Settings)
      modifies `env
      ensures env == ApplyAll(old(env), HeadOps(s))
    {
      ghost var start, done := env, [];
      done := Set(SdkVersion, Plain(s.version), start, done);
      done := Set(LdPreload, Plain(PRELOAD_VALUE), start, done);
      done := Set(ConfigFile, Plain(CONFIG_FILE_VALUE), start, done);
      done := Set(Endpoint, Plain(s.endpoint), start, done);
      done := Set(Protocol, Plain(s.protocol), start, done);
      done := Set(SemConvStability, Plain("http"), start, done);
      if s.debug {
        done := Set(LogLevel, Plain("debug"), start, done);
      }
      assert done == HeadOps(s);
    }

    /** The variables read from pod fields, and references to three of them. */
    method SetFields(s: Settings) returns (namespace: Value, podName: Value, nodeName: Value)
      modifies `env
      ensures env == ApplyAll(old(env), FieldOps(s, name))
      ensures namespace == [Ref(NamespaceName)] && podName == [Ref(PodName)] && nodeName == [Ref(NodeName)]
    {
      hide ApplyAll, SetOps;
      ghost var start, done := env, [];
      ApplyNone(start);
      done := Set(ContainerName, Plain(name), start, done);
      namespace, done := SetField(NamespaceName, "metadata.namespace", start, done);
      podName, done := SetField(PodName, "metadata.name", start, done);
      nodeName, done := SetField(NodeName, "spec.nodeName", start, done);
      if s.addUid {
        var uid;
        uid, done := SetField(PodUid, "metadata.uid", start, done);
      }
      assert done == FieldOps(s, name);
    }

    /** The service variables, which may refer to the fields. */
    method SetServices(s: Settings, namespace: Value, podName: Value)
      requires namespace == [Ref(NamespaceName)] && podName == [Ref(PodName)]
      modifies `env
      ensures env == ApplyAll(old(env), ServiceOps(s))
    {
      ghost var start, done := env, [];
      done := Set(ServiceNamespace, if s.chosenNamespace != "" then Plain(s.chosenNamespace) else namespace, start,
        done);
      done := Set(ServiceName, if s.chosenServiceName != "" then Plain(s.chosenServiceName) else podName, start, done);
      done := Set(ServiceVersion, Plain(s.chosenVersion), start, done);
    }

    /** `setResourceAttributes`: fields, service variables, and the extra attributes to be written later. */
    method SetResourceAttributes(s: Settings) returns (extra: map<string, Value>)
      modifies `env
      ensures env == ApplyAll(old(env), FieldOps(s, name) + ServiceOps(s)) && extra == Collected(s, name)
    {
      ApplyPlus(env, FieldOps(s, name), ServiceOps(s));
      var namespace, podName, nodeName := SetFields(s);
      SetServices(s, namespace, podName);
      extra := CollectAttributes(s, namespace, podName, nodeName);
    }

    /** Later entries take precedence over earlier ones. */
    method CollectAttributes(s: Settings, namespace: Value, podName: Value, nodeName: Value)
        returns (extra: map<string, Value>)
      requires namespace == [Ref(NamespaceName)] && podName == [Ref(PodName)] && nodeName == [Ref(NodeName)]
      ensures extra == Collected(s, name)
    {
      extra := map k | k in s.attributes :: Plain(s.attributes[k]);
      extra := extra[NODE_NAME_KEY := nodeName];
      var instance := if s.chosenInstance != "" then Plain(s.chosenInstance)
                      else if name != "" then namespace + [Lit(".")] + podName + [Lit("."), Lit(name)]
                      else [];
      assert instance == InstanceValue(s, name);
      if instance != [] {
        extra := extra[INSTANCE_ID_KEY := instance];
      }
      extra := extra + map k | k in s.annotations :: Plain(s.annotations[k]);
    }

    method ConfigureSampler(s: Settings)
      modifies `env
      ensures env == ApplyAll(old(env), SamplerOps(s))
    {
      if s.sampler.Some? {
        ghost var start, done := env, [];
        done := Set(TracesSampler, Plain(s.sampler.value.0), start, done);
        done := Set(TracesSamplerArg, Plain(s.sampler.value.1), start, done);
      }
    }

    method ConfigureExporters(s: Settings)
      modifies `env
      ensures env == ApplyAll(old(env), ExporterOps(s))
    {
      ghost var start, done := env, [];
      done := Set(MetricsExporter, Plain(if s.exportMetrics then "otlp" else "none"), start, done);
      done := Set(TracesExporter, Plain(if s.exportTraces then "otlp" else "none"), start, done);
      done := Set(LogsExporter, Plain(if s.exportLogs then "otlp" else "none"), start, done);
    }

    method InjectEnvVars(s: Settings, extra: map<string, Value>)
      requires extra == Extra(s, name)
      modifies `env
      ensures env == ApplyAll(old(env), AttributeOps(s, name))
    {
      assert NODE_NAME_KEY in extra;
      if |extra| > 0 {
        var list := JoinLoop(extra, s.sorted(extra.Keys));
        SetEnvVar(ResourceAttributes, list);
      }
    }

    method ConfigureContainerEnvVars(s: Settings)
      modifies `env
      ensures env == ApplyAll(old(env), ConfigureOps(s, name))
    {
      ghost var start := env;
      var extra := SetResourceAttributes(s);
      ghost var done := FieldOps(s, name) + ServiceOps(s);
      done := Set(Propagators, Plain(s.propagators), start, done);
      ConfigureSampler(s);
      ApplyPlus(start, done, SamplerOps(s));
      done := done + SamplerOps(s);
      ConfigureExporters(s);
      ApplyPlus(start, done, ExporterOps(s));
      done := done + ExporterOps(s);
      if s.skipSpanMetrics {
        extra := extra[SKIP_METRICS_KEY := Plain("true")];
      }
      InjectEnvVars(s, extra);
      ApplyPlus(start, done, AttributeOps(s, name));
    }

    method DisableUndesiredSdks(s: Settings)
      modifies `env
      ensures env == ApplyAll(old(env), DisableOps(s, |SUPPORTED|))
    {
      ghost var start := env;
      for i := 0 to |SUPPORTED|
        invariant env == ApplyAll(start, DisableOps(s, i))
      {
        var l := SUPPORTED[i];
        if l !in s.enabled {
          ApplyOne(env, Put(PathOf(l), Plain("")));
          SetEnvVarEvenIfEmpty(PathOf(l), Plain(""));
          ApplyPlus(start, DisableOps(s, i), [Put(PathOf(l), Plain(""))]);
        } else {
          ApplyPlus(start, DisableOps(s, i), []);
        }
      }
    }

    /** The export headers, in any order of their map. */
    method SetHeaders(s: Settings)
      modifies `env
      ensures env == ApplyAll(old(env), HeaderOps(s, |s.headers|))
    {
      ghost var start := env;
      for i := 0 to |s.headers|
        invariant env == ApplyAll(start, HeaderOps(s, i))
      {
        var (k, v) := s.headers[i];
        ghost var all := Set(k, Plain(v), start, HeaderOps(s, i));
      }
    }

    /** All variables of a container. */
    method AddEnvVars(s: Settings)
      modifies `env
      ensures env == ApplyAll(old(env), Plan(s, name))
    {
      ghost var start, head, configure := env, HeadOps(s), ConfigureOps(s, name);
      ghost var disable, headers := DisableOps(s, |SUPPORTED|), HeaderOps(s, |s.headers|);
      PlanApplied(start, head, configure, disable, headers);
      SetHead(s);
      ConfigureContainerEnvVars(s);
      DisableUndesiredSdks(s);
      SetHeaders(s);
    }
  }

  lemma PlanApplied(env: Env, a: seq<Op>, b: seq<Op>, c: seq<Op>, d: seq<Op>)
    ensures ApplyAll(env, a + b + c + d) == ApplyAll(ApplyAll(ApplyAll(ApplyAll(env, a), b), c), d)
  {
    ApplyPlus(env, a + b + c, d);
    ApplyPlus(env, a + b, c);
    ApplyPlus(env, a, b);
  }

  method JoinLoop(extra: map<string, Value>, keys: seq<string>) returns (list: Value)
    ensures list == Joined(extra, keys)
  {
    list := [];
    for i := 0 to |keys|
      invariant list == Joined(extra, keys[..i])
    {
      var k := keys[i];
      assert keys[..i + 1][..i] == keys[..i];
      list := list + (if i > 0 then [Lit(",")] else []) + [Lit(k + "=")] + if k in extra then extra[k] else [];
    }
    assert keys[..|keys|] == keys;
  }

  // ---------- generated references ----------

  /** The variables that may get a reference. */
  predicate Consumer(n: Name) {
    n == ServiceNamespace || n == ServiceName || n == ResourceAttributes
  }

  /** The only fields that are referred to. */
  predicate Referred(n: Name) {
    n == NamespaceName || n == PodName || n == NodeName
  }

  predicate OnlyReferred(v: Value) {
    forall i :: 0 <= i < |v| && v[i].Ref? ==> Referred(v[i].name)
  }

  lemma {:induction false} JoinedRefers(extra: map<string, Value>, keys: seq<string>)
    requires forall k :: k in extra ==> OnlyReferred(extra[k])
    ensures OnlyReferred(Joined(extra, keys))
  {
    if keys != [] {
      JoinedRefers(extra, keys[..|keys| - 1]);
    }
  }

  lemma ExtraRefers(s: Settings, container: string)
    ensures forall k :: k in Extra(s, container) ==> OnlyReferred(Extra(s, container)[k])
  {
  }

  /** Updates that neither name a consumer nor write a reference. */
  predicate Quiet(ops: seq<Op>) {
    forall k :: 0 <= k < |ops| ==> !Consumer(ops[k].name) && (ops[k].Put? ==> !HasRefs(ops[k].value))
  }

  /** Orderly updates in which references are written to consumers only, and to no other consumers than `used`. */
  ghost predicate Sound(ops: seq<Op>, used: set<Name>) {
    && Orderly(ops)
    && (forall k :: 0 <= k < |ops| && Consumer(ops[k].name) ==> ops[k].name in used)
    && (forall k :: 0 <= k < |ops| && ops[k].Put? && HasRefs(ops[k].value) ==> Consumer(ops[k].name))
  }

  predicate DefinesAll(ops: seq<Op>) {
    Defines(ops, |ops|, NamespaceName) && Defines(ops, |ops|, PodName) && Defines(ops, |ops|, NodeName)
  }

  lemma DefinesPlus(a: seq<Op>, b: seq<Op>, n: nat, x: Name)
    requires n <= |a| && Defines(a, n, x)
    ensures Defines(a + b, n, x) && Defines(a + b, |a + b|, x)
  {
    var k :| 0 <= k < n && a[k].Field? && a[k].name == x;
    assert (a + b)[k] == a[k];
  }

  lemma SoundQuiet(a: seq<Op>, q: seq<Op>, used: set<Name>)
    requires Sound(a, used) && Quiet(q)
    ensures Sound(a + q, used) && (DefinesAll(a) ==> DefinesAll(a + q))
  {
    var ops := a + q;
    forall k, x | 0 <= k < |ops| && ops[k].Put? && RefersTo(ops[k].value, x) ensures Defines(ops, k, x) {
      RefersHas(ops[k].value, x);
      assert k < |a|;
      DefinesPlus(a, q, k, x);
    }
    if DefinesAll(a) {
      DefinesAllPlus(a, q);
    }
    hide Defines, HasRefs;
  }

  lemma RefersHas(v: Value, x: Name)
    requires RefersTo(v, x)
    ensures HasRefs(v) && (OnlyReferred(v) ==> Referred(x))
  {
    var i :| 0 <= i < |v| && v[i] == Ref(x);
  }

  /** One more consumer, behind the fields. */
  lemma SoundSet(a: seq<Op>, n: Name, v: Value, used: set<Name>)
    requires Sound(a, used) && DefinesAll(a) && Consumer(n) && n !in used && OnlyReferred(v)
    ensures Sound(a + SetOps(n, v), used + {n}) && DefinesAll(a + SetOps(n, v))
  {
    if Blank(v) {
      assert a + SetOps(n, v) == a;
    } else {
      SoundPut(a, n, v, used);
    }
  }

  lemma DefinesAllPlus(a: seq<Op>, b: seq<Op>)
    requires DefinesAll(a)
    ensures DefinesAll(a + b)
  {
    DefinesPlus(a, b, |a|, NamespaceName);
    DefinesPlus(a, b, |a|, PodName);
    DefinesPlus(a, b, |a|, NodeName);
  }

  lemma SoundPut(a: seq<Op>, n: Name, v: Value, used: set<Name>)
    requires Sound(a, used) && DefinesAll(a) && Consumer(n) && n !in used && OnlyReferred(v)
    ensures Sound(a + [Put(n, v)], used + {n}) && DefinesAll(a + [Put(n, v)])
  {
    var q := [Put(n, v)];
    var ops := a + q;
    DefinesAllPlus(a, q);
    forall k, x | 0 <= k < |ops| && ops[k].Put? && RefersTo(ops[k].value, x) ensures Defines(ops, k, x) {
      RefersHas(ops[k].value, x);
      if k < |a| {
        DefinesPlus(a, q, k, x);
      } else {
        DefinesPlus(a, q, |a|, x);
      }
    }
    hide Defines, HasRefs, OnlyReferred;
  }

  /** Updates that write no reference. */
  predicate Literal(ops: seq<Op>) {
    forall k :: 0 <= k < |ops| ==> ops[k].Put? && !HasRefs(ops[k].value)
  }

  lemma {:induction false} HeadersLiteral(s: Settings, n: nat)
    requires n <= |s.headers|
    ensures Literal(HeaderOps(s, n))
  {
    if n > 0 {
      HeadersLiteral(s, n - 1);
    }
  }

  lemma OrderlyLiteral(a: seq<Op>, q: seq<Op>)
    requires Orderly(a) && Literal(q)
    ensures Orderly(a + q)
  {
    var ops := a + q;
    forall k, x | 0 <= k < |ops| && ops[k].Put? && RefersTo(ops[k].value, x) ensures Defines(ops, k, x) {
      RefersHas(ops[k].value, x);
      assert k < |a|;
      DefinesPlus(a, q, k, x);
    }
  }

  lemma {:induction false} DisableQuiet(s: Settings, n: nat)
    requires n <= |SUPPORTED|
    ensures Quiet(DisableOps(s, n))
  {
    if n > 0 {
      DisableQuiet(s, n - 1);
    }
  }

  lemma QuietPlus(a: seq<Op>, b: seq<Op>)
    requires Quiet(a) && Quiet(b)
    ensures Quiet(a + b)
  {
  }

  lemma TextQuiet(n: Name, text: string)
    requires !Consumer(n)
    ensures Quiet(SetText(n, text))
  {
  }

  lemma HeadQuiet(s: Settings)
    ensures Quiet(HeadOps(s))
  {
    TextQuiet(SdkVersion, s.version);
    TextQuiet(LdPreload, PRELOAD_VALUE);
    TextQuiet(ConfigFile, CONFIG_FILE_VALUE);
    TextQuiet(Endpoint, s.endpoint);
    TextQuiet(Protocol, s.protocol);
    TextQuiet(SemConvStability, "http");
    TextQuiet(LogLevel, "debug");
    hide Quiet, SetText;
    var a, b := SetText(SdkVersion, s.version), SetText(LdPreload, PRELOAD_VALUE);
    var c := SetText(ConfigFile, CONFIG_FILE_VALUE);
    var d, e, f := SetText(Endpoint, s.endpoint), SetText(Protocol, s.protocol), SetText(SemConvStability, "http");
    QuietPlus(a, b);
    QuietPlus(a + b, c);
    QuietPlus(a + b + c, d);
    QuietPlus(a + b + c + d, e);
    QuietPlus(a + b + c + d + e, f);
    if s.debug {
      QuietPlus(a + b + c + d + e + f, SetText(LogLevel, "debug"));
    }
  }

  lemma FieldsQuiet(s: Settings, container: string)
    ensures Quiet(FieldOps(s, container)) && DefinesAll(FieldOps(s, container))
  {
    var set_ := SetText(ContainerName, container);
    var ops := FieldOps(s, container);
    assert ops[|set_|] == Field(NamespaceName, "metadata.namespace");
    assert ops[|set_| + 1] == Field(PodName, "metadata.name");
    assert ops[|set_| + 2] == Field(NodeName, "spec.nodeName");
  }

  lemma MiddleQuiet(s: Settings)
    ensures Quiet(SetText(Propagators, s.propagators)) && Quiet(SamplerOps(s)) && Quiet(ExporterOps(s))
    ensures Quiet(SetText(ServiceVersion, s.chosenVersion))
  {
  }

  /** The parts of a plan: quiet ones, and one for each consumer. */
  lemma PlanParts(s: Settings, container: string)
    ensures var extra := Extra(s, container);
            Plan(s, container)
            == HeadOps(s) + FieldOps(s, container) + SetOps(ServiceNamespace, ServiceNamespaceValue(s))
               + SetOps(ServiceName, ServiceNameValue(s))
               + (SetText(ServiceVersion, s.chosenVersion) + SetText(Propagators, s.propagators)
                  + SamplerOps(s) + ExporterOps(s))
               + SetOps(ResourceAttributes, Joined(extra, s.sorted(extra.Keys)))
               + DisableOps(s, |SUPPORTED|) + HeaderOps(s, |s.headers|)
  {
    var extra := Extra(s, container);
    RegroupPlan(HeadOps(s), FieldOps(s, container), SetOps(ServiceNamespace, ServiceNamespaceValue(s)),
      SetOps(ServiceName, ServiceNameValue(s)), SetText(ServiceVersion, s.chosenVersion),
      SetText(Propagators, s.propagators), SamplerOps(s), ExporterOps(s),
      SetOps(ResourceAttributes, Joined(extra, s.sorted(extra.Keys))), DisableOps(s, |SUPPORTED|),
      HeaderOps(s, |s.headers|));
  }

  lemma RegroupPlan(h: seq<Op>, f: seq<Op>, n: seq<Op>, m: seq<Op>, v: seq<Op>, p: seq<Op>, a: seq<Op>, e: seq<Op>,
      r: seq<Op>, d: seq<Op>, x: seq<Op>)
    ensures h + (f + (n + m + v) + p + a + e + r) + d + x == h + f + n + m + (v + p + a + e) + r + d + x
  {
    assert f + (n + m + v) + p + a + e + r == f + n + m + (v + p + a + e) + r;
    assert h + (f + n + m + (v + p + a + e) + r) == h + f + n + m + (v + p + a + e) + r;
  }

  lemma SoundHead(s: Settings, container: string)
    ensures Sound(HeadOps(s) + FieldOps(s, container), {}) && DefinesAll(HeadOps(s) + FieldOps(s, container))
  {
    HeadQuiet(s);
    FieldsQuiet(s, container);
    SoundQuiet([], HeadOps(s), {});
    assert [] + HeadOps(s) == HeadOps(s);
    SoundQuiet(HeadOps(s), FieldOps(s, container), {});
    DefinesBehind(HeadOps(s), FieldOps(s, container), NamespaceName);
    DefinesBehind(HeadOps(s), FieldOps(s, container), PodName);
    DefinesBehind(HeadOps(s), FieldOps(s, container), NodeName);
  }

  lemma DefinesBehind(a: seq<Op>, b: seq<Op>, x: Name)
    requires Defines(b, |b|, x)
    ensures Defines(a + b, |a + b|, x)
  {
    var k :| 0 <= k < |b| && b[k].Field? && b[k].name == x;
    assert (a + b)[|a| + k] == b[k];
  }

  /** Quiet updates that define the fields, then the three consumers with quiet updates between and behind them. */
  function Assembled(a: seq<Op>, v: Value, w: Value, middle: seq<Op>, x: Value, tail: seq<Op>): seq<Op> {
    a + SetOps(ServiceNamespace, v) + SetOps(ServiceName, w) + middle + SetOps(ResourceAttributes, x) + tail
  }

  lemma SoundAssembled(a: seq<Op>, v: Value, w: Value, middle: seq<Op>, x: Value, tail: seq<Op>)
    requires Sound(a, {}) && DefinesAll(a) && Quiet(middle) && Quiet(tail)
    requires OnlyReferred(v) && OnlyReferred(w) && OnlyReferred(x)
    ensures Orderly(Assembled(a, v, w, middle, x, tail))
  {
    SoundSet(a, ServiceNamespace, v, {});
    var b := a + SetOps(ServiceNamespace, v);
    var used := {} + {ServiceNamespace};
    SoundSet(b, ServiceName, w, used);
    var c := b + SetOps(ServiceName, w);
    SoundQuiet(c, middle, used + {ServiceName});
    SoundSet(c + middle, ResourceAttributes, x, used + {ServiceName});
    SoundQuiet(c + middle + SetOps(ResourceAttributes, x), tail, used + {ServiceName} + {ResourceAttributes});
  }

  function Middle(s: Settings): seq<Op> {
    SetText(ServiceVersion, s.chosenVersion) + SetText(Propagators, s.propagators) + SamplerOps(s) + ExporterOps(s)
  }

  function AttributesValue(s: Settings, container: string): Value {
    var extra := Extra(s, container);
    Joined(extra, s.sorted(extra.Keys))
  }

  /** The plan without the export headers. */
  function Own(s: Settings, container: string): seq<Op> {
    Assembled(HeadOps(s) + FieldOps(s, container), ServiceNamespaceValue(s), ServiceNameValue(s), Middle(s),
              AttributesValue(s, container), DisableOps(s, |SUPPORTED|))
  }

  lemma PlanAssembled(s: Settings, container: string)
    ensures Plan(s, container) == Own(s, container) + HeaderOps(s, |s.headers|)
  {
    PlanParts(s, container);
  }

  lemma MiddleIsQuiet(s: Settings)
    ensures Quiet(Middle(s))
  {
    MiddleQuiet(s);
    QuietPlus(SetText(ServiceVersion, s.chosenVersion), SetText(Propagators, s.propagators));
    QuietPlus(SetText(ServiceVersion, s.chosenVersion) + SetText(Propagators, s.propagators), SamplerOps(s));
    QuietPlus(SetText(ServiceVersion, s.chosenVersion) + SetText(Propagators, s.propagators) + SamplerOps(s),
      ExporterOps(s));
  }

  lemma AttributesRefer(s: Settings, container: string)
    ensures OnlyReferred(AttributesValue(s, container))
  {
    ExtraRefers(s, container);
    var extra := Extra(s, container);
    JoinedRefers(extra, s.sorted(extra.Keys));
  }

  /** The plan writes references only behind the fields they name, each to a variable it did not name before. */
  lemma PlanSound(s: Settings, container: string)
    ensures Orderly(Plan(s, container))
  {
    SoundHead(s, container);
    MiddleIsQuiet(s);
    DisableQuiet(s, |SUPPORTED|);
    AttributesRefer(s, container);
    SoundAssembled(HeadOps(s) + FieldOps(s, container), ServiceNamespaceValue(s), ServiceNameValue(s), Middle(s),
      AttributesValue(s, container), DisableOps(s, |SUPPORTED|));
    HeadersLiteral(s, |s.headers|);
    OrderlyLiteral(Own(s, container), HeaderOps(s, |s.headers|));
    PlanAssembled(s, container);
  }

  // ---------- which environments keep references resolved ----------

  /** Quiet updates leave no references, and consumers alone. */
  lemma LeavesQuiet(q: seq<Op>, n: Name, x: Name)
    requires Quiet(q)
    ensures !Leaves(q, n, x) && (Consumer(n) ==> Final(q, n) == None)
  {
    if Final(q, n).Some? {
      var k := FinalPut(q, n);
      RefersIs(q[k].value, x);
    }
  }

  lemma LeavesSet(name: Name, v: Value, n: Name, x: Name)
    ensures Leaves(SetOps(name, v), n, x) <==> n == name && RefersTo(v, x)
    ensures Final(SetOps(name, v), n).Some? <==> n == name && !Blank(v)
  {
    FinalOne(Put(name, v), n);
    BlankHasNone(v, x);
    hide Final;
  }

  lemma BlankHasNone(v: Value, x: Name)
    ensures Blank(v) ==> !RefersTo(v, x)
  {
    if RefersTo(v, x) {
      var i :| 0 <= i < |v| && v[i] == Ref(x);
      assert v[i] != Lit("");
    }
  }

  /** One more value, behind updates that leave the variable alone. */
  lemma LeavesSetPlus(a: seq<Op>, name: Name, v: Value, n: Name, x: Name)
    requires n == name ==> Final(a, n) == None
    ensures Leaves(a + SetOps(name, v), n, x) <==> if n == name then RefersTo(v, x) else Leaves(a, n, x)
    ensures n != name ==> (Final(a + SetOps(name, v), n).Some? <==> Final(a, n).Some?)
  {
    LeavesSet(name, v, n, x);
    LeavesPlus(a, SetOps(name, v), n, x);
  }

  lemma LeavesQuietPlus(a: seq<Op>, q: seq<Op>, n: Name, x: Name)
    requires Quiet(q) && (Consumer(n) || !Leaves(a, n, x))
    ensures Leaves(a + q, n, x) <==> Leaves(a, n, x)
    ensures Consumer(n) ==> (Final(a + q, n).Some? <==> Final(a, n).Some?)
  {
    LeavesQuiet(q, n, x);
    LeavesPlus(a, q, n, x);
  }

  /** What the plan writes to `n` by itself. */
  function Given(s: Settings, container: string, n: Name): Value {
    match n
    case ServiceNamespace => ServiceNamespaceValue(s)
    case ServiceName => ServiceNameValue(s)
    case ResourceAttributes => AttributesValue(s, container)
    case _ => []
  }

  lemma AssembledLeaves(a: seq<Op>, v: Value, w: Value, middle: seq<Op>, y: Value, tail: seq<Op>, n: Name, x: Name)
    requires Quiet(a) && Quiet(middle) && Quiet(tail)
    ensures Leaves(Assembled(a, v, w, middle, y, tail), n, x)
       <==> (n == ServiceNamespace && RefersTo(v, x)) || (n == ServiceName && RefersTo(w, x))
            || (n == ResourceAttributes && RefersTo(y, x))
  {
    LeavesQuiet(a, n, x);
    hide Quiet, SetOps, Leaves, Final;
    LeavesSetPlus(a, ServiceNamespace, v, n, x);
    var b := a + SetOps(ServiceNamespace, v);
    LeavesSetPlus(b, ServiceName, w, n, x);
    var c := b + SetOps(ServiceName, w);
    LeavesQuietPlus(c, middle, n, x);
    LeavesSetPlus(c + middle, ResourceAttributes, y, n, x);
    LeavesQuietPlus(c + middle + SetOps(ResourceAttributes, y), tail, n, x);
  }

  /** An export header sets the variable to a text of its own. */
  predicate Overridden(s: Settings, n: Name) {
    OverriddenBy(s, |s.headers|, n)
  }

  predicate OverriddenBy(s: Settings, m: nat, n: Name)
    requires m <= |s.headers|
  {
    exists i :: 0 <= i < m && s.headers[i].0 == n && s.headers[i].1 != ""
  }

  lemma OverriddenStep(s: Settings, m: nat, n: Name)
    requires 0 < m <= |s.headers|
    ensures OverriddenBy(s, m, n)
       <==> OverriddenBy(s, m - 1, n) || (s.headers[m - 1].0 == n && s.headers[m - 1].1 != "")
  {
  }

  lemma TextBlank(text: string, x: Name)
    ensures (Blank(Plain(text)) <==> text == "") && !RefersTo(Plain(text), x)
  {
    assert Plain(text)[0] == Lit(text);
  }

  lemma {:induction false} HeadersFinal(s: Settings, m: nat, n: Name, x: Name)
    requires m <= |s.headers|
    ensures Final(HeaderOps(s, m), n).Some? <==> OverriddenBy(s, m, n)
    ensures !Leaves(HeaderOps(s, m), n, x)
  {
    if m > 0 {
      var (k, text) := s.headers[m - 1];
      HeadersFinal(s, m - 1, n, x);
      TextBlank(text, x);
      OverriddenStep(s, m, n);
      hide Leaves, Final, SetOps, Blank, Plain, OverriddenBy;
      LeavesPlus(HeaderOps(s, m - 1), SetText(k, text), n, x);
      LeavesSet(k, Plain(text), n, x);
    }
  }

  /** What the plan leaves in a variable: its own value, unless a header overrides that. */
  lemma PlanLeaves(s: Settings, container: string, n: Name, x: Name)
    ensures Leaves(Plan(s, container), n, x) <==> !Overridden(s, n) && RefersTo(Given(s, container, n), x)
  {
    hide Leaves, Final, Quiet, HeadOps, FieldOps, Middle, DisableOps, HeaderOps, Assembled, Plan;
    HeadQuiet(s);
    FieldsQuiet(s, container);
    QuietPlus(HeadOps(s), FieldOps(s, container));
    MiddleIsQuiet(s);
    DisableQuiet(s, |SUPPORTED|);
    AssembledLeaves(HeadOps(s) + FieldOps(s, container), ServiceNamespaceValue(s), ServiceNameValue(s), Middle(s),
      AttributesValue(s, container), DisableOps(s, |SUPPORTED|), n, x);
    HeadersFinal(s, |s.headers|, n, x);
    LeavesPlus(Own(s, container), HeaderOps(s, |s.headers|), n, x);
    PlanAssembled(s, container);
  }

  /** A variable that is there already and gets a reference, not overridden by a header, stands behind the variables
      the reference names. */
  ghost predicate Ready(env: Env, s: Settings, container: string) {
    forall n, x :: Has(env, n) && !Overridden(s, n) && RefersTo(Given(s, container, n), x) ==>
      DefinedBefore(env, IndexOfName(env, n), x)
  }

  /** Whatever the container's environment: every generated reference stands behind the variable it names if and only
      if those written in place do. */
  lemma ReferencesExactly(env: Env, s: Settings, container: string)
    requires NoRefs(env)
    ensures Resolved(ApplyAll(env, Plan(s, container))) <==> Ready(env, s, container)
  {
    var ops := Plan(s, container);
    PlanSound(s, container);
    ResolvedExactly(env, ops);
    forall n, x ensures Leaves(ops, n, x) <==> !Overridden(s, n) && RefersTo(Given(s, container, n), x) {
      PlanLeaves(s, container, n, x);
    }
  }

  /** In particular if the container has none of the service and attribute variables beforehand. */
  lemma FreshReferences(env: Env, s: Settings, container: string)
    requires NoRefs(env) && !Has(env, ServiceNamespace) && !Has(env, ServiceName) && !Has(env, ResourceAttributes)
    ensures Resolved(ApplyAll(env, Plan(s, container)))
  {
    ReferencesExactly(env, s, container);
  }
}
