/** Which pods are mutated, and what every variable of their containers holds afterwards. */
module PodValues {
  import opened Text
  import opened Webhook
  import opened EnvSpec
  import opened PodMutation
  import opened PodMutator

  // ---------- what a list of updates leaves in a variable ----------

  /** The entry that counts for a name: the first one. */
  function First(env: Env, n: Name): Option<EnvVar> {
    if env == [] then None else if env[0].name == n then Some(env[0]) else First(env[1..], n)
  }

  lemma {:induction false} FirstIs(env: Env, n: Name)
    ensures First(env, n) == if IndexOfName(env, n) < |env| then Some(env[IndexOfName(env, n)]) else None
  {
    if env != [] && env[0].name != n {
      FirstIs(env[1..], n);
    }
  }

  predicate NoField(ops: seq<Op>, n: Name) {
    forall k :: 0 <= k < |ops| && ops[k].Field? ==> ops[k].name != n
  }

  lemma FirstAfterOne(env: Env, op: Op, n: Name)
    requires op.Field? ==> op.name != n
    ensures First(Apply(env, op), n)
         == if op.Put? && op.name == n then Some(EnvVar(n, op.value, None)) else First(env, n)
  {
    var after := Apply(env, op);
    FirstIs(env, n);
    FirstIs(after, n);
    var i := IndexOfName(env, n);
    assert forall k :: 0 <= k < |env| ==> after[k].name == env[k].name;
    if i < |after| && (i < |env| || op.name == n) {
      FirstAt(after, n, i);
    }
  }

  lemma FirstAt(env: Env, n: Name, i: nat)
    requires i < |env| && env[i].name == n && forall k :: 0 <= k < i ==> env[k].name != n
    ensures IndexOfName(env, n) == i
  {
  }

  /** A variable that is no pod field holds what is written to it last, or else what it held before. */
  lemma {:induction false} FirstAfter(env: Env, ops: seq<Op>, n: Name)
    requires NoField(ops, n)
    ensures First(ApplyAll(env, ops), n)
         == if Final(ops, n).Some? then Some(EnvVar(n, Final(ops, n).value, None)) else First(env, n)
  {
    if ops != [] {
      var init := ops[..|ops| - 1];
      assert forall k :: 0 <= k < |init| ==> init[k] == ops[k];
      FirstAfter(env, init, n);
      FirstAfterOne(ApplyAll(env, init), ops[|ops| - 1], n);
    }
  }

  // ---------- what the plan writes ----------

  /** Nothing is written for an empty text. */
  function Nonempty(text: string): Option<Value> {
    if text == "" then None else Some(Plain(text))
  }

  function PathUnless(enabled: bool): Option<Value> {
    if enabled then None else Some(Plain(""))
  }

  /** What is written to each variable, before the export headers. */
  function Written(s: Settings, container: string, n: Name): Option<Value> {
    match n
    case SdkVersion => Nonempty(s.version)
    case LdPreload => Some(Plain(PRELOAD_VALUE))
    case ConfigFile => Some(Plain(CONFIG_FILE_VALUE))
    case Endpoint => Nonempty(s.endpoint)
    case Protocol => Nonempty(s.protocol)
    case SemConvStability => Some(Plain("http"))
    case LogLevel => if s.debug then Some(Plain("debug")) else None
    case ContainerName => Nonempty(container)
    case ServiceNamespace => Some(if s.chosenNamespace != "" then Plain(s.chosenNamespace) else [Ref(NamespaceName)])
    case ServiceName => Some(if s.chosenServiceName != "" then Plain(s.chosenServiceName) else [Ref(PodName)])
    case ServiceVersion => Nonempty(s.chosenVersion)
    case Propagators => Nonempty(s.propagators)
    case TracesSampler => if s.sampler.Some? then Nonempty(s.sampler.value.0) else None
    case TracesSamplerArg => if s.sampler.Some? then Nonempty(s.sampler.value.1) else None
    case MetricsExporter => Some(Plain(if s.exportMetrics then "otlp" else "none"))
    case TracesExporter => Some(Plain(if s.exportTraces then "otlp" else "none"))
    case LogsExporter => Some(Plain(if s.exportLogs then "otlp" else "none"))
    case ResourceAttributes =>
      if Blank(AttributesValue(s, container)) then None else Some(AttributesValue(s, container))
    case DotnetPath => PathUnless(Dotnet in s.enabled)
    case JavaPath => PathUnless(Java in s.enabled)
    case NodejsPath => PathUnless(Nodejs in s.enabled)
    case PythonPath => PathUnless(Python in s.enabled)
    case _ => None
  }

  lemma FinalSet(a: seq<Op>, name: Name, v: Value, n: Name)
    ensures Final(a + SetOps(name, v), n) == if n == name && !Blank(v) then Some(v) else Final(a, n)
  {
    FinalPlus(a, SetOps(name, v), n);
    FinalOne(Put(name, v), n);
  }

  lemma FinalText(a: seq<Op>, name: Name, text: string, n: Name)
    ensures Final(a + SetText(name, text), n) == if n == name && text != "" then Some(Plain(text)) else Final(a, n)
  {
    assert Plain(text)[0] == Lit(text);
    FinalSet(a, name, Plain(text), n);
  }

  lemma FinalNone(n: Name)
    ensures Final([], n) == None
  {
  }

  lemma HeadFinal(s: Settings, n: Name)
    ensures Final(HeadOps(s), n)
         == match n
            case SdkVersion => Nonempty(s.version)
            case LdPreload => Some(Plain(PRELOAD_VALUE))
            case ConfigFile => Some(Plain(CONFIG_FILE_VALUE))
            case Endpoint => Nonempty(s.endpoint)
            case Protocol => Nonempty(s.protocol)
            case SemConvStability => Some(Plain("http"))
            case LogLevel => if s.debug then Some(Plain("debug")) else None
            case _ => None
  {
    FinalNone(n);
    hide Final, SetText;
    var a := SetText(SdkVersion, s.version);
    assert [] + a == a;
    FinalText([], SdkVersion, s.version, n);
    FinalText(a, LdPreload, PRELOAD_VALUE, n);
    var b := a + SetText(LdPreload, PRELOAD_VALUE);
    FinalText(b, ConfigFile, CONFIG_FILE_VALUE, n);
    var c := b + SetText(ConfigFile, CONFIG_FILE_VALUE);
    FinalText(c, Endpoint, s.endpoint, n);
    var d := c + SetText(Endpoint, s.endpoint);
    FinalText(d, Protocol, s.protocol, n);
    var e := d + SetText(Protocol, s.protocol);
    FinalText(e, SemConvStability, "http", n);
    var f := e + SetText(SemConvStability, "http");
    if s.debug {
      FinalText(f, LogLevel, "debug", n);
    } else {
      assert f + [] == f;
    }
  }

  lemma FinalFields(ops: seq<Op>, n: Name)
    requires forall k :: 0 <= k < |ops| ==> ops[k].Field?
    ensures Final(ops, n) == None
  {
  }

  lemma FieldsFinal(s: Settings, container: string, n: Name)
    ensures Final(FieldOps(s, container), n) == if n == ContainerName then Nonempty(container) else None
  {
    FinalNone(n);
    FinalText([], ContainerName, container, n);
    var a := SetText(ContainerName, container);
    assert [] + a == a;
    var fields := [Field(NamespaceName, "metadata.namespace"), Field(PodName, "metadata.name"),
      Field(NodeName, "spec.nodeName")];
    var uid := if s.addUid then [Field(PodUid, "metadata.uid")] else [];
    FinalFields(fields, n);
    FinalFields(uid, n);
    hide Final, SetText;
    FinalPlus(a, fields, n);
    FinalPlus(a + fields, uid, n);
  }

  lemma ServicesNotBlank(s: Settings)
    ensures !Blank(ServiceNamespaceValue(s)) && !Blank(ServiceNameValue(s))
  {
    assert ServiceNamespaceValue(s)[0] != Lit("") && ServiceNameValue(s)[0] != Lit("");
  }

  lemma ServiceFinal(s: Settings, n: Name)
    ensures Final(ServiceOps(s), n)
         == match n
            case ServiceNamespace =>
              Some(if s.chosenNamespace != "" then Plain(s.chosenNamespace) else [Ref(NamespaceName)])
            case ServiceName => Some(if s.chosenServiceName != "" then Plain(s.chosenServiceName) else [Ref(PodName)])
            case ServiceVersion => Nonempty(s.chosenVersion)
            case _ => None
  {
    hide Final, SetText, SetOps, Blank;
    FinalNone(n);
    ServicesNotBlank(s);
    var v, w := ServiceNamespaceValue(s), ServiceNameValue(s);
    var a := SetOps(ServiceNamespace, v);
    assert [] + a == a;
    FinalSet([], ServiceNamespace, v, n);
    FinalSet(a, ServiceName, w, n);
    FinalText(a + SetOps(ServiceName, w), ServiceVersion, s.chosenVersion, n);
  }

  lemma SamplerFinal(s: Settings, n: Name)
    ensures Final(SamplerOps(s), n)
         == if s.sampler.None? then None
            else if n == TracesSampler then Nonempty(s.sampler.value.0)
            else if n == TracesSamplerArg then Nonempty(s.sampler.value.1)
            else None
  {
    FinalNone(n);
    if s.sampler.Some? {
      var a := SetText(TracesSampler, s.sampler.value.0);
      assert [] + a == a;
      FinalText([], TracesSampler, s.sampler.value.0, n);
      FinalText(a, TracesSamplerArg, s.sampler.value.1, n);
    }
  }

  lemma ExporterFinal(s: Settings, n: Name)
    ensures Final(ExporterOps(s), n)
         == match n
            case MetricsExporter => Some(Plain(if s.exportMetrics then "otlp" else "none"))
            case TracesExporter => Some(Plain(if s.exportTraces then "otlp" else "none"))
            case LogsExporter => Some(Plain(if s.exportLogs then "otlp" else "none"))
            case _ => None
  {
    FinalNone(n);
    hide Final, SetText;
    var a := SetText(MetricsExporter, Exporter(s.exportMetrics));
    assert [] + a == a;
    FinalText([], MetricsExporter, Exporter(s.exportMetrics), n);
    FinalText(a, TracesExporter, Exporter(s.exportTraces), n);
    FinalText(a + SetText(TracesExporter, Exporter(s.exportTraces)), LogsExporter, Exporter(s.exportLogs), n);
  }

  lemma AttributeFinal(s: Settings, container: string, n: Name)
    ensures Final(AttributeOps(s, container), n)
         == if n == ResourceAttributes && !Blank(AttributesValue(s, container))
            then Some(AttributesValue(s, container)) else None
  {
    FinalNone(n);
    var ops := AttributeOps(s, container);
    assert [] + ops == ops;
    FinalSet([], ResourceAttributes, AttributesValue(s, container), n);
  }

  lemma DisableOne(s: Settings, m: nat, l: Language, n: Name)
    requires m < |SUPPORTED| && SUPPORTED[m] == l
    ensures Final(DisableOps(s, m + 1), n)
         == if n == PathOf(l) then (if l in s.enabled then Final(DisableOps(s, m), n) else Some(Plain("")))
            else Final(DisableOps(s, m), n)
  {
    FinalNone(n);
    FinalOne(Put(PathOf(l), Plain("")), n);
    FinalPlus(DisableOps(s, m), if l in s.enabled then [] else [Put(PathOf(l), Plain(""))], n);
    hide Final, PathOf;
  }

  /** The value of a path variable depends on its own language only. */
  lemma DisabledFinal(s: Settings, n: Name)
    ensures Final(DisableOps(s, 4), n)
         == match n
            case DotnetPath => PathUnless(Dotnet in s.enabled)
            case JavaPath => PathUnless(Java in s.enabled)
            case NodejsPath => PathUnless(Nodejs in s.enabled)
            case PythonPath => PathUnless(Python in s.enabled)
            case _ => None
  {
    DisabledStart(s, n);
    hide Final, DisableOps, Plain;
    DisableOne(s, 0, Dotnet, n);
    DisableOne(s, 1, Java, n);
    DisableOne(s, 2, Nodejs, n);
    DisableOne(s, 3, Python, n);
  }

  lemma DisabledStart(s: Settings, n: Name)
    ensures Final(DisableOps(s, 0), n) == None
  {
    FinalNone(n);
  }

  /** Of the first `m` export headers, `i` is the last one for the variable that is not empty. */
  predicate LastHeader(s: Settings, m: nat, n: Name, i: nat) {
    && i < m <= |s.headers| && s.headers[i].0 == n && s.headers[i].1 != ""
    && forall j :: i < j < m ==> s.headers[j].0 != n || s.headers[j].1 == ""
  }

  lemma LastHeaderStep(s: Settings, m: nat, n: Name, i: nat)
    requires 0 < m <= |s.headers| && LastHeader(s, m, n, i)
    ensures if s.headers[m - 1].0 == n && s.headers[m - 1].1 != "" then i == m - 1 else LastHeader(s, m - 1, n, i)
  {
  }

  lemma {:induction false} HeaderFinal(s: Settings, m: nat, n: Name)
    requires m <= |s.headers|
    ensures !OverriddenBy(s, m, n) ==> Final(HeaderOps(s, m), n) == None
    ensures forall i :: 0 <= i < m && LastHeader(s, m, n, i) ==>
              Final(HeaderOps(s, m), n) == Some(Plain(s.headers[i].1))
  {
    hide Final, SetText, OverriddenBy, LastHeader, Plain;
    if m == 0 {
      NoHeader(s, n);
    } else {
      var (k, text) := s.headers[m - 1];
      HeaderFinal(s, m - 1, n);
      FinalText(HeaderOps(s, m - 1), k, text, n);
      OverriddenStep(s, m, n);
      forall i | 0 <= i < m && LastHeader(s, m, n, i)
        ensures Final(HeaderOps(s, m), n) == Some(Plain(s.headers[i].1))
      {
        LastHeaderStep(s, m, n, i);
      }
    }
  }

  lemma NoHeader(s: Settings, n: Name)
    ensures Final(HeaderOps(s, 0), n) == None
  {
    FinalNone(n);
  }

  /** A variable with an export header has a last one. */
  lemma {:induction false} SomeLast(s: Settings, m: nat, n: Name) returns (i: nat)
    requires m <= |s.headers| && OverriddenBy(s, m, n)
    ensures LastHeader(s, m, n, i)
  {
    if s.headers[m - 1].0 == n && s.headers[m - 1].1 != "" {
      i := m - 1;
    } else {
      OverriddenStep(s, m, n);
      i := SomeLast(s, m - 1, n);
    }
  }

  // ---------- the plan as a whole ----------

  lemma ConfigureFinal(s: Settings, container: string, n: Name)
    ensures Final(ConfigureOps(s, container), n)
         == if Final(AttributeOps(s, container), n).Some? then Final(AttributeOps(s, container), n)
            else if Final(ExporterOps(s), n).Some? then Final(ExporterOps(s), n)
            else if Final(SamplerOps(s), n).Some? then Final(SamplerOps(s), n)
            else if n == Propagators && s.propagators != "" then Some(Plain(s.propagators))
            else if Final(ServiceOps(s), n).Some? then Final(ServiceOps(s), n)
            else Final(FieldOps(s, container), n)
  {
    hide Final, FieldOps, ServiceOps, SamplerOps, ExporterOps, AttributeOps, SetText;
    var a := FieldOps(s, container) + ServiceOps(s);
    var b := a + SetText(Propagators, s.propagators);
    FinalPlus(FieldOps(s, container), ServiceOps(s), n);
    FinalText(a, Propagators, s.propagators, n);
    FinalPlus(b, SamplerOps(s), n);
    FinalPlus(b + SamplerOps(s), ExporterOps(s), n);
    FinalPlus(b + SamplerOps(s) + ExporterOps(s), AttributeOps(s, container), n);
  }

  lemma OwnFinal(s: Settings, container: string, n: Name)
    ensures Final(HeadOps(s) + ConfigureOps(s, container) + DisableOps(s, |SUPPORTED|), n) == Written(s, container, n)
  {
    hide Final, HeadOps, ConfigureOps, DisableOps, FieldOps, ServiceOps, SamplerOps, ExporterOps, AttributeOps, Blank,
      AttributesValue;
    FinalPlus(HeadOps(s), ConfigureOps(s, container), n);
    FinalPlus(HeadOps(s) + ConfigureOps(s, container), DisableOps(s, |SUPPORTED|), n);
    HeadFinal(s, n);
    ConfigureFinal(s, container, n);
    FieldsFinal(s, container, n);
    ServiceFinal(s, n);
    SamplerFinal(s, n);
    ExporterFinal(s, n);
    AttributeFinal(s, container, n);
    DisabledFinal(s, n);
  }

  /** The last update of a variable writes what the table says, or the text of its last export header. */
  lemma PlanFinal(s: Settings, container: string, n: Name)
    ensures !Overridden(s, n) ==> Final(Plan(s, container), n) == Written(s, container, n)
    ensures forall i :: 0 <= i < |s.headers| && LastHeader(s, |s.headers|, n, i) ==>
              Final(Plan(s, container), n) == Some(Plain(s.headers[i].1))
  {
    OwnFinal(s, container, n);
    HeaderFinal(s, |s.headers|, n);
    var own := HeadOps(s) + ConfigureOps(s, container) + DisableOps(s, |SUPPORTED|);
    hide Final, HeadOps, ConfigureOps, DisableOps, HeaderOps, Written, OverriddenBy, LastHeader;
    FinalPlus(own, HeaderOps(s, |s.headers|), n);
  }

  // ---------- the variables of a mutated container ----------

  /** The variables read from pod fields. */
  predicate FromField(n: Name) {
    n == NamespaceName || n == PodName || n == NodeName || n == PodUid
  }

  predicate NoFields(ops: seq<Op>) {
    forall k :: 0 <= k < |ops| ==> ops[k].Put?
  }

  lemma {:induction false} DisableNoFields(s: Settings, m: nat)
    requires m <= |SUPPORTED|
    ensures NoFields(DisableOps(s, m))
  {
    if m > 0 {
      DisableNoFields(s, m - 1);
    }
  }

  lemma HeadNoFields(s: Settings)
    ensures NoFields(HeadOps(s))
  {
  }

  lemma SetNoFields(a: seq<Op>, name: Name, v: Value)
    requires NoFields(a)
    ensures NoFields(a + SetOps(name, v))
  {
  }

  lemma RestNoFields(s: Settings, container: string)
    ensures NoFields(ServiceOps(s) + SetText(Propagators, s.propagators) + SamplerOps(s) + ExporterOps(s)
                     + AttributeOps(s, container))
  {
    assert NoFields(ServiceOps(s)) && NoFields(SamplerOps(s)) && NoFields(ExporterOps(s));
    hide ServiceOps, SamplerOps, ExporterOps, AttributesValue, Joined, Extra, Blank;
    var a := ServiceOps(s) + SetText(Propagators, s.propagators);
    SetNoFields(ServiceOps(s), Propagators, Plain(s.propagators));
    SetNoFields(a + SamplerOps(s) + ExporterOps(s), ResourceAttributes, AttributesValue(s, container));
  }

  lemma NoFieldPlus(a: seq<Op>, b: seq<Op>, n: Name)
    ensures NoField(a + b, n) <==> NoField(a, n) && NoField(b, n)
  {
    if NoField(a + b, n) {
      assert forall k :: 0 <= k < |a| ==> (a + b)[k] == a[k];
      assert forall k :: 0 <= k < |b| ==> (a + b)[|a| + k] == b[k];
    }
  }

  /** Only the four pod fields are appended unconditionally. */
  lemma PlanNoField(s: Settings, container: string, n: Name)
    requires !FromField(n)
    ensures NoField(Plan(s, container), n)
  {
    hide HeadOps, FieldOps, ServiceOps, SamplerOps, ExporterOps, AttributeOps, DisableOps, HeaderOps, NoField, SetText;
    var rest := ServiceOps(s) + SetText(Propagators, s.propagators) + SamplerOps(s) + ExporterOps(s)
      + AttributeOps(s, container);
    HeadNoFields(s);
    PutsOnly(HeadOps(s), n);
    FieldsOnly(s, container, n);
    RestNoFields(s, container);
    PutsOnly(rest, n);
    DisableNoFields(s, |SUPPORTED|);
    PutsOnly(DisableOps(s, |SUPPORTED|), n);
    HeadersLiteral(s, |s.headers|);
    PutsOnly(HeaderOps(s, |s.headers|), n);
    ConfigureIs(s, container);
    NoFieldPlus(FieldOps(s, container), rest, n);
    NoFieldPlus(HeadOps(s), ConfigureOps(s, container), n);
    NoFieldPlus(HeadOps(s) + ConfigureOps(s, container), DisableOps(s, |SUPPORTED|), n);
    NoFieldPlus(HeadOps(s) + ConfigureOps(s, container) + DisableOps(s, |SUPPORTED|), HeaderOps(s, |s.headers|), n);
  }

  lemma PutsOnly(ops: seq<Op>, n: Name)
    requires NoFields(ops) || Literal(ops)
    ensures NoField(ops, n)
  {
  }

  lemma FieldsOnly(s: Settings, container: string, n: Name)
    requires !FromField(n)
    ensures NoField(FieldOps(s, container), n)
  {
  }

  lemma ConfigureIs(s: Settings, container: string)
    ensures ConfigureOps(s, container)
         == FieldOps(s, container)
            + (ServiceOps(s) + SetText(Propagators, s.propagators) + SamplerOps(s) + ExporterOps(s)
               + AttributeOps(s, container))
  {
    hide FieldOps, ServiceOps, SetText, SamplerOps, ExporterOps, AttributeOps;
  }

  /** The text of its last export header, or else what the table says, or else what it held before. */
  predicate VariableSet(before: Env, after: Env, s: Settings, container: string, n: Name) {
    && (forall i :: 0 <= i < |s.headers| && LastHeader(s, |s.headers|, n, i) ==>
          First(after, n) == Some(EnvVar(n, Plain(s.headers[i].1), None)))
    && (!Overridden(s, n) ==>
          First(after, n)
          == if Written(s, container, n).Some? then Some(EnvVar(n, Written(s, container, n).value, None))
             else First(before, n))
  }

  /** What a variable holds in a mutated container. */
  lemma VariableIs(s: Settings, container: string, env: Env, n: Name)
    requires !FromField(n)
    ensures VariableSet(env, ApplyAll(env, Plan(s, container)), s, container, n)
  {
    PlanNoField(s, container, n);
    PlanFinal(s, container, n);
    hide Plan, Written, LastHeader, OverriddenBy, ApplyAll, Final;
    FirstAfter(env, Plan(s, container), n);
  }

  predicate HoldsField(env: Env, n: Name, path: string) {
    exists i :: 0 <= i < |env| && env[i] == EnvVar(n, [], Some(path))
  }

  lemma FieldKeptOne(env: Env, op: Op, n: Name, path: string)
    requires HoldsField(env, n, path) && (op.Put? ==> op.name != n)
    ensures HoldsField(Apply(env, op), n, path)
  {
    var i :| 0 <= i < |env| && env[i] == EnvVar(n, [], Some(path));
    assert Apply(env, op)[i] == env[i];
  }

  /** A variable read from a pod field keeps its entry if nothing is written to it. */
  lemma {:induction false} FieldKept(env: Env, ops: seq<Op>, k: nat, n: Name, path: string)
    requires k < |ops| && ops[k] == Field(n, path) && Final(ops, n) == None
    ensures HoldsField(ApplyAll(env, ops), n, path)
  {
    var init, op := ops[..|ops| - 1], ops[|ops| - 1];
    var before := ApplyAll(env, init);
    if k == |ops| - 1 {
      assert Apply(before, op)[|before|] == EnvVar(n, [], Some(path));
    } else {
      FieldKept(env, init, k, n, path);
      FieldKeptOne(before, op, n, path);
    }
  }

  /** The pod fields that are handed on, with where they come from. */
  function FieldPath(s: Settings, n: Name): Option<string> {
    match n
    case NamespaceName => Some("metadata.namespace")
    case PodName => Some("metadata.name")
    case NodeName => Some("spec.nodeName")
    case PodUid => if s.addUid then Some("metadata.uid") else None
    case _ => None
  }

  lemma FieldPlanned(s: Settings, container: string, n: Name) returns (k: nat)
    requires FieldPath(s, n).Some?
    ensures k < |Plan(s, container)| && Plan(s, container)[k] == Field(n, FieldPath(s, n).value)
  {
    var set_ := SetText(ContainerName, container);
    var j := |set_| + match n { case NamespaceName => 0 case PodName => 1 case NodeName => 2 case _ => 3 };
    var fields := FieldOps(s, container);
    assert j < |fields| && fields[j] == Field(n, FieldPath(s, n).value);
    ConfigureIs(s, container);
    hide HeadOps, FieldOps, ConfigureOps, DisableOps, HeaderOps;
    k := |HeadOps(s)| + j;
  }

  /** Unless an export header takes its name, each of these variables is there, read from its field. */
  lemma FieldIs(s: Settings, container: string, env: Env, n: Name)
    requires FieldPath(s, n).Some? && !Overridden(s, n)
    ensures HoldsField(ApplyAll(env, Plan(s, container)), n, FieldPath(s, n).value)
  {
    var k := FieldPlanned(s, container, n);
    PlanFinal(s, container, n);
    FieldKept(env, Plan(s, container), k, n, FieldPath(s, n).value);
  }

  // ---------- whole pods ----------

  /** The pod matches, no label and no container marks it as instrumented. */
  predicate Due(p: PodValue, r: Rules) {
    && r.matches(p.labels)
    && (INSTRUMENTED_LABEL in p.labels ==> p.labels[INSTRUMENTED_LABEL] == "")
    && forall i, k :: 0 <= i < |p.containers| && 0 <= k < |p.containers[i].env| ==>
         p.containers[i].env[k].name != ConfigFile
  }

  lemma DueExactly(p: PodValue, r: Rules)
    ensures Due(p, r) <==> !Skips(p, r)
  {
    if Due(p, r) {
      assert forall i :: 0 <= i < |p.containers| ==> !Has(p.containers[i].env, ConfigFile);
    }
  }

  /** `after` is `before` with `v` for the first volume of the injector's name, or behind all volumes. */
  predicate VolumeSet(before: seq<Volume>, after: seq<Volume>, v: Volume) {
    && (forall i :: 0 <= i < |before| && before[i].name == VOLUME_NAME
                    && (forall j :: 0 <= j < i ==> before[j].name != VOLUME_NAME) ==>
          after == before[i := v])
    && ((forall i :: 0 <= i < |before| ==> before[i].name != VOLUME_NAME) ==> after == before + [v])
  }

  predicate MountSet(before: seq<Mount>, after: seq<Mount>) {
    && (forall i :: 0 <= i < |before| && before[i].name == VOLUME_NAME
                    && (forall j :: 0 <= j < i ==> before[j].name != VOLUME_NAME) ==>
          after == before[i := Mount(VOLUME_NAME, MOUNT_PATH, true)])
    && ((forall i :: 0 <= i < |before| ==> before[i].name != VOLUME_NAME) ==>
          after == before + [Mount(VOLUME_NAME, MOUNT_PATH, true)])
  }

  lemma VolumesSet(volumes: seq<Volume>, v: Volume)
    ensures VolumeSet(volumes, WithVolume(volumes, v), v)
  {
  }

  lemma MountsSet(mounts: seq<Mount>)
    ensures MountSet(mounts, Mounted(mounts))
  {
  }

  predicate Preloads(c: ContainerSpec) {
    exists k :: 0 <= k < |c.env| && c.env[k].name == LdPreload
  }

  /** What a mutation makes of one container. */
  ghost predicate ContainerSet(before: ContainerSpec, after: ContainerSpec, s: Settings) {
    && after.name == before.name
    && if Preloads(before) then after == before
       else
         && MountSet(before.mounts, after.mounts)
         && (forall n :: !FromField(n) ==> VariableSet(before.env, after.env, s, before.name, n))
         && (forall n :: FieldPath(s, n).Some? && !Overridden(s, n) ==>
               HoldsField(after.env, n, FieldPath(s, n).value))
  }

  lemma ContainerIs(c: ContainerSpec, s: Settings)
    ensures ContainerSet(c, Instrumented(c, s), s)
  {
    assert Preloads(c) <==> Has(c.env, LdPreload);
    if !Preloads(c) {
      MountsSet(c.mounts);
      hide MountSet, Mounted, VariableSet, OverriddenBy, ApplyAll, Plan, HoldsField, FieldPath, Preloads;
      forall n | !FromField(n) ensures VariableSet(c.env, ApplyAll(c.env, Plan(s, c.name)), s, c.name, n) {
        VariableIs(s, c.name, c.env, n);
      }
      forall n | FieldPath(s, n).Some? && !Overridden(s, n)
        ensures HoldsField(ApplyAll(c.env, Plan(s, c.name)), n, FieldPath(s, n).value)
      {
        FieldIs(s, c.name, c.env, n);
      }
    }
  }

  /** A pod that is due is labelled, gets the volume, and has its containers set up; any other pod is left alone. */
  lemma MutatedExactly(p: PodValue, r: Rules)
    ensures var after := Mutated(p, r);
            if Due(p, r) then
              && after.labels == p.labels[INSTRUMENTED_LABEL := r.version]
              && VolumeSet(p.volumes, after.volumes, r.volume)
              && |after.containers| == |p.containers|
              && forall i :: 0 <= i < |p.containers| ==>
                   ContainerSet(p.containers[i], after.containers[i], r.settings(p.labels, p.containers[i].name))
            else
              after == p
  {
    DueExactly(p, r);
    VolumesSet(p.volumes, r.volume);
    hide Due, Skips, VolumeSet, WithVolume, ContainerSet, Instrumented;
    forall c: ContainerSpec, s: Settings ensures ContainerSet(c, Instrumented(c, s), s) {
      ContainerIs(c, s);
    }
  }
}
