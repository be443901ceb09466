/** How the webhook rewrites the environment list of a container: single updates, their composition, and where
    references to other variables stand. */
module EnvSpec {
  import opened Text

  /** Names the injector sets, and any other. */
  datatype Name =
    | SdkVersion | LdPreload | ConfigFile | Endpoint | Protocol | SemConvStability | LogLevel
    | ContainerName | NamespaceName | PodName | NodeName | PodUid
    | ServiceNamespace | ServiceName | ServiceVersion
    | Propagators | TracesSampler | TracesSamplerArg | MetricsExporter | TracesExporter | LogsExporter
    | ResourceAttributes
    | DotnetPath | JavaPath | NodejsPath | PythonPath
    | Other(text: string)

  /** Text with references `$(X)` generated by the injector; text supplied by users is literal. */
  datatype Piece = Lit(text: string) | Ref(name: Name)

  type Value = seq<Piece>

  predicate Blank(v: Value) {
    forall i :: 0 <= i < |v| ==> v[i] == Lit("")
  }

  function Plain(s: string): Value {
    [Lit(s)]
  }

  predicate RefersTo(v: Value, x: Name) {
    Ref(x) in v
  }

  predicate HasRefs(v: Value) {
    exists i :: 0 <= i < |v| && v[i].Ref?
  }

  datatype EnvVar = EnvVar(name: Name, value: Value, from: Option<string>)

  type Env = seq<EnvVar>

  /** Position of the first entry of that name, or `|env|`. */
  function IndexOfName(env: Env, name: Name): (r: nat)
    ensures r <= |env| && (r < |env| ==> env[r].name == name)
    ensures forall i :: 0 <= i < r ==> env[i].name != name
  {
    if env == [] || env[0].name == name then 0 else 1 + IndexOfName(env[1..], name)
  }

  predicate Has(env: Env, name: Name) {
    exists i :: 0 <= i < |env| && env[i].name == name
  }

  lemma HasIs(env: Env, name: Name)
    ensures Has(env, name) <==> IndexOfName(env, name) < |env|
  {
  }

  // ---------- updates ----------

  /** `Put` sets a variable in place or appends it; `Field` always appends one that is read from a pod field. */
  datatype Op = Put(name: Name, value: Value) | Field(name: Name, path: string)

  function Apply(env: Env, op: Op): Env {
    match op
    case Put(name, value) =>
      var pos := IndexOfName(env, name);
      if pos < |env| then env[pos := EnvVar(name, value, None)] else env + [EnvVar(name, value, None)]
    case Field(name, path) => env + [EnvVar(name, [], Some(path))]
  }

  function ApplyAll(env: Env, ops: seq<Op>): Env {
    if ops == [] then env else Apply(ApplyAll(env, ops[..|ops| - 1]), ops[|ops| - 1])
  }

  lemma {:induction false} ApplyPlus(env: Env, a: seq<Op>, b: seq<Op>)
    ensures ApplyAll(env, a + b) == ApplyAll(ApplyAll(env, a), b)
  {
    if b == [] {
      assert a + b == a;
    } else {
      assert (a + b)[..|a + b| - 1] == a + b[..|b| - 1];
      ApplyPlus(env, a, b[..|b| - 1]);
    }
  }

  lemma ApplyNone(env: Env)
    ensures ApplyAll(env, []) == env
  {
  }

  lemma ApplyOne(env: Env, op: Op)
    ensures ApplyAll(env, [op]) == Apply(env, op) && ApplyAll(env, []) == env
  {
    assert [op][..0] == [];
  }

  // ---------- framing ----------

  predicate Names(ops: seq<Op>, name: Name) {
    exists k :: 0 <= k < |ops| && ops[k].name == name
  }

  /** The names of `env` are a prefix of those of `after`. */
  predicate Extends(env: Env, after: Env) {
    |env| <= |after| && forall i :: 0 <= i < |env| ==> after[i].name == env[i].name
  }

  /** Original names stay in place, new ones come behind them; of the original entries at most the first of each name
      that is set changes. */
  lemma {:induction false} ApplyFrames(env: Env, ops: seq<Op>)
    ensures Extends(env, ApplyAll(env, ops))
    ensures forall i :: 0 <= i < |env| && (!Names(ops, env[i].name) || IndexOfName(env, env[i].name) != i) ==>
              ApplyAll(env, ops)[i] == env[i]
  {
    if ops != [] {
      var n := |ops| - 1;
      var before, op := ApplyAll(env, ops[..n]), ops[n];
      ApplyFrames(env, ops[..n]);
      forall i | 0 <= i < |env| && (!Names(ops, env[i].name) || IndexOfName(env, env[i].name) != i)
        ensures Apply(before, op)[i] == env[i]
      {
        assert !Names(ops, env[i].name) ==> !Names(ops[..n], env[i].name) by {
          assert forall k :: 0 <= k < n ==> ops[..n][k] == ops[k];
        }
        SameFirst(env, before, op.name, i);
      }
    }
  }

  /** The first entry of a name stays the first. */
  lemma SameFirst(env: Env, after: Env, name: Name, i: nat)
    requires Extends(env, after) && i < |env|
    ensures IndexOfName(after, name) == i <==> IndexOfName(env, name) == i
  {
  }

  lemma {:induction false} HasAfter(env: Env, ops: seq<Op>, name: Name)
    ensures Has(ApplyAll(env, ops), name) <==> Has(env, name) || Names(ops, name)
  {
    if ops != [] {
      var n := |ops| - 1;
      var before := ApplyAll(env, ops[..n]);
      HasAfter(env, ops[..n], name);
      assert Names(ops, name) <==> Names(ops[..n], name) || ops[n].name == name by {
        assert forall k :: 0 <= k < n ==> ops[..n][k] == ops[k];
      }
      HasOne(before, ops[n], name);
    }
  }

  lemma HasOne(env: Env, op: Op, name: Name)
    ensures Has(Apply(env, op), name) <==> Has(env, name) || op.name == name
  {
    var after := Apply(env, op);
    if |after| > |env| {
      assert after[|env|].name == op.name;
    }
    assert forall i :: 0 <= i < |env| ==> after[i].name == env[i].name;
    HasIs(env, op.name);
  }

  // ---------- references ----------

  /** Every reference stands behind an entry that defines it, as the kubelet's expansion needs. */
  ghost predicate Resolved(env: Env) {
    forall i, x :: 0 <= i < |env| && RefersTo(env[i].value, x) ==> DefinedBefore(env, i, x)
  }

  ghost predicate DefinedBefore(env: Env, i: nat, x: Name)
    requires i <= |env|
  {
    exists j :: 0 <= j < i && env[j].name == x
  }

  ghost predicate NoRefs(env: Env) {
    forall i :: 0 <= i < |env| ==> !HasRefs(env[i].value)
  }

  predicate Defines(ops: seq<Op>, n: nat, x: Name)
    requires n <= |ops|
  {
    exists k :: 0 <= k < n && ops[k].Field? && ops[k].name == x
  }

  /** References go to fields appended by earlier updates, and no earlier update names a variable that gets one. */
  ghost predicate Orderly(ops: seq<Op>) {
    && (forall k, x :: 0 <= k < |ops| && ops[k].Put? && RefersTo(ops[k].value, x) ==> Defines(ops, k, x))
    && (forall k, l :: 0 <= l < k < |ops| && ops[k].Put? && HasRefs(ops[k].value) ==> ops[l].name != ops[k].name)
  }

  /** What the last `Put` to a variable writes. */
  function Final(ops: seq<Op>, name: Name): Option<Value> {
    if ops == [] then None
    else
      var op := ops[|ops| - 1];
      if op.Put? && op.name == name then Some(op.value) else Final(ops[..|ops| - 1], name)
  }

  lemma {:induction false} FinalPlus(a: seq<Op>, b: seq<Op>, name: Name)
    ensures Final(a + b, name) == if Final(b, name).Some? then Final(b, name) else Final(a, name)
  {
    if b == [] {
      assert a + b == a;
    } else {
      assert (a + b)[..|a + b| - 1] == a + b[..|b| - 1];
      FinalPlus(a, b[..|b| - 1], name);
    }
  }

  lemma FinalOne(op: Op, name: Name)
    ensures Final([op], name) == if op.Put? && op.name == name then Some(op.value) else None
    ensures Final([], name) == None
  {
    assert [op][..0] == [];
  }

  /** The last update of a variable leaves a reference to `x` in it. */
  predicate Leaves(ops: seq<Op>, name: Name, x: Name) {
    Final(ops, name).Some? && RefersTo(Final(ops, name).value, x)
  }

  lemma LeavesPlus(a: seq<Op>, b: seq<Op>, name: Name, x: Name)
    ensures Leaves(a + b, name, x) <==> if Final(b, name).Some? then Leaves(b, name, x) else Leaves(a, name, x)
    ensures Final(a + b, name).Some? <==> Final(a, name).Some? || Final(b, name).Some?
  {
    FinalPlus(a, b, name);
  }

  lemma {:induction false} FinalPut(ops: seq<Op>, name: Name) returns (k: nat)
    requires Final(ops, name).Some?
    ensures k < |ops| && ops[k] == Put(name, Final(ops, name).value)
  {
    var n := |ops| - 1;
    if ops[n].Put? && ops[n].name == name {
      k := n;
    } else {
      k := FinalPut(ops[..n], name);
    }
  }

  /** A variable that is there beforehand keeps its place and ends up with what is written to it last. */
  lemma {:induction false} WrittenInPlace(env: Env, ops: seq<Op>, name: Name)
    requires Has(env, name) && Final(ops, name).Some?
    ensures var pos := IndexOfName(env, name);
            && pos < |env| <= |ApplyAll(env, ops)|
            && ApplyAll(env, ops)[pos] == EnvVar(name, Final(ops, name).value, None)
  {
    var n := |ops| - 1;
    ApplyFrames(env, ops[..n]);
    HasIs(env, name);
    SameFirst(env, ApplyAll(env, ops[..n]), name, IndexOfName(env, name));
    if !(ops[n].Put? && ops[n].name == name) {
      WrittenInPlace(env, ops[..n], name);
    }
  }

  /** A reference is in the first entry of its variable, where the last update has written it. */
  lemma {:induction false} WrittenLast(env: Env, ops: seq<Op>, i: nat, x: Name)
    requires NoRefs(env) && i < |ApplyAll(env, ops)| && RefersTo(ApplyAll(env, ops)[i].value, x)
    ensures var e := ApplyAll(env, ops)[i];
            Final(ops, e.name) == Some(e.value) && IndexOfName(ApplyAll(env, ops), e.name) == i
  {
    RefersIs(ApplyAll(env, ops)[i].value, x);
    if ops != [] {
      var n := |ops| - 1;
      var before, after := ApplyAll(env, ops[..n]), ApplyAll(env, ops);
      if i < |before| && after[i] == before[i] {
        WrittenLast(env, ops[..n], i, x);
        ApplyFrames(before, [ops[n]]);
        ApplyOne(before, ops[n]);
        SameFirst(before, after, after[i].name, i);
      }
    }
  }

  lemma RefersIs(v: Value, x: Name)
    ensures RefersTo(v, x) ==> HasRefs(v)
  {
    if RefersTo(v, x) {
      var i :| 0 <= i < |v| && v[i] == Ref(x);
    }
  }

  /** A variable that was not there beforehand comes behind the fields it refers to. */
  lemma WrittenBehind(env: Env, ops: seq<Op>, name: Name, x: Name)
    requires Orderly(ops) && !Has(env, name) && Leaves(ops, name, x)
    ensures DefinedBefore(ApplyAll(env, ops), IndexOfName(ApplyAll(env, ops), name), x)
  {
    var k := FinalPut(ops, name);
    RefersIs(ops[k].value, x);
    var init, rest := ops[..k], ops[k..];
    var before, after := ApplyAll(env, init), ApplyAll(env, ops);
    assert ops == init + rest;
    ApplyPlus(env, init, rest);
    ApplyFrames(before, rest);
    assert !Names(init, name);
    HasAfter(env, init, name);
    assert Defines(ops, k, x);
    var l :| 0 <= l < k && ops[l].Field? && ops[l].name == x;
    assert init[l].name == x;
    HasAfter(env, init, x);
    var j :| 0 <= j < |before| && before[j].name == x;
    assert after[j].name == x;
    assert forall m :: 0 <= m < |before| ==> after[m].name != name;
  }

  /** A variable that is there beforehand and ends up with references stands behind all they name. */
  ghost predicate Early(env: Env, ops: seq<Op>) {
    forall n, x :: Has(env, n) && Leaves(ops, n, x) ==>
      DefinedBefore(env, IndexOfName(env, n), x)
  }

  /** Whatever variables are there beforehand, generated references are resolved exactly if those written in place are
      defined in front of them. */
  lemma ResolvedExactly(env: Env, ops: seq<Op>)
    requires NoRefs(env) && Orderly(ops)
    ensures Resolved(ApplyAll(env, ops)) <==> Early(env, ops)
  {
    var after := ApplyAll(env, ops);
    ApplyFrames(env, ops);
    if Resolved(after) {
      forall n, x | Has(env, n) && Leaves(ops, n, x)
        ensures DefinedBefore(env, IndexOfName(env, n), x)
      {
        WrittenInPlace(env, ops, n);
        var pos := IndexOfName(env, n);
        assert RefersTo(after[pos].value, x);
        var j :| 0 <= j < pos && after[j].name == x;
        assert env[j].name == x;
      }
    }
    if Early(env, ops) {
      forall i, x | 0 <= i < |after| && RefersTo(after[i].value, x) ensures DefinedBefore(after, i, x) {
        WrittenLast(env, ops, i, x);
        var n := after[i].name;
        if Has(env, n) {
          HasIs(env, n);
          SameFirst(env, after, n, IndexOfName(env, n));
          DefinedLater(env, after, i, x);
        } else {
          WrittenBehind(env, ops, n, x);
        }
      }
    }
  }

  lemma DefinedLater(env: Env, after: Env, i: nat, x: Name)
    requires Extends(env, after) && i <= |env| && DefinedBefore(env, i, x)
    ensures DefinedBefore(after, i, x)
  {
    var j :| 0 <= j < i && env[j].name == x;
    assert after[j].name == x;
  }
}
