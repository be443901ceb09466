/** Restarting deployments: for which processes of which pods, and how often. */
module Bouncer {
  import opened Text
  import opened Webhook

  // ---------- keys ----------

  function DropSpace(s: string, n: nat): (r: nat)
    requires n <= |s|
    ensures r <= n
    ensures r > 0 ==> !IsSpace(s[r - 1])
  {
    if n > 0 && IsSpace(s[n - 1]) then DropSpace(s, n - 1) else n
  }

  function TrimmedName(name: string): string {
    var l, r := SkipSpaces(name, 0), DropSpace(name, |name|);
    if l < r then name[l..r] else ""
  }

  function Joined(a: string, b: string): string { a + ":" + b }

  function MutationKey(namespace: string, deployment: string): string {
    Joined(TrimmedName(namespace), TrimmedName(deployment))
  }

  /** No space at either end: what trimming yields, and what it leaves alone. */
  predicate Bare(s: string) {
    s == "" || (!IsSpace(s[0]) && !IsSpace(s[|s| - 1]))
  }

  lemma TrimmedIsBare(name: string)
    ensures Bare(TrimmedName(name))
    ensures Bare(name) ==> TrimmedName(name) == name
  {
  }

  /** A colon without a space beside it. */
  predicate ColonAt(s: string, j: int) {
    0 <= j < |s| && s[j] == ':' && (j == 0 || !IsSpace(s[j - 1])) && (j + 1 == |s| || !IsSpace(s[j + 1]))
  }

  ghost predicate HasColon(s: string) {
    exists j :: ColonAt(s, j)
  }

  lemma JoinedParts(a: string, b: string)
    ensures |Joined(a, b)| == |a| + 1 + |b| && Joined(a, b)[|a|] == ':'
    ensures forall i :: 0 <= i < |a| ==> Joined(a, b)[i] == a[i]
    ensures forall i :: 0 <= i < |b| ==> Joined(a, b)[|a| + 1 + i] == b[i]
  {
  }

  /** Where two ways of joining differ, the longer first part holds a colon, and so does the longer second one. */
  lemma ColonBetween(a: string, b: string, x: string, y: string)
    requires Joined(a, b) == Joined(x, y) && |x| < |a| && Bare(x) && Bare(y)
    ensures HasColon(a)
  {
    JoinedParts(a, b);
    JoinedParts(x, y);
    var j := |x|;
    assert a[j] == Joined(a, b)[j] == ':';
    if j > 0 {
      assert a[j - 1] == Joined(a, b)[j - 1] == x[j - 1];
    }
    if j + 1 < |a| {
      assert a[j + 1] == Joined(a, b)[j + 1] == y[0];
    }
    assert ColonAt(a, j);
  }

  lemma ColonBehind(a: string, b: string, x: string, y: string)
    requires Joined(a, b) == Joined(x, y) && |a| < |x| && Bare(x) && Bare(y)
    ensures HasColon(b)
  {
    JoinedParts(a, b);
    JoinedParts(x, y);
    var j := |x| - |a| - 1;
    assert b[j] == Joined(a, b)[|a| + 1 + j] == ':';
    if j > 0 {
      assert b[j - 1] == Joined(a, b)[|a| + j] == x[|x| - 1];
    }
    if j + 1 < |b| {
      assert b[j + 1] == Joined(a, b)[|a| + 1 + (j + 1)] == y[0];
    }
    assert ColonAt(b, j);
  }

  lemma SameJoined(a: string, b: string, x: string, y: string)
    requires Joined(a, b) == Joined(x, y) && |a| == |x|
    ensures a == x && b == y
  {
    assert Joined(a, b)[..|a|] == a && Joined(a, b)[|a| + 1..] == b;
    assert Joined(x, y)[..|x|] == x && Joined(x, y)[|x| + 1..] == y;
  }

  /** Cutting at a colon in the first part, and joining there instead. */
  lemma CutFirst(a: string, b: string, j: nat)
    requires Bare(a) && Bare(b) && ColonAt(a, j)
    ensures Bare(a[..j]) && Bare(Joined(a[j + 1..], b)) && Joined(a[..j], Joined(a[j + 1..], b)) == Joined(a, b)
  {
    assert a == a[..j] + ":" + a[j + 1..];
    JoinedParts(a[j + 1..], b);
  }

  lemma CutSecond(a: string, b: string, j: nat)
    requires Bare(a) && Bare(b) && ColonAt(b, j)
    ensures Bare(Joined(a, b[..j])) && Bare(b[j + 1..]) && Joined(Joined(a, b[..j]), b[j + 1..]) == Joined(a, b)
  {
    assert b == b[..j] + ":" + b[j + 1..];
    JoinedParts(a, b[..j]);
  }

  /** Another pair of names with the same key. */
  predicate Collides(ns: string, d: string, ns2: string, d2: string) {
    MutationKey(ns2, d2) == MutationKey(ns, d)
    && (TrimmedName(ns2) != TrimmedName(ns) || TrimmedName(d2) != TrimmedName(d))
  }

  lemma ColonCollides(ns: string, d: string) returns (ns2: string, d2: string)
    requires HasColon(TrimmedName(ns)) || HasColon(TrimmedName(d))
    ensures Collides(ns, d, ns2, d2)
  {
    var a, b := TrimmedName(ns), TrimmedName(d);
    TrimmedIsBare(ns);
    TrimmedIsBare(d);
    if HasColon(a) {
      var j :| ColonAt(a, j);
      CutFirst(a, b, j);
      ns2, d2 := a[..j], Joined(a[j + 1..], b);
    } else {
      var j :| ColonAt(b, j);
      CutSecond(a, b, j);
      ns2, d2 := Joined(a, b[..j]), b[j + 1..];
      JoinedParts(a, b[..j]);
    }
    TrimmedIsBare(ns2);
    TrimmedIsBare(d2);
  }

  /** Which keys are ambiguous, exactly: a namespace and a deployment share their key with no others if and only if
      neither of their trimmed names holds a colon with no space beside it. */
  lemma KeyExactly(ns: string, d: string)
    ensures (forall ns2, d2 :: !Collides(ns, d, ns2, d2)) <==> !HasColon(TrimmedName(ns)) && !HasColon(TrimmedName(d))
  {
    var a, b := TrimmedName(ns), TrimmedName(d);
    if HasColon(a) || HasColon(b) {
      var ns2, d2 := ColonCollides(ns, d);
    }
    forall ns2, d2 | Collides(ns, d, ns2, d2) ensures HasColon(a) || HasColon(b) {
      var x, y := TrimmedName(ns2), TrimmedName(d2);
      TrimmedIsBare(ns2);
      TrimmedIsBare(d2);
      if |x| < |a| {
        ColonBetween(a, b, x, y);
      } else if |a| < |x| {
        ColonBehind(a, b, x, y);
      } else {
        SameJoined(a, b, x, y);
      }
    }
  }

  lemma NoColon(s: string)
    requires Lacks(s, ':')
    ensures !HasColon(s)
  {
  }

  /** Keys of namespaces without a colon tell namespaces and deployments apart. */
  lemma KeyInjective(ns: string, d: string, ns2: string, d2: string)
    requires Lacks(TrimmedName(ns), ':') && Lacks(TrimmedName(ns2), ':')
    ensures MutationKey(ns, d) == MutationKey(ns2, d2)
       <==> TrimmedName(ns) == TrimmedName(ns2) && TrimmedName(d) == TrimmedName(d2)
  {
    var a, b, x, y := TrimmedName(ns), TrimmedName(d), TrimmedName(ns2), TrimmedName(d2);
    TrimmedIsBare(d);
    TrimmedIsBare(ns);
    TrimmedIsBare(d2);
    TrimmedIsBare(ns2);
    NoColon(a);
    NoColon(x);
    if Joined(a, b) == Joined(x, y) {
      if |x| < |a| {
        ColonBetween(a, b, x, y);
      } else if |a| < |x| {
        ColonBetween(x, y, a, b);
      } else {
        SameJoined(a, b, x, y);
      }
    }
  }

  // ---------- processes ----------

  type Kind = nat

  datatype Process = Process(kind: Kind, env: map<string, string>)

  /** A local process with the metadata of the pod it runs in. */
  datatype Info = Info(process: Process, labels: map<string, string>, namespace: string, deployment: string)

  /** Configuration and matcher. */
  datatype Rules = Rules(version: string, enabled: set<Kind>, matches: Info -> bool)

  predicate PreloadsSomethingElse(a: Info) {
    PRELOAD_VARIABLE in a.process.env && a.process.env[PRELOAD_VARIABLE] != PRELOAD_VALUE
  }

  predicate AlreadyInstrumented(a: Info, r: Rules) {
    if INSTRUMENTED_LABEL in a.labels && a.labels[INSTRUMENTED_LABEL] != "" then
      a.labels[INSTRUMENTED_LABEL] == r.version
    else if VERSION_VARIABLE in a.process.env && a.process.env[VERSION_VARIABLE] != "" then
      a.process.env[VERSION_VARIABLE] == r.version
    else false
  }

  /** Instrumentation is missing and wanted, or present and no longer wanted. */
  predicate NeedsRestart(a: Info, r: Rules) {
    if AlreadyInstrumented(a, r) then !r.matches(a)
    else a.process.kind in r.enabled && !PreloadsSomethingElse(a) && r.matches(a)
  }

  predicate CanBeBounced(namespace: string, deployment: string) {
    TrimmedName(namespace) != "" && TrimmedName(deployment) != ""
  }

  // ---------- the ledger ----------

  datatype Restart = Restart(namespace: string, deployment: string)

  /** Keys marked, and the restarts attempted in order. */
  datatype Ledger = Ledger(bounced: set<string>, restarts: seq<Restart>)

  const EMPTY := Ledger({}, [])

  function KeyOf(r: Restart): string {
    MutationKey(r.namespace, r.deployment)
  }

  /** The ledger after one more process has been considered. */
  function Considered(l: Ledger, a: Info, r: Rules): Ledger {
    var key := MutationKey(a.namespace, a.deployment);
    if NeedsRestart(a, r) && CanBeBounced(a.namespace, a.deployment) && key !in l.bounced then
      Ledger(l.bounced + {key}, l.restarts + [Restart(a.namespace, a.deployment)])
    else l
  }

  function ConsideredAll(l: Ledger, infos: seq<Info>, n: nat, r: Rules): Ledger
    requires n <= |infos|
  {
    if n == 0 then l else Considered(ConsideredAll(l, infos, n - 1, r), infos[n - 1], r)
  }

  /** Attempts to restart a deployment; marks it even if the attempt fails. */
  class PodBouncer {
    var bounced: set<string>
    ghost var restarts: seq<Restart>

    constructor ()
      ensures Abs() == EMPTY
    {
      bounced, restarts := {}, [];
    }

    ghost function Abs(): Ledger
      reads this
    {
      Ledger(bounced, restarts)
    }

    predicate AlreadyBounced(namespace: string, deployment: string)
      reads this
    {
      MutationKey(namespace, deployment) in bounced
    }

    /** `exists_` and `patched` are what the cluster answers to looking the deployment up and to patching it. */
    method RestartDeployment(namespace: string, deployment: string, exists_: bool, patched: bool) returns (ok: bool)
      modifies this
      ensures if !CanBeBounced(namespace, deployment) then !ok && Abs() == old(Abs())
              else Abs() == Ledger(old(bounced) + {MutationKey(namespace, deployment)},
                                   old(restarts) + [Restart(namespace, deployment)])
    {
      if !CanBeBounced(namespace, deployment) {
        return false;
      }
      bounced := bounced + {MutationKey(namespace, deployment)};
      restarts := restarts + [Restart(namespace, deployment)];
      if !exists_ {
        return false;
      }
      ok := patched;
    }
  }

  datatype EventType = Created | Updated | Deleted | SyncFinished

  /** A pod as the informer reports it, with the identifiers of its containers. */
  datatype Pod = Pod(namespace: string, deployment: string, labels: map<string, string>, containers: seq<string>)

  datatype Event = Event(kind: EventType, pod: Option<Pod>)

  function InfosOf(procs: seq<Process>, pod: Pod): (r: seq<Info>)
    ensures |r| == |procs|
  {
    seq(|procs|, i requires 0 <= i < |procs| => Info(procs[i], pod.labels, pod.namespace, pod.deployment))
  }

  /** The local processes of the first `n` containers of a pod, with its metadata. */
  function Enriched(state: map<string, seq<Process>>, pod: Pod, n: nat): seq<Info>
    requires n <= |pod.containers|
  {
    if n == 0 then []
    else
      Enriched(state, pod, n - 1)
      + if pod.containers[n - 1] in state then InfosOf(state[pod.containers[n - 1]], pod) else []
  }

  /** The processes an event makes the server look at. */
  function Affected(state: map<string, seq<Process>>, e: Event): seq<Info> {
    if e.pod.None? || (e.kind != Created && e.kind != Updated) then []
    else Enriched(state, e.pod.value, |e.pod.value.containers|)
  }

  function AffectedAll(state: map<string, seq<Process>>, events: seq<Event>, n: nat): seq<Info>
    requires n <= |events|
  {
    if n == 0 then [] else AffectedAll(state, events, n - 1) + Affected(state, events[n - 1])
  }

  class Server {
    const rules: Rules
    const bouncer: PodBouncer
    const initialState: map<string, seq<Process>>

    constructor (rules: Rules, bouncer: PodBouncer, initialState: map<string, seq<Process>>)
      ensures this.rules == rules && this.bouncer == bouncer && this.initialState == initialState
    {
      this.rules, this.bouncer, this.initialState := rules, bouncer, initialState;
    }

    method RestartDeployment(a: Info, exists_: bool, patched: bool)
      modifies bouncer
      ensures bouncer.Abs() == if CanBeBounced(a.namespace, a.deployment)
                                  && MutationKey(a.namespace, a.deployment) !in old(bouncer.bounced)
                               then Ledger(old(bouncer.bounced) + {MutationKey(a.namespace, a.deployment)},
                                           old(bouncer.restarts) + [Restart(a.namespace, a.deployment)])
                               else old(bouncer.Abs())
    {
      if !CanBeBounced(a.namespace, a.deployment) {
        return;
      }
      if bouncer.AlreadyBounced(a.namespace, a.deployment) {
        return;
      }
      var ok := bouncer.RestartDeployment(a.namespace, a.deployment, exists_, patched);
    }

    method EnrichProcessInfo(pod: Pod) returns (infos: seq<Info>)
      ensures infos == Enriched(initialState, pod, |pod.containers|)
    {
      infos := [];
      for i := 0 to |pod.containers|
        invariant infos == Enriched(initialState, pod, i)
      {
        if pod.containers[i] in initialState {
          infos := infos + InfosOf(initialState[pod.containers[i]], pod);
        }
      }
    }

    /** Handles one event, whatever the cluster answers. */
    method On(e: Event, answers: Info -> (bool, bool))
      modifies bouncer
      ensures var infos := Affected(initialState, e);
              bouncer.Abs() == ConsideredAll(old(bouncer.Abs()), infos, |infos|, rules)
    {
      if e.pod.None? {
        return;
      }
      if e.kind == Created || e.kind == Updated {
        var infos := EnrichProcessInfo(e.pod.value);
        for i := 0 to |infos|
          invariant bouncer.Abs() == ConsideredAll(old(bouncer.Abs()), infos, i, rules)
        {
          var a := infos[i];
          var (exists_, patched) := answers(a);
          if !AlreadyInstrumented(a, rules) {
            if a.process.kind in rules.enabled && !PreloadsSomethingElse(a) {
              if rules.matches(a) {
                RestartDeployment(a, exists_, patched);
              }
            }
          } else {
            if !rules.matches(a) {
              RestartDeployment(a, exists_, patched);
            }
          }
        }
      }
    }

    method Run(events: seq<Event>, answers: seq<Info -> (bool, bool)>)
      requires |answers| == |events| && bouncer.Abs() == EMPTY
      modifies bouncer
      ensures var infos := AffectedAll(initialState, events, |events|);
              bouncer.Abs() == ConsideredAll(EMPTY, infos, |infos|, rules)
    {
      hide Considered, Affected;
      for i := 0 to |events|
        invariant var infos := AffectedAll(initialState, events, i);
                  bouncer.Abs() == ConsideredAll(EMPTY, infos, |infos|, rules)
      {
        ghost var before, more := AffectedAll(initialState, events, i), Affected(initialState, events[i]);
        ConsideredPlus(EMPTY, before, more, |more|, rules);
        On(events[i], answers[i]);
      }
    }
  }

  lemma {:induction false} ConsideredPrefix(l: Ledger, a: seq<Info>, b: seq<Info>, n: nat, r: Rules)
    requires n <= |a|
    ensures ConsideredAll(l, a + b, n, r) == ConsideredAll(l, a, n, r)
  {
    if n > 0 {
      ConsideredPrefix(l, a, b, n - 1, r);
    }
  }

  lemma {:induction false} ConsideredPlus(l: Ledger, a: seq<Info>, b: seq<Info>, n: nat, r: Rules)
    requires n <= |b|
    ensures ConsideredAll(l, a + b, |a| + n, r) == ConsideredAll(ConsideredAll(l, a, |a|, r), b, n, r)
  {
    if n == 0 {
      ConsideredPrefix(l, a, b, |a|, r);
    } else {
      ConsideredPlus(l, a, b, n - 1, r);
      assert (a + b)[|a| + n - 1] == b[n - 1];
    }
  }

  // ---------- main results ----------

  /** The marks are the keys of the restarts attempted, and no two restarts share a key. */
  ghost predicate Consistent(l: Ledger) {
    && (forall k :: k in l.bounced <==> exists i :: 0 <= i < |l.restarts| && KeyOf(l.restarts[i]) == k)
    && (forall i, j :: 0 <= i < j < |l.restarts| ==> KeyOf(l.restarts[i]) != KeyOf(l.restarts[j]))
  }

  lemma ConsideredConsistent(l: Ledger, a: Info, r: Rules)
    requires Consistent(l)
    ensures Consistent(Considered(l, a, r))
  {
    hide MutationKey, NeedsRestart, CanBeBounced;
    var key, more := MutationKey(a.namespace, a.deployment), l.restarts + [Restart(a.namespace, a.deployment)];
    if key !in l.bounced {
      forall i | 0 <= i < |l.restarts| ensures KeyOf(l.restarts[i]) in l.bounced {
      }
      forall k ensures k in l.bounced + {key} <==> exists i :: 0 <= i < |more| && KeyOf(more[i]) == k {
        if k == key {
          assert KeyOf(more[|l.restarts|]) == k;
        } else if k in l.bounced {
          var i :| 0 <= i < |l.restarts| && KeyOf(l.restarts[i]) == k;
          assert KeyOf(more[i]) == k;
        }
      }
    }
  }

  /** Over any sequence of events and answers, each key is restarted at most once. */
  lemma {:induction false} AtMostOnce(infos: seq<Info>, n: nat, r: Rules)
    requires n <= |infos|
    ensures Consistent(ConsideredAll(EMPTY, infos, n, r))
  {
    hide MutationKey, NeedsRestart, CanBeBounced, Considered;
    if n > 0 {
      AtMostOnce(infos, n - 1, r);
      ConsideredConsistent(ConsideredAll(EMPTY, infos, n - 1, r), infos[n - 1], r);
    }
  }

  /** A process that asks for the restart of its deployment. */
  predicate Asks(a: Info, r: Rules) {
    NeedsRestart(a, r) && CanBeBounced(a.namespace, a.deployment)
  }

  /** Exactly the deployments of processes that ask for it are restarted. */
  lemma {:induction false} RestartedExactly(infos: seq<Info>, n: nat, r: Rules, key: string)
    requires n <= |infos|
    ensures key in ConsideredAll(EMPTY, infos, n, r).bounced
        <==> exists i :: 0 <= i < n && Asks(infos[i], r) && MutationKey(infos[i].namespace, infos[i].deployment) == key
  {
    hide MutationKey, NeedsRestart, CanBeBounced;
    if n > 0 {
      RestartedExactly(infos, n - 1, r, key);
      var a := infos[n - 1];
      assert (exists i :: 0 <= i < n && Asks(infos[i], r)
                          && MutationKey(infos[i].namespace, infos[i].deployment) == key)
        <==> (exists i :: 0 <= i < n - 1 && Asks(infos[i], r)
                          && MutationKey(infos[i].namespace, infos[i].deployment) == key)
             || (Asks(a, r) && MutationKey(a.namespace, a.deployment) == key);
    }
  }

  /** Every restart was made for a process that asked for it, under the names that process has. */
  lemma {:induction false} RestartsJustified(infos: seq<Info>, n: nat, r: Rules, k: nat)
    requires n <= |infos| && k < |ConsideredAll(EMPTY, infos, n, r).restarts|
    ensures exists i :: 0 <= i < n && Asks(infos[i], r)
              && ConsideredAll(EMPTY, infos, n, r).restarts[k] == Restart(infos[i].namespace, infos[i].deployment)
  {
    var before := ConsideredAll(EMPTY, infos, n - 1, r);
    if k < |before.restarts| {
      RestartsJustified(infos, n - 1, r, k);
      var i :| 0 <= i < n - 1 && Asks(infos[i], r)
        && before.restarts[k] == Restart(infos[i].namespace, infos[i].deployment);
      assert ConsideredAll(EMPTY, infos, n, r).restarts[k] == Restart(infos[i].namespace, infos[i].deployment);
    } else {
      assert Asks(infos[n - 1], r);
    }
  }

  /** Of all events together: one restart for each key that some process asks for, and no other. */
  lemma OneRestartEach(state: map<string, seq<Process>>, events: seq<Event>, r: Rules, key: string)
    ensures var infos := AffectedAll(state, events, |events|);
            var restarts := ConsideredAll(EMPTY, infos, |infos|, r).restarts;
            && (forall i, j :: 0 <= i < j < |restarts| ==> KeyOf(restarts[i]) != KeyOf(restarts[j]))
            && ((exists i :: 0 <= i < |restarts| && KeyOf(restarts[i]) == key)
                <==> exists i :: 0 <= i < |infos| && Asks(infos[i], r)
                       && MutationKey(infos[i].namespace, infos[i].deployment) == key)
  {
    var infos := AffectedAll(state, events, |events|);
    AtMostOnce(infos, |infos|, r);
    RestartedExactly(infos, |infos|, r, key);
  }
}
