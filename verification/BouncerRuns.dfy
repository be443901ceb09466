/** Which deployments a run of events restarts, told from labels, environments and events alone. */
module BouncerRuns {
  import opened Text
  import opened Webhook
  import opened Bouncer

  // ---------- names ----------

  predicate Spaces(s: string) {
    forall i :: 0 <= i < |s| ==> IsSpace(s[i])
  }

  lemma {:induction false} SkipOver(s: string, i: nat, k: nat)
    requires i <= k <= |s| && (forall j :: i <= j < k ==> IsSpace(s[j])) && (k < |s| ==> !IsSpace(s[k]))
    ensures SkipSpaces(s, i) == k
    decreases k - i
  {
    if i < k {
      SkipOver(s, i + 1, k);
    }
  }

  lemma {:induction false} DropOver(s: string, n: nat, k: nat)
    requires k <= n <= |s| && (forall j :: k <= j < n ==> IsSpace(s[j])) && (k > 0 ==> !IsSpace(s[k - 1]))
    ensures DropSpace(s, n) == k
    decreases n - k
  {
    if k < n {
      DropOver(s, n - 1, k);
    }
  }

  /** A name is trimmed by taking the spaces around it away. */
  lemma TrimmedExactly(before: string, name: string, behind: string)
    requires Spaces(before) && Spaces(behind) && Bare(name)
    ensures TrimmedName(before + name + behind) == name
  {
    var s := before + name + behind;
    var l, r := |before|, |before| + |name|;
    assert s[l..r] == name;
    if name == "" {
      SkipOver(s, 0, |s|);
      DropOver(s, |s|, 0);
    } else {
      assert s[l] == name[0] && s[r - 1] == name[|name| - 1];
      SkipOver(s, 0, l);
      DropOver(s, |s|, r);
    }
  }

  // ---------- processes ----------

  predicate Says(m: map<string, string>, key: string, value: string) {
    key in m && m[key] == value && value != ""
  }

  predicate Silent(m: map<string, string>, key: string) {
    key in m ==> m[key] == ""
  }

  /** The version a process runs with: the one its pod is labelled with, or else the one in its environment. */
  predicate Carries(a: Info, version: string) {
    || Says(a.labels, INSTRUMENTED_LABEL, version)
    || (Silent(a.labels, INSTRUMENTED_LABEL) && Says(a.process.env, VERSION_VARIABLE, version))
  }

  /** The library loader is free for the injector. */
  predicate LoaderFree(a: Info) {
    PRELOAD_VARIABLE in a.process.env ==> a.process.env[PRELOAD_VARIABLE] == PRELOAD_VALUE
  }

  /** A process that should be instrumented with this version and is not, or is and should not be. */
  predicate Misplaced(a: Info, r: Rules) {
    || (Carries(a, r.version) && !r.matches(a))
    || (!Carries(a, r.version) && r.matches(a) && a.process.kind in r.enabled && LoaderFree(a))
  }

  lemma NeedsRestartExactly(a: Info, r: Rules)
    ensures NeedsRestart(a, r) <==> Misplaced(a, r)
  {
  }

  // ---------- events ----------

  /** The event is about a pod that runs the process in one of its containers. */
  predicate Concerns(state: map<string, seq<Process>>, e: Event, a: Info) {
    && e.pod.Some? && (e.kind == Created || e.kind == Updated)
    && var pod := e.pod.value;
       && a.labels == pod.labels && a.namespace == pod.namespace && a.deployment == pod.deployment
       && exists c :: 0 <= c < |pod.containers| && pod.containers[c] in state && a.process in state[pod.containers[c]]
  }

  lemma {:induction false} EnrichedExactly(state: map<string, seq<Process>>, pod: Pod, n: nat, a: Info)
    requires n <= |pod.containers|
    ensures a in Enriched(state, pod, n)
       <==> && a.labels == pod.labels && a.namespace == pod.namespace && a.deployment == pod.deployment
            && exists c :: 0 <= c < n && pod.containers[c] in state && a.process in state[pod.containers[c]]
  {
    if n > 0 {
      EnrichedExactly(state, pod, n - 1, a);
      var id := pod.containers[n - 1];
      if id in state {
        InfosExactly(state[id], pod, a);
      }
    }
  }

  lemma InfosExactly(procs: seq<Process>, pod: Pod, a: Info)
    ensures a in InfosOf(procs, pod)
       <==> && a.labels == pod.labels && a.namespace == pod.namespace && a.deployment == pod.deployment
            && a.process in procs
  {
    if a.labels == pod.labels && a.namespace == pod.namespace && a.deployment == pod.deployment && a.process in procs {
      var i :| 0 <= i < |procs| && procs[i] == a.process;
      assert InfosOf(procs, pod)[i] == a;
    }
  }

  lemma {:induction false} AffectedExactly(state: map<string, seq<Process>>, events: seq<Event>, n: nat, a: Info)
    requires n <= |events|
    ensures a in AffectedAll(state, events, n) <==> exists k :: 0 <= k < n && Concerns(state, events[k], a)
  {
    if n > 0 {
      AffectedExactly(state, events, n - 1, a);
      var e := events[n - 1];
      if e.pod.Some? {
        EnrichedExactly(state, e.pod.value, |e.pod.value.containers|, a);
      }
      assert a in Affected(state, e) <==> Concerns(state, e, a);
    }
  }

  /** Some process of these names, in a pod an event was about, is misplaced. */
  ghost predicate Due(state: map<string, seq<Process>>, events: seq<Event>, r: Rules, namespace: string,
      deployment: string)
  {
    exists a, k :: 0 <= k < |events| && Concerns(state, events[k], a) && Misplaced(a, r)
                   && a.namespace == namespace && a.deployment == deployment
  }

  /** Every restart that events lead to was due, with the namespace and the deployment named. */
  lemma RestartsDue(state: map<string, seq<Process>>, events: seq<Event>, r: Rules, i: nat)
    requires var infos := AffectedAll(state, events, |events|);
             i < |ConsideredAll(EMPTY, infos, |infos|, r).restarts|
    ensures var infos := AffectedAll(state, events, |events|);
            var restart := ConsideredAll(EMPTY, infos, |infos|, r).restarts[i];
            && TrimmedName(restart.namespace) != "" && TrimmedName(restart.deployment) != ""
            && Due(state, events, r, restart.namespace, restart.deployment)
  {
    var infos := AffectedAll(state, events, |events|);
    RestartsJustified(infos, |infos|, r, i);
    var restart := ConsideredAll(EMPTY, infos, |infos|, r).restarts[i];
    var j :| 0 <= j < |infos| && Asks(infos[j], r) && restart == Restart(infos[j].namespace, infos[j].deployment);
    var a := infos[j];
    NeedsRestartExactly(a, r);
    AffectedExactly(state, events, |events|, a);
    var k :| 0 <= k < |events| && Concerns(state, events[k], a);
  }

  /** Whatever was due and can be named has been restarted, itself or as a deployment of the same key. */
  lemma DueRestarted(state: map<string, seq<Process>>, events: seq<Event>, r: Rules, namespace: string,
      deployment: string)
    requires Due(state, events, r, namespace, deployment)
    requires TrimmedName(namespace) != "" && TrimmedName(deployment) != ""
    ensures var infos := AffectedAll(state, events, |events|);
            var restarts := ConsideredAll(EMPTY, infos, |infos|, r).restarts;
            exists i :: 0 <= i < |restarts| && KeyOf(restarts[i]) == MutationKey(namespace, deployment)
  {
    var a, k :| 0 <= k < |events| && Concerns(state, events[k], a) && Misplaced(a, r)
      && a.namespace == namespace && a.deployment == deployment;
    NeedsRestartExactly(a, r);
    AffectedExactly(state, events, |events|, a);
    var infos := AffectedAll(state, events, |events|);
    var j :| 0 <= j < |infos| && infos[j] == a;
    assert Asks(infos[j], r);
    OneRestartEach(state, events, r, MutationKey(namespace, deployment));
  }
}
