/**
 What the protocol lets happen: the status-writing loop is a run of the protocol, and two clean
 passes open the gate for exactly the namespaces that are not excluded.
 */
module ActionProtocolProgress {
  import opened Options
  import opened NamespaceExclusion
  import opened ActionPolicy
  import opened PolicyGate
  import opened ActionProtocol
  import Lifecycle = OperatorLifecycle

  // ---- The status-writing loop ----

  /** The store after a pass has written the statuses from `k` on; a failed patch leaves it alone. */
  function StatusesWritten(c: Config, store: map<string, StoredPolicy>, pass: Pass, k: nat, applied: nat -> bool)
    : map<string, StoredPolicy>
    requires k <= |pass.policies|
    decreases |pass.policies| - k
  {
    if k == |pass.policies| then store
    else
      var store' := if applied(k) then ApplyPatchNow(store, PatchFor(c, pass, pass.policies[k])) else store;
      StatusesWritten(c, store', pass, k + 1, applied)
  }

  /** The last loop of `reconcile_action_policies_with`: one patch per named policy, failures ignored. */
  method WriteStatuses(c: Config, store: map<string, StoredPolicy>, pass: Pass, applied: nat -> bool)
    returns (store': map<string, StoredPolicy>)
    ensures store' == StatusesWritten(c, store, pass, 0, applied)
  {
    store' := store;
    for k := 0 to |pass.policies|
      invariant StatusesWritten(c, store', pass, k, applied) == StatusesWritten(c, store, pass, 0, applied)
    {
      if pass.policies[k].name.None? {
        continue;
      }
      var policy := pass.policies[k];
      var patch := StatusPatch(policy.name.value, PassStatus(c, pass, policy));
      if applied(k) {
        store' := ApplyPatch(store', patch);
      }
    }
  }

  /** Undisturbed, the loop is a run of protocol steps that ends with exactly its store. */
  lemma {:induction false} WritingLoopIsARun(c: Config, s: State, i: nat, k: nat, applied: nat -> bool)
    returns (steps: seq<Step>)
    requires i < |s.passes| && s.passes[i].phase == WritingStatuses(k) && k <= |s.passes[i].policies|
    ensures Reaches(c, s, steps,
                    s.(policies := StatusesWritten(c, s.policies, s.passes[i], k, applied),
                       passes := s.passes[i := s.passes[i].(phase := WritingStatuses(|s.passes[i].policies|))]))
    decreases |s.passes[i].policies| - k
  {
    var pass := s.passes[i];
    if k == |pass.policies| {
      steps := [];
      assert s.passes[i := pass] == s.passes;
    } else {
      var step := WriteStatus(i, if applied(k) then Now else Never);
      var s' := Do(c, s, step);
      var rest := WritingLoopIsARun(c, s', i, k + 1, applied);
      steps := [step] + rest;
      assert steps[1..] == rest;
      PhaseDoesNotMatter(c, s'.policies, pass, s'.passes[i].phase, k + 1, applied);
      assert s'.passes[i := s'.passes[i].(phase := WritingStatuses(|pass.policies|))]
          == s.passes[i := pass.(phase := WritingStatuses(|pass.policies|))];
    }
  }

  lemma {:induction false} PhaseDoesNotMatter(c: Config, store: map<string, StoredPolicy>, pass: Pass, phase: Phase,
                                             k: nat, applied: nat -> bool)
    requires k <= |pass.policies|
    ensures StatusesWritten(c, store, pass.(phase := phase), k, applied) == StatusesWritten(c, store, pass, k, applied)
    decreases |pass.policies| - k
  {
    if k < |pass.policies| {
      var store' := if applied(k) then ApplyPatchNow(store, PatchFor(c, pass, pass.policies[k])) else store;
      PhaseDoesNotMatter(c, store', pass, phase, k + 1, applied);
    }
  }

  // ---- The leader's label pass ----

  /** The writes of a label pass, however far it got, are a run of namespace edits. */
  lemma {:induction false} LabelWritesAreARun(c: Config, s: State, writes: seq<Lifecycle.LabelWrite>)
    returns (steps: seq<Step>)
    ensures Reaches(c, s, steps, s.(namespaces := Lifecycle.ApplyWrites(s.namespaces, writes)))
  {
    steps := [];
    if writes != [] {
      var init, w := writes[..|writes| - 1], writes[|writes| - 1];
      steps := LabelWritesAreARun(c, s, init);
      var s' := s.(namespaces := Lifecycle.ApplyWrites(s.namespaces, init));
      if w.namespace in s'.namespaces {
        var step := SetNamespace(w.namespace, if w.SetTrue? then Some(ENABLED) else None);
        ReachesSnoc(c, s, steps, s', step);
        steps := steps + [step];
      }
    }
  }

  // ---- Two clean passes open the gate ----

  lemma {:induction false} ReachesSnoc(c: Config, s: State, steps: seq<Step>, s': State, step: Step)
    requires Reaches(c, s, steps, s') && Enabled(c, s', step)
    ensures Reaches(c, s, steps + [step], Do(c, s', step))
    decreases |steps|
  {
    if steps == [] {
      assert ([step])[1..] == [];
    } else {
      ReachesSnoc(c, Do(c, s, steps[0]), steps[1..], s', step);
      assert (steps + [step])[1..] == steps[1..] + [step];
    }
  }

  lemma Take(c: Config, s: State, step: Step) returns (s': State)
    requires Reachable(c, s) && Enabled(c, s, step)
    ensures Reachable(c, s') && s' == Do(c, s, step)
  {
    var init, steps :| IsInit(init) && Reaches(c, init, steps, s);
    ReachesSnoc(c, init, steps, s, step);
    s' := Do(c, s, step);
  }

  /** One namespace, one policy. */
  predicate Holds(s: State, n: Namespace, p: Policy) {
    && n.name.Some? && s.namespaces == map[n.name.value := n.mode]
    && p.name.Some? && s.policies == map[p.name.value := StoredPolicy(p.spec, p.status)]
  }

  function CleanStatus(c: Config, n: Namespace, p: Policy, now: nat): Status {
    BuildStatus(p, [n], c.excluded, BindingOutcome(true, false), now, c.staleAfter)
  }

  /** Nothing but a new last pass, and perhaps its binding calls, tells `s` from `before`. */
  predicate InLastPass(before: State, s: State, p: Pass) {
    && s.passes == before.passes + [p] && s.now == before.now && s.gates == before.gates
    && s.namespaces == before.namespaces && s.policies == before.policies
  }

  lemma LastPassMoves(passes: seq<Pass>, p: Pass, p': Pass)
    ensures (passes + [p])[|passes|] == p && (passes + [p])[|passes| := p'] == passes + [p']
  {
  }

  lemma TakeInLastPass(c: Config, before: State, s: State, p: Pass, step: Step) returns (s': State)
    requires Reachable(c, s) && InLastPass(before, s, p) && Enabled(c, s, step)
    requires IsPassStep(step) && step.pass == |before.passes| && !step.WriteStatus?
    ensures Reachable(c, s') && InLastPass(before, s', NextPass(p, step))
  {
    LastPassMoves(before.passes, p, NextPass(p, step));
    s' := Take(c, s, step);
  }

  lemma BeginPass(c: Config, s: State) returns (s': State)
    requires Reachable(c, s)
    ensures Reachable(c, s') && InLastPass(s, s', Pass(s.now, Started, [], [], []))
  {
    s' := Take(c, s, StartPass);
  }

  lemma ListBoth(c: Config, s: State, n: Namespace, p: Policy) returns (s': State)
    requires Reachable(c, s) && Holds(s, n, p)
    ensures Reachable(c, s') && InLastPass(s, s', Pass(s.now, BindingRoles, [n], [p], []))
  {
    var i := |s.passes|;
    s' := BeginPass(c, s);
    assert IsNamespaceListing([n], s'.namespaces);
    s' := TakeInLastPass(c, s, s', Pass(s.now, Started, [], [], []), ListNamespaces(i, [n]));
    assert IsPolicyListing([p], s'.policies);
    s' := TakeInLastPass(c, s, s', Pass(s.now, NamespacesListed, [n], [], []), ListPolicies(i, [p]));
  }

  lemma OnePlannedCall(n: Namespace, excluded: set<string>)
    requires n.name.Some?
    ensures |PlannedCalls([n], excluded)| == 1
  {
    assert [n][..0] == [] && PlannedCalls([], excluded) == [];
  }

  lemma ListAndBind(c: Config, s: State, n: Namespace, p: Policy) returns (s': State)
    requires Reachable(c, s) && Holds(s, n, p)
    ensures Reachable(c, s') && InLastPass(s, s', Pass(s.now, WritingStatuses(0), [n], [p], [true]))
  {
    var i := |s.passes|;
    OnePlannedCall(n, c.excluded);
    s' := ListBoth(c, s, n, p);
    s' := TakeInLastPass(c, s, s', Pass(s.now, BindingRoles, [n], [p], []), CallBinding(i, true, Now));
    assert [] + [true] == [true];
    s' := TakeInLastPass(c, s, s', Pass(s.now, BindingRoles, [n], [p], [true]), FinishBindings(i));
  }

  lemma CleanPatch(c: Config, n: Namespace, p: Policy, pass: Pass)
    requires p.name.Some? && pass.namespaces == [n] && pass.answers == [true]
    ensures ApplyPatchNow(map[p.name.value := StoredPolicy(p.spec, p.status)], PatchFor(c, pass, p))
         == map[p.name.value := StoredPolicy(p.spec, Some(CleanStatus(c, n, p, pass.start)))]
  {
    assert OutcomeOf([true]) == BindingOutcome(true, false);
  }

  lemma RunCleanPass(c: Config, s: State, n: Namespace, p: Policy) returns (s': State)
    requires Reachable(c, s) && Holds(s, n, p)
    ensures Reachable(c, s') && s'.now == s.now && s'.gates == s.gates
    ensures Holds(s', n, p.(status := Some(CleanStatus(c, n, p, s.now))))
  {
    var bound := ListAndBind(c, s, n, p);
    CleanPatch(c, n, p, bound.passes[|s.passes|]);
    s' := Take(c, bound, WriteStatus(|s.passes|, Now));
  }

  lemma SetUp(c: Config, namespace: string, spec: PolicySpec) returns (s: State)
    ensures Reachable(c, s)
    ensures Holds(s, Namespace(Some(namespace), Some(ENABLED)), Policy(Some("default"), spec, None))
  {
    var init := State(0, map[namespace := Some(ENABLED)], map["default" := StoredPolicy(spec, None)], {},
                      multiset{}, multiset{}, [], []);
    assert IsInit(init) && Reaches(c, init, [], init);
    s := init;
  }

  lemma RunTwoCleanPasses(c: Config, s: State, n: Namespace, p0: Policy) returns (s': State, p2: Policy)
    requires Reachable(c, s) && Holds(s, n, p0)
    ensures Reachable(c, s') && s'.now == s.now && Holds(s', n, p2)
    ensures p2 == p0.(status := Some(CleanStatus(c, n, p0.(status := Some(CleanStatus(c, n, p0, s.now))), s.now)))
  {
    var once := RunCleanPass(c, s, n, p0);
    var p1 := p0.(status := Some(CleanStatus(c, n, p0, s.now)));
    s' := RunCleanPass(c, once, n, p1);
    p2 := p1.(status := Some(CleanStatus(c, n, p1, s.now)));
  }

  lemma OpenLastGate(c: Config, s: State, n: Namespace, p: Policy, request: Request) returns (s': State, gate: Gate)
    requires Reachable(c, s) && Holds(s, n, p)
    ensures Reachable(c, s') && s'.now == s.now && gate in s'.gates && gate == Gate(request, [p])
  {
    gate := Gate(request, [p]);
    assert IsPolicyListing([p], s.policies);
    s' := Take(c, s, OpenGate(request, [p]));
    assert s'.gates[|s.gates|] == gate;
  }

  /** Two clean passes bring any valid policy to accept any request it does not reject itself. */
  lemma ValidPoliciesOpenTheGate(c: Config, namespace: string, spec: PolicySpec, request: Request)
    returns (s: State, gate: Gate)
    requires !NamespaceIsExcluded(namespace, c.excluded) && SpecIsValid(spec)
    requires RejectionReason(spec, request) == None && request.namespace in {None, Some(namespace)}
    ensures Reachable(c, s) && gate in s.gates && gate.request == request
    ensures Accepts(gate.listing, request, s.now, c.staleAfter)
  {
    var n, p0 := Namespace(Some(namespace), Some(ENABLED)), Policy(Some("default"), spec, None);
    var start := SetUp(c, namespace, spec);
    var twice, p2 := RunTwoCleanPasses(c, start, n, p0);
    s, gate := OpenLastGate(c, twice, n, p2, request);
    CleanPassesQualify(c, n, p0, request, s.now);
    assert Qualifies(gate.listing[0], request, s.now, c.staleAfter);
  }

  lemma CleanPassesQualify(c: Config, n: Namespace, p0: Policy, request: Request, now: nat)
    requires n.name.Some? && IsEligible(n, c.excluded) && p0.name.Some? && SpecIsValid(p0.spec)
    requires RejectionReason(p0.spec, request) == None && request.namespace in {None, n.name}
    ensures var p1 := p0.(status := Some(CleanStatus(c, n, p0, now)));
            Qualifies(p1.(status := Some(CleanStatus(c, n, p1, now))), request, now, c.staleAfter)
  {
    var p1 := p0.(status := Some(CleanStatus(c, n, p0, now)));
    assert n in [n];
    ReadyExactlyWhen(p1, [n], c.excluded, BindingOutcome(true, false), now, c.staleAfter);
    EffectiveExactlyWhenEligible([n], c.excluded, n.name.value);
  }

  /** A valid policy can come to act on a namespace exactly when the namespace is not excluded. */
  lemma NamespaceIsReachableExactlyWhenNotExcluded(c: Config, namespace: string, spec: PolicySpec, request: Request)
    requires SpecIsValid(spec) && RejectionReason(spec, request) == None
    requires request.namespace == Some(namespace) && !IsAgentUpdate(request)
    ensures (exists s, gate :: Reachable(c, s) && gate in s.gates && gate.request == request
                               && Accepts(gate.listing, request, s.now, c.staleAfter))
            <==> !NamespaceIsExcluded(namespace, c.excluded)
  {
    if !NamespaceIsExcluded(namespace, c.excluded) {
      var s, gate := ValidPoliciesOpenTheGate(c, namespace, spec, request);
    } else {
      forall s, gate | Reachable(c, s) && gate in s.gates && gate.request == request
        ensures !Accepts(gate.listing, request, s.now, c.staleAfter)
      {
        ExcludedNamespacesAreNeverActedOn(c, s, gate);
      }
    }
  }
}
