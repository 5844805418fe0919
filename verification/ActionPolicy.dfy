/** Namespace exclusion, shared by the label lifecycle and the operator. */
module NamespaceExclusion {
  import opened Collections
  import opened Options
  import opened Text

  const SYSTEM_EXCLUDED_NAMESPACES: seq<string> := [
    "kube-system", "kube-public", "kube-node-lease", "sentinella", "tetragon", "openshift-*"]

  /** The built-in exclusions and every non-blank extra one. */
  function CombinedExcludedNamespaces(extra: seq<string>): set<string> {
    Elements(SYSTEM_EXCLUDED_NAMESPACES) + (set i | 0 <= i < |extra| && Trim(extra[i]) != [] :: Trim(extra[i]))
  }

  /** A trailing star matches any name with the prefix; a lone star matches nothing. */
  predicate NamespaceMatchesPattern(name: string, pattern: string) {
    match StripSuffix(pattern, "*")
    case Some(prefix) => prefix != [] && prefix <= name
    case None => name == pattern
  }

  predicate NamespaceIsExcluded(name: string, excluded: set<string>) {
    exists pattern :: pattern in excluded && NamespaceMatchesPattern(name, pattern)
  }

  predicate IsSystemNamespace(name: string) {
    NamespaceIsExcluded(name, Elements(SYSTEM_EXCLUDED_NAMESPACES))
  }

  /** An exclude set that contains the built-in ones excludes every system namespace. */
  lemma BuiltInsAlwaysExcluded(name: string, excluded: set<string>)
    requires Elements(SYSTEM_EXCLUDED_NAMESPACES) <= excluded && IsSystemNamespace(name)
    ensures NamespaceIsExcluded(name, excluded)
  {
    var pattern :| pattern in Elements(SYSTEM_EXCLUDED_NAMESPACES) && NamespaceMatchesPattern(name, pattern);
    assert pattern in excluded;
  }

  lemma AgentNamespaceIsSystem()
    ensures IsSystemNamespace("sentinella")
  {
    assert SYSTEM_EXCLUDED_NAMESPACES[3] == "sentinella";
    var pattern := "sentinella";
    assert pattern in Elements(SYSTEM_EXCLUDED_NAMESPACES);
    assert pattern[|pattern| - 1] == 'a' && pattern[|pattern| - 1..] != "*";
    assert NamespaceMatchesPattern("sentinella", pattern);
  }

  lemma StarPattern(name: string, prefix: string)
    ensures NamespaceMatchesPattern(name, prefix + "*") <==> prefix != [] && prefix <= name
  {
    assert (prefix + "*")[|prefix|..] == "*" && (prefix + "*")[..|prefix|] == prefix;
  }

  lemma PlainPattern(name: string, pattern: string)
    requires pattern != [] ==> pattern[|pattern| - 1] != '*'
    ensures NamespaceMatchesPattern(name, pattern) <==> name == pattern
  {
    assert pattern != [] ==> pattern[|pattern| - 1..] == [pattern[|pattern| - 1]];
  }

  /** The system namespaces are the five built-in names and everything under the OpenShift prefix. */
  lemma SystemNamespaceExactlyWhen(name: string)
    ensures IsSystemNamespace(name)
            <==> || name in {"kube-system", "kube-public", "kube-node-lease", "sentinella", "tetragon"}
                 || "openshift-" <= name
  {
    var patterns := SYSTEM_EXCLUDED_NAMESPACES;
    PlainPattern(name, "kube-system");
    PlainPattern(name, "kube-public");
    PlainPattern(name, "kube-node-lease");
    PlainPattern(name, "sentinella");
    PlainPattern(name, "tetragon");
    StarPattern(name, "openshift-");
    assert "openshift-" + "*" == "openshift-*";
    assert patterns[0] == "kube-system" && patterns[1] == "kube-public" && patterns[2] == "kube-node-lease";
    assert patterns[3] == "sentinella" && patterns[4] == "tetragon" && patterns[5] == "openshift-*";
    SystemPatternExactlyWhen(name);
  }

  lemma SystemPatternExactlyWhen(name: string)
    ensures IsSystemNamespace(name)
            <==> exists k :: && 0 <= k < |SYSTEM_EXCLUDED_NAMESPACES|
                             && NamespaceMatchesPattern(name, SYSTEM_EXCLUDED_NAMESPACES[k])
  {
    if IsSystemNamespace(name) {
      var p :| p in Elements(SYSTEM_EXCLUDED_NAMESPACES) && NamespaceMatchesPattern(name, p);
      var k :| 0 <= k < |SYSTEM_EXCLUDED_NAMESPACES| && SYSTEM_EXCLUDED_NAMESPACES[k] == p;
    }
    if k :| 0 <= k < |SYSTEM_EXCLUDED_NAMESPACES| && NamespaceMatchesPattern(name, SYSTEM_EXCLUDED_NAMESPACES[k]) {
      assert SYSTEM_EXCLUDED_NAMESPACES[k] in Elements(SYSTEM_EXCLUDED_NAMESPACES);
    }
  }

  /** With extra entries, a name is excluded by the built-in ones or by what an entry holds between its padding. */
  lemma CombinedExcludesExactlyWhen(name: string, extra: seq<string>)
    ensures NamespaceIsExcluded(name, CombinedExcludedNamespaces(extra))
            <==> || IsSystemNamespace(name)
                 || exists e :: e in extra && Trim(e) != [] && NamespaceMatchesPattern(name, Trim(e))
  {
    var combined := CombinedExcludedNamespaces(extra);
    if IsSystemNamespace(name) {
      BuiltInsAlwaysExcluded(name, combined);
    }
    if e :| e in extra && Trim(e) != [] && NamespaceMatchesPattern(name, Trim(e)) {
      assert Trim(e) in combined;
    }
    if pattern :| pattern in combined && NamespaceMatchesPattern(name, pattern) {
      if pattern !in Elements(SYSTEM_EXCLUDED_NAMESPACES) {
        var i :| 0 <= i < |extra| && Trim(extra[i]) == pattern != [];
        assert extra[i] in extra;
      }
    }
  }

  /** A namespace as listed, with the value of its action-mode label. */
  datatype Namespace = Namespace(name: Option<string>, mode: Option<string>)

  const ENABLED: string := "true"

  predicate ActionModeEnabled(n: Namespace) {
    n.mode == Some(ENABLED)
  }
}

/** Action policies, the status the operator builds for them, and the conditions in it. */
module ActionPolicy {
  import opened Options
  import opened Text
  import opened Quantity
  import opened NamespaceExclusion

  const SUPPORTED_ACTIONS: seq<string> := [
    "diagnose_postgresql", "get_resource_yaml", "drain_node", "preview_workload_resources",
    "apply_workload_resources", "rollout_restart", "scale", "self_update", "update_agent"]

  const WORKLOAD_ACTIONS: seq<string> := [
    "preview_workload_resources", "apply_workload_resources", "rollout_restart", "scale"]

  /** What the two tables hold; every workload action is a supported one. */
  lemma ActionTablesHold(action: string)
    ensures action in SUPPORTED_ACTIONS
            <==> action in {"diagnose_postgresql", "get_resource_yaml", "drain_node", "preview_workload_resources",
                            "apply_workload_resources", "rollout_restart", "scale", "self_update", "update_agent"}
    ensures action in WORKLOAD_ACTIONS
            <==> action in {"preview_workload_resources", "apply_workload_resources", "rollout_restart", "scale"}
    ensures action in WORKLOAD_ACTIONS ==> action in SUPPORTED_ACTIONS
  {
  }

  const SUPPORTED_RESOURCES: seq<string> := ["Deployment", "StatefulSet", "DaemonSet"]

  datatype Limits = Limits(maxCpu: Option<string>, maxMemory: Option<string>)

  datatype PolicySpec = PolicySpec(allowedActions: seq<string>, allowedResources: seq<string>, limits: Option<Limits>)

  datatype ConditionType =
    | NamespacesEligible | PolicyMatched | PermissionGranted | ActionAllowed | ResourceAllowed
    | LimitsSatisfied | ReconciliationError | StaleCondition | ReadyCondition
    | OtherCondition(name: string)

  datatype Condition = Condition(kind: ConditionType, status: string)

  datatype Status = Status(
    effectiveNamespaces: seq<string>, conditions: seq<Condition>,
    lastReconciledAtMs: Option<nat>, stale: bool)

  datatype Policy = Policy(name: Option<string>, spec: PolicySpec, status: Option<Status>)

  /** `policy_status_is_stale`, with its saturating subtraction. */
  predicate IsStale(last: Option<nat>, now: nat, staleAfter: nat) {
    match last
    case Some(t) => (if now >= t then now - t else 0) > staleAfter
    case None => true
  }

  predicate EqualsIgnoringAsciiCase(a: string, b: string) {
    |a| == |b| && forall i :: 0 <= i < |a| ==> AsciiLower(a[i]) == AsciiLower(b[i])
  }

  predicate ConditionTrue(conditions: seq<Condition>, kind: ConditionType) {
    exists i :: && 0 <= i < |conditions| && conditions[i].kind == kind
                && EqualsIgnoringAsciiCase(conditions[i].status, "true")
  }

  predicate IsReady(status: Status) {
    ConditionTrue(status.conditions, ReadyCondition)
  }

  predicate ActionsAreSupported(spec: PolicySpec) {
    spec.allowedActions != [] && forall a :: a in spec.allowedActions ==> a in SUPPORTED_ACTIONS
  }

  predicate ResourcesAreSupported(spec: PolicySpec) {
    spec.allowedResources != [] && forall r :: r in spec.allowedResources ==> r in SUPPORTED_RESOURCES
  }

  predicate AllowsWorkloads(spec: PolicySpec) {
    exists a :: a in spec.allowedActions && a in WORKLOAD_ACTIONS
  }

  predicate LimitsAreValid(limits: Option<Limits>) {
    match limits
    case None => true
    case Some(l) =>
      && (l.maxCpu.Some? ==> Parse(Cpu, l.maxCpu.value).Some?)
      && (l.maxMemory.Some? ==> Parse(Memory, l.maxMemory.value).Some?)
  }

  predicate SpecIsValid(spec: PolicySpec) {
    ActionsAreSupported(spec) && (AllowsWorkloads(spec) ==> ResourcesAreSupported(spec)) && LimitsAreValid(spec.limits)
  }

  /** Labelled for action mode and not excluded. */
  predicate IsEligible(n: Namespace, excluded: set<string>) {
    n.name.Some? && !NamespaceIsExcluded(n.name.value, excluded) && ActionModeEnabled(n)
  }

  function EffectiveNamespaces(namespaces: seq<Namespace>, excluded: set<string>): seq<string> {
    if namespaces == [] then []
    else
      var rest := EffectiveNamespaces(namespaces[1..], excluded);
      if IsEligible(namespaces[0], excluded) then [namespaces[0].name.value] + rest else rest
  }

  lemma {:induction false} EffectiveExactlyWhenEligible(namespaces: seq<Namespace>, excluded: set<string>, name: string)
    ensures name in EffectiveNamespaces(namespaces, excluded)
            <==> exists n :: n in namespaces && n.name == Some(name) && IsEligible(n, excluded)
  {
    if namespaces != [] {
      EffectiveExactlyWhenEligible(namespaces[1..], excluded, name);
      assert forall n :: n in namespaces <==> n == namespaces[0] || n in namespaces[1..];
    }
  }

  // ---- Role bindings ----

  datatype BindingCall = Ensure(namespace: string) | Remove(namespace: string)

  /** One call per named namespace: a binding where actions are allowed, none elsewhere. */
  function PlannedCalls(namespaces: seq<Namespace>, excluded: set<string>): seq<BindingCall> {
    if namespaces == [] then []
    else
      var last := namespaces[|namespaces| - 1];
      PlannedCalls(namespaces[..|namespaces| - 1], excluded)
      + (if last.name.None? then []
         else if IsEligible(last, excluded) then [Ensure(last.name.value)]
         else [Remove(last.name.value)])
  }

  /** The names of a listing, in order; an object may lack one. */
  function ListedNames(namespaces: seq<Namespace>): seq<string> {
    if namespaces == [] then []
    else
      var last := namespaces[|namespaces| - 1];
      ListedNames(namespaces[..|namespaces| - 1]) + (if last.name.Some? then [last.name.value] else [])
  }

  /** One call per named namespace, in listing order. */
  lemma {:induction false} OneCallPerName(namespaces: seq<Namespace>, excluded: set<string>)
    ensures |PlannedCalls(namespaces, excluded)| == |ListedNames(namespaces)|
    ensures forall k :: 0 <= k < |PlannedCalls(namespaces, excluded)| ==>
              PlannedCalls(namespaces, excluded)[k].namespace == ListedNames(namespaces)[k]
  {
    if namespaces != [] {
      OneCallPerName(namespaces[..|namespaces| - 1], excluded);
    }
  }

  /** A namespace is bound exactly when it is listed as opted in and is not excluded. */
  lemma {:induction false} EnsuredExactlyWhen(namespaces: seq<Namespace>, excluded: set<string>, x: string)
    ensures Ensure(x) in PlannedCalls(namespaces, excluded)
            <==> Namespace(Some(x), Some("true")) in namespaces && !NamespaceIsExcluded(x, excluded)
  {
    if namespaces != [] {
      var init, last := namespaces[..|namespaces| - 1], namespaces[|namespaces| - 1];
      EnsuredExactlyWhen(init, excluded, x);
      assert forall n :: n in namespaces <==> n in init || n == last;
    }
  }

  /** It is unbound exactly when it is listed as anything else, or is excluded. */
  lemma {:induction false} RemovedExactlyWhen(namespaces: seq<Namespace>, excluded: set<string>, x: string)
    ensures Remove(x) in PlannedCalls(namespaces, excluded)
            <==> exists n :: && n in namespaces && n.name == Some(x)
                             && (NamespaceIsExcluded(x, excluded) || n.mode != Some("true"))
  {
    if namespaces != [] {
      var init, last := namespaces[..|namespaces| - 1], namespaces[|namespaces| - 1];
      RemovedExactlyWhen(init, excluded, x);
      assert forall n :: n in namespaces <==> n in init || n == last;
    }
  }

  datatype BindingOutcome = BindingOutcome(permissionGranted: bool, reconciliationError: bool)

  predicate AllTrue(answers: seq<bool>) {
    forall i :: 0 <= i < |answers| ==> answers[i]
  }

  function OutcomeOf(answers: seq<bool>): BindingOutcome {
    BindingOutcome(AllTrue(answers), !AllTrue(answers))
  }

  /** The reconcile loop against arbitrary API answers: it never stops early and remembers any failure. */
  method ReconcileRoleBindings(namespaces: seq<Namespace>, excluded: set<string>, answer: nat -> bool)
    returns (outcome: BindingOutcome, calls: seq<BindingCall>, ghost answers: seq<bool>)
    ensures calls == PlannedCalls(namespaces, excluded)
    ensures |answers| == |calls| && forall k :: 0 <= k < |calls| ==> answers[k] == answer(k)
    ensures outcome == OutcomeOf(answers)
  {
    var errors := 0;
    calls, answers := [], [];
    for i := 0 to |namespaces|
      invariant calls == PlannedCalls(namespaces[..i], excluded)
      invariant |answers| == |calls| && forall k :: 0 <= k < |calls| ==> answers[k] == answer(k)
      invariant errors >= 0 && (errors == 0 <==> AllTrue(answers))
    {
      var n := namespaces[i];
      assert namespaces[..i + 1][..i] == namespaces[..i];
      if n.name.None? {
        continue;
      }
      var call := if !NamespaceIsExcluded(n.name.value, excluded) && ActionModeEnabled(n)
                  then Ensure(n.name.value) else Remove(n.name.value);
      var ok := answer(|calls|);
      if !ok {
        errors := errors + 1;
      }
      AllTrueSnoc(answers, ok);
      calls, answers := calls + [call], answers + [ok];
    }
    assert namespaces[..|namespaces|] == namespaces;
    outcome := BindingOutcome(errors == 0, errors != 0);
  }

  lemma AllTrueSnoc(answers: seq<bool>, ok: bool)
    ensures AllTrue(answers + [ok]) <==> AllTrue(answers) && ok
  {
    if AllTrue(answers + [ok]) {
      assert (answers + [ok])[|answers|] == ok;
      assert forall i :: 0 <= i < |answers| ==> (answers + [ok])[i] == answers[i];
    }
  }

  // ---- Status ----

  function ConditionOf(kind: ConditionType, holds: bool): Condition {
    Condition(kind, if holds then "True" else "False")
  }

  function BuildConditions(eligible: bool, outcome: BindingOutcome, actionAllowed: bool, resourceAllowed: bool,
                           limitsSatisfied: bool, stale: bool, ready: bool): seq<Condition> {
    [ConditionOf(NamespacesEligible, eligible), ConditionOf(PolicyMatched, true),
     ConditionOf(PermissionGranted, outcome.permissionGranted), ConditionOf(ActionAllowed, actionAllowed),
     ConditionOf(ResourceAllowed, resourceAllowed), ConditionOf(LimitsSatisfied, limitsSatisfied),
     ConditionOf(ReconciliationError, outcome.reconciliationError), ConditionOf(StaleCondition, stale),
     ConditionOf(ReadyCondition, ready)]
  }

  function StoredTime(policy: Policy): Option<nat> {
    match policy.status case Some(status) => status.lastReconciledAtMs case None => None
  }

  predicate IsBuiltReady(policy: Policy, namespaces: seq<Namespace>, excluded: set<string>,
                         outcome: BindingOutcome, now: nat, staleAfter: nat) {
    && EffectiveNamespaces(namespaces, excluded) != [] && outcome.permissionGranted
    && ActionsAreSupported(policy.spec)
    && (AllowsWorkloads(policy.spec) ==> ResourcesAreSupported(policy.spec))
    && LimitsAreValid(policy.spec.limits)
    && !IsStale(StoredTime(policy), now, staleAfter) && !outcome.reconciliationError
  }

  function BuildStatus(policy: Policy, namespaces: seq<Namespace>, excluded: set<string>,
                       outcome: BindingOutcome, now: nat, staleAfter: nat): Status {
    var effective := EffectiveNamespaces(namespaces, excluded);
    var eligible := effective != [];
    var actionAllowed := ActionsAreSupported(policy.spec);
    var resourceAllowed := AllowsWorkloads(policy.spec) ==> ResourcesAreSupported(policy.spec);
    var limitsSatisfied := LimitsAreValid(policy.spec.limits);
    var stale := IsStale(StoredTime(policy), now, staleAfter);
    var ready := IsBuiltReady(policy, namespaces, excluded, outcome, now, staleAfter);
    Status(effective, BuildConditions(eligible, outcome, actionAllowed, resourceAllowed, limitsSatisfied, stale, ready),
           Some(now), stale)
  }

  /** Which of its arguments the condition of a kind is built from. */
  predicate BuiltFrom(kind: ConditionType, eligible: bool, outcome: BindingOutcome, actionAllowed: bool,
                      resourceAllowed: bool, limitsSatisfied: bool, stale: bool, ready: bool) {
    match kind
    case NamespacesEligible => eligible
    case PolicyMatched => true
    case PermissionGranted => outcome.permissionGranted
    case ActionAllowed => actionAllowed
    case ResourceAllowed => resourceAllowed
    case LimitsSatisfied => limitsSatisfied
    case ReconciliationError => outcome.reconciliationError
    case StaleCondition => stale
    case ReadyCondition => ready
    case OtherCondition(_) => false
  }

  /** Where a built status has its condition of a kind. */
  function PositionOf(kind: ConditionType): nat {
    match kind
    case NamespacesEligible => 0
    case PolicyMatched => 1
    case PermissionGranted => 2
    case ActionAllowed => 3
    case ResourceAllowed => 4
    case LimitsSatisfied => 5
    case ReconciliationError => 6
    case StaleCondition => 7
    case ReadyCondition => 8
    case OtherCondition(_) => 9
  }

  predicate KindsInOrder(conditions: seq<Condition>) {
    |conditions| == 9 && forall i :: 0 <= i < 9 ==> PositionOf(conditions[i].kind) == i
  }

  lemma BuiltKindsAreInOrder(eligible: bool, outcome: BindingOutcome, actionAllowed: bool,
                             resourceAllowed: bool, limitsSatisfied: bool, stale: bool, ready: bool)
    ensures KindsInOrder(
              BuildConditions(eligible, outcome, actionAllowed, resourceAllowed, limitsSatisfied, stale, ready))
  {
  }

  lemma ConditionAtItsPosition(kind: ConditionType, eligible: bool, outcome: BindingOutcome, actionAllowed: bool,
                               resourceAllowed: bool, limitsSatisfied: bool, stale: bool, ready: bool)
    requires !kind.OtherCondition?
    ensures var conditions := BuildConditions(eligible, outcome, actionAllowed, resourceAllowed, limitsSatisfied,
                                              stale, ready);
            PositionOf(kind) < |conditions| && conditions[PositionOf(kind)] == ConditionOf(
              kind, BuiltFrom(kind, eligible, outcome, actionAllowed, resourceAllowed, limitsSatisfied, stale, ready))
  {
  }

  lemma OnlyConditionOfItsKind(conditions: seq<Condition>, kind: ConditionType, holds: bool)
    requires KindsInOrder(conditions)
    requires if kind.OtherCondition? then !holds else conditions[PositionOf(kind)] == ConditionOf(kind, holds)
    ensures ConditionTrue(conditions, kind) <==> holds
  {
    assert EqualsIgnoringAsciiCase("True", "true");
    assert !EqualsIgnoringAsciiCase("False", "true");
    assert forall i :: 0 <= i < 9 && conditions[i].kind == kind ==> i == PositionOf(kind);
  }

  lemma BuiltConditionReadsBack(kind: ConditionType, eligible: bool, outcome: BindingOutcome, actionAllowed: bool,
                                resourceAllowed: bool, limitsSatisfied: bool, stale: bool, ready: bool)
    ensures ConditionTrue(
              BuildConditions(eligible, outcome, actionAllowed, resourceAllowed, limitsSatisfied, stale, ready), kind)
            <==> BuiltFrom(kind, eligible, outcome, actionAllowed, resourceAllowed, limitsSatisfied, stale, ready)
  {
    BuiltKindsAreInOrder(eligible, outcome, actionAllowed, resourceAllowed, limitsSatisfied, stale, ready);
    if !kind.OtherCondition? {
      ConditionAtItsPosition(kind, eligible, outcome, actionAllowed, resourceAllowed, limitsSatisfied, stale, ready);
    }
    OnlyConditionOfItsKind(
      BuildConditions(eligible, outcome, actionAllowed, resourceAllowed, limitsSatisfied, stale, ready), kind,
      BuiltFrom(kind, eligible, outcome, actionAllowed, resourceAllowed, limitsSatisfied, stale, ready));
  }

  /** Every gate the operator knows, read off the inputs of the pass. */
  predicate PassesEveryGate(policy: Policy, namespaces: seq<Namespace>, excluded: set<string>,
                            outcome: BindingOutcome, now: nat, staleAfter: nat) {
    && (exists n :: n in namespaces && IsEligible(n, excluded))
    && outcome == BindingOutcome(true, false)
    && SpecIsValid(policy.spec)
    && StoredTime(policy).Some? && now <= StoredTime(policy).value + staleAfter
  }

  /** A built status reads as Ready exactly when every gate passed, the age of the previous status included. */
  lemma ReadyExactlyWhen(policy: Policy, namespaces: seq<Namespace>, excluded: set<string>,
                         outcome: BindingOutcome, now: nat, staleAfter: nat)
    ensures var status := BuildStatus(policy, namespaces, excluded, outcome, now, staleAfter);
            && (IsReady(status) <==> PassesEveryGate(policy, namespaces, excluded, outcome, now, staleAfter))
            && (status.stale ==> !IsReady(status))
  {
    ConditionReadsBack(ReadyCondition, policy, namespaces, excluded, outcome, now, staleAfter);
  }

  lemma EligibleExists(namespaces: seq<Namespace>, excluded: set<string>)
    ensures EffectiveNamespaces(namespaces, excluded) != [] <==> exists n :: n in namespaces && IsEligible(n, excluded)
  {
    var effective := EffectiveNamespaces(namespaces, excluded);
    if effective != [] {
      EffectiveExactlyWhenEligible(namespaces, excluded, effective[0]);
    }
    if n :| n in namespaces && IsEligible(n, excluded) {
      EffectiveExactlyWhenEligible(namespaces, excluded, n.name.value);
    }
  }

  /** What a condition of a built status reports. */
  predicate Reports(kind: ConditionType, policy: Policy, namespaces: seq<Namespace>, excluded: set<string>,
                    outcome: BindingOutcome, now: nat, staleAfter: nat) {
    match kind
    case NamespacesEligible => EffectiveNamespaces(namespaces, excluded) != []
    case PolicyMatched => true
    case PermissionGranted => outcome.permissionGranted
    case ActionAllowed => ActionsAreSupported(policy.spec)
    case ResourceAllowed => AllowsWorkloads(policy.spec) ==> ResourcesAreSupported(policy.spec)
    case LimitsSatisfied => LimitsAreValid(policy.spec.limits)
    case ReconciliationError => outcome.reconciliationError
    case StaleCondition => StoredTime(policy).None? || now > StoredTime(policy).value + staleAfter
    case ReadyCondition => PassesEveryGate(policy, namespaces, excluded, outcome, now, staleAfter)
    case OtherCondition(_) => false
  }

  /** The rest of a built status: the pass's own time and namespaces, and the age of what it replaces. */
  lemma StatusReadsBack(policy: Policy, namespaces: seq<Namespace>, excluded: set<string>,
                        outcome: BindingOutcome, now: nat, staleAfter: nat)
    ensures var status := BuildStatus(policy, namespaces, excluded, outcome, now, staleAfter);
            && status.lastReconciledAtMs == Some(now)
            && (status.stale <==> StoredTime(policy).None? || now > StoredTime(policy).value + staleAfter)
            && (forall x :: x in status.effectiveNamespaces <==>
                  Namespace(Some(x), Some("true")) in namespaces && !NamespaceIsExcluded(x, excluded))
  {
    var status := BuildStatus(policy, namespaces, excluded, outcome, now, staleAfter);
    forall x
      ensures x in status.effectiveNamespaces <==>
              Namespace(Some(x), Some("true")) in namespaces && !NamespaceIsExcluded(x, excluded)
    {
      EffectiveExactlyWhenEligible(namespaces, excluded, x);
      assert forall n :: IsEligible(n, excluded) && n.name == Some(x) ==> n == Namespace(Some(x), Some("true"));
    }
  }

  /** Every condition of a built status reads back true exactly when what it is named after holds. */
  lemma ConditionReadsBack(kind: ConditionType, policy: Policy, namespaces: seq<Namespace>, excluded: set<string>,
                           outcome: BindingOutcome, now: nat, staleAfter: nat)
    ensures ConditionTrue(BuildStatus(policy, namespaces, excluded, outcome, now, staleAfter).conditions, kind)
            <==> Reports(kind, policy, namespaces, excluded, outcome, now, staleAfter)
  {
    var eligible := EffectiveNamespaces(namespaces, excluded) != [];
    var resourceAllowed := AllowsWorkloads(policy.spec) ==> ResourcesAreSupported(policy.spec);
    var stale := IsStale(StoredTime(policy), now, staleAfter);
    var ready := IsBuiltReady(policy, namespaces, excluded, outcome, now, staleAfter);
    BuiltConditionReadsBack(kind, eligible, outcome, ActionsAreSupported(policy.spec), resourceAllowed,
                            LimitsAreValid(policy.spec.limits), stale, ready);
    EligibleExists(namespaces, excluded);
  }

  /** Readiness takes two passes: a first status is not Ready, and any later one is as soon as it comes in time. */
  lemma ReadinessTakesTwoPasses(
      policy: Policy, later: Policy, excluded: set<string>, staleAfter: nat,
      namespaces1: seq<Namespace>, outcome1: BindingOutcome, time1: nat,
      namespaces2: seq<Namespace>, outcome2: BindingOutcome, time2: nat)
    requires later.status == Some(BuildStatus(policy, namespaces1, excluded, outcome1, time1, staleAfter))
    ensures policy.status == None ==> !IsReady(BuildStatus(policy, namespaces1, excluded, outcome1, time1, staleAfter))
    ensures IsReady(BuildStatus(later, namespaces2, excluded, outcome2, time2, staleAfter))
            <==> && time2 <= time1 + staleAfter && SpecIsValid(later.spec) && outcome2 == BindingOutcome(true, false)
                 && exists n :: n in namespaces2 && IsEligible(n, excluded)
  {
    ReadyExactlyWhen(policy, namespaces1, excluded, outcome1, time1, staleAfter);
    ReadyExactlyWhen(later, namespaces2, excluded, outcome2, time2, staleAfter);
  }
}
