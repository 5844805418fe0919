/**
 The action-policy protocol over shared cluster state: users and the leader edit namespace labels,
 users edit policies, operator passes list, reconcile RoleBindings and write statuses call by
 call, and executors list policies and decide. Passes and gates interleave freely, several of
 each may be in flight, any API call may fail or take effect without its caller learning of it,
 and the clock only moves forward.
 */
module ActionProtocol {
  import opened Options
  import opened Collections
  import opened NamespaceExclusion
  import opened ActionPolicy
  import opened PolicyGate

  datatype Config = Config(excluded: set<string>, staleAfter: nat)

  /** A policy as stored; its name is its key. */
  datatype StoredPolicy = StoredPolicy(spec: PolicySpec, status: Option<Status>)

  datatype Phase = Started | NamespacesListed | BindingRoles | WritingStatuses(next: nat)

  /** One operator pass: the clock reading it began with, what it listed, and its binding calls so far. */
  datatype Pass = Pass(
    start: nat, phase: Phase, namespaces: seq<Namespace>, policies: seq<Policy>, answers: seq<bool>)

  /** An executor that has listed the policies and is about to decide. */
  datatype Gate = Gate(request: Request, listing: seq<Policy>)

  /** A status on its way to the policy of that name. */
  datatype StatusPatch = StatusPatch(name: string, status: Status)

  /** The cluster, the calls that failed and may still land, and the passes and gates in flight. */
  datatype State = State(
    now: nat,
    namespaces: map<string, Option<string>>,
    policies: map<string, StoredPolicy>,
    bindings: set<string>,
    lateBindings: multiset<BindingCall>,
    latePatches: multiset<StatusPatch>,
    passes: seq<Pass>,
    gates: seq<Gate>)

  /** When a call takes effect: before it is answered, at any time after, or not at all. */
  datatype Fate = Now | Later | Never

  datatype Step =
    | Tick(elapsed: nat)
    | SetNamespace(name: string, mode: Option<string>)
    | DeleteNamespace(name: string)
    | PutPolicy(name: string, spec: PolicySpec)
    | DeletePolicy(name: string)
    | StartPass
    | ListNamespaces(pass: nat, listedNamespaces: seq<Namespace>)
    | ListPolicies(pass: nat, listedPolicies: seq<Policy>)
    | CallBinding(pass: nat, ok: bool, fate: Fate)
    | LandBinding(call: BindingCall)
    | FinishBindings(pass: nat)
    | WriteStatus(pass: nat, fate: Fate)
    | LandStatus(patch: StatusPatch)
    | OpenGate(request: Request, listedPolicies: seq<Policy>)

  predicate IsInit(s: State) {
    && (forall name :: name in s.policies ==> s.policies[name].status == None)
    && s.bindings == {} && s.lateBindings == multiset{} && s.latePatches == multiset{}
    && s.passes == [] && s.gates == []
  }

  /** A policy list call returns stored policies under their names, in any order. */
  predicate IsPolicyListing(listing: seq<Policy>, stored: map<string, StoredPolicy>) {
    && (forall p :: p in listing ==>
          && p.name.Some? && p.name.value in stored
          && p.spec == stored[p.name.value].spec && p.status == stored[p.name.value].status)
    && (forall name :: name in stored ==> Policy(Some(name), stored[name].spec, stored[name].status) in listing)
  }

  predicate IsNamespaceListing(listing: seq<Namespace>, stored: map<string, Option<string>>) {
    && (forall n :: n in listing ==> n.name.Some? && n.name.value in stored && n.mode == stored[n.name.value])
    && (forall name :: name in stored ==> Namespace(Some(name), stored[name]) in listing)
  }

  predicate InPhase(s: State, pass: nat, phase: Phase) {
    pass < |s.passes| && s.passes[pass].phase == phase
  }

  predicate IsWriting(s: State, pass: nat) {
    pass < |s.passes| && s.passes[pass].phase.WritingStatuses?
  }

  function Planned(c: Config, pass: Pass): seq<BindingCall> {
    PlannedCalls(pass.namespaces, c.excluded)
  }

  predicate Enabled(c: Config, s: State, step: Step) {
    match step
    case ListNamespaces(pass, listing) => InPhase(s, pass, Started) && IsNamespaceListing(listing, s.namespaces)
    case ListPolicies(pass, listing) => InPhase(s, pass, NamespacesListed) && IsPolicyListing(listing, s.policies)
    case CallBinding(pass, ok, fate) =>
      && InPhase(s, pass, BindingRoles) && |s.passes[pass].answers| < |Planned(c, s.passes[pass])|
      && (ok ==> fate == Now)
    case LandBinding(call) => call in s.lateBindings
    case FinishBindings(pass) =>
      InPhase(s, pass, BindingRoles) && |s.passes[pass].answers| == |Planned(c, s.passes[pass])|
    case WriteStatus(pass, _) => IsWriting(s, pass) && s.passes[pass].phase.next < |s.passes[pass].policies|
    case LandStatus(patch) => patch in s.latePatches
    case OpenGate(_, listing) => IsPolicyListing(listing, s.policies)
    case _ => true
  }

  function ApplyBinding(bindings: set<string>, call: BindingCall): set<string> {
    match call case Ensure(namespace) => bindings + {namespace} case Remove(namespace) => bindings - {namespace}
  }

  /** The status a pass writes for one of the policies it listed. */
  function PassStatus(c: Config, pass: Pass, policy: Policy): Status {
    BuildStatus(policy, pass.namespaces, c.excluded, OutcomeOf(pass.answers), pass.start, c.staleAfter)
  }

  /** The patch call a pass makes for a policy it listed; it skips nameless ones. */
  function PatchFor(c: Config, pass: Pass, policy: Policy): Option<StatusPatch> {
    match policy.name
    case None => None
    case Some(name) => Some(StatusPatch(name, PassStatus(c, pass, policy)))
  }

  /** A status patch replaces the status of a policy that still exists, whatever its spec is by now. */
  function ApplyPatch(policies: map<string, StoredPolicy>, patch: StatusPatch): map<string, StoredPolicy> {
    if patch.name !in policies then policies
    else policies[patch.name := policies[patch.name].(status := Some(patch.status))]
  }

  function ApplyPatchNow(policies: map<string, StoredPolicy>, patch: Option<StatusPatch>): map<string, StoredPolicy> {
    match patch case None => policies case Some(p) => ApplyPatch(policies, p)
  }

  /** The steps a pass takes itself. */
  predicate IsPassStep(step: Step) {
    step.ListNamespaces? || step.ListPolicies? || step.CallBinding? || step.FinishBindings? || step.WriteStatus?
  }

  /** How its own step changes a pass. */
  function NextPass(p: Pass, step: Step): Pass
    requires IsPassStep(step) && (step.WriteStatus? ==> p.phase.WritingStatuses?)
  {
    match step
    case ListNamespaces(_, listing) => p.(phase := NamespacesListed, namespaces := listing)
    case ListPolicies(_, listing) => p.(phase := BindingRoles, policies := listing)
    case CallBinding(_, ok, _) => p.(answers := p.answers + [ok])
    case FinishBindings(_) => p.(phase := WritingStatuses(0))
    case WriteStatus(_, _) => p.(phase := WritingStatuses(p.phase.next + 1))
  }

  function PassesAfter(c: Config, s: State, step: Step): seq<Pass>
    requires Enabled(c, s, step)
  {
    if step.StartPass? then s.passes + [Pass(s.now, Started, [], [], [])]
    else if IsPassStep(step) then s.passes[step.pass := NextPass(s.passes[step.pass], step)]
    else s.passes
  }

  /** The binding call a pass makes next. */
  function NextCall(c: Config, p: Pass): BindingCall
    requires |p.answers| < |Planned(c, p)|
  {
    Planned(c, p)[|p.answers|]
  }

  /** The status patch a pass makes next. */
  function NextPatch(c: Config, p: Pass): Option<StatusPatch>
    requires p.phase.WritingStatuses? && p.phase.next < |p.policies|
  {
    PatchFor(c, p, p.policies[p.phase.next])
  }

  function BindingsAfter(c: Config, s: State, step: Step): set<string>
    requires Enabled(c, s, step)
  {
    match step
    case CallBinding(pass, _, Now) => ApplyBinding(s.bindings, NextCall(c, s.passes[pass]))
    case LandBinding(call) => ApplyBinding(s.bindings, call)
    case _ => s.bindings
  }

  function LateBindingsAfter(c: Config, s: State, step: Step): multiset<BindingCall>
    requires Enabled(c, s, step)
  {
    match step
    case CallBinding(pass, _, Later) => s.lateBindings + multiset{NextCall(c, s.passes[pass])}
    case LandBinding(call) => s.lateBindings - multiset{call}
    case _ => s.lateBindings
  }

  /** A user's edit keeps the status; a patch changes nothing else. */
  function PoliciesAfter(c: Config, s: State, step: Step): map<string, StoredPolicy>
    requires Enabled(c, s, step)
  {
    match step
    case PutPolicy(name, spec) =>
      var status := if name in s.policies then s.policies[name].status else None;
      s.policies[name := StoredPolicy(spec, status)]
    case DeletePolicy(name) => s.policies - {name}
    case WriteStatus(pass, Now) => ApplyPatchNow(s.policies, NextPatch(c, s.passes[pass]))
    case LandStatus(patch) => ApplyPatch(s.policies, patch)
    case _ => s.policies
  }

  function LatePatchesAfter(c: Config, s: State, step: Step): multiset<StatusPatch>
    requires Enabled(c, s, step)
  {
    match step
    case WriteStatus(pass, Later) =>
      (match NextPatch(c, s.passes[pass])
       case None => s.latePatches
       case Some(patch) => s.latePatches + multiset{patch})
    case LandStatus(patch) => s.latePatches - multiset{patch}
    case _ => s.latePatches
  }

  function NamespacesAfter(s: State, step: Step): map<string, Option<string>> {
    match step
    case SetNamespace(name, mode) => s.namespaces[name := mode]
    case DeleteNamespace(name) => s.namespaces - {name}
    case _ => s.namespaces
  }

  function Do(c: Config, s: State, step: Step): State
    requires Enabled(c, s, step)
  {
    State(
      if step.Tick? then s.now + step.elapsed else s.now,
      NamespacesAfter(s, step), PoliciesAfter(c, s, step), BindingsAfter(c, s, step),
      LateBindingsAfter(c, s, step), LatePatchesAfter(c, s, step), PassesAfter(c, s, step),
      if step.OpenGate? then s.gates + [Gate(step.request, step.listedPolicies)] else s.gates)
  }

  /** A user's edit of a spec leaves the status as it was written for the spec before; no other policy changes. */
  lemma EditKeepsStatus(c: Config, s: State, name: string, spec: PolicySpec)
    ensures var edited := Do(c, s, PutPolicy(name, spec)).policies;
            && name in edited && edited[name].spec == spec
            && edited[name].status == (if name in s.policies then s.policies[name].status else None)
            && (forall other :: other != name ==> (other in edited <==> other in s.policies))
            && (forall other :: other != name && other in s.policies ==> edited[other] == s.policies[other])
  {
  }

  /** `s'` is reached from `s` by these steps, each enabled when taken. */
  predicate Reaches(c: Config, s: State, steps: seq<Step>, s': State)
    decreases |steps|
  {
    if steps == [] then s' == s
    else Enabled(c, s, steps[0]) && Reaches(c, Do(c, s, steps[0]), steps[1..], s')
  }

  /** Some run from some initial state ends here. */
  ghost predicate Reachable(c: Config, s: State) {
    exists init, steps :: IsInit(init) && Reaches(c, init, steps, s)
  }

  // ---- The run invariant ----

  /** A pass that has finished its binding calls wrote, or would write, this status. */
  predicate WrittenBy(c: Config, pass: Pass, status: Status) {
    && pass.phase.WritingStatuses?
    && exists policy :: policy in pass.policies && status == PassStatus(c, pass, policy)
  }

  /** Some pass other than `except` stands behind the status. */
  predicate HasWriter(c: Config, passes: seq<Pass>, status: Status, except: int) {
    exists i :: 0 <= i < |passes| && i != except && WrittenBy(c, passes[i], status)
  }

  predicate StatusesHaveWriters(c: Config, passes: seq<Pass>, listing: seq<Policy>, except: int) {
    forall p :: p in listing && p.status.Some? ==> HasWriter(c, passes, p.status.value, except)
  }

  predicate PassIsSound(c: Config, s: State, i: nat)
    requires i < |s.passes|
  {
    var p := s.passes[i];
    && p.start <= s.now
    && StatusesHaveWriters(c, s.passes, p.policies, i)
    && (p.phase.WritingStatuses? ==> |p.answers| == |Planned(c, p)|)
  }

  predicate Invariant(c: Config, s: State) {
    && (forall i :: 0 <= i < |s.passes| ==> PassIsSound(c, s, i))
    && (forall name :: name in s.policies && s.policies[name].status.Some? ==>
          HasWriter(c, s.passes, s.policies[name].status.value, -1))
    && (forall i :: 0 <= i < |s.gates| ==> StatusesHaveWriters(c, s.passes, s.gates[i].listing, -1))
    && (forall patch :: patch in s.latePatches ==> HasWriter(c, s.passes, patch.status, -1))
    && (forall name :: name in s.bindings ==> MayBind(c, s.passes, name))
    && (forall call :: call in s.lateBindings && call.Ensure? ==> MayBind(c, s.passes, call.namespace))
  }

  /** Some pass listed the namespace as opted in. */
  predicate SeenEnabled(passes: seq<Pass>, name: string) {
    exists i :: && 0 <= i < |passes| && !passes[i].phase.Started?
                && Namespace(Some(name), Some("true")) in passes[i].namespaces
  }

  /** Only a namespace that is not excluded and was seen opted in may be bound. */
  predicate MayBind(c: Config, passes: seq<Pass>, name: string) {
    !NamespaceIsExcluded(name, c.excluded) && SeenEnabled(passes, name)
  }

  /** Passes only move on: one that is writing statuses keeps everything the statuses depend on. */
  predicate PassesAdvance(before: seq<Pass>, after: seq<Pass>) {
    && |before| <= |after|
    && forall i :: 0 <= i < |before| && before[i].phase.WritingStatuses? ==>
         after[i].phase.WritingStatuses? && after[i] == before[i].(phase := after[i].phase)
  }

  lemma WritersStay(c: Config, before: seq<Pass>, after: seq<Pass>, status: Status, except: int)
    requires PassesAdvance(before, after) && HasWriter(c, before, status, except)
    ensures HasWriter(c, after, status, except)
  {
    var i :| 0 <= i < |before| && i != except && WrittenBy(c, before[i], status);
    var policy :| policy in before[i].policies && status == PassStatus(c, before[i], policy);
    assert status == PassStatus(c, after[i], policy);
    assert WrittenBy(c, after[i], status);
  }

  lemma ListingWritersStay(c: Config, before: seq<Pass>, after: seq<Pass>, listing: seq<Policy>, except: int)
    requires PassesAdvance(before, after) && StatusesHaveWriters(c, before, listing, except)
    ensures StatusesHaveWriters(c, after, listing, except)
  {
    forall p | p in listing && p.status.Some? ensures HasWriter(c, after, p.status.value, except) {
      WritersStay(c, before, after, p.status.value, except);
    }
  }

  lemma StepAdvancesPasses(c: Config, s: State, step: Step)
    requires Enabled(c, s, step)
    ensures PassesAdvance(s.passes, PassesAfter(c, s, step))
    ensures forall i :: 0 <= i < |s.passes| ==> PassesAfter(c, s, step)[i].start == s.passes[i].start
    ensures !step.StartPass? ==> |PassesAfter(c, s, step)| == |s.passes|
  {
  }

  /** A listing of the store inherits its writers; a pass that is still listing is none of them. */
  lemma FreshListing(c: Config, s: State, listing: seq<Policy>, except: int)
    requires Invariant(c, s) && IsPolicyListing(listing, s.policies)
    requires 0 <= except < |s.passes| ==> !s.passes[except].phase.WritingStatuses?
    requires except >= -1
    ensures StatusesHaveWriters(c, s.passes, listing, except)
  {
    forall p | p in listing && p.status.Some? ensures HasWriter(c, s.passes, p.status.value, except) {
      var i :| 0 <= i < |s.passes| && i != -1 && WrittenBy(c, s.passes[i], p.status.value);
      assert i != except;
    }
  }

  lemma StepKeepsListings(c: Config, s: State, step: Step, i: nat)
    requires Invariant(c, s) && Enabled(c, s, step)
    requires i < |PassesAfter(c, s, step)|
    ensures StatusesHaveWriters(c, PassesAfter(c, s, step), PassesAfter(c, s, step)[i].policies, i)
  {
    StepAdvancesPasses(c, s, step);
    if i < |s.passes| {
      assert PassIsSound(c, s, i);
      if step.ListPolicies? && step.pass == i {
        FreshListing(c, s, step.listedPolicies, i);
        ListingWritersStay(c, s.passes, PassesAfter(c, s, step), step.listedPolicies, i);
      } else {
        ListingWritersStay(c, s.passes, PassesAfter(c, s, step), s.passes[i].policies, i);
      }
    }
  }

  lemma StepKeepsPasses(c: Config, s: State, step: Step, i: nat)
    requires Invariant(c, s) && Enabled(c, s, step)
    requires i < |PassesAfter(c, s, step)|
    ensures var p := PassesAfter(c, s, step)[i];
            p.start <= s.now && (p.phase.WritingStatuses? ==> |p.answers| == |Planned(c, p)|)
  {
    if i < |s.passes| {
      assert PassIsSound(c, s, i);
    }
  }

  /** The status a pass is about to write has a writer: the pass itself. */
  lemma WriterOfPatch(c: Config, s: State, i: nat)
    requires IsWriting(s, i) && s.passes[i].phase.next < |s.passes[i].policies|
    ensures var patch := NextPatch(c, s.passes[i]); patch.Some? ==> HasWriter(c, s.passes, patch.value.status, -1)
  {
    var p := s.passes[i];
    var policy := p.policies[p.phase.next];
    assert policy in p.policies;
    assert WrittenBy(c, p, PassStatus(c, p, policy));
  }

  lemma StepKeepsStore(c: Config, s: State, step: Step, name: string)
    requires Invariant(c, s) && Enabled(c, s, step)
    requires name in PoliciesAfter(c, s, step) && PoliciesAfter(c, s, step)[name].status.Some?
    ensures HasWriter(c, s.passes, PoliciesAfter(c, s, step)[name].status.value, -1)
  {
    if step.WriteStatus? {
      WriterOfPatch(c, s, step.pass);
    }
  }

  lemma StepKeepsPatches(c: Config, s: State, step: Step, patch: StatusPatch)
    requires Invariant(c, s) && Enabled(c, s, step)
    requires patch in LatePatchesAfter(c, s, step)
    ensures HasWriter(c, s.passes, patch.status, -1)
  {
    if step.WriteStatus? {
      WriterOfPatch(c, s, step.pass);
    }
  }

  lemma NextCallMayBind(c: Config, passes: seq<Pass>, i: nat)
    requires i < |passes| && passes[i].phase == BindingRoles && |passes[i].answers| < |Planned(c, passes[i])|
    ensures NextCall(c, passes[i]).Ensure? ==> MayBind(c, passes, NextCall(c, passes[i]).namespace)
  {
    var p := passes[i];
    var call := NextCall(c, p);
    assert call in Planned(c, p);
    if call.Ensure? {
      EnsuredExactlyWhen(p.namespaces, c.excluded, call.namespace);
    }
  }

  lemma StepKeepsBindings(c: Config, s: State, step: Step)
    requires Invariant(c, s) && Enabled(c, s, step)
    ensures forall name :: name in BindingsAfter(c, s, step) ==> MayBind(c, s.passes, name)
    ensures forall call :: call in LateBindingsAfter(c, s, step) && call.Ensure? ==>
              MayBind(c, s.passes, call.namespace)
  {
    if step.CallBinding? {
      NextCallMayBind(c, s.passes, step.pass);
    }
  }

  /** What a pass has listed it keeps. */
  lemma SeenStaysSeen(c: Config, s: State, step: Step, name: string)
    requires Enabled(c, s, step) && SeenEnabled(s.passes, name)
    ensures SeenEnabled(PassesAfter(c, s, step), name)
  {
    var i :| && 0 <= i < |s.passes| && !s.passes[i].phase.Started?
             && Namespace(Some(name), Some("true")) in s.passes[i].namespaces;
    var p := PassesAfter(c, s, step)[i];
    assert !p.phase.Started? && p.namespaces == s.passes[i].namespaces;
  }

  lemma StepKeepsBound(c: Config, s: State, step: Step)
    requires Invariant(c, s) && Enabled(c, s, step)
    ensures forall name :: name in BindingsAfter(c, s, step) ==> MayBind(c, PassesAfter(c, s, step), name)
    ensures forall call :: call in LateBindingsAfter(c, s, step) && call.Ensure? ==>
              MayBind(c, PassesAfter(c, s, step), call.namespace)
  {
    StepKeepsBindings(c, s, step);
    forall name | SeenEnabled(s.passes, name) ensures SeenEnabled(PassesAfter(c, s, step), name) {
      SeenStaysSeen(c, s, step, name);
    }
  }

  lemma StepKeepsGates(c: Config, s: State, step: Step, i: nat)
    requires Invariant(c, s) && Enabled(c, s, step) && i < |s.gates| + (if step.OpenGate? then 1 else 0)
    ensures StatusesHaveWriters(c, s.passes, if i < |s.gates| then s.gates[i].listing else step.listedPolicies, -1)
  {
    if i == |s.gates| {
      FreshListing(c, s, step.listedPolicies, -1);
    }
  }

  lemma StepKeepsInvariant(c: Config, s: State, step: Step)
    requires Invariant(c, s) && Enabled(c, s, step)
    ensures Invariant(c, Do(c, s, step))
  {
    var s' := Do(c, s, step);
    StepAdvancesPasses(c, s, step);
    forall i | 0 <= i < |s'.passes| ensures PassIsSound(c, s', i) {
      StepKeepsPasses(c, s, step, i);
      StepKeepsListings(c, s, step, i);
    }
    forall name | name in s'.policies && s'.policies[name].status.Some?
      ensures HasWriter(c, s'.passes, s'.policies[name].status.value, -1)
    {
      StepKeepsStore(c, s, step, name);
      WritersStay(c, s.passes, s'.passes, s'.policies[name].status.value, -1);
    }
    forall patch | patch in s'.latePatches ensures HasWriter(c, s'.passes, patch.status, -1) {
      StepKeepsPatches(c, s, step, patch);
      WritersStay(c, s.passes, s'.passes, patch.status, -1);
    }
    forall i | 0 <= i < |s'.gates| ensures StatusesHaveWriters(c, s'.passes, s'.gates[i].listing, -1) {
      StepKeepsGates(c, s, step, i);
      ListingWritersStay(c, s.passes, s'.passes, s'.gates[i].listing, -1);
    }
    StepKeepsBound(c, s, step);
  }

  lemma {:induction false} RunKeepsInvariant(c: Config, s: State, steps: seq<Step>, s': State)
    requires Invariant(c, s) && Reaches(c, s, steps, s')
    ensures Invariant(c, s')
    decreases |steps|
  {
    if steps != [] {
      StepKeepsInvariant(c, s, steps[0]);
      RunKeepsInvariant(c, Do(c, s, steps[0]), steps[1..], s');
    }
  }

  /** Everything that happens from an initial state keeps the invariant. */
  lemma ReachableIsSound(c: Config, s: State)
    requires Reachable(c, s)
    ensures Invariant(c, s)
  {
    var init, steps :| IsInit(init) && Reaches(c, init, steps, s);
    RunKeepsInvariant(c, init, steps, s);
  }

  // ---- Safety ----

  /** The pass saw the namespace labelled for action mode and not excluded. */
  predicate SawEligible(c: Config, pass: Pass, namespace: string) {
    && !NamespaceIsExcluded(namespace, c.excluded)
    && Namespace(Some(namespace), Some(ENABLED)) in pass.namespaces
  }

  /** The pass made every planned RoleBinding call and every one succeeded. */
  predicate BoundEverything(c: Config, pass: Pass) {
    pass.phase.WritingStatuses? && |pass.answers| == |Planned(c, pass)| && AllTrue(pass.answers)
  }

  /** The pass made the call that binds the namespace, and it succeeded. */
  predicate BoundBy(c: Config, pass: Pass, namespace: string) {
    exists k :: && 0 <= k < |pass.answers| && k < |Planned(c, pass)|
                && Planned(c, pass)[k] == Ensure(namespace) && pass.answers[k]
  }

  lemma EligibleWereBound(c: Config, pass: Pass, namespace: string)
    requires BoundEverything(c, pass) && SawEligible(c, pass, namespace)
    ensures BoundBy(c, pass, namespace)
  {
    EnsuredExactlyWhen(pass.namespaces, c.excluded, namespace);
    var k :| 0 <= k < |Planned(c, pass)| && Planned(c, pass)[k] == Ensure(namespace);
    assert pass.answers[k];
  }

  /** Two different operator passes stand behind a Ready status: its writer, and one not long before it. */
  predicate TwoPasses(c: Config, s: State, status: Status, latest: nat, previous: nat) {
    && latest < |s.passes| && previous < |s.passes| && latest != previous
    && BoundEverything(c, s.passes[latest])
    && status.lastReconciledAtMs == Some(s.passes[latest].start) && s.passes[latest].start <= s.now
    && s.passes[previous].phase.WritingStatuses?
    && s.passes[latest].start <= s.passes[previous].start + c.staleAfter
    && forall name :: name in status.effectiveNamespaces ==> SawEligible(c, s.passes[latest], name)
  }

  lemma EffectiveWereSeenEligible(c: Config, pass: Pass, policy: Policy, name: string)
    requires name in PassStatus(c, pass, policy).effectiveNamespaces
    ensures SawEligible(c, pass, name)
  {
    EffectiveExactlyWhenEligible(pass.namespaces, c.excluded, name);
    var n :| n in pass.namespaces && n.name == Some(name) && IsEligible(n, c.excluded);
    assert n == Namespace(Some(name), Some(ENABLED));
  }

  lemma ReadyStatusNeedsTwoPasses(c: Config, s: State, status: Status) returns (latest: nat, previous: nat)
    requires Invariant(c, s) && HasWriter(c, s.passes, status, -1) && IsReady(status)
    ensures TwoPasses(c, s, status, latest, previous)
  {
    latest :| 0 <= latest < |s.passes| && latest != -1 && WrittenBy(c, s.passes[latest], status);
    var pass := s.passes[latest];
    assert PassIsSound(c, s, latest);
    var policy :| policy in pass.policies && status == PassStatus(c, pass, policy);
    ReadyExactlyWhen(policy, pass.namespaces, c.excluded, OutcomeOf(pass.answers), pass.start, c.staleAfter);
    assert policy.status.Some? && HasWriter(c, s.passes, policy.status.value, latest);
    previous :| && 0 <= previous < |s.passes| && previous != latest
                && WrittenBy(c, s.passes[previous], policy.status.value);
    forall name | name in status.effectiveNamespaces ensures SawEligible(c, pass, name) {
      EffectiveWereSeenEligible(c, pass, policy, name);
    }
  }

  /** The only requests allowed to name a namespace no pass saw eligible. */
  predicate IsAgentUpdate(request: Request) {
    request.kind == UPDATE_AGENT && request.namespace == Some(UPDATE_AGENT_NAMESPACE)
  }

  /** What backs an acceptance: two passes, the later one recent and having seen the namespace eligible. */
  predicate Backed(c: Config, s: State, request: Request, status: Status, latest: nat, previous: nat) {
    && TwoPasses(c, s, status, latest, previous)
    && s.now <= s.passes[latest].start + c.staleAfter
    && (request.namespace.Some? && !IsAgentUpdate(request) ==>
          && SawEligible(c, s.passes[latest], request.namespace.value)
          && BoundBy(c, s.passes[latest], request.namespace.value))
  }

  lemma FreshReadyStatusIsBacked(c: Config, s: State, status: Status, request: Request)
    returns (latest: nat, previous: nat)
    requires Invariant(c, s) && HasWriter(c, s.passes, status, -1) && IsReady(status)
    requires !IsStale(status.lastReconciledAtMs, s.now, c.staleAfter)
    requires NamespaceIsEffective(request, status.effectiveNamespaces)
    ensures Backed(c, s, request, status, latest, previous)
  {
    latest, previous := ReadyStatusNeedsTwoPasses(c, s, status);
    if request.namespace.Some? && !IsAgentUpdate(request) {
      EligibleWereBound(c, s.passes[latest], request.namespace.value);
    }
  }

  lemma AcceptanceInSoundState(c: Config, s: State, gate: Gate) returns (policy: Policy, latest: nat, previous: nat)
    requires Invariant(c, s) && gate in s.gates
    requires Accepts(gate.listing, gate.request, s.now, c.staleAfter)
    ensures policy in gate.listing && policy.status.Some? && Permits(policy.spec, gate.request)
    ensures Backed(c, s, gate.request, policy.status.value, latest, previous)
  {
    var i :| 0 <= i < |gate.listing| && Qualifies(gate.listing[i], gate.request, s.now, c.staleAfter);
    policy := gate.listing[i];
    assert policy in gate.listing && StatusesHaveWriters(c, s.passes, gate.listing, -1);
    RefusedUnlessPermitted(policy.spec, gate.request);
    latest, previous := FreshReadyStatusIsBacked(c, s, policy.status.value, gate.request);
  }

  lemma NoAcceptanceOnceExpired(c: Config, s: State, gate: Gate)
    requires Invariant(c, s) && gate in s.gates && AllPassesExpired(c, s)
    ensures !Accepts(gate.listing, gate.request, s.now, c.staleAfter)
  {
    if Accepts(gate.listing, gate.request, s.now, c.staleAfter) {
      var policy, latest, previous := AcceptanceInSoundState(c, s, gate);
    }
  }

  /**
   Safety over every interleaving: when an executor accepts a request, a listed policy permits it
   in every respect and two different operator passes back that policy's status. The later pass is no
   older than the staleness bound, listed the namespace as labelled and not excluded, bound it, and
   had every RoleBinding call succeed; the earlier one began no longer than the bound before it.
   */
  lemma AcceptedRequestsAreBacked(c: Config, s: State, gate: Gate)
    requires Reachable(c, s) && gate in s.gates
    requires Accepts(gate.listing, gate.request, s.now, c.staleAfter)
    ensures exists policy, latest, previous ::
              && policy in gate.listing && policy.status.Some? && Permits(policy.spec, gate.request)
              && Backed(c, s, gate.request, policy.status.value, latest, previous)
  {
    ReachableIsSound(c, s);
    var policy, latest, previous := AcceptanceInSoundState(c, s, gate);
  }

  /** Whatever the run, no excluded namespace is acted on except by the agent's own update. */
  lemma ExcludedNamespacesAreNeverActedOn(c: Config, s: State, gate: Gate)
    requires Reachable(c, s) && gate in s.gates && !IsAgentUpdate(gate.request)
    requires gate.request.namespace.Some? && NamespaceIsExcluded(gate.request.namespace.value, c.excluded)
    ensures !Accepts(gate.listing, gate.request, s.now, c.staleAfter)
  {
    if Accepts(gate.listing, gate.request, s.now, c.staleAfter) {
      ReachableIsSound(c, s);
      var policy, latest, previous := AcceptanceInSoundState(c, s, gate);
    }
  }

  /** No request but `update_agent` on the agent's own namespace is ever accepted for a system namespace. */
  lemma SystemNamespacesAreNeverActedOn(c: Config, s: State, gate: Gate)
    requires Elements(SYSTEM_EXCLUDED_NAMESPACES) <= c.excluded
    requires Reachable(c, s) && gate in s.gates
    requires gate.request.namespace.Some? && IsSystemNamespace(gate.request.namespace.value)
    requires !IsAgentUpdate(gate.request)
    ensures !Accepts(gate.listing, gate.request, s.now, c.staleAfter)
  {
    BuiltInsAlwaysExcluded(gate.request.namespace.value, c.excluded);
    ExcludedNamespacesAreNeverActedOn(c, s, gate);
  }

  /** `self_update` targets the agent's own namespace, so no reachable state lets it through. */
  lemma SelfUpdateIsNeverAccepted(c: Config, s: State, gate: Gate)
    requires Elements(SYSTEM_EXCLUDED_NAMESPACES) <= c.excluded
    requires Reachable(c, s) && gate in s.gates
    requires gate.request.kind == "self_update" && gate.request.namespace == Some(UPDATE_AGENT_NAMESPACE)
    ensures !Accepts(gate.listing, gate.request, s.now, c.staleAfter)
  {
    AgentNamespaceIsSystem();
    assert |"self_update"| != |UPDATE_AGENT|;
    SystemNamespacesAreNeverActedOn(c, s, gate);
  }

  /** No excluded namespace ever holds the managed RoleBinding. */
  lemma ExcludedNamespacesAreNeverBound(c: Config, s: State, name: string)
    requires Reachable(c, s) && NamespaceIsExcluded(name, c.excluded)
    ensures name !in s.bindings
  {
    ReachableIsSound(c, s);
  }

  /** No namespace holds it that no pass ever listed as opted in. */
  lemma OnlySeenNamespacesAreBound(c: Config, s: State, name: string)
    requires Reachable(c, s) && name in s.bindings
    ensures !NamespaceIsExcluded(name, c.excluded)
    ensures exists i :: && 0 <= i < |s.passes| && !s.passes[i].phase.Started?
                        && Namespace(Some(name), Some("true")) in s.passes[i].namespaces
  {
    ReachableIsSound(c, s);
  }

  /** Binding calls taking effect one after another. */
  function ApplyBindings(bindings: set<string>, calls: seq<BindingCall>): set<string> {
    if calls == [] then bindings
    else ApplyBinding(ApplyBindings(bindings, calls[..|calls| - 1]), calls[|calls| - 1])
  }

  lemma ApplyBindingsSnoc(bindings: set<string>, calls: seq<BindingCall>, call: BindingCall)
    ensures ApplyBindings(bindings, calls + [call]) == ApplyBinding(ApplyBindings(bindings, calls), call)
  {
    assert (calls + [call])[..|calls|] == calls;
  }

  lemma NextNamespaceSettles(bindings: set<string>, init: seq<Namespace>, last: Namespace, excluded: set<string>,
                             x: string)
    ensures x in ApplyBindings(bindings, PlannedCalls(init + [last], excluded))
            <==> if last.name == Some(x) then last.mode == Some("true") && !NamespaceIsExcluded(x, excluded)
                 else x in ApplyBindings(bindings, PlannedCalls(init, excluded))
  {
    assert (init + [last])[..|init|] == init;
    var calls := PlannedCalls(init, excluded);
    if last.name.Some? {
      ApplyBindingsSnoc(bindings, calls, PlannedCalls(init + [last], excluded)[|calls|]);
    } else {
      assert calls + [] == calls;
    }
  }

  /**
   Undisturbed, the calls of a pass settle the bindings: each listed namespace ends bound exactly when
   it is opted in and not excluded, whatever it was before, and no other is touched.
   */
  lemma {:induction false} CompletePassSettlesBindings(bindings: set<string>, namespaces: seq<Namespace>,
                                                      excluded: set<string>, x: string)
    requires forall n, n' :: n in namespaces && n' in namespaces && n.name == n'.name == Some(x) ==> n == n'
    ensures var after := ApplyBindings(bindings, PlannedCalls(namespaces, excluded));
            && (forall n :: n in namespaces && n.name == Some(x) ==>
                  (x in after <==> n.mode == Some("true") && !NamespaceIsExcluded(x, excluded)))
            && ((forall n :: n in namespaces ==> n.name != Some(x)) ==> (x in after <==> x in bindings))
  {
    if namespaces != [] {
      var init, last := namespaces[..|namespaces| - 1], namespaces[|namespaces| - 1];
      assert namespaces == init + [last];
      CompletePassSettlesBindings(bindings, init, excluded, x);
      NextNamespaceSettles(bindings, init, last, excluded, x);
    }
  }

  // ---- The lease ----

  /** Every pass begun so far began longer ago than the staleness bound. */
  predicate AllPassesExpired(c: Config, s: State) {
    forall i :: 0 <= i < |s.passes| ==> s.now > s.passes[i].start + c.staleAfter
  }

  lemma {:induction false} ExpiryLasts(c: Config, s: State, steps: seq<Step>, s': State)
    requires AllPassesExpired(c, s) && Reaches(c, s, steps, s')
    requires forall i :: 0 <= i < |steps| ==> !steps[i].StartPass?
    ensures AllPassesExpired(c, s')
    decreases |steps|
  {
    if steps != [] {
      StepAdvancesPasses(c, s, steps[0]);
      ExpiryLasts(c, Do(c, s, steps[0]), steps[1..], s');
    }
  }

  lemma ContinuationStaysClosed(c: Config, s: State, later: seq<Step>, s': State, gate: Gate)
    requires Invariant(c, s) && AllPassesExpired(c, s)
    requires Reaches(c, s, later, s') && forall i :: 0 <= i < |later| ==> !later[i].StartPass?
    requires gate in s'.gates
    ensures !Accepts(gate.listing, gate.request, s'.now, c.staleAfter)
  {
    RunKeepsInvariant(c, s, later, s');
    ExpiryLasts(c, s, later, s');
    NoAcceptanceOnceExpired(c, s', gate);
  }

  /**
   Fail closed: once every operator pass is older than the staleness bound, no continuation without
   a new pass lets any request through, namespaced or cluster-wide, whatever unfinished passes
   still write and whenever the executor listed the policies.
   */
  lemma FailClosedWithoutNewPasses(c: Config, s: State,
                                   later: seq<Step>, s': State, gate: Gate)
    requires Reachable(c, s) && AllPassesExpired(c, s)
    requires Reaches(c, s, later, s') && forall i :: 0 <= i < |later| ==> !later[i].StartPass?
    requires gate in s'.gates
    ensures !Accepts(gate.listing, gate.request, s'.now, c.staleAfter)
  {
    ReachableIsSound(c, s);
    ContinuationStaysClosed(c, s, later, s', gate);
  }

  /** A pass other than `latest` that wrote `status` and began at most the staleness bound before it. */
  predicate HasRecentWriter(c: Config, s: State, status: Status, latest: nat)
    requires latest < |s.passes|
  {
    exists previous :: && 0 <= previous < |s.passes| && previous != latest
                       && WrittenBy(c, s.passes[previous], status)
                       && s.passes[latest].start <= s.passes[previous].start + c.staleAfter
  }

  /** The status last listed for the policy was written by another pass not long before. */
  predicate FollowsAnotherPass(c: Config, s: State, policy: Policy, latest: nat)
    requires latest < |s.passes|
  {
    policy.status.Some? && HasRecentWriter(c, s, policy.status.value, latest)
  }

  lemma ListedStatusIsRecentExactlyWhen(c: Config, s: State, policy: Policy, latest: nat)
    requires Invariant(c, s) && latest < |s.passes| && policy in s.passes[latest].policies
    ensures StoredTime(policy).Some? && s.passes[latest].start <= StoredTime(policy).value + c.staleAfter
            <==> FollowsAnotherPass(c, s, policy, latest)
  {
    assert PassIsSound(c, s, latest);
    if policy.status.Some? {
      var status := policy.status.value;
      var i :| 0 <= i < |s.passes| && i != latest && WrittenBy(c, s.passes[i], status);
      assert status.lastReconciledAtMs == Some(s.passes[i].start);
    }
  }

  /**
   In every reachable state, what a pass is about to write reads Ready exactly when the spec is valid,
   the pass saw an eligible namespace, all its binding calls succeeded, and the status it listed for
   the policy came from another pass at most the staleness bound earlier.
   */
  lemma WrittenStatusIsReadyExactlyWhen(c: Config, s: State, i: nat)
    requires Reachable(c, s) && Enabled(c, s, WriteStatus(i, Now))
    requires var policy := s.passes[i].policies[s.passes[i].phase.next];
             policy.name.Some? && policy.name.value in s.policies
    ensures var pass := s.passes[i];
            var policy := pass.policies[pass.phase.next];
            var stored := Do(c, s, WriteStatus(i, Now)).policies[policy.name.value];
            && stored.status.Some?
            && (IsReady(stored.status.value)
                <==> && SpecIsValid(policy.spec) && BoundEverything(c, pass)
                     && (exists n :: n in pass.namespaces && IsEligible(n, c.excluded))
                     && FollowsAnotherPass(c, s, policy, i))
  {
    ReachableIsSound(c, s);
    var pass := s.passes[i];
    var policy := pass.policies[pass.phase.next];
    assert PassIsSound(c, s, i);
    assert policy in pass.policies;
    ReadyExactlyWhen(policy, pass.namespaces, c.excluded, OutcomeOf(pass.answers), pass.start, c.staleAfter);
    ListedStatusIsRecentExactlyWhen(c, s, policy, i);
  }

  /** In every reachable state a stored Ready status needed two passes, and a stored stale flag means not Ready. */
  lemma StoredReadinessNeedsTwoPasses(c: Config, s: State, name: string)
    requires Reachable(c, s)
    requires name in s.policies && s.policies[name].status.Some?
    ensures var status := s.policies[name].status.value;
            && (status.stale ==> !IsReady(status))
            && (IsReady(status) ==> exists latest, previous :: TwoPasses(c, s, status, latest, previous))
  {
    ReachableIsSound(c, s);
    var status := s.policies[name].status.value;
    var i :| 0 <= i < |s.passes| && i != -1 && WrittenBy(c, s.passes[i], status);
    var pass := s.passes[i];
    var policy :| policy in pass.policies && status == PassStatus(c, pass, policy);
    ReadyExactlyWhen(policy, pass.namespaces, c.excluded, OutcomeOf(pass.answers), pass.start, c.staleAfter);
    if IsReady(status) {
      var latest, previous := ReadyStatusNeedsTwoPasses(c, s, status);
    }
  }
}
