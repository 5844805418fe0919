/** The executor's gate: which command a list of action policies lets through. */
module PolicyGate {
  import opened Options
  import opened Text
  import opened Quantity
  import opened NamespaceExclusion
  import opened ActionPolicy

  const UPDATE_AGENT_NAMESPACE: string := "sentinella"
  const UPDATE_AGENT: string := "update_agent"
  const PREVIEW_RESOURCES: string := "preview_workload_resources"
  const APPLY_RESOURCES: string := "apply_workload_resources"

  datatype ResourceMap = ResourceMap(cpu: Option<string>, memory: Option<string>)

  datatype WorkloadResources = WorkloadResources(requests: Option<ResourceMap>, limits: Option<ResourceMap>)

  /** What is being asked; a cluster action names no namespace. */
  datatype Request = Request(
    kind: string, namespace: Option<string>, targetKind: Option<string>, resources: Option<WorkloadResources>)

  datatype Rejection =
    | UnsupportedActions
    | ActionNotAllowed
    | MissingTargetKind
    | UnsupportedResources
    | ResourceNotAllowed
    | MissingResources
    | LimitsExceeded(violations: seq<Violation>)

  function Asked(side: Option<ResourceMap>, resource: Resource): Option<string> {
    if side.None? then None
    else match resource case Cpu => side.value.cpu case Memory => side.value.memory
  }

  function Bound(limits: Limits, resource: Resource): Option<string> {
    match resource case Cpu => limits.maxCpu case Memory => limits.maxMemory
  }

  function SideViolation(limits: Limits, side: Option<ResourceMap>, resource: Resource): seq<Violation> {
    var limit, asked := Bound(limits, resource), Asked(side, resource);
    if limit.None? || asked.None? then []
    else
      match QuantityViolation(resource, asked.value, limit.value)
      case Some(v) => [v]
      case None => []
  }

  function LimitViolations(limits: Limits, resources: WorkloadResources): seq<Violation> {
    SideViolation(limits, resources.requests, Cpu) + SideViolation(limits, resources.limits, Cpu)
    + SideViolation(limits, resources.requests, Memory) + SideViolation(limits, resources.limits, Memory)
  }

  /** `policy_rejection_reason_for_command`. */
  function RejectionReason(spec: PolicySpec, request: Request): Option<Rejection> {
    if !ActionsAreSupported(spec) then Some(UnsupportedActions)
    else if request.kind !in spec.allowedActions then Some(ActionNotAllowed)
    else
      var target := TargetRejection(spec, request);
      if target.Some? then target
      else if request.kind in {PREVIEW_RESOURCES, APPLY_RESOURCES} then ResourcesRejection(spec, request)
      else None
  }

  function TargetRejection(spec: PolicySpec, request: Request): Option<Rejection> {
    if request.kind !in WORKLOAD_ACTIONS then None
    else if request.targetKind.None? then Some(MissingTargetKind)
    else if !ResourcesAreSupported(spec) then Some(UnsupportedResources)
    else if request.targetKind.value !in spec.allowedResources then Some(ResourceNotAllowed)
    else None
  }

  function ResourcesRejection(spec: PolicySpec, request: Request): Option<Rejection> {
    if request.resources.None? then Some(MissingResources)
    else if spec.limits.None? then None
    else
      var violations := LimitViolations(spec.limits.value, request.resources.value);
      if violations == [] then None else Some(LimitsExceeded(violations))
  }

  predicate NamespaceIsEffective(request: Request, effective: seq<string>) {
    match request.namespace
    case None => true
    case Some(namespace) =>
      namespace in effective || (request.kind == UPDATE_AGENT && namespace == UPDATE_AGENT_NAMESPACE)
  }

  /** This policy lets the request through now. */
  predicate Qualifies(policy: Policy, request: Request, now: nat, staleAfter: nat) {
    && policy.name.Some? && policy.status.Some?
    && policy.status.value.lastReconciledAtMs.Some?
    && !IsStale(policy.status.value.lastReconciledAtMs, now, staleAfter)
    && IsReady(policy.status.value)
    && NamespaceIsEffective(request, policy.status.value.effectiveNamespaces)
    && RejectionReason(policy.spec, request) == None
  }

  predicate Accepts(policies: seq<Policy>, request: Request, now: nat, staleAfter: nat) {
    exists i :: 0 <= i < |policies| && Qualifies(policies[i], request, now, staleAfter)
  }

  /** Passed over without a reason: nameless, or good for other namespaces than the one asked for. */
  predicate IsPassedOver(policy: Policy, request: Request, now: nat, staleAfter: nat) {
    || policy.name.None?
    || (&& policy.status.Some? && !IsStale(policy.status.value.lastReconciledAtMs, now, staleAfter)
        && IsReady(policy.status.value) && !NamespaceIsEffective(request, policy.status.value.effectiveNamespaces))
  }

  /** How many of the policies are refused for a reason the caller is told. */
  function Refusals(policies: seq<Policy>, request: Request, now: nat, staleAfter: nat): nat {
    if policies == [] then 0
    else
      var last := policies[|policies| - 1];
      Refusals(policies[..|policies| - 1], request, now, staleAfter)
      + (if IsPassedOver(last, request, now, staleAfter) || Qualifies(last, request, now, staleAfter) then 0 else 1)
  }

  /**
   The gate loops of `ensure_effective_policy_allows` and `select_cluster_action_policy`: skip
   nameless policies, collect a reason for the rest, return the first that qualifies.
   */
  method SelectPolicy(policies: seq<Policy>, request: Request, now: nat, staleAfter: nat)
    returns (selected: Option<Policy>, reasons: nat)
    ensures selected.Some? <==> Accepts(policies, request, now, staleAfter)
    ensures selected.Some? ==>
              exists i :: && 0 <= i < |policies| && policies[i] == selected.value
                          && Qualifies(policies[i], request, now, staleAfter)
                          && forall j :: 0 <= j < i ==> !Qualifies(policies[j], request, now, staleAfter)
    ensures selected.None? ==> reasons == Refusals(policies, request, now, staleAfter)
  {
    reasons := 0;
    for i := 0 to |policies|
      invariant forall j :: 0 <= j < i ==> !Qualifies(policies[j], request, now, staleAfter)
      invariant reasons == Refusals(policies[..i], request, now, staleAfter)
    {
      assert policies[..i + 1][..i] == policies[..i];
      var policy := policies[i];
      if policy.name.None? {
        continue;
      }
      if policy.status.None? || policy.status.value.lastReconciledAtMs.None? {
        reasons := reasons + 1;
        continue;
      }
      var status := policy.status.value;
      if IsStale(status.lastReconciledAtMs, now, staleAfter) || !IsReady(status) {
        reasons := reasons + 1;
        continue;
      }
      if !NamespaceIsEffective(request, status.effectiveNamespaces) {
        continue;
      }
      if RejectionReason(policy.spec, request).Some? {
        reasons := reasons + 1;
        continue;
      }
      return Some(policy), reasons;
    }
    assert policies[..|policies|] == policies;
    selected := None;
  }

  /** Acceptance does not depend on the order of the listing, and more policies never take it away. */
  lemma AcceptanceIsMonotoneAndOrderFree(a: seq<Policy>, b: seq<Policy>, request: Request, now: nat, staleAfter: nat)
    requires multiset(a) <= multiset(b)
    ensures Accepts(a, request, now, staleAfter) ==> Accepts(b, request, now, staleAfter)
    ensures multiset(a) == multiset(b) ==>
              (Accepts(a, request, now, staleAfter) <==> Accepts(b, request, now, staleAfter))
  {
    if i :| 0 <= i < |a| && Qualifies(a[i], request, now, staleAfter) {
      assert a[i] in multiset(b);
      var j :| 0 <= j < |b| && b[j] == a[i];
    }
    if multiset(a) == multiset(b) {
      if j :| 0 <= j < |b| && Qualifies(b[j], request, now, staleAfter) {
        assert b[j] in multiset(a);
        var i :| 0 <= i < |a| && a[i] == b[j];
      }
    }
  }

  // ---- What the gate lets through ----

  /** Of a text that is asked for and limited: both can be read, and the asked value lies within the limit. */
  predicate TextIsWithin(resource: Resource, asked: Option<string>, limit: Option<string>) {
    asked.Some? && limit.Some? ==>
      && Parse(resource, asked.value).Some? && Parse(resource, limit.value).Some?
      && I128_MIN < Parse(resource, asked.value).value <= Parse(resource, limit.value).value
  }

  predicate MapIsWithin(asked: Option<ResourceMap>, limits: Limits) {
    asked.Some? ==>
      && TextIsWithin(Cpu, asked.value.cpu, limits.maxCpu)
      && TextIsWithin(Memory, asked.value.memory, limits.maxMemory)
  }

  /** What a policy's spec permits, read off its own fields and the request's. */
  predicate Permits(spec: PolicySpec, request: Request) {
    && spec.allowedActions != [] && (forall a :: a in spec.allowedActions ==> a in SUPPORTED_ACTIONS)
    && request.kind in spec.allowedActions
    && (request.kind in WORKLOAD_ACTIONS ==>
          && request.targetKind.Some? && request.targetKind.value in spec.allowedResources
          && (forall r :: r in spec.allowedResources ==> r in SUPPORTED_RESOURCES))
    && (request.kind in {"preview_workload_resources", "apply_workload_resources"} ==>
          && request.resources.Some?
          && (spec.limits.Some? ==>
                && MapIsWithin(request.resources.value.requests, spec.limits.value)
                && MapIsWithin(request.resources.value.limits, spec.limits.value)))
  }

  lemma SideIsWithinExactlyWhen(limits: Limits, side: Option<ResourceMap>, resource: Resource)
    ensures SideViolation(limits, side, resource) == []
            <==> (side.Some? ==>
                    if resource == Cpu then TextIsWithin(Cpu, side.value.cpu, limits.maxCpu)
                    else TextIsWithin(Memory, side.value.memory, limits.maxMemory))
  {
    if side.Some? {
      var asked := if resource == Cpu then side.value.cpu else side.value.memory;
      var limit := if resource == Cpu then limits.maxCpu else limits.maxMemory;
      if asked.Some? && limit.Some? {
        LimitGateAcceptsExactlyWhen(resource, asked.value, limit.value);
      }
    }
  }

  lemma WithinLimitsExactlyWhen(limits: Limits, r: WorkloadResources)
    ensures LimitViolations(limits, r) == [] <==> MapIsWithin(r.requests, limits) && MapIsWithin(r.limits, limits)
  {
    SideIsWithinExactlyWhen(limits, r.requests, Cpu);
    SideIsWithinExactlyWhen(limits, r.requests, Memory);
    SideIsWithinExactlyWhen(limits, r.limits, Cpu);
    SideIsWithinExactlyWhen(limits, r.limits, Memory);
  }

  /** A request is refused by a spec unless the spec permits it in every respect. */
  lemma RefusedUnlessPermitted(spec: PolicySpec, request: Request)
    ensures RejectionReason(spec, request) == None <==> Permits(spec, request)
  {
    if spec.limits.Some? && request.resources.Some? {
      WithinLimitsExactlyWhen(spec.limits.value, request.resources.value);
    }
  }

  /** A policy qualifies exactly when its status is recent, Ready and effective and its spec permits the request. */
  lemma QualifiesExactlyWhen(policy: Policy, request: Request, now: nat, staleAfter: nat)
    ensures Qualifies(policy, request, now, staleAfter)
            <==> && policy.name.Some? && policy.status.Some?
                 && var status := policy.status.value;
                    && status.lastReconciledAtMs.Some? && now <= status.lastReconciledAtMs.value + staleAfter
                    && (exists k :: && 0 <= k < |status.conditions| && status.conditions[k].kind == ReadyCondition
                                    && EqualsIgnoringAsciiCase(status.conditions[k].status, "true"))
                    && (|| request.namespace.None?
                        || request.namespace.value in status.effectiveNamespaces
                        || (request.kind == "update_agent" && request.namespace.value == "sentinella"))
                    && Permits(policy.spec, request)
  {
    RefusedUnlessPermitted(policy.spec, request);
  }

  // ---- Agreement with the operator ----

  /** The refusals that are about the request, not about the policy's validity. */
  predicate IsRequestFault(r: Rejection) {
    match r
    case UnsupportedActions | UnsupportedResources => false
    case LimitsExceeded(violations) => InvalidLimit !in violations
    case _ => true
  }

  /** The smallest i128 doubles as the executor's mark for an unreadable quantity. */
  predicate IsSentinel(resource: Resource, limit: Option<string>) {
    limit.Some? && Parse(resource, limit.value) == Some(I128_MIN)
  }

  predicate HasSentinelLimit(spec: PolicySpec) {
    spec.limits.Some? && (IsSentinel(Cpu, spec.limits.value.maxCpu) || IsSentinel(Memory, spec.limits.value.maxMemory))
  }

  predicate BoundIsReadable(limits: Limits, resource: Resource) {
    Bound(limits, resource).Some? ==> Parse(resource, Bound(limits, resource).value).Some?
  }

  lemma SideBlamesLimitOnlyForSentinel(limits: Limits, side: Option<ResourceMap>, resource: Resource)
    requires BoundIsReadable(limits, resource)
    ensures InvalidLimit in SideViolation(limits, side, resource) ==> IsSentinel(resource, Bound(limits, resource))
  {
    if Bound(limits, resource).Some? && Asked(side, resource).Some? {
      LimitBlamedExactlyWhen(resource, Asked(side, resource).value, Bound(limits, resource).value);
    }
  }

  lemma BlameComesFromOneSide(limits: Limits, r: WorkloadResources)
    ensures InvalidLimit in LimitViolations(limits, r)
            <==> || InvalidLimit in SideViolation(limits, r.requests, Cpu)
                 || InvalidLimit in SideViolation(limits, r.limits, Cpu)
                 || InvalidLimit in SideViolation(limits, r.requests, Memory)
                 || InvalidLimit in SideViolation(limits, r.limits, Memory)
  {
  }

  lemma LimitsBlamedOnlyForSentinel(spec: PolicySpec, r: WorkloadResources)
    requires LimitsAreValid(spec.limits) && spec.limits.Some?
    ensures InvalidLimit in LimitViolations(spec.limits.value, r) ==> HasSentinelLimit(spec)
  {
    var limits := spec.limits.value;
    assert BoundIsReadable(limits, Cpu) && BoundIsReadable(limits, Memory);
    BlameComesFromOneSide(limits, r);
    SideBlamesLimitOnlyForSentinel(limits, r.requests, Cpu);
    SideBlamesLimitOnlyForSentinel(limits, r.limits, Cpu);
    SideBlamesLimitOnlyForSentinel(limits, r.requests, Memory);
    SideBlamesLimitOnlyForSentinel(limits, r.limits, Memory);
  }

  lemma WorkloadRequestImpliesWorkloadPolicy(spec: PolicySpec, request: Request)
    ensures request.kind in spec.allowedActions && request.kind in WORKLOAD_ACTIONS ==> AllowsWorkloads(spec)
  {
  }

  /** The policy lets some action through whose resources are checked against its limits. */
  predicate ChecksLimits(spec: PolicySpec) {
    PREVIEW_RESOURCES in spec.allowedActions || APPLY_RESOURCES in spec.allowedActions
  }

  /** Operator and executor agree: a valid spec is refused only for the request's own fault. */
  lemma ValidSpecIsRefusedOnlyForTheRequest(spec: PolicySpec, request: Request)
    requires SpecIsValid(spec) && !(ChecksLimits(spec) && HasSentinelLimit(spec))
    ensures RejectionReason(spec, request).Some? ==> IsRequestFault(RejectionReason(spec, request).value)
  {
    WorkloadRequestImpliesWorkloadPolicy(spec, request);
    if spec.limits.Some? && request.resources.Some? {
      LimitsBlamedOnlyForSentinel(spec, request.resources.value);
    }
  }

  /** The checked action that the policy allows. */
  function CheckedAction(spec: PolicySpec): (kind: string)
    requires ChecksLimits(spec)
    ensures kind in spec.allowedActions && kind in {PREVIEW_RESOURCES, APPLY_RESOURCES}
  {
    if PREVIEW_RESOURCES in spec.allowedActions then PREVIEW_RESOURCES else APPLY_RESOURCES
  }

  /** One unit of each resource. */
  function OneOfEach(): ResourceMap {
    ResourceMap(Format(Cpu, 1), Format(Memory, 1))
  }

  /** A request for one unit of each resource, on a workload the policy lists. */
  function ProbeRequest(spec: PolicySpec): Request
    requires ResourcesAreSupported(spec) && ChecksLimits(spec)
  {
    Request(CheckedAction(spec), None, Some(spec.allowedResources[0]), Some(WorkloadResources(Some(OneOfEach()), None)))
  }

  lemma SentinelBlamedByProbe(limits: Limits, resource: Resource)
    requires IsSentinel(resource, Bound(limits, resource))
    ensures InvalidLimit in SideViolation(limits, Some(OneOfEach()), resource)
  {
    FormatParseRoundTrip(resource, 1);
    LimitBlamedExactlyWhen(resource, Asked(Some(OneOfEach()), resource).value, Bound(limits, resource).value);
  }

  lemma CheckedActionsTargetWorkloads(kind: string)
    requires kind in {PREVIEW_RESOURCES, APPLY_RESOURCES}
    ensures kind in WORKLOAD_ACTIONS
  {
    assert WORKLOAD_ACTIONS[0] == PREVIEW_RESOURCES && WORKLOAD_ACTIONS[1] == APPLY_RESOURCES;
  }

  lemma ProbeReachesTheLimits(spec: PolicySpec)
    requires SpecIsValid(spec) && ChecksLimits(spec) && ResourcesAreSupported(spec)
    ensures RejectionReason(spec, ProbeRequest(spec)) == ResourcesRejection(spec, ProbeRequest(spec))
  {
    assert spec.allowedResources[0] in spec.allowedResources;
  }

  lemma ProbeIsRefusedForSentinel(spec: PolicySpec)
    requires SpecIsValid(spec) && HasSentinelLimit(spec) && ChecksLimits(spec) && ResourcesAreSupported(spec)
    ensures RejectionReason(spec, ProbeRequest(spec)).Some?
    ensures !IsRequestFault(RejectionReason(spec, ProbeRequest(spec)).value)
  {
    var limits, r := spec.limits.value, ProbeRequest(spec).resources.value;
    SentinelBlamedByProbe(limits, if IsSentinel(Cpu, limits.maxCpu) then Cpu else Memory);
    BlameComesFromOneSide(limits, r);
    ProbeReachesTheLimits(spec);
  }

  /**
   The agreement is exact: a valid spec is refused by some request for its own fault if and only if
   it allows previewing or applying resources and declares the smallest i128 as a limit.
   */
  lemma AgreementExactlyWhen(spec: PolicySpec)
    requires SpecIsValid(spec)
    ensures (forall request: Request ::
               RejectionReason(spec, request).Some? ==> IsRequestFault(RejectionReason(spec, request).value))
            <==> !(ChecksLimits(spec) && HasSentinelLimit(spec))
  {
    if ChecksLimits(spec) && HasSentinelLimit(spec) {
      CheckedActionsTargetWorkloads(CheckedAction(spec));
      assert AllowsWorkloads(spec);
      ProbeIsRefusedForSentinel(spec);
    } else {
      forall request: Request | RejectionReason(spec, request).Some?
        ensures IsRequestFault(RejectionReason(spec, request).value)
      {
        ValidSpecIsRefusedOnlyForTheRequest(spec, request);
      }
    }
  }

  /** A limit the operator accepts and the executor cannot tell from an unreadable one. */
  const SENTINEL_LIMIT: string := "-" + Decimal(I128_MAX + 1)

  function SentinelSpec(kind: string): PolicySpec {
    PolicySpec([kind], ["Deployment"], Some(Limits(None, Some(SENTINEL_LIMIT))))
  }

  /** Such limits exist: with this one a preview, or an application, of one byte is refused for the policy's fault. */
  lemma SentinelLimitIsRefused(kind: string)
    requires kind in {PREVIEW_RESOURCES, APPLY_RESOURCES}
    ensures var spec := SentinelSpec(kind);
            && SpecIsValid(spec) && ChecksLimits(spec)
            && RejectionReason(spec, ProbeRequest(spec)).Some?
            && !IsRequestFault(RejectionReason(spec, ProbeRequest(spec)).value)
  {
    var spec := SentinelSpec(kind);
    SmallestI128Parses();
    CheckedActionsTargetWorkloads(kind);
    assert SUPPORTED_ACTIONS[3] == PREVIEW_RESOURCES && SUPPORTED_ACTIONS[4] == APPLY_RESOURCES;
    assert SUPPORTED_RESOURCES[0] == "Deployment";
    ProbeIsRefusedForSentinel(spec);
  }
}
