/**
 The drain protocol against an API server that may answer anything: validate and refuse first,
 then cordon, then evict pod by pod, then poll until nothing drainable is left.
 */
module DrainNode {
  import opened Options
  import opened Text
  import opened ActionPolicy
  import opened PolicyGate

  const DEFAULT_TIMEOUT_SECONDS: nat := 300
  const MAX_TIMEOUT_SECONDS: nat := 3600
  const POLL_DELAY_MS: nat := 5_000
  const I64_MAX: nat := 0x7fff_ffff_ffff_ffff
  const DAEMON_SET: string := "DaemonSet"

  datatype DrainSpec = DrainSpec(
    nodeName: string, timeoutSeconds: Option<nat>, gracePeriodSeconds: Option<nat>, force: bool)

  datatype Pod = Pod(
    node: Option<string>, namespace: Option<string>, name: Option<string>, mirror: bool, ownerKinds: seq<string>)

  datatype PodRef = PodRef(namespace: string, name: string)

  function OrEmpty(s: Option<string>): string {
    match s case Some(v) => v case None => ""
  }

  function RefOf(pod: Pod): PodRef {
    PodRef(OrEmpty(pod.namespace), OrEmpty(pod.name))
  }

  // ---- Which pods may be evicted ----

  predicate IsIgnored(pod: Pod) {
    pod.mirror || DAEMON_SET in pod.ownerKinds
  }

  predicate IsUnmanaged(node: string, pod: Pod) {
    pod.node == Some(node) && !IsIgnored(pod) && pod.ownerKinds == []
  }

  /** On the node, neither mirror nor DaemonSet pod, and owned unless forced. */
  predicate MayEvict(node: string, pod: Pod, force: bool) {
    pod.node == Some(node) && !IsIgnored(pod) && (pod.ownerKinds != [] || force)
  }

  function Ignored(node: string, pods: seq<Pod>): seq<PodRef> {
    if pods == [] then []
    else
      var last := pods[|pods| - 1];
      Ignored(node, pods[..|pods| - 1]) + (if last.node == Some(node) && IsIgnored(last) then [RefOf(last)] else [])
  }

  function Unmanaged(node: string, pods: seq<Pod>): seq<PodRef> {
    if pods == [] then []
    else
      var last := pods[|pods| - 1];
      Unmanaged(node, pods[..|pods| - 1]) + (if IsUnmanaged(node, last) then [RefOf(last)] else [])
  }

  function Drainable(node: string, pods: seq<Pod>, force: bool): seq<PodRef> {
    if pods == [] then []
    else
      var last := pods[|pods| - 1];
      Drainable(node, pods[..|pods| - 1], force) + (if MayEvict(node, last, force) then [RefOf(last)] else [])
  }

  /** `classify_pods_on_node`: three lists filled in listing order. */
  method ClassifyPods(node: string, pods: seq<Pod>, force: bool)
    returns (ignored: seq<PodRef>, unmanaged: seq<PodRef>, drainable: seq<PodRef>)
    ensures ignored == Ignored(node, pods)
    ensures unmanaged == Unmanaged(node, pods)
    ensures drainable == Drainable(node, pods, force)
  {
    ignored, unmanaged, drainable := [], [], [];
    for i := 0 to |pods|
      invariant ignored == Ignored(node, pods[..i])
      invariant unmanaged == Unmanaged(node, pods[..i])
      invariant drainable == Drainable(node, pods[..i], force)
    {
      assert pods[..i + 1][..i] == pods[..i];
      var pod := pods[i];
      if pod.node != Some(node) {
        continue;
      }
      if pod.mirror || DAEMON_SET in pod.ownerKinds {
        ignored := ignored + [RefOf(pod)];
        continue;
      }
      if pod.ownerKinds == [] {
        unmanaged := unmanaged + [RefOf(pod)];
        if force {
          drainable := drainable + [RefOf(pod)];
        }
        continue;
      }
      drainable := drainable + [RefOf(pod)];
    }
    assert pods[..|pods|] == pods;
  }

  /** The identity is the pod's own namespace and name, either of them empty if the pod has none. */
  predicate Names(r: PodRef, pod: Pod) {
    && r.namespace == (match pod.namespace case Some(namespace) => namespace case None => "")
    && r.name == (match pod.name case Some(name) => name case None => "")
  }

  /** A pod that a drain of the node takes off it, read off its own fields. */
  predicate IsToBeEvicted(node: string, pod: Pod, force: bool) {
    pod.node == Some(node) && !pod.mirror && "DaemonSet" !in pod.ownerKinds && (force || pod.ownerKinds != [])
  }

  /** A pod that only a forced drain takes off. */
  predicate NeedsForce(node: string, pod: Pod) {
    pod.node == Some(node) && !pod.mirror && pod.ownerKinds == []
  }

  lemma NamedByItsRef(r: PodRef, pod: Pod)
    ensures Names(r, pod) <==> r == RefOf(pod)
  {
  }

  lemma SortedByItsOwnFields(node: string, pod: Pod, force: bool)
    ensures MayEvict(node, pod, force) <==> IsToBeEvicted(node, pod, force)
    ensures IsUnmanaged(node, pod) <==> NeedsForce(node, pod)
  {
    assert DAEMON_SET == "DaemonSet";
    assert pod.ownerKinds == [] ==> DAEMON_SET !in pod.ownerKinds;
  }

  /** An identity is drainable exactly when it is that of a listed pod to be evicted. */
  lemma {:induction false} DrainableExactlyWhen(node: string, pods: seq<Pod>, force: bool, r: PodRef)
    ensures r in Drainable(node, pods, force)
            <==> exists pod :: pod in pods && IsToBeEvicted(node, pod, force) && Names(r, pod)
  {
    if pods != [] {
      var init, last := pods[..|pods| - 1], pods[|pods| - 1];
      DrainableExactlyWhen(node, init, force, r);
      NamedByItsRef(r, last);
      SortedByItsOwnFields(node, last, force);
      assert forall pod :: pod in pods <==> pod in init || pod == last;
    }
  }

  /** Ignored are exactly the mirror and DaemonSet pods of the node. */
  lemma {:induction false} IgnoredExactlyWhen(node: string, pods: seq<Pod>, r: PodRef)
    ensures r in Ignored(node, pods)
            <==> exists pod :: && pod in pods && pod.node == Some(node) && Names(r, pod)
                               && (pod.mirror || "DaemonSet" in pod.ownerKinds)
  {
    if pods != [] {
      var init, last := pods[..|pods| - 1], pods[|pods| - 1];
      IgnoredExactlyWhen(node, init, r);
      NamedByItsRef(r, last);
      assert forall pod :: pod in pods <==> pod in init || pod == last;
    }
  }

  /** Nothing is drainable exactly when no listed pod is to be evicted. */
  lemma NothingDrainableExactlyWhen(node: string, pods: seq<Pod>, force: bool)
    ensures Drainable(node, pods, force) == [] <==> forall pod :: pod in pods ==> !IsToBeEvicted(node, pod, force)
  {
    var drainable := Drainable(node, pods, force);
    if drainable != [] {
      DrainableExactlyWhen(node, pods, force, drainable[0]);
    }
    if pod :| pod in pods && IsToBeEvicted(node, pod, force) {
      var r := PodRef(OrEmpty(pod.namespace), OrEmpty(pod.name));
      DrainableExactlyWhen(node, pods, force, r);
      assert Names(r, pod);
    }
  }

  /** Without owners, and so in need of force, exactly the pods the unmanaged list names. */
  lemma {:induction false} UnmanagedExactlyWhen(node: string, pods: seq<Pod>)
    ensures Unmanaged(node, pods) == [] <==> forall pod :: pod in pods ==> !NeedsForce(node, pod)
    ensures forall r :: r in Unmanaged(node, pods) <==>
              exists pod :: pod in pods && NeedsForce(node, pod) && Names(r, pod)
  {
    if pods != [] {
      var init, last := pods[..|pods| - 1], pods[|pods| - 1];
      UnmanagedExactlyWhen(node, init);
      NamedByItsRef(RefOf(last), last);
      SortedByItsOwnFields(node, last, false);
      assert forall pod :: pod in pods <==> pod in init || pod == last;
    }
  }

  // ---- The API server and the record of calls ----

  /** Arbitrary answers, by call: `clock(0)` is read for the deadline, `clock(k + 1)` after poll `k`. */
  datatype Api = Api(
    nodeExists: bool, firstListing: Option<seq<Pod>>, cordonSucceeds: bool,
    evictionSucceeds: nat -> bool, poll: nat -> Option<seq<Pod>>, clock: nat -> nat)

  /** The clock is monotonic and every sleep between polls lasts at least five seconds. */
  ghost predicate SleepsTakeTime(api: Api) {
    && api.clock(1) >= api.clock(0)
    && forall k: nat :: k >= 1 ==> api.clock(k + 1) >= api.clock(k) + POLL_DELAY_MS
  }

  datatype Call =
    | GetNode(ok: bool)
    | ListPods(listing: Option<seq<Pod>>)
    | Cordon(ok: bool)
    | Evict(pod: PodRef, graceSeconds: Option<nat>, ok: bool)

  predicate IsWrite(call: Call) {
    call.Cordon? || call.Evict?
  }

  function Writes(calls: seq<Call>): seq<Call> {
    if calls == [] then []
    else
      var last := calls[|calls| - 1];
      Writes(calls[..|calls| - 1]) + (if IsWrite(last) then [last] else [])
  }

  lemma {:induction false} WritesConcat(a: seq<Call>, b: seq<Call>)
    ensures Writes(a + b) == Writes(a) + Writes(b)
  {
    if b == [] {
      assert a + b == a;
    } else {
      WritesConcat(a, b[..|b| - 1]);
      assert (a + b)[..|a + b| - 1] == a + b[..|b| - 1];
    }
  }

  lemma {:induction false} OnlyReads(calls: seq<Call>)
    requires forall i :: 0 <= i < |calls| ==> !IsWrite(calls[i])
    ensures Writes(calls) == []
  {
    if calls != [] {
      OnlyReads(calls[..|calls| - 1]);
    }
  }

  lemma {:induction false} OnlyWrites(calls: seq<Call>)
    requires forall i :: 0 <= i < |calls| ==> IsWrite(calls[i])
    ensures Writes(calls) == calls
  {
    if calls != [] {
      OnlyWrites(calls[..|calls| - 1]);
    }
  }

  // ---- The protocol ----

  function TimeoutSeconds(spec: DrainSpec): Option<nat> {
    var seconds := match spec.timeoutSeconds case Some(s) => s case None => DEFAULT_TIMEOUT_SECONDS;
    if seconds == 0 || seconds > MAX_TIMEOUT_SECONDS then None else Some(seconds)
  }

  predicate GraceIsValid(spec: DrainSpec) {
    spec.gracePeriodSeconds.Some? ==> 0 < spec.gracePeriodSeconds.value <= I64_MAX
  }

  const DRAIN_REQUEST: Request := Request("drain_node", None, None, None)

  /** What must hold before anything is written. */
  predicate Cleared(spec: DrainSpec, policies: Option<seq<Policy>>, now: nat, staleAfter: nat, api: Api) {
    var node := Trim(spec.nodeName);
    && node != []
    && policies.Some? && Accepts(policies.value, Request("drain_node", None, None, None), now, staleAfter)
    && (spec.timeoutSeconds.Some? ==> 1 <= spec.timeoutSeconds.value <= 3600)
    && (spec.gracePeriodSeconds.Some? ==> 1 <= spec.gracePeriodSeconds.value < 0x8000_0000_0000_0000)
    && api.nodeExists && api.firstListing.Some?
    && (spec.force || forall pod :: pod in api.firstListing.value ==> !NeedsForce(node, pod))
  }

  /** Five minutes unless the caller says otherwise. */
  function Patience(spec: DrainSpec): nat {
    match spec.timeoutSeconds case Some(seconds) => seconds case None => 300
  }

  datatype Outcome = Failed | Drained(evicted: seq<PodRef>, remaining: seq<PodRef>)

  /** The evictions of a plan, stopping after the first refusal. */
  predicate EvictsInOrder(evictions: seq<Call>, plan: seq<PodRef>, grace: Option<nat>) {
    && |evictions| <= |plan|
    && (forall i :: 0 <= i < |evictions| ==>
          evictions[i].Evict? && evictions[i].pod == plan[i] && evictions[i].graceSeconds == grace)
    && (forall i :: 0 <= i < |evictions| - 1 ==> evictions[i].ok)
  }

  /** Each eviction was answered as the API answered it. */
  predicate AnsweredBy(evictions: seq<Call>, api: Api) {
    forall i :: 0 <= i < |evictions| ==> evictions[i].Evict? && evictions[i].ok == api.evictionSucceeds(i)
  }

  method EvictAll(plan: seq<PodRef>, grace: Option<nat>, api: Api) returns (ok: bool, evictions: seq<Call>)
    ensures EvictsInOrder(evictions, plan, grace) && AnsweredBy(evictions, api)
    ensures ok <==> AllAccepted(evictions, plan)
    ensures !ok ==> evictions != [] && !evictions[|evictions| - 1].ok
  {
    evictions := [];
    for i := 0 to |plan|
      invariant |evictions| == i && EvictsInOrder(evictions, plan, grace) && AnsweredBy(evictions, api)
      invariant forall j :: 0 <= j < i ==> evictions[j].ok
    {
      var accepted := api.evictionSucceeds(i);
      evictions := evictions + [Evict(plan[i], grace, accepted)];
      if !accepted {
        return false, evictions;
      }
    }
    ok := true;
  }

  /** What poll number `k` leaves to drain, when it answers. */
  function Left(node: string, force: bool, api: Api, k: nat): seq<PodRef>
    requires api.poll(k).Some?
  {
    Drainable(node, api.poll(k).value, force)
  }

  function PollCalls(api: Api, n: nat): seq<Call> {
    if n == 0 then [] else PollCalls(api, n - 1) + [ListPods(api.poll(n - 1))]
  }

  /** Why polling fails: no answer, an unmanaged pod without force, or pods left at the deadline. */
  predicate PollingFails(node: string, force: bool, timeoutSeconds: nat, api: Api, polls: nat) {
    polls >= 1 &&
    (|| api.poll(polls - 1).None?
     || (!force && exists pod :: pod in api.poll(polls - 1).value && NeedsForce(node, pod))
     || (&& (exists pod :: pod in api.poll(polls - 1).value && IsToBeEvicted(node, pod, force))
         && api.clock(polls) >= api.clock(0) + 1_000 * timeoutSeconds))
  }

  /** What one poll means: no use going on, nothing left, or these left. */
  datatype Verdict = Hopeless | Gone | Waiting(left: seq<PodRef>)

  method JudgePoll(node: string, force: bool, listing: Option<seq<Pod>>) returns (verdict: Verdict)
    ensures verdict == Hopeless <==>
              || listing.None?
              || (!force && exists pod :: pod in listing.value && NeedsForce(node, pod))
    ensures verdict == Gone ==> Drainable(node, listing.value, force) == []
    ensures verdict.Waiting? ==>
              && verdict.left == Drainable(node, listing.value, force) != []
              && exists pod :: pod in listing.value && IsToBeEvicted(node, pod, force)
  {
    if listing.None? {
      return Hopeless;
    }
    var ignored, unmanaged, left := ClassifyPods(node, listing.value, force);
    UnmanagedExactlyWhen(node, listing.value);
    if unmanaged != [] && !force {
      return Hopeless;
    }
    NothingDrainableExactlyWhen(node, listing.value, force);
    verdict := if left == [] then Gone else Waiting(left);
  }

  /** Five seconds a poll leave room for no more polls than this. */
  lemma PollsAreBounded(elapsed: nat, polls: nat, timeoutSeconds: nat)
    requires polls >= 1 ==> POLL_DELAY_MS * (polls - 1) <= elapsed < 1_000 * timeoutSeconds
    ensures polls <= (timeoutSeconds + 4) / 5
  {
  }

  /** The polling loop: it ends after at most ceil(timeout / 5) + 1 listings. */
  method PollUntilDrained(node: string, force: bool, timeoutSeconds: nat, api: Api)
    returns (drained: bool, remaining: seq<PodRef>, polls: nat)
    requires timeoutSeconds > 0 && SleepsTakeTime(api)
    ensures 1 <= polls <= (timeoutSeconds + 4) / 5 + 1
    ensures drained ==> api.poll(polls - 1).Some? && Left(node, force, api, polls - 1) == []
    ensures drained && !force ==> forall pod :: pod in api.poll(polls - 1).value ==> !NeedsForce(node, pod)
    ensures drained ==> forall k: nat :: k < polls - 1 ==> api.poll(k).Some? && Left(node, force, api, k) != []
    ensures drained ==> remaining == if polls == 1 then [] else Left(node, force, api, polls - 2)
    ensures !drained ==> PollingFails(node, force, timeoutSeconds, api, polls)
  {
    var deadline := api.clock(0) + 1_000 * timeoutSeconds;
    remaining, polls := [], 0;
    while true
      invariant polls >= 1 ==> api.clock(0) + POLL_DELAY_MS * (polls - 1) <= api.clock(polls) < deadline
      invariant forall k: nat :: k < polls ==> api.poll(k).Some? && Left(node, force, api, k) != []
      invariant remaining == if polls == 0 then [] else Left(node, force, api, polls - 1)
      decreases (timeoutSeconds + 4) / 5 + 1 - polls
    {
      PollsAreBounded(if polls == 0 then 0 else api.clock(polls) - api.clock(0), polls, timeoutSeconds);
      var verdict := JudgePoll(node, force, api.poll(polls));
      polls := polls + 1;
      match verdict
      case Hopeless =>
        return false, remaining, polls;
      case Gone =>
        return true, remaining, polls;
      case Waiting(left) =>
        remaining := left;
        if api.clock(polls) >= deadline {
          return false, remaining, polls;
        }
    }
  }

  lemma {:induction false} PollCallsAreReads(api: Api, n: nat)
    ensures |PollCalls(api, n)| == n && Writes(PollCalls(api, n)) == []
  {
    if n > 0 {
      PollCallsAreReads(api, n - 1);
      assert PollCalls(api, n)[..n - 1] == PollCalls(api, n - 1);
    }
  }

  /** The two reads that precede every write, both successful. */
  function Preamble(api: Api): seq<Call> {
    [GetNode(true), ListPods(api.firstListing)]
  }

  predicate AllAccepted(evictions: seq<Call>, plan: seq<PodRef>) {
    |evictions| == |plan| && forall i :: 0 <= i < |evictions| ==> evictions[i].Evict? && evictions[i].ok
  }

  /**
   The calls of a cleared drain: the node and pod reads, the cordon, evictions of the plan in order,
   and polls, which start only once every eviction was accepted and are bounded by the timeout.
   */
  predicate RunsThePlan(calls: seq<Call>, evictions: seq<Call>, polls: nat, plan: seq<PodRef>, grace: Option<nat>,
                        timeoutSeconds: nat, api: Api) {
    && calls == Preamble(api) + [Cordon(api.cordonSucceeds)] + evictions + PollCalls(api, polls)
    && EvictsInOrder(evictions, plan, grace)
    && (!api.cordonSucceeds ==> evictions == [] && polls == 0)
    && (polls > 0 ==> AllAccepted(evictions, plan))
    && polls <= (timeoutSeconds + 4) / 5 + 1
  }

  function Plan(spec: DrainSpec, api: Api): seq<PodRef>
    requires api.firstListing.Some?
  {
    Drainable(Trim(spec.nodeName), api.firstListing.value, spec.force)
  }

  /** Each listed pod to be evicted was: its own namespace and name were accepted for eviction. */
  predicate EveryPodWasEvicted(evictions: seq<Call>, node: string, pods: seq<Pod>, force: bool) {
    forall pod :: pod in pods && IsToBeEvicted(node, pod, force) ==>
      exists i :: 0 <= i < |evictions| && evictions[i].Evict? && evictions[i].ok && Names(evictions[i].pod, pod)
  }

  lemma AcceptedPlanEvictsEveryPod(evictions: seq<Call>, node: string, pods: seq<Pod>, force: bool, grace: Option<nat>)
    requires EvictsInOrder(evictions, Drainable(node, pods, force), grace)
    requires AllAccepted(evictions, Drainable(node, pods, force))
    ensures EveryPodWasEvicted(evictions, node, pods, force)
  {
    var plan := Drainable(node, pods, force);
    forall pod | pod in pods && IsToBeEvicted(node, pod, force)
      ensures exists i :: 0 <= i < |evictions| && evictions[i].Evict? && evictions[i].ok && Names(evictions[i].pod, pod)
    {
      var r := PodRef(OrEmpty(pod.namespace), OrEmpty(pod.name));
      assert Names(r, pod);
      DrainableExactlyWhen(node, pods, force, r);
      var i :| 0 <= i < |plan| && plan[i] == r;
      assert evictions[i].pod == r;
    }
  }

  /** What "ok" tells the caller: the last poll answered and left nothing drainable or, unless forced, unmanaged. */
  predicate PolledEmpty(node: string, force: bool, api: Api, polls: nat) {
    && polls >= 1 && api.poll(polls - 1).Some?
    && (forall pod :: pod in api.poll(polls - 1).value ==> !IsToBeEvicted(node, pod, force))
    && (!force ==> forall pod :: pod in api.poll(polls - 1).value ==> !NeedsForce(node, pod))
  }

  /** The reported remainder is the one before last poll's: empty only when the first poll already was. */
  predicate RemainderIsStale(remaining: seq<PodRef>, node: string, force: bool, api: Api, polls: nat) {
    if polls <= 1 then remaining == []
    else api.poll(polls - 2).Some? && remaining == Left(node, force, api, polls - 2) != []
  }

  /** The reading half: validate, ask the gate, and list what is to be evicted. */
  method Clear(spec: DrainSpec, policies: Option<seq<Policy>>, now: nat, staleAfter: nat, api: Api)
    returns (plan: Option<seq<PodRef>>, calls: seq<Call>)
    ensures plan.Some? <==> Cleared(spec, policies, now, staleAfter, api)
    ensures plan.Some? ==> plan.value == Plan(spec, api) && calls == Preamble(api)
    ensures plan.None? ==> Writes(calls) == []
  {
    var node := Trim(spec.nodeName);
    plan, calls := None, [];
    if node == [] || policies.None? {
      return;
    }
    var selected, reasons := SelectPolicy(policies.value, DRAIN_REQUEST, now, staleAfter);
    if selected.None? || TimeoutSeconds(spec).None? || !GraceIsValid(spec) {
      return;
    }
    calls := [GetNode(api.nodeExists)];
    OnlyReads(calls);
    if !api.nodeExists {
      return;
    }
    calls := [GetNode(true), ListPods(api.firstListing)];
    OnlyReads(calls);
    if api.firstListing.None? {
      return;
    }
    var ignored, unmanaged, drainable := ClassifyPods(node, api.firstListing.value, spec.force);
    UnmanagedExactlyWhen(node, api.firstListing.value);
    if !spec.force && unmanaged != [] {
      return;
    }
    plan := Some(drainable);
  }

  predicate EvictionFails(api: Api, planned: nat) {
    exists i :: 0 <= i < planned && !api.evictionSucceeds(i)
  }

  /** `drain_node`. */
  method Drain(spec: DrainSpec, policies: Option<seq<Policy>>, now: nat, staleAfter: nat, api: Api)
    returns (outcome: Outcome, calls: seq<Call>, ghost evictions: seq<Call>, ghost polls: nat)
    requires SleepsTakeTime(api)
    ensures !Cleared(spec, policies, now, staleAfter, api) ==> outcome == Failed && Writes(calls) == []
    ensures Cleared(spec, policies, now, staleAfter, api) ==>
              RunsThePlan(calls, evictions, polls, Plan(spec, api), spec.gracePeriodSeconds,
                          Patience(spec), api)
    ensures outcome.Drained? ==>
              && Cleared(spec, policies, now, staleAfter, api) && outcome.evicted == Plan(spec, api)
              && EveryPodWasEvicted(evictions, Trim(spec.nodeName), api.firstListing.value, spec.force)
              && PolledEmpty(Trim(spec.nodeName), spec.force, api, polls)
              && RemainderIsStale(outcome.remaining, Trim(spec.nodeName), spec.force, api, polls)
    ensures outcome.Failed? && Cleared(spec, policies, now, staleAfter, api) ==>
              || !api.cordonSucceeds || EvictionFails(api, |Plan(spec, api)|)
              || PollingFails(Trim(spec.nodeName), spec.force, Patience(spec), api, polls)
  {
    evictions, polls := [], 0;
    var plan;
    plan, calls := Clear(spec, policies, now, staleAfter, api);
    if plan.None? {
      return Failed, calls, evictions, polls;
    }
    var node, timeout := Trim(spec.nodeName), TimeoutSeconds(spec).value;
    outcome, calls, evictions, polls :=
      CordonAndEvict(calls, node, plan.value, spec.gracePeriodSeconds, spec.force, timeout, api);
    if outcome.Drained? {
      AcceptedPlanEvictsEveryPod(evictions, node, api.firstListing.value, spec.force, spec.gracePeriodSeconds);
    }
  }

  /** The writing half, once everything is cleared. */
  method CordonAndEvict(before: seq<Call>, node: string, plan: seq<PodRef>, grace: Option<nat>, force: bool,
                        timeoutSeconds: nat, api: Api)
    returns (outcome: Outcome, calls: seq<Call>, ghost evictions: seq<Call>, ghost polls: nat)
    requires SleepsTakeTime(api) && before == Preamble(api) && timeoutSeconds > 0
    ensures RunsThePlan(calls, evictions, polls, plan, grace, timeoutSeconds, api)
    ensures outcome.Drained? ==>
              && outcome.evicted == plan && AllAccepted(evictions, plan)
              && PolledEmpty(node, force, api, polls)
              && RemainderIsStale(outcome.remaining, node, force, api, polls)
    ensures outcome.Failed? ==>
              || !api.cordonSucceeds || EvictionFails(api, |plan|)
              || PollingFails(node, force, timeoutSeconds, api, polls)
  {
    outcome, calls, evictions, polls := Failed, before + [Cordon(api.cordonSucceeds)], [], 0;
    if !api.cordonSucceeds {
      return;
    }
    var accepted, made := EvictAll(plan, grace, api);
    calls, evictions := calls + made, made;
    if !accepted {
      assert !api.evictionSucceeds(|made| - 1);
      return;
    }
    var drained, remaining, n := PollUntilDrained(node, force, timeoutSeconds, api);
    calls, polls := calls + PollCalls(api, n), n;
    if drained {
      NothingDrainableExactlyWhen(node, api.poll(n - 1).value, force);
      outcome := Drained(plan, remaining);
    }
  }

  // ---- What the calls mean ----

  /** In the calls of a cleared drain the cordon is the first write and the evictions are the rest. */
  lemma CordonIsTheFirstWrite(calls: seq<Call>, evictions: seq<Call>, polls: nat, plan: seq<PodRef>, grace: Option<nat>,
                              timeoutSeconds: nat, api: Api)
    requires RunsThePlan(calls, evictions, polls, plan, grace, timeoutSeconds, api)
    ensures Writes(calls) == [Cordon(api.cordonSucceeds)] + evictions
    ensures Writes(calls[..2]) == []
  {
    var cordon := [Cordon(api.cordonSucceeds)];
    OnlyReads(Preamble(api));
    OnlyWrites(cordon);
    OnlyWrites(evictions);
    PollCallsAreReads(api, polls);
    WritesOfFour(Preamble(api), cordon, evictions, PollCalls(api, polls));
    assert calls[..2] == Preamble(api);
  }

  lemma WritesOfFour(a: seq<Call>, b: seq<Call>, c: seq<Call>, d: seq<Call>)
    ensures Writes(a + b + c + d) == Writes(a) + Writes(b) + Writes(c) + Writes(d)
  {
    WritesConcat(a, b);
    WritesConcat(a + b, c);
    WritesConcat(a + b + c, d);
  }

  /** Every evicted identity is that of a listed pod on the node: no mirror or DaemonSet pod, owned unless forced. */
  lemma OnlyEvictablePodsAreEvicted(evictions: seq<Call>, node: string, pods: seq<Pod>, force: bool,
                                    grace: Option<nat>, i: nat)
    requires EvictsInOrder(evictions, Drainable(node, pods, force), grace) && i < |evictions|
    ensures evictions[i].Evict? && exists pod ::
              && pod in pods && evictions[i].pod.namespace == OrEmpty(pod.namespace)
              && evictions[i].pod.name == OrEmpty(pod.name) && pod.node == Some(node)
              && !pod.mirror && "DaemonSet" !in pod.ownerKinds && (pod.ownerKinds != [] || force)
  {
    var plan := Drainable(node, pods, force);
    assert plan[i] in plan;
    DrainableExactlyWhen(node, pods, force, plan[i]);
    var pod :| pod in pods && IsToBeEvicted(node, pod, force) && Names(plan[i], pod);
  }

  /** When identities are unique in the listing, no protected pod is evicted. */
  lemma ProtectedPodsAreNeverEvicted(evictions: seq<Call>, node: string, pods: seq<Pod>, force: bool,
                                     grace: Option<nat>, protected: Pod)
    requires EvictsInOrder(evictions, Drainable(node, pods, force), grace)
    requires forall p, q :: p in pods && q in pods && p.namespace == q.namespace && p.name == q.name ==> p == q
    requires forall p :: p in pods ==> p.namespace.Some? && p.name.Some?
    requires protected in pods && !IsToBeEvicted(node, protected, force)
    ensures forall i :: 0 <= i < |evictions| ==> !Names(evictions[i].pod, protected)
  {
    forall i | 0 <= i < |evictions| ensures !Names(evictions[i].pod, protected) {
      OnlyEvictablePodsAreEvicted(evictions, node, pods, force, grace, i);
    }
  }
}
