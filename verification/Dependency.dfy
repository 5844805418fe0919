/** The records behind dependency edges: endpoint resolution and edge identity. */
module DependencyRecords {
  import opened Options
  import opened Text

  datatype Hint = Hint(
    namespace: Option<string>, podName: Option<string>,
    workloadKind: Option<string>, workloadName: Option<string>)

  datatype Record = Record(
    srcIp: string, dstIp: string, srcHint: Option<Hint>, dstHint: Option<Hint>,
    protocol: string, destinationPort: nat,
    bytes: nat, packets: nat, connections: nat, timestamp: nat)

  datatype PodIpInfo = PodIpInfo(
    namespace: string, podName: string,
    workloadKind: Option<string>, workloadName: Option<string>, ip: string)

  datatype ServiceIpInfo = ServiceIpInfo(namespace: string, serviceName: string, ip: string)

  /** An endpoint as reported; a normalised endpoint is also the key it is grouped by. */
  datatype Endpoint = Endpoint(
    kind: string, namespace: Option<string>, name: Option<string>,
    workloadKind: Option<string>, workloadName: Option<string>, ip: Option<string>)

  datatype EdgeKey = EdgeKey(
    from: Endpoint, to: Endpoint, protocol: string, destinationPort: nat, direction: string)

  /** What one record contributes to its edge. */
  datatype Flow = Flow(key: EdgeKey, bytes: nat, packets: nat, connections: nat, timestamp: nat)

  /** The pod and service indexes, Unicode case mapping and the JSON record reader. */
  datatype Env = Env(
    pods: map<string, PodIpInfo>, services: map<string, ServiceIpInfo>,
    lower: string -> string, upper: string -> string,
    readRecord: string -> Option<Record>)

  function ResolveEndpoint(env: Env, ip: string, hint: Option<Hint>): Endpoint {
    if ip in env.pods then
      var pod := env.pods[ip];
      Endpoint("pod", Some(pod.namespace), Some(pod.podName), pod.workloadKind, pod.workloadName, Some(pod.ip))
    else if ip in env.services then
      var service := env.services[ip];
      Endpoint("service", Some(service.namespace), Some(service.serviceName), None, None, Some(service.ip))
    else if hint.Some? && HasIdentity(hint.value) then
      var h := hint.value;
      Endpoint("pod", h.namespace, h.podName, h.workloadKind, h.workloadName, Some(ip))
    else
      Endpoint("unknown", None, None, None, None, Some(ip))
  }

  predicate HasIdentity(hint: Hint) {
    hint.namespace.Some? || hint.podName.Some? || hint.workloadKind.Some? || hint.workloadName.Some?
  }

  function LowerOption(env: Env, value: Option<string>): Option<string> {
    match value case None => None case Some(v) => Some(env.lower(v))
  }

  function NormalizeEndpoint(env: Env, e: Endpoint): Endpoint {
    Endpoint(env.lower(e.kind), LowerOption(env, e.namespace), LowerOption(env, e.name),
             LowerOption(env, e.workloadKind), LowerOption(env, e.workloadName), e.ip)
  }

  function FlowOf(env: Env, r: Record): Flow {
    var key := EdgeKey(
      NormalizeEndpoint(env, ResolveEndpoint(env, r.srcIp, r.srcHint)),
      NormalizeEndpoint(env, ResolveEndpoint(env, r.dstIp, r.dstHint)),
      env.upper(r.protocol), r.destinationPort, "egress");
    Flow(key, r.bytes, r.packets, r.connections, r.timestamp)
  }

  /** What an endpoint says of one side of a record: the pod there, or the service, or the hint, or the address. */
  predicate IsSide(env: Env, e: Endpoint, ip: string, hint: Option<Hint>) {
    if ip in env.pods then
      var pod := env.pods[ip];
      && e.kind == env.lower("pod") && e.namespace == Some(env.lower(pod.namespace))
      && e.name == Some(env.lower(pod.podName)) && IsLowered(env, e.workloadKind, pod.workloadKind)
      && IsLowered(env, e.workloadName, pod.workloadName) && e.ip == Some(pod.ip)
    else if ip in env.services then
      var service := env.services[ip];
      && e.kind == env.lower("service") && e.namespace == Some(env.lower(service.namespace))
      && e.name == Some(env.lower(service.serviceName)) && e.workloadKind == None && e.workloadName == None
      && e.ip == Some(service.ip)
    else if && hint.Some?
            && (|| hint.value.namespace.Some? || hint.value.podName.Some?
                || hint.value.workloadKind.Some? || hint.value.workloadName.Some?) then
      var h := hint.value;
      && e.kind == env.lower("pod") && IsLowered(env, e.namespace, h.namespace)
      && IsLowered(env, e.name, h.podName) && IsLowered(env, e.workloadKind, h.workloadKind)
      && IsLowered(env, e.workloadName, h.workloadName) && e.ip == Some(ip)
    else
      && e.kind == env.lower("unknown") && e.namespace == None && e.name == None
      && e.workloadKind == None && e.workloadName == None && e.ip == Some(ip)
  }

  predicate IsLowered(env: Env, reported: Option<string>, value: Option<string>) {
    && (reported.Some? <==> value.Some?)
    && (value.Some? ==> reported.value == env.lower(value.value))
  }

  lemma SideExactlyWhen(env: Env, e: Endpoint, ip: string, hint: Option<Hint>)
    ensures IsSide(env, e, ip, hint) <==> e == NormalizeEndpoint(env, ResolveEndpoint(env, ip, hint))
  {
  }

  /** The edge a record belongs to: its source, its destination, and its own protocol and port. */
  predicate IsEdgeOf(env: Env, key: EdgeKey, r: Record) {
    && IsSide(env, key.from, r.srcIp, r.srcHint) && IsSide(env, key.to, r.dstIp, r.dstHint)
    && key.protocol == env.upper(r.protocol) && key.destinationPort == r.destinationPort && key.direction == "egress"
  }

  /** A flow runs from its record's source to its destination and carries the record's own numbers. */
  lemma FlowIsTheRecords(env: Env, r: Record, key: EdgeKey)
    ensures IsEdgeOf(env, key, r) <==> key == FlowOf(env, r).key
    ensures FlowOf(env, r).bytes == r.bytes && FlowOf(env, r).packets == r.packets
    ensures FlowOf(env, r).connections == r.connections && FlowOf(env, r).timestamp == r.timestamp
  {
    SideExactlyWhen(env, key.from, r.srcIp, r.srcHint);
    SideExactlyWhen(env, key.to, r.dstIp, r.dstHint);
  }

  datatype Parsed = Blank | Unreadable | Event(flow: Flow)

  /** What one buffered line holds. */
  function ParseLine(env: Env, line: string): Parsed {
    var trimmed := Trim(line);
    if trimmed == [] then Blank
    else
      match env.readRecord(trimmed)
      case None => Unreadable
      case Some(record) => Event(FlowOf(env, record))
  }
}

/**
 Dependency edge aggregation. The simple form: keys are admitted first come, first served while
 the caps leave room, and an admitted key's edge summarises every flow with that key. The loop
 that the agent runs keeps two linked maps and running totals instead.
 */
module DependencyAggregation {
  import opened Collections
  import opened Options
  import opened DependencyRecords

  /** What a line holds; the agent passes `ParseLine` with its indexes. */
  type LineReader<!L> = L -> Parsed

  const MAX_TETRAGON_LINES: nat := 20_000
  const MAX_DEP_EDGES_PER_SNAPSHOT: nat := 2_000
  const MAX_DEP_FANOUT_PER_SOURCE: nat := 200
  const U64_MAX: nat := 0xffff_ffff_ffff_ffff

  // ---- The plain group-by ----

  datatype Measure = Bytes | Packets | Connections

  function Get(f: Flow, m: Measure): nat {
    match m case Bytes => f.bytes case Packets => f.packets case Connections => f.connections
  }

  /** The mathematical sum of a measure over the flows of one key. */
  function Sum(flows: seq<Flow>, key: EdgeKey, m: Measure): nat {
    if flows == [] then 0
    else
      var last := flows[|flows| - 1];
      Sum(flows[..|flows| - 1], key, m) + (if last.key == key then Get(last, m) else 0)
  }

  function Keys(flows: seq<Flow>): set<EdgeKey> {
    set i | 0 <= i < |flows| :: flows[i].key
  }

  predicate IsEarliest(flows: seq<Flow>, key: EdgeKey, t: nat) {
    && (exists i :: 0 <= i < |flows| && flows[i].key == key && flows[i].timestamp == t)
    && (forall i :: 0 <= i < |flows| && flows[i].key == key ==> t <= flows[i].timestamp)
  }

  predicate IsLatest(flows: seq<Flow>, key: EdgeKey, t: nat) {
    && (exists i :: 0 <= i < |flows| && flows[i].key == key && flows[i].timestamp == t)
    && (forall i :: 0 <= i < |flows| && flows[i].key == key ==> flows[i].timestamp <= t)
  }

  datatype EdgeTotals = EdgeTotals(bytes: nat, packets: nat, connections: nat, firstSeen: nat, lastSeen: nat)

  function Saturate(n: nat): nat {
    if n <= U64_MAX then n else U64_MAX
  }

  function SaturatingAdd(a: nat, b: nat): nat {
    Saturate(a + b)
  }

  /** `totals` is exactly what all the flows of `key` add up to. */
  predicate Summarises(totals: EdgeTotals, flows: seq<Flow>, key: EdgeKey) {
    && totals.bytes == Saturate(Sum(flows, key, Bytes))
    && totals.packets == Saturate(Sum(flows, key, Packets))
    && totals.connections == Saturate(Sum(flows, key, Connections))
    && IsEarliest(flows, key, totals.firstSeen)
    && IsLatest(flows, key, totals.lastSeen)
  }

  // ---- First-come admission under the caps ----

  function Targets(keys: set<EdgeKey>, source: Endpoint): set<Endpoint> {
    set k | k in keys && k.from == source :: k.to
  }

  /** Adding this key would respect both caps. */
  predicate HasRoom(keys: set<EdgeKey>, key: EdgeKey) {
    && |keys| < MAX_DEP_EDGES_PER_SNAPSHOT
    && (key.to in Targets(keys, key.from) || |Targets(keys, key.from)| < MAX_DEP_FANOUT_PER_SOURCE)
  }

  function Admitted(flows: seq<Flow>): set<EdgeKey> {
    if flows == [] then {}
    else
      var before, key := Admitted(flows[..|flows| - 1]), flows[|flows| - 1].key;
      if key in before || HasRoom(before, key) then before + {key} else before
  }

  // ---- Lines ----

  /** The flows on a run of lines, in order. */
  function Flows<L>(read: LineReader<L>, lines: seq<L>): seq<Flow> {
    if lines == [] then []
    else
      Flows(read, lines[..|lines| - 1]) + LineFlows(read, lines[|lines| - 1])
  }

  function LineFlows<L>(read: LineReader<L>, line: L): seq<Flow> {
    FlowsOn(read(line))
  }

  function FlowsOn(line: Parsed): seq<Flow> {
    if line.Event? then [line.flow] else []
  }

  /** Only the first 20,000 lines are looked at. */
  function Considered<L>(lines: seq<L>): seq<L> {
    if |lines| <= MAX_TETRAGON_LINES then lines else lines[..MAX_TETRAGON_LINES]
  }

  datatype Outcome = BlankLine | ParseFailure | LineCapped | EdgeCapped | FanoutCapped | Merged

  /** What becomes of a flow when these keys are admitted. */
  function Admission(keys: set<EdgeKey>, key: EdgeKey): Outcome {
    if key in keys || HasRoom(keys, key) then Merged
    else if |keys| >= MAX_DEP_EDGES_PER_SNAPSHOT then EdgeCapped
    else FanoutCapped
  }

  /** What becomes of a considered line when these keys are admitted. */
  function ParsedOutcome(line: Parsed, keys: set<EdgeKey>): Outcome {
    match line
    case Blank => BlankLine
    case Unreadable => ParseFailure
    case Event(flow) => Admission(keys, flow.key)
  }

  /** What becomes of a line that follows `before`. */
  function OutcomeAfter<L>(read: LineReader<L>, before: seq<L>, line: L): Outcome {
    if |before| >= MAX_TETRAGON_LINES then LineCapped
    else ParsedOutcome(read(line), Admitted(Flows(read, before)))
  }

  /** Beyond 20,000 lines nothing is looked at, and short of that only what can be read counts. */
  lemma LineOutcome<L>(read: LineReader<L>, before: seq<L>, line: L)
    ensures OutcomeAfter(read, before, line) == LineCapped <==> |before| >= 20_000
    ensures |before| < 20_000 ==>
              && (OutcomeAfter(read, before, line) == BlankLine <==> read(line).Blank?)
              && (OutcomeAfter(read, before, line) == ParseFailure <==> read(line).Unreadable?)
  {
  }

  /** A flow is merged if its key is known or has room, and otherwise dropped for the cap that is full, edges first. */
  lemma FlowOutcome(keys: set<EdgeKey>, key: EdgeKey)
    ensures Admission(keys, key)
         == if key in keys then Merged
            else if |keys| >= 2_000 then EdgeCapped
            else if |Targets(keys, key.from)| >= 200 && key.to !in Targets(keys, key.from) then FanoutCapped
            else Merged
  {
  }

  /** How many of the lines had a given outcome. */
  function Count<L>(read: LineReader<L>, lines: seq<L>, outcome: Outcome): nat {
    if lines == [] then 0
    else
      var before := lines[..|lines| - 1];
      Count(read, before, outcome) + (if OutcomeAfter(read, before, lines[|lines| - 1]) == outcome then 1 else 0)
  }

  /** Every line is counted under exactly one outcome. */
  lemma {:induction false} OutcomesPartitionLines<L>(read: LineReader<L>, lines: seq<L>)
    ensures Count(read, lines, BlankLine) + Count(read, lines, ParseFailure) + Count(read, lines, LineCapped)
          + Count(read, lines, EdgeCapped) + Count(read, lines, FanoutCapped) + Count(read, lines, Merged)
         == |lines|
  {
    if lines != [] {
      OutcomesPartitionLines(read, lines[..|lines| - 1]);
    }
  }

  function Dropped<L>(read: LineReader<L>, lines: seq<L>): nat {
    Count(read, lines, LineCapped) + Count(read, lines, EdgeCapped) + Count(read, lines, FanoutCapped)
  }

  // ---- Admission is all or nothing ----

  lemma TargetsMonotone(small: set<EdgeKey>, large: set<EdgeKey>, source: Endpoint)
    requires small <= large
    ensures Targets(small, source) <= Targets(large, source)
    ensures |Targets(small, source)| <= |Targets(large, source)|
  {
    SubsetCardinality(Targets(small, source), Targets(large, source));
  }

  lemma TargetsOfInsert(keys: set<EdgeKey>, key: EdgeKey, source: Endpoint)
    ensures Targets(keys + {key}, source)
         == if key.from == source then Targets(keys, source) + {key.to} else Targets(keys, source)
  {
    assert forall k :: k in keys + {key} <==> k in keys || k == key;
    assert key in keys + {key};
    assert forall k :: k in keys ==> k in keys + {key};
  }

  /** A key rejected once is rejected forever: whatever admission does next leaves it no room. */
  lemma {:induction false} RejectedForever(flows: seq<Flow>, key: EdgeKey)
    requires key in Keys(flows) && key !in Admitted(flows)
    ensures !HasRoom(Admitted(flows), key)
  {
    var init, next := flows[..|flows| - 1], flows[|flows| - 1].key;
    var before := Admitted(init);
    if next != key {
      assert key in Keys(init);
      RejectedForever(init, key);
      if next in before || HasRoom(before, next) {
        SubsetCardinality(before, before + {next});
        TargetsOfInsert(before, next, key.from);
        TargetsMonotone(before, before + {next}, key.from);
      }
    }
  }

  /** The caps hold after any sequence of flows, and only keys that occur are admitted. */
  lemma {:induction false} AdmittedWithinCaps(flows: seq<Flow>, source: Endpoint)
    ensures Admitted(flows) <= Keys(flows)
    ensures |Admitted(flows)| <= MAX_DEP_EDGES_PER_SNAPSHOT
    ensures |Targets(Admitted(flows), source)| <= MAX_DEP_FANOUT_PER_SOURCE
  {
    if flows == [] {
      assert Targets({}, source) == {};
    } else {
      var init, key := flows[..|flows| - 1], flows[|flows| - 1].key;
      AdmittedWithinCaps(init, source);
      assert flows[|flows| - 1].key in Keys(flows);
      assert Keys(init) <= Keys(flows);
      TargetsOfInsert(Admitted(init), key, source);
      assert key in Admitted(init) ==> Admitted(init) + {key} == Admitted(init);
    }
  }

  // ---- The running totals ----

  lemma SumSnoc(flows: seq<Flow>, f: Flow, key: EdgeKey, m: Measure)
    ensures Sum(flows + [f], key, m) == Sum(flows, key, m) + (if f.key == key then Get(f, m) else 0)
  {
    assert (flows + [f])[..|flows + [f]| - 1] == flows;
  }

  lemma SumsSnoc(flows: seq<Flow>, f: Flow, key: EdgeKey)
    ensures forall m :: Sum(flows + [f], key, m) == Sum(flows, key, m) + (if f.key == key then Get(f, m) else 0)
  {
    forall m ensures Sum(flows + [f], key, m) == Sum(flows, key, m) + (if f.key == key then Get(f, m) else 0) {
      SumSnoc(flows, f, key, m);
    }
  }

  lemma {:induction false} SumOfAbsentKey(flows: seq<Flow>, key: EdgeKey, m: Measure)
    requires key !in Keys(flows)
    ensures Sum(flows, key, m) == 0
  {
    if flows != [] {
      var init := flows[..|flows| - 1];
      assert forall i :: 0 <= i < |init| ==> init[i] == flows[i];
      assert flows[|flows| - 1].key in Keys(flows);
      SumOfAbsentKey(init, key, m);
    }
  }

  function NewEdge(f: Flow): EdgeTotals {
    EdgeTotals(0, 0, 0, f.timestamp, f.timestamp)
  }

  function AddFlow(t: EdgeTotals, f: Flow): EdgeTotals {
    EdgeTotals(
      SaturatingAdd(t.bytes, f.bytes), SaturatingAdd(t.packets, f.packets), SaturatingAdd(t.connections, f.connections),
      if f.timestamp < t.firstSeen then f.timestamp else t.firstSeen,
      if f.timestamp > t.lastSeen then f.timestamp else t.lastSeen)
  }

  lemma FirstFlowSum(flows: seq<Flow>, f: Flow, m: Measure)
    requires f.key !in Keys(flows)
    ensures Sum(flows + [f], f.key, m) == Get(f, m)
  {
    SumSnoc(flows, f, f.key, m);
    SumOfAbsentKey(flows, f.key, m);
  }

  lemma FirstFlowTimes(flows: seq<Flow>, f: Flow)
    requires f.key !in Keys(flows)
    ensures IsEarliest(flows + [f], f.key, f.timestamp) && IsLatest(flows + [f], f.key, f.timestamp)
  {
    var all := flows + [f];
    assert all[|flows|] == f;
    assert forall i :: 0 <= i < |flows| ==> flows[i].key in Keys(flows) && all[i] == flows[i];
  }

  lemma AddFlowToNewEdge(flows: seq<Flow>, f: Flow)
    requires f.key !in Keys(flows)
    ensures Summarises(AddFlow(NewEdge(f), f), flows + [f], f.key)
  {
    FirstFlowSum(flows, f, Bytes);
    FirstFlowSum(flows, f, Packets);
    FirstFlowSum(flows, f, Connections);
    FirstFlowTimes(flows, f);
  }

  lemma AddFlowToKnownEdge(t: EdgeTotals, flows: seq<Flow>, f: Flow)
    requires Summarises(t, flows, f.key)
    ensures Summarises(AddFlow(t, f), flows + [f], f.key)
  {
    SumsSnoc(flows, f, f.key);
    var all := flows + [f];
    assert all[|flows|] == f;
    assert forall i :: 0 <= i < |flows| ==> all[i] == flows[i];
  }

  lemma OtherEdgesUnchanged(t: EdgeTotals, flows: seq<Flow>, f: Flow, key: EdgeKey)
    requires Summarises(t, flows, key) && key != f.key
    ensures Summarises(t, flows + [f], key)
  {
    SumsSnoc(flows, f, key);
    var all := flows + [f];
    assert all[|flows|] == f;
    assert forall i :: 0 <= i < |flows| ==> all[i] == flows[i];
  }

  // ---- The two linked maps ----

  /** `fanout[s]` is the set of targets of the aggregated keys with source `s`, and nothing else. */
  predicate FanoutMatches(fanout: map<Endpoint, set<Endpoint>>, keys: set<EdgeKey>) {
    && fanout.Keys == (set k | k in keys :: k.from)
    && forall s :: s in fanout ==> fanout[s] == Targets(keys, s)
  }

  /** The loop's maps after a sequence of flows. */
  predicate Linked(agg: map<EdgeKey, EdgeTotals>, fanout: map<Endpoint, set<Endpoint>>, flows: seq<Flow>) {
    && agg.Keys == Admitted(flows)
    && (forall k :: k in agg ==> Summarises(agg[k], flows, k))
    && FanoutMatches(fanout, agg.Keys)
  }

  lemma TargetsOutsideFanout(fanout: map<Endpoint, set<Endpoint>>, keys: set<EdgeKey>, source: Endpoint)
    requires FanoutMatches(fanout, keys)
    ensures Targets(keys, source) == if source in fanout then fanout[source] else {}
  {
    if source !in fanout {
      assert forall k :: k in keys ==> k.from in fanout;
    }
  }

  lemma FanoutOfInsert(fanout: map<Endpoint, set<Endpoint>>, keys: set<EdgeKey>, key: EdgeKey)
    requires FanoutMatches(fanout, keys)
    ensures FanoutMatches(fanout[key.from := Targets(keys, key.from) + {key.to}], keys + {key})
  {
    var updated := fanout[key.from := Targets(keys, key.from) + {key.to}];
    forall s | s in updated ensures updated[s] == Targets(keys + {key}, s) {
      TargetsOfInsert(keys, key, s);
    }
    assert key in keys + {key};
    assert (set k | k in keys + {key} :: k.from) == (set k | k in keys :: k.from) + {key.from};
  }

  lemma AdmittedSnoc(flows: seq<Flow>, f: Flow)
    ensures Admitted(flows + [f])
         == if f.key in Admitted(flows) || HasRoom(Admitted(flows), f.key) then Admitted(flows) + {f.key}
            else Admitted(flows)
  {
    assert (flows + [f])[..|flows + [f]| - 1] == flows;
  }

  /** The totals stored for a flow that is merged. */
  function MergedTotals(agg: map<EdgeKey, EdgeTotals>, f: Flow): EdgeTotals {
    AddFlow(if f.key in agg then agg[f.key] else NewEdge(f), f)
  }

  lemma MergedTotalsSummarise(agg: map<EdgeKey, EdgeTotals>, flows: seq<Flow>, f: Flow)
    requires agg.Keys == Admitted(flows)
    requires f.key in agg ==> Summarises(agg[f.key], flows, f.key)
    requires f.key in agg || HasRoom(agg.Keys, f.key)
    ensures Summarises(MergedTotals(agg, f), flows + [f], f.key)
  {
    if f.key in agg {
      AddFlowToKnownEdge(agg[f.key], flows, f);
    } else {
      if f.key in Keys(flows) {
        RejectedForever(flows, f.key);
      }
      AddFlowToNewEdge(flows, f);
    }
  }

  lemma AllOtherEdgesUnchanged(agg: map<EdgeKey, EdgeTotals>, flows: seq<Flow>, f: Flow)
    requires forall k :: k in agg ==> Summarises(agg[k], flows, k)
    ensures forall k :: k in agg && k != f.key ==> Summarises(agg[k], flows + [f], k)
  {
    forall k | k in agg && k != f.key ensures Summarises(agg[k], flows + [f], k) {
      OtherEdgesUnchanged(agg[k], flows, f, k);
    }
  }

  lemma MergeKeepsEdges(agg: map<EdgeKey, EdgeTotals>, flows: seq<Flow>, f: Flow)
    requires agg.Keys == Admitted(flows)
    requires forall k :: k in agg ==> Summarises(agg[k], flows, k)
    requires f.key in agg || HasRoom(agg.Keys, f.key)
    ensures var merged := agg[f.key := MergedTotals(agg, f)];
            merged.Keys == Admitted(flows + [f]) && forall k :: k in merged ==> Summarises(merged[k], flows + [f], k)
  {
    AdmittedSnoc(flows, f);
    MergedTotalsSummarise(agg, flows, f);
    AllOtherEdgesUnchanged(agg, flows, f);
    OneEdgeReplaced(agg, flows + [f], f.key, MergedTotals(agg, f));
  }

  lemma OneEdgeReplaced(agg: map<EdgeKey, EdgeTotals>, flows: seq<Flow>, key: EdgeKey, totals: EdgeTotals)
    requires Summarises(totals, flows, key)
    requires forall k :: k in agg && k != key ==> Summarises(agg[k], flows, k)
    ensures var merged := agg[key := totals];
            merged.Keys == agg.Keys + {key} && forall k :: k in merged ==> Summarises(merged[k], flows, k)
  {
  }

  lemma DropKeepsEdges(agg: map<EdgeKey, EdgeTotals>, flows: seq<Flow>, f: Flow)
    requires agg.Keys == Admitted(flows)
    requires forall k :: k in agg ==> Summarises(agg[k], flows, k)
    requires f.key !in agg && !HasRoom(agg.Keys, f.key)
    ensures agg.Keys == Admitted(flows + [f]) && forall k :: k in agg ==> Summarises(agg[k], flows + [f], k)
  {
    AdmittedSnoc(flows, f);
    AllOtherEdgesUnchanged(agg, flows, f);
  }

  lemma MergeKeepsLinked(agg: map<EdgeKey, EdgeTotals>, fanout: map<Endpoint, set<Endpoint>>, flows: seq<Flow>, f: Flow)
    requires Linked(agg, fanout, flows) && (f.key in agg || HasRoom(agg.Keys, f.key))
    ensures Linked(agg[f.key := MergedTotals(agg, f)],
                   fanout[f.key.from := Targets(agg.Keys, f.key.from) + {f.key.to}], flows + [f])
  {
    MergeKeepsEdges(agg, flows, f);
    FanoutOfInsert(fanout, agg.Keys, f.key);
    assert agg[f.key := MergedTotals(agg, f)].Keys == agg.Keys + {f.key};
  }

  /** The body of the loop for one readable record. */
  method MergeFlow(agg: map<EdgeKey, EdgeTotals>, fanout: map<Endpoint, set<Endpoint>>, f: Flow, ghost flows: seq<Flow>)
    returns (agg': map<EdgeKey, EdgeTotals>, fanout': map<Endpoint, set<Endpoint>>, outcome: Outcome)
    requires Linked(agg, fanout, flows)
    ensures Linked(agg', fanout', flows + [f])
    ensures outcome == Admission(Admitted(flows), f.key)
  {
    agg', fanout' := agg, fanout;
    ghost var keys := agg.Keys;
    TargetsOutsideFanout(fanout, keys, f.key.from);
    assert f.key in agg ==> f.key.to in Targets(keys, f.key.from);
    if |agg| >= MAX_DEP_EDGES_PER_SNAPSHOT && f.key !in agg {
      DropKeepsEdges(agg, flows, f);
      return agg', fanout', EdgeCapped;
    }
    var sourceFanout := if f.key.from in fanout then fanout[f.key.from] else {};
    if |sourceFanout| >= MAX_DEP_FANOUT_PER_SOURCE && f.key.to !in sourceFanout && f.key !in agg {
      DropKeepsEdges(agg, flows, f);
      return agg', fanout', FanoutCapped;
    }
    MergeKeepsLinked(agg, fanout, flows, f);
    agg' := agg[f.key := MergedTotals(agg, f)];
    fanout' := fanout[f.key.from := sourceFanout + {f.key.to}];
    outcome := Merged;
  }

  /** The loop's drop counters. */
  datatype Tally = Tally(parseFailures: nat, lineCapped: nat, edgeCapped: nat, fanoutCapped: nat)

  function Bump(t: Tally, outcome: Outcome): Tally {
    match outcome
    case ParseFailure => t.(parseFailures := t.parseFailures + 1)
    case LineCapped => t.(lineCapped := t.lineCapped + 1)
    case EdgeCapped => t.(edgeCapped := t.edgeCapped + 1)
    case FanoutCapped => t.(fanoutCapped := t.fanoutCapped + 1)
    case _ => t
  }

  /** The counters after a run of lines. */
  function TallyOf<L>(read: LineReader<L>, lines: seq<L>): Tally {
    if lines == [] then Tally(0, 0, 0, 0)
    else
      var before := lines[..|lines| - 1];
      Bump(TallyOf(read, before), OutcomeAfter(read, before, lines[|lines| - 1]))
  }

  lemma TallySnoc<L>(read: LineReader<L>, before: seq<L>, line: L, seen: seq<L>)
    requires seen == before + [line]
    ensures TallyOf(read, seen) == Bump(TallyOf(read, before), OutcomeAfter(read, before, line))
  {
    assert seen[..|seen| - 1] == before;
  }

  /** The counters count what they are named after. */
  lemma {:induction false} TallyCounts<L>(read: LineReader<L>, lines: seq<L>)
    ensures TallyOf(read, lines)
         == Tally(Count(read, lines, ParseFailure), Count(read, lines, LineCapped),
                  Count(read, lines, EdgeCapped), Count(read, lines, FanoutCapped))
  {
    if lines != [] {
      TallyCounts(read, lines[..|lines| - 1]);
    }
  }

  lemma FlowsSnoc<L>(read: LineReader<L>, before: seq<L>, line: L)
    ensures Flows(read, before + [line]) == Flows(read, before) + LineFlows(read, line)
  {
    assert (before + [line])[..|before + [line]| - 1] == before;
  }

  datatype Collected = Collected(
    edges: map<EdgeKey, EdgeTotals>, fanout: map<Endpoint, set<Endpoint>>,
    tally: Tally, droppedEdges: nat, truncated: bool)

  /** One considered line: the new maps and what became of it. */
  method CollectLine(line: Parsed, agg: map<EdgeKey, EdgeTotals>, fanout: map<Endpoint, set<Endpoint>>,
                     ghost flows: seq<Flow>)
    returns (agg': map<EdgeKey, EdgeTotals>, fanout': map<Endpoint, set<Endpoint>>, outcome: Outcome)
    requires Linked(agg, fanout, flows)
    ensures Linked(agg', fanout', flows + FlowsOn(line))
    ensures outcome == ParsedOutcome(line, Admitted(flows))
  {
    agg', fanout' := agg, fanout;
    assert flows + [] == flows;
    match line
    case Blank =>
      outcome := BlankLine;
    case Unreadable =>
      outcome := ParseFailure;
    case Event(flow) =>
      agg', fanout', outcome := MergeFlow(agg, fanout, flow, flows);
  }

  /** One more line adds its flows as long as lines are considered. */
  lemma ConsideredSnoc<L>(read: LineReader<L>, lines: seq<L>, i: nat)
    requires i < |lines|
    ensures Flows(read, Considered(lines[..i + 1]))
         == if i >= MAX_TETRAGON_LINES then Flows(read, Considered(lines[..i]))
            else Flows(read, Considered(lines[..i])) + FlowsOn(read(lines[i]))
    ensures TallyOf(read, lines[..i + 1])
         == Bump(TallyOf(read, lines[..i]),
                 if i >= MAX_TETRAGON_LINES then LineCapped
                 else ParsedOutcome(read(lines[i]), Admitted(Flows(read, Considered(lines[..i])))))
  {
    assert lines[..i + 1] == lines[..i] + [lines[i]];
    TallySnoc(read, lines[..i], lines[i], lines[..i + 1]);
    if i >= MAX_TETRAGON_LINES {
      assert Considered(lines[..i + 1]) == Considered(lines[..i]);
    } else {
      FlowsSnoc(read, lines[..i], lines[i]);
    }
  }

  /** One turn of the loop, counters included. */
  method CollectNext<L>(read: LineReader<L>, agg: map<EdgeKey, EdgeTotals>, fanout: map<Endpoint, set<Endpoint>>,
                        tally: Tally, lines: seq<L>, i: nat)
    returns (agg': map<EdgeKey, EdgeTotals>, fanout': map<Endpoint, set<Endpoint>>, tally': Tally)
    requires i < |lines|
    requires Linked(agg, fanout, Flows(read, Considered(lines[..i]))) && tally == TallyOf(read, lines[..i])
    ensures Linked(agg', fanout', Flows(read, Considered(lines[..i + 1]))) && tally' == TallyOf(read, lines[..i + 1])
  {
    ghost var flows := Flows(read, Considered(lines[..i]));
    ConsideredSnoc(read, lines, i);
    if i >= MAX_TETRAGON_LINES {
      return agg, fanout, Bump(tally, LineCapped);
    }
    var outcome;
    agg', fanout', outcome := CollectLine(read(lines[i]), agg, fanout, flows);
    tally' := Bump(tally, outcome);
  }

  /** The loop over all lines. */
  method CollectAll<L>(read: LineReader<L>, lines: seq<L>)
    returns (agg: map<EdgeKey, EdgeTotals>, fanout: map<Endpoint, set<Endpoint>>, tally: Tally)
    ensures Linked(agg, fanout, Flows(read, Considered(lines))) && tally == TallyOf(read, lines)
  {
    agg, fanout, tally := map[], map[], Tally(0, 0, 0, 0);
    assert lines[..0] == [];
    for i := 0 to |lines|
      invariant Linked(agg, fanout, Flows(read, Considered(lines[..i])))
      invariant tally == TallyOf(read, lines[..i])
    {
      agg, fanout, tally := CollectNext(read, agg, fanout, tally, lines, i);
    }
    assert lines[..|lines|] == lines;
  }

  lemma SaturatingTwice(a: nat, b: nat, c: nat)
    ensures SaturatingAdd(SaturatingAdd(a, b), c) == Saturate(a + b + c)
  {
  }

  /** `collect_dependency_inventory`, from the buffered lines to the aggregated edges. */
  method CollectDependencies<L>(read: LineReader<L>, lines: seq<L>) returns (r: Collected)
    ensures Linked(r.edges, r.fanout, Flows(read, Considered(lines)))
    ensures r.tally == Tally(Count(read, lines, ParseFailure), Count(read, lines, LineCapped),
                             Count(read, lines, EdgeCapped), Count(read, lines, FanoutCapped))
    ensures r.droppedEdges == Saturate(Dropped(read, lines))
    ensures r.truncated <==> Dropped(read, lines) > 0
  {
    var agg, fanout, tally := CollectAll(read, lines);
    TallyCounts(read, lines);
    SaturatingTwice(tally.edgeCapped, tally.lineCapped, tally.fanoutCapped);
    var droppedEvents := SaturatingAdd(tally.edgeCapped, tally.lineCapped);
    var droppedTotal := SaturatingAdd(droppedEvents, tally.fanoutCapped);
    r := Collected(agg, fanout, tally, droppedTotal, droppedTotal > 0);
  }
}
