/**
 The order of reported edges: the aggregation map already lists its keys in the order the final
 sort asks for, so the sort moves nothing.
 */
module EdgeOrder {
  import opened Options
  import opened DependencyRecords
  import opened DependencyAggregation

  datatype Ordering = Less | Equal | Greater

  function Flip(o: Ordering): Ordering {
    match o case Less => Greater case Equal => Equal case Greater => Less
  }

  function Then(first: Ordering, second: Ordering): Ordering {
    if first == Equal then second else first
  }

  function CompareNat(a: nat, b: nat): Ordering {
    if a < b then Less else if a == b then Equal else Greater
  }

  /** Strings compare by Unicode scalar value, which is also the order of their UTF-8 bytes. */
  function CompareString(a: string, b: string): Ordering {
    if a == [] then (if b == [] then Equal else Less)
    else if b == [] then Greater
    else Then(CompareNat(a[0] as int, b[0] as int), CompareString(a[1..], b[1..]))
  }

  function CompareOption(a: Option<string>, b: Option<string>): Ordering {
    match (a, b)
    case (None, None) => Equal
    case (None, Some(_)) => Less
    case (Some(_), None) => Greater
    case (Some(x), Some(y)) => CompareString(x, y)
  }

  /** The derived order of endpoint keys: field by field. */
  function CompareEndpoint(a: Endpoint, b: Endpoint): Ordering {
    Then(CompareString(a.kind, b.kind),
    Then(CompareOption(a.namespace, b.namespace),
    Then(CompareOption(a.name, b.name),
    Then(CompareOption(a.workloadKind, b.workloadKind),
    Then(CompareOption(a.workloadName, b.workloadName),
         CompareOption(a.ip, b.ip))))))
  }

  /** The derived order of edge keys, in which the aggregation map iterates. */
  function CompareKey(a: EdgeKey, b: EdgeKey): Ordering {
    Then(CompareEndpoint(a.from, b.from),
    Then(CompareEndpoint(a.to, b.to),
    Then(CompareString(a.protocol, b.protocol),
    Then(CompareNat(a.destinationPort, b.destinationPort),
         CompareString(a.direction, b.direction)))))
  }

  datatype Edge = Edge(key: EdgeKey, totals: EdgeTotals)

  /** The comparator of `sort_dependency_edges`, which normalises again. */
  function CompareEdge(env: Env, a: Edge, b: Edge): Ordering {
    Then(CompareEndpoint(NormalizeEndpoint(env, a.key.from), NormalizeEndpoint(env, b.key.from)),
    Then(CompareEndpoint(NormalizeEndpoint(env, a.key.to), NormalizeEndpoint(env, b.key.to)),
    Then(CompareString(env.upper(a.key.protocol), env.upper(b.key.protocol)),
    Then(CompareNat(a.key.destinationPort, b.key.destinationPort),
         CompareString(env.lower(a.key.direction), env.lower(b.key.direction))))))
  }

  /** Mapping case twice is mapping it once. */
  ghost predicate CaseMappingIsIdempotent(env: Env) {
    && (forall s :: env.lower(env.lower(s)) == env.lower(s))
    && (forall s :: env.upper(env.upper(s)) == env.upper(s))
  }

  /** The edges of a map, listed in strictly increasing key order. */
  ghost predicate ListsInKeyOrder(edges: seq<Edge>, agg: map<EdgeKey, EdgeTotals>) {
    && (forall i, j :: 0 <= i < j < |edges| ==> CompareKey(edges[i].key, edges[j].key) == Less)
    && (forall i :: 0 <= i < |edges| ==> edges[i].key in agg && edges[i].totals == agg[edges[i].key])
  }

  ghost predicate SortedBy(env: Env, edges: seq<Edge>) {
    forall i, j :: 0 <= i < j < |edges| ==> CompareEdge(env, edges[i], edges[j]) != Greater
  }

  lemma {:induction false} CompareStringFlips(a: string, b: string)
    ensures CompareString(b, a) == Flip(CompareString(a, b))
  {
    if a != [] && b != [] {
      CompareStringFlips(a[1..], b[1..]);
    }
  }

  lemma CompareOptionFlips(a: Option<string>, b: Option<string>)
    ensures CompareOption(b, a) == Flip(CompareOption(a, b))
  {
    if a.Some? && b.Some? {
      CompareStringFlips(a.value, b.value);
    }
  }

  lemma CompareEndpointFlips(a: Endpoint, b: Endpoint)
    ensures CompareEndpoint(b, a) == Flip(CompareEndpoint(a, b))
  {
    CompareStringFlips(a.kind, b.kind);
    CompareOptionFlips(a.namespace, b.namespace);
    CompareOptionFlips(a.name, b.name);
    CompareOptionFlips(a.workloadKind, b.workloadKind);
    CompareOptionFlips(a.workloadName, b.workloadName);
    CompareOptionFlips(a.ip, b.ip);
  }

  lemma CompareKeyFlips(a: EdgeKey, b: EdgeKey)
    ensures CompareKey(b, a) == Flip(CompareKey(a, b))
  {
    CompareEndpointFlips(a.from, b.from);
    CompareEndpointFlips(a.to, b.to);
    CompareStringFlips(a.protocol, b.protocol);
    CompareStringFlips(a.direction, b.direction);
  }

  lemma CompareStringReflexive(a: string)
    ensures CompareString(a, a) == Equal
  {
  }

  /** The first difference decides, or the shorter one comes first. */
  predicate PrecedesAt(a: string, b: string, i: nat) {
    i <= |a| && i < |b| && a[..i] == b[..i] && (i == |a| || a[i] < b[i])
  }

  lemma PrecedesAfterHead(c: char, a: string, b: string, i: nat)
    ensures PrecedesAt([c] + a, [c] + b, i + 1) <==> PrecedesAt(a, b, i)
  {
    if i <= |a| && i < |b| {
      assert ([c] + a)[..i + 1] == [c] + a[..i] && ([c] + b)[..i + 1] == [c] + b[..i];
      assert a[..i] == ([c] + a[..i])[1..] && b[..i] == ([c] + b[..i])[1..];
    }
  }

  lemma PrecedesAtHead(a: string, b: string)
    requires a != [] && b != [] && a[0] != b[0]
    ensures forall i :: PrecedesAt(a, b, i) <==> i == 0 && a[0] < b[0]
  {
    assert forall i: nat :: 0 < i <= |a| && i <= |b| ==> a[..i][0] == a[0] && b[..i][0] == b[0];
  }

  lemma {:induction false} EqualExactlyWhenSame(a: string, b: string)
    ensures CompareString(a, b) == Equal <==> a == b
  {
    if a != [] && b != [] {
      EqualExactlyWhenSame(a[1..], b[1..]);
      assert a == [a[0]] + a[1..] && b == [b[0]] + b[1..];
    }
  }

  /** Strings are in lexicographic order. */
  lemma {:induction false} LessExactlyWhenPrecedes(a: string, b: string)
    ensures CompareString(a, b) == Less <==> exists i :: PrecedesAt(a, b, i)
  {
    if b != [] && a == [] {
      assert PrecedesAt(a, b, 0);
    } else if b != [] && a[0] != b[0] {
      PrecedesAtHead(a, b);
      assert PrecedesAt(a, b, 0) <==> a[0] < b[0];
    } else if b != [] {
      LessExactlyWhenPrecedes(a[1..], b[1..]);
      assert a == [a[0]] + a[1..] && b == [a[0]] + b[1..];
      if i: nat :| PrecedesAt(a[1..], b[1..], i) {
        PrecedesAfterHead(a[0], a[1..], b[1..], i);
      }
      if i: nat :| PrecedesAt(a, b, i) {
        assert i != 0;
        PrecedesAfterHead(a[0], a[1..], b[1..], i - 1);
      }
    }
  }

  lemma CompareOptionEqual(a: Option<string>, b: Option<string>)
    ensures CompareOption(a, b) == Equal <==> a == b
  {
    if a.Some? && b.Some? {
      EqualExactlyWhenSame(a.value, b.value);
    }
  }

  lemma CompareEndpointEqual(a: Endpoint, b: Endpoint)
    ensures CompareEndpoint(a, b) == Equal <==> a == b
  {
    EqualExactlyWhenSame(a.kind, b.kind);
    CompareOptionEqual(a.namespace, b.namespace);
    CompareOptionEqual(a.name, b.name);
    CompareOptionEqual(a.workloadKind, b.workloadKind);
    CompareOptionEqual(a.workloadName, b.workloadName);
    CompareOptionEqual(a.ip, b.ip);
  }

  /** The order tells any two keys apart, by their sources first and their targets next. */
  lemma KeysAreToldApart(a: EdgeKey, b: EdgeKey)
    ensures CompareKey(a, b) == Equal <==> a == b
    ensures a.from != b.from ==> CompareKey(a, b) == CompareEndpoint(a.from, b.from)
    ensures a.from == b.from && a.to != b.to ==> CompareKey(a, b) == CompareEndpoint(a.to, b.to)
  {
    CompareEndpointEqual(a.from, b.from);
    CompareEndpointEqual(a.to, b.to);
    EqualExactlyWhenSame(a.protocol, b.protocol);
    EqualExactlyWhenSame(a.direction, b.direction);
  }

  /** A key as `FlowOf` builds it. */
  ghost predicate IsNormalized(env: Env, k: EdgeKey) {
    && NormalizeEndpoint(env, k.from) == k.from
    && NormalizeEndpoint(env, k.to) == k.to
    && env.upper(k.protocol) == k.protocol
    && k.direction == "egress"
  }

  lemma NormalizeTwice(env: Env, e: Endpoint)
    requires CaseMappingIsIdempotent(env)
    ensures NormalizeEndpoint(env, NormalizeEndpoint(env, e)) == NormalizeEndpoint(env, e)
  {
  }

  lemma FlowKeysAreNormalized(env: Env, r: Record)
    requires CaseMappingIsIdempotent(env)
    ensures IsNormalized(env, FlowOf(env, r).key)
  {
    NormalizeTwice(env, ResolveEndpoint(env, r.srcIp, r.srcHint));
    NormalizeTwice(env, ResolveEndpoint(env, r.dstIp, r.dstHint));
  }

  lemma {:induction false} KeysAreNormalized(env: Env, lines: seq<string>, k: EdgeKey)
    requires CaseMappingIsIdempotent(env)
    requires k in Keys(Flows(line => ParseLine(env, line), lines))
    ensures IsNormalized(env, k)
  {
    var read := line => ParseLine(env, line);
    var before, line := lines[..|lines| - 1], lines[|lines| - 1];
    var flows := Flows(read, before);
    if k in Keys(flows) {
      KeysAreNormalized(env, before, k);
    } else {
      assert Flows(read, lines) == flows + LineFlows(read, line);
      assert forall i :: 0 <= i < |flows| ==> flows[i].key in Keys(flows);
      assert ParseLine(env, line).Event? && k == ParseLine(env, line).flow.key;
      var record :| FlowOf(env, record).key == k;
      FlowKeysAreNormalized(env, record);
    }
  }

  lemma CompareNormalized(env: Env, a: Edge, b: Edge)
    requires IsNormalized(env, a.key) && IsNormalized(env, b.key)
    ensures CompareEdge(env, a, b) == CompareKey(a.key, b.key)
  {
    CompareStringReflexive(env.lower("egress"));
    CompareStringReflexive("egress");
  }

  lemma SortedHead(env: Env, edges: seq<Edge>, sorted: seq<Edge>)
    requires forall i :: 0 <= i < |edges| ==> IsNormalized(env, edges[i].key)
    requires forall i, j :: 0 <= i < j < |edges| ==> CompareKey(edges[i].key, edges[j].key) == Less
    requires multiset(edges) == multiset(sorted) && SortedBy(env, sorted) && edges != [] && sorted != []
    ensures sorted[0] == edges[0]
  {
    assert sorted[0] in multiset(sorted) && edges[0] in multiset(edges);
    var i :| 0 <= i < |edges| && edges[i] == sorted[0];
    var j :| 0 <= j < |sorted| && sorted[j] == edges[0];
    CompareNormalized(env, edges[i], edges[0]);
    CompareKeyFlips(edges[0].key, edges[i].key);
  }

  lemma TailOfMultiset<T>(s: seq<T>)
    requires s != []
    ensures multiset(s[1..]) == multiset(s) - multiset{s[0]}
  {
    assert s == [s[0]] + s[1..];
  }

  /** A strictly increasing sequence is the only sorted arrangement of its elements. */
  lemma {:induction false} OnlySortedArrangement(env: Env, edges: seq<Edge>, sorted: seq<Edge>)
    requires forall i :: 0 <= i < |edges| ==> IsNormalized(env, edges[i].key)
    requires forall i, j :: 0 <= i < j < |edges| ==> CompareKey(edges[i].key, edges[j].key) == Less
    requires multiset(edges) == multiset(sorted) && SortedBy(env, sorted)
    ensures sorted == edges
  {
    assert |multiset(edges)| == |edges| && |multiset(sorted)| == |sorted|;
    if edges != [] {
      SortedHead(env, edges, sorted);
      TailOfMultiset(edges);
      TailOfMultiset(sorted);
      OnlySortedArrangement(env, edges[1..], sorted[1..]);
      assert edges == [edges[0]] + edges[1..] && sorted == [sorted[0]] + sorted[1..];
    }
  }

  /** Sorting the map's listing, by any sort that permutes and orders, returns the listing unchanged. */
  lemma FinalSortIsIdentity(env: Env, lines: seq<string>, agg: map<EdgeKey, EdgeTotals>,
                            listing: seq<Edge>, sorted: seq<Edge>)
    requires CaseMappingIsIdempotent(env)
    requires agg.Keys <= Keys(Flows(line => ParseLine(env, line), lines))
    requires ListsInKeyOrder(listing, agg)
    requires multiset(listing) == multiset(sorted) && SortedBy(env, sorted)
    ensures sorted == listing
  {
    forall i | 0 <= i < |listing| ensures IsNormalized(env, listing[i].key) {
      KeysAreNormalized(env, lines, listing[i].key);
    }
    OnlySortedArrangement(env, listing, sorted);
  }
}
