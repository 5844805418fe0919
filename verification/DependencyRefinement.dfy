/** What the capped aggregation guarantees about the edges it reports. */
module DependencyRefinement {
  import opened Collections
  import opened Options
  import opened DependencyRecords
  import opened DependencyAggregation

  const NO_ENDPOINT: Endpoint := Endpoint("", None, None, None, None, None)

  // ---- When nothing is dropped ----

  /** Lines, distinct edges and distinct targets per source all fit their caps. */
  ghost predicate WithinCaps<L>(read: LineReader<L>, lines: seq<L>) {
    && |lines| <= 20_000
    && KeysFit(Keys(Flows(read, lines)))
  }

  ghost predicate KeysFit(keys: set<EdgeKey>) {
    && |keys| <= 2_000
    && forall source :: |Targets(keys, source)| <= 200
  }

  lemma KeysSnoc(flows: seq<Flow>, f: Flow)
    ensures Keys(flows + [f]) == Keys(flows) + {f.key}
  {
    var all := flows + [f];
    assert all[|flows|] == f;
    assert forall i :: 0 <= i < |flows| ==> all[i] == flows[i];
    forall k | k in Keys(flows) ensures k in Keys(all) {
      var i :| 0 <= i < |flows| && flows[i].key == k;
      assert all[i].key == k;
    }
  }

  lemma MergedIsAdmitted(flows: seq<Flow>, f: Flow)
    requires Admission(Admitted(flows), f.key) == Merged && Admitted(flows) == Keys(flows)
    ensures Admitted(flows + [f]) == Keys(flows + [f])
  {
    AdmittedSnoc(flows, f);
    KeysSnoc(flows, f);
  }

  lemma {:induction false} NothingDroppedAdmitsAll<L>(read: LineReader<L>, lines: seq<L>)
    requires Dropped(read, lines) == 0
    ensures |lines| <= MAX_TETRAGON_LINES
    ensures Admitted(Flows(read, lines)) == Keys(Flows(read, lines))
  {
    if lines != [] {
      var before, line := lines[..|lines| - 1], lines[|lines| - 1];
      NothingDroppedAdmitsAll(read, before);
      assert OutcomeAfter(read, before, line) !in {LineCapped, EdgeCapped, FanoutCapped};
      if read(line).Event? {
        MergedIsAdmitted(Flows(read, before), read(line).flow);
      } else {
        assert Flows(read, before) + [] == Flows(read, before);
      }
    }
  }

  lemma {:induction false} FittingKeysDropNothing<L>(read: LineReader<L>, lines: seq<L>, keys: set<EdgeKey>)
    requires |lines| <= MAX_TETRAGON_LINES
    requires KeysFit(keys) && Keys(Flows(read, lines)) <= keys
    ensures Dropped(read, lines) == 0
  {
    if lines != [] {
      var before, line := lines[..|lines| - 1], lines[|lines| - 1];
      var flows := Flows(read, before);
      if read(line).Event? {
        var f := read(line).flow;
        KeysSnoc(flows, f);
        FittingKeysDropNothing(read, before, keys);
        AdmittedWithinCaps(flows, f.key.from);
        RoomForFittingKey(Admitted(flows), f.key, keys);
      } else {
        assert flows + [] == flows;
        FittingKeysDropNothing(read, before, keys);
      }
    }
  }

  lemma RoomForFittingKey(admitted: set<EdgeKey>, key: EdgeKey, keys: set<EdgeKey>)
    requires KeysFit(keys) && admitted <= keys && key in keys
    ensures key in admitted || HasRoom(admitted, key)
  {
    if key !in admitted {
      SubsetCardinality(admitted, keys);
      TargetsMonotone(admitted, keys, key.from);
      assert key.to in Targets(keys, key.from);
      SubsetCardinality(Targets(admitted, key.from), Targets(keys, key.from));
    }
  }

  /** A snapshot is truncated exactly when the input exceeds one of the three caps. */
  lemma UntruncatedExactlyWhenWithinCaps<L>(read: LineReader<L>, lines: seq<L>)
    ensures Dropped(read, lines) == 0 <==> WithinCaps(read, lines)
  {
    if Dropped(read, lines) == 0 {
      NothingDroppedAdmitsAll(read, lines);
      forall source ensures |Targets(Keys(Flows(read, lines)), source)| <= MAX_DEP_FANOUT_PER_SOURCE {
        AdmittedWithinCaps(Flows(read, lines), source);
      }
      AdmittedWithinCaps(Flows(read, lines), NO_ENDPOINT);
    }
    if WithinCaps(read, lines) {
      FittingKeysDropNothing(read, lines, Keys(Flows(read, lines)));
    }
  }

  // ---- The reported edges ----

  /** The edges of an unbounded group-by: one per key that occurs, each exact over all its flows. */
  ghost predicate IsGroupBy(edges: map<EdgeKey, EdgeTotals>, flows: seq<Flow>) {
    edges.Keys == Keys(flows) && forall k :: k in edges ==> Summarises(edges[k], flows, k)
  }

  /** Within the caps the loop's maps are the plain group-by of every line. */
  lemma UntruncatedEdgesAreTheGroupBy<L>(read: LineReader<L>, lines: seq<L>,
                                      edges: map<EdgeKey, EdgeTotals>, fanout: map<Endpoint, set<Endpoint>>)
    requires Linked(edges, fanout, Flows(read, Considered(lines)))
    requires Dropped(read, lines) == 0
    ensures IsGroupBy(edges, Flows(read, lines))
  {
    NothingDroppedAdmitsAll(read, lines);
  }

  /**
   Truncated or not, a reported edge is whole: it occurs in the considered lines, its totals and
   timestamps are exact over every one of its flows there, and the caps hold.
   */
  lemma TruncationDropsWholeEdges(flows: seq<Flow>, edges: map<EdgeKey, EdgeTotals>,
                                  fanout: map<Endpoint, set<Endpoint>>)
    requires Linked(edges, fanout, flows)
    ensures edges.Keys <= Keys(flows)
    ensures forall k :: k in edges ==> Summarises(edges[k], flows, k)
    ensures forall k :: k in Keys(flows) && k !in edges ==> !HasRoom(edges.Keys, k)
    ensures |edges| <= MAX_DEP_EDGES_PER_SNAPSHOT
    ensures forall s :: s in fanout ==> 1 <= |fanout[s]| <= MAX_DEP_FANOUT_PER_SOURCE
  {
    forall k | k in Keys(flows) && k !in edges ensures !HasRoom(edges.Keys, k) {
      RejectedForever(flows, k);
    }
    forall s | s in fanout ensures 1 <= |fanout[s]| <= MAX_DEP_FANOUT_PER_SOURCE {
      AdmittedWithinCaps(flows, s);
      var k :| k in edges.Keys && k.from == s;
      assert k.to in fanout[s];
    }
    AdmittedWithinCaps(flows, NO_ENDPOINT);
    assert |edges| == |edges.Keys|;
  }

  // ---- Reordering ----

  lemma {:induction false} SumConcat(a: seq<Flow>, b: seq<Flow>, key: EdgeKey, m: Measure)
    ensures Sum(a + b, key, m) == Sum(a, key, m) + Sum(b, key, m)
  {
    if b == [] {
      assert a + b == a;
    } else {
      SumConcat(a, b[..|b| - 1], key, m);
      assert (a + b)[..|a + b| - 1] == a + b[..|b| - 1];
    }
  }

  /** Two orders of the same sequence: the last element of one, taken out of the other. */
  lemma TakeOutLast<T>(a: seq<T>, b: seq<T>) returns (i: nat)
    requires multiset(a) == multiset(b) && a != []
    ensures i < |b| && b[i] == a[|a| - 1]
    ensures multiset(a[..|a| - 1]) == multiset(b[..i] + b[i + 1..])
  {
    var x := a[|a| - 1];
    assert a == a[..|a| - 1] + [x];
    assert x in multiset(a) && x in multiset(b);
    i :| 0 <= i < |b| && b[i] == x;
    assert b == b[..i] + [x] + b[i + 1..];
    calc {
      multiset(a[..|a| - 1]) + multiset{x};
      multiset(a);
      multiset(b[..i] + [x] + b[i + 1..]);
      multiset(b[..i] + b[i + 1..]) + multiset{x};
    }
    assert multiset(a[..|a| - 1]) == (multiset(a[..|a| - 1]) + multiset{x}) - multiset{x};
  }

  lemma {:induction false} SumReordered(a: seq<Flow>, b: seq<Flow>, key: EdgeKey, m: Measure)
    requires multiset(a) == multiset(b)
    ensures Sum(a, key, m) == Sum(b, key, m)
  {
    if a == [] {
      assert multiset(b) == multiset{};
      assert b == [];
    } else {
      var i := TakeOutLast(a, b);
      SumReordered(a[..|a| - 1], b[..i] + b[i + 1..], key, m);
      assert b == b[..i] + ([b[i]] + b[i + 1..]);
      SumConcat(b[..i], [b[i]] + b[i + 1..], key, m);
      SumConcat([b[i]], b[i + 1..], key, m);
      SumConcat(b[..i], b[i + 1..], key, m);
      assert Sum([b[i]], key, m) == if b[i].key == key then Get(b[i], m) else 0 by {
        assert [b[i]][..0] == [];
      }
    }
  }

  lemma SameFlows(a: seq<Flow>, b: seq<Flow>, i: nat) returns (j: nat)
    requires multiset(a) == multiset(b) && i < |a|
    ensures j < |b| && b[j] == a[i]
  {
    assert a[i] in multiset(a);
    assert a[i] in multiset(b);
    j :| 0 <= j < |b| && b[j] == a[i];
  }

  lemma SummaryReordered(t: EdgeTotals, a: seq<Flow>, b: seq<Flow>, key: EdgeKey)
    requires multiset(a) == multiset(b) && Summarises(t, a, key)
    ensures Summarises(t, b, key)
  {
    SumReordered(a, b, key, Bytes);
    SumReordered(a, b, key, Packets);
    SumReordered(a, b, key, Connections);
    forall j | 0 <= j < |b| && b[j].key == key ensures t.firstSeen <= b[j].timestamp <= t.lastSeen {
      var i := SameFlows(b, a, j);
    }
    var first :| 0 <= first < |a| && a[first].key == key && a[first].timestamp == t.firstSeen;
    var j := SameFlows(a, b, first);
    var last :| 0 <= last < |a| && a[last].key == key && a[last].timestamp == t.lastSeen;
    j := SameFlows(a, b, last);
  }

  lemma KeysReordered(a: seq<Flow>, b: seq<Flow>)
    requires multiset(a) == multiset(b)
    ensures Keys(a) <= Keys(b)
  {
    forall k | k in Keys(a) ensures k in Keys(b) {
      var i :| 0 <= i < |a| && a[i].key == k;
      var j := SameFlows(a, b, i);
      assert b[j].key == k;
    }
  }

  lemma {:induction false} FlowsConcat<L>(read: LineReader<L>, a: seq<L>, b: seq<L>)
    ensures Flows(read, a + b) == Flows(read, a) + Flows(read, b)
  {
    if b == [] {
      assert a + b == a;
    } else {
      var init, last := b[..|b| - 1], b[|b| - 1];
      calc {
        Flows(read, a + b);
        { assert a + b == (a + init) + [last]; FlowsSnoc(read, a + init, last); }
        Flows(read, a + init) + LineFlows(read, last);
        { FlowsConcat(read, a, init); }
        Flows(read, a) + Flows(read, init) + LineFlows(read, last);
        Flows(read, a) + Flows(read, b);
      }
    }
  }

  lemma MultisetOfInsert<T>(a: seq<T>, b: seq<T>, c: seq<T>)
    ensures multiset((a + b) + c) == multiset(a + c) + multiset(b)
  {
  }

  lemma FlowsAround<L>(read: LineReader<L>, before: seq<L>, line: L, after: seq<L>)
    ensures Flows(read, (before + [line]) + after) == (Flows(read, before) + LineFlows(read, line)) + Flows(read, after)
  {
    FlowsConcat(read, before + [line], after);
    FlowsSnoc(read, before, line);
  }

  lemma SplitAround<T>(s: seq<T>, i: nat)
    requires i < |s|
    ensures s == (s[..i] + [s[i]]) + s[i + 1..]
  {
  }

  lemma FlowsWithout<L>(read: LineReader<L>, lines: seq<L>, i: nat)
    requires i < |lines|
    ensures multiset(Flows(read, lines))
         == multiset(Flows(read, lines[..i] + lines[i + 1..])) + multiset(LineFlows(read, lines[i]))
  {
    var before, after := lines[..i], lines[i + 1..];
    SplitAround(lines, i);
    FlowsAround(read, before, lines[i], after);
    FlowsConcat(read, before, after);
    MultisetOfInsert(Flows(read, before), LineFlows(read, lines[i]), Flows(read, after));
  }

  lemma {:induction false} FlowsReordered<L>(read: LineReader<L>, a: seq<L>, b: seq<L>)
    requires multiset(a) == multiset(b)
    ensures multiset(Flows(read, a)) == multiset(Flows(read, b))
  {
    if a == [] {
      assert |multiset(b)| == |b|;
      assert b == [];
    } else {
      var i := TakeOutLast(a, b);
      var a', b', line := a[..|a| - 1], b[..i] + b[i + 1..], b[i];
      FlowsReordered(read, a', b');
      calc {
        multiset(Flows(read, a));
        multiset(Flows(read, a') + LineFlows(read, line));
        multiset(Flows(read, a')) + multiset(LineFlows(read, line));
        multiset(Flows(read, b')) + multiset(LineFlows(read, line));
        { FlowsWithout(read, b, i); }
        multiset(Flows(read, b));
      }
    }
  }

  lemma WithinCapsReordered<L>(read: LineReader<L>, a: seq<L>, b: seq<L>)
    requires multiset(a) == multiset(b)
    ensures WithinCaps(read, a) <==> WithinCaps(read, b)
  {
    FlowsReordered(read, a, b);
    KeysReordered(Flows(read, a), Flows(read, b));
    KeysReordered(Flows(read, b), Flows(read, a));
    assert Keys(Flows(read, a)) == Keys(Flows(read, b));
    assert |a| == |multiset(a)| && |b| == |multiset(b)|;
  }

  lemma GroupByReordered(edgesA: map<EdgeKey, EdgeTotals>, edgesB: map<EdgeKey, EdgeTotals>, a: seq<Flow>, b: seq<Flow>)
    requires multiset(a) == multiset(b) && IsGroupBy(edgesA, a) && IsGroupBy(edgesB, b)
    ensures edgesA == edgesB
  {
    KeysReordered(a, b);
    KeysReordered(b, a);
    forall k | k in edgesA ensures edgesA[k] == edgesB[k] {
      SummaryReordered(edgesB[k], b, a, k);
      SummariesAgree(edgesA[k], edgesB[k], a, k);
    }
  }

  lemma SummariesAgree(t: EdgeTotals, u: EdgeTotals, flows: seq<Flow>, key: EdgeKey)
    requires Summarises(t, flows, key) && Summarises(u, flows, key)
    ensures t == u
  {
  }

  /** The order of the lines decides neither whether a snapshot is truncated nor the edges of one that is not. */
  lemma ReorderingKeepsTheSnapshot<L>(read: LineReader<L>, a: seq<L>, b: seq<L>,
                                   edgesA: map<EdgeKey, EdgeTotals>, edgesB: map<EdgeKey, EdgeTotals>,
                                   fanoutA: map<Endpoint, set<Endpoint>>, fanoutB: map<Endpoint, set<Endpoint>>)
    requires multiset(a) == multiset(b)
    requires Linked(edgesA, fanoutA, Flows(read, Considered(a)))
    requires Linked(edgesB, fanoutB, Flows(read, Considered(b)))
    ensures Dropped(read, a) == 0 <==> Dropped(read, b) == 0
    ensures Dropped(read, a) == 0 ==> edgesA == edgesB
  {
    WithinCapsReordered(read, a, b);
    UntruncatedExactlyWhenWithinCaps(read, a);
    UntruncatedExactlyWhenWithinCaps(read, b);
    if Dropped(read, a) == 0 {
      UntruncatedEdgesAreTheGroupBy(read, a, edgesA, fanoutA);
      UntruncatedEdgesAreTheGroupBy(read, b, edgesB, fanoutB);
      FlowsReordered(read, a, b);
      GroupByReordered(edgesA, edgesB, Flows(read, a), Flows(read, b));
    }
  }
}
