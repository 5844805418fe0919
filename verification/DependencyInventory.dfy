/**
 The dependency inventory as the agent takes it: the aggregation over lines read with the pod and
 service indexes, stated over the records on those lines.
 */
module DependencyInventory {
  import opened Options
  import opened Text
  import opened DependencyRecords
  import opened DependencyAggregation
  import opened DependencyRefinement

  /** The record on a line that is not blank and can be read. */
  function RecordOn(env: Env, line: string): Option<Record> {
    if Trim(line) == [] then None else env.readRecord(Trim(line))
  }

  /** What a record on a line adds to an edge. */
  function Share(env: Env, line: string, key: EdgeKey, m: Measure): nat {
    match RecordOn(env, line)
    case None => 0
    case Some(r) =>
      if !IsEdgeOf(env, key, r) then 0
      else match m case Bytes => r.bytes case Packets => r.packets case Connections => r.connections
  }

  /** The sum over the records that belong to an edge. */
  function Total(env: Env, lines: seq<string>, key: EdgeKey, m: Measure): nat {
    if lines == [] then 0
    else Total(env, lines[..|lines| - 1], key, m) + Share(env, lines[|lines| - 1], key, m)
  }

  /** Some line records a flow of this edge. */
  predicate IsRecorded(env: Env, lines: seq<string>, key: EdgeKey) {
    exists i :: 0 <= i < |lines| && IsRecordOf(env, lines[i], key)
  }

  /** No record of the edge was seen before `first` or after `last`, and some records at each. */
  predicate SpansRecords(env: Env, lines: seq<string>, key: EdgeKey, first: nat, last: nat) {
    && (forall i :: 0 <= i < |lines| && IsRecordOf(env, lines[i], key) ==> first <= TimeOn(env, lines[i]) <= last)
    && (exists i :: 0 <= i < |lines| && IsRecordOf(env, lines[i], key) && TimeOn(env, lines[i]) == first)
    && (exists i :: 0 <= i < |lines| && IsRecordOf(env, lines[i], key) && TimeOn(env, lines[i]) == last)
  }

  predicate IsRecordOf(env: Env, line: string, key: EdgeKey) {
    RecordOn(env, line).Some? && IsEdgeOf(env, key, RecordOn(env, line).value)
  }

  function TimeOn(env: Env, line: string): nat {
    match RecordOn(env, line) case None => 0 case Some(r) => r.timestamp
  }

  function Reader(env: Env): LineReader<string> {
    line => ParseLine(env, line)
  }

  /** A line is an event exactly when a record is on it, and the event is that record's flow. */
  lemma LineHoldsItsRecord(env: Env, line: string, key: EdgeKey)
    ensures Reader(env)(line).Event? <==> RecordOn(env, line).Some?
    ensures RecordOn(env, line).Some? ==>
              && Reader(env)(line).flow == FlowOf(env, RecordOn(env, line).value)
              && (IsEdgeOf(env, key, RecordOn(env, line).value) <==> Reader(env)(line).flow.key == key)
  {
    if RecordOn(env, line).Some? {
      FlowIsTheRecords(env, RecordOn(env, line).value, key);
    }
  }

  lemma ShareIsTheFlows(env: Env, line: string, key: EdgeKey, m: Measure)
    ensures Share(env, line, key, m) == Sum(LineFlows(Reader(env), line), key, m)
  {
    LineHoldsItsRecord(env, line, key);
    if RecordOn(env, line).Some? {
      FlowIsTheRecords(env, RecordOn(env, line).value, key);
      assert [Reader(env)(line).flow][..0] == [];
    }
  }

  /** The flows of an edge add up to what its records add up to, measure by measure. */
  lemma {:induction false} TotalIsTheFlows(env: Env, lines: seq<string>, key: EdgeKey, m: Measure)
    ensures Total(env, lines, key, m) == Sum(Flows(Reader(env), lines), key, m)
  {
    if lines != [] {
      var init, last := lines[..|lines| - 1], lines[|lines| - 1];
      TotalIsTheFlows(env, init, key, m);
      ShareIsTheFlows(env, last, key, m);
      SumConcat(Flows(Reader(env), init), LineFlows(Reader(env), last), key, m);
    }
  }

  function KeyOn(env: Env, line: string): EdgeKey {
    match RecordOn(env, line)
    case Some(r) => FlowOf(env, r).key
    case None => EdgeKey(NO_ENDPOINT, NO_ENDPOINT, "", 0, "")
  }

  /** The line that a flow is on. */
  lemma {:induction false} LineOfFlow(env: Env, lines: seq<string>, j: nat) returns (i: nat)
    requires j < |Flows(Reader(env), lines)|
    ensures i < |lines| && RecordOn(env, lines[i]).Some?
    ensures Flows(Reader(env), lines)[j] == FlowOf(env, RecordOn(env, lines[i]).value)
  {
    var init, last := lines[..|lines| - 1], lines[|lines| - 1];
    var before := Flows(Reader(env), init);
    LineHoldsItsRecord(env, last, KeyOn(env, last));
    if j < |before| {
      i := LineOfFlow(env, init, j);
    } else {
      i := |lines| - 1;
    }
  }

  /** The flow that a line's record gives. */
  lemma {:induction false} FlowOfLine(env: Env, lines: seq<string>, i: nat) returns (j: nat)
    requires i < |lines| && RecordOn(env, lines[i]).Some?
    ensures j < |Flows(Reader(env), lines)|
    ensures Flows(Reader(env), lines)[j] == FlowOf(env, RecordOn(env, lines[i]).value)
  {
    var init, last := lines[..|lines| - 1], lines[|lines| - 1];
    if i < |init| {
      j := FlowOfLine(env, init, i);
    } else {
      LineHoldsItsRecord(env, last, KeyOn(env, last));
      j := |Flows(Reader(env), init)|;
    }
  }

  lemma RecordedExactlyWhen(env: Env, lines: seq<string>, key: EdgeKey)
    ensures IsRecorded(env, lines, key) <==> key in Keys(Flows(Reader(env), lines))
  {
    var flows := Flows(Reader(env), lines);
    if i :| 0 <= i < |lines| && IsRecordOf(env, lines[i], key) {
      var j := FlowOfLine(env, lines, i);
      FlowIsTheRecords(env, RecordOn(env, lines[i]).value, key);
      assert flows[j].key == key;
    }
    if j :| 0 <= j < |flows| && flows[j].key == key {
      var i := LineOfFlow(env, lines, j);
      FlowIsTheRecords(env, RecordOn(env, lines[i]).value, key);
      assert IsRecordOf(env, lines[i], key);
    }
  }

  lemma SpanOfFlows(env: Env, lines: seq<string>, key: EdgeKey, first: nat, last: nat)
    requires IsEarliest(Flows(Reader(env), lines), key, first) && IsLatest(Flows(Reader(env), lines), key, last)
    ensures SpansRecords(env, lines, key, first, last)
  {
    var flows := Flows(Reader(env), lines);
    forall i | 0 <= i < |lines| && IsRecordOf(env, lines[i], key) ensures first <= TimeOn(env, lines[i]) <= last {
      var j := FlowOfLine(env, lines, i);
      FlowIsTheRecords(env, RecordOn(env, lines[i]).value, key);
    }
    SomeRecordAt(env, lines, key, first);
    SomeRecordAt(env, lines, key, last);
  }

  lemma SomeRecordAt(env: Env, lines: seq<string>, key: EdgeKey, t: nat)
    requires exists j :: && 0 <= j < |Flows(Reader(env), lines)| && Flows(Reader(env), lines)[j].key == key
                         && Flows(Reader(env), lines)[j].timestamp == t
    ensures exists i :: 0 <= i < |lines| && IsRecordOf(env, lines[i], key) && TimeOn(env, lines[i]) == t
  {
    var flows := Flows(Reader(env), lines);
    var j :| 0 <= j < |flows| && flows[j].key == key && flows[j].timestamp == t;
    var i := LineOfFlow(env, lines, j);
    FlowIsTheRecords(env, RecordOn(env, lines[i]).value, key);
  }

  predicate IsCapped(reported: nat, total: nat) {
    reported == if total < 0x1_0000_0000_0000_0000 then total else 0xffff_ffff_ffff_ffff
  }

  /** An edge's numbers are those of the records that belong to it, saturated at the u64 maximum. */
  predicate CountsRecords(env: Env, lines: seq<string>, key: EdgeKey, totals: EdgeTotals) {
    && IsCapped(totals.bytes, Total(env, lines, key, Bytes))
    && IsCapped(totals.packets, Total(env, lines, key, Packets))
    && IsCapped(totals.connections, Total(env, lines, key, Connections))
    && SpansRecords(env, lines, key, totals.firstSeen, totals.lastSeen)
  }

  lemma SummaryCountsRecords(env: Env, lines: seq<string>, key: EdgeKey, totals: EdgeTotals)
    requires Summarises(totals, Flows(Reader(env), lines), key)
    ensures CountsRecords(env, lines, key, totals)
  {
    TotalIsTheFlows(env, lines, key, Bytes);
    TotalIsTheFlows(env, lines, key, Packets);
    TotalIsTheFlows(env, lines, key, Connections);
    SpanOfFlows(env, lines, key, totals.firstSeen, totals.lastSeen);
  }

  /**
   `collect_dependency_inventory` on the buffered lines. Every reported edge is recorded and counts
   exactly its records; an untruncated inventory has an edge for every recorded one.
   */
  method CollectInventory(env: Env, lines: seq<string>) returns (r: Collected)
    ensures forall key :: key in r.edges ==>
              && IsRecorded(env, Considered(lines), key)
              && CountsRecords(env, Considered(lines), key, r.edges[key])
    ensures !r.truncated ==> forall key :: key in r.edges <==> IsRecorded(env, lines, key)
    ensures r.truncated <==> Dropped(Reader(env), lines) > 0
  {
    r := CollectDependencies(Reader(env), lines);
    TruncationDropsWholeEdges(Flows(Reader(env), Considered(lines)), r.edges, r.fanout);
    forall key | key in r.edges
      ensures IsRecorded(env, Considered(lines), key) && CountsRecords(env, Considered(lines), key, r.edges[key])
    {
      RecordedExactlyWhen(env, Considered(lines), key);
      SummaryCountsRecords(env, Considered(lines), key, r.edges[key]);
    }
    if !r.truncated {
      UntruncatedEdgesAreTheGroupBy(Reader(env), lines, r.edges, r.fanout);
      forall key ensures key in r.edges <==> IsRecorded(env, lines, key) {
        RecordedExactlyWhen(env, lines, key);
      }
    }
  }
}
