/**
 Pod usage totals: the checked summation over a metric's containers and what the reported
 strings parse back to.
 */
module PodUsage {
  import opened Options
  import opened Quantity

  /** How a resource's text is read; the agent passes the quantity parser. */
  type Parser = (Resource, string) -> Option<int>

  datatype Usage = Usage(cpu: Option<string>, memory: Option<string>)

  datatype Container = Container(usage: Option<Usage>)

  datatype Totals = Totals(cpuNano: int, memoryBytes: int)

  function Reported(resource: Resource, c: Container): Option<string> {
    if c.usage.None? then None
    else match resource case Cpu => c.usage.value.cpu case Memory => c.usage.value.memory
  }

  /** What one container reports for a resource, if it can be read at all. */
  function Reading(parse: Parser, resource: Resource, c: Container): Option<int> {
    match Reported(resource, c)
    case None => None
    case Some(text) => parse(resource, text)
  }

  predicate Readable(parse: Parser, c: Container) {
    Reading(parse, Cpu, c).Some? && Reading(parse, Memory, c).Some?
  }

  /** The mathematical sum of the readings; an unreadable container adds nothing here. */
  function Sum(parse: Parser, resource: Resource, containers: seq<Container>): int {
    if containers == [] then 0
    else
      var last := |containers| - 1;
      Sum(parse, resource, containers[..last])
      + match Reading(parse, resource, containers[last]) case Some(v) => v case None => 0
  }

  predicate InI128(x: int) {
    I128_MIN <= x <= I128_MAX
  }

  /** Every container can be read and no running total leaves the i128 range. */
  predicate Summable(parse: Parser, containers: seq<Container>) {
    && (forall i :: 0 <= i < |containers| ==> Readable(parse, containers[i]))
    && (forall n :: 0 <= n <= |containers| ==> SumsFit(parse, containers[..n]))
  }

  predicate SumsFit(parse: Parser, containers: seq<Container>) {
    InI128(Sum(parse, Cpu, containers)) && InI128(Sum(parse, Memory, containers))
  }

  /** `map_pod_metrics`, from the containers on: stop at the first unreadable or overflowing one. */
  method MapPodMetrics(parse: Parser, containers: seq<Container>) returns (r: Option<Totals>)
    ensures r.Some? <==> Summable(parse, containers)
    ensures r.Some? ==> r == Some(Totals(Sum(parse, Cpu, containers), Sum(parse, Memory, containers)))
  {
    var totals := Totals(0, 0);
    for n := 0 to |containers|
      invariant forall i :: 0 <= i < n ==> Readable(parse, containers[i])
      invariant forall m :: 0 <= m <= n ==> SumsFit(parse, containers[..m])
      invariant totals == Totals(Sum(parse, Cpu, containers[..n]), Sum(parse, Memory, containers[..n]))
    {
      var c := containers[n];
      if c.usage.None? || c.usage.value.cpu.None? || c.usage.value.memory.None? {
        return None;
      }
      var cpu := parse(Cpu, c.usage.value.cpu.value);
      var memory := parse(Memory, c.usage.value.memory.value);
      if cpu.None? || memory.None? {
        return None;
      }
      assert containers[..n + 1][..n] == containers[..n];
      var cpuNano, memoryBytes := Checked(totals.cpuNano + cpu.value), Checked(totals.memoryBytes + memory.value);
      if cpuNano.None? || memoryBytes.None? {
        assert !SumsFit(parse, containers[..n + 1]);
        return None;
      }
      totals := Totals(cpuNano.value, memoryBytes.value);
    }
    assert containers[..|containers|] == containers;
    r := Some(totals);
  }

  /** One more container adds what its own two texts say, each to its own total. */
  lemma SumAddsOwnReadings(parse: Parser, containers: seq<Container>, cpu: string, memory: string)
    requires parse(Cpu, cpu).Some? && parse(Memory, memory).Some?
    ensures var more := containers + [Container(Some(Usage(Some(cpu), Some(memory))))];
            && Sum(parse, Cpu, more) == Sum(parse, Cpu, containers) + parse(Cpu, cpu).value
            && Sum(parse, Memory, more) == Sum(parse, Memory, containers) + parse(Memory, memory).value
  {
    assert (containers + [Container(Some(Usage(Some(cpu), Some(memory))))])[..|containers|] == containers;
  }

  /** A reported usage string parses back to the sum of its containers' readings; a negative sum is not reported. */
  lemma ReportedUsageParsesToSum(resource: Resource, containers: seq<Container>)
    requires Summable(Parse, containers)
    ensures var total := Sum(Parse, resource, containers);
            if total < 0 then Format(resource, total) == None
            else Format(resource, total).Some? && Parse(resource, Format(resource, total).value) == Some(total)
  {
    assert containers[..|containers|] == containers && SumsFit(Parse, containers[..|containers|]);
    if Sum(Parse, resource, containers) >= 0 {
      FormatParseRoundTrip(resource, Sum(Parse, resource, containers));
    }
  }
}
