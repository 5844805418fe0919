/**
 The Tetragon stream manager: the registry of event streams, its reconciliation with discovered
 endpoints, and the coverage and readiness derived from it.
 */
module StreamManager {
  import opened Options
  import opened Collections

  const MAX_DISCOVERED_ENDPOINTS: nat := 16
  const FALLBACK_STREAM_KEY: string := "__fallback__"

  datatype Source = Discovered | Fallback

  /** A registered stream and the number of the task feeding it. */
  datatype Entry = Entry(source: Source, connected: bool, task: nat)

  /** The registry, the numbers of tasks whose active flag is set, and the published readiness. */
  datatype Registry = Registry(streams: map<string, Entry>, active: set<nat>, nextTask: nat, ready: bool)

  function ConnectedKeys(streams: map<string, Entry>): set<string> {
    set k | k in streams && streams[k].connected
  }

  function IsReadyWith(required: bool, streams: map<string, Entry>): bool {
    !required || |ConnectedKeys(streams)| > 0
  }

  datatype Coverage = Coverage(observed: nat, connected: nat, unavailable: nat)

  function CoverageOf(streams: map<string, Entry>): Coverage {
    var observed, connected := |streams|, |ConnectedKeys(streams)|;
    Coverage(observed, connected, if observed >= connected then observed - connected else 0)
  }

  /** Streams are counted once: connected or unavailable. */
  lemma CoverageAddsUp(streams: map<string, Entry>)
    ensures var c := CoverageOf(streams);
            && c.observed == |streams.Keys|
            && c.connected == |set k | k in streams && streams[k].connected|
            && c.unavailable == |set k | k in streams && !streams[k].connected|
            && c.observed == c.connected + c.unavailable
            && (c.connected > 0 <==> exists k :: k in streams && streams[k].connected)
  {
    var up, down := set k | k in streams && streams[k].connected, set k | k in streams && !streams[k].connected;
    assert ConnectedKeys(streams) == up;
    assert up + down == streams.Keys && up !! down;
    if k :| k in streams && streams[k].connected {
      assert k in up;
    }
    if up != {} {
      var k :| k in up;
    }
  }

  function Tasks(streams: map<string, Entry>): set<nat> {
    set k | k in streams :: streams[k].task
  }

  predicate IsEndpointSet(endpoints: set<string>) {
    |endpoints| <= MAX_DISCOVERED_ENDPOINTS && FALLBACK_STREAM_KEY !in endpoints
  }

  /**
   What every registry keeps: the fallback stands alone under its own key, at most sixteen streams
   are discovered ones, each stream has its own task, and exactly the registered tasks are active.
   */
  predicate IsSound(required: bool, r: Registry) {
    KeysAreSound(r.streams) && TasksAreSound(r) && r.ready == IsReadyWith(required, r.streams)
  }

  predicate KeysAreSound(streams: map<string, Entry>) {
    && (forall k :: k in streams ==> (k == FALLBACK_STREAM_KEY <==> streams[k].source == Fallback))
    && (FALLBACK_STREAM_KEY in streams ==> streams.Keys == {FALLBACK_STREAM_KEY})
    && |streams.Keys| <= MAX_DISCOVERED_ENDPOINTS
  }

  predicate TasksAreSound(r: Registry) {
    && (forall k, l :: k in r.streams && l in r.streams && k != l ==> r.streams[k].task != r.streams[l].task)
    && r.active == Tasks(r.streams)
    && (forall t :: t in r.active ==> t < r.nextTask)
  }

  // ---- The critical sections ----

  function Flagged(required: bool, r: Registry, key: string, connected: bool): Registry {
    if key !in r.streams then r
    else
      var streams := r.streams[key := r.streams[key].(connected := connected)];
      r.(streams := streams, ready := IsReadyWith(required, streams))
  }

  function Removed(required: bool, r: Registry, key: string): Registry {
    if key !in r.streams then r
    else
      var streams := r.streams - {key};
      Registry(streams, r.active - {r.streams[key].task}, r.nextTask, IsReadyWith(required, streams))
  }

  function Spawned(required: bool, r: Registry, key: string, source: Source): Registry {
    if key in r.streams then r
    else
      var streams := r.streams[key := Entry(source, false, r.nextTask)];
      Registry(streams, r.active + {r.nextTask}, r.nextTask + 1, IsReadyWith(required, streams))
  }

  // ---- The manager's task, with stream tasks interleaved ----

  /**
   Where the manager's task stands. A round remembers the endpoints it found, the keys it still has
   to drop or add, and the registry it began with.
   */
  datatype Phase =
    | Idle
    | FallingBack
    | Dropping(endpoints: set<string>, stale: set<string>, start: Registry)
    | Adding(endpoints: set<string>, missing: set<string>, start: Registry)

  datatype Machine = Machine(registry: Registry, phase: Phase)

  function Initial(required: bool): Machine {
    Machine(Registry(map[], {}, 0, !required), Idle)
  }

  /** A step is one call into the registry; a stream task may set its flag between any two of the manager's. */
  datatype Step =
    | SetConnected(key: string, connected: bool)
    | Discover(result: Option<set<string>>)
    | FallBack
    | Drop(key: string)
    | LeaveFallback
    | Add(key: string)
    | Finish

  predicate Enabled(m: Machine, step: Step) {
    match step
    case SetConnected(_, _) => true
    case Discover(result) => m.phase.Idle? && (result.Some? ==> IsEndpointSet(result.value))
    case FallBack => m.phase.FallingBack?
    case Drop(key) => m.phase.Dropping? && key in m.phase.stale
    case LeaveFallback => m.phase.Dropping? && m.phase.stale == {}
    case Add(key) => m.phase.Adding? && key in m.phase.missing
    case Finish => m.phase.Adding? && m.phase.missing == {}
  }

  function DiscoveredKeys(streams: map<string, Entry>): set<string> {
    set k | k in streams && streams[k].source == Discovered
  }

  predicate HasFallback(streams: map<string, Entry>) {
    FALLBACK_STREAM_KEY in streams && streams[FALLBACK_STREAM_KEY].source == Fallback
  }

  /** A failed discovery and an empty one come to the same; a successful one starts by dropping. */
  function AfterDiscovery(r: Registry, result: Option<set<string>>): Phase {
    if result.Some? && result.value != {} then Dropping(result.value, DiscoveredKeys(r.streams) - result.value, r)
    else if r.streams == map[] then FallingBack
    else Idle
  }

  function Do(required: bool, m: Machine, step: Step): Machine
    requires Enabled(m, step)
  {
    var r, phase := m.registry, m.phase;
    match step
    case SetConnected(key, connected) => m.(registry := Flagged(required, r, key, connected))
    case Discover(result) => m.(phase := AfterDiscovery(r, result))
    case FallBack => Machine(Spawned(required, r, FALLBACK_STREAM_KEY, Fallback), Idle)
    case Drop(key) => Machine(Removed(required, r, key), phase.(stale := phase.stale - {key}))
    case LeaveFallback =>
      Machine(if HasFallback(r.streams) then Removed(required, r, FALLBACK_STREAM_KEY) else r,
              Adding(phase.endpoints, phase.endpoints, phase.start))
    case Add(key) => Machine(Spawned(required, r, key, Discovered), phase.(missing := phase.missing - {key}))
    case Finish => m.(phase := Idle)
  }

  predicate Reaches(required: bool, m: Machine, steps: seq<Step>, m': Machine)
    decreases |steps|
  {
    if steps == [] then m' == m
    else Enabled(m, steps[0]) && Reaches(required, Do(required, m, steps[0]), steps[1..], m')
  }

  ghost predicate Reachable(required: bool, m: Machine) {
    exists steps :: Reaches(required, Initial(required), steps, m)
  }

  lemma {:induction false} ReachesSnoc(required: bool, m: Machine, steps: seq<Step>, m': Machine, step: Step)
    requires Reaches(required, m, steps, m') && Enabled(m', step)
    ensures Reaches(required, m, steps + [step], Do(required, m', step))
    decreases |steps|
  {
    if steps != [] {
      ReachesSnoc(required, Do(required, m, steps[0]), steps[1..], m', step);
      assert (steps + [step])[1..] == steps[1..] + [step];
    }
  }

  lemma {:induction false} ReachesConcat(required: bool, m: Machine, a: seq<Step>, m': Machine,
                                        b: seq<Step>, m'': Machine)
    requires Reaches(required, m, a, m') && Reaches(required, m', b, m'')
    ensures Reaches(required, m, a + b, m'')
    decreases |a|
  {
    if a == [] {
      assert a + b == b;
    } else {
      ReachesConcat(required, Do(required, m, a[0]), a[1..], m', b, m'');
      assert (a + b)[1..] == a[1..] + b;
    }
  }

  // ---- The run invariant ----

  /** What a registry in the middle of a round owes to the one the round began with. */
  predicate Continues(start: Registry, r: Registry, endpoints: set<string>) {
    && start.nextTask <= r.nextTask
    && (forall k :: k in start.streams && k in endpoints ==> k in r.streams)
    && (forall k :: k in r.streams ==>
          if k in start.streams then SameStream(start.streams[k], r.streams[k])
          else k in endpoints && r.streams[k].task >= start.nextTask)
  }

  /** The same task feeds the stream; its flag may have changed. */
  predicate SameStream(e: Entry, e': Entry) {
    e'.source == e.source && e'.task == e.task
  }

  predicate PhaseIsSound(required: bool, r: Registry, phase: Phase) {
    match phase
    case Idle => true
    case FallingBack => r.streams == map[]
    case Dropping(endpoints, stale, start) =>
      && IsEndpointSet(endpoints) && endpoints != {} && stale !! endpoints
      && IsSound(required, start) && Continues(start, r, endpoints)
      && r.streams.Keys <= start.streams.Keys
      && DiscoveredKeys(r.streams) <= endpoints + stale
    case Adding(endpoints, missing, start) =>
      && IsEndpointSet(endpoints) && endpoints != {} && missing <= endpoints
      && IsSound(required, start) && Continues(start, r, endpoints)
      && r.streams.Keys <= endpoints <= r.streams.Keys + missing
  }

  predicate Invariant(required: bool, m: Machine) {
    IsSound(required, m.registry) && PhaseIsSound(required, m.registry, m.phase)
  }

  lemma RemoveKeepsSound(required: bool, r: Registry, key: string)
    requires IsSound(required, r)
    ensures IsSound(required, Removed(required, r, key))
  {
    if key in r.streams {
      var r' := Removed(required, r, key);
      assert r'.streams.Keys == r.streams.Keys - {key};
      SubsetCardinality(r'.streams.Keys, r.streams.Keys);
      TasksWithout(r.streams, key);
    }
  }

  /** Where a new stream may go. */
  predicate HasPlace(streams: map<string, Entry>, key: string, source: Source) {
    if source == Fallback then key == FALLBACK_STREAM_KEY && streams.Keys == {}
    else key != FALLBACK_STREAM_KEY && FALLBACK_STREAM_KEY !in streams && |streams.Keys| < MAX_DISCOVERED_ENDPOINTS
  }

  lemma SpawnKeepsKeys(streams: map<string, Entry>, key: string, entry: Entry)
    requires KeysAreSound(streams) && key !in streams && HasPlace(streams, key, entry.source)
    ensures KeysAreSound(streams[key := entry])
  {
    assert streams[key := entry].Keys == streams.Keys + {key};
  }

  lemma SpawnKeepsTasks(required: bool, r: Registry, key: string, source: Source)
    requires TasksAreSound(r) && key !in r.streams
    ensures TasksAreSound(Spawned(required, r, key, source))
  {
    TasksWith(r.streams, key, Entry(source, false, r.nextTask));
    assert forall k :: k in r.streams ==> r.streams[k].task in r.active;
  }

  lemma SpawnKeepsSound(required: bool, r: Registry, key: string, source: Source)
    requires IsSound(required, r)
    requires key !in r.streams ==> HasPlace(r.streams, key, source)
    ensures IsSound(required, Spawned(required, r, key, source))
  {
    if key !in r.streams {
      SpawnKeepsKeys(r.streams, key, Entry(source, false, r.nextTask));
      SpawnKeepsTasks(required, r, key, source);
    }
  }

  lemma TasksWithout(streams: map<string, Entry>, key: string)
    requires key in streams
    requires forall k, l :: k in streams && l in streams && k != l ==> streams[k].task != streams[l].task
    ensures Tasks(streams - {key}) == Tasks(streams) - {streams[key].task}
  {
    var rest := streams - {key};
    forall t | t in Tasks(streams) - {streams[key].task} ensures t in Tasks(rest) {
      var k :| k in streams && streams[k].task == t;
      assert k in rest;
    }
  }

  lemma TasksWith(streams: map<string, Entry>, key: string, entry: Entry)
    requires key !in streams
    ensures Tasks(streams[key := entry]) == Tasks(streams) + {entry.task}
  {
    var more := streams[key := entry];
    assert key in more && more[key] == entry;
    forall t | t in Tasks(streams) ensures t in Tasks(more) {
      var k :| k in streams && streams[k].task == t;
      assert k in more && more[k].task == t;
    }
  }

  lemma FlagKeepsSound(required: bool, r: Registry, key: string, connected: bool)
    requires IsSound(required, r)
    ensures IsSound(required, Flagged(required, r, key, connected))
  {
    if key in r.streams {
      var r' := Flagged(required, r, key, connected);
      assert r'.streams.Keys == r.streams.Keys;
      SameTasks(r.streams, r'.streams);
      SameTasks(r'.streams, r.streams);
    }
  }

  lemma SameTasks(before: map<string, Entry>, after: map<string, Entry>)
    requires before.Keys <= after.Keys && forall k :: k in before ==> before[k].task == after[k].task
    ensures Tasks(before) <= Tasks(after)
  {
    forall t | t in Tasks(before) ensures t in Tasks(after) {
      var k :| k in before && before[k].task == t;
      assert k in after && after[k].task == t;
    }
  }

  lemma FlagKeepsPhase(required: bool, m: Machine, key: string, connected: bool)
    requires Invariant(required, m)
    ensures PhaseIsSound(required, Flagged(required, m.registry, key, connected), m.phase)
  {
    var r, r' := m.registry, Flagged(required, m.registry, key, connected);
    assert r'.streams.Keys == r.streams.Keys;
    assert DiscoveredKeys(r'.streams) == DiscoveredKeys(r.streams);
  }

  lemma DiscoverKeepsInvariant(required: bool, m: Machine, result: Option<set<string>>)
    requires Invariant(required, m) && Enabled(m, Discover(result))
    ensures Invariant(required, Do(required, m, Discover(result)))
  {
  }

  lemma FallBackKeepsInvariant(required: bool, m: Machine)
    requires Invariant(required, m) && Enabled(m, FallBack)
    ensures Invariant(required, Do(required, m, FallBack))
  {
    SpawnKeepsSound(required, m.registry, FALLBACK_STREAM_KEY, Fallback);
  }

  lemma DropKeepsInvariant(required: bool, m: Machine, key: string)
    requires Invariant(required, m) && Enabled(m, Drop(key))
    ensures Invariant(required, Do(required, m, Drop(key)))
  {
    RemoveKeepsSound(required, m.registry, key);
  }

  lemma LeaveFallbackKeepsInvariant(required: bool, m: Machine)
    requires Invariant(required, m) && Enabled(m, LeaveFallback)
    ensures Invariant(required, Do(required, m, LeaveFallback))
  {
    RemoveKeepsSound(required, m.registry, FALLBACK_STREAM_KEY);
    assert forall k :: k in m.registry.streams && k != FALLBACK_STREAM_KEY ==> k in DiscoveredKeys(m.registry.streams);
  }

  lemma AddKeepsInvariant(required: bool, m: Machine, key: string)
    requires Invariant(required, m) && Enabled(m, Add(key))
    ensures Invariant(required, Do(required, m, Add(key)))
  {
    if key !in m.registry.streams {
      SubsetCardinality(m.registry.streams.Keys, m.phase.endpoints);
    }
    SpawnKeepsSound(required, m.registry, key, Discovered);
  }

  lemma StepKeepsInvariant(required: bool, m: Machine, step: Step)
    requires Invariant(required, m) && Enabled(m, step)
    ensures Invariant(required, Do(required, m, step))
  {
    match step
    case SetConnected(key, connected) =>
      FlagKeepsSound(required, m.registry, key, connected);
      FlagKeepsPhase(required, m, key, connected);
    case Discover(result) => DiscoverKeepsInvariant(required, m, result);
    case FallBack => FallBackKeepsInvariant(required, m);
    case Drop(key) => DropKeepsInvariant(required, m, key);
    case LeaveFallback => LeaveFallbackKeepsInvariant(required, m);
    case Add(key) => AddKeepsInvariant(required, m, key);
    case Finish =>
  }

  lemma {:induction false} RunKeepsInvariant(required: bool, m: Machine, steps: seq<Step>, m': Machine)
    requires Invariant(required, m) && Reaches(required, m, steps, m')
    ensures Invariant(required, m')
    decreases |steps|
  {
    if steps != [] {
      StepKeepsInvariant(required, m, steps[0]);
      RunKeepsInvariant(required, Do(required, m, steps[0]), steps[1..], m');
    }
  }

  lemma InitialIsSound(required: bool)
    ensures Invariant(required, Initial(required))
  {
    assert ConnectedKeys(map[]) == {};
  }

  // ---- What every run keeps ----

  /**
   Over every interleaving of discovery rounds and stream tasks the registry is sound at each step,
   in the middle of a round too: the fallback never beside discovered streams, at most sixteen
   streams, exactly the registered tasks active, readiness as published.
   */
  lemma RunsStaySound(required: bool, m: Machine)
    requires Reachable(required, m)
    ensures Invariant(required, m)
  {
    var steps :| Reaches(required, Initial(required), steps, m);
    InitialIsSound(required);
    RunKeepsInvariant(required, Initial(required), steps, m);
  }

  /** Not left empty between rounds. */
  predicate IsSettled(m: Machine) {
    m.phase.Idle? ==> m.registry.streams != map[]
  }

  lemma StepSettles(required: bool, m: Machine, step: Step)
    requires Invariant(required, m) && Enabled(m, step)
    requires IsSettled(m) || step.Discover?
    ensures IsSettled(Do(required, m, step))
  {
    var m' := Do(required, m, step);
    match step
    case SetConnected(key, _) => assert m'.registry.streams.Keys == m.registry.streams.Keys;
    case FallBack => assert FALLBACK_STREAM_KEY in m'.registry.streams;
    case Finish => assert m.phase.endpoints <= m.registry.streams.Keys;
    case _ =>
  }

  /** From the first discovery on, successful or not, the registry is never empty between rounds. */
  lemma {:induction false} NeverEmptyBetweenRounds(required: bool, m: Machine, steps: seq<Step>, m': Machine)
    requires Invariant(required, m) && Reaches(required, m, steps, m')
    requires IsSettled(m) || exists i :: 0 <= i < |steps| && steps[i].Discover?
    ensures IsSettled(m')
    decreases |steps|
  {
    if steps != [] {
      var next, rest := Do(required, m, steps[0]), steps[1..];
      StepKeepsInvariant(required, m, steps[0]);
      if IsSettled(m) || steps[0].Discover? {
        StepSettles(required, m, steps[0]);
      } else {
        var i :| 0 <= i < |steps| && steps[i].Discover?;
        assert rest[i - 1].Discover?;
      }
      NeverEmptyBetweenRounds(required, next, rest, m');
    }
  }

  /** Inside a round it is, exactly when no stream of the round's start is among the endpoints found. */
  lemma EmptyInsideRoundExactlyWhen(required: bool, m: Machine)
    requires Reachable(required, m) && Enabled(m, LeaveFallback)
    ensures Do(required, m, LeaveFallback).registry.streams == map[]
            <==> m.phase.start.streams.Keys !! m.phase.endpoints
  {
    RunsStaySound(required, m);
    LeaveFallbackKeepsInvariant(required, m);
    var m' := Do(required, m, LeaveFallback);
    SurvivingKeys(m.phase.start, m.registry, m'.registry, m.phase.endpoints);
  }

  lemma SurvivingKeys(start: Registry, r: Registry, r': Registry, endpoints: set<string>)
    requires Continues(start, r', endpoints)
    requires r'.streams.Keys <= r.streams.Keys <= start.streams.Keys && r'.streams.Keys <= endpoints
    ensures r'.streams.Keys == start.streams.Keys * endpoints
    ensures r'.streams == map[] <==> start.streams.Keys !! endpoints
  {
  }

  /** A task that was spawned and is no longer active. */
  predicate IsRetired(r: Registry, task: nat) {
    task < r.nextTask && task !in r.active
  }

  /** Deactivation is final: in every continuation no retired task is ever active again. */
  lemma {:induction false} RetiredTasksStayRetired(required: bool, m: Machine, steps: seq<Step>, m': Machine, task: nat)
    requires Reaches(required, m, steps, m') && IsRetired(m.registry, task)
    ensures IsRetired(m'.registry, task)
    decreases |steps|
  {
    if steps != [] {
      RetiredTasksStayRetired(required, Do(required, m, steps[0]), steps[1..], m', task);
    }
  }

  // ---- Connection flags ----

  /** A registered stream's flag becomes what is set; nothing else changes but the readiness that follows from it. */
  lemma SetConnectedSetsTheFlag(required: bool, m: Machine, key: string, connected: bool)
    requires key in m.registry.streams
    ensures var before, after := m.registry, Do(required, m, SetConnected(key, connected)).registry;
            && after.streams.Keys == before.streams.Keys
            && after.streams[key] == Entry(before.streams[key].source, connected, before.streams[key].task)
            && (forall k :: k in before.streams && k != key ==> after.streams[k] == before.streams[k])
            && after.active == before.active && after.nextTask == before.nextTask
            && (connected ==> after.ready)
  {
    var after := Do(required, m, SetConnected(key, connected)).registry;
    if connected {
      assert key in ConnectedKeys(after.streams);
    }
  }

  /** In every run, ready means not required or some registered stream connected. */
  lemma ReadyExactlyWhen(required: bool, m: Machine)
    requires Reachable(required, m)
    ensures m.registry.ready <==> !required || exists k :: k in m.registry.streams && m.registry.streams[k].connected
  {
    RunsStaySound(required, m);
    CoverageAddsUp(m.registry.streams);
  }

  /** No stream task sets this stream's flag. */
  predicate LeavesFlag(steps: seq<Step>, key: string) {
    forall i :: 0 <= i < |steps| && steps[i].SetConnected? ==> steps[i].key != key
  }

  /** A step that sets no flag of a stream keeps its entry, or drops it and retires its task. */
  lemma StepLeavesEntry(required: bool, m: Machine, step: Step, key: string)
    requires Invariant(required, m) && Enabled(m, step) && key in m.registry.streams
    requires step.SetConnected? ==> step.key != key
    ensures var r, r' := m.registry, Do(required, m, step).registry;
            if key in r'.streams then r'.streams[key] == r.streams[key] else IsRetired(r', r.streams[key].task)
  {
    assert m.registry.streams[key].task in m.registry.active;
  }

  /** As long as the same task feeds a stream and nobody sets its flag, the flag stays. */
  lemma {:induction false} FlagStays(required: bool, m: Machine, steps: seq<Step>, m': Machine, key: string)
    requires Invariant(required, m) && Reaches(required, m, steps, m') && LeavesFlag(steps, key)
    requires key in m.registry.streams && key in m'.registry.streams
    requires m'.registry.streams[key].task == m.registry.streams[key].task
    ensures m'.registry.streams[key] == m.registry.streams[key]
    decreases |steps|
  {
    if steps != [] {
      var next, rest := Do(required, m, steps[0]), steps[1..];
      var task := m.registry.streams[key].task;
      StepKeepsInvariant(required, m, steps[0]);
      StepLeavesEntry(required, m, steps[0], key);
      if key in next.registry.streams {
        FlagStays(required, next, rest, m', key);
      } else {
        RetiredTasksStayRetired(required, next, rest, m', task);
        RunKeepsInvariant(required, next, rest, m');
      }
    }
  }

  /** The flag of a stream is the last one set for it while its task fed it. */
  lemma FlagIsTheLastSet(required: bool, m: Machine, key: string, connected: bool, steps: seq<Step>, m': Machine)
    requires Reachable(required, m) && key in m.registry.streams
    requires Reaches(required, Do(required, m, SetConnected(key, connected)), steps, m') && LeavesFlag(steps, key)
    requires key in m'.registry.streams && m'.registry.streams[key].task == m.registry.streams[key].task
    ensures m'.registry.streams[key].connected == connected
  {
    RunsStaySound(required, m);
    StepKeepsInvariant(required, m, SetConnected(key, connected));
    SetConnectedSetsTheFlag(required, m, key, connected);
    FlagStays(required, Do(required, m, SetConnected(key, connected)), steps, m', key);
  }

  /** Until one is set, the flag of a stream that was not there before is false. */
  lemma {:induction false} FlagIsFalseUntilSet(required: bool, m: Machine, key: string, steps: seq<Step>, m': Machine)
    requires Reaches(required, m, steps, m') && LeavesFlag(steps, key)
    requires key in m.registry.streams ==> !m.registry.streams[key].connected
    ensures key in m'.registry.streams ==> !m'.registry.streams[key].connected
    decreases |steps|
  {
    if steps != [] {
      FlagIsFalseUntilSet(required, Do(required, m, steps[0]), key, steps[1..], m');
    }
  }

  // ---- What a round achieves ----

  /**
   Exactly the discovered endpoints are streamed: survivors by the task they had, newcomers by
   fresh ones, and the tasks of all other streams are retired.
   */
  predicate Reconciled(before: Registry, after: Registry, endpoints: set<string>) {
    && after.streams.Keys == endpoints
    && (forall k :: k in endpoints && k in before.streams ==> SameStream(before.streams[k], after.streams[k]))
    && (forall k :: k in endpoints && k !in before.streams ==>
          after.streams[k].source == Discovered && after.streams[k].task >= before.nextTask)
    && (forall k :: k in before.streams && k !in endpoints ==> IsRetired(after, before.streams[k].task))
  }

  /** The round that began with `before` and these endpoints is under way or done. */
  predicate InRound(before: Registry, endpoints: set<string>, m: Machine) {
    match m.phase
    case Idle => Reconciled(before, m.registry, endpoints)
    case FallingBack => false
    case Dropping(found, _, start) => found == endpoints && start == before
    case Adding(found, _, start) => found == endpoints && start == before
  }

  lemma FinishReconciles(required: bool, m: Machine)
    requires Invariant(required, m) && Enabled(m, Finish)
    ensures Reconciled(m.phase.start, m.registry, m.phase.endpoints)
  {
    var start, r := m.phase.start, m.registry;
    assert r.streams.Keys == m.phase.endpoints;
    forall k | k in start.streams && k !in m.phase.endpoints ensures IsRetired(r, start.streams[k].task) {
      DroppedTaskIsRetired(required, start, r, m.phase.endpoints, k);
    }
  }

  lemma DroppedTaskIsRetired(required: bool, start: Registry, r: Registry, endpoints: set<string>, key: string)
    requires IsSound(required, start) && TasksAreSound(r) && Continues(start, r, endpoints)
    requires key in start.streams && key !in r.streams
    ensures IsRetired(r, start.streams[key].task)
  {
    assert start.streams[key].task in start.active;
  }

  lemma StepStaysInRound(required: bool, before: Registry, endpoints: set<string>, m: Machine, step: Step)
    requires Invariant(required, m) && InRound(before, endpoints, m)
    requires Enabled(m, step) && !step.Discover?
    ensures InRound(before, endpoints, Do(required, m, step))
  {
    match step
    case Finish => FinishReconciles(required, m);
    case SetConnected(key, connected) =>
      if m.phase.Idle? {
        FlagKeepsReconciled(required, before, m.registry, endpoints, key, connected);
      }
    case _ =>
  }

  lemma FlagKeepsReconciled(required: bool, before: Registry, r: Registry, endpoints: set<string>,
                            key: string, connected: bool)
    requires Reconciled(before, r, endpoints)
    ensures Reconciled(before, Flagged(required, r, key, connected), endpoints)
  {
    assert Flagged(required, r, key, connected).streams.Keys == r.streams.Keys;
  }

  lemma {:induction false} RunStaysInRound(required: bool, before: Registry, endpoints: set<string>,
                                           m: Machine, steps: seq<Step>, m': Machine)
    requires Invariant(required, m) && InRound(before, endpoints, m)
    requires Reaches(required, m, steps, m') && forall i :: 0 <= i < |steps| ==> !steps[i].Discover?
    ensures InRound(before, endpoints, m')
    decreases |steps|
  {
    if steps != [] {
      StepKeepsInvariant(required, m, steps[0]);
      StepStaysInRound(required, before, endpoints, m, steps[0]);
      RunStaysInRound(required, before, endpoints, Do(required, m, steps[0]), steps[1..], m');
    }
  }

  /** However stream tasks interfere, a round that finds endpoints and comes to its end has reconciled the registry. */
  lemma CompletedRoundReconciles(required: bool, m: Machine, endpoints: set<string>, steps: seq<Step>, m': Machine)
    requires Reachable(required, m) && Enabled(m, Discover(Some(endpoints))) && endpoints != {}
    requires Reaches(required, Do(required, m, Discover(Some(endpoints))), steps, m')
    requires forall i :: 0 <= i < |steps| ==> !steps[i].Discover?
    requires m'.phase.Idle?
    ensures Reconciled(m.registry, m'.registry, endpoints)
  {
    RunsStaySound(required, m);
    StepKeepsInvariant(required, m, Discover(Some(endpoints)));
    RunStaysInRound(required, m.registry, endpoints, Do(required, m, Discover(Some(endpoints))), steps, m');
  }

  /** At every step of such a round, and at its end, each stream dropped so far has its task deactivated. */
  lemma RemovedTasksAreInactive(required: bool, m: Machine, endpoints: set<string>, steps: seq<Step>, m': Machine,
                                key: string)
    requires Reachable(required, m) && Enabled(m, Discover(Some(endpoints))) && endpoints != {}
    requires Reaches(required, Do(required, m, Discover(Some(endpoints))), steps, m')
    requires forall i :: 0 <= i < |steps| ==> !steps[i].Discover?
    requires key in m.registry.streams && key !in m'.registry.streams
    ensures IsRetired(m'.registry, m.registry.streams[key].task)
  {
    var first := Do(required, m, Discover(Some(endpoints)));
    RunsStaySound(required, m);
    StepKeepsInvariant(required, m, Discover(Some(endpoints)));
    RunKeepsInvariant(required, first, steps, m');
    RunStaysInRound(required, m.registry, endpoints, first, steps, m');
    if !m'.phase.Idle? {
      DroppedTaskIsRetired(required, m.registry, m'.registry, endpoints, key);
    }
  }

  // ---- Undisturbed rounds ----

  /** No stream task interferes and no other round begins. */
  predicate IsQuiet(steps: seq<Step>) {
    forall i :: 0 <= i < |steps| ==> !steps[i].SetConnected? && !steps[i].Discover?
  }

  /** Survivors keep their whole entries and newcomers are unconnected. */
  predicate FlagsKept(before: Registry, after: Registry) {
    forall k :: k in after.streams ==>
      if k in before.streams then after.streams[k] == before.streams[k] else !after.streams[k].connected
  }

  lemma {:induction false} QuietRoundKeepsFlags(required: bool, before: Registry, endpoints: set<string>,
                                               m: Machine, steps: seq<Step>, m': Machine)
    requires Invariant(required, m) && InRound(before, endpoints, m) && FlagsKept(before, m.registry)
    requires Reaches(required, m, steps, m') && IsQuiet(steps)
    ensures FlagsKept(before, m'.registry)
    decreases |steps|
  {
    if steps != [] {
      var next := Do(required, m, steps[0]);
      StepKeepsInvariant(required, m, steps[0]);
      StepStaysInRound(required, before, endpoints, m, steps[0]);
      QuietStepKeepsFlags(required, before, endpoints, m, steps[0]);
      QuietRoundKeepsFlags(required, before, endpoints, next, steps[1..], m');
    }
  }

  lemma QuietStepKeepsFlags(required: bool, before: Registry, endpoints: set<string>, m: Machine, step: Step)
    requires Invariant(required, m) && InRound(before, endpoints, m) && FlagsKept(before, m.registry)
    requires Enabled(m, step) && !step.SetConnected? && !step.Discover?
    ensures FlagsKept(before, Do(required, m, step).registry)
  {
  }

  // ---- The manager ----

  class Manager {
    var streams: map<string, Entry>
    var active: set<nat>
    var nextTask: nat
    var ready: bool
    const required: bool

    function State(): Registry
      reads this
    {
      Registry(streams, active, nextTask, ready)
    }

    constructor (required: bool)
      ensures this.required == required
      ensures State() == Initial(required).registry
    {
      this.required := required;
      streams, active, nextTask, ready := map[], {}, 0, !required;
    }

    method RefreshHealth()
      modifies this
      ensures State() == old(State()).(ready := IsReadyWith(required, streams))
    {
      var connected := |ConnectedKeys(streams)|;
      ready := !required || connected > 0;
    }

    method SetStreamConnected(key: string, connected: bool) returns (wasConnected: bool)
      modifies this
      ensures State() == Flagged(required, old(State()), key, connected)
      ensures wasConnected == (key in old(streams) && old(streams)[key].connected)
    {
      if key !in streams {
        return false;
      }
      wasConnected := streams[key].connected;
      streams := streams[key := streams[key].(connected := connected)];
      RefreshHealth();
    }

    /** Remove a stream and clear its task's active flag. */
    method RemoveStream(key: string)
      modifies this
      ensures State() == Removed(required, old(State()), key)
    {
      if key in streams {
        var task := streams[key].task;
        streams := streams - {key};
        RefreshHealth();
        active := active - {task};
      }
    }

    /** Spawn a stream's task and register it, unless the key is taken. */
    method SpawnStream(key: string, source: Source)
      modifies this
      ensures State() == Spawned(required, old(State()), key, source)
    {
      if key !in streams {
        var task := nextTask;
        nextTask := nextTask + 1;
        active := active + {task};
        streams := streams[key := Entry(source, false, task)];
        RefreshHealth();
      }
    }

    /** The fallback stream is registered, whatever else is; one that is already there stays as it is. */
    method EnsureFallbackStream()
      modifies this
      ensures State() == Spawned(required, old(State()), FALLBACK_STREAM_KEY, Fallback)
    {
      if FALLBACK_STREAM_KEY in streams {
        return;
      }
      SpawnStream(FALLBACK_STREAM_KEY, Fallback);
    }

    /** The drop loop, over the keys read before it. */
    method DropStale(endpoints: set<string>) returns (ghost steps: seq<Step>)
      requires endpoints != {}
      modifies this
      ensures IsQuiet(steps)
      ensures Reaches(required, Machine(old(State()), AfterDiscovery(old(State()), Some(endpoints))), steps,
                      Machine(State(), Dropping(endpoints, {}, old(State()))))
    {
      var stale := DiscoveredKeys(streams) - endpoints;
      ghost var start := State();
      ghost var first := Machine(start, Dropping(endpoints, stale, start));
      steps := [];
      while stale != {}
        invariant IsQuiet(steps)
        invariant Reaches(required, first, steps, Machine(State(), Dropping(endpoints, stale, start)))
        decreases |stale|
      {
        var key :| key in stale;
        ReachesSnoc(required, first, steps, Machine(State(), Dropping(endpoints, stale, start)), Drop(key));
        RemoveStream(key);
        stale, steps := stale - {key}, steps + [Drop(key)];
      }
    }

    /** The spawn loop. */
    method AddMissing(endpoints: set<string>, ghost start: Registry) returns (ghost steps: seq<Step>)
      modifies this
      ensures IsQuiet(steps)
      ensures Reaches(required, Machine(old(State()), Adding(endpoints, endpoints, start)), steps,
                      Machine(State(), Adding(endpoints, {}, start)))
    {
      var missing := endpoints;
      ghost var first := Machine(State(), Adding(endpoints, endpoints, start));
      steps := [];
      while missing != {}
        invariant IsQuiet(steps)
        invariant Reaches(required, first, steps, Machine(State(), Adding(endpoints, missing, start)))
        decreases |missing|
      {
        var key :| key in missing;
        ReachesSnoc(required, first, steps, Machine(State(), Adding(endpoints, missing, start)), Add(key));
        SpawnStream(key, Discovered);
        missing, steps := missing - {key}, steps + [Add(key)];
      }
    }

    /** The rest of a round that found endpoints: drop what is gone, drop the fallback, add what is new. */
    method Reconcile(endpoints: set<string>) returns (ghost steps: seq<Step>)
      requires endpoints != {}
      modifies this
      ensures IsQuiet(steps)
      ensures Reaches(required, Machine(old(State()), AfterDiscovery(old(State()), Some(endpoints))), steps,
                      Machine(State(), Idle))
    {
      ghost var start := State();
      ghost var first := Machine(start, AfterDiscovery(start, Some(endpoints)));
      var dropping := DropStale(endpoints);
      ReachesSnoc(required, first, dropping, Machine(State(), Dropping(endpoints, {}, start)), LeaveFallback);
      if FALLBACK_STREAM_KEY in streams && streams[FALLBACK_STREAM_KEY].source == Fallback {
        RemoveStream(FALLBACK_STREAM_KEY);
      }
      ghost var left := Machine(State(), Adding(endpoints, endpoints, start));
      var adding := AddMissing(endpoints, start);
      ghost var last := Machine(State(), Adding(endpoints, {}, start));
      ReachesSnoc(required, left, adding, last, Finish);
      ReachesConcat(required, first, dropping + [LeaveFallback], left, adding + [Finish], Machine(State(), Idle));
      steps := (dropping + [LeaveFallback]) + (adding + [Finish]);
    }

    /**
     One round of `run_manager`, nothing interfering; `None` is a failed discovery. It takes the
     steps of a run, and a run's theorems are its theorems.
     */
    method DiscoveryRound(result: Option<set<string>>) returns (ghost steps: seq<Step>)
      requires IsSound(required, State()) && (result.Some? ==> IsEndpointSet(result.value))
      modifies this
      ensures IsQuiet(steps)
      ensures Reaches(required, Machine(old(State()), AfterDiscovery(old(State()), result)), steps,
                      Machine(State(), Idle))
      ensures IsSound(required, State())
      ensures if result.Some? && result.value != {} then
                Reconciled(old(State()), State(), result.value) && FlagsKept(old(State()), State())
              else if old(streams) == map[] then
                State() == Spawned(required, old(State()), FALLBACK_STREAM_KEY, Fallback)
              else State() == old(State())
    {
      ghost var start := State();
      ghost var first := Machine(start, AfterDiscovery(start, result));
      DiscoverKeepsInvariant(required, Machine(start, Idle), result);
      if result.Some? && result.value != {} {
        steps := Reconcile(result.value);
        ghost var last := Machine(State(), Idle);
        RunStaysInRound(required, start, result.value, first, steps, last);
        QuietRoundKeepsFlags(required, start, result.value, first, steps, last);
      } else if streams == map[] {
        ReachesSnoc(required, first, [], first, FallBack);
        EnsureFallbackStream();
        steps := [] + [FallBack];
      } else {
        steps := [];
      }
      RunKeepsInvariant(required, first, steps, Machine(State(), Idle));
    }
  }
}
