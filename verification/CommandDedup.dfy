/** The executor's dedup table and what it guarantees about concurrent `execute` calls. */
module CommandDedup {
  import opened Options

  datatype CommandResult = CommandResult(commandId: string, status: string, message: Option<string>)

  function AlreadyRunning(id: string): CommandResult {
    CommandResult(id, "skipped", Some("command already running"))
  }

  datatype Table = Table(completed: map<string, CommandResult>, running: set<string>)

  /** `dedup_begin`: a stored result, a refusal, or permission to run. */
  function Answer(t: Table, id: string): Option<CommandResult> {
    if id in t.completed then Some(t.completed[id])
    else if id in t.running then Some(AlreadyRunning(id))
    else None
  }

  function Begun(t: Table, id: string): Table {
    if Answer(t, id) == None then t.(running := t.running + {id}) else t
  }

  /** `dedup_finish` goes by the id inside the result. */
  function Finished(t: Table, result: CommandResult): Table {
    Table(t.completed[result.commandId := result], t.running - {result.commandId})
  }

  /** The mutex-guarded table; each method is one critical section. */
  class DedupTable {
    var completed: map<string, CommandResult>
    var running: set<string>

    function Contents(): Table
      reads this
    {
      Table(completed, running)
    }

    constructor ()
      ensures Contents() == Table(map[], {})
    {
      completed, running := map[], {};
    }

    method Begin(id: string) returns (answer: Option<CommandResult>)
      modifies this
      ensures answer == Answer(old(Contents()), id)
      ensures Contents() == Begun(old(Contents()), id)
    {
      if id in completed {
        return Some(completed[id]);
      }
      if id in running {
        return Some(AlreadyRunning(id));
      }
      running := running + {id};
      answer := None;
    }

    method Finish(result: CommandResult)
      modifies this
      ensures Contents() == Finished(old(Contents()), result)
    {
      running := running - {result.commandId};
      completed := completed[result.commandId := result];
    }
  }

  // ---- Interleavings of `execute` ----

  /** One `execute` call: whether its handler was started, and what it returned, once it has. */
  datatype Call = Call(id: string, ran: bool, returned: Option<CommandResult>)

  datatype State = State(table: Table, calls: seq<Call>)

  datatype Step =
    | Enter(id: string)
    | Complete(call: nat, status: string, message: Option<string>)

  const INITIAL: State := State(Table(map[], {}), [])

  predicate Executing(call: Call) {
    call.ran && call.returned == None
  }

  predicate Enabled(s: State, step: Step) {
    match step
    case Enter(_) => true
    case Complete(i, _, _) => i < |s.calls| && Executing(s.calls[i])
  }

  /** Handlers answer with their own command's id and anything else. */
  function Do(s: State, step: Step): State
    requires Enabled(s, step)
  {
    match step
    case Enter(id) =>
      var answer := Answer(s.table, id);
      State(Begun(s.table, id), s.calls + [Call(id, answer == None, answer)])
    case Complete(i, status, message) => CompleteWith(s, i, CommandResult(s.calls[i].id, status, message))
  }

  /** An executing call returns this result, whichever id it carries. */
  function CompleteWith(s: State, i: nat, result: CommandResult): State
    requires i < |s.calls| && Executing(s.calls[i])
  {
    State(Finished(s.table, result), s.calls[i := s.calls[i].(returned := Some(result))])
  }

  predicate Reaches(s: State, steps: seq<Step>, s': State)
    decreases |steps|
  {
    if steps == [] then s' == s
    else Enabled(s, steps[0]) && Reaches(Do(s, steps[0]), steps[1..], s')
  }

  ghost predicate Reachable(s: State) {
    exists steps :: Reaches(INITIAL, steps, s)
  }

  predicate Known(t: Table, id: string) {
    id in t.running || id in t.completed
  }

  /** Some call with this id was let through to its handler. */
  predicate HasRunner(calls: seq<Call>, id: string) {
    exists i :: 0 <= i < |calls| && calls[i].ran && calls[i].id == id
  }

  /** Where a call stands with the table. */
  predicate CallIsSound(t: Table, call: Call) {
    && Known(t, call.id)
    && (Executing(call) ==> call.id in t.running)
    && (call.ran && call.returned.Some? ==> call.id in t.completed && t.completed[call.id] == call.returned.value)
    && (!call.ran ==> call.returned.Some? && AnsweredFromTable(t, call.id, call.returned.value))
  }

  /** The refusal, or the stored result. */
  predicate AnsweredFromTable(t: Table, id: string, answer: CommandResult) {
    answer == AlreadyRunning(id) || (id in t.completed && answer == t.completed[id])
  }

  ghost predicate Invariant(s: State) {
    && s.table.running !! s.table.completed.Keys
    && (forall i, j :: 0 <= i < j < |s.calls| && s.calls[i].ran && s.calls[j].ran ==> s.calls[i].id != s.calls[j].id)
    && (forall i :: 0 <= i < |s.calls| ==> CallIsSound(s.table, s.calls[i]))
    && (forall id :: Known(s.table, id) ==> HasRunner(s.calls, id))
  }

  lemma RunnersStay(before: seq<Call>, after: seq<Call>, id: string)
    requires |before| <= |after|
    requires forall i :: 0 <= i < |before| ==> after[i].ran == before[i].ran && after[i].id == before[i].id
    ensures HasRunner(before, id) ==> HasRunner(after, id)
  {
    if i :| 0 <= i < |before| && before[i].ran && before[i].id == id {
      assert after[i].ran && after[i].id == id;
    }
  }

  lemma EnterKeepsInvariant(s: State, id: string)
    requires Invariant(s)
    ensures Invariant(Do(s, Enter(id)))
  {
    var s', last := Do(s, Enter(id)), |s.calls|;
    assert forall i :: 0 <= i < last ==> s'.calls[i] == s.calls[i];
    forall i, j | 0 <= i < j < |s'.calls| && s'.calls[i].ran && s'.calls[j].ran
      ensures s'.calls[i].id != s'.calls[j].id
    {
      if j == last {
        assert CallIsSound(s.table, s.calls[i]);
      }
    }
    forall i | 0 <= i < |s'.calls| ensures CallIsSound(s'.table, s'.calls[i]) {
      if i < last {
        assert CallIsSound(s.table, s.calls[i]);
      }
    }
    forall known | Known(s'.table, known) ensures HasRunner(s'.calls, known) {
      if Known(s.table, known) {
        RunnersStay(s.calls, s'.calls, known);
      } else {
        assert s'.calls[last].ran && s'.calls[last].id == known;
      }
    }
  }

  lemma CompleteKeepsInvariant(s: State, step: Step)
    requires Invariant(s) && step.Complete? && Enabled(s, step)
    ensures Invariant(Do(s, step))
  {
    var s', mine := Do(s, step), s.calls[step.call];
    assert CallIsSound(s.table, mine);
    forall i | 0 <= i < |s'.calls| ensures CallIsSound(s'.table, s'.calls[i]) {
      assert CallIsSound(s.table, s.calls[i]);
    }
    forall known | Known(s'.table, known) ensures HasRunner(s'.calls, known) {
      assert Known(s.table, known);
      RunnersStay(s.calls, s'.calls, known);
    }
  }

  lemma StepKeepsInvariant(s: State, step: Step)
    requires Invariant(s) && Enabled(s, step)
    ensures Invariant(Do(s, step))
  {
    match step
    case Enter(id) => EnterKeepsInvariant(s, id);
    case Complete(_, _, _) => CompleteKeepsInvariant(s, step);
  }

  lemma {:induction false} RunsKeepInvariant(s: State, steps: seq<Step>, s': State)
    requires Invariant(s) && Reaches(s, steps, s')
    ensures Invariant(s')
    decreases |steps|
  {
    if steps != [] {
      StepKeepsInvariant(s, steps[0]);
      RunsKeepInvariant(Do(s, steps[0]), steps[1..], s');
    }
  }

  lemma ReachableIsSound(s: State)
    requires Reachable(s)
    ensures Invariant(s)
  {
    var steps :| Reaches(INITIAL, steps, s);
    RunsKeepInvariant(INITIAL, steps, s);
  }

  /**
   At most once: over every interleaving exactly one call of each id that was ever entered starts
   the handler, nothing is both running and completed, and every other call with that id got the
   refusal or the very result the one handler returned.
   */
  lemma HandlersRunAtMostOnce(s: State, j: nat) returns (i: nat)
    requires Reachable(s) && j < |s.calls|
    ensures i < |s.calls| && s.calls[i].ran && s.calls[i].id == s.calls[j].id
    ensures forall k :: 0 <= k < |s.calls| && s.calls[k].ran && s.calls[k].id == s.calls[j].id ==> k == i
    ensures s.table.running !! s.table.completed.Keys
    ensures j != i ==> s.calls[j].returned in {Some(AlreadyRunning(s.calls[j].id)), s.calls[i].returned}
  {
    ReachableIsSound(s);
    assert CallIsSound(s.table, s.calls[j]);
    i :| 0 <= i < |s.calls| && s.calls[i].ran && s.calls[i].id == s.calls[j].id;
    assert CallIsSound(s.table, s.calls[i]);
  }

  /**
   What a call gets that enters now: the handler if no call had its id before, and otherwise the result
   the one handler returned, or a refusal while that handler is still at work.
   */
  lemma EnteringCallGets(s: State, id: string)
    requires Reachable(s)
    ensures var entered := Do(s, Enter(id)).calls;
            && |entered| == |s.calls| + 1 && entered[|s.calls|].id == id
            && (entered[|s.calls|].ran <==> forall k :: 0 <= k < |s.calls| ==> s.calls[k].id != id)
            && forall i :: 0 <= i < |s.calls| && s.calls[i].ran && s.calls[i].id == id ==>
                 entered[|s.calls|].returned ==
                 if s.calls[i].returned.Some? then s.calls[i].returned
                 else Some(CommandResult(id, "skipped", Some("command already running")))
  {
    ReachableIsSound(s);
    forall k | 0 <= k < |s.calls| && s.calls[k].id == id ensures Known(s.table, id) {
      assert CallIsSound(s.table, s.calls[k]);
    }
    if Known(s.table, id) {
      var runner :| 0 <= runner < |s.calls| && s.calls[runner].ran && s.calls[runner].id == id;
      assert CallIsSound(s.table, s.calls[runner]);
    }
  }

  /** A stored result is never replaced or lost. */
  lemma {:induction false} CompletedResultsAreFinal(s: State, steps: seq<Step>, s': State, id: string)
    requires Invariant(s) && Reaches(s, steps, s') && id in s.table.completed
    ensures id in s'.table.completed && s'.table.completed[id] == s.table.completed[id]
    decreases |steps|
  {
    if steps != [] {
      StepKeepsInvariant(s, steps[0]);
      if steps[0].Complete? {
        assert CallIsSound(s.table, s.calls[steps[0].call]);
      }
      CompletedResultsAreFinal(Do(s, steps[0]), steps[1..], s', id);
    }
  }

  // ---- Why a result must carry its own command's id ----

  /** Returning a result keeps the table sound if and only if the result carries the call's own id. */
  lemma SoundExactlyWhenResultIsOwn(s: State, i: nat, result: CommandResult)
    requires Invariant(s) && i < |s.calls| && Executing(s.calls[i])
    ensures Invariant(CompleteWith(s, i, result)) <==> result.commandId == s.calls[i].id
  {
    var mine := s.calls[i];
    assert CallIsSound(s.table, mine);
    if result.commandId == mine.id {
      CompleteKeepsInvariant(s, Complete(i, result.status, result.message));
    } else {
      assert !CallIsSound(CompleteWith(s, i, result).table, CompleteWith(s, i, result).calls[i]);
    }
  }

  /** The id is marked as running although no call with it is executing. */
  predicate IsStuck(s: State, id: string) {
    && id in s.table.running && id !in s.table.completed
    && forall k :: 0 <= k < |s.calls| && s.calls[k].id == id ==> !Executing(s.calls[k])
  }

  lemma {:induction false} StuckForever(s: State, steps: seq<Step>, s': State, id: string)
    requires IsStuck(s, id) && Reaches(s, steps, s')
    ensures IsStuck(s', id)
    decreases |steps|
  {
    if steps != [] {
      StuckForever(Do(s, steps[0]), steps[1..], s', id);
    }
  }

  /**
   A result with a foreign id leaves its own command refused as running in every continuation, and
   answers for the foreign command at once, whether that command ran or not.
   */
  lemma ForeignResultBlocksForever(s: State, i: nat, result: CommandResult, steps: seq<Step>, s': State)
    requires Invariant(s) && i < |s.calls| && Executing(s.calls[i]) && result.commandId != s.calls[i].id
    requires Reaches(CompleteWith(s, i, result), steps, s')
    ensures Answer(CompleteWith(s, i, result).table, result.commandId) == Some(result)
    ensures Answer(s'.table, s.calls[i].id) == Some(AlreadyRunning(s.calls[i].id))
  {
    var mine := s.calls[i];
    assert CallIsSound(s.table, mine);
    assert IsStuck(CompleteWith(s, i, result), mine.id);
    StuckForever(CompleteWith(s, i, result), steps, s', mine.id);
  }
}
