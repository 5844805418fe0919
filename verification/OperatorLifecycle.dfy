/**
 The leader's lifecycle loop: it remembers whether the action operator is enabled and which
 namespaces are excluded, and stamps action-mode labels when it reconciles as leader.
 */
module OperatorLifecycle {
  import opened Options
  import opened Text
  import opened CsvSettings
  import opened Collections
  import opened NamespaceExclusion

  const OPTED_OUT: string := "false"

  datatype ConfigMap = ConfigMap(
    resourceVersion: Option<string>, enabled: Option<string>, excludedNamespaces: Option<string>)

  predicate IsOperatorEnabled(cm: ConfigMap) {
    cm.enabled.Some? && Trim(cm.enabled.value) in {"true", "1"}
  }

  function ExcludedNamespaces(cm: ConfigMap): set<string> {
    CombinedExcludedNamespaces(match cm.excludedNamespaces case Some(raw) => ParseCsvValues(raw) case None => [])
  }

  datatype Event =
    | InitialRead(result: Option<ConfigMap>)
    | Changed(cm: ConfigMap)
    | Deleted
    | Bookmark(version: string)
    | WatchFailed
    | Tick

  /** A call of `reconcile_operator_workload`. */
  datatype Reconcile = Reconcile(enabled: bool, excluded: set<string>)

  datatype Memory = Memory(lastEnabled: Option<bool>, lastExcluded: set<string>, resourceVersion: string)

  const INITIAL: Memory := Memory(None, {}, "0")

  function Remember(m: Memory, event: Event): Memory {
    match event
    case InitialRead(Some(cm)) => m.(lastEnabled := Some(IsOperatorEnabled(cm)), lastExcluded := ExcludedNamespaces(cm))
    case Changed(cm) =>
      Memory(Some(IsOperatorEnabled(cm)), ExcludedNamespaces(cm),
             match cm.resourceVersion case Some(v) => v case None => m.resourceVersion)
    case Deleted => m.(lastEnabled := Some(false), lastExcluded := {})
    case Bookmark(version) => m.(resourceVersion := version)
    case _ => m
  }

  predicate CallsForReconcile(event: Event) {
    match event
    case InitialRead(result) => result.Some?
    case Bookmark(_) | WatchFailed => false
    case _ => true
  }

  /** Whether this event leads to a reconcile when this pod is the leader, and with what arguments. */
  function Reaction(m: Memory, event: Event, isLeader: bool): Option<Reconcile> {
    var m' := Remember(m, event);
    if isLeader && m'.lastEnabled.Some? && CallsForReconcile(event) then
      Some(Reconcile(m'.lastEnabled.value, m'.lastExcluded))
    else None
  }

  /** The event loop's state, updated in place as events arrive. */
  class Watcher {
    var lastEnabled: Option<bool>
    var lastExcluded: set<string>
    var resourceVersion: string

    function Remembered(): Memory
      reads this
    {
      Memory(lastEnabled, lastExcluded, resourceVersion)
    }

    constructor ()
      ensures Remembered() == INITIAL
    {
      lastEnabled, lastExcluded, resourceVersion := None, {}, "0";
    }

    method Handle(event: Event, isLeader: bool) returns (call: Option<Reconcile>)
      modifies this
      ensures Remembered() == Remember(old(Remembered()), event)
      ensures call == Reaction(old(Remembered()), event, isLeader)
    {
      call := None;
      match event
      case InitialRead(result) =>
        if result.Some? {
          lastExcluded := ExcludedNamespaces(result.value);
          lastEnabled := Some(IsOperatorEnabled(result.value));
          if isLeader {
            call := Some(Reconcile(lastEnabled.value, lastExcluded));
          }
        }
      case Changed(cm) =>
        if cm.resourceVersion.Some? {
          resourceVersion := cm.resourceVersion.value;
        }
        lastExcluded := ExcludedNamespaces(cm);
        lastEnabled := Some(IsOperatorEnabled(cm));
        if isLeader {
          call := Some(Reconcile(lastEnabled.value, lastExcluded));
        }
      case Deleted =>
        lastEnabled, lastExcluded := Some(false), {};
        if isLeader {
          call := Some(Reconcile(false, lastExcluded));
        }
      case Bookmark(version) =>
        resourceVersion := version;
      case WatchFailed =>
      case Tick =>
        if lastEnabled.Some? && isLeader {
          call := Some(Reconcile(lastEnabled.value, lastExcluded));
        }
    }
  }

  function RememberAll(events: seq<Event>): Memory {
    if events == [] then INITIAL else Remember(RememberAll(events[..|events| - 1]), events[|events| - 1])
  }

  /** The configuration an event brings, if it brings one. */
  function ConfigIn(event: Event): Option<ConfigMap> {
    match event
    case InitialRead(result) => result
    case Changed(cm) => Some(cm)
    case _ => None
  }

  /** An event that says something about the configuration: that it is this one, or that it is gone. */
  predicate Tells(event: Event) {
    ConfigIn(event).Some? || event.Deleted?
  }

  /** An event with a configuration that enables the operator. */
  predicate Enables(event: Event) {
    && ConfigIn(event).Some? && ConfigIn(event).value.enabled.Some?
    && Trim(ConfigIn(event).value.enabled.value) in {"true", "1"}
  }

  /** No event after this telling one tells anything. */
  predicate IsLastTelling(events: seq<Event>, i: int) {
    0 <= i < |events| && Tells(events[i]) && forall j :: i < j < |events| ==> !Tells(events[j])
  }

  /** The entry is one of the built-in ones, or what some comma-separated piece of the setting holds. */
  predicate IsExclusion(cm: ConfigMap, entry: string) {
    || entry in SYSTEM_EXCLUDED_NAMESPACES
    || (&& cm.excludedNamespaces.Some? && entry != []
        && exists p :: p in Split(cm.excludedNamespaces.value, ',') && Trim(p) == entry)
  }

  lemma ExclusionsReadBack(cm: ConfigMap, entry: string)
    ensures entry in ExcludedNamespaces(cm) <==> IsExclusion(cm, entry)
  {
    if cm.excludedNamespaces.Some? {
      var values := ParseCsvValues(cm.excludedNamespaces.value);
      ListedExactlyWhen(cm.excludedNamespaces.value, entry);
      ParsedElementsAreClean(cm.excludedNamespaces.value);
      forall i | 0 <= i < |values| ensures Trim(values[i]) == values[i] != [] {
        TrimShape(values[i]);
      }
      if entry in values {
        var i :| 0 <= i < |values| && values[i] == entry;
        assert Trim(values[i]) == entry;
      }
    }
  }

  /** What is remembered is what the last telling event said: its setting, or nothing enabled and nothing excluded. */
  lemma {:induction false} TheLastTellingEventIsRemembered(events: seq<Event>, i: nat)
    requires IsLastTelling(events, i)
    ensures var m := RememberAll(events);
            && m.lastEnabled == Some(Enables(events[i]))
            && (forall entry :: entry in m.lastExcluded <==>
                  ConfigIn(events[i]).Some? && IsExclusion(ConfigIn(events[i]).value, entry))
  {
    var init := events[..|events| - 1];
    if i < |init| {
      TheLastTellingEventIsRemembered(init, i);
    } else if ConfigIn(events[i]).Some? {
      forall entry
        ensures entry in ExcludedNamespaces(ConfigIn(events[i]).value)
                <==> IsExclusion(ConfigIn(events[i]).value, entry)
      {
        ExclusionsReadBack(ConfigIn(events[i]).value, entry);
      }
    }
  }

  lemma {:induction false} NothingToldNothingRemembered(events: seq<Event>)
    requires forall j :: 0 <= j < |events| ==> !Tells(events[j])
    ensures RememberAll(events).lastEnabled == None && RememberAll(events).lastExcluded == {}
  {
    if events != [] {
      NothingToldNothingRemembered(events[..|events| - 1]);
    }
  }

  lemma {:induction false} LastTelling(events: seq<Event>) returns (i: nat)
    requires exists j :: 0 <= j < |events| && Tells(events[j])
    ensures IsLastTelling(events, i)
  {
    i := |events| - 1;
    if !Tells(events[i]) {
      var j :| 0 <= j < |events| && Tells(events[j]);
      assert Tells(events[..i][j]);
      i := LastTelling(events[..i]);
    }
  }

  lemma LastTellingIsOne(events: seq<Event>, i: int, k: int)
    requires IsLastTelling(events, i) && IsLastTelling(events, k)
    ensures i == k
  {
  }

  /** Over every sequence of events the operator counts as enabled exactly when the last word was that it is. */
  lemma EnabledExactlyWhen(events: seq<Event>)
    ensures RememberAll(events).lastEnabled == Some(true)
            <==> exists i :: IsLastTelling(events, i) && Enables(events[i])
    ensures RememberAll(events).lastEnabled == None <==> forall j :: 0 <= j < |events| ==> !Tells(events[j])
  {
    if exists j :: 0 <= j < |events| && Tells(events[j]) {
      var i := LastTelling(events);
      TheLastTellingEventIsRemembered(events, i);
      if k :| IsLastTelling(events, k) && Enables(events[k]) {
        LastTellingIsOne(events, i, k);
      }
    } else {
      NothingToldNothingRemembered(events);
    }
  }

  /**
   A reconcile is called for exactly by the leader, on a telling event or a tick, once anything was
   told; it is for what is remembered by then.
   */
  lemma ReconcilesExactlyWhen(events: seq<Event>, event: Event, isLeader: bool)
    ensures var call, m := Reaction(RememberAll(events), event, isLeader), RememberAll(events + [event]);
            && (call.Some? <==> && isLeader && (Tells(event) || event.Tick?)
                                && exists j :: 0 <= j < |events + [event]| && Tells((events + [event])[j]))
            && (call.Some? ==> m.lastEnabled == Some(call.value.enabled) && call.value.excluded == m.lastExcluded)
  {
    var all := events + [event];
    assert all[..|all| - 1] == events && all[|all| - 1] == event;
    EnabledExactlyWhen(all);
  }

  /** The version of the last watch event that carried one, from which the watch resumes. */
  lemma {:induction false} WatchResumesFromTheLastVersion(events: seq<Event>, i: nat, version: string)
    requires i < |events|
    requires events[i] == Bookmark(version) || (events[i].Changed? && events[i].cm.resourceVersion == Some(version))
    requires forall j :: i < j < |events| ==>
               !events[j].Bookmark? && (events[j].Changed? ==> events[j].cm.resourceVersion == None)
    ensures RememberAll(events).resourceVersion == version
  {
    if i < |events| - 1 {
      WatchResumesFromTheLastVersion(events[..|events| - 1], i, version);
    }
  }

  /** Enabled always comes with the built-in exclusions. */
  lemma {:induction false} EnabledRemembersBuiltIns(events: seq<Event>)
    ensures RememberAll(events).lastEnabled == Some(true)
            ==> Elements(SYSTEM_EXCLUDED_NAMESPACES) <= RememberAll(events).lastExcluded
  {
    if events != [] {
      EnabledRemembersBuiltIns(events[..|events| - 1]);
    }
  }

  // ---- The label pass ----

  datatype LabelWrite = SetTrue(namespace: string) | RemoveLabel(namespace: string)

  /** The one patch, if any, that a listed namespace calls for. */
  function NeededWrite(n: Namespace, enabled: bool, excluded: set<string>): Option<LabelWrite> {
    if n.name.None? then None
    else
      var name := n.name.value;
      if NamespaceIsExcluded(name, excluded) then
        if n.mode != Some(OPTED_OUT) && n.mode.Some? then Some(RemoveLabel(name)) else None
      else if enabled then
        if n.mode == Some(ENABLED) || n.mode == Some(OPTED_OUT) then None else Some(SetTrue(name))
      else if n.mode == Some(ENABLED) then Some(RemoveLabel(name))
      else None
  }

  function Listed(write: Option<LabelWrite>): seq<LabelWrite> {
    match write case None => [] case Some(w) => [w]
  }

  function WriteFor(n: Namespace, enabled: bool, excluded: set<string>): seq<LabelWrite> {
    Listed(NeededWrite(n, enabled, excluded))
  }

  function PassWrites(listing: seq<Namespace>, enabled: bool, excluded: set<string>): seq<LabelWrite> {
    if listing == [] then []
    else PassWrites(listing[..|listing| - 1], enabled, excluded) + WriteFor(listing[|listing| - 1], enabled, excluded)
  }

  type Labels = map<string, Option<string>>

  /** A merge patch of the one label key. */
  function ApplyWrite(labels: Labels, w: LabelWrite): Labels {
    if w.namespace !in labels then labels
    else labels[w.namespace := match w case SetTrue(_) => Some(ENABLED) case RemoveLabel(_) => None]
  }

  function ApplyWrites(labels: Labels, writes: seq<LabelWrite>): Labels {
    if writes == [] then labels
    else ApplyWrite(ApplyWrites(labels, writes[..|writes| - 1]), writes[|writes| - 1])
  }

  predicate AllSucceed(calls: nat, succeeds: nat -> bool) {
    forall k: nat :: k < calls ==> succeeds(k)
  }

  /**
   All the planned writes if every call succeeds, and otherwise those up to the first call that fails,
   with that one only if it landed all the same; `calls` counts the successful ones.
   */
  predicate StopsAtFirstFailure(plan: seq<LabelWrite>, complete: bool, calls: nat, writes: seq<LabelWrite>,
                                succeeds: nat -> bool, lands: nat -> bool) {
    && calls <= |plan| && AllSucceed(calls, succeeds)
    && if complete then calls == |plan| && writes == plan
       else calls < |plan| && !succeeds(calls) && writes == plan[..if lands(calls) then calls + 1 else calls]
  }

  /** Where the pass stands: these calls of the plan made, all of them successful and in force. */
  predicate HasCome(start: Labels, plan: seq<LabelWrite>, calls: nat, labels: Labels, succeeds: nat -> bool) {
    calls <= |plan| && AllSucceed(calls, succeeds) && labels == ApplyWrites(start, plan[..calls])
  }

  lemma NextCallStays(start: Labels, plan: seq<LabelWrite>, calls: nat, labels: Labels, succeeds: nat -> bool)
    requires HasCome(start, plan, calls, labels, succeeds) && calls < |plan|
    ensures ApplyWrites(start, plan[..calls + 1]) == ApplyWrite(labels, plan[calls])
    ensures succeeds(calls) ==> HasCome(start, plan, calls + 1, ApplyWrite(labels, plan[calls]), succeeds)
  {
    assert plan[..calls + 1][..calls] == plan[..calls];
  }

  class Cluster {
    var labels: Labels

    constructor (labels: Labels)
      ensures this.labels == labels
    {
      this.labels := labels;
    }

    /** One patch call: it lands if it succeeds, and perhaps although it is reported as failed. */
    method Patch(write: LabelWrite, landed: bool)
      modifies this
      ensures labels == if landed then ApplyWrite(old(labels), write) else old(labels)
    {
      if landed {
        labels := ApplyWrite(labels, write);
      }
    }

    /**
     `reconcile_action_mode_namespaces` after its list call: the first failing patch ends the pass,
     and a patch reported as failed may have landed all the same.
     */
    method LabelPass(listing: seq<Namespace>, enabled: bool, excluded: set<string>,
                     succeeds: nat -> bool, lands: nat -> bool)
      returns (complete: bool, calls: nat, ghost writes: seq<LabelWrite>)
      modifies this
      ensures StopsAtFirstFailure(PassWrites(listing, enabled, excluded), complete, calls, writes, succeeds, lands)
      ensures labels == ApplyWrites(old(labels), writes)
    {
      calls := 0;
      ghost var start, plan := labels, PassWrites(listing, enabled, excluded);
      for i := 0 to |listing|
        invariant HasCome(start, plan, calls, labels, succeeds)
        invariant PassWrites(listing[..i], enabled, excluded) == plan[..calls]
      {
        var wanted := NeededWrite(listing[i], enabled, excluded);
        NextWrites(listing, i, enabled, excluded, wanted, plan, calls);
        if wanted.Some? {
          var ok := succeeds(calls);
          NextCallStays(start, plan, calls, labels, succeeds);
          Patch(wanted.value, ok || lands(calls));
          if !ok {
            return false, calls, plan[..if lands(calls) then calls + 1 else calls];
          }
          calls := calls + 1;
        }
      }
      assert listing[..|listing|] == listing;
      complete, writes := true, plan;
      assert plan[..calls] == plan;
    }
  }

  /** The plan, one namespace further: its next write is the one the namespace needs, if it needs one. */
  lemma NextWrites(listing: seq<Namespace>, i: nat, enabled: bool, excluded: set<string>, wanted: Option<LabelWrite>,
                   plan: seq<LabelWrite>, calls: nat)
    requires i < |listing| && wanted == NeededWrite(listing[i], enabled, excluded)
    requires plan == PassWrites(listing, enabled, excluded) && calls <= |plan|
    requires PassWrites(listing[..i], enabled, excluded) == plan[..calls]
    ensures wanted.Some? ==> calls < |plan| && plan[calls] == wanted.value
    ensures PassWrites(listing[..i + 1], enabled, excluded) == plan[..if wanted.Some? then calls + 1 else calls]
  {
    assert listing[..i + 1][..i] == listing[..i];
    PassWritesPrefix(listing, i + 1, enabled, excluded);
    var further := PassWrites(listing[..i + 1], enabled, excluded);
    assert further == plan[..calls] + Listed(wanted);
    assert further == plan[..|further|];
    assert wanted.Some? ==> further[calls] == wanted.value;
  }

  lemma {:induction false} PassWritesPrefix(listing: seq<Namespace>, i: nat, enabled: bool, excluded: set<string>)
    requires i <= |listing|
    ensures PassWrites(listing[..i], enabled, excluded) <= PassWrites(listing, enabled, excluded)
  {
    if i == |listing| {
      assert listing[..i] == listing;
    } else {
      var init := listing[..|listing| - 1];
      assert init[..i] == listing[..i];
      PassWritesPrefix(init, i, enabled, excluded);
    }
  }

  lemma {:induction false} WritesRespectExclusion(listing: seq<Namespace>, enabled: bool, excluded: set<string>, k: nat)
    requires k < |PassWrites(listing, enabled, excluded)|
    ensures var w := PassWrites(listing, enabled, excluded)[k];
            && (w.SetTrue? ==> enabled && !NamespaceIsExcluded(w.namespace, excluded))
            && exists n :: n in listing && n.name == Some(w.namespace) && n.mode != Some(OPTED_OUT)
  {
    var init := listing[..|listing| - 1];
    if k < |PassWrites(init, enabled, excluded)| {
      WritesRespectExclusion(init, enabled, excluded, k);
    }
  }

  /** A namespace is to be labelled exactly when it is listed undecided, not excluded, and the operator is enabled. */
  lemma {:induction false} LabelledExactlyWhen(listing: seq<Namespace>, enabled: bool, excluded: set<string>, x: string)
    ensures SetTrue(x) in PassWrites(listing, enabled, excluded)
            <==> && enabled && !NamespaceIsExcluded(x, excluded)
                 && exists n :: n in listing && n.name == Some(x) && n.mode !in {Some("true"), Some("false")}
  {
    if listing != [] {
      var init, last := listing[..|listing| - 1], listing[|listing| - 1];
      LabelledExactlyWhen(init, enabled, excluded, x);
      assert forall n :: n in listing <==> n in init || n == last;
    }
  }

  /** Its label is to go exactly when it has one that is no opt-out, and it is excluded or the operator disabled. */
  lemma {:induction false} UnlabelledExactlyWhen(listing: seq<Namespace>, enabled: bool, excluded: set<string>,
                                                x: string)
    ensures RemoveLabel(x) in PassWrites(listing, enabled, excluded)
            <==> exists n :: && n in listing && n.name == Some(x) && n.mode.Some? && n.mode != Some("false")
                             && (NamespaceIsExcluded(x, excluded) || (!enabled && n.mode == Some("true")))
  {
    if listing != [] {
      var init, last := listing[..|listing| - 1], listing[|listing| - 1];
      UnlabelledExactlyWhen(init, enabled, excluded, x);
      assert forall n :: n in listing <==> n in init || n == last;
    }
  }

  /**
   Over every sequence of events and leadership changes and against any namespace listing, a
   reconcile never asks for the enabling label on a system namespace.
   */
  lemma SystemNamespacesAreNeverStamped(events: seq<Event>, event: Event, isLeader: bool, listing: seq<Namespace>,
                                        name: string)
    requires Reaction(RememberAll(events), event, isLeader).Some? && IsSystemNamespace(name)
    ensures var call := Reaction(RememberAll(events), event, isLeader).value;
            SetTrue(name) !in PassWrites(listing, call.enabled, call.excluded)
  {
    var call := Reaction(RememberAll(events), event, isLeader).value;
    var all := events + [event];
    assert all[..|all| - 1] == events;
    EnabledRemembersBuiltIns(all);
    var writes := PassWrites(listing, call.enabled, call.excluded);
    forall k | 0 <= k < |writes| ensures writes[k] != SetTrue(name) {
      WritesRespectExclusion(listing, call.enabled, call.excluded, k);
      if call.enabled && IsSystemNamespace(name) {
        BuiltInsAlwaysExcluded(name, call.excluded);
      }
    }
  }

  predicate IsListed(n: Namespace, labels: Labels) {
    n.name.Some? && n.name.value in labels && n.mode == labels[n.name.value]
  }

  /** A list call: every namespace once, with its current label. */
  predicate Lists(listing: seq<Namespace>, labels: Labels) {
    && (forall i :: 0 <= i < |listing| ==> IsListed(listing[i], labels))
    && (forall i, j :: 0 <= i < j < |listing| ==> listing[i].name != listing[j].name)
    && (forall name :: name in labels ==> exists i :: 0 <= i < |listing| && listing[i].name == Some(name))
  }

  /** Where a complete enabled pass leaves a namespace. */
  function Target(name: string, mode: Option<string>, excluded: set<string>): Option<string> {
    if mode == Some(OPTED_OUT) then mode
    else if NamespaceIsExcluded(name, excluded) then None
    else Some(ENABLED)
  }

  lemma ApplyWritesConcat(labels: Labels, a: seq<LabelWrite>, b: seq<LabelWrite>)
    requires |b| <= 1
    ensures ApplyWrites(labels, a + b)
         == if b == [] then ApplyWrites(labels, a) else ApplyWrite(ApplyWrites(labels, a), b[0])
  {
    if b == [] {
      assert a + b == a;
    } else {
      assert (a + b)[..|a + b| - 1] == a;
    }
  }

  /** A pass step touches no other namespace than the one it is about. */
  lemma WriteTouchesOnlyItsNamespace(labels: Labels, writes: seq<LabelWrite>, n: Namespace, excluded: set<string>,
                                     name: string)
    requires name in labels && name in ApplyWrites(labels, writes)
    ensures var before, after := ApplyWrites(labels, writes), ApplyWrites(labels, writes + WriteFor(n, true, excluded));
            && after.Keys == before.Keys
            && after[name] == if n.name != Some(name) || WriteFor(n, true, excluded) == [] then before[name]
                              else Target(name, n.mode, excluded)
  {
    ApplyWritesConcat(labels, writes, WriteFor(n, true, excluded));
  }

  lemma {:induction false} PassReachesTarget(listing: seq<Namespace>, labels: Labels, excluded: set<string>,
                                            name: string)
    requires forall i :: 0 <= i < |listing| ==> IsListed(listing[i], labels)
    requires name in labels
    ensures var after := ApplyWrites(labels, PassWrites(listing, true, excluded));
            && after.Keys == labels.Keys
            && (after[name] == labels[name] || after[name] == Target(name, labels[name], excluded))
            && ((exists i :: 0 <= i < |listing| && listing[i].name == Some(name)) ==>
                  after[name] == Target(name, labels[name], excluded))
  {
    if listing != [] {
      var init, last := listing[..|listing| - 1], listing[|listing| - 1];
      PassReachesTarget(init, labels, excluded, name);
      WriteTouchesOnlyItsNamespace(labels, PassWrites(init, true, excluded), last, excluded, name);
      if last.name != Some(name) {
        assert forall i :: 0 <= i < |listing| && listing[i].name == Some(name) ==>
            i < |init| && init[i].name == Some(name);
      }
    }
  }

  /**
   A complete enabled pass over an undisturbed cluster: opt-outs stay, other excluded namespaces end
   unlabelled, all others end enabled, and a second pass has nothing to write.
   */
  lemma CompletePassSettlesLabels(listing: seq<Namespace>, labels: Labels, excluded: set<string>,
                                  second: seq<Namespace>)
    requires Lists(listing, labels)
    requires Lists(second, ApplyWrites(labels, PassWrites(listing, true, excluded)))
    ensures var after := ApplyWrites(labels, PassWrites(listing, true, excluded));
            && after.Keys == labels.Keys
            && forall name :: name in labels ==> after[name] == Target(name, labels[name], excluded)
    ensures PassWrites(second, true, excluded) == []
  {
    var after := ApplyWrites(labels, PassWrites(listing, true, excluded));
    forall name | name in labels
      ensures after.Keys == labels.Keys && after[name] == Target(name, labels[name], excluded)
    {
      PassReachesTarget(listing, labels, excluded, name);
    }
    if labels == map[] {
      assert listing == [];
    }
    SettledNeedsNothing(second, excluded);
  }

  lemma {:induction false} SettledNeedsNothing(listing: seq<Namespace>, excluded: set<string>)
    requires forall i :: 0 <= i < |listing| ==>
               listing[i].name.Some? && Target(listing[i].name.value, listing[i].mode, excluded) == listing[i].mode
    ensures PassWrites(listing, true, excluded) == []
  {
    if listing != [] {
      SettledNeedsNothing(listing[..|listing| - 1], excluded);
    }
  }

  /** However far a pass gets before a patch fails, no opt-out it listed is changed. */
  lemma {:induction false} PartialPassKeepsOptOuts(listing: seq<Namespace>, labels: Labels,
                                                  enabled: bool, excluded: set<string>,
                                                  writes: seq<LabelWrite>, name: string)
    requires Lists(listing, labels) && writes <= PassWrites(listing, enabled, excluded)
    requires name in labels && labels[name] == Some(OPTED_OUT)
    ensures name in ApplyWrites(labels, writes) && ApplyWrites(labels, writes)[name] == Some(OPTED_OUT)
  {
    if writes != [] {
      var k := |writes| - 1;
      PartialPassKeepsOptOuts(listing, labels, enabled, excluded, writes[..k], name);
      WritesRespectExclusion(listing, enabled, excluded, k);
      var n :| n in listing && n.name == Some(writes[k].namespace) && n.mode != Some(OPTED_OUT);
    }
  }
}
