# Verified core of the Sentinella Hub Kubernetes agent

This project models, in Dafny, the parts of the agent whose correctness does not show in any single
function, and proves what they keep over every input and every run.

**Dependency aggregation.** Tetragon events wait in a buffer shared by all streams: a sliding window
of 60 seconds and 20,000 events, pruned and pushed in place (`EventBuffer.dfy`). The collector reads
the rendered buffer and groups the flows into edges under three caps, keeping two linked maps and
saturating totals (`Dependency.dfy`). `DependencyInventory.dfy` states the result over the records.
The simple form it is proved against is first-come admission plus a plain group-by.
`DependencyRefinement.dfy` shows when the two agree, that truncation drops whole edges only, and
that order does not matter; `EdgeOrder.dfy` shows that the final sort moves nothing.

**The action-policy protocol.** The leader stamps namespace labels (`OperatorLifecycle.dfy`), the
operator reconciles RoleBindings and writes policy statuses (`ActionPolicy.dfy`), and the executor
reads statuses and decides (`PolicyGate.dfy`). `ActionProtocol.dfy` puts them on one cluster as a
step system: users edit labels and policies at any time, several operator passes and executors are
in flight at once, each API call is its own step, may fail, and may take effect although its caller
was told it failed, at once or at any later time. The invariant that every stored, listed or about
to be decided status was written by a pass that finished its binding calls carries the safety and
fail-closed theorems. `ActionProtocolProgress.dfy` is the other direction: which namespaces a run
can come to act on.

**Quantities.** The checked i128 parser, the printers and the limit gate (`Quantity.dfy`), which
texts are quantities at all (`QuantityForms.dfy`), the units printed (`QuantityPrinting.dfy`), and
the summation of container usage over them (`PodUsage.dfy`). Exactness is stated against real-number
values.

**Commands.** The dedup table under every interleaving of `execute` calls (`CommandDedup.dfy`), and
`drain_node` against an API server that may answer anything (`DrainNode.dfy`).

**Streams and strings.** The Tetragon stream registry as a machine whose steps are the calls into
it: a discovery round is a sequence of steps, and stream tasks flip their flags between any two of
them. The methods of the manager are shown to be runs of that machine (`StreamManager.dfy`); the
endpoints it is given come from `EndpointDiscovery.dfy`. Then the skipping token search
(`TokenSearch.dfy`) and comma-separated settings (`CsvSettings.dfy`). `Text.dfy` holds the string
operations they share.

Objects that the agent updates in place are classes (`EventBuffer.Buffer`,
`OperatorLifecycle.Watcher`, `OperatorLifecycle.Cluster`, `CommandDedup.DedupTable`,
`StreamManager.Manager`); each method's new state is equated with a function of the old one, and the
theorems are about those functions.

Four properties one would expect do not hold of the code on all inputs. Each has a concrete failing
input and an exact condition:

- The quantity parser narrows the length of a fraction to 32 bits, so a fraction of 2^32 digits is
  misread (`Quantity.LongFractionIsMisread`, `Quantity.ParsedValueIsFloorExactlyWhen`).
- A minus sign negates the whole part of a quantity but not its fraction, so "-1.5Ki" is read as minus
  half a kibibyte (`Quantity.NegativeFractionIsMisread`, `Quantity.SignNegatesExactlyWhen`).
- The smallest i128 doubles as the mark of an unreadable quantity, so a limit with that value is
  accepted by the operator and refused by the executor (`PolicyGate.SentinelLimitIsRefused`,
  `PolicyGate.AgreementExactlyWhen`).
- The token search jumps past whole matches, which loses tokens for needles that overlap themselves
  after a non-alphanumeric character (`TokenSearch.HyphenatedNeedleIsMissed`,
  `TokenSearch.SkippingSearchIsExactExactlyWhen`); no needle in use is of that kind.

Where code and documentation disagree the model follows the code. The settings table says of
`ACTION_OPERATOR_ENABLED` that the action-mode labels are removed when it is `false`, but the
reconcile for a disabled operator (src/operator_lifecycle.rs:206-209) removes only the operator's
workload.

## Model

| member | source | states |
|---|---|---|
| `ActionProtocol.ReachableIsSound` | src/operator.rs:92-154 | in every reachable state each stored, pass-listed or gate-listed status and each status patch still to land was written by a pass that made all its binding calls (for a pass's own listing, by another pass), no pass began after the current time, and only namespaces seen labelled and not excluded are bound or about to be |
| `ActionProtocol.AcceptedRequestsAreBacked` | src/executor.rs:1304-1382 | over every interleaving an accepted request is permitted by a listed policy in every respect and two different passes back that policy's status: the later is no older than the staleness bound, listed the namespace as labelled and not excluded, made a successful call binding it, and had every other RoleBinding call succeed; the earlier began at most the bound before it |
| `ActionProtocol.ExcludedNamespacesAreNeverActedOn` | src/executor.rs:1552-1561 | no run ever accepts a request for an excluded namespace, except the agent's own update |
| `ActionProtocol.SystemNamespacesAreNeverActedOn` | src/operator.rs:30-37 | the same for the built-in namespaces, including the wildcard one, whenever the exclude set contains the built-ins |
| `ActionProtocol.SelfUpdateIsNeverAccepted` | src/executor.rs:2020-2044 | `self_update` targets the always excluded agent namespace, so no reachable state accepts it |
| `ActionProtocol.ExcludedNamespacesAreNeverBound` | src/operator.rs:259-298 | no excluded namespace ever holds the managed RoleBinding, whichever binding calls fail, take effect although reported as failed, or land after later calls |
| `ActionProtocol.OnlySeenNamespacesAreBound` | src/operator.rs:259-298 | in every reachable state each bound namespace is one that some pass listed with the label "true" |
| `ActionProtocol.CompletePassSettlesBindings` | src/operator.rs:259-298 | undisturbed, the calls of a pass leave each listed namespace bound exactly when it is labelled "true" and not excluded, whatever it was before, and touch no other |
| `ActionProtocol.EditKeepsStatus` | src/operator.rs:182-200 | editing a policy's spec leaves the status written for the spec before, which is why the gate judges the spec anew |
| `ActionProtocol.FailClosedWithoutNewPasses` | src/executor.rs:1330-1341 | once every pass is older than the staleness bound, no continuation without a new pass accepts any request, namespaced or cluster-wide, even if old passes still write statuses |
| `ActionProtocol.StoredReadinessNeedsTwoPasses` | src/operator.rs:378-449 | in every reachable state a stored Ready status has two different passes behind it, at most the staleness bound apart, and a stored stale flag means not Ready |
| `ActionProtocol.WrittenStatusIsReadyExactlyWhen` | src/operator.rs:132-148 | in every reachable state, the status a pass writes next reads Ready if and only if the spec it listed is valid, it saw an eligible namespace, all its binding calls succeeded, and the status it listed was written by another pass that began at most the staleness bound earlier |
| `ActionProtocolProgress.WriteStatuses` | src/operator.rs:132-148 | the status-writing loop skips nameless policies, survives failed patches, and leaves exactly the store of the specification |
| `ActionProtocolProgress.WritingLoopIsARun` | src/operator.rs:132-148 | undisturbed, that loop is a run of protocol steps ending with exactly that store |
| `ActionProtocolProgress.LabelWritesAreARun` | src/operator_lifecycle.rs:292-326 | the writes of a label pass, however far it got, are a run of the protocol's namespace edits |
| `ActionProtocolProgress.ValidPoliciesOpenTheGate` | src/operator.rs:378-449 | for every valid policy and every request it does not itself refuse, two clean passes lead to a reachable state that accepts the request |
| `ActionProtocolProgress.NamespaceIsReachableExactlyWhenNotExcluded` | src/executor.rs:1304-1382 | some run accepts a request a valid policy allows in a namespace if and only if the namespace is not excluded |
| `ActionPolicy.EffectiveExactlyWhenEligible` | src/operator.rs:202-219 | a name is effective exactly when a listed namespace of that name is labelled "true" and not excluded |
| `ActionPolicy.ReconcileRoleBindings` | src/operator.rs:259-298 | against any answers the loop makes exactly the planned calls, never stopping early; permission is granted exactly when every call succeeded |
| `ActionPolicy.OneCallPerName` | src/operator.rs:259-298 | the planned calls are one per named namespace, in listing order |
| `ActionPolicy.EnsuredExactlyWhen` | src/operator.rs:259-298 | a namespace is among the ensured ones if and only if it is listed with the label "true" and not excluded |
| `ActionPolicy.RemovedExactlyWhen` | src/operator.rs:259-298 | a namespace is among the removed ones if and only if it is listed and excluded or listed with another label |
| `ActionPolicy.ReadyExactlyWhen` | src/operator.rs:378-449 | the Ready condition reads back true exactly when a namespace is eligible, all bindings succeeded, the spec is valid and the previous stored time exists and is recent; a stale status is never Ready |
| `ActionPolicy.ConditionReadsBack` | src/operator.rs:452-606 | each of the nine conditions of a built status reads back true exactly when what it is named after holds, and no other does |
| `ActionPolicy.StatusReadsBack` | src/operator.rs:378-449 | a built status carries the pass's own time, is stale exactly when its predecessor is missing or too old, and names exactly the namespaces labelled "true" and not excluded |
| `ActionPolicy.ReadinessTakesTwoPasses` | src/operator.rs:391-428 | a first status is never Ready; a status built on any earlier built one is Ready exactly when it comes within the staleness bound with a valid spec, an eligible namespace and no binding error |
| `ActionPolicy.ActionTablesHold` | src/model.rs:1118-1138 | which actions are supported and which of them target workloads |
| `NamespaceExclusion.SystemNamespaceExactlyWhen` | src/operator.rs:30-37 | the system namespaces are the five built-in names and every name with the OpenShift prefix |
| `NamespaceExclusion.CombinedExcludesExactlyWhen` | src/operator.rs:83-90 | with extra entries a name is excluded exactly when it is a system namespace or matches an entry stripped of its padding |
| `NamespaceExclusion.StarPattern` | src/operator.rs:227-236 | a pattern ending in a star matches exactly the names with the non-empty prefix before it |
| `PolicyGate.SelectPolicy` | src/executor.rs:1304-1382 | the gate loop returns the first qualifying policy of the listing, and none exactly when no policy qualifies, with one reason per policy that was neither nameless nor good for other namespaces only |
| `PolicyGate.QualifiesExactlyWhen` | src/executor.rs:1321-1371 | a policy qualifies if and only if it has a name and a status whose time is recent, whose Ready condition is true and which names the namespace (or the request is the agent's own update there), and its spec permits the request |
| `PolicyGate.RefusedUnlessPermitted` | src/executor.rs:1587-1741 | a spec refuses a request unless its actions are all supported and include the requested one, a workload's kind is given and listed among supported kinds only, and every CPU or memory text asked for on either side parses above the smallest i128 and at most to the parsed limit |
| `PolicyGate.AcceptanceIsMonotoneAndOrderFree` | src/executor.rs:1399-1456 | acceptance survives added policies and does not depend on the order of the listing |
| `PolicyGate.ValidSpecIsRefusedOnlyForTheRequest` | src/executor.rs:1587-1653 | a spec the operator calls valid is refused only for a fault of the request, never for the policy's validity, unless it allows previewing or applying resources and declares the smallest i128 as a limit |
| `PolicyGate.AgreementExactlyWhen` | src/executor.rs:1633-1650 | for every valid spec, operator and executor agree on all requests if and only if it does not both allow previewing or applying resources and declare a limit that parses to the smallest i128 |
| `PolicyGate.SentinelLimitIsRefused` | src/executor.rs:1729-1735 | with the memory limit written as minus 2^127 the operator calls a spec valid and the executor refuses one byte for the limit's fault, for a preview and for an application |
| `OperatorLifecycle.Watcher.Handle` | src/operator_lifecycle.rs:45-192 | each event updates the remembered flags and calls for a reconcile exactly as the specification says, and only as leader |
| `OperatorLifecycle.EnabledRemembersBuiltIns` | src/operator_lifecycle.rs:45-192 | after every sequence of events, enabled comes with an exclude set that contains every built-in exclusion |
| `OperatorLifecycle.EnabledExactlyWhen` | src/operator_lifecycle.rs:443-452 | after every sequence of events the operator counts as enabled exactly when the last event that told of the configuration brought one whose setting is "true" or "1" between blanks |
| `OperatorLifecycle.TheLastTellingEventIsRemembered` | src/operator_lifecycle.rs:454-469 | the remembered exclusions are those of that last event: the built-in ones and each non-blank comma-separated piece without its padding; a deletion leaves nothing enabled and nothing excluded |
| `OperatorLifecycle.ReconcilesExactlyWhen` | src/operator_lifecycle.rs:45-192 | a reconcile is called for exactly by the leader, on a telling event or a tick, once anything was told, and for what is remembered by then |
| `OperatorLifecycle.WatchResumesFromTheLastVersion` | src/operator_lifecycle.rs:82-150 | the watch resumes from the version of the last change or bookmark that carried one |
| `OperatorLifecycle.Cluster.LabelPass` | src/operator_lifecycle.rs:292-326 | a pass is complete exactly when every planned patch succeeds; otherwise it applies those up to the first that fails, with that one only if it landed all the same |
| `OperatorLifecycle.LabelledExactlyWhen` | src/operator_lifecycle.rs:292-326 | a pass plans the enabling label exactly for namespaces listed with neither "true" nor "false", not excluded, while the operator is enabled |
| `OperatorLifecycle.UnlabelledExactlyWhen` | src/operator_lifecycle.rs:292-326 | a pass plans to remove the label exactly where it is present and no opt-out and the namespace is excluded, or where it is "true" and the operator disabled |
| `OperatorLifecycle.SystemNamespacesAreNeverStamped` | src/operator_lifecycle.rs:45-192 | over every event sequence, leadership change and namespace listing, no reconcile plans the enabling label for a system namespace |
| `OperatorLifecycle.CompletePassSettlesLabels` | src/operator_lifecycle.rs:292-326 | a complete enabled pass keeps opt-outs, leaves other excluded namespaces unlabelled and all others enabled, and a second pass writes nothing |
| `OperatorLifecycle.PartialPassKeepsOptOuts` | src/operator_lifecycle.rs:292-326 | however far a pass gets, no opt-out it listed changes |
| `DependencyInventory.CollectInventory` | src/collector.rs:858-978 | over the records on the lines: every reported edge is that of some record from its source to its destination and carries the capped sums of the bytes, packets and connections and the first and last times of exactly its records; an untruncated inventory has an edge for every recorded source, destination, protocol and port |
| `DependencyRecords.FlowIsTheRecords` | src/collector.rs:908-922 | a flow's edge runs from the record's source to its destination: on each side the pod at the address, else the service, else the hint, else the bare address, lower-cased; protocol, port, counts and time are the record's own |
| `DependencyInventory.TotalIsTheFlows` | src/collector.rs:944-957 | measure by measure, what the flows of an edge add up to is what its records add up to |
| `DependencyAggregation.CollectDependencies` | src/collector.rs:858-978 | the loop's maps are the admitted edges with exact totals over the considered lines, linked by the fan-out relation; each counter is the exact number of lines of its kind; truncated exactly when something was dropped |
| `DependencyAggregation.MergeFlow` | src/collector.rs:928-957 | merging or dropping one record keeps both maps linked and every edge exact, and reports its admission |
| `DependencyAggregation.FlowOutcome` | src/collector.rs:924-940 | a flow is merged when its edge is known or has room; otherwise it is dropped for the edge cap if 2,000 edges are there, and else for the fan-out cap of 200 targets |
| `DependencyAggregation.LineOutcome` | src/collector.rs:882-906 | a line is dropped for the line cap exactly from the 20,001st on, and before that is blank or unreadable exactly when it holds nothing or no record |
| `DependencyAggregation.OutcomesPartitionLines` | src/collector.rs:875-957 | every line is counted under exactly one of blank, unreadable, line cap, edge cap, fan-out cap or merged |
| `DependencyAggregation.TallyCounts` | src/collector.rs:875-957 | the four running counters equal the numbers of lines they are named after |
| `DependencyAggregation.RejectedForever` | src/collector.rs:928-940 | a key that occurred and was not admitted never finds room again |
| `DependencyAggregation.AdmittedWithinCaps` | src/collector.rs:928-957 | after any flows at most 2,000 edges and at most 200 targets per source are admitted, all of them keys that occurred |
| `DependencyRefinement.UntruncatedExactlyWhenWithinCaps` | src/collector.rs:882-978 | nothing is dropped if and only if lines, distinct edges and distinct targets per source fit their caps |
| `DependencyRefinement.UntruncatedEdgesAreTheGroupBy` | src/collector.rs:928-978 | an untruncated snapshot is the unbounded group-by: one edge per key, sums saturated at the u64 maximum, exact first and last times |
| `DependencyRefinement.TruncationDropsWholeEdges` | src/collector.rs:882-957 | truncated or not, every reported edge is exact over all its considered records, every missing key has no room, and the caps hold |
| `DependencyRefinement.ReorderingKeepsTheSnapshot` | src/collector.rs:928-978 | reordering the lines changes neither whether the snapshot is truncated nor the edges of an untruncated one |
| `EdgeOrder.KeysAreNormalized` | src/collector.rs:1306-1326 | every aggregated key is a fixed point of the normalisation the sort applies again |
| `EdgeOrder.KeysAreToldApart` | src/collector.rs:1328-1337 | two keys compare equal only if they are the same; sources decide first and targets next |
| `EdgeOrder.LessExactlyWhenPrecedes` | src/collector.rs:1328-1337 | strings compare lexicographically: the first difference decides, or the shorter one comes first |
| `EdgeOrder.OnlySortedArrangement` | src/collector.rs:1328-1337 | a strictly increasing listing is the only arrangement of its edges that the comparator accepts as sorted |
| `EdgeOrder.FinalSortIsIdentity` | src/collector.rs:1328-1337 | any permuting sort by that comparator returns the map's listing unchanged |
| `EventBuffer.Buffer.PruneLocked` | src/tetragon.rs:627-636 | pruning in place removes exactly the leading lines older than the cutoff |
| `EventBuffer.Buffer.Push` | src/tetragon.rs:443-455 | a push prunes, makes room and appends, as one operation of the run model |
| `EventBuffer.Buffer.SnapshotNdjson` | src/tetragon.rs:247-259 | a snapshot prunes and renders each remaining line with a newline |
| `EventBuffer.BufferIsLongestSuffix` | src/tetragon.rs:443-455 | after any run of pushes and snapshots on a non-decreasing clock the buffer is exactly the longest suffix of the event history within 20,000 entries and the window |
| `EventBuffer.RenderedLinesReadBackExactlyWhen` | src/tetragon.rs:247-259 | splitting the rendered text into lines gives the lines back if and only if each is a single line |
| `EventBuffer.SnapshotNeverReachesTheLineCap` | src/collector.rs:882-886 | for single-line events the reader sees exactly the buffered lines and its line cap never fires |
| `Quantity.SuffixChosen` | src/model.rs:1199-1208 | a number followed by any unit's suffix is read with exactly that unit's scale: no suffix shadows a later one |
| `QuantityPrinting.CpuUnitsArePowers` | src/model.rs:1151-1161 | the CPU suffixes stand for thousandfold steps from the nanocore |
| `QuantityPrinting.MemoryUnitsArePowers` | src/model.rs:1163-1182 | the two-letter memory suffixes stand for powers of 1024 and the one-letter ones for powers of 1000 |
| `QuantityForms.OnlyNumbersParse` | src/model.rs:1199-1224 | whatever parses is a decimal number, padded at will, with one of the suffixes behind it |
| `QuantityForms.PaddingIsIgnored` | src/model.rs:1210-1214 | blanks around the number and before the suffix change nothing |
| `QuantityForms.PlusIsIgnored` | src/model.rs:1210-1224 | a leading plus changes nothing |
| `Quantity.ParsedValueIsFloorExactlyWhen` | src/model.rs:1210-1224 | a value returned for an unsigned decimal is the floor of the exact value if and only if the fraction's length survives 32 bits or the shortened power of ten still swallows the fraction |
| `Quantity.ParsedValueIsFloor` | src/model.rs:1210-1224 | with fewer than 2^32 fraction digits every returned value is the floor of the exact value |
| `Quantity.LongFractionIsMisread` | src/model.rs:1218-1221 | a fraction of 2^32 digits worth less than one byte parses as five bytes |
| `Quantity.SignNegatesExactlyWhen` | src/model.rs:1210-1224 | a minus sign in front of a readable amount negates its value if and only if the fraction adds no whole unit |
| `Quantity.NegativeFractionIsMisread` | src/model.rs:1218-1221 | "-1.5Ki" parses as -512 |
| `Quantity.LimitGateIsExactToOneUnit` | src/executor.rs:1723-1741 | the gate never refuses a request at or below the limit, always refuses one a whole unit above it, and blames the unreadable side |
| `Quantity.LimitGateAcceptsExactlyWhen` | src/executor.rs:1723-1741 | for arbitrary texts the gate accepts exactly two readable values in order, the smaller not the smallest i128 |
| `Quantity.LimitAdmitsExactlyWhen` | src/executor.rs:1723-1741 | some request passes a declared limit if and only if the limit is readable and not the smallest i128 (it then admits itself), and some request gets the limit blamed if and only if it is not |
| `Quantity.FormatParseRoundTrip` | src/collector.rs:2080-2108 | for every total from 0 to the i128 maximum, parsing the printed CPU or memory quantity returns exactly the total |
| `QuantityPrinting.MemoryIsPrintedInLargestUnit` | src/collector.rs:2091-2108 | memory is printed in the largest 1024-fold unit that leaves a whole count |
| `QuantityPrinting.CpuIsPrintedInMillicores` | src/collector.rs:2080-2089 | CPU is printed in whole millicores when it can be and in nanocores otherwise |
| `PodUsage.MapPodMetrics` | src/collector.rs:1994-2018 | totals exist exactly when every container can be read and no running sum leaves the i128 range, and are then the sums |
| `PodUsage.SumAddsOwnReadings` | src/collector.rs:1994-2018 | one more container adds what its own CPU text says to the CPU total and what its own memory text says to the memory total |
| `PodUsage.ReportedUsageParsesToSum` | src/collector.rs:2080-2108 | a reported usage parses back to the sum of its containers' parsed usages; a negative sum is not reported |
| `CommandDedup.DedupTable.Begin` | src/executor.rs:2507-2523 | a stored result, else a refusal while running, else permission to run, with the matching new table |
| `CommandDedup.DedupTable.Finish` | src/executor.rs:2525-2531 | the result's id stops running and its result is stored |
| `CommandDedup.HandlersRunAtMostOnce` | src/executor.rs:82-90 | over every interleaving exactly one call per id starts the handler, running and completed stay disjoint, and every other call got the refusal or that handler's result |
| `CommandDedup.EnteringCallGets` | src/executor.rs:82-90 | in every reachable state a call that enters runs its handler exactly when no call had its id before; otherwise it gets the result the one handler returned, or "skipped" while that is still at work |
| `CommandDedup.CompletedResultsAreFinal` | src/executor.rs:2507-2531 | no continuation replaces or loses a stored result |
| `CommandDedup.SoundExactlyWhenResultIsOwn` | src/executor.rs:2525-2531 | in every sound state, returning a result keeps the table sound if and only if the result carries the id of the call that returns it |
| `CommandDedup.ForeignResultBlocksForever` | src/executor.rs:2507-2531 | a result with another id answers for that other command at once, and its own command is refused as running in every continuation |
| `DrainNode.ClassifyPods` | src/executor.rs:1507-1550 | one pass fills the three lists in listing order |
| `DrainNode.DrainableExactlyWhen` | src/executor.rs:1507-1550 | an identity is drainable exactly when it is the namespace and name of a listed pod on the node that is neither mirror nor DaemonSet pod, and owned or forced |
| `DrainNode.UnmanagedExactlyWhen` | src/executor.rs:1507-1550 | the unmanaged list names exactly the listed pods on the node without owners that are no mirror pods |
| `DrainNode.IgnoredExactlyWhen` | src/executor.rs:1507-1550 | the ignored list names exactly the mirror and DaemonSet pods on the node |
| `DrainNode.PollUntilDrained` | src/executor.rs:1148-1211 | polling ends within ceil(timeout/5)+1 listings; success means the last one left nothing drainable, failure has one of three causes, and the remainder is that of the last non-empty poll |
| `DrainNode.EvictAll` | src/executor.rs:1118-1146 | evictions follow the plan in order, answered as the API answers, and stop at the first refusal and nowhere else |
| `DrainNode.Drain` | src/executor.rs:1012-1241 | nothing is written unless the node name, the gate, a timeout of 1 to 3600 seconds, the grace period, both reads and the check for pods without owners all passed; then the calls are the plan; success means every listed pod to be evicted was accepted for eviction under its own namespace and name and the last poll held none; each failure has a named cause |
| `DrainNode.CordonIsTheFirstWrite` | src/executor.rs:1099-1146 | in the calls of a cleared drain the cordon is the first write and the evictions are all the others |
| `DrainNode.OnlyEvictablePodsAreEvicted` | src/executor.rs:1118-1146 | every eviction names the namespace and name of a listed pod on the node that is neither mirror nor DaemonSet pod, and owned unless forced |
| `DrainNode.ProtectedPodsAreNeverEvicted` | src/executor.rs:1507-1550 | when namespace and name are given and unique in a listing, no eviction names a listed pod that is not to be evicted |
| `StreamManager.Manager.SetStreamConnected` | src/tetragon.rs:152-165 | flags only that stream, republishes readiness, and returns the previous flag; an unknown key changes nothing |
| `StreamManager.SetConnectedSetsTheFlag` | src/tetragon.rs:152-165 | the registered stream's flag becomes what was set, its source and task, every other stream and the active tasks stay, and true implies ready |
| `StreamManager.FlagIsTheLastSet` | src/tetragon.rs:152-165 | over runs, the flag of a stream is the last one set for it while the same task fed it |
| `StreamManager.FlagIsFalseUntilSet` | src/tetragon.rs:347-371 | over runs, a stream that was not registered before is unconnected until its flag is set |
| `StreamManager.ReadyExactlyWhen` | src/tetragon.rs:128-132 | in every reachable state ready is published exactly when the dependency is not required or some registered stream is connected |
| `StreamManager.Manager.RemoveStream` | src/tetragon.rs:167-178 | removes only that stream, clears its task's active flag and republishes readiness |
| `StreamManager.Manager.SpawnStream` | src/tetragon.rs:347-371 | registers an unconnected stream with a fresh active task unless the key is taken |
| `StreamManager.Manager.EnsureFallbackStream` | src/tetragon.rs:334-345 | from any registry, the fallback stream is registered with a fresh task unless its key is taken, and nothing else changes |
| `StreamManager.Manager.Reconcile` | src/tetragon.rs:291-332 | the drop loop, the fallback removal and the spawn loop are a run of the machine from the end of discovery to the end of the round |
| `StreamManager.Manager.DiscoveryRound` | src/tetragon.rs:268-332 | a round of the manager with nothing interfering is a run of the machine; it reconciles and keeps every flag, spawns the fallback when nothing is registered, or changes nothing |
| `StreamManager.CoverageAddsUp` | src/tetragon.rs:110-126 | observed counts the registered streams, connected those flagged, unavailable those not flagged, and the three add up |
| `StreamManager.RunsStaySound` | src/tetragon.rs:268-345 | at every step of every interleaving of discovery rounds and stream tasks, inside a round too, the fallback never stands beside a discovered stream, at most 16 streams exist, exactly the registered tasks are active, readiness is as published, and a round owes its start what it should |
| `StreamManager.CompletedRoundReconciles` | src/tetragon.rs:291-332 | however stream tasks interfere, a round that found endpoints and comes to its end leaves exactly those keys: survivors by the task they had, newcomers by fresh tasks, all other tasks retired |
| `StreamManager.NeverEmptyBetweenRounds` | src/tetragon.rs:268-332 | from the first discovery on, successful or not, the registry is never empty between rounds |
| `StreamManager.EmptyInsideRoundExactlyWhen` | src/tetragon.rs:300-332 | after its drops a round has emptied the registry if and only if no stream it began with is among the endpoints found |
| `StreamManager.RemovedTasksAreInactive` | src/tetragon.rs:300-316 | at every step of a round that found endpoints, however stream tasks interfere, the task of each stream dropped so far is no longer active |
| `StreamManager.RetiredTasksStayRetired` | src/tetragon.rs:347-371 | in every continuation, round by round and step by step, a deactivated task is never active again |
| `EndpointDiscovery.DiscoverEndpoints` | src/tetragon.rs:460-523 | at most 16 keys, never the fallback's; each is address, colon and port of an endpoint not marked unready that targets a Pod or nothing, and fewer than 16 are all of them |
| `EndpointDiscovery.ReachedAtExactlyWhen` | src/tetragon.rs:472-477 | the port is the first given one of the slice in 16 bits, or the configured one if none is given |
| `EndpointDiscovery.DiscoveredKeysAreNotTheFallback` | src/tetragon.rs:504-523 | no slice content produces the fallback's key |
| `TokenSearch.ContainsToken` | src/plugins/mod.rs:1144-1159 | the loop terminates for every non-empty needle and computes the skipping search |
| `TokenSearch.SkippingSearchIsExactExactlyWhen` | src/plugins/mod.rs:1144-1159 | the skipping search finds a token in every value that has one, and only there, if and only if the needle holds an upper-case letter or overlaps itself only after alphanumerics |
| `TokenSearch.HyphenatedNeedleIsMissed` | src/plugins/mod.rs:1144-1159 | "ba-a-a" holds the token "a-a" and the search does not find it |
| `TokenSearch.PostgresqlNeedlesAreExact` | src/plugins/mod.rs:1138-1142 | the three needles in use are searched exactly in every value |
| `TokenSearch.MatchesClearPostgresqlName` | src/plugins/mod.rs:1138-1142 | a value matches exactly when one of the three names stands alone in it, whatever the case of its letters |
| `TokenSearch.ToAsciiLower` | src/plugins/mod.rs:1145 | each upper-case ASCII letter becomes its own lower-case letter and every other character stays |
| `TokenSearch.AlphanumericExactlyWhen` | src/plugins/mod.rs:1151-1152 | what keeps a token from standing alone is a decimal digit or an ASCII letter in either case |
| `TokenSearch.StandsAloneExactlyWhen` | src/plugins/mod.rs:1149-1153 | an occurrence is a token exactly when the text before it does not end and the text behind it does not begin with a digit or an ASCII letter |
| `CsvSettings.ParsedElementsAreClean` | src/config.rs:571-576 | every parsed element is non-empty, trimmed and free of commas |
| `CsvSettings.CommaJoinsLists` | src/config.rs:571-576 | the elements of two texts joined by a comma are the elements of each, in order |
| `CsvSettings.PaddingIsDropped` | src/config.rs:571-576 | between commas, a padded element is read without its padding and a blank one not at all |
| `Text.TrimLeavesPadding` | src/config.rs:571-576 | every text is its trimmed text between two blank paddings |
| `CsvSettings.ReportReadsBackExactlyWhen` | src/config.rs:460-471 | a reported list parses back unchanged if and only if its elements are clean |
| `CsvSettings.ListSettingsSurviveReporting` | src/config.rs:460-471 | parsing, reporting and parsing again gives the same list for every raw value |

## Left out

Taken as parameters or assumptions of the model:

- Decoding: JSON records, gRPC events, IP literals and Kubernetes objects arrive already decoded, or through a function parameter that may answer anything.
- Case mapping of endpoint names is a parameter; the sort theorem assumes that mapping twice is mapping once.
- Time: each clock reading is a parameter. Operator and executor share one non-decreasing clock; the drain theorems assume a monotonic clock and sleeps of at least five seconds.
- Exclude lists: operator and lifecycle parse theirs differently (src/config.rs:578-590, src/operator_lifecycle.rs:454-469); the protocol assumes one shared set.
- Policy statuses are written by operator passes only, and initially there are none.
- Leadership is an arbitrary boolean at each event.

Stated for less than everything the code does:

- EventBuffer.SnapshotNeverReachesTheLineCap: assumes that each buffered event is a single line, as JSON serialisation makes it; RenderedLinesReadBackExactlyWhen shows that this is needed.
- Quantity.ParsedValueIsFloorExactlyWhen: covers unsigned decimals; for negative ones SignNegatesExactlyWhen says when the code reads the sign as intended, and a sign inside the fraction ("1.-5") is left out.
- DrainNode.ProtectedPodsAreNeverEvicted: assumes unique identities in the listing, as the API server gives them; OnlyEvictablePodsAreEvicted needs no such assumption.
- StreamManager.Manager.DiscoveryRound: the method itself is undisturbed; interference is covered by the machine it is a run of, where each call into the registry is one step. Within a call, registering a task or clearing its active flag and publishing readiness belong to that step, so a publication overtaken by a later one is not modelled.
- ActionPolicy.EffectiveExactlyWhenEligible: effective namespaces keep listing order; the code also sorts them, and every use is a membership test.
- PolicyGate.SelectPolicy: the texts of the reasons are left out; only their number is kept.
- CommandDedup.HandlersRunAtMostOnce: assumes that every handler's result carries its command's id, as all of them do; SoundExactlyWhenResultIsOwn shows that this is needed.
- DependencyAggregation.CollectDependencies: counters are unbounded and saturate when added up; lines held in memory cannot reach the u64 maximum.

Not modelled:

- The per-command label check on the namespace itself (src/executor.rs:556-564), which only adds refusals, and `ensure_effective_policy_ready`, which nothing calls.
- Condition messages and reasons, observed generations, warnings and result payloads.
- Creating and removing the operator's own Deployment and default policy.
- What follows the gate in each handler other than `drain_node`: patches, rollout waits and pre-flight checks.
- Snapshot DTO mapping, Prometheus scraping, technology detection, the Hub client, leader election, health endpoints and runtime wiring: field copying and I/O.
