# Protocols and bounded structures of Gotcha

Gotcha is an observability server. This project models the parts of it whose correctness is an
argument rather than a reading: the protocols that decide who is paged and who stays silent, the
buffers and queues that accept events, the bounded limiters and caches, and a few algorithms that
must equal a simple specification. Every module can be verified on its own with the modules it
imports, and `dafny verify dfyconfig.toml` checks them all.

How the source appears here:

- A SQL statement is one atomic step on maps and sets, its `WHERE` conditions the guards. Several
  replicas are state machines whose steps interleave in any order, with a crash possible between any two
  (`Escalation`, `IncidentGroups`, `Pipeline`). The same code run without interleaving is a class whose
  methods are proved against specification functions (`StepSender`, `Grouper`, `EdgeStore`), and
  `StepSender.SendIsProtocolRun` connects the two views of the escalation.
- Objects that update their fields are classes (`EventBatcher.Batcher`, `RateLimiter.RateLimiter`,
  `Cardinality.Guard`, `AlertBudget.Budget`, `ExportJobs.Store`, `JsonIds.Rewriter`). Their `Valid()` is the
  conservation law or bound, so what holds after each method holds in every sequence of calls.
  Ghost fields keep the history that the law speaks of.
- Clocks, random answers of stores and notifiers, and foreign code are parameters: functions from
  call numbers to answers, or flags for the outcome of one call.

Where the code differs from what its comments or its obvious reading promise, the code is kept and the
difference is a proved statement:

- `internal/escalation/step.go:18` says that the level never outruns `incident_escalations`. With a notifier
  that reports having queued nothing, that holds of every run of a deployment exactly when it has at most one
  replica; with any notifier, only when it has none (`Escalation.RowsAreKeptExactlyByOne`). A notifier that queues
  nothing and reports no error breaks it for any replica; two replicas break it when one bumps on the other's
  claim, which is then released.
- Groups point strictly upwards on an acyclic relation, and then every incident is spoken for. On every
  resolvable relation that has a cycle, which a label edge can close, some run with stale snapshots leaves an incident
  that no chain speaks for and that no sweep frees: the relation never hides anything exactly when it is acyclic
  (`GroupLoops.HidesExactlyOnCycles`).
- The rotation handles an incident in exactly that tick whose count exceeds the incident's queue, and the queue
  balances with arrivals and departures (`Rotation.TickReaches`, `Rotation.QueueLedger`), so an incident that stays
  pending is handled exactly once the work done makes up for its queue and all that came in front of it and stayed
  (`Rotation.HandledExactlyWhenThrough`). With a steady inflow of larger ids it can wait forever
  (`Rotation.InflowStarves`), and the sources of later bindings get work exactly in the ticks whose deadline outlasts
  all earlier sources (`Rotation.LaterSourcesWait`); a source cut off altogether is missing from the skipped count.
- A 503 after the queue refused everything can leave profiles behind that the sender will bring again
  (`Envelopes.ProfilesStayBehind`, `Envelopes.ProfilesAreDoubledExactly`, `Envelopes.ProfileStoredTwice`). Events and
  transactions keep the promise over any number of attempts (`Envelopes.RetryDoublesNothing`).
- `internal/export/store.go:335` says that a release does not cost an attempt. It does
  (`ExportJobs.ReleasesCostAttempts`); `ExportJobs.WhenFailureIsFinal` says exactly when that ends a job early.
- Rows dropped as poison are counted in the buffer's total but charged to no organisation: the losses of an
  organisation are its reported and pending ones exactly when it has no poison row
  (`EventBatcher.ReportsMissPoison`, with an input in `EventBatcher.PoisonGoesUnreported`).

## Model

| member | source | states |
|---|---|---|
| Graphs.AcyclicInsert | internal/depsuppress/store.go:332-389 | adding an arrow keeps a graph acyclic exactly when its head does not already reach its tail: the ground of the store's check |
| Dependencies.ResolvedGraphIff | internal/depsuppress/suppressor.go:314-372 | a pair is a parent relation exactly when some edge of the snapshot, explicit or by label, makes it one |
| Dependencies.HostParents | internal/depsuppress/suppressor.go:314-362 | column by column: a host's parents are those of the edges that name it, and of those that name no host but a label, env or role, that it carries in the edge's own project |
| Dependencies.MonitorParents | internal/depsuppress/suppressor.go:314-362 | a monitor's parents are those of the edges that name it; labels do not reach monitors |
| Dependencies.DownParentsAre | internal/depsuppress/suppressor.go:364-372 | the parents that count are those in the snapshot's sets of down hosts and down monitors |
| Dependencies.ParentIsDownIsNodeDown | internal/depsuppress/suppressor.go:364-372 | an edge sees its parent down exactly when that node is down in the snapshot |
| Dependencies.NoSelfParent | internal/depsuppress/suppressor.go:327-362 | no node is its own resolved parent, whatever labels say |
| Suppressor.MatchingParents | internal/depsuppress/suppressor.go:314-326 | the edges whose child the node is, all of them and no other |
| Suppressor.DownParents | internal/depsuppress/suppressor.go:76-87 | the down parents of a node, all and no other |
| Suppressor.ParentDownFromSnapshot | internal/depsuppress/suppressor.go:89-106 | true exactly when one or more steps to down parents lead to a node without down parents, cycles or not |
| Suppressor.SuppressedUnfold | internal/depsuppress/suppressor.go:89-106 | one step of the same: a down parent silences when it is itself silenced or has no down parent |
| Suppressor.SuppressedHasPagingAncestor | internal/depsuppress/suppressor.go:89-106 | every silenced node has a down ancestor that is not silenced, and it is another node |
| Suppressor.RootlessSetPages | internal/depsuppress/suppressor.go:89-106 | a loop of down nodes without a way out silences none of its members, and each is its own root |
| Suppressor.AcyclicIsOneStep | internal/depsuppress/suppressor.go:89-106 | without cycles among down nodes the walk equals the test that some parent is down |
| Suppressor.DownRootFromSnapshot | internal/depsuppress/suppressor.go:387-418 | the least reachable root, host before monitor and then by id; the node itself if it is down and has none |
| Suppressor.CollectRoots | internal/depsuppress/suppressor.go:387-418 | the walk collects all reachable roots and nothing else |
| Suppressor.LeastOf | internal/depsuppress/suppressor.go:387-418 | the root chosen is one of those found and none comes before it |
| Suppressor.DownRootProperties | internal/depsuppress/suppressor.go:375-429 | the chosen root is down, pages, is its own root, and differs from the start exactly when the start is suppressed |
| Suppressor.LabelEdgeSilences | internal/depsuppress/suppressor.go:89-106 | with nothing else in its way, a label edge with a down parent silences exactly the hosts of its project that carry the label, and makes the parent their root |
| Suppressor.HostsFirstThenLowestId | internal/depsuppress/suppressor.go:387-418 | no reached root of the chosen kind has a lower id, and a monitor is chosen only where no host is reached |
| Suppressor.EdgeOrderIrrelevant | internal/depsuppress/suppressor.go:387-429 | neither suppression nor the root depends on the order of edges; the root is least among all reachable ones |
| EdgeStore.ValidateShape | internal/depsuppress/store.go:186-222 | accepts exactly the edges with one parent and either one child or one label pair |
| EdgeStore.LoadAdjacency | internal/depsuppress/store.go:338-368 | the lists hold exactly the explicit arrows of the project without the excluded row, in any row order |
| EdgeStore.Search | internal/depsuppress/store.go:370-389 | the breadth-first search finds the target exactly when it is reachable, also past an arrow just added |
| EdgeStore.CheckCycle | internal/depsuppress/store.go:332-389 | refuses exactly the edges whose parent is reachable from the child |
| EdgeStore.Store.Create | internal/depsuppress/store.go:73-119 | inserts the edge, or changes nothing and returns the first refusal in the order of the checks |
| EdgeStore.Store.Update | internal/depsuppress/store.go:121-175 | replaces the row in place, judged as if it were absent, or changes nothing |
| EdgeStore.Store.Delete | internal/depsuppress/store.go:177-184 | removes the row of that project only |
| EdgeStore.CycleCheckIsExact | internal/depsuppress/store.go:332-389 | the check refuses no more than it must: a refused edge would have closed a cycle |
| EdgeStore.CreateIsExact | internal/depsuppress/store.go:73-119 | accepts exactly the edges with which the table keeps its promises: shape, nodes of the project, no two rows alike, no cycle, no label on its own parent; adds that row and nothing else |
| EdgeStore.UpdateIsExact | internal/depsuppress/store.go:121-175 | the same of replacing a row of the same project, and nothing changes otherwise |
| EdgeStore.EveryRunKeepsRowsApart | internal/depsuppress/store.go:73-184 | in every serial run no two rows of a project say the same |
| EdgeStore.EveryRunKeepsInv | internal/depsuppress/store.go:73-184 | every serial run of creates, updates, deletes and other changes keeps each project's explicit graph acyclic |
| EdgeStore.ExplicitSnapshotAcyclic | internal/depsuppress/store.go:73-175 | a snapshot of such tables without label edges has an acyclic parent relation as a whole |
| EdgeStore.StoredGraphIsOneStep | internal/depsuppress/suppressor.go:89-106 | after any run, without label edges, suppression is the one-step test |
| IncidentGroups.EveryRunKeepsInv | internal/incidentgroup/grouper.go:58-189 | over every interleaving of attach, retro, resolve, sweep, purge, open and close, each assignment points to another incident on the same node or on a node strictly above |
| IncidentGroups.MembersStay | internal/incidentgroup/group.go:87-108 | no statement of anybody moves a member of a group that is not resolved |
| IncidentGroups.FirstGroupWins | internal/incidentgroup/group.go:87-108 | in any run an incident leaves a group only after that group was resolved or purged |
| IncidentGroups.OnlyWithinTheProject | internal/incidentgroup/group.go:87-108 | an incident's group changes only by an actor at work on it and on its own project |
| IncidentGroups.RootsAreOpenWhenTaken | internal/incidentgroup/grouper.go:29-86 | an actor takes an incident for a root only while it is open, of the root kind and on that node, and never as its own root |
| IncidentGroups.GroupsEndWithTheirRoot | internal/incidentgroup/group.go:63-75 | no statement resolves the groups of two open roots, none reopens a group, and none removes one that is not resolved or has an open member |
| IncidentGroups.StandIsHigher | internal/incidentgroup/group.go:89-104 | in a swept state the stand-in of an open member is open and on the same node as the root-kind incident or strictly higher |
| IncidentGroups.ChainEnds | internal/incidentgroup/janitor.go:17-34 | following group to root from an open member ends at an open incident in no open group |
| IncidentGroups.NothingHiddenBehindALoop | internal/incidentgroup/grouper.go:58-189 | on an acyclic relation, after any interleaving and one sweep, every open incident is spoken for by one that nothing hides |
| GroupLoops.EveryCycleHides | internal/incidentgroup/grouper.go:58-86 | on every resolvable relation with a cycle some run of attaches from stale snapshots leaves, also after the sweep, an open incident on the cycle for which no chain speaks |
| GroupLoops.HidesExactlyOnCycles | internal/incidentgroup/grouper.go:58-189 | no run and sweep ever leaves an open incident unspoken for exactly when the relation is acyclic |
| GroupLoops.CyclicRelationCanHideForever | internal/incidentgroup/janitor.go:17-34 | the instance in which two hosts, parents of each other through a label, hide each other |
| Grouper.Grouper.RootIncident | internal/incidentgroup/grouper.go:29-52 | finds an open root-kind incident of the node exactly when there is one |
| Grouper.WhoMayBeMoved | internal/incidentgroup/grouper.go:112-180 | column by column, who is eligible and whom a new root draws in |
| Grouper.Grouper.Attach | internal/incidentgroup/grouper.go:58-86 | attaches exactly when the top-most down ancestor has an open root incident whose group is open and the incident is eligible; nothing else moves, and no member of an open group does |
| Grouper.Grouper.OnRootOpened | internal/incidentgroup/grouper.go:112-189 | draws in exactly the candidates whose down root is the new one, and moves no other, least of all a member of an open group |
| Grouper.AttachIsProtocolRun | internal/incidentgroup/grouper.go:58-86 | what a call of attach does is a run of steps of the protocol of groups, so the theorems on interleavings apply to it |
| Grouper.JoinIsProtocolRun | internal/incidentgroup/grouper.go:112-189 | the same of the retroactive joining when a root opens |
| Escalation.ReplicaStepIsFair | internal/escalation/step.go:19-126 | a replica inserts only absent rows and deletes or enqueues only what it holds |
| Escalation.AtMostOnce | internal/escalation/step.go:19-126 | over every interleaving of any number of replicas, with crashes anywhere, no (incident, step, channel) is queued twice and what is queued stays claimed |
| Escalation.LevelsAreBumps | internal/host/incident.go:265-279 | the level is the number of successful bumps, each up by one from the level it found, and a step with channels is passed only after one was claimed when due |
| Escalation.NoStepBeforeItsTurn | internal/escalation/step.go:19-59 | in every run nothing is claimed or sent for a step before the incident's level has reached it |
| Escalation.LoneReplicaKeepsRows | internal/escalation/step.go:17-59 | with one replica and no silent notifier every passed step with channels has a row |
| Escalation.RowsAreKeptExactlyByOne | internal/escalation/step.go:17-59 | all runs of a set of replicas keep a row for every passed step exactly when there is at most one of them and the notifier is honest, or none at all |
| Escalation.SilentNotifierOutruns | internal/escalation/notifydispatch.go:113-181 | for any replicas and each of them, a run in which a step is passed, nobody is told and no row remains |
| Escalation.RaceOutruns | internal/escalation/step.go:17-59 | for any replicas and each two of them, the same with a notifier that reports its failure |
| StepSender.Difference | internal/escalation/step.go:128-140 | the claimed channels that were not enqueued, in order |
| StepSender.Database.ClaimStepChannels | internal/escalation/step.go:62-85 | wins exactly the channels that had no row and adds rows for them only |
| StepSender.Database.ReleaseStepChannels | internal/escalation/step.go:114-126 | deletes exactly the rows of the given channels, or none if the statement fails |
| StepSender.Database.BumpEscalation | internal/host/incident.go:265-279 | raises the level by one exactly when it is still the one expected |
| StepSender.Database.SendStepIfDue | internal/escalation/step.go:19-59 | one whole call: gates, claims, what is queued and once each, what stays claimed; a due step passes unless channels were left to claim, none took the notification and the notifier said so, and then no level moves |
| StepSender.CallMeans | internal/escalation/step.go:19-59 | the call slot by slot: who is told, which claims stay, when the level moves |
| StepSender.ClaimedStepPasses | internal/escalation/step.go:37-40 | a step whose channels are all claimed already, by a tick that stopped or by another replica, never holds the ladder up |
| StepSender.SendIsProtocolRun | internal/escalation/step.go:19-59 | whatever a call does, a replica of the protocol can do step by step, so the theorems on interleavings apply to it |
| Rotation.Rotate | internal/escalation/scheduler.go:68-80 | a cyclic permutation of the sorted list that starts just after the cursor |
| Rotation.RotationOrder | internal/escalation/scheduler.go:68-80 | positions in the rotation are positions in the cyclic order from the cursor |
| Rotation.AboveTheCursorFirst | internal/escalation/scheduler.go:68-80 | incidents go by number, those above the cursor first |
| Rotation.TickShortens | internal/escalation/scheduler.go:112-160 | a tick that does not reach an item takes exactly what it handled off that item's queue |
| Rotation.TickReaches | internal/escalation/scheduler.go:112-160 | a tick handles a pending item exactly when it does more than the item's queue |
| Rotation.QueueLedger | internal/escalation/scheduler.go:112-160 | work done and the queue at the end are the queue at the start plus what came in front less what left |
| Rotation.HandledExactlyWhenThrough | internal/escalation/scheduler.go:112-160 | an item that stays pending is handled exactly when the ticks have done more than its queue, newcomers added and leavers taken off |
| Rotation.HandledByOneTick | internal/escalation/scheduler.go:112-160 | it is handled exactly when some tick does more than the queue the item has at that tick |
| Rotation.HandledOnceQueueIsThrough | internal/escalation/scheduler.go:112-160 | in particular, work beyond the item's queue and all its newcomers is enough, whoever leaves |
| Rotation.IdleTurn | internal/escalation/scheduler.go:112-160 | a source the deadline cut off counts as one whose turn handled nothing and left its cursor |
| Rotation.LaterSourcesWait | internal/escalation/scheduler.go:112-160 | of several sources under one deadline each gets work exactly in the ticks that let through more than all earlier ones have open |
| Rotation.FixedListFullyHandled | internal/escalation/scheduler.go:112-160 | on a fixed list of n items every item is handled once the counts of successive ticks reach n, ticks that handle none included |
| Rotation.InflowStarves | internal/escalation/scheduler.go:112-160 | for every n, a run of n ticks each doing work that never handles an incident pending throughout |
| Rotation.Scheduler.Tick | internal/escalation/scheduler.go:112-160 | the sources share one deadline in their order: each handles a prefix of its rotation with what is left and moves its own cursor to its last item; those cut off keep theirs; skipped is the exact count |
| Rotation.IdLessIsOrder | internal/escalation/scheduler.go:68-80 | ids are in a strict total order, as the rotation of incidents needs |
| Rotation.HostLessIsOrder | internal/host/evaluator.go:96-103 | project and then name is a strict total order, as the rotation needs |
| Rotation.HostLessMeans | internal/host/evaluator.go:96-103 | hosts go by project number and then by the bytes of their names, both ascending |
| Rotation.HostEvaluator.Tick | internal/host/evaluator.go:252-307 | each pass gets through the first hosts of the rotation as far as its own budget goes, the cursor moves by the minimum of the two, and skipped is the rest |
| Rotation.EveryHostGetsBothPasses | internal/host/evaluator.go:252-307 | on a fixed list every host has had both passes in one tick as soon as those minima add up to its length |
| Isolate.EveryRowHasOneFate | internal/chbatch/isolate.go:13-38 | whatever the store answers and whenever the deadline passes, the rows split into stored once, dropped, and handed back, each in batch order; dropped are exactly those refused alone as poison |
| Isolate.CallBound | internal/chbatch/isolate.go:13-38 | at most 2n - 1 inserts |
| Isolate.BadRowsCostTheirDepth | internal/chbatch/isolate.go:13-38 | each bad row among at most 2^h costs at most 2h inserts beyond the first |
| Isolate.EveryInsertWasInTime | internal/chbatch/isolate.go:13-38 | one insert after each look at the deadline that found time left, none without, and the answers in their order |
| Isolate.NoInsertPastTheDeadline | internal/chbatch/isolate.go:17-21 | once the deadline has passed nothing is inserted, and if it had passed at the start all rows come back |
| Isolate.HandsBackTransients | internal/chbatch/isolate.go:13-38 | with time left, what comes back is exactly what was refused alone for a reason that may pass |
| Isolate.DropsExactlyThePoison | internal/chbatch/isolate.go:13-38 | if inserts fail exactly on batches holding a bad row, exactly the bad rows are dropped, the others stored in order and none comes back |
| Isolate.DownStoreLosesNothing | internal/chbatch/isolate.go:10-38 | a store that is down costs the full 2n - 1 inserts and loses nothing |
| EventBatcher.EachInOnePlace | internal/event/batcher.go:28-52 | every event that arrived is once in exactly one of inserted, overflowed, poison, or held, and nothing else is anywhere |
| EventBatcher.BatchSplits | internal/event/batcher.go:334-356 | a batch taken apart keeps the accounts and the order of arrival of what is held |
| EventBatcher.ReportsMissPoison | internal/event/batcher.go:277-335 | what is reported and pending for an organisation is all it lost exactly when it has no poison row |
| EventBatcher.PoisonGoesUnreported | internal/event/batcher.go:277-335 | a batcher that has lost one row of an organisation and owes it no report |
| EventBatcher.Batcher.TrimLocked | internal/event/batcher.go:261-291 | gives up the least number of oldest rows that meets both limits (a single heavy row may stay), charges each to its organisation and counts it |
| EventBatcher.Batcher.Overrun | internal/event/batcher.go:261-276 | the count of that least drop, with the byte weight kept exact |
| EventBatcher.Batcher.ChargeOrgs | internal/event/batcher.go:277-287 | each lost row adds one to its organisation, unknown organisations excepted |
| EventBatcher.Batcher.RecountLocked | internal/event/batcher.go:295-300 | the weight of the rebuilt buffer |
| EventBatcher.Batcher.EmitDrops | internal/event/batcher.go:106-130 | hands the pending counts to the sink, none twice; without a sink they are forgotten |
| EventBatcher.Batcher.Add | internal/event/batcher.go:69-96 | appends, trims the oldest, and keeps the accounts also while a batch is in flight |
| EventBatcher.Batcher.BeginFlush | internal/event/batcher.go:302-319 | takes the oldest rows, at most a batch, into flight |
| EventBatcher.Batcher.InsertFailed | internal/event/batcher.go:321-329 | isolates at once for a data error, otherwise from the third failure in a row |
| EventBatcher.Batcher.FinishInserted | internal/event/batcher.go:369-381 | the whole batch counts as inserted and the streak is cleared |
| EventBatcher.Batcher.FinishRetry | internal/event/batcher.go:358-367 | the batch returns in front of what arrived meanwhile; only what then overflows is lost, oldest first |
| EventBatcher.Batcher.FinishIsolation | internal/event/batcher.go:329-355 | good rows inserted, poison dropped, the rest back in front; the streak is cleared exactly when something was settled |
| EventBatcher.Batcher.Flush | internal/event/batcher.go:302-381 | a flush with no Add in between loses only poison rows: what comes back always fits again |
| Pipeline.MovedCall | internal/ingest/pipeline.go:378-389 | each access of a call keeps its bookkeeping, changes the byte counter by its own weight only and never lifts it above the limit |
| Pipeline.EveryRunKeepsInv | internal/ingest/pipeline.go:472-621 | over every interleaving of producers, workers, panics and closers the counter is the weight of what is admitted and not given back, at most the limit; nothing is sent on a closed channel and it is closed once |
| Pipeline.OneOutcomeEach | internal/ingest/pipeline.go:491-546 | a call that answers false counted exactly one reason and is never processed; one that answers true is processed once or lost to one panic, for certain once the workers have drained the channel |
| Pipeline.RefusedForAReason | internal/ingest/pipeline.go:378-546 | in every run a refused call met its reason after it entered and before it was decided: a closed pipeline, a counter its weight would take past the limit, a full channel; a task lost to a panic was with a worker |
| Pipeline.AloneItIsDecidedByRoom | internal/ingest/pipeline.go:491-546 | a call that is let alone is queued and answers true exactly when the pipeline is open, its weight fits and the channel has room; otherwise it counts the first reason and leaves no trace |
| Pipeline.AloneItReturns | internal/ingest/pipeline.go:491-546 | it returns within seven accesses of its own, whatever the others are at |
| Pipeline.WorkersCanDrain | internal/ingest/pipeline.go:472-489 | from every state of every run the workers alone can finish all that is queued |
| Pipeline.IdleOwesNothing | internal/ingest/pipeline.go:424-546 | an idle pipeline has its whole budget back, whatever panicked or was refused |
| Pipeline.ClosedOnlyDrains | internal/ingest/pipeline.go:587-621 | after Close the queue only loses its oldest task |
| Pipeline.FinishedStaysFinished | internal/ingest/pipeline.go:491-546 | what a finished call counted never changes again |
| Envelopes.Meter.GrantFrom | internal/ingest/handler.go:460-474 | charges what is granted; no checker or a failing one lets all through uncharged |
| Envelopes.Meter.EnqueueEvents | internal/ingest/handler.go:838-857 | queues exactly the events that parse and find room, in order, and counts those refused for room |
| Envelopes.Meter.EnqueueTransactions | internal/ingest/handler.go:935-946 | the same for transactions |
| Envelopes.Meter.AddProfiles | internal/ingest/handler.go:772-794 | adds what decodes and parses, in order, and counts as dropped what found no decode budget |
| Envelopes.Handler.Charge | internal/ingest/handler.go:653-755 | decides the early 503 exactly and before any charge; otherwise charges the grants and counts the refused share as dropped |
| Envelopes.Handler.Accept | internal/ingest/handler.go:622-877 | the status, and how each meter moves: a refusal leaves both queues as they were, past the early refusal every item is queued, malformed, refused for room or counted as dropped, and the quota is charged for what was queued and the malformed events |
| Envelopes.Parts | internal/ingest/handler.go:838-857 | stored, malformed and refused split the items, each once |
| Envelopes.ItemsAreAccounted | internal/ingest/handler.go:711-865 | class by class, what is stored is the envelope's own, all items are in one account, and the charge is for the stored and malformed, of profiles for all granted |
| Envelopes.RetryDoublesNothing | internal/ingest/handler.go:622-877 | an envelope sent until it is accepted: its events and transactions are queued by the last attempt alone, none more often than sent, and the quota's count over all attempts is what was queued plus the malformed events charged to each attempt |
| Envelopes.RefusalNamesTheFirst | internal/ingest/handler.go:653-877 | a refusal names a class that is present and has that very trouble, the first in the order events, transactions, profiles |
| Envelopes.NothingKeptUnder200 | internal/ingest/handler.go:801-877 | 200 although nothing was stored means exactly that no granted event parsed, no transaction was granted and no granted profile could be read |
| Envelopes.ProfilesStayBehind | internal/ingest/handler.go:756-877 | exactly when a refusal leaves profiles stored |
| Envelopes.ProfilesAreDoubledExactly | internal/ingest/handler.go:756-877 | over all attempts, profiles are stored by the last alone exactly when no earlier attempt left them behind; one stored twice was left behind by the first of the two |
| Envelopes.ProfileStoredTwice | internal/ingest/handler.go:756-877 | two attempts at one envelope that store and charge its profile twice |
| Quotas.NeverOverQuota | internal/org/usage.go:207-251 | however charges and refunds follow each other, a positive quota is never passed |
| Quotas.CounterIsTheDifference | internal/org/usage.go:207-251 | while no more is given back than was granted, the month's counter is exactly the difference |
| Quotas.GrantsUpToTheQuota | internal/org/usage.go:207-237 | nothing is withheld: until something is given back, the grants make up what was wanted as far as the quota goes |
| Quotas.OrgQuota.RecentlyExhausted | internal/ingest/quota.go:168-181 | yes exactly within five seconds of a check that granted less than asked |
| Quotas.OrgQuota.EvictExhausted | internal/ingest/quota.go:217-237 | forgets exactly the expired, or if that makes no room a tenth of the rest as well |
| Quotas.OrgQuota.CheckAndCount | internal/ingest/quota.go:136-159 | charges exactly what it grants, never more than asked or left; a refusal from memory charges nothing, an error neither |
| Quotas.OrgQuota.Refund | internal/ingest/quota.go:161-166 | takes the refund off the month of the charge and no other |
| ExportJobs.AttemptsGrow | internal/export/store.go:228-249 | attempt numbers strictly grow from claim to claim |
| ExportJobs.LeasesAreRespected | internal/export/store.go:228-249 | claims on end with nothing that ends an attempt between them lie more than twenty minutes apart each |
| ExportJobs.SupersededWritesDoNothing | internal/export/store.go:283-347 | a write that took effect was made by the newest attempt before any later claim, and no attempt ends twice |
| ExportJobs.OutcomeWrittenOnce | internal/export/store.go:302-347 | a terminal outcome is written once; after it a done job only ages, and any is removed at most once |
| ExportJobs.ClaimsAreBounded | internal/export/store.go:228-296 | a job is claimed at most three times plus once per release |
| ExportJobs.WhereAttemptsWent | internal/export/store.go:228-347 | every claim but the standing one was requeued, released or lapsed |
| ExportJobs.WhenFailureIsFinal | internal/export/store.go:283-300 | a failure ends the job exactly when requeues, releases and lapses make two before it |
| ExportJobs.WhatTimeDoes | internal/export/store.go:228-279 | a job that has not ended is waiting, within its twenty minutes, up for another claim, or out of its three attempts and swept |
| ExportJobs.ActiveOrEnded | internal/export/store.go:126-165 | the active jobs counted against a limit are all but the ended ones |
| ExportJobs.ReleasesCostAttempts | internal/export/store.go:335-347 | a job released twice ends at its first failure |
| ExportJobs.Store.EnqueueLimited | internal/export/store.go:126-165 | queues a fresh job exactly when both counts of active jobs are below their limits, and keeps them within |
| ExportJobs.Store.Claim | internal/export/store.go:228-249 | takes the oldest claimable job, or none exactly when there is none, and counts the attempt |
| ExportJobs.Store.SweepStale | internal/export/store.go:252-279 | ends exactly the jobs whose last attempt lapsed |
| ExportJobs.Store.Fail | internal/export/store.go:283-300 | requeues or ends the job of the attempt that owns it, the whole new row stated; a stale attempt changes nothing |
| ExportJobs.Store.FailPermanent | internal/export/store.go:321-333 | ends the job of the attempt that owns it; a stale attempt changes nothing |
| ExportJobs.Store.Finish | internal/export/store.go:302-318 | completes the job of the attempt that owns it, to expire after its time to live |
| ExportJobs.Store.Release | internal/export/store.go:336-347 | puts the job back with the same attempt number; a stale attempt changes nothing |
| ExportJobs.Store.Delete | internal/export/store.go:350-361 | removes exactly jobs that have ended |
| ExportJobs.Store.MarkExpired | internal/export/store.go:387-396 | turns exactly the done ones among the given jobs into expired |
| ExportJobs.Store.Settle | internal/export/worker.go:236-338 | which write each build outcome makes; the author is told exactly when this call wrote a terminal outcome |
| EditDistance.ChainsAreNoShorter | cmd/gotcha/config.go:983-1011 | no chain of single-byte inserts, deletes and replacements from one text to the other is shorter than the distance |
| EditDistance.SomeChainIsAsShort | cmd/gotcha/config.go:983-1011 | some chain is exactly that long |
| EditDistance.IsAMetric | cmd/gotcha/config.go:983-1011 | zero only between equals, symmetric, and the triangle inequality |
| EditDistance.LevenshteinDistance | cmd/gotcha/config.go:983-1011 | the two-row loop computes that distance |
| RateLimiter.AllowedInAnyInterval | internal/ingest/ratelimit.go:54-82 | in any stretch of requests those allowed number at most the burst plus the rate times its length |
| RateLimiter.EachKeyIsLimited | internal/ingest/ratelimit.go:54-118 | the same of the answers the limiter itself has given to a key no early eviction took |
| RateLimiter.TokensAreTheLeastSpare | internal/ingest/ratelimit.go:54-82 | what a request finds is the least that the burst and the time since any earlier request leave |
| RateLimiter.SecondsEarn | internal/ingest/ratelimit.go:54-82 | n whole seconds earn n times the rate |
| RateLimiter.AllowedExactlyWithinTheRate | internal/ingest/ratelimit.go:54-82 | a request is allowed exactly when no stretch ending with it would hold more than burst and rate pay for: nothing is refused that could be allowed |
| RateLimiter.EachKeyIsServed | internal/ingest/ratelimit.go:54-118 | the same of the answers the limiter itself has given to a key no early eviction took |
| RateLimiter.RepleteIsFull | internal/ingest/ratelimit.go:111-118 | a bucket is swept exactly when coming back new it would be the same |
| RateLimiter.SweepIsInvisible | internal/ingest/ratelimit.go:111-118 | a bucket swept when full comes back as it would have been |
| RateLimiter.RateLimiter.Sweep | internal/ingest/ratelimit.go:111-118 | removes exactly the buckets that are full again |
| RateLimiter.RateLimiter.Evict | internal/ingest/ratelimit.go:84-109 | makes room in three stages and goes no further than it must: the full buckets, else also the half-full, else also a tenth of what is left |
| RateLimiter.RateLimiter.Allow | internal/ingest/ratelimit.go:54-82 | a key that no early eviction took is answered as by a limiter that never forgets, within ten thousand keys |
| Cardinality.TrackedValues | internal/ingest/cardinality.go:183-189 | the number of remembered values of a project |
| Cardinality.Guard.Remove | internal/ingest/cardinality.go:131-153 | forgetting a project takes exactly its values off the global count |
| Cardinality.Guard.Evict | internal/ingest/cardinality.go:131-153 | forgets exactly the expired projects, or if that makes no room a tenth of the rest as well |
| Cardinality.Guard.HasBudget | internal/ingest/cardinality.go:157-172 | whether a value may still be remembered; the answer is no only when no project's window is over, and no project within its window is forgotten for it |
| Cardinality.Guard.OpenProject | internal/ingest/cardinality.go:87-103 | the project's entry, begun anew if absent or over, the global count kept exact |
| Cardinality.Guard.Value | internal/ingest/cardinality.go:79-128 | a value comes back exactly if it is remembered afterwards, the only new one, else the marker and only for want of room; the field counts and samples it; other projects stay as they are |
| Cardinality.FewDistinctAnswers | internal/ingest/cardinality.go:79-128 | between two resets a field answers at most limit distinct values besides the marker |
| AlertBudget.Budget.ClaimBudget | internal/alert/budget.go:49-82 | allows within the window's limit and counts each refusal on the row; the limit is never passed |
| AlertBudget.Budget.RefundBudget | internal/alert/budget.go:86-103 | gives one place back in a window still running, never below zero |
| AlertBudget.Budget.ClaimSuppressed | internal/alert/budget.go:113-153 | takes the counts of the first due projects by id off their rows and nothing else |
| AlertBudget.Budget.RestoreSuppressed | internal/alert/budget.go:157-167 | adds the count back to what was refused since, or it is lost once |
| AlertBudget.ClaimedOneMore | internal/alert/budget.go:113-153 | taking the least due project next keeps the claim a prefix of the due ones |
| AlertBudget.ClaimedAreDue | internal/alert/budget.go:113-153 | only counts that are there are taken, whole, and only when their window is over |
| AlertBudget.HalfwayNext | internal/alert/digest.go:136-157 | settling one batch settles no other |
| AlertBudget.Digester.Tick | internal/alert/digest.go:118-175 | every batch of a tick is delivered, restored or counted lost, each once, so refusals stay balanced in every run |
| JsonIds.Base64RoundTrip | internal/ingest/otlp.go:579-588 | reading the base64 back gives the bytes (section 4 of RFC 4648) |
| JsonIds.LettersAreTheAlphabet | internal/ingest/otlp.go:579-588 | the letters are those of section 4 of RFC 4648 |
| JsonIds.SextetsHoldTheBits | internal/ingest/otlp.go:579-588 | four sextets hold the bits of three octets in order |
| JsonIds.SpellsItsHex | internal/ingest/otlp.go:579-588 | a string spells bytes exactly when it is their hexadecimal, in either case |
| JsonIds.HexReadsBack | internal/ingest/otlp.go:579-588 | the hexadecimal of bytes is read back as those bytes |
| JsonIds.WhatIsReplaced | internal/ingest/otlp.go:452-470 | a string is replaced exactly when it stands within 64 levels under one of the six keys and is a hexadecimal id of that key's length; the new text is the base64 of its bytes |
| JsonIds.IdChanges | internal/ingest/otlp.go:568-588 | a replaced id is the base64 of the same bytes its hexadecimal spelled (sections 4 and 8 of RFC 4648), and is never replaced again |
| JsonIds.RewritingTwice | internal/ingest/otlp.go:452-548 | rewriting a rewritten tree changes nothing |
| JsonIds.ReadsDocument | internal/ingest/otlp.go:444-548 | the stream of a document is read as that document, or refused for its depth alone |
| JsonIds.ReadIsThere | internal/ingest/otlp.go:444-548 | whatever was read is in the stream |
| JsonIds.ShallowIsLittleNesting | internal/ingest/otlp.go:489-548 | a document is within the depth exactly when no more than 101 containers nest in it |
| JsonIds.Rewriter.ValueFrom | internal/ingest/otlp.go:452-487 | writes the rewritten value and stops where it ends |
| JsonIds.Rewriter.WriteObject | internal/ingest/otlp.go:489-526 | copies an object with its punctuation, each value under its own key |
| JsonIds.Rewriter.WriteArray | internal/ingest/otlp.go:528-548 | copies an array; its elements have no key |
| JsonIds.PrintedReadsBack | internal/ingest/otlp.go:444-548 | the decoder reads printed text back as the tokens it was printed from, punctuation checked |
| JsonIds.OneTextPerTokens | internal/ingest/otlp.go:415-436 | the punctuation of an accepted body is fixed by its tokens |
| JsonIds.ReadsAsPrinted | internal/ingest/otlp.go:415-548 | a body reads as a tree exactly when it is that tree printed and not nested too deep |
| JsonIds.HexIds | internal/ingest/otlp.go:415-436 | the rewritten body, the body as it came, or the refusal of one nested too deep |
| JsonIds.DocumentIsRewritten | internal/ingest/otlp.go:415-548 | a document comes out as a body that reads as the same tree with the ids re-encoded, and is refused exactly when nested beyond the limit |
| JsonIds.OnlyDocumentsAreRewritten | internal/ingest/otlp.go:415-436 | nothing but a whole, well-formed document is ever replaced, and what goes out reads as its rewritten tree |
| JsonIds.RewritingAgain | internal/ingest/otlp.go:415-548 | a rewritten body, sent again, comes back as it came |
| SpanRoots.OwningRoot | internal/ingest/otlp.go:721-732 | the nearest root within 64 steps up, else the first root of the trace; loops of parents included |
| SpanRoots.OwnerIsRoot | internal/ingest/otlp.go:605-732 | the owner is a transaction of the span's own trace, and a span has none exactly when its trace has no root in time |
| SpanRoots.NearestRootOwns | internal/ingest/otlp.go:605-732 | where ids are not repeated, a child span belongs to the first root in time up the chain of parents, if it is no more than 64 spans up, in whatever order they came |
| SpanRoots.RootsSpelled | internal/ingest/otlp.go:605-714 | the transactions are those of the spans in time that have no parent or come from outside |
| SpanRoots.ParentsByPosition | internal/ingest/otlp.go:605-714 | of repeated ids the last span gives the parent |
| SpanRoots.RootOfByPosition | internal/ingest/otlp.go:605-714 | of repeated ids the last root gives the transaction |
| SpanRoots.FirstRootByPosition | internal/ingest/otlp.go:605-732 | a trace's fallback is its first root in time |
| SpanRoots.MapSpans | internal/ingest/otlp.go:605-714 | one transaction per root in time, in batch order, each with its own child spans |
| SpanRoots.MembersBelong | internal/ingest/otlp.go:683-713 | a child span is in no transaction but its owner's, once and in batch order |
| SpanRoots.LeftOutOnlyWhenFull | internal/ingest/otlp.go:683-713 | a child span in time with an owner is left out only if the transaction was full before it |

## Left out

- EdgeStore.EveryRunKeepsInv: runs are serial; concurrent creates under read committed may insert a duplicate or a cycle, which the source accepts, and the walks of Suppressor are proved for graphs with cycles.
- IncidentGroups.EveryRunKeepsInv: the parent relation is fixed during a run, while snapshots of which nodes are down may be arbitrarily stale; incident rows are never deleted.
- Rotation.Scheduler.Tick: the deadline lets a number of incidents through, counted over all sources; how long each takes is not modelled.
- Suppressor.DownRootFromSnapshot: sorting the roots and taking the first is modelled as taking the least.
- Isolate.EveryRowHasOneFate: an insert is all or nothing, as the source assumes of a batch.
- EventBatcher.Batcher.Add: a drop counts as reported when it is handed to the sink, which the source does right after unlocking; the weight of an event is a number of its own.
- EventBatcher.Batcher.Flush: the interleaving of Add with a flush is in the sequence of BeginFlush, Add and the Finish methods, not in this method.
- Pipeline.EveryRunKeepsInv: the byte limit is fixed during a run; the back-pressure wait and the monthly drop aggregates are not modelled.
- Envelopes.RetryDoublesNothing: parsing of an item gives the same result at every attempt, while room, load, quota and sampling rate may change.
- Envelopes.Handler.Accept: the quota checker's answer is an input, at most what was asked, as Quotas.OrgQuota.CheckAndCount proves of it.
- ExportJobs.Store.Claim: ties in age are broken arbitrarily; rows locked by another replica are not skipped, since each statement is atomic.
- JsonIds.HexIds: a body is a sequence of JSON symbols, with one for bytes that are none; the lexical form of numbers and the escaping of strings are not modelled.
- SpanRoots.MapSpans: takes the flat list after spans without ids are dropped and the list is cut at ten thousand.
- AlertBudget.Digester.Tick: a digest counts as delivered when its channels took it; a partial send that is restored and the idempotency keys are not modelled.
- The suppressor's cache, its reload and its invalidation: callers here get an arbitrary snapshot, which covers a stale one.
- The scheduler's gates before a send (maintenance, suppression release, policy lookup), the lease variant of claiming and the log-failure counter.
- Quotas.OrgQuota.CheckAndCount: the thirty-second cache of limits is the looked-up limit given as an input; how a month follows from a time is not modelled.
- The touch throttle of hosts, the agent's buffer, the envelope parser and the anchor generator: smaller relatives of structures modelled here.
- The ordering of suggestions built on the edit distance, the export's row and byte caps, janitor batches and file handling.
- HTTP, authentication, compression, drivers, rendering, delivery of mail and webhooks, flags and wiring.
