# A verified model of binds' stateful core

`binds` is a command-line issue tracker. Its issues live in a SQLite store; a text file, `issues.jsonl`, is
kept as a copy of them so that git can carry it. This project models the parts of `cmd/binds` that keep state,
walk graphs or rewrite that file, and proves what they promise, over all inputs, all runs and all orders in
which Go may walk a map.

| module | models |
|---|---|
| `Autoflush` | the JSONL export: hash validation, full rebuild or incremental merge, filters, atomic write, clearing of marks; histories of changes, outside edits, faults and flushes |
| `FlushManager` | the flush manager's event loop as a transition system over callers, channels, debounce timer, timer callbacks, `FlushNow` and shutdown |
| `FlushSystem` | the two together: each `performFlush` of the loop is one flush of the store, which may fail, while the file may be edited from outside |
| `GraphLayout` | `computeLayout`: the layer fixpoint over a randomly ordered map, the cycle fallback, the layer table |
| `GraphComponents` | the breadth-first searches behind `graph --all` (connected components, roots) and `graph <id>` (dependents) |
| `DepTree`, `TreeFilter`, `ExternalRef` | rendering a dependency tree with a seen set, filtering it by status, parsing external references |
| `TombstonePurge` | purging tombstones by dependency and pruning them by age |
| `EventsExport` | the event log's high-water-mark protocol as small steps of any number of processes, which a crash can interrupt |
| `Duplicates` | finding duplicates, choosing the target, merging, and the auto-merge run |
| `AgentId` | the agent-ID parser that scans from the right |
| `FormatBytes` | the unit chosen for a byte count |
| `Order` | Go's string order, sorting, options |

A method of the source that changes state is a method here, on a class with the source's variables, and its
contract equates the new state with a function of the old one. What the source promises is then proved of that
function. Where Go walks a map or a query returns rows in no promised order, the method picks its elements
with `:|`, so what is proved holds for each order.

The strings that Go compares byte by byte are sequences of characters compared the same way. Hashes are taken
to be free of collisions. Calls that can fail are parameters: each flush, export or merge is given the set of
its calls that fail.

## Where the code and its comments part

The model follows the code. Each of these is stated by a member named in brackets.

- Shutdown "ensures no data is lost" (`autoflush.go:474-475`). A mark is flushed exactly if the loop took it
  before the shutdown request [`FlushManager.MarkFlushedIffTaken`, `FlushManager.BufferedMarkIsDropped`], and
  data is lost with a dropped mark [`FlushSystem.BufferedChangeIsLostOnExit`], but not always: a change that
  commits before the last flush runs gets out even if its mark does not [`FlushSystem.OutrunMarkMayStillReachFile`].
  What decides is whether the database still shows what it showed at the last flush that went through
  [`FlushSystem.CurrentExactly`, `FlushSystem.NothingLostOnExit`].
- The loop clears its flags whether or not the flush went through, so a failed flush is not tried again before
  the next mark [`FlushSystem.FailedFlushIsNotRetried`].
- The 30 second timeout of `Shutdown` guards only the send into an empty buffered channel, not the wait for
  the final flush. The model lets it be taken at any time, and what is promised about shutdown sets that
  case apart [`FlushManager.ShutdownIsClean`].
- `MarkDirty` is called non-blocking; it blocks while the buffer is full and the context is not cancelled
  [`FlushManager.Manager.MarkDirty`].
- `FlushNow` is said to block until the flush completes; a request sent after the loop has exited and before
  the context is cancelled is never answered. Answered are exactly the requests the loop took
  [`FlushManager.LateRequestIsNeverAnswered`, `FlushManager.RequestAnsweredIffTaken`]. Nor does an answer mean
  that every change marked before the call has been flushed: covered are exactly the marks the loop had taken when
  it took the request [`FlushManager.AnswerMissesBufferedMark`, `FlushManager.AnswerCoversExactly`]. And the answer
  is always nil, although "any error from the flush operation" is promised (`flush_manager.go:129-130`): it is given
  whether or not the flush went through [`FlushSystem.AnsweredEitherWay`].
- The debounce is said to flush only after the last call; a callback that had started when a newer mark
  re-armed the timer flushes early. That can happen exactly if such a callback or its token was still about when
  the mark was taken [`FlushManager.RaceIsReachable`, `FlushManager.StaleCallbackFlushesEarly`,
  `FlushManager.DebounceFailsIffStale`].
- A hash mismatch forces a full rebuild, but the stored hash is cleared before the rebuild. If the rebuild
  fails, the next flush trusts the file [`Autoflush.FailedRebuildStopsHealing`]. The mismatch outlives a failed
  flush exactly if one of the validation's own calls failed [`Autoflush.HealingSurvivesIff`]; otherwise the next
  flush is right exactly if it is a full one or the file happens to agree [`Autoflush.HealingAfterFailure`].
- Every error of `validateJSONLIntegrity` comes wrapped, and `os.IsNotExist` does not unwrap, so the branch
  that turns "file missing" into a full export (`autoflush.go:907-908`) is never taken. A missing file is
  handled inside the validation [`Autoflush.Flusher.ValidateIntegrity`].
- The scanner's 2 MB line limit is there against silent truncation. The writer has no such limit, so one
  exported issue of that size stops every later incremental flush
  [`Autoflush.OverlongLineBlocksFlush`, `Autoflush.OverlongIssueBlocksLaterFlushes`].
- Roots are said to be preferred epics first, then by priority, then the oldest; among equals the code keeps
  the first in search order, which is the oldest exactly if that order puts the oldest first
  [`GraphComponents.YoungerRootIsKept`, `GraphComponents.RootIsOldestIff`].
- `DepsRemoved` is meant to count the dependencies a purge removes. It also counts those on tombstones that
  stay, and misses those of staying tombstones on removed ones, so it is right exactly if these are equally many
  [`TombstonePurge.DepsRemovedBalance`, `TombstonePurge.DepsRemovedRightIff`, `TombstonePurge.DepsRemovedOvercounts`].
- A tombstone with an empty ID is deleted even if an open issue names it [`TombstonePurge.PurgeCostsNothing`,
  `TombstonePurge.EmptyTombstoneIsTaken`].
- A negative TTL means "expired at once" to `IsExpired`, but `pruneExpiredTombstones` replaces it by the
  default first [`TombstonePurge.Prune`].
- The event log's mark moves past an event that was appended to a line a cut-short write had left unfinished
  [`EventsExport.CompletionCoversExactly`, `EventsExport.TornWriteLosesEvent`].
- No lock keeps exports and resets of different commands apart. A reset between another export's fetch and its
  last step leaves the mark above events that are no longer in the file [`EventsExport.ResetUndercutsExport`,
  `EventsExport.CoveredUnlessUncovered`], and overlapping exports write an event twice
  [`EventsExport.OverlappingExportsRepeat`, `EventsExport.RepeatsExactly`].
- With every path shown, the tree renderer can index its connector array out of range although every row lies
  within the depth limit. It does exactly if the path by which a search through the children in order first comes
  to some ID with children is longer than the limit [`DepTree.AllPathsOverflow`, `DepTree.OverflowsExactly`].
- With every path of a cyclic graph shown, the ancestor walk of the status filter never ends
  [`TreeFilter.WalkEndsIffNoCycle`, `TreeFilter.CyclicWalkNeverEnds`].
- `formatBytes` can print `1024.0` of a unit [`FormatBytes.RoundsUpToNextUnit`, `FormatBytes.OneByteShort`].

## Model

| member | source | states |
|---|---|---|
| `Autoflush.FlushRefinesFullExport` | cmd/binds/autoflush.go:873-980 | after any history of changes, outside edits, failing and succeeding flushes, a flush that neither fails nor skips leaves a file whose live part is exactly the filtered full export of the current database in increasing ID order; "nothing dirty" counts as such a flush |
| `Autoflush.WrittenIsCurrent` | cmd/binds/autoflush.go:911-946 | for any state at all: what a flush writes is the full export if and only if it rebuilt the file or the old file agreed with the database on every unmarked issue |
| `Autoflush.RunKeepsInv` | cmd/binds/autoflush.go:873-980 | in every state of every admissible history the file the next flush will trust is canonical and agrees with the database outside the dirty set |
| `Autoflush.FlushKeepsInv` | cmd/binds/autoflush.go:873-980 | one flush, with any faults that do not lose a stored hash, keeps that invariant |
| `Autoflush.InvFlushIsCurrent` | cmd/binds/autoflush.go:922-925 | from any state of the invariant, not only reachable ones, both a writing flush and the early return leave the full export |
| `Autoflush.SelfHealing` | cmd/binds/autoflush.go:531-584 | if the file does not match a stored hash, whatever it holds, an active flush either fails or leaves the full export; a flush that does not fail never leaves a stored hash of other contents |
| `Autoflush.HealingSurvivesIff` | cmd/binds/autoflush.go:531-584 | after a failed flush over a mismatched file, the mismatch is still on record, and the next flush still heals, if and only if the failing call was one of the validation's own |
| `Autoflush.HealingAfterFailure` | cmd/binds/autoflush.go:899-946 | otherwise the next flush that writes leaves the full export if and only if it is forced to be full or the file agrees with the database wherever nothing is marked |
| `Autoflush.CleanIsCurrent` | cmd/binds/autoflush.go:942-946 | a file in the form a flush writes is the full export if and only if it agrees with the database on every issue |
| `Autoflush.NothingDirtyIsCurrent` | cmd/binds/autoflush.go:922-925 | so the early return is right over such a file exactly then, from any state |
| `Autoflush.FailedRebuildStopsHealing` | cmd/binds/autoflush.go:539-541 | a concrete run beside the two rows above: a mismatch, a rebuild whose write fails, and a next flush that reports success over a stale file |
| `Autoflush.UnstoredHashTrustsRevert` | cmd/binds/autoflush.go:834-837 | a concrete run: a hash that could not be stored makes a reverted file count as trusted although it lacks an issue |
| `Autoflush.FailureKeepsFile` | cmd/binds/autoflush.go:899-957 | a failed flush changes neither file nor database nor marks, and drops the stored hash only if it did not match |
| `Autoflush.MarksAfterFlush` | cmd/binds/autoflush.go:961-966 | a mark outlives a flush that clears marks if and only if no line of its ID was written, so marks of deleted, ephemeral and foreign-prefix issues stay |
| `Autoflush.TombstonesAfterFlush` | cmd/binds/autoflush.go:933-946 | which tombstones the file holds afterwards: none after a rebuild, else the marked ones of the database and the unmarked ones of the old file |
| `Autoflush.OverlongLineBlocksFlush` | cmd/binds/autoflush.go:690-715 | with every call succeeding, a forced flush fails if and only if it is incremental, has a mark to serve and the file holds a line over the scanner's limit |
| `Autoflush.OverlongIssueBlocksLaterFlushes` | cmd/binds/autoflush.go:605-613 | once an issue encoding to such a line has been exported, the next incremental flush with anything to export fails |
| `Autoflush.CanonicalRoundTrip` | cmd/binds/autoflush.go:679-718 | reading a file as a flush writes it and writing it back reproduces it line for line |
| `Autoflush.WrittenIsCanonical` | cmd/binds/autoflush.go:586-622 | the written file is strictly sorted, holds only exportable issues, and reads back as the map it came from |
| `Autoflush.LiveIssuesOfListing` | cmd/binds/autoflush.go:946-946 | the live lines of a written file are exactly the live issues of the written map, in order |
| `Autoflush.SameExport` | cmd/binds/autoflush.go:942-946 | two databases have the same live export if and only if they show the same of every ID |
| `Autoflush.SortedListing` | cmd/binds/autoflush.go:587-590 | the sort makes the file the same whatever order the map was walked in |
| `Autoflush.KeepsExactly` | cmd/binds/autoflush.go:756-817 | in the configuration's own fields: which issues may be exported; the prefix counts only outside the primary repository of a multi-repo setup with a configured prefix, and gets one hyphen if it has none |
| `Autoflush.FullExportExactly` | cmd/binds/autoflush.go:942-946 | the full export holds an issue if and only if it is a row of the database, no tombstone, and may be exported, in strictly increasing ID order |
| `Autoflush.OutcomeExactly` | cmd/binds/autoflush.go:873-980 | from the request, the marks, the file and the calls that fail: exactly when a flush is skipped, has nothing to do, writes, and stores the hash |
| `Autoflush.RebuildsExactly` | cmd/binds/autoflush.go:899-925 | a flush rebuilds if and only if it is forced to, or the file does not match its hash and no call of the validation fails |
| `Autoflush.ReadMapExactly` | cmd/binds/autoflush.go:690-711 | reading any file, written by a flush or not: an ID is read if and only if some line decodes to it, and then as the last such line says, with the defaults for status and type |
| `Autoflush.LiveIssuesAt` | cmd/binds/autoflush.go:690-711 | the live issues of a file are those of its decodable lines that are no tombstones, each where it stands |
| `Order.LessExactly` | cmd/binds/autoflush.go:587-590 | the sort order is decided by the first differing character, a proper prefix coming first |
| `Autoflush.Flusher.ValidateIntegrity` | cmd/binds/autoflush.go:531-584 | the verdict, and the clearing of the hash exactly when a full export is signalled |
| `Autoflush.Flusher.IssuesToExport` | cmd/binds/autoflush.go:984-1002 | all live IDs for a full export, else exactly the dirty ones, in any order |
| `Autoflush.Flusher.ReadExisting` | cmd/binds/autoflush.go:679-718 | the last line of each ID with defaults applied, malformed lines skipped; no result if the file cannot be opened or holds an overlong line |
| `Autoflush.Flusher.FetchAndMerge` | cmd/binds/autoflush.go:722-752 | the base overlaid with the fetched rows, IDs without a row dropped; no result if a row is unreadable |
| `Autoflush.Flusher.FilterWisps` | cmd/binds/autoflush.go:756-770 | each non-ephemeral issue once, no other |
| `Autoflush.Flusher.FilterByPrefix` | cmd/binds/autoflush.go:774-817 | every issue in a single repository, in the primary one or without a configured prefix; elsewhere exactly the issues whose ID starts with the configured prefix and one hyphen |
| `Autoflush.Flusher.WriteAtomic` | cmd/binds/autoflush.go:586-647 | the file becomes the sorted listing and the result its IDs, or nothing changes |
| `Autoflush.Flusher.ClearDirty` | cmd/binds/autoflush.go:961-966 | the marks of the exported IDs go, all of them or none |
| `Autoflush.Flusher.UpdateMetadata` | cmd/binds/autoflush.go:820-845 | the stored hash becomes that of the file read back, or stays |
| `Autoflush.Flusher.ExportIssues` | cmd/binds/autoflush.go:919-969 | the steps from the choice of IDs to the metadata, tied to the specification of an export in a decided mode |
| `Autoflush.Flusher.Flush` | cmd/binds/autoflush.go:873-980 | the whole flush refines the specification all the properties above are about, in every branch and under every fault |
| `FlushManager.MarksAccountedFor` | cmd/binds/flush_manager.go:187-277 | in every reachable state the accepted marks are, in order, those of the flushed batches, the pending ones and the at most ten buffered; each batch is non-empty and exports fully if and only if a mark of it asked for that |
| `FlushManager.NoLostWakeUp` | cmd/binds/flush_manager.go:206-256 | whenever the loop waits with marks pending, the timer is armed, its callback in flight or its token there, and timer and loop alone then flush exactly those marks |
| `FlushManager.RequestsAnsweredOnce` | cmd/binds/flush_manager.go:238-256 | requests sent are exactly those answered, those still in the channel and the one being served; the answers are in order, each request has one, and each came when all marks received before it had been flushed |
| `FlushManager.ShutdownIsClean` | cmd/binds/flush_manager.go:155-181 | at most one shutdown request is ever sent; unless the timeout branch was taken, a cancelled context means the loop has exited with nothing pending |
| `FlushManager.ExitIsFinal` | cmd/binds/flush_manager.go:258-275 | after the loop has exited no schedule flushes, answers or takes anything |
| `FlushManager.MarkFlushedIffTaken` | cmd/binds/flush_manager.go:258-270 | at a clean exit the i-th accepted mark has been flushed if and only if it had left the channel before the shutdown request was taken |
| `FlushManager.BufferedMarkIsDropped` | cmd/binds/flush_manager.go:258-270 | a concrete schedule after which an accepted mark is never flushed, whatever follows |
| `FlushManager.LateRequestIsNeverAnswered` | cmd/binds/flush_manager.go:133-147 | a concrete schedule after which a sent request is never answered, whatever follows |
| `FlushManager.RequestAnsweredIffTaken` | cmd/binds/flush_manager.go:238-275 | once the loop has exited, a request sent at any time is ever answered if and only if it had left the channel by then, whatever follows |
| `FlushManager.AnswerCoversExactly` | cmd/binds/flush_manager.go:133-147 | in any schedule after a request is taken, when its answer comes the first m marks accepted have been flushed if and only if the loop had taken them from the channel before the request |
| `FlushManager.AnswerMissesBufferedMark` | cmd/binds/flush_manager.go:245-249 | a concrete schedule in which a mark accepted before the call is still buffered, and nothing flushed, when the call is answered |
| `FlushManager.RaceIsReachable` | cmd/binds/flush_manager.go:214-227 | a schedule that leaves an old callback in flight beside a newly armed timer |
| `FlushManager.StaleCallbackFlushesEarly` | cmd/binds/flush_manager.go:229-236 | from that state the old callback starts a flush while the newest mark's timer is still armed |
| `FlushManager.DebounceFailsIffStale` | cmd/binds/flush_manager.go:206-236 | from any state in which a mark is taken, some schedule without a further mark flushes while the timer is still armed if and only if an older timer's callback or token was still about |
| `FlushManager.EventsAccounted` | cmd/binds/flush_manager.go:187-277 | in every schedule the events that happened account for the state: timers fired never outnumber marks taken, every callback started has run or is still to run, tokens taken never outnumber callbacks run, and each send, ignored mark, request, shutdown request and flush counts once; marks are ignored only once the context is cancelled |
| `FlushManager.SendsExactly` | cmd/binds/flush_manager.go:113-147 | in every schedule: a mark can be sent if and only if fewer than ten accepted ones are yet to be taken, a request if and only if none is, and a mark ignored if and only if the context is cancelled |
| `FlushManager.DebouncedFlushLeavesNothing` | cmd/binds/flush_manager.go:206-236 | an ordinary debounced flush uses up its timer, callback and token, so no schedule without a further mark flushes the next mark early |
| `FlushManager.FlushNowCancelsTimer` | cmd/binds/flush_manager.go:238-243 | after a request is taken the timer is not armed and starts no callback before a further mark is taken |
| `FlushManager.NextKeepsInv` | cmd/binds/flush_manager.go:187-277 | every event that can happen keeps the conjunction of the seven invariants |
| `FlushManager.ExecuteKeepsInv` | cmd/binds/flush_manager.go:187-277 | hence every schedule does, from any state that satisfies them |
| `FlushManager.Manager.MarkDirty` | cmd/binds/flush_manager.go:113-127 | when the call sends, when it is ignored, when the choice is free, and when it blocks |
| `FlushManager.Manager.TimerCallback` | cmd/binds/flush_manager.go:217-227 | the callback leaves a token and never blocks |
| `FlushManager.Manager.StopTimer` | cmd/binds/flush_manager.go:213-216 | stopping disarms the timer the loop holds and recalls no callback |
| `FlushManager.Manager.OnMark` | cmd/binds/flush_manager.go:206-227 | the mark branch as a transition |
| `FlushManager.Manager.OnTimer` | cmd/binds/flush_manager.go:229-232 | the timer branch as a transition, up to the call of performFlush: the token is used up, and a flush follows if and only if something is pending |
| `FlushManager.Manager.OnFlushNow` | cmd/binds/flush_manager.go:238-252 | the request branch as a transition, up to the call of performFlush |
| `FlushManager.Manager.OnShutdown` | cmd/binds/flush_manager.go:258-270 | the shutdown branch as a transition |
| `FlushManager.Manager.OnCancel` | cmd/binds/flush_manager.go:272-274 | the cancellation branch as a transition |
| `FlushManager.Manager.AfterFlush` | cmd/binds/flush_manager.go:232-256 | what each branch does when performFlush returns |
| `FlushManager.Manager.Run` | cmd/binds/flush_manager.go:187-277 | loop, callers and timer driven by any schedule end in the state the transition system gives, with the invariant kept |
| `FlushSystem.EveryPerformFlushIsCurrent` | cmd/binds/flush_manager.go:281-296 | in every schedule of changes, marks, timers, requests, outside edits, faults, a closed store and shutdown, a performFlush that goes through leaves the live part of the file equal to the full export of the database as it then stands, and one that does not leaves store and file alone; the loop has nothing pending either way |
| `FlushSystem.PerformLeaves` | cmd/binds/flush_manager.go:281-296 | the same from any state of the joint invariant, with what is remembered of the last flush that went through |
| `FlushSystem.CurrentExactly` | cmd/binds/autoflush.go:474-475 | in every reachable state whose file nobody edited since the last flush that went through, the file is current if and only if the database shows of every issue what it showed at that flush |
| `FlushSystem.NothingLostOnExit` | cmd/binds/autoflush.go:474-475 | so it is current after a clean exit if every change was announced, every announcement taken before the shutdown request, and the last flush went through |
| `FlushSystem.BufferedChangeIsLostOnExit` | cmd/binds/autoflush.go:474-475 | a schedule whose change never reaches the file |
| `FlushSystem.OutrunMarkMayStillReachFile` | cmd/binds/flush_manager.go:258-270 | a schedule whose last mark is never taken and whose change reaches the file |
| `FlushSystem.FailedFlushIsNotRetried` | cmd/binds/flush_manager.go:229-256 | with nothing pending, no schedule brings another performFlush before the loop takes a new mark, and without edits the file stays as it is |
| `FlushSystem.AnsweredEitherWay` | cmd/binds/flush_manager.go:251-256 | a FlushNow request is answered when its flush returns, whether the file is then current or the flush did not go through |
| `FlushSystem.TombstonesAfterPerform` | cmd/binds/flush_manager.go:281-296 | what full marks are for: which tombstones the file holds after a performFlush, none if a mark it answers for asked for a full export |
| `FlushSystem.FlushSucceeds` | cmd/binds/flush_manager.go:291-295 | a flush of an open store whose calls succeed goes through and leaves the full export, whatever was done to the file, if no issue is over the scanner's line limit |
| `FlushSystem.BenignNeverFails` | cmd/binds/flush_manager.go:281-296 | in every schedule without faults and without such issues, outside edits allowed, no performFlush fails |
| `FlushSystem.NextKeepsInv` | cmd/binds/flush_manager.go:187-296 | every joint event keeps the joint invariant |
| `GraphLayout.AssignedIsLongest` | cmd/binds/graph.go:404-439 | a layer the fixpoint assigns is the length of the node's longest dependency chain |
| `GraphLayout.ResidueIsCyclic` | cmd/binds/graph.go:404-446 | the fixpoint leaves a node unassigned if and only if a cycle or an ID outside the graph can be reached from it; with all ends inside, only cycles |
| `GraphLayout.LayersAreUnique` | cmd/binds/graph.go:404-446 | confluence: the layers do not depend on the order the map was walked in |
| `GraphLayout.EdgesGoUp` | cmd/binds/graph.go:404-446 | a blocks edge goes strictly up if and only if its dependent is outside the residue |
| `GraphLayout.LayersHaveNoGaps` | cmd/binds/graph.go:448-458 | below any layer in use every layer is in use, cycles or not |
| `GraphLayout.FallbackLayers` | cmd/binds/graph.go:441-446 | fixpoint and fallback together give longest chains, and 0 to exactly the residue |
| `GraphLayout.TableIsFull` | cmd/binds/graph.go:448-458 | no layer of the table is empty |
| `GraphLayout.DependsOnHasBlocks` | cmd/binds/graph.go:383-393 | a node depends on exactly the targets of its blocks records |
| `GraphLayout.DependsOnAt` | cmd/binds/graph.go:383-393 | its list has one entry for each such record, in record order |
| `GraphLayout.GraphLayout.Build` | cmd/binds/graph.go:383-402 | the dependency map and the unassigned nodes |
| `GraphLayout.GraphLayout.HighestDependency` | cmd/binds/graph.go:420-432 | whether every dependency has a layer, and then the highest |
| `GraphLayout.GraphLayout.Sweep` | cmd/binds/graph.go:408-438 | a sweep in any order assigns something or proves nothing can be assigned |
| `GraphLayout.GraphLayout.AssignLayers` | cmd/binds/graph.go:406-439 | the sweeps end, in a fixpoint |
| `GraphLayout.GraphLayout.ForceRemaining` | cmd/binds/graph.go:441-446 | exactly the unassigned nodes go to layer 0 |
| `GraphLayout.GraphLayout.FindMaxLayer` | cmd/binds/graph.go:448-453 | the maximum is an upper bound and attained |
| `GraphLayout.GraphLayout.CollectLayers` | cmd/binds/graph.go:455-458 | each node stands once, in its own layer |
| `GraphLayout.GraphLayout.SortLayers` | cmd/binds/graph.go:460-463 | each layer becomes strictly increasing and keeps its members |
| `GraphLayout.GraphLayout.AssignPositions` | cmd/binds/graph.go:465-470 | each node's position is its index in its layer |
| `GraphLayout.GraphLayout.Compute` | cmd/binds/graph.go:377-473 | from issues and records: longest-chain layers with the residue at 0, and a table that partitions the nodes, has no gap, is sorted and agrees with the positions |
| `GraphComponents.SameComponent` | cmd/binds/graph.go:278-306 | two issues share a component if and only if dependencies, followed either way, connect them |
| `GraphComponents.Explore` | cmd/binds/graph.go:287-303 | one search finds exactly what can be reached from its start, once each, in breadth-first order, and nothing visited before |
| `GraphComponents.FindComponents` | cmd/binds/graph.go:278-306 | the components are the classes of reachability, disjoint, cover every open issue, and are each searched breadth first from the issue that stands earliest in the list |
| `GraphComponents.FindNext` | cmd/binds/graph.go:287-305 | one more search extends the partition found so far by one class |
| `GraphComponents.SearchOrderIsUnique` | cmd/binds/graph.go:287-303 | start and lists leave a breadth-first search one order only, and one entry through which each ID is met |
| `GraphComponents.MetIffReached` | cmd/binds/graph.go:287-303 | such an order holds an ID if and only if it can be reached from the start |
| `GraphComponents.EndsAt` | cmd/binds/graph.go:271-276 | an adjacency list has one entry for each way out along a loaded dependency, in loading order |
| `GraphComponents.DependencyLandsOnce` | cmd/binds/graph.go:359-366 | every loaded dependency lies in exactly one component's subgraph, as often as it was loaded |
| `GraphComponents.LoadedAt` | cmd/binds/graph.go:254-269 | each record that points at a listed issue is loaded once for each place it has, issue by issue and record by record |
| `GraphComponents.WithinAt` | cmd/binds/graph.go:359-366 | a component has the loaded dependencies with both ends inside, in loading order |
| `GraphComponents.IssueMapKeys` | cmd/binds/graph.go:248-252 | of several issues with one ID the map holds the last |
| `GraphComponents.LoadedElements` | cmd/binds/graph.go:256-269 | a dependency is loaded if and only if it belongs to a listed issue and points at one |
| `GraphComponents.BuildAdjacency` | cmd/binds/graph.go:271-276 | the adjacency lists hold the other ends of the loaded dependencies in loading order; neighbours are exactly the pairs one joins, either way |
| `GraphComponents.ChooseRoot` | cmd/binds/graph.go:325-348 | the root is the first issue that none beats by epic first, then priority |
| `GraphComponents.SubgraphIssues` | cmd/binds/graph.go:320-356 | issue by issue a subgraph holds what the list has last under each ID of its component, and its root is one of them |
| `GraphComponents.RootIsBest` | cmd/binds/graph.go:325-348 | the root is an epic if the component has one, has the smallest priority number of its kind, and each issue before it is of the lesser kind or has a larger number |
| `GraphComponents.RootIsOldestIff` | cmd/binds/graph.go:325-348 | the root is the oldest of the unbeaten issues if and only if the first unbeaten one in search order is |
| `GraphComponents.YoungerRootIsKept` | cmd/binds/graph.go:325-348 | two equally good issues of which the younger, met first, becomes the root |
| `GraphComponents.OrderComponents` | cmd/binds/graph.go:308-318 | the same components, the larger ones first and equally large ones by the priority number of their first issue |
| `GraphComponents.BuildSubgraph` | cmd/binds/graph.go:320-369 | a component's issues in search order, its root, and the dependencies inside it in loading order |
| `GraphComponents.LoadAll` | cmd/binds/graph.go:227-374 | all of it: one subgraph for each class of connected issues, larger classes first, each in breadth-first order from its earliest issue, from whatever the store returned |
| `GraphComponents.LoadDependents` | cmd/binds/graph.go:177-206 | the root first, then once each exactly the issues that depend on it directly or through others, each the very row of the store the search met first, in breadth-first order |
| `GraphComponents.LoadSubgraph` | cmd/binds/graph.go:157-223 | those issues, each as the store returned it, with the dependencies among them; every row returned for one of them is among them by ID, and failing look-ups are dead ends |
| `GraphComponents.DependentsAreUnique` | cmd/binds/graph.go:177-206 | root and store determine the loaded issues, rows and order |
| `DepTree.RenderIsExact` | cmd/binds/dep.go:724-777 | on any children map, cyclic or not, an ID is printed in full once if it can be reached from the root and never otherwise; every other line is a reminder below the full one |
| `DepTree.RenderSound` | cmd/binds/dep.go:751-755 | the same from any seen set: each newly seen ID has one full line, each reminder its full line above or was seen before |
| `DepTree.RenderCloses` | cmd/binds/dep.go:768-776 | all children of every newly seen node are seen |
| `DepTree.RenderReaches` | cmd/binds/dep.go:768-776 | nothing is seen that cannot be reached |
| `DepTree.GradedFits` | cmd/binds/dep.go:732-738 | if every child sits one below its parent and nothing below the limit, no connector access is out of range |
| `DepTree.ConsistentTreeFits` | cmd/binds/dep.go:691-721 | so on trees with unique IDs and the store's depths the renderer cannot fail |
| `DepTree.OverflowsExactly` | cmd/binds/dep.go:724-777 | on any children map, repeated IDs and cycles included, a connector access is out of range if and only if the first path to some ID with children has more steps than the limit: first, if it repeats no ID and at no step an earlier child leads to its end around the path so far |
| `DepTree.FirstIsUnique` | cmd/binds/dep.go:768-776 | there is at most one first path to an ID |
| `DepTree.FirstIsPrinted` | cmd/binds/dep.go:751-776 | its end is printed in full, at the depth of the path |
| `DepTree.OutputExactly` | cmd/binds/dep.go:724-777 | every printed line stands at a path of child indices from the root: its column 0 is never drawn, column c > 0 is drawn if and only if the path's node at depth c + 1 is not the last child of its parent, its branch is the last one if and only if its own node is, and the ellipsis is there if and only if the node is truncated or at the limit with children; the lines come in reading order, and below each full line every child has one |
| `DepTree.ChildListAt` | cmd/binds/dep.go:703-714 | a children list holds the nodes below depth 0 that name the parent, each once, in tree order |
| `DepTree.ShallowFits` | cmd/binds/dep.go:724-777 | so if no path of more steps than the limit leads from the root to an ID with children, no access is out of range |
| `DepTree.AllPathsOverflow` | cmd/binds/dep.go:768-776 | a tree as the store lists it with every path shown, all rows within the limit, on which one is out of range |
| `DepTree.TreeRenderer.RenderNode` | cmd/binds/dep.go:724-777 | prints what the specification prints, whose lines and columns are those of `DepTree.OutputExactly`, and goes out of range if and only if a node with children is expanded below the last column, although the connector array is shared and overwritten |
| `DepTree.ListChildren` | cmd/binds/dep.go:703-718 | the children lists in tree order, and the root: the last node of depth 0, else the first |
| `DepTree.TreeRenderer.RenderTree` | cmd/binds/dep.go:691-721 | the whole output, none for an empty tree, which is printed to its end if and only if no first path is too deep; then each line stands at its path with its bars and branch, in reading order |
| `TreeFilter.WalkEndsIffNoCycle` | cmd/binds/dep.go:860-867 | the ancestor walk ends if and only if it never meets an ID twice |
| `TreeFilter.WalkEndsOnTree` | cmd/binds/dep.go:845-867 | it ends on every tree with unique IDs whose parents sit above their children |
| `TreeFilter.CyclicWalkNeverEnds` | cmd/binds/dep.go:845-867 | a concrete tree on which it does not end |
| `TreeFilter.MarkAncestors` | cmd/binds/dep.go:856-868 | the walk closes the kept set under parents and adds nothing a closed set need not have |
| `TreeFilter.FilterByStatus` | cmd/binds/dep.go:827-879 | the result is the tree, in order, restricted to the least ancestor-closed set with every node of the status |
| `TreeFilter.FilterKeeps` | cmd/binds/dep.go:827-879 | so a node is kept if and only if it, or a descendant of it, has the status |
| `TreeFilter.FilterExactly` | cmd/binds/dep.go:827-879 | in full: a node stays where it stood if and only if parents followed upwards lead to its ID from a node of the status |
| `TreeFilter.ParentMapExactly` | cmd/binds/dep.go:845-850 | the parent of an ID is the one named by its last node that names another ID |
| `TreeFilter.LeastClosedIsAbove` | cmd/binds/dep.go:852-868 | that least set holds exactly the matching IDs and their ancestors at any distance |
| `ExternalRef.ParseShow` | cmd/binds/dep.go:952-963 | parsing inverts printing for every colon-free project and every capability |
| `ExternalRef.ShowParse` | cmd/binds/dep.go:952-963 | printing inverts parsing; anything else parses to two empty strings |
| `ExternalRef.ValidIffShown` | cmd/binds/dep.go:922-945 | valid references are exactly the printed ones with both parts non-empty |
| `ExternalRef.ErrorsExact` | cmd/binds/dep.go:922-945 | which invalid reference gets which error |
| `TombstonePurge.PurgeCostsNothing` | cmd/binds/compact_tombstone.go:345-358 | no open issue loses a dependency, if and only if no open issue names a tombstone of empty ID |
| `TombstonePurge.EmptyTombstoneIsTaken` | cmd/binds/compact_tombstone.go:338-343 | a concrete list in which an open issue loses its dependency on a tombstone of empty ID |
| `TombstonePurge.PurgeLeavesNoDanglers` | cmd/binds/compact_tombstone.go:386-402 | no remaining dependency points at a removed tombstone, and every other dependency remains |
| `TombstonePurge.PurgeIsMaximal` | cmd/binds/compact_tombstone.go:345-358 | every set of tombstones whose removal costs no open issue a dependency is among the removed ones |
| `TombstonePurge.PurgeIsIdempotent` | cmd/binds/compact_tombstone.go:316-402 | a second purge deletes nothing and rewrites the same list |
| `TombstonePurge.LiveIssuesStay` | cmd/binds/compact_tombstone.go:386-402 | all live issues stay, in order, if and only if none shares its ID with a removed tombstone |
| `TombstonePurge.WithoutAt` | cmd/binds/compact_tombstone.go:386-402 | the rewritten list has the issues of other IDs in their order, nothing changed but their dependencies |
| `TombstonePurge.CleanDepsAt` | cmd/binds/compact_tombstone.go:390-397 | of those the ones on removed IDs go and the others stay in order |
| `TombstonePurge.DepsRemovedBalance` | cmd/binds/compact_tombstone.go:371-380 | the reported count balanced against the dependencies that actually go |
| `TombstonePurge.DepsRemovedRightIff` | cmd/binds/compact_tombstone.go:371-380 | the reported count is right if and only if closed issues have as many dependencies on staying tombstones as those have on removed ones |
| `TombstonePurge.DepsRemovedOvercounts` | cmd/binds/compact_tombstone.go:371-380 | a concrete list from which nothing is removed and one dependency is reported |
| `TombstonePurge.Classify` | cmd/binds/compact_tombstone.go:317-329 | tombstones, open and other live issues |
| `TombstonePurge.ReverseDependencies` | cmd/binds/compact_tombstone.go:335-343 | who depends on whom, the empty ID left out |
| `TombstonePurge.FindSafe` | cmd/binds/compact_tombstone.go:345-358 | exactly the tombstones no open issue depends on |
| `TombstonePurge.Split` | cmd/binds/compact_tombstone.go:360-369 | deleted and kept IDs, each once, adding up |
| `TombstonePurge.Purge` | cmd/binds/compact_tombstone.go:316-402 | the report (before = deleted + kept) and the rewritten list, or none in a dry run |
| `TombstonePurge.Prune` | cmd/binds/compact_tombstone.go:57-73 | exactly the tombstones past their time go, in order, with the default for a TTL that is not positive |
| `TombstonePurge.ExpiredExactly` | internal/types/types.go:289-319 | in nanoseconds, through the default that `pruneExpiredTombstones` puts in: 30 days and an hour unless a positive time is given, which counts as it is up to one hour and with an hour added above |
| `TombstonePurge.ExpiredIdsAt` | cmd/binds/compact_tombstone.go:64-73 | the pruned IDs are those of the expired tombstones in list order |
| `TombstonePurge.UnexpiredAt` | cmd/binds/compact_tombstone.go:64-73 | the others stay unchanged in list order |
| `TombstonePurge.PruningComposes` | cmd/binds/compact_tombstone.go:57-73 | pruning earlier, or with a longer TTL, and then again amounts to the later pruning alone |
| `EventsExport.NothingLost` | cmd/binds/events_export.go:16-81 | at every point of every interleaving of recording with any number of exports and resets, crashes anywhere: every recorded event at or below the stored mark that was recorded after the last truncation is in the file, as long as no such event is appended to an unfinished line |
| `EventsExport.NothingLostApart` | cmd/binds/events_export.go:16-81 | if resets keep apart from exports and each other, older events are in the file too, however many exports overlap |
| `EventsExport.CoveredUnlessUncovered` | cmd/binds/events_export.go:57-78 | only two steps can leave a recorded event behind the mark: storing a mark above an old one the file lacks, and truncating while a mark stands above one; what avoids them beforehand is in `NothingLostApart` and `CompletionCoversExactly` |
| `EventsExport.ResetUndercutsExport` | cmd/binds/events_export.go:16-81 | a concrete interleaving in which that happens |
| `EventsExport.CompletionCoversExactly` | cmd/binds/events_export.go:45-60 | an export that runs on to its end covers every recorded event up to its new mark if and only if its next append meets no unfinished line with an event not yet in the file, and the events older than the last truncation are in the file or still to be written |
| `EventsExport.TornWriteLosesEvent` | cmd/binds/events_export.go:45-55 | a concrete run in which an event is lost |
| `EventsExport.NextKeepsInv` | cmd/binds/events_export.go:16-81 | every step of any process but a losing append and a truncation keeps the protocol's invariant, above any bound |
| `EventsExport.TruncationKeepsInv` | cmd/binds/events_export.go:73-78 | a truncation keeps it above what was recorded by then |
| `EventsExport.AppendsBring` | cmd/binds/events_export.go:48-55 | what n appends bring into the file, exactly |
| `EventsExport.RepeatsExactly` | cmd/binds/events_export.go:48-55 | the only step that makes an event stand twice is an append of one the file already holds |
| `EventsExport.OverlappingExportsRepeat` | cmd/binds/events_export.go:16-63 | a concrete interleaving in which that happens |
| `EventsExport.ExactlyOnce` | cmd/binds/events_export.go:16-81 | since the last reset, whatever crashes, torn writes, losses and overlaps came before it: in a run without crash, failure or overlap the file is a strictly increasing log, so nothing stands twice |
| `EventsExport.UndisturbedKeepsTidy` | cmd/binds/events_export.go:16-81 | and the mark only grows until the next reset |
| `EventsExport.ExportedExactly` | cmd/binds/events_export.go:16-63 | and whenever nothing is under way, a recorded event is in the file if and only if its ID is at most the mark |
| `EventsExport.EventLog.AppendEvents` | cmd/binds/events_export.go:45-55 | the encoding loop as appends, with the highest ID, up to the event it stops at |
| `EventsExport.EventLog.Export` | cmd/binds/events_export.go:16-63 | the whole export as a run of the protocol's steps, for every place it can stop, and when it reports success; a success on a file without an unfinished line appends exactly the recorded events above the old mark, or all of them if the mark could not be read, in ID order, and makes the last of them the mark, and anything else leaves the mark and the old lines as they were |
| `EventsExport.MarkIsHighest` | cmd/binds/events_export.go:45-60 | after such a success no recorded event is above the mark, which is the ID of a recorded event if it moved |
| `EventsExport.SecondExportIsIdle` | cmd/binds/events_export.go:16-63 | and a second success with nothing recorded in between changes neither file nor mark |
| `EventsExport.ExportIsUndisturbed` | cmd/binds/events_export.go:16-63 | the steps of an export without failures are an undisturbed run, so `EventsExport.ExactlyOnce` and `EventsExport.ExportedExactly` speak of the method |
| `EventsExport.EventLog.Reset` | cmd/binds/events_export.go:67-81 | mark first, file second, as a run of the protocol's steps, and what of the two has gone wherever it stops |
| `Duplicates.OneSurvivor` | cmd/binds/duplicates.go:47-97 | after a run with succeeding calls exactly one candidate of each key is left, and it beats all others of the key |
| `Duplicates.SecondRunFindsNothing` | cmd/binds/duplicates.go:47-97 | so a second run finds no duplicate group |
| `Duplicates.BestIsUnique` | cmd/binds/duplicates.go:256-305 | the target depends on the members of a group only, not on their order |
| `Duplicates.BeatsExactly` | cmd/binds/duplicates.go:265-303 | in plain fields: the sum of both dependency counts, then the text references, then the IDs at their first difference |
| `Duplicates.LosesExactly` | cmd/binds/duplicates.go:47-97 | an issue loses if and only if it is neither closed nor a tombstone and an issue with the same title, description, design, acceptance criteria and status beats it |
| `Duplicates.ClosingExactly` | cmd/binds/duplicates.go:363-387 | closing sets the status of the given issues to closed and changes nothing else |
| `Duplicates.WithKeyAt` | cmd/binds/duplicates.go:169-189 | the issues of a key in list order |
| `Duplicates.ChooseMergeTarget` | cmd/binds/duplicates.go:256-305 | the target beats every other member by weight, then references, then the smaller ID |
| `Duplicates.FindDuplicateGroups` | cmd/binds/duplicates.go:169-189 | each key's list of more than one issue, once, in list order, and no other group |
| `Duplicates.GroupLosers` | cmd/binds/duplicates.go:74-81 | the sources of a group are exactly the issues a better one of their key beats |
| `Duplicates.SourcesOf` | cmd/binds/duplicates.go:76-81 | the sources are the other members of the group, each once and in group order |
| `Duplicates.OtherIdsAt` | cmd/binds/duplicates.go:76-81 | which those are, by position |
| `Duplicates.GroupsApart` | cmd/binds/duplicates.go:169-189 | no issue is a source of two groups |
| `Duplicates.AllLosersGrouped` | cmd/binds/duplicates.go:54-97 | every such issue is in a group |
| `Duplicates.Survivors` | cmd/binds/duplicates.go:47-97 | under failures: left are the best of each key and the losers whose close failed |
| `Duplicates.KeptAndFailing` | cmd/binds/duplicates.go:363-387 | linked and errors partition the sources, counted with multiplicity |
| `Duplicates.KeptAt` | cmd/binds/duplicates.go:363-387 | closed and linked sources stand in the order of the sources |
| `Duplicates.FailingAt` | cmd/binds/duplicates.go:363-387 | and so do the errors |
| `Duplicates.LinkedWithinClosed` | cmd/binds/duplicates.go:363-387 | the linked sources are the closed ones without those whose link failed |
| `Duplicates.Store.PerformMerge` | cmd/binds/duplicates.go:353-394 | the three lists, the closed issues and the added links, under any failures |
| `Duplicates.Store.MergeGroup` | cmd/binds/duplicates.go:74-95 | one group: target, sources, and their effect on the store |
| `Duplicates.Store.AutoMerge` | cmd/binds/duplicates.go:42-97 | the run closes exactly the losers whose close succeeds, changes nothing else, and links each loser whose close and link succeed exactly once, to the best of its key |
| `AgentId.ParseRigLevel` | cmd/binds/agent.go:685-693 | prefix-rig-role parses to its role and rig, hyphens in the rig and all |
| `AgentId.ParseNamed` | cmd/binds/agent.go:685-700 | prefix-rig-role-name parses to its role and rig if and only if no part of the name is taken for a role |
| `AgentId.ParseTownLevel` | cmd/binds/agent.go:675-681 | prefix-role parses to its role if and only if that is a town-level role |
| `AgentId.ParsedRebuilds` | cmd/binds/agent.go:649-704 | any non-empty result rebuilds the ID it came from, with a role configured for that place |
| `AgentId.SplitConcat` | cmd/binds/agent.go:658-659 | splitting distributes over a hyphen |
| `AgentId.SplitNonEmpty` | cmd/binds/agent.go:658-659 | joining inverts splitting, and no part holds a hyphen |
| `AgentId.SliceToSet` | cmd/binds/agent.go:633-642 | the set of the slice, or none for an empty one |
| `AgentId.ParseAgentIDFields` | cmd/binds/agent.go:649-704 | the scan with its early returns computes the parse the lemmas above are about |
| `FormatBytes.ChooseUnit` | cmd/binds/compact.go:902-907 | for every int64 of at least 1024 nothing overflows, the suffix index is in range, and the count is at least one and less than 1024 of the chosen unit |
| `FormatBytes.UnitIsUnique` | cmd/binds/compact.go:902-906 | no other unit would do |
| `FormatBytes.PowFits` | cmd/binds/compact.go:902-906 | a power of 1024 fits an int64 if and only if its exponent is at most 6 |
| `FormatBytes.RoundsUpToNextUnit` | cmd/binds/compact.go:907-907 | the printed number reads 1024.0 if and only if the count as a float64 is at least 1023.95 of the unit; below 2^53 that is the count itself, from there on the nearest representable one |
| `FormatBytes.TenthsAreNearest` | cmd/binds/compact.go:907-907 | the float64 is the multiple of its granule nearest to the count, and the printed tenths are those nearest to the quotient, ties going to the even one |
| `FormatBytes.GranuleExactly` | cmd/binds/compact.go:907-907 | the granule is the power of two that leaves 53 significant bits |
| `FormatBytes.RoundsToNearest` | cmd/binds/compact.go:907-907 | rounding gives the one nearest integer, of two equally near ones the even one |
| `FormatBytes.OneByteShort` | cmd/binds/compact.go:907-907 | one byte short of a mebibyte prints as 1024.0 of the smaller unit |

## Left out

- Autoflush.FlushRefinesFullExport: for histories in which a changed ID stays marked, stored hashes are not lost, and outside edits happen only while a hash is stored; a hard delete whose dirty row goes with the issue is not such a history, and `Autoflush.WrittenIsCurrent` says for any state when a flush is right.
- Autoflush.SelfHealing: speaks of the next flush after the edit; across a failed flush it holds as `Autoflush.HealingSurvivesIff` says.
- Autoflush.NothingDirtyIsCurrent: for files in the form a flush writes; an edited file can have the right issues in another order.
- FlushSystem.EveryPerformFlushIsCurrent: over the faults and edits that `Autoflush.FlushRefinesFullExport` admits.
- FlushSystem.CurrentExactly: after an outside edit nothing is said of the file until the next flush that goes through.
- GraphComponents.OrderComponents: `sort.Slice` leaves ties in no promised order, so nothing is said of them.
- DepTree.TreeRenderer.RenderNode: what was already printed when an access goes out of range is not described.
- TreeFilter.FilterByStatus: stated for the inputs on which the source's loop ends; which those are is `TreeFilter.WalkEndsIffNoCycle`.
- EventsExport.ExactlyOnce: for runs in which nothing begins while something is under way; with overlap it is false, and `EventsExport.RepeatsExactly` says which appends repeat an event.
- EventsExport.ExportedExactly: speaks of events still recorded; those deleted with their issue may stay in the file. Of events older than the reset it speaks if that reset left no mark standing.
- FormatBytes.ChooseUnit: counts below 1024, which are printed as they are.
- The JSON codec: an issue and its text line are paired, so decoding a written line gives the issue back; field omission and escaping are not modelled, and line lengths count characters of that text.
- A flush is one step against writers of the store; a writer between the reading of the rows and the clearing of the marks could lose its mark. It is one step against other programs too; an edit of the file between its validation and the rename is overwritten unseen.
- The failure counter and its warnings, `export_hashes`, `jsonl_content_hash` and `last_import_time`: nothing modelled reads them. The events export at the end of a flush is modelled apart, in `EventsExport`.
- The temporary file of an atomic write, its permissions and a crash before the rename: the rename is one step.
- The `didWrite` flag, the store-active checks and the sync mode beyond a parameter, real time, and the fairness of the scheduler: what is proved is safety, and what the next steps can bring about.
- Graph nodes are map values rather than pointers; `computeLayout` hands out no pointer while it runs, so no aliasing is lost.
- The search of open issues by three statuses, `GetIssue` and configuration look-ups: their results are parameters.
- The scores of auto-merge: dependency counts and text references are parameters, so the regular expression that counts references is not modelled. `CloseIssue` changes the status only, and notes, close reason and time are left out.
- The decoder loops that read `issues.jsonl` in purge and prune: the model starts from the parsed list. The clock is a parameter.
- A stored event mark that is no number: the export fails before it reads anything. An absent event file counts as an empty one.
- Rendering: labels, colours, box characters beyond which bars and branches are drawn, Mermaid, JSON and box layouts, and merging an upward with a downward tree.
- Commands, flags, prompts, git, Dolt, HTTP and RPC calls, file locks and path discovery.
- The importer, the three-way merge, snapshots and the SQLite store itself.
- Text-reference rewriting in `delete.go` and the Obsidian export: string surgery without a promise the code keeps.
