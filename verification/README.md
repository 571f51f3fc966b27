# A verified model of elasticell's replication core

elasticell is a distributed key-value store. Keys are cut into cells, every cell is one raft group, and a
placement driver (PD) watches the cells and moves their replicas. This project models the parts where the
guarantees only show over whole runs, and proves them for every run:

- **Applying committed entries** (`ApplyCore`, `ApplyRuns`, `ApplyAnswers`, `ApplyDelegates`): the delegate of a
  cell, its queue of waiting commands, splits, membership changes, epochs, registrations and removal.
- **Splits** (`Splits`) and the per-store range index (`CellTrees`).
- **The raft log** (`RaftLogs`, `RaftLogStores`): append, snapshot, compaction, late garbage collection, restart,
  the term shortcut, the bounded fetch and the leader's compaction index.
- **Reads and batches** (`ReadQueue`, `ProposeBatches`).
- **Queries** (`Query`, `OrderedArrays`): scatter, retry, gather, and the bounded ordered result.
- **The placement driver** (`CellCaches`, `Isolation`, `ReplicaChecker`, `Operators`, `IdAllocator`, `IdProtocol`,
  `OffsetQueues`, `WatcherSync`).
- `Keys`, `Cells`, `ApplyStates` and `Words` hold byte-wise key order, ranges, peers, epochs, the apply state with its
  compaction, and the 64-bit bound.

Objects that the program updates in place are classes whose methods are proved equal to a step function on
values; the theorems are about every sequence of those steps. `dafny verify dfyconfig.toml` checks the project.

## What is assumed of code that is not modelled

- Raft (`ApplyAnswers.Env`): log terms do not go down; a proposed command's entry has the command's term, is
  applied after the proposal, and such entries are applied in proposal order; a term has one leader; a peer
  that was registered again leads only in later terms; request UUIDs are distinct.
- Raft (`RaftLogs.Possible`): appended entries are consecutive, start above what was handed out as committed and
  at most one past the end, with terms that do not go down; a compaction command asks for an index below its own
  (which `RaftLogStores.CheckCompact` proves of the proposing leader, whose next entry comes after its last index) and
  carries the term the log has there; a snapshot is taken in only when everything committed is applied, reaches beyond
  it, and has a term of at least the initial one.
- Raft (`ReadQueue.Possible`): reads are confirmed in request order, at most as many as are waiting.
- An engine seek finds the first stored index (only `RaftLogs.NothingLeftBehind` needs it; `RaftLogs.LogInvariant` holds
  for any seek).
- etcd transactions are atomic; an engine scan is half open and ascending; the two watcher channels are
  first in, first out within a session.

## Where the code does not do what one would expect

- A change-peer command can be told that it is stale and then be executed (`ToldStaleYetExecutedIff` gives the exact
  condition, `ToldStaleYetExecutedOnce` a log that raft produces). Normal commands cannot (`StaleNeverApplied`).
- A matched command gets no answer at all in the cases of `SilentIff`.
- Registering a peer again kills the process exactly when a change-peer command was proposed since the last
  registration and all of them have been answered (`RegistrationFatalIff`, with a run in `RegistrationFatalOnce`).
- A membership change that changes nothing raises the membership version in memory but does not save it. A replica that
  restarts then executes changes that the others refuse (`RestartAgreesIff`, `RestartedRunsRefused`).
- A split at the start key of a cell is accepted and leaves the cell without keys (`SplitAtStart`, `ProperIff`); with
  the empty key the two parts overlap (`HalvesIff`) and every other cell leaves the store's range tree (`ApplySplit`).
- When both parts of such a split report to the placement driver, the part without keys hides the other one from
  lookups whenever it reports last (`HeartbeatsAfterSplitAtStart`; `StaysFoundIff` and `StaysCurrentIff` in general).
- The replicated index is not the smallest match when a peer at zero is not the last one visited
  (`ReplicatedNotMin`, `ReplicatedIsMinIff`).
- A heartbeat without a leader, which the server lets through for a cell with one peer, reads through a nil pointer if
  the cell is cached with a leader and the same epoch (`CellCache.CellHeartbeat`, reached in `NilLeaderReached`).
- A query that arrives while the routing table is empty is never answered (`QueryRuns`).

## Model

| member | source | states |
|---|---|---|
| Keys.LtIsByteOrder | pkg/util/cell_tree.go:65-76 | Keys are ordered by their first differing byte, and a proper prefix comes first. |
| ApplyStates.CompactCases | pkg/raftstore/peer_storage.go:503-518 | Exactly when a compaction is not needed, refused or taken, and what it moves. |
| ApplyCore.ChangePeerMeans | pkg/raftstore/raft_apply_cmd.go:180-256 | After an executed membership change the store holds a peer exactly if one was to be added, other stores are untouched, the membership version is one higher even when nothing changed, range and id stay; the response and the result carry the new cell, or there are none. |
| Cells.WithoutStoreIs | pkg/raftstore/util.go:50-59 | Removing a peer drops exactly the peers on that store. |
| Cells.WithoutStoreCutsOut | pkg/raftstore/util.go:50-59 | The peer on the store is cut out and the others keep their order. |
| ApplyCore.OnePeerPerStore | pkg/raftstore/raft_apply_cmd.go:180-363 | Over every replay a cell and all cells split off it have at most one peer per store. |
| ApplyCore.EntryKeeps | pkg/raftstore/raft_apply_cmd.go:74-164 | No entry lowers an epoch component, undoes a write or a split-off cell, or moves the truncated index down or beyond the applied one. |
| ApplyCore.ReplayKeeps | pkg/raftstore/raft_apply.go:213-278 | Over every replay epochs never decrease, truncated stays at or below applied and never goes down, and the applied index counts the entries. |
| ApplyCore.VersionMovesWithSplits | pkg/raftstore/raft_apply_cmd.go:258-363 | The range version rises over a replay if and only if some split goes through. |
| ApplyCore.WriteRunsIffNoSplit | pkg/raftstore/store_check.go:223-263 | A write stamped with the range version of its time is executed if and only if no split goes through before its entry; otherwise it gets the stale-epoch answer with the current cell. |
| ApplyCore.SplitRunsIffFirst | pkg/raftstore/store_check.go:223-263 | A split stamped with the range version of its time goes through if and only if no other split did before it and its key still fits. |
| ApplyCore.SplitAcceptedIff | pkg/raftstore/raft_apply_cmd.go:273-295 | Exactly which split keys and peer ids are accepted. |
| ApplyCore.RejectedSplits | pkg/raftstore/raft_apply_cmd.go:264-295 | A split without a key is answered like a stale one, another rejected one not at all, and neither changes the cell. |
| ApplyCore.CompactionIgnoresEpoch | pkg/raftstore/store_check.go:227-244 | Log compaction is held back by no epoch, and what it answers and changes. |
| ApplyCore.VersionMovesWithChanges | pkg/raftstore/raft_apply_cmd.go:188-189 | The membership version rises over a replay if and only if some membership change is executed. |
| ApplyCore.ChangeRunsIffFirst | pkg/raftstore/store_check.go:223-263 | Of membership changes stamped with the same version only the first in the log is executed; the others leave the cell alone. |
| ApplyCore.SavedLagsIff | pkg/raftstore/raft_apply_cmd.go:188-231 | Over every replay the saved cell differs from the one in memory at most by a lower membership version, and does so if and only if a no-op change was executed since the last save. |
| ApplyCore.RestartedRunsRefused | pkg/raftstore/store.go:216-226 | A restarted replica executes a change that the others refuse if and only if its stamp lies between the saved and the current version. |
| ApplyCore.RestartAgreesIff | pkg/raftstore/store.go:216-226 | A restarted replica ends with the same members on every continuation of the log if and only if no no-op change was executed since its cell was last saved. |
| ApplyCore.AppliedTermIsLastEmpty | pkg/raftstore/raft_apply.go:286-302 | The applied-index term is the term of the last empty entry, or what it was. |
| ApplyCore.AppliedTermTracksLog | pkg/raftstore/raft_apply.go:286-302 | If every term begins with its empty entry, the applied-index term is the term of the last applied entry. |
| ApplyCore.AppliedTermCurrentIff | pkg/raftstore/raft_apply.go:286-302 | After a restart or snapshot it is current if and only if it did not lag or an empty entry of the last term was applied. |
| ApplyRuns.FindCBStops | pkg/raftstore/raft_apply.go:133-152 | findCB pops only commands of the entry's term or older, skips none that match, and stops at the match, at a later term or at the end. |
| ApplyRuns.Sweep | pkg/raftstore/raft_apply.go:304-312 | An empty entry pops the longest prefix of commands with smaller terms. |
| ApplyRuns.EachHandledOnce | pkg/raftstore/raft_apply.go:105-190 | Over every run the handled commands followed by the waiting ones are the proposed ones, in order: each is handled at most once; the same for change-peer commands and their slot. |
| ApplyRuns.SkipRest | pkg/raftstore/raft_apply.go:222-226 | A delegate that removed itself applies nothing more of the batch. |
| ApplyAnswers.MatchedGetsOwnResult | pkg/raftstore/raft_apply_cmd.go:74-164 | Over every run an answered command was answered by the entry that carries its UUID, with that entry's term. |
| ApplyAnswers.StaleNeverApplied | pkg/raftstore/raft_apply.go:120-153 | Over every run raft can produce, a normal command told stale by findCB or an empty entry is not applied at any index. |
| ApplyAnswers.AppliedIsAnswered | pkg/raftstore/raft_apply.go:120-153 | A command whose entry was applied was answered with that entry's result, unless a registration or removal answered it first. |
| ApplyAnswers.SilentIff | pkg/raftstore/raft_apply_cmd.go:140-178 | Exactly which matched normal commands get no response. |
| ApplyAnswers.ChangeToldStaleIff | pkg/raftstore/raft_apply.go:121-132 | In any stretch of a run up to its own entry, a waiting change-peer command is told stale if and only if another change-peer entry is applied or another such command proposed before it. |
| ApplyAnswers.ChangeAnsweredByOwn | pkg/raftstore/raft_apply_cmd.go:149-161 | A change-peer command that nothing interrupts is answered with its own entry's result, or goes on waiting if there is no response. |
| ApplyAnswers.ToldStaleYetExecutedIff | pkg/raftstore/raft_apply.go:121-132 | A change-peer command stamped with the version at its proposal is told stale and still executed if and only if it was interrupted and none of the membership changes applied in between was executed. |
| ApplyAnswers.ToldStaleYetExecutedOnce | pkg/raftstore/raft_apply.go:121-132 | A log with the new leader's empty entry between the two changes on which that happens. |
| ApplyAnswers.RegistrationFatalIff | pkg/raftstore/peer_job.go:317-332 | Over every run, a registration for the same peer is fatal if and only if some change-peer command was proposed since the last one and all of them are answered. |
| ApplyAnswers.RegistrationFatalOnce | pkg/raftstore/peer_job.go:317-332 | A run that reaches it: register, propose, apply, register. |
| ApplyAnswers.BatchEndsDelegateIff | pkg/raftstore/peer_job.go:347-362 | A batch ends the delegate if and only if it took its own peer out of the cell; then every command has been handled and what the entries did not decide is told that the cell is gone. |
| ApplyAnswers.GoneAnswersAll | pkg/raftstore/raft_apply.go:333-346 | Whenever a delegate goes, each command that still waited gets cell-not-found with its own term. |
| ApplyAnswers.AnswersByEvent | pkg/raftstore/raft_handle_do.go:289-311 | How normal commands are answered without a committed entry: by a registration or with cell-not-found. |
| ApplyAnswers.ChangeAnswersByEvent | pkg/raftstore/raft_handle_do.go:289-311 | How change-peer commands are answered without a committed entry. |
| ApplyAnswers.AnswersByEntry | pkg/raftstore/raft_apply.go:120-153 | A committed entry answers with its own result and term or as stale with the delegate's term. |
| ApplyAnswers.InstallsAndTerms | pkg/raftstore/peer_job.go:317-362 | What a registration installs and which term answers carry. |
| ApplyAnswers.CommitFatalIff | pkg/raftstore/raft_apply.go:227-250 | Exactly which committed entries kill the process. |
| ApplyAnswers.RunIsReplay | pkg/raftstore/raft_apply.go:213-278 | A delegate that has not removed itself holds exactly the replay of its committed entries. |
| ApplyAnswers.SameEntriesSameState | pkg/raftstore/raft_apply.go:213-278 | Two delegates with equal state and the same committed entries, in any batches and with any proposals, end with equal range, peers, epoch, applied index and truncated state. |
| ApplyDelegates.FindPeer | pkg/raftstore/util.go:40-48 | Finds a peer on the store if and only if there is one. |
| ApplyDelegates.RemovePeer | pkg/raftstore/util.go:50-59 | The loop keeps exactly the peers of other stores, in order. |
| ApplyDelegates.SplitPeers | pkg/raftstore/raft_apply_cmd.go:313-318 | The new cell's peers pair the new ids with the old stores in order. |
| ApplyDelegates.ApplyDelegate.PopPendingCMD | pkg/raftstore/raft_apply.go:173-190 | Pops the head unless the queue is empty or the head's term is later. |
| ApplyDelegates.ApplyDelegate.FindWaiting | pkg/raftstore/raft_apply.go:133-152 | The popping loop, its match and its stale answers against FindCB. |
| ApplyDelegates.ApplyDelegate.FindChange | pkg/raftstore/raft_apply.go:121-132 | The change-peer slot: match, nothing, or a stale answer. |
| ApplyDelegates.ApplyDelegate.SweepStale | pkg/raftstore/raft_apply.go:304-312 | The sweeping loop against Sweep. |
| ApplyDelegates.ApplyDelegate.ExecChangePeer | pkg/raftstore/raft_apply_cmd.go:180-256 | The membership change, its response and result, and when the peer marks itself for removal. |
| ApplyDelegates.ApplyDelegate.ExecSplit | pkg/raftstore/raft_apply_cmd.go:258-363 | The split's guards in order and its two cells. |
| ApplyDelegates.ApplyDelegate.ExecRaftGC | pkg/raftstore/raft_apply_cmd.go:365-406 | The compaction's guards and new truncated state. |
| ApplyDelegates.ApplyDelegate.ExecRequest | pkg/raftstore/raft_apply_cmd.go:98-109 | The epoch check and the dispatch to the executors. |
| ApplyDelegates.ApplyDelegate.ApplyEmptyEntry | pkg/raftstore/raft_apply.go:286-312 | An empty entry moves the applied index and term and sweeps; term 0 is fatal. |
| ApplyDelegates.ApplyDelegate.ApplyRaftCMD | pkg/raftstore/raft_apply_cmd.go:74-164 | One command entry: matching, execution, bookkeeping and answer. |
| ApplyDelegates.ApplyDelegate.ApplyOne | pkg/raftstore/raft_apply.go:222-258 | One entry with the index check and the conf-change result; fatal exactly when the step is. |
| ApplyDelegates.ApplyDelegate.ApplyCommittedEntries | pkg/raftstore/raft_apply.go:213-278 | The batch loop equals the entry-by-entry steps, also after a self-removal. |
| ApplyDelegates.ApplyDelegate.DestroyDelegate | pkg/raftstore/raft_apply.go:333-346 | Every waiting command is told that the cell is gone, and nothing waits afterwards. |
| ApplyDelegates.ApplyDelegate.DoApplyCommittedEntries | pkg/raftstore/peer_job.go:347-362 | A batch with its term and the destruction after a self-removal; nothing happens without a delegate. |
| ApplyDelegates.ApplyDelegate.DoPropose | pkg/raftstore/raft_handle_do.go:289-311 | A proposal is queued, replaces the slot, or is refused without a delegate. |
| ApplyDelegates.ApplyDelegate.ClearAllCommandsAsStale | pkg/raftstore/raft_apply.go:105-118 | All waiting commands are told stale in order; fatal exactly on an answered slot. |
| ApplyDelegates.ApplyDelegate.DoRegistration | pkg/raftstore/peer_job.go:317-332 | The new delegate's state, the old one's answers, and when it is fatal. |
| Splits.ExecutedSplit | pkg/raftstore/raft_apply_cmd.go:258-363 | The command splits exactly when its key is accepted, and then yields the two parts. |
| Splits.ReplayPartitions | pkg/raftstore/raft_apply_cmd.go:258-363 | Over every replay with splits above the starts, whatever else is applied, the cell and the cells split off it cut its original range into disjoint nonempty pieces. |
| Splits.PartsInherit | pkg/raftstore/raft_apply_cmd.go:305-321 | Both parts get the next range version and the old membership version; the right part has the same stores in the same order. |
| Splits.HalvesIff | pkg/raftstore/raft_apply_cmd.go:305-311 | An accepted split cuts the range into two disjoint parts if and only if the key is not empty. |
| Splits.ProperIff | pkg/raftstore/raft_apply_cmd.go:273-311 | Both parts are nonempty and cut the range in two if and only if the key is strictly above the start. |
| Splits.SplitAtStart | pkg/raftstore/raft_apply_cmd.go:273-311 | A split at the start key leaves the old cell without keys. |
| Splits.SplitsPartition | pkg/raftstore/raft_apply_cmd.go:258-363 | After any sequence of splits above the starts the cells partition the original range, on the same stores. |
| Splits.OwnerVersionRises | pkg/raftstore/raft_apply_cmd.go:320-321 | Over any sequence of splits a new owner of a key has a higher range version. |
| Splits.TreeFollowsRun | pkg/raftstore/raft_handle_do.go:515-516 | Updating the tree with left and right at every split keeps it equal to the set of cells. |
| Splits.TreeAtStart | pkg/raftstore/raft_handle_do.go:515-516 | A split at the start key leaves only the right part in the tree; with the empty key everything else goes too. |
| Splits.ApplySplit | pkg/raftstore/raft_handle_do.go:515-516 | For every accepted key, what the two tree updates leave: both parts, the right part, or nothing but it. |
| Splits.SearchAfterSplit | pkg/raftstore/raft_handle_do.go:515-516 | Each key of the split cell is found in the part that owns it; every other key is found where it was, unless the split key is empty. |
| CellTrees.CellTree.Find | pkg/util/cell_tree.go:201-218 | Returns the cell with the nearest start at or below the key if it holds the key, for any cells in the tree. |
| CellTrees.CellTree.Overlapping | pkg/util/cell_tree.go:85-105 | The scan collects exactly the cells from the found one up to the end of the new range. |
| CellTrees.CellTree.Update | pkg/util/cell_tree.go:85-115 | For any range: the scanned cells and the one with the same start go, the new one comes, and the order is kept. |
| CellTrees.TidyIff | pkg/util/cell_tree.go:85-115 | With possibly empty ranges, Update takes out exactly the cells the new range touches and keeps them apart if and only if the range is well formed. |
| CellTrees.EmptyHidesOwner | pkg/util/cell_tree.go:85-115 | A cell with an empty range takes out exactly the cell that holds its start. |
| CellTrees.StaysFoundIff | pkg/util/cell_tree.go:85-115 | A key stays found in its cell if and only if the new range does not touch that cell. |
| CellTrees.UpdateIsAbs | pkg/util/cell_tree.go:85-115 | On nonempty disjoint ranges Update takes out exactly the overlapping ones and keeps them disjoint. |
| CellTrees.FoundIsUnique | pkg/util/cell_tree.go:187-199 | On disjoint ranges a lookup finds the unique range containing the key. |
| CellTrees.CellTree.Remove | pkg/util/cell_tree.go:120-132 | Removes the cell found at the start key if the ids agree, and says whether it did; an empty range is not found. |
| CellTrees.CellTree.Search | pkg/util/cell_tree.go:187-199 | Returns the cell found for the key, or the zero cell if there is none. |
| CellTrees.CellTree.NextCell | pkg/util/cell_tree.go:144-167 | Returns the cell with the smallest start above the given one. |
| CellTrees.CellTree.Run | pkg/util/cell_tree.go:85-132 | Any sequence of operations on any ranges acts as the set operations above. |
| CellTrees.RunIsAbs | pkg/util/cell_tree.go:85-132 | Any sequence of operations on nonempty ranges acts as on a plain set of disjoint ranges. |
| CellTrees.ScannedIsTouched | pkg/util/cell_tree.go:85-105 | The pivot and the end test of the scan together mean that the ranges touch. |
| RaftLogs.LogInvariant | pkg/raftstore/raft_handle_do.go:108-201 | Over any interleaving of append, commit, apply, snapshot, compaction, late GC and restart, every index above the truncated one is stored under its key and terms never decrease from the truncated to the last term. |
| RaftLogs.AppendStores | pkg/raftstore/raft_handle_do.go:158-201 | An append with an overwritten suffix keeps the old prefix and stores the new entries under their keys. |
| RaftLogs.GCBelowTruncated | pkg/raftstore/peer_job.go:364-406 | A GC job, however late, changes nothing above the truncated index. |
| RaftLogs.RestartKeeps | pkg/raftstore/peer_storage.go:78-204 | After a restart from disk the invariant holds, the last term is found and the same, and applying resumes after the persisted index. |
| RaftLogs.SnapshotKeeps | pkg/raftstore/raft_handle_do.go:108-153 | A snapshot reset keeps the invariant, with GC jobs still pending. |
| RaftLogs.PostApplyKeeps | pkg/raftstore/raft_handle_do.go:377-385 | Taking an apply result keeps the invariant and creates GC work only at or below the new truncated index. |
| RaftLogs.NothingLeftBehind | pkg/raftstore/peer_job.go:364-406 | Once something was compacted since the start and every GC job has run, in any order, the engine holds exactly the indices above the truncated one up to the last. |
| RaftLogs.TruncatedRises | pkg/raftstore/peer_storage.go:503-518 | The truncated index never goes down, on disk and in memory, and stays at or below the applied one. |
| RaftLogs.TermIsStored | pkg/raftstore/raft_handle_do.go:768-806 | Term with its shortcut returns the term of the stored entry for every index in the log, and an error exactly outside. |
| RaftLogs.StepsAdvance | pkg/raftstore/raft_handle_do.go:268-287 | Commits hand out more, each application moves the applied index by one and posts it, and results are taken in order. |
| RaftLogs.HintCountsBytes | pkg/raftstore/raft_handle_do.go:272-274 | Between compactions, snapshots and restarts the size hint counts the bytes handed out, modulo 2^64. |
| RaftLogs.PostApplyJobs | pkg/raftstore/raft_handle_do.go:575-583 | A compaction's GC job starts where the one before ended and ends right after the truncated index. |
| RaftLogs.HintArithmetic | pkg/raftstore/raft_handle_do.go:568-577 | The subtractions do not go negative, the divisor is positive, the size hint is the remaining share rounded down unless the product wraps, and does not rise even then. |
| RaftLogStores.ReplicatedIndex | pkg/raftstore/peer_raft.go:185-194 | The loop returns the minimum of the matches visited after the last zero. |
| RaftLogStores.ReplicatedIsMinIff | pkg/raftstore/peer_raft.go:185-194 | That is the smallest match if and only if no match is zero or the last one visited is. |
| RaftLogStores.ReplicatedNotMin | pkg/raftstore/peer_raft.go:185-194 | A concrete case where it is not. |
| RaftLogStores.CheckCompact | pkg/raftstore/peer_raft.go:171-255 | Exactly when a proposal is made, when it panics and which index it has: one below the replicated index, or below the applied one when that is preferred and the lag is outside the tolerated one. |
| RaftLogs.CompactionNeverRefused | pkg/raftstore/raft_apply_cmd.go:365-406 | Over every run, a compaction command that the apply side reaches is never refused: it truncates to exactly its index, with the term stored there, if that is beyond the first one, and otherwise changes nothing. |
| RaftLogStores.LongestUnique | pkg/raftstore/raft_handle_do.go:694-766 | The fetched prefix is determined by the sizes. |
| RaftLogStores.PeerStorage.DoAppendEntries | pkg/raftstore/raft_handle_do.go:158-201 | The write and delete loops against the append step. |
| RaftLogStores.PeerStorage.DoAppendSnapshot | pkg/raftstore/raft_handle_do.go:108-153 | The reset of log, last index and apply state. |
| RaftLogStores.PeerStorage.Reopen | pkg/raftstore/peer_storage.go:114-204 | A restart recovers the same last term and keeps the invariant. |
| RaftLogStores.PeerStorage.DoRaftLogGC | pkg/raftstore/peer_job.go:364-406 | The deletion loop removes exactly the job's indices. |
| RaftLogStores.PeerStorage.DoPollApply | pkg/raftstore/raft_handle_do.go:568-590 | Taking a result keeps the invariant and does not raise the size hint. |
| RaftLogStores.PeerStorage.Entries | pkg/raftstore/raft_handle_do.go:694-766 | On a whole log it returns the longest prefix of the range within the size, or the first entry alone; the error cases are exact. |
| RaftLogStores.PeerStorage.Scan | pkg/raftstore/raft_handle_do.go:735-765 | The scan callback collects that prefix; unavailable means a gap. |
| ReadQueue.PeerReads.ApplyReads | pkg/raftstore/raft_handle_do.go:592-641 | One Ready: confirmed reads run or are counted, and a step-down refuses all. |
| ReadQueue.PeerReads.ApplyDone | pkg/raftstore/raft_handle_do.go:377-412 | An apply result runs the counted reads if the applied term is current. |
| ReadQueue.ReadsInOrder | pkg/raftstore/raft_handle_do.go:63-105 | Over every run reads are answered in request order and once each, an executed read ran with the applied term equal to the current term, and the ready count stays between 0 and the queue length. |
| ReadQueue.ReadyAnswers | pkg/raftstore/raft_handle_do.go:592-641 | Confirmed reads run at once if the terms agree and are counted otherwise; a step-down refuses all that still wait. |
| ReadQueue.ApplyAnswers | pkg/raftstore/raft_handle_do.go:404-411 | Counted reads run as soon as an apply result brings the current term. |
| ReadQueue.ConfirmedReadsRun | pkg/raftstore/raft_handle_do.go:592-641 | While the peer leads, the reads executed are exactly the confirmed ones, save those counted because the applied term lags. |
| ProposeBatches.ProposeBatch.Push | pkg/raftstore/propose_batch.go:82-139 | Requests keep their order, a command holds one kind, admin requests are alone, sizes stay within the limit, and a command is stamped with the epoch its first request saw, which no later one of it has passed. |
| ProposeBatches.ProposeBatch.Pop | pkg/raftstore/propose_batch.go:68-80 | Commands leave in order; pushed requests are always the popped ones followed by the waiting ones. |
| OrderedArrays.RootIsMax | vendor/github.com/deepfabric/go-datastructures/ordered_array.go:34-36 | The root of the heap is a largest item. |
| OrderedArrays.OrderedArray.Put | vendor/github.com/deepfabric/go-datastructures/ordered_array.go:62-76 | The array keeps the `capacity` smallest of all items put, or all of them when the capacity is 0. |
| OrderedArrays.OrderedArray.Finalize | vendor/github.com/deepfabric/go-datastructures/ordered_array.go:80-85 | Returns exactly the kept items in ascending order and empties the array. |
| Query.RefreshRanges | pkg/raftstore/store_query.go:322-365 | Every cell maps to its non-leader stores and every store to the cells it leads, in range order. |
| Query.AskedOnce | pkg/raftstore/store_query.go:322-365 | The first round asks for each cell once, at its leader. |
| Query.OtherStoresAre | pkg/raftstore/store_query.go:341-352 | A cell's retry list holds exactly the stores of its peers that do not lead, each once. |
| Query.RetriesAre | pkg/raftstore/store_query.go:176-206 | Each retry goes to the first store left of its cell. |
| Query.FinalIffDone | pkg/raftstore/store_query.go:50-252 | The completion test by counting holds exactly when no cell is open. |
| Query.ReplyKeeps | pkg/raftstore/store_query.go:50-252 | Each reply keeps every cell open or done once, uses up one remaining store per failed cell, and is final exactly when no cell is open. |
| Query.GatherRuns | pkg/raftstore/store_query.go:50-252 | From any reachable state and for every arrival order: each cell is recorded done once, the final reply comes exactly when all are done, and requests and replies are bounded by the stores. |
| Query.QueryRuns | pkg/raftstore/store_query.go:50-252 | A whole query from its first round: answered exactly when no cell is open, and never if the routing table was empty; the stores tried and those left are always the retry list; the documents are all that the replies carried; the failed cells are exactly those done without documents. |
| Query.QueryState.RetryCells | pkg/raftstore/store_query.go:50-252 | A failed reply retries each cell at its next store or records it failed. |
| Query.QueryState.OnReply | pkg/raftstore/store_query.go:50-252 | One reply: the retries sent, and a final answer exactly when done, with the `limit` smallest of all documents received including this reply's, in order, and the failed cells. |
| CellCaches.CellCache.RemoveCell | pkg/pdserver/cache_cell.go:111-121 | The cell leaves the three maps, and the tree if the tree can find it. |
| CellCaches.CellCache.AddOrUpdate | pkg/pdserver/cache_cell.go:75-109 | For any range: the leader and follower indices stay what recomputing gives, and what the tree becomes. |
| CellCaches.StaysCurrentIff | pkg/pdserver/cache_cell.go:75-109 | The tree entries stay apart and current if and only if the new range is well formed and the cell's old empty range does not linger. |
| CellCaches.CellCache.SearchCell | pkg/pdserver/cache_cell.go:123-133 | Returns the cached cell that the tree finds for the key, and none exactly if it finds none. |
| CellCaches.RoleIs | pkg/pdserver/cache_cell.go:84-108 | Who leads and who follows on a store, read off the cell's peers and leader. |
| CellCaches.CellCache.StoreLeaderCount | pkg/pdserver/cache_cell.go:190-192 | The leader count of a store is the number of cached cells whose leader peer is on it. |
| CellCaches.CellCache.HandleCellHeartbeat | pkg/pdserver/cache.go:93-164 | For any heartbeat: stale exactly when a component of the epoch is older, no cached epoch goes down, the maps stay exact, when the tree stays current, when saving fails, which event is announced, and when the nil leader is read. |
| CellCaches.CellCache.CellHeartbeat | pkg/pdserver/cluster.go:110-130 | The server's guards in front, and exactly which heartbeats that pass them read the nil leader. |
| CellCaches.CellCache.Run | pkg/pdserver/cache.go:93-174 | After any sequence of heartbeats cells, leaders and followers agree and no epoch went down; the tree agrees too if ranges are well formed and emptied cells keep their start. |
| CellCaches.HeartbeatsAfterSplitAtStart | pkg/pdserver/cache_cell.go:75-133 | After a split at the start key a key of the right part is found if and only if the right part reported last. |
| CellCaches.NilLeaderReached | pkg/pdserver/cache.go:147-153 | A single-peer cell whose heartbeats reach the nil leader. |
| Isolation.LabelValueIs | pkg/pdserver/cache_store.go:291-299 | The first label with the key gives the value. |
| Isolation.GetLocationID | pkg/pdserver/cache_store.go:279-289 | The loop builds the location ID. |
| Isolation.LocationGrows | pkg/pdserver/cache_store.go:279-289 | A location ID grows by one label value per level and is lost with the first missing one. |
| Isolation.LevelDiffersIff | pkg/pdserver/cfg_replication.go:53-69 | Where the labels above agree, two stores differ at a level exactly if their values do. |
| Isolation.DistinctScoreIs | pkg/pdserver/cfg_replication.go:53-69 | The score is 0 as soon as a label is missing among the stores compared. |
| Isolation.GetDistinctScore | pkg/pdserver/cfg_replication.go:45-73 | The nested loops compute the weighted score, and 0 when a location is missing. |
| Isolation.TotalRemoveAt | pkg/pdserver/replication.go:214-242 | Taking a replica out lowers the total by its score against the others. |
| Isolation.TotalPermuted | pkg/pdserver/replication.go:214-242 | The total does not depend on the order of the stores. |
| Isolation.TotalBound | pkg/pdserver/replication.go:214-242 | The total is bounded by the number of stores and labels. |
| Isolation.ScoreComparesLevels | pkg/pdserver/replication.go:23 | With at most 99 other replicas, comparing scores is comparing the numbers of differently located replicas level by level. |
| ReplicaChecker.PassesIff | pkg/pdserver/filter.go:71-99 | Which stores the fixed filters let through: up and heard of lately, not too full, not a store of the cell. |
| ReplicaChecker.StorageRatioIs | pkg/pdserver/cache_store.go:265-277 | The ratio is the used share in percent, rounded down. |
| ReplicaChecker.CellScoreCompares | pkg/pdserver/cache_store.go:258-263 | A lower cell score means fewer cells per capacity. |
| ReplicaChecker.ShouldBalanceMeans | pkg/pdserver/balancer.go:32-61 | Between stores of equal capacity the margin is two cells, or the square root of their number from ten on. |
| ReplicaChecker.SelectWorstPeer | pkg/pdserver/replication.go:111-136 | Returns a store with the lowest score and, among those, the most cells per capacity. |
| ReplicaChecker.SelectBestPeer | pkg/pdserver/replication.go:139-175 | Returns a usable store with the highest score and, among those, the fewest cells per capacity, or none if none is usable and passes the extra filters. |
| ReplicaChecker.CheckBestReplacement | pkg/pdserver/replication.go:177-210 | A proposed replacement has a strictly better score and is not a member; when none is proposed there is none better. |
| ReplicaChecker.TransferPeer | pkg/pdserver/balancer_cell.go:82-101 | A balancer move goes to a best non-member under the score guard that is less loaded by the required margin; none means none passes or the best is not worth it. |
| ReplicaChecker.ReplacementRaisesTotal | pkg/pdserver/replication.go:177-210 | Each replacement strictly raises the total isolation. |
| ReplicaChecker.BalanceKeepsTotal | pkg/pdserver/filter.go:184-206 | A balancer move under the guard never lowers it. |
| ReplicaChecker.ReplacementsBounded | pkg/pdserver/replication.go:177-210 | Over any run of replacements and balancer moves the number of replacements is bounded and no placement returns after a replacement. |
| Operators.NeverBelowStart | pkg/pdserver/operator_peer.go:41-66 | Whatever heartbeats arrive, the removal is asked for only after a heartbeat reported the new peer as a member that is not pending, and the cell never falls below its starting replica count. |
| Operators.ActionMeans | pkg/pdserver/operator_peer.go:41-66 | An action is finished exactly when the heartbeat shows its goal, and otherwise asks for itself unless the new peer is pending. |
| Operators.AggregationOperator.Do | pkg/pdserver/operator_aggregation.go:49-64 | The operator passes the actions whose goal is shown, stops at the first other one and sends its request, unless a pending peer is waited for. |
| Operators.HeartbeatAsks | pkg/pdserver/operator_peer.go:41-66 | Which heartbeats make a transfer ask for the new peer, ask for the removal of the old one, and finish. |
| Operators.TransferCompletes | pkg/pdserver/operator.go:41-45 | A transfer that nothing delays ends with the new peer in place of the old one. |
| Operators.KindsAre | pkg/pdserver/operator_peer.go:37-39 | Membership changes count as cell operators, leader transfers as leader operators. |
| Operators.AddCounts | pkg/pdserver/scheduler.go:97-101 | Adding keeps every limiter count exact. |
| Operators.RemoveCounts | pkg/pdserver/scheduler.go:103-107 | Removing keeps the counts exact if and only if the operator is still in the table, which CountsExact shows it always is. |
| Operators.CountsExact | pkg/pdserver/coordinator.go:82-105 | In every reachable state each limiter count is the number of live operators of that kind. |
| Operators.Coordinator.AddOperator | pkg/pdserver/coordinator.go:140-153 | At most one operator per cell: added exactly if there was none. |
| Operators.Coordinator.RemoveOperator | pkg/pdserver/coordinator.go:169-175 | Table and count after a removal. |
| Operators.Coordinator.Dispatch | pkg/pdserver/coordinator.go:82-105 | Counts stay exact, other cells keep their operators; an unfinished operator stays and its request is sent; otherwise a checked operator is added, and its request sent, exactly if fewer cell operators than the limit are left. |
| IdAllocator.IdStore.CreateID | pkg/pdserver/store_id.go:36-51 | Succeeds exactly for the leader on a missing key. |
| IdAllocator.IdStore.UpdateID | pkg/pdserver/store_id.go:53-67 | Succeeds exactly for the leader on the value read. |
| IdAllocator.IdAllocator.NewID | pkg/pdserver/alloc.go:41-84 | The next id of the batch, or the first above the register exactly if the transaction wins, which moves the register by 1000. |
| IdAllocator.DocIds.AllocateDocID | pkg/raftstore/peer.go:417-432 | The next document id of the slice, or the first of a new slice. |
| IdProtocol.CommitKeeps | pkg/pdserver/alloc.go:59-84 | A won transaction reserves ids above all reserved before, also when its answer is lost. |
| IdProtocol.StepIssues | pkg/pdserver/alloc.go:41-84 | Which id each step hands out and what it leaves. |
| IdProtocol.RefillWorks | pkg/pdserver/alloc.go:59-84 | A leader out of ids that is not disturbed gets the next batch. |
| IdProtocol.BatchIsDense | pkg/pdserver/alloc.go:41-57 | The ids of a batch are handed out one after the other without a gap. |
| IdProtocol.IdsUnique | pkg/pdserver/alloc.go:41-84 | For any number of servers, leader changes and interleavings no id and no document id is handed out twice, and none is 0. |
| OffsetQueues.OffsetQueue.Add | pkg/util/queue_offset.go:35-43 | The queue holds a suffix of all events, with the new one at the end. |
| OffsetQueues.OffsetQueue.Get | pkg/util/queue_offset.go:45-76 | Panics exactly beyond the last offset; otherwise returns the events after the offset, and event 0 for offset 0. |
| WatcherSync.Watcher.Receive | pkg/pd/watcher.go:220-259 | One message handled as in the session model. |
| WatcherSync.NoGapNoPanic | pkg/pd/watcher.go:233-256 | Over every session, with lost answers and resent requests, the client gets all events in order without a gap, only event 0 can repeat, and the queue never panics. |
| WatcherSync.QuietMeansSynced | pkg/pdserver/watcher.go:250-262 | When no message is in flight everything announced has been received. |

## Left out

- etcd raft, the storage engines, pilosa, the indexer, RPC, files and timers; what is used of them is listed above.
- The Redis command handlers: a write request is an opaque list of operations, and the order of writes inside one
  write batch (buffered sets are flushed last) is not modelled.
- Object pools and pointer reuse: commands are values, so an answered change-peer command is never recycled into
  another one while the slot still points at it.
- Requests without a header: proposals without one are rejected before they reach the delegate.
- 64-bit wrap-around of indices, terms and epochs, and of the size total in `Entries`; ids, document ids, limiter
  counts and the size hint do wrap in the model.
- ApplyAnswers.StaleNeverApplied: says nothing of commands answered by a registration or by the removal of the cell,
  because their entries may still be applied.
- ApplyCore.RestartAgreesIff: the saved cell is the one written with the last executed change or split; a crash between
  two writes of one batch is not modelled.
- RaftLogs.SnapshotKeeps: takes the job that loads the snapshot's data as still running when the same Ready is
  finished, so the ready index is the truncated one.
- IdAllocator.IdAllocator.NewID: the method is one uninterrupted call; interleavings are in IdProtocol.
- IdProtocol.IdsUnique: holds below the 64-bit bound of the register and of the document ids.
- OrderedArrays.OrderedArray.Put: documents are compared by one integer key in place of the comparator.
- Isolation.GetDistinctScore: scores are natural numbers, not floats; location ids are compared as the source builds
  them, by concatenation.
- Queries without an order (early completion, late replies after the final answer) and duplicated replies.
- The watcher's `syncing` flag is not reset by a reconnection in the source; the model covers one session.
- Store operators, leader balancing, hot spots and the other schedulers: they would only add members of the same kind.
- Tree walks (`Ascend`, `AscendRange`) and the peer caches that a split fills.
- ReadQueue.PeerReads.ApplyReads: leaves out the refusal of batched commands on a step-down; the batch is empty then,
  because handleRequest proposes everything it pushed before it returns.
- ReplicaChecker.SelectBestPeer: leaves out the new peer's id; its allocation failing is a parameter of
  CheckBestReplacement only.
- ReplicaChecker.TransferPeer: leaves out the adjustment of the balance limit; the square root is compared by squaring.
