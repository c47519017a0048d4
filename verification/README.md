# Omashu: a verified model

Omashu is a replicated key-value store: a leader runs a hybrid-logical-clock timestamp oracle and
optimistic transactions, Raft orders the stamped commands, and every replica applies them to a
multi-version Badger store. The repository carries parts of etcd. This project models the three parts
where most can go wrong and proves what they promise.

**The transaction layer.** `Hlc` is the packed timestamp. `Oracle` is one critical section of the
timestamp oracle as a function; `Tso` and `ClientTxn` are the objects with their fields and loops, proved
against it. `Transactions` is an unbounded step system of one leader's term (register, begin, wait, read,
write, commit, discard, mark and window moves) with the complete history kept beside the pruned one.
`Tracking` says what its steps add up to in a commit, and `Release` what they leave on the read mark.
`Leaders` is a second one over any number of leaders and one log. `Mvcc`, `Operations`, `Fsm`, `Replay`, `Serial` and
`Serializability` carry the commits to the store: what an entry does, that it can be applied again, and that
the runs of the oracle execute serially. `Anomalies` holds runs in which they do not. `Node` hands committed
entries to the state machine, up to the first one that it refuses.

**The interval tree.** `Interval`, `RbTree`, `RbDelete` and `RbQuery` hold the theory on trees as values
with a path for the place a loop is looking at. `RbMemory` and `RbDeleteMemory` say when linked nodes represent
a tree and follow each pointer write through memories as values. `IntervalTree` is the tree itself:
nodes with parent links and one shared sentinel, updated in place, each method proved against the theory.

**Byte-level algorithms.** `Prefix` and `Pagination` are range ends and paginated scans, `Codec`, `Wire` and
`Message` the Protocol Buffers form of a KeyValue, `PageWriter` the page-aligned writer.

`Bytes`, `Numbers`, `Commands` and `Nodes` hold what the modules share.

## What the model takes as given

- A lock-held region is one step. Clock readings, what the read mark reports and what the sink accepts
  are parameters, so every theorem is over all of them.
- Within a term the local clock does not go backwards. Physical times fit the 46 bits that the shift leaves.
- `Transactions.IsRun` assumes that a transaction begins on the read mark before the mark passes the
  timestamp it registered (`BeginsInTime`). The code registers under the lock and begins after it
  (tso.go:403-406). `IsLateRun` drops that: `BeginInTimeSuffices` needs it only of the transaction itself, and
  `LateBeginExactly` says when even a late begin is harmless.
- `CommitsForward` excludes the one increment that goes backwards; `StampIncreases` says which. `Leaders.StampsSafely`
  excludes it too, and an overflow wait that ends outside the window (`Oracle.WindowKeptExactly`). Every other
  increment is a step, also the one past MAX_LOGICAL in an even millisecond.
- A term starts with what an earlier term of the same node has left in the oracle: readers, remembered commits and the
  last pruning, none of them above the current timestamp. Transactions that were opened in an earlier term are not
  continued in it.
- Serializability is about tracked reads. Only keys that were found are registered as reads, and the
  operations themselves register none. `FoundAlive` says of the steps that a client which
  deletes a prefix finds the keys alive at its read timestamp (txn.go:212-227). `TracksObserved` is the hypothesis for the final
  state: a key that an operation depends on and that no step of the transaction has read or found is not written in between
  (`Anomalies.PhantomSurvives`).
- Snapshot values are those of the commit history at a timestamp. When the store a client reads from holds them is
  `Anomalies.CompleteExactly`.
- Log order is commit order where `LogOf` is used, the stated intent in txn.go:127-132, although the lock is released before
  the command is proposed; `ShuffledLogOf` allows every other order. In `Leaders` the log is one sequence. What a deposed leader
  has not proposed is lost, and so may be any suffix of the log.
- Decoding a command and loading a snapshot are given: a deterministic function of the entry's data, and what the store
  holds afterwards.
- Endpoints of intervals are integers, standing for any total order; nothing but their order is used.
- Slices are shorter than 2^63 bytes.

## Where the code does not do what it seems to promise

The members named give the exact condition, or a concrete case beside the hypothesis that excludes it.

- Leaving MAX_LOGICAL in an odd millisecond moves the timestamp backwards (`Hlc.IncrMovesForward`).
- The overflow wait of `allocate` can leave the persisted window (`Oracle.WindowKeptExactly`). Its wait for the window holds the
  lock, so on a monotone clock it does not end (`Oracle.WindowWaitExactly`).
- A late begin on the read mark loses a conflict (`Transactions.LateBeginLosesConflict`); when it cannot is
  `Transactions.LateBeginExactly`.
- The set of registered read timestamps holds each once. Of two transactions at one timestamp the second to finish gives nothing back,
  so the read mark stays there for the rest of the term and nothing is pruned any more (`Release.CountsExactly`,
  `Release.LeakIsForGood`, `Release.TwoReadersStallTheMark`).
- The wait for the transaction mark does not show a reader what was committed: a commit is done on the mark before it is proposed
  (`Anomalies.UnappliedCommitMissed`, `Anomalies.CompleteExactly`).
- A transaction with a prefix deletion is always refused on apply (`Mvcc.PrefixDeleteInTransactionRefused`), and stops every
  replica for good (`Node.PrefixDeletionStopsReplicas`).
- Concurrent increments without a read are lost (`Serial.IncrementSerialExactly`, `Anomalies.LostIncrement`), and a prefix
  deletion misses keys that have come in between (`Serial.PrefixDeletionSerialExactly`, `Anomalies.PhantomSurvives`).
- Commits can reach the log in another order than they were stamped in, and then a second pass over the log can give another
  state (`Serializability.ShuffledRunsCanBeReplayed`, `Anomalies.ReorderedLogNotReplayable`).
- The oracle is started before the committed entries of the same batch are applied and without a linearizable read, so a new
  leader can start too low (`Leaders.ElectionsStartAboveExactly`, `Leaders.StaleLeadersShareATimestamp`).
- Of several membership changes in a batch only the last decides removal (`Node.RaftNode.ApplyEntries`).
- An empty interval can be inserted but never found or deleted (`RbQuery.FindExact`), and hides others from an empty query
  that begins with it (`RbQuery.HitsExactly`, `IntervalTree.EmptyQueryMisses`).
- Comparing 64-bit endpoints by subtraction is not an order when the difference overflows (`Interval.CompareInt64IsOrderExactly`).
- A page limit below one never advances, and a deleted cursor key ends a scan early (`Pagination.ZeroLimitStalls`,
  `Pagination.ResumesExactly`, `Pagination.DeletedCursorLosesEntries`).
- A page larger than the watermark lets `Write` call itself for ever (`PageWriter.NeverEndsExactly`, `PageWriter.AlwaysEndsExactly`); a failed flush
  drops the buffer (`PageWriter.PageWriter.Flush`).

## Model

| member | source | states |
|---|---|---|
| Hlc.ComposeValue | tso.go:97-99 | in the normal range the shift-and-or is the positional value of the two parts; the or is bitwise and the shift drops bits above 63 |
| Hlc.ComposeOrder | tso.go:97-99 | packing preserves and reflects the order on (physical, logical) |
| Hlc.ComposeAtOverflow | tso.go:87-99 | at logical = MAX_LOGICAL+1 the extra bit lands on the lowest physical bit: the next millisecond from an even one, the same millisecond from an odd one |
| Hlc.IncrMovesForward | tso.go:87-99 | an increment moves the packed timestamp forward if and only if it does not leave MAX_LOGICAL in an odd millisecond |
| Oracle.LaterKeepsExactly | tso.go:525-532 | pruning keeps exactly the commits above the mark |
| Oracle.LaterTwice | tso.go:514-533 | pruning twice is pruning once at the higher mark |
| Oracle.PruningKeepsVerdict | tso.go:482-533 | pruning at or below a read timestamp does not change the conflict verdict for that timestamp |
| Oracle.PruningHarmlessExactly | tso.go:482-533 | pruning at a mark is harmless for a read timestamp, whatever was read, if and only if every commit between the two has only keys that were written again above the mark |
| Oracle.PrepareMovesForward | tso.go:257-299 | on a clock that never goes backwards, steps 1 to 3 of an allocation never move the timestamp back and stay below the window, unless the counter had overflowed |
| Oracle.WindowWaitExactly | tso.go:257-299 | on a clock that never goes backwards an allocation waits for ever, however the readings go on, if and only if its first reading or the current timestamp has reached the window |
| Oracle.PrepareFollowsClock | tso.go:257-299 | steps 1 to 3 catch up with the clock and take either the current timestamp as it is, exactly when nothing forces a move, or a newer clock reading with a fresh counter |
| Oracle.StampIncreases | tso.go:302-303 | step 4 increases the timestamp, and keeps it well formed, if and only if it does not leave MAX_LOGICAL in an odd millisecond |
| Oracle.WindowKeptExactly | tso.go:266-299 | an allocation is sure to stay below the persisted window if and only if it cannot enter the overflow wait, which does not look at the window again |
| Tso.WaterMark.DoneUntil | tso.go:396-421 | reading the mark: it may have moved on, only to an index that has begun and never past a pending one, as the step AdvanceMark does |
| Tso.TSO.Allocate | tso.go:257-304 | the allocation loops compute Prepare of the clock readings and stamp its successor |
| Tso.TSO.ReadTs | tso.go:396-421 | registers the current timestamp, begins it on the mark, and gives it back when the wait fails: on every state of the step system exactly its steps TakeReadTs, BeginRead and the wait |
| Tso.TSO.DoneRead | tso.go:547-552 | releases the mark only while the timestamp is still registered |
| Tso.TSO.HasConflict | tso.go:482-505 | the nested loops find a conflict if and only if some remembered commit above the read timestamp wrote a key that was read |
| Tso.TSO.CleanupCommittedTransactions | tso.go:514-533 | filters the remembered commits at the mark, in order, unless the mark has not moved |
| Tso.TSO.NewCommitTs | tso.go:441-460 | the whole critical section: refused exactly on a conflict and then without any change; otherwise finish the read, prune, allocate, begin on the transaction mark, remember |
| Tso.TSO.Load | tso.go:178-198 | a new leader starts at its clock or one above the persisted bound, whichever is later, as Leaders.Start does, and sleeps until the clock has caught up |
| ClientTxn.Txn.Validate | txn.go:281-294 | refuses read-only, discarded and empty-key writes in that order; otherwise records the key for conflict detection |
| ClientTxn.Txn.Buffer | txn.go:163-207 | an operation is buffered exactly when its key was accepted, so that conflict detection covers every buffered write; then it is the step Write on every state of the step system, and otherwise nothing changes |
| ClientTxn.Txn.BufferDeleteByPrefix | txn.go:212-227 | the keys found are tracked as reads, and as writes as far as they are accepted; the operation is buffered only when all of them are, and then it is the step WritePrefix on every state of the step system |
| ClientTxn.Txn.Discard | txn.go:150-157 | gives the read timestamp back once, which is the step Discard, and is idempotent |
| ClientTxn.Txn.Commit | txn.go:110-144 | each outcome of a commit with the oracle's state after it: a granted one is the steps Commit and Discard on every state of the step system, a refused one Discard alone; the commit is done on the transaction mark before the command is returned |
| Transactions.StepKeepsInv | tso.go:396-552 | every step of the transaction layer keeps clock, bounds, counts, pruned list, mark, coverage and serializability |
| Transactions.RunKeepsInv | tso.go:396-552 | that invariant holds in every state of every run |
| Transactions.RunsAreSerializable | tso.go:441-505 | in every run, no commit between a transaction's read and commit timestamps wrote a key it had read, and commit timestamps increase |
| Transactions.RefusedExactly | tso.go:441-505 | in every run, an open transaction is refused if and only if a commit above its read timestamp wrote a key it had read |
| Transactions.PruningRefinesHistory | tso.go:482-533 | in every run, the pruned list gives an open transaction the verdict of the complete history, whatever it has read |
| Transactions.MarkNeverPassesActive | tso.go:535-552 | in every run, the pending count covers all open transactions at a timestamp although readers is a set and commit and discard both release it, so the mark never passes one |
| Transactions.TimestampsIncrease | tso.go:388-460 | in every run, a commit is stamped above every read and commit timestamp handed out before |
| Transactions.LateRunKeepsList | tso.go:396-552 | in every run of the code, also with late begins, the counts cover the active transactions and the remembered commits are exactly those above the last pruning |
| Transactions.StepKeepsLate | tso.go:396-552 | every step of the code keeps that, with no hypothesis on when transactions begin |
| Transactions.StepKeepsHeld | tso.go:514-552 | while a transaction is active the mark stays at or below its read timestamp, or below where it found the mark when it began |
| Transactions.BeginInTimeSuffices | tso.go:403-421 | in every run of the code, a transaction whose begin found the mark at or below its read timestamp keeps it there and gets the verdict of the complete history while it is active, however late others begin |
| Transactions.LateBeginExactly | tso.go:403-421 | in every reached state, a begin on the mark gives the complete verdict in everything the code may do afterwards if and only if the commits that the mark has passed above the read timestamp are superseded above the mark; otherwise the next commit of a bystander drops a conflict |
| Transactions.LateVerdictExactly | tso.go:482-533 | in every run of the code the pruned verdict is right for a transaction, whatever it has read, if and only if the commits between its read timestamp and the last pruning are superseded above that pruning |
| Transactions.LateBeginLosesConflict | tso.go:403-406 | a run in which a transaction registers, two commits prune, and it begins on the mark only then: it commits although its read was overwritten |
| Tracking.RunTracks | txn.go:163-227 | in every run of the code, what a transaction has read, written and buffered is exactly what its own steps did, in order |
| Tracking.CommitCarries | txn.go:110-144 | a commit record carries exactly that: the keys read and found, the keys written and found, and the operations buffered by the steps before it |
| Tracking.ReadsAreNotOverwritten | tso.go:441-505 | in every run, said over the steps: no key that a transaction has read, or found under a prefix it deletes, is written or found by a step of another one whose commit lies between its read and commit timestamps |
| Release.StepCounts | tso.go:396-552 | every step changes what the mark counts at a read timestamp with the transactions active there, except an open transaction that finishes when its timestamp is no longer registered |
| Release.CountsExactly | tso.go:396-552 | in every run of the code the mark counts at each read timestamp the active transactions plus, for good, every one that finished unregistered |
| Release.LoneReaderReleases | tso.go:547-552 | a transaction alone at its read timestamp leaves nothing behind there once it has committed, been discarded or failed to wait |
| Release.LeakIsForGood | tso.go:514-552 | once more is counted at a timestamp than is active there, the mark never passes it again and no commit above it is pruned, whatever the code does |
| Release.TwoReadersStallTheMark | tso.go:400-403 | a run in which two transactions read at one timestamp and both finish: the mark stays there for ever |
| Leaders.NewLeaderStartsAbove | tso.go:178-198 | a leader starts strictly above every timestamp and every bound in the log it has applied |
| Leaders.StartsAboveExactly | tso.go:178-198 | a leader that has applied part of the log starts above every timestamp in all of it if and only if the rest lies below its clock or within the bound it has applied |
| Leaders.StartRecordKeepsInv | tso.go:353-377 | the startup record is stamped above the whole log and its bound is at least as high as every other |
| Leaders.StampKeepsInv | tso.go:257-304 | a stamped command or window record lies above everything known and within a bound that is already in the log |
| Leaders.SaveKeepsInv | tso.go:313-344 | the window moves only to a bound that is in the log, and a window update that is computed late or dropped lowers none |
| Leaders.StepKeepsInv | tso.go:257-377 | electing, starting, stamping, persisting, proposing and deposing, with any suffix of the log lost, keep the bounds ahead of the stamps |
| Leaders.RunKeepsInv | tso.go:257-377 | that invariant holds in every state of every run over any number of leaders |
| Leaders.BoundsCoverTheLog | tso.go:313-377 | in every run, each command is, or follows, a persisted bound that its timestamp does not exceed, and no two commands of any leaders share a timestamp |
| Leaders.ElectionsStartAboveExactly | node.go:269-313 | in every run, at any point and with any part of the log applied, an elected leader starts above the whole log if and only if it has caught up |
| Leaders.StaleLeadersShareATimestamp | node.go:269-313 | a run in which two leaders in succession, elected before the batch with the first one's record is applied, stamp the same timestamp |
| Leaders.LeaderTakesOver | tso.go:178-198 | a change of leaders, step by step, from any log: what is left of the log and where the new leader starts |
| Leaders.LeaderStartsServing | tso.go:353-377 | its startup record in the log, one window ahead, and the window it serves with |
| Leaders.WindowMovesOn | tso.go:313-344 | a renewal, step by step: the record one window ahead of the timestamp it was computed at, and the window once it is in the log |
| Leaders.CommandReachesLog | tso.go:257-304 | a stamped command in the log, and the leader after it |
| Mvcc.SnapshotReads | badger.go:161-179 | the snapshot at a timestamp holds, for each key, the newest version at or below it |
| Mvcc.CounterRoundTrip | badger.go:435-447 | a counter's eight bytes decode to the number encoded |
| Mvcc.CounterArithmetic | badger.go:397-447 | increments wrap around at 64 bits and decrements stop at zero |
| Mvcc.OnlyTheCountMatters | badger.go:397-447 | increments give the same outcome on two stored values if and only if their counts are equal, and decrements if they are; a missing counter counts as zero |
| Mvcc.OverlayIsFold | fsm.go:159-221 | a transaction through the pending-writes overlay equals the left fold of its operations' meanings over the snapshot at its read timestamp, and is refused exactly when the fold is |
| Mvcc.ApplyWritesOnlyAtCommit | fsm.go:159-221 | a refused entry leaves the store unchanged; an accepted one adds versions at its commit timestamp only |
| Mvcc.PrefixDeleteInTransactionRefused | fsm.go:161-218 | a transaction that contains a prefix deletion, or any other operation without a key, is always refused |
| Operations.SetReads | badger.go:467-480 | a set is refused exactly for an empty key; otherwise a reader at its commit timestamp finds the value |
| Operations.DeleteReads | badger.go:597-599 | after a deletion a reader finds nothing, until a later version; an empty key is refused |
| Operations.UpdateReads | badger.go:496-516 | after an update a reader finds the merge of the delta into what stood there at the read timestamp; refused exactly when there is none, the kind is unknown or the key empty |
| Operations.IncrementReads | badger.go:435-447 | a reader finds the count at the read timestamp plus the amount, modulo 2^64; refused exactly for an empty key or a value shorter than eight bytes |
| Operations.DecrementReads | badger.go:397-415 | a reader finds the count less the amount, at least zero; refused on the same conditions |
| Operations.PrefixDeleteReads | badger.go:625-649 | the keys under the prefix that were live at the read timestamp are gone, and every other key reads as before at every timestamp |
| Operations.OnlyItsKey | fsm.go:79-157 | an operation on its own changes no other key, and nothing below its commit timestamp |
| Operations.LastOperationDecides | fsm.go:159-221 | the last operation of a transaction on a key decides, kind by kind, what a reader finds there, from what the operations before it left or else the snapshot |
| Operations.OthersReadAsBefore | fsm.go:159-221 | keys without an operation read as before, and so does everything below the commit timestamp |
| Operations.TransactionRefusedExactly | fsm.go:159-221 | a transaction is refused if and only if some operation has no key, an empty key or an unknown kind, or cannot be merged or counted on what it finds |
| Operations.ReadFindsNewest | badger.go:161-179 | a read finds the version with no newer one up to its timestamp, or there is none at all |
| Operations.CounterIsBigEndian | utils/utils.go:14-22 | byte i of a counter is digit 7-i of its value to the base 256 |
| Fsm.BadgerTxn.Get | badger.go:161-179 | a read sees the transaction's own pending write, else the newest version at its read timestamp |
| Fsm.FSM.IncrByWithTxn | badger.go:435-447 | wrapping 64-bit increment, a missing counter being zero; a value shorter than eight bytes panics |
| Fsm.FSM.DecrByWithTxn | badger.go:397-415 | decrement clamped at zero; a value shorter than eight bytes panics |
| Fsm.FSM.UpdateWithTxn | fsm.go:87-122 | a merge of the value found with the delta, refused for an unknown kind or a failed merge |
| Fsm.FSM.DeleteByPrefixWithTxn | badger.go:625-649 | a deletion for exactly the live keys under the prefix |
| Fsm.FSM.ApplyOne | fsm.go:162-217 | the switch over one operation computes its effect on the overlay |
| Fsm.FSM.ApplySubCommands | fsm.go:159-221 | the loop over a transaction's operations, stopping at the first refusal |
| Fsm.FSM.ApplyCommand | fsm.go:79-221 | one command: all of its writes at its commit timestamp, or none |
| Fsm.FSM.Apply | fsm.go:36-65 | the data of one log entry: refused without a trace when it cannot be decoded or its command is refused, else applied |
| Replay.AgreeingEffects | fsm.go:79-221 | an entry's effect depends only on versions at or below its read timestamp |
| Replay.FuzzyReplay | node.go:570-588 | from any store that holds at least the first i entries and at most the whole log, applying the rest gives exactly the full state |
| Replay.RestartReplay | node.go:177-178 | applying entries again from an old applied index gives the full state |
| Replay.ReplayNeedsTimestampOrder | node.go:570-588 | whenever a commit lies at or below the snapshot of an entry before it in the log, a second pass over the two can give another state |
| Serial.MvccIsSerial | fsm.go:79-221 | from any store found at the start, when nobody writes, between an entry's timestamps, a key it depends on, the multi-version state is that of running the entries one by one |
| Serial.ClientReadsAreSerial | txn.go:110-144 | what a client read at its read timestamp is what the serial execution holds when the entry's turn comes |
| Serial.IncrementSerialExactly | badger.go:435-447 | an increment adds to the latest count if and only if the count has not changed since its read timestamp, a missing counter being zero |
| Serial.PrefixDeletionSerialExactly | badger.go:625-649 | after a prefix deletion a reader sees what the serial execution leaves if and only if every key alive when its turn comes was alive at its read timestamp |
| Serial.PrefixDeletionClearsExactly | badger.go:625-649 | under the same condition, and no other, it leaves nothing under the prefix for a reader; keys may have gone in between, but none may have come |
| Serializability.RunsExecuteSerially | tso.go:441-505 | from every run of the oracle to the store, prefix deletions included: what the steps read or found has its serial value, and the commits execute serially when nobody writes in between a key they depend on and have neither read nor found |
| Serializability.TrackedReadsAreCurrent | tso.go:441-505 | in every run, what a step of a transaction has read is still current just before its commit timestamp |
| Serializability.RunsCanBeReplayed | node.go:177-178 | the log of every run in commit order can be applied again from any earlier index |
| Serializability.ShuffledRunsCanBeReplayed | txn.go:127-142 | so can the log of every run in any order of the commits in which no entry has read at or above the commit of a later one |
| Anomalies.LostIncrement | txn.go:163-180 | a run in which two clients increment one counter at the same read timestamp and both commit: the store holds only the second increment, for all amounts, also when they create the counter |
| Anomalies.PhantomSurvives | txn.go:212-227 | a run in which a key written under a prefix in between survives the prefix deletion that commits after it |
| Anomalies.CompleteExactly | tso.go:464-472 | a replica that has applied part of the log, from any store found at the start, shows everything at or below a read timestamp if and only if no entry still to be applied has written there |
| Anomalies.CompleteReads | distributed.go:284-295 | a read from such a replica has the value of the whole log |
| Anomalies.UnappliedCommitMissed | tso.go:464-472 | a run in which a transaction reads at the timestamp of a commit that has not been applied, finds the value from before it, and commits unopposed |
| Anomalies.ReorderedLogNotReplayable | txn.go:127-142 | a run whose log, in the other order, gives another state when it is applied a second time |
| Node.EntriesToApplyExact | node.go:452-468 | the slice is exactly the entries above the applied index, through the 64-bit wrap when the first one is the next expected; the panic is exactly a gap |
| Node.RaftNode.GetEntriesToApply | node.go:452-468 | what is left of a batch: contiguous, beginning right after the applied index and ending where the batch ends |
| Node.TraceIncreases | node.go:474-519 | indices handed to the state machine strictly increase |
| Node.NoIndexSkipped | node.go:474-519 | between snapshots no index is skipped and none comes twice |
| Node.LastChangeRemovesExactly | node.go:474-501 | a batch removes the node if and only if some membership change in it does and no other one follows |
| Node.EntryFaultExactly | node.go:477-519 | an entry stops the ready loop if and only if it is of unknown type, an unreadable membership change, undecodable data or a refused command; it panics exactly when the command does |
| Node.ReplicasStopTogether | node.go:474-519 | replicas that pass entries of one log from the same store hold the same stores at the same index, and pass a prefix of the log if and only if it ends before the first fault |
| Node.StoreIsApplyLog | fsm.go:36-65 | for every log, with the empty entries of elections, membership changes and undecodable data in it, the store after its entries is the multi-version store of its commands |
| Node.PrefixDeletionStopsReplicas | node.go:482-484 | once a transaction with a prefix deletion is anywhere in a log no replica ever passes it: each stops at or before it with the store of the commands up to there |
| Node.RaftNode.ApplySnapshot | node.go:409-431 | a snapshot is installed exactly when it is newer than what has been applied and loads completely; each failure is named, and a stale one changes nothing |
| Node.RaftNode.ApplyEntry | node.go:477-496 | one entry: which fault it meets on the store and which store it leaves; a membership change replaces an earlier verdict |
| Node.RaftNode.ApplyEntries | node.go:474-501 | a batch is applied in order up to its first fault, and the fault, the trace and the store are those; the applied index moves only when there is none; only the last membership change decides removal |
| Node.RaftNode.ProcessReady | node.go:296-313 | one batch: which fault it meets, if any, and exactly the events up to it; without one, the snapshot if there is one and then every entry above it or above the applied index, the applied index at its end, and the node removed exactly when the last membership change among these entries says so |
| Node.RaftNode.ApplyCommitted | node.go:303-313 | committed entries of a batch: the fault is a gap, or the first fault of the entries above the applied index, and the trace goes up to it |
| Node.RaftNode.ReadyHandler | node.go:188-213 | over any sequence of batches: all of them are applied in turn, or those up to the first that removes the node and none after it; the trace is that of exactly these batches and the applied index covers their entries; a fault is that of the first batch that has one, and ends the loop |
| Interval.CompareIsOverlap | deps/etcd/pkg/adt/interval_tree.go:59-76 | on non-empty intervals the comparison is zero exactly on a common point, and its sign is the side otherwise |
| Interval.CompareInt64IsOrderExactly | deps/etcd/pkg/adt/interval_tree.go:906-916 | comparing by 64-bit subtraction is the order if and only if the difference fits |
| RbTree.MaxIsTrueMaximum | deps/etcd/pkg/adt/interval_tree.go:80-83 | the local rule for max makes it the true maximum endpoint of the subtree |
| RbTree.UpMaxRepairs | deps/etcd/pkg/adt/interval_tree.go:130-146 | repairing maxima upwards may stop at the first unchanged one: the whole path is right then |
| RbTree.UpMaxTwice | deps/etcd/pkg/adt/interval_tree.go:597-664 | of two repairs in a row only the last matters, which is why the rotations may repair in between |
| RbTree.RotLKeeps | deps/etcd/pkg/adt/interval_tree.go:597-619 | a left rotation keeps the in-order contents and every maximum |
| RbTree.RotRKeeps | deps/etcd/pkg/adt/interval_tree.go:642-664 | a right rotation keeps the in-order contents and every maximum |
| RbTree.RecolorFixes | deps/etcd/pkg/adt/interval_tree.go:536-541 | a red uncle moves the violation to the grandparent and keeps all other rules |
| RbTree.RotateFixesLeft | deps/etcd/pkg/adt/interval_tree.go:541-549 | a black uncle, parent on the left: one rotation ends the violation |
| RbTree.RotateFixesRight | deps/etcd/pkg/adt/interval_tree.go:558-566 | a black uncle, parent on the right: one rotation ends the violation |
| RbTree.FixingEnds | deps/etcd/pkg/adt/interval_tree.go:571-571 | blackening the root leaves a red-black tree with the contents it should have |
| RbTree.InsertedKeeps | deps/etcd/pkg/adt/interval_tree.go:469-497 | insertion keeps the order and adds exactly the one element |
| RbTree.HeightBound | deps/etcd/pkg/adt/interval_tree.go:685-691 | 2^height is at most (size+1)^2, the bound that MaxHeight reports |
| RbTree.NoNodeIsDeeper | deps/etcd/pkg/adt/interval_tree.go:97-107 | every path from the root to a node is shorter than the height |
| RbTree.SomeNodeIsDeepest | deps/etcd/pkg/adt/interval_tree.go:97-107 | a tree that is not empty has a node at exactly that depth |
| RbTree.EveryPathIsShort | deps/etcd/pkg/adt/interval_tree.go:685-691 | in a red-black tree 2^(length + 1) is at most (size+1)^2 for every path to a node |
| RbDelete.Case1LeftKeeps | deps/etcd/pkg/adt/interval_tree.go:364-370 | a red sibling is rotated away without changing what is short |
| RbDelete.Case1RightKeeps | deps/etcd/pkg/adt/interval_tree.go:392-398 | the mirror image |
| RbDelete.Case2Keeps | deps/etcd/pkg/adt/interval_tree.go:374-376 | a black sibling with black children turns red and the shortage moves up |
| RbDelete.Case3LeftKeeps | deps/etcd/pkg/adt/interval_tree.go:378-383 | a red near nephew is rotated into the sibling's place |
| RbDelete.Case3RightKeeps | deps/etcd/pkg/adt/interval_tree.go:406-411 | the mirror image |
| RbDelete.Case4LeftKeeps | deps/etcd/pkg/adt/interval_tree.go:384-388 | a red far nephew: one rotation makes up for the shortage and restores the whole tree |
| RbDelete.Case4RightKeeps | deps/etcd/pkg/adt/interval_tree.go:412-416 | the mirror image |
| RbDelete.DeletingEnds | deps/etcd/pkg/adt/interval_tree.go:361-424 | blackening the focus at the root or at a red node restores the whole tree |
| RbDelete.UnlinkShortage | deps/etcd/pkg/adt/interval_tree.go:281-304 | a node replaced by its only child leaves a shortage exactly of its own color |
| RbDelete.SuccessorPlan | deps/etcd/pkg/adt/interval_tree.go:281-308 | the successor unlinked and its interval moved up: rules, maxima and contents of the result |
| RbDelete.RemovedKeeps | deps/etcd/pkg/adt/interval_tree.go:275-316 | removal keeps the order and takes out exactly one element with the given interval, if there is one |
| RbQuery.HitsExact | deps/etcd/pkg/adt/interval_tree.go:151-174 | for every query that is not empty visit reports every overlapping node, nothing else, in order: pruning by the maximum loses nothing |
| RbQuery.HitsExactly | deps/etcd/pkg/adt/interval_tree.go:151-174 | for every query and tree it does so if and only if no interval hides an overlap below it, which only an empty query allows |
| RbQuery.OverlappingExact | deps/etcd/pkg/adt/interval_tree.go:763-770 | on non-empty intervals the report is exactly the true overlaps, each as often as stored |
| RbQuery.OverlappingSorted | deps/etcd/pkg/adt/interval_tree.go:696-700 | the report ascends in begin |
| RbQuery.OnePathIsEnough | deps/etcd/pkg/adt/interval_tree.go:726-736 | at a node that does not overlap, the child not followed overlaps only if the other does |
| RbQuery.FindExact | deps/etcd/pkg/adt/interval_tree.go:703-714 | find returns the first element with exactly that interval, if and only if one is stored and the interval is not empty |
| RbQuery.ContainsExact | deps/etcd/pkg/adt/interval_tree.go:739-760 | the running first begin, furthest end and gap flag decide exactly whether every point of the query, and its begin, is covered |
| IntervalTree.IntervalTree.constructor | deps/etcd/pkg/adt/interval_tree.go:213-227 | an empty tree whose root is the shared sentinel |
| IntervalTree.IntervalTree.UpdateMax | deps/etcd/pkg/adt/interval_tree.go:130-146 | the loop with its early break writes exactly the repaired maxima of the path |
| IntervalTree.IntervalTree.RotateLeft | deps/etcd/pkg/adt/interval_tree.go:597-619 | the pointer writes turn the represented subtree into its left rotation, in place, sentinel untouched |
| IntervalTree.IntervalTree.RotateRight | deps/etcd/pkg/adt/interval_tree.go:642-664 | the pointer writes turn the represented subtree into its right rotation, in place, sentinel untouched |
| IntervalTree.IntervalTree.ReplaceParent | deps/etcd/pkg/adt/interval_tree.go:667-680 | relinks, repairs maxima above, and hangs the node below |
| IntervalTree.IntervalTree.InsertFixup | deps/etcd/pkg/adt/interval_tree.go:532-572 | ends with a red-black tree with right maxima and the same contents |
| IntervalTree.IntervalTree.InsertFixupStep | deps/etcd/pkg/adt/interval_tree.go:533-568 | one turn of that loop, all four cases |
| IntervalTree.IntervalTree.FindSlot | deps/etcd/pkg/adt/interval_tree.go:470-479 | the descent ends at the empty place behind all elements that begin at or before the new one |
| IntervalTree.IntervalTree.Insert | deps/etcd/pkg/adt/interval_tree.go:469-497 | the tree stays valid and its contents become the sorted insertion of the new element |
| IntervalTree.IntervalTree.DeleteCase1Left | deps/etcd/pkg/adt/interval_tree.go:364-370 | case 1 on linked nodes |
| IntervalTree.IntervalTree.DeleteCase1Right | deps/etcd/pkg/adt/interval_tree.go:392-398 | case 1 on linked nodes, mirrored |
| IntervalTree.IntervalTree.DeleteCase3Left | deps/etcd/pkg/adt/interval_tree.go:378-383 | case 3 on linked nodes |
| IntervalTree.IntervalTree.DeleteCase3Right | deps/etcd/pkg/adt/interval_tree.go:406-411 | case 3 on linked nodes, mirrored |
| IntervalTree.IntervalTree.DeleteCase4Left | deps/etcd/pkg/adt/interval_tree.go:384-388 | case 4 on linked nodes |
| IntervalTree.IntervalTree.DeleteCase4Right | deps/etcd/pkg/adt/interval_tree.go:412-416 | case 4 on linked nodes, mirrored |
| IntervalTree.IntervalTree.TurnSiblingRed | deps/etcd/pkg/adt/interval_tree.go:374-376 | case 2 on linked nodes |
| IntervalTree.IntervalTree.DeleteFixup | deps/etcd/pkg/adt/interval_tree.go:361-424 | ends with a red-black tree with right maxima and the same contents, and terminates |
| IntervalTree.IntervalTree.Min | deps/etcd/pkg/adt/interval_tree.go:109-114 | the leftmost node of a subtree, found by descending |
| IntervalTree.IntervalTree.Unlink | deps/etcd/pkg/adt/interval_tree.go:286-304 | the node's only child takes its place, possibly the sentinel, and the maxima above are repaired |
| IntervalTree.IntervalTree.TakeInterval | deps/etcd/pkg/adt/interval_tree.go:305-308 | z takes over its successor's interval and the maxima from z upwards are repaired |
| IntervalTree.IntervalTree.Delete | deps/etcd/pkg/adt/interval_tree.go:275-316 | the tree stays valid; the first element with exactly that interval is taken out, and the result says whether there was one; an empty interval is never found |
| IntervalTree.IntervalTree.VisitNode | deps/etcd/pkg/adt/interval_tree.go:151-174 | the recursion calls back on the reported nodes in order until told to stop |
| IntervalTree.IntervalTree.FindNode | deps/etcd/pkg/adt/interval_tree.go:703-714 | the first node in order with exactly that interval, or the sentinel |
| IntervalTree.IntervalTree.Find | deps/etcd/pkg/adt/interval_tree.go:717-723 | its stored value, or none |
| IntervalTree.IntervalTree.Intersects | deps/etcd/pkg/adt/interval_tree.go:726-736 | the one-path descent is true if and only if some stored interval overlaps |
| IntervalTree.IntervalTree.Contains | deps/etcd/pkg/adt/interval_tree.go:739-760 | true if and only if every point of the query lies in some stored interval; an empty query needs its begin to lie in one |
| IntervalTree.IntervalTree.Stab | deps/etcd/pkg/adt/interval_tree.go:763-770 | what visit reports: exactly the overlapping elements, each as often as stored and ascending in begin, if and only if nothing is hidden, so for every query that is not empty |
| IntervalTree.EmptyQueryMisses | deps/etcd/pkg/adt/interval_tree.go:763-770 | three insertions after which an empty query misses an interval that it touches |
| IntervalTree.IntervalTree.Height | deps/etcd/pkg/adt/interval_tree.go:97-107 | more than the length of every path from the root to a node, and one more than that of some path; zero exactly for the empty tree; 2^height at most (Len+1)^2 |
| Prefix.PrefixRangeExact | deps/etcd/client/v3/op.go:379-392 | a key has the prefix if and only if it lies between the prefix and its computed end in byte order, the end [0] meaning no end |
| Prefix.EndIsOpenExactly | deps/etcd/client/v3/op.go:388-391 | the computed end is the open one exactly when every byte of the prefix is 0xff |
| Prefix.GetPrefix | deps/etcd/client/v3/op.go:379-392 | the backward scan over a copy computes that end |
| Pagination.IterateByPrefix | badger.go:312-374 | one call visits the page and returns the cursor of the specification, first item checked against the cursor only; it breaks off without a cursor exactly at the first item where the context is done or a value cannot be read, and has visited what came before |
| Pagination.LookedIs | badger.go:329-366 | the call looks at the items it visits and, when there is a next page, at the one it stops at |
| Pagination.PagesAreExact | badger.go:297-374 | following the cursor until it is empty ends, and the pages together are all entries with the prefix, each once and in order, for any process predicate and any limit of at least one |
| Pagination.PageIsFilled | badger.go:341-366 | a page accepts no more items than the limit, skipped ones not counted, and returns a next cursor only when it accepted exactly that many |
| Pagination.ZeroLimitStalls | badger.go:329-346 | a limit below one returns an empty page whose cursor leads to the same page for ever |
| Pagination.ResumesExactly | badger.go:321-339 | from a cursor on, the pages are all prefixed entries at or above it if and only if some key has the cursor as a prefix or nothing is left |
| Pagination.DeletedCursorLosesEntries | badger.go:321-339 | a page returns a cursor, its key is deleted, and the scan from there ends at once although an entry is left |
| Codec.SovIsLength | deps/etcd/api/mvccpb/kv.pb.go:374-376 | the varint length computed from the bit length is the length of the varint |
| Codec.VarintRoundTrip | deps/etcd/api/mvccpb/kv.pb.go:386-399 | the shift-and-or loop reads back what was encoded, above whatever was read before it |
| Codec.WrapsAroundIsNegative | deps/etcd/api/mvccpb/kv.pb.go:428-437 | the model's overflow test is the sign of the wrapped 64-bit sum |
| Codec.SizeExact | deps/etcd/api/mvccpb/kv.pb.go:319-349 | Size is the length of the encoding |
| Codec.FieldReadsBack | deps/etcd/api/mvccpb/kv.pb.go:409-552 | each field decodes to itself, negative integers included |
| Codec.UnmarshalOverlays | deps/etcd/api/mvccpb/kv.pb.go:380-574 | decoding onto an existing message replaces the fields present and keeps the others |
| Codec.RoundTrip | deps/etcd/api/mvccpb/kv.pb.go:191-574 | Unmarshal undoes Marshal for every message without unrecognized bytes |
| Codec.LastOneWins | deps/etcd/api/mvccpb/kv.pb.go:380-574 | encodings put one after the other decode to the first overlaid with the second |
| Codec.UnknownsKept | deps/etcd/api/mvccpb/kv.pb.go:553-567 | fields with unknown numbers, groups included, are skipped exactly and kept verbatim, in order, among the unrecognized bytes |
| Codec.RoundTripWithUnknown | deps/etcd/api/mvccpb/kv.pb.go:191-574 | Unmarshal undoes Marshal also when the message carries fields of a later version, groups included |
| Codec.RoundTripExactly | deps/etcd/api/mvccpb/kv.pb.go:191-574 | Unmarshal undoes Marshal if and only if the unrecognized bytes are a row of whole fields with unknown numbers |
| Codec.DecodedRoundTrips | deps/etcd/api/mvccpb/kv.pb.go:191-574 | every message that was unmarshalled from some data is unchanged by marshalling and unmarshalling it again |
| Codec.EncodedIsUnknownField | deps/etcd/api/mvccpb/kv.pb.go:717-794 | integers, byte strings and fixed-width fields with unknown numbers, as they are encoded, are such fields |
| Wire.OnTheWire | deps/etcd/api/mvccpb/kv.pb.go:206-250 | Marshal's bytes: the six fields in order behind the tags 0x0a, 0x10, 0x18, 0x20, 0x2a and 0x30, each left out when empty or zero, then the unrecognized bytes |
| Wire.SingleFields | deps/etcd/api/mvccpb/kv.pb.go:206-250 | a message with one field is exactly that tag with its payload |
| Wire.DecodedByName | deps/etcd/api/mvccpb/kv.pb.go:380-574 | decoding an encoding onto a message gives each of the six fields the new value, unless that is empty or zero |
| Wire.VarintDigits | deps/etcd/api/mvccpb/kv.pb.go:308-318 | a varint is the base-128 digits, lowest first, top bit set on all but the last byte, without a leading zero |
| Wire.TooLong | deps/etcd/api/mvccpb/kv.pb.go:386-399 | ten bytes that all ask for another are an overflow |
| Wire.TooShort | deps/etcd/api/mvccpb/kv.pb.go:386-399 | fewer, and then the end of the data, are an unexpected end |
| Wire.TagErrors | deps/etcd/api/mvccpb/kv.pb.go:400-412 | which tags are refused and how: end of group, a number that is not positive in 32 bits, the wrong wire type for each known field |
| Wire.LengthErrors | deps/etcd/api/mvccpb/kv.pb.go:409-443 | a length that overflows the index or the data, and the bytes otherwise |
| Wire.CutOffInteger | deps/etcd/api/mvccpb/kv.pb.go:444-462 | an integer cut off after its first byte leaves that byte's bits in its own field |
| Wire.IllegalWireTypes | deps/etcd/api/mvccpb/kv.pb.go:717-794 | wire types 6 and 7 are refused at any depth |
| Wire.GroupIsOneField | deps/etcd/api/mvccpb/kv.pb.go:717-794 | a group around whole fields, groups among them, is one whole field; the number on its end tag is not looked at |
| Wire.GroupIsKept | deps/etcd/api/mvccpb/kv.pb.go:553-567 | a message keeps a group of a later version verbatim |
| Message.EncodeVarint | deps/etcd/api/mvccpb/kv.pb.go:308-318 | the varint ends at the given offset and nothing else in the buffer changes |
| Message.PutInt | deps/etcd/api/mvccpb/kv.pb.go:215-219 | an integer field written backwards, as Wire.OnTheWire says: varint, then tag before it, nothing for zero |
| Message.PutString | deps/etcd/api/mvccpb/kv.pb.go:220-226 | a byte string field written backwards, as Wire.OnTheWire says: bytes, length, tag, nothing when empty |
| Message.DecodeVarint | deps/etcd/api/mvccpb/kv.pb.go:386-399 | the decoding loop computes the specified varint or its error |
| Message.SkipKv | deps/etcd/api/mvccpb/kv.pb.go:717-794 | the skip loop, groups included, computes the specified end or error |
| Message.UnmarshalField | deps/etcd/api/mvccpb/kv.pb.go:384-567 | one field or one unknown field, with every error case |
| Message.Message.MarshalToSizedBuffer | deps/etcd/api/mvccpb/kv.pb.go:206-250 | the backward fill puts exactly the encoding at the end of the buffer |
| Message.Message.Marshal | deps/etcd/api/mvccpb/kv.pb.go:191-200 | the buffer of the computed size is filled to its very beginning with the bytes of Wire.OnTheWire |
| Message.Message.Unmarshal | deps/etcd/api/mvccpb/kv.pb.go:380-574 | the loop decodes onto the message held; after an error it holds the fields read before, and what was already read of an integer |
| Message.MarshalThenUnmarshal | deps/etcd/api/mvccpb/kv.pb.go:191-574 | a message marshalled and unmarshalled into a new one is the same |
| PageWriter.NeverEndsExactly | deps/etcd/pkg/ioutil/pagewriter.go:56-99 | the tail calls of Write go on for ever, each repeating the one before, if and only if neither the input nor its tail behind whole pages fits below the watermark and no sink write fails on the way |
| PageWriter.AlwaysEndsExactly | deps/etcd/pkg/ioutil/pagewriter.go:56-99 | Write ends for every input, offset, buffer and sink if and only if a page is no larger than the watermark |
| PageWriter.EndsWithinTwo | deps/etcd/pkg/ioutil/pagewriter.go:56-99 | when Write ends at all it ends in its first or second activation |
| PageWriter.PageThatNeverEnds | deps/etcd/pkg/ioutil/pagewriter.go:56-99 | with a larger page, one page of input on an empty buffer is an input for which it does not |
| PageWriter.SlackCompletes | deps/etcd/pkg/ioutil/pagewriter.go:64-80 | the slack brings the offset to a page boundary, and a part of it leaves the rest missing |
| PageWriter.PageWriter.constructor | deps/etcd/pkg/ioutil/pagewriter.go:45-54 | an empty buffer with one page of room above the watermark |
| PageWriter.PageWriter.Activate | deps/etcd/pkg/ioutil/pagewriter.go:56-99 | one activation on the real buffer and sink: it returns, or makes exactly the tail call that the specification says, with everything consumed in order |
| PageWriter.PageWriter.Write | deps/etcd/pkg/ioutil/pagewriter.go:56-99 | on exactly the inputs for which the source ends, failing sinks included: terminates, never overruns the buffer, keeps sink and buffer together equal to all input in order, and every sink write ends on a page boundary; an argument that fits below the watermark is only buffered; after a failed sink write what is kept is a prefix |
| PageWriter.PageWriter.Flush | deps/etcd/pkg/ioutil/pagewriter.go:102-115 | the buffer is empty afterwards, whatever the sink took; it fails exactly when bytes were lost |

## Left out

- Raft consensus, the write-ahead log, storage and transport: one committed log is taken as given.
- Badger's own internals: its conflict detection and the watermark's bookkeeping are replaced by their contracts.
- Time to live, which depends on the wall clock at apply.
- JSON and Protobuf merging: an arbitrary deterministic function of the stored value and the delta.
- Value-log garbage collection and DiscardAt, marked unfinished in the source.
- Liveness: that waits end, that the mark advances where nothing is counted below, that proposals are answered.
- Read tracking by the prefix readers of distributed.go: reads appear as steps that add keys to the read set.
- Linearizable reads through ReadIndex, and read states that are pending when a batch is processed.
- The mutexes themselves, goroutines and cancellation by context.
- MaxHeight's floating-point formula: the bound is stated over integers as 2^height at most (Len+1)^2.
- successor's climb when there is no right child: Delete only calls it with two children, which is Min of the right subtree.
- Union and visitLevel of the interval tree: one repeats Insert, the other serves tests.
- String, byte and affine endpoint types of the interval tree: total orders, represented by integers.
- The sentinel's max field, which the source leaves nil and never reads.
- Ghost paths and trees are parameters of the tree's methods; they name the place a pointer stands for and have no run-time part.
- The other generated messages and Event: the same codec pattern with other fields.
- PageWriter.PageWriter.Write: requires that the source ends on the input (Ends); PageWriter.PageWriter.Activate and NeverEndsExactly speak about the others.
