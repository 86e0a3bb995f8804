# Verification of the key-value store's core

A Dafny model of the Go backend of a Dynamo-style key-value store, with proofs of what it keeps over
whole runs. `dafny verify dfyconfig.toml` checks everything.

| area | modules | main question |
|---|---|---|
| crash recovery | `StorageTypes`, `LogFormat`, `Wal`, `Memtables`, `Snapshots`, `Recovery`, `Engine`, `EngineRuns`, `EngineGaps`, `EngineLosses`, `EngineRaces` | does Open rebuild the live table after any run of writes, snapshots, crashes at any byte and restarts, and after any interleaving of writers with a snapshot? |
| hash ring | `RingSpec`, `Rings` | does a membership change move only what it must, and when does the replica loop end? |
| Merkle tree | `Merkle`, `MerkleMeaning` | does the pruned descent find every difference, and do equal roots mean equal data? |
| versions | `VectorClocks`, `Causality`, `Conflicts` | do clocks decide causality, and does conflict detection lose nothing? |
| replication | `Quorums`, `Coordination`, `Hints`, `HintRuns` | does a quorum read hear a quorum write, and are hints conserved? |

`Common` and `Ordering` hold shared types, filtering, lexicographic order and sorting.

Objects that the program updates in place are classes (`WAL`, `Memtable`, `SnapshotManager`,
`StorageEngine`, `Ring`, `HintedHandoff`, `Coordinator`, `Cluster`) whose loops are proved against functions
on values; the theorems about runs are about those functions. Protocols with several actors
(`EngineRuns`, `EngineRaces`, `HintRuns`, and the histories of `Quorums`) are state machines, and their
theorems hold in every reachable state.

Some promises of the program do not hold as they stand. The model follows the code, shows a run that
fails, and proves when the promise is kept:

- The comment on Replay (`backend/pkg/storage/wal.go:95-96`) says truncated records are silently
  skipped. A cut right behind the 17-byte header of a record with a payload is an error instead, and
  stops every later start: `TornTailReplay`, `BareHeaderIsFatal`.
- Open neither trims a torn tail nor reads archived logs. Recovery is exact in *clean* states: since the
  snapshot that would be read no rotation, no append behind a torn record, no key or value of 2^32
  bytes, and no failed sync: `RecoveryIsExact`. Each condition is also necessary: `RecoveredIffClean`
  for a write behind a torn record or with lengths that do not fit, `FailedSyncRecoversIff`, and
  `RotationRecoversIff`. After a torn tail a restart can even show a value nobody wrote:
  `TornTailForgesValue`.
- A snapshot taken with the clock behind a file on disk is not read: `WriteBecomesLatestIff`.
- The lock taken by takeSnapshot is taken by no writer, and nothing orders the memtable updates of two
  writers: `RacesRebuildIff`, `OrderedRacesRebuildIff`, `MemtableIsReplayIff`,
  `SnapshotRaceLosesWrite`, `OvertakingDiverges`. `LockedSnapshotRebuilds` shows what a lock would give.
- The memtable's size undercounts when a deleted key is touched again: `SizeUndercounts`,
  `SizeIsLiveBytesIff`.
- Colliding ring points of two nodes can leave a member without a point, and the replica loop running
  forever or dividing by zero: `LoopForAllIff`, `CollisionStrandsMember`,
  `CollisionEmptiesRing`.
- Clocks order versions only until a node's 64-bit counter wraps: `CausalityIffCountersSuffice`.
- "The same root hash means in sync" fails for zero bytes in keys or values: `ZeroByteHidesDifference`.
  The roots agree exactly if every bucket is hashed from the same bytes: `RootsEqualIffBytes`.
- Record keys of hints tell hints apart only if names hold no colons: `RecordKeyTells`, `ColonConfusesKeys`.
- A hint stored while a delivery to its node is under way is lost: `ConservedIffUndisturbed`, `ArrivalIsLost`.
- Siblings may have clocks Equal to the winner's, not only Concurrent: `EqualClocksAreSiblings`,
  `SiblingsConcurrentIff`.
- Put's and Get's comments speak of W and R replicas, but the configured W and R are never read; the
  level alone decides. `PutHasWAcksIff` and `GetHasRAnswersIff` say when the promise is kept all the
  same, and build the failing input otherwise.
- A tombstone reads as not found, so read repair brings deleted values back: `DeletedStaysIff`.

SHA-256 is a parameter, any function to 32 bytes (to 32 bits on the ring). Freedom from collisions is a
hypothesis about the strings actually hashed, and only where it is needed. Clocks, network replies,
failing file removals and the order of goroutines are parameters as well.

## Model

| member | source | states |
|---|---|---|
| `EngineRuns.RecoveryIsExact` | backend/pkg/storage/engine.go:56-115 | over every run of writes that succeed or fail, snapshots that succeed or fail at any non-negative clock reading, crashes at any byte of an append, crashes inside a snapshot and restarts, in any order from an empty disk: in a clean state Open rebuilds the live table exactly (values, timestamps, tombstones), and fails exactly when the last crash left a bare header |
| `EngineRuns.CrashInAppendIsAtomic` | backend/pkg/storage/wal.go:68-159 | a crash after any number of bytes of an append: the restart sees the table just before the operation, just after it, or the error of the bare header, and which of the three |
| `EngineRuns.StepKeepsInv` | backend/pkg/storage/engine.go:118-262 | each step keeps: the latest snapshot plus the whole records behind its offset add up to the live table, and what is left of the log is part of one record |
| `EngineRuns.SnapshotHeals` | backend/pkg/storage/engine.go:244-262 | whatever happened before (rotation, torn records, oversized lengths, failed syncs), a snapshot that is saved while no file on disk is newer makes the live table recoverable again; any other leaves what a restart yields as it was |
| `EngineRuns.BareHeaderIsFatal` | backend/pkg/storage/engine.go:89-92 | once a crash has left a bare header, every further run of restarts fails and changes nothing |
| `EngineGaps.RotationLosesWrites` | backend/pkg/storage/wal.go:180-206 | counter-run: for every pair of records on different keys, a rotation in between and a crash lose the first acknowledged write, because Open never reads the archive |
| `EngineLosses.RecoveredIffClean` | backend/pkg/storage/engine.go:118-152 | from every clean reachable state, an acknowledged write that changes its key's slot and does not rotate the log is recovered if and only if the state stays clean: the log was whole and both lengths fit (behind a torn record, if the write's timestamp is not the one read there) |
| `EngineLosses.TornTailLosesWrite` | backend/pkg/storage/wal.go:48-65 | a write acknowledged behind a torn record is lost, from every clean reachable state, for every cut and every size, if it changes its key's slot and its timestamp is not the one read at the torn record |
| `EngineLosses.TornRecordKeepsStamp` | backend/pkg/storage/wal.go:132 | that timestamp is the torn record's own if eight bytes of it were written |
| `EngineLosses.OversizedNotRead` | backend/pkg/storage/wal.go:79-80 | a record with a key or value of 2^32 bytes or more is never read back, in no part of what replay makes of its bytes |
| `EngineLosses.ParsedStands` | backend/pkg/storage/wal.go:117-156 | every record replay returns stands at its reported offset, inside the log, and behind the first one |
| `EngineLosses.FailedSyncRecoversIff` | backend/pkg/storage/wal.go:85-92 | after a failed sync in any clean state with a whole log, and any later writes that do not rotate it: recovery is exact if and only if the key was written again or the failed write would not have changed its slot |
| `EngineGaps.TornByteLosesAll` | backend/pkg/storage/wal.go:48-65 | counter-run: on an empty disk, one torn byte, a restart, and an acknowledged record with a key length not divisible by 256 and below 2^24 bytes; the next restart has nothing |
| `EngineGaps.BareHeaderIsReachable` | backend/pkg/storage/wal.go:138-145 | a crash right behind the header of the first record with a payload reaches a state that no restart leaves |
| `EngineGaps.TornByteHidesLog` | backend/pkg/storage/wal.go:114-145 | one torn byte in front of a record makes replay read a length of at least 2^24 and quietly drop everything behind it |
| `EngineGaps.TornRecordIsCompleted` | backend/pkg/storage/wal.go:132-155 | a record torn past its key is completed by whatever is appended behind it: replay returns it with a value nobody wrote and goes on inside the appended bytes |
| `EngineGaps.TornTailForgesValue` | backend/pkg/storage/wal.go:48-65 | counter-run: a crash past the key, a restart and an acknowledged write; the next restart has lost the write and shows a value made of bytes of both records |
| `EngineGaps.FailedSyncResurfaces` | backend/pkg/storage/wal.go:85-92 | a write whose sync fails is reported as failed and is there after a restart, from every clean state |
| `EngineGaps.UnrotatedRecovers` | backend/pkg/storage/wal.go:68-93 | any series of writes that does not rotate the log is recovered exactly |
| `EngineGaps.RotationRecoversIff` | backend/pkg/storage/wal.go:180-206 | any series of writes with rotations, from any clean state: where the old offset falls on a record boundary of the new log or past its end, recovery is exact if and only if every key last written in a record no longer read already had that slot in the snapshot |
| `EngineRaces.RacesRebuildIff` | backend/pkg/storage/engine.go:244-262 | over every interleaving of writers (append, apply), any number of snapshots (read memtable, read offset, publish) and restarts, in a quiet state: Open rebuilds the live table if and only if every key survives; if slots differ, if and only if for every key whose last record is behind the offset that record was also applied last, and for every other key nothing was applied after the memtable was read |
| `EngineRaces.OrderedRacesRebuildIff` | backend/pkg/storage/engine.go:244-262 | if no record overtook an earlier one for its key: if and only if every record below the offset that is the last applied for its key had been applied when the memtable was read, or left the slot the key had then; with distinct slots the exception is void |
| `EngineRaces.LockedSnapshotRebuilds` | backend/pkg/storage/engine.go:244-248 | what a lock shared with the writers would give: with no write half done when the memtable is read and no append before the offset is read, every later run without overtaking, over any number of restarts, is rebuilt exactly |
| `EngineRaces.StepKeepsInv` | backend/pkg/storage/engine.go:118-262 | each step, restarts included, keeps: every snapshot holds the effect of exactly the records applied before it read the memtable, all of them below its offset, and no record is applied twice |
| `EngineRaces.RestartKeepsViews` | backend/pkg/storage/engine.go:56-115 | what a restart leaves is the effect of the records the snapshot had seen, followed by those behind its offset |
| `EngineRaces.RestartIsStable` | backend/pkg/storage/engine.go:56-115 | a restart is possible in every reachable state and a further restart rebuilds the same table |
| `EngineRaces.MemtableIsReplayIff` | backend/pkg/storage/engine.go:138-142 | over every interleaving the memtable is the replay of the log if and only if, per key, the record applied last has the slot of the record logged last; if slots differ, if and only if it is that record; it always is if every record was applied and none overtook an earlier one for its key |
| `EngineRaces.SnapshotRaceLosesWrite` | backend/pkg/storage/engine.go:138-248 | counter-run from every quiet reachable state: a write appended but not applied when the memtable is read lies below the recorded offset and is missing after a restart, although nothing is appended while the snapshot is taken |
| `EngineRaces.OvertakingDiverges` | backend/pkg/storage/engine.go:138-142 | counter-run from every quiet reachable state: two writers of one key that apply in the opposite order to their appends leave the live table and the recovered one different |
| `EngineRaces.RebuiltOnDisk` | backend/pkg/storage/engine.go:56-115 | the table rebuilt in the record-level machine is what recovery reads from the encoded bytes |
| `Recovery.OverlapIsHarmless` | backend/pkg/storage/engine.go:83-99 | replaying records the snapshot already reflects gives the same final table |
| `Recovery.GapLosesExactly` | backend/pkg/storage/engine.go:83-99 | skipping records loses exactly the keys whose last write lies among the skipped ones; these keep the older slot |
| `Recovery.EarlyOffsetRecovers` | backend/pkg/storage/engine.go:65-99 | on bytes: an offset at a record boundary at or before the snapshot point recovers the live table |
| `Recovery.LateOffsetRecovers` | backend/pkg/storage/engine.go:65-99 | on bytes: an offset past the snapshot point recovers the live table if and only if each key last written in the gap already had that slot |
| `Recovery.OffsetPastEndRecovers` | backend/pkg/storage/wal.go:97-122 | an offset at or past the end of a rotated log replays nothing |
| `Recovery.GapRebuildsIff` | backend/pkg/storage/engine.go:89-99 | replay that skips some records gives the same table if and only if every key last written in one of them already had that slot |
| `Recovery.SnapshotOutcomeRecovers` | backend/pkg/storage/engine.go:244-262 | a snapshot of the current table decides what a restart yields if it was saved and no file is newer, and changes nothing otherwise |
| `Recovery.RecoverWhole` | backend/pkg/storage/engine.go:56-115 | recovery of a log of whole records is the replay of exactly these on the snapshot |
| `Recovery.RecoverTorn` | backend/pkg/storage/engine.go:56-115 | the same with a partly written record at the end, or the error at the bare header |
| `Recovery.SnapshotRestores` | backend/pkg/storage/engine.go:70-80 | restoring a snapshot of the memtable gives back the memtable, tombstones included |
| `Recovery.LastWriteDecides` | backend/pkg/storage/engine.go:93-99 | after a replay each key has the slot of its last record, or the older slot if it has none |
| `LogFormat.ReplayUndoesAppend` | backend/pkg/storage/wal.go:68-159 | replay from any record boundary returns exactly the remaining entries with their offsets |
| `LogFormat.TornTailReplay` | backend/pkg/storage/wal.go:97-159 | with any strict prefix of one more record behind them, exactly the whole records come back; the cut right behind the header of a record with a payload is an error, and no other cut is |
| `LogFormat.RecordsReadBack` | backend/pkg/storage/wal.go:97-159 | whole records are read back one by one whatever follows them |
| `LogFormat.OffsetsAreTrue` | backend/pkg/storage/wal.go:147-155 | each reported offset is the number of bytes in front of the record |
| `LogFormat.ReadsBackExactlyWhenFits` | backend/pkg/storage/wal.go:74-83 | a record is read back if and only if both lengths are below 2^32 |
| `LogFormat.NumberReadsBack` | backend/pkg/storage/wal.go:74-83 | big-endian fields read back the number written when it fits the width |
| `LogFormat.RecordLayout` | backend/pkg/storage/wal.go:76-83 | every byte of a record: timestamp modulo 2^64, key length, value length (each most significant digit first), operation, key, value |
| `Wal.WAL.Replay` | backend/pkg/storage/wal.go:97-159 | the reading loop computes the recursive parse of the log from the given offset, errors included |
| `Wal.WAL.Append` | backend/pkg/storage/wal.go:68-93 | the log is rotated if full, then grows by exactly the record; a failed write leaves only the rotation, a failed sync leaves the record all the same, and both return an error; the size field stays the file length |
| `Wal.WAL.RotateIfNeeded` | backend/pkg/storage/wal.go:180-206 | a full log moves to the archives unchanged and the new log is empty |
| `Wal.WAL.constructor` | backend/pkg/storage/wal.go:48-65 | opening takes the file as it is, torn tail included |
| `Wal.WAL.Size` | backend/pkg/storage/wal.go:162-166 | the size is the length of the current log file, in every valid state |
| `Wal.AppendKeepsHistory` | backend/pkg/storage/wal.go:68-206 | archives and log together grow by exactly the new record: rotation moves bytes and loses none |
| `Engine.Open` | backend/pkg/storage/engine.go:56-115 | the engine that Open returns holds exactly the recovered table; Open fails if the newest snapshot is unreadable, or with the error of recovery; the disk is not touched |
| `Engine.CloseAndReopen` | backend/pkg/storage/engine.go:215-223 | a shutdown and a restart give back the same table, whatever the log looks like, if the final snapshot is saved and no file is newer; otherwise what the disk held before |
| `Engine.StorageEngine.Put` | backend/pkg/storage/engine.go:118-152 | the log and the table change by the same record; nothing changes on a closed engine or an empty key; a failing log returns its error and leaves table and counter; when a background snapshot is due |
| `Engine.StorageEngine.Delete` | backend/pkg/storage/engine.go:174-198 | as Put with a tombstone; the write counter stays |
| `Engine.StorageEngine.Get` | backend/pkg/storage/engine.go:155-171 | the live slot, or not found for a missing key and for a tombstone |
| `Engine.StorageEngine.Scan` | backend/pkg/storage/engine.go:201-212 | the live entries of the half-open range in key order |
| `Engine.StorageEngine.TakeSnapshot` | backend/pkg/storage/engine.go:244-262 | the snapshot written holds the whole memtable and the current log size, or the write fails without further effect; log and table stay |
| `Engine.StorageEngine.Close` | backend/pkg/storage/engine.go:215-223 | a final snapshot once; closing twice does nothing |
| `Engine.RestoreSnapshot` | backend/pkg/storage/engine.go:70-80 | the restoring loop computes the restored table |
| `Engine.ApplyLog` | backend/pkg/storage/engine.go:93-99 | the applying loop computes the replayed table |
| `Memtables.AccountingOverRun` | backend/pkg/storage/memtable.go:37-68 | over every run of operations the tree is strictly sorted and the size field is the live bytes less the key length of every tombstone that was overwritten |
| `Memtables.SizeIsLiveBytesIff` | backend/pkg/storage/memtable.go:37-116 | the size is the live bytes if and only if no deleted key is touched again |
| `Memtables.SizeUndercounts` | backend/pkg/storage/memtable.go:37-68 | counter-run: put, delete and put of one key leaves the size short by the key length |
| `Memtables.UpsertKeeps` | backend/pkg/storage/memtable.go:46-48 | inserting or replacing keeps the order and updates exactly one key of the table |
| `Memtables.ContentsSize` | backend/pkg/storage/memtable.go:119-123 | the table has as many keys as the tree has slots |
| `Memtables.PrefixRange` | backend/pkg/api/http/handlers.go:192-196 | the range from a prefix to the prefix with 0xff holds exactly the keys with that prefix whose next byte is not 0xff |
| `Memtables.PrefixScan` | backend/pkg/storage/memtable.go:83-95 | a prefix scan returns, in key order, exactly the live entries in that range |
| `Memtables.ScanIsHalfOpen` | backend/pkg/storage/memtable.go:83-95 | for every start and end, the sorted tree falls into the keys below the start, those from the start to below the end, and the rest; a scan is the live part of the middle |
| `Memtables.ScanSplits` | backend/pkg/storage/memtable.go:83-95 | a scan over two adjacent ranges is the two scans one after the other |
| `Ordering.LexByFirstDifference` | backend/pkg/storage/memtable.go:17-19 | keys are ordered by the first byte that differs, a proper prefix being smaller |
| `Memtables.Memtable.Put` | backend/pkg/storage/memtable.go:37-51 | one key changes; size and count follow |
| `Memtables.Memtable.Delete` | backend/pkg/storage/memtable.go:55-68 | the key becomes a bare tombstone; size and count follow |
| `Memtables.Memtable.Get` | backend/pkg/storage/memtable.go:71-80 | the slot of a live key, nothing for a missing or deleted one |
| `Memtables.Memtable.Scan` | backend/pkg/storage/memtable.go:83-95 | the traversal collects exactly the live entries of the range, which ScanIsHalfOpen describes for every start and end |
| `Memtables.Memtable.All` | backend/pkg/storage/memtable.go:99-109 | every slot, strictly sorted, as many as the count field and as distinct keys |
| `Snapshots.NameOrder` | backend/pkg/storage/snapshot.go:45 | lexicographic order of the 20-digit names is numeric order of all non-negative 64-bit creation times, and equal names mean equal times |
| `Snapshots.LatestIsNewest` | backend/pkg/storage/snapshot.go:84-111 | the snapshot loaded has the largest creation time, and one is found if there is any |
| `Snapshots.WriteBecomesLatestIff` | backend/pkg/storage/snapshot.go:44-81 | a new snapshot is the one loaded next if and only if no file on disk is newer, even if removals fail; otherwise the one loaded stays the same |
| `Snapshots.FailedWriteIsInvisible` | backend/pkg/storage/snapshot.go:48-72 | a write that fails at any step leaves the snapshot that is loaded unchanged |
| `Snapshots.PruneKeepsNewest` | backend/pkg/storage/snapshot.go:114-127 | pruning never removes the newest snapshot |
| `Snapshots.TemporaryFileIsInvisible` | backend/pkg/storage/snapshot.go:136-142 | a leftover temporary file changes nothing that is read |
| `Snapshots.SurvivorsAreNewest` | backend/pkg/storage/snapshot.go:114-127 | after any sequence of writes in any order of times, the files left are exactly the newest three, or all if there are fewer |
| `Snapshots.LastThreeInsert` | backend/pkg/storage/snapshot.go:114-127 | pruning to three before an insertion does not change the newest three after it |
| `Snapshots.LastThreeIs` | backend/pkg/storage/snapshot.go:113-127 | the survivors are three, or all if there are fewer, and newer than all others |
| `Snapshots.TimesWrittenAre` | backend/pkg/storage/snapshot.go:44-45 | the times compared are exactly the creation times of the snapshots written |
| `Snapshots.PrunedIff` | backend/pkg/storage/snapshot.go:114-127 | pruning removes a file exactly if it is a snapshot with three or more newer ones by name and its removal works |
| `Snapshots.SnapshotManager.ListSnapshots` | backend/pkg/storage/snapshot.go:130-145 | the listing loop returns the matching names, ascending and without repetition |
| `Snapshots.SnapshotManager.LoadLatest` | backend/pkg/storage/snapshot.go:84-111 | the last listed snapshot, or none; an error if that file cannot be opened or decoded, with no older one tried |
| `Snapshots.SnapshotManager.PruneOld` | backend/pkg/storage/snapshot.go:114-127 | all but the last three listed files go, except those whose removal fails |
| `Snapshots.SnapshotManager.Write` | backend/pkg/storage/snapshot.go:44-81 | the new file is added under its name, then old ones are pruned; a failure before the rename returns an error and leaves at most a temporary file |
| `RingSpec.RunIsConsistent` | backend/pkg/hash/ring.go:50-92 | every run of membership changes, collisions and repeated adds included, keeps the points sorted and equal as a set to the owned ones |
| `RingSpec.OwnerIsNearest` | backend/pkg/hash/ring.go:95-103 | the owner of a key is the owner of the clockwise nearest point |
| `RingSpec.FirstIsNearest` | backend/pkg/hash/ring.go:154-160 | no point is nearer clockwise, around zero, than the one searched for |
| `RingSpec.ClockwiseByDistance` | backend/pkg/hash/ring.go:107-131 | going clockwise, every point is at least as far as the one before |
| `RingSpec.AddMovesOnlyToNewNode` | backend/pkg/hash/ring.go:50-63 | after AddNode each key has its old owner or the new node, collisions included |
| `RingSpec.AddOnlyInserts` | backend/pkg/hash/ring.go:107-131 | adding a fresh node changes any replica list only by inserting it: without it the new list is a prefix of the old one, shorter by one exactly when a replica was pushed off the end |
| `RingSpec.RemoveOnlyTakesOut` | backend/pkg/hash/ring.go:66-131 | removing a member is the reverse, for every replica list |
| `RingSpec.WithoutOrder` | backend/pkg/hash/ring.go:107-131 | the clockwise order of all nodes in the smaller ring is that of the larger ring with the node left out |
| `RingSpec.AddThenRemove` | backend/pkg/hash/ring.go:50-92 | adding a fresh node and removing it restores points, owners and members exactly |
| `RingSpec.FilterUndoesSort` | backend/pkg/hash/ring.go:79-88 | filtering the new points out of the sorted union gives back the old sequence |
| `RingSpec.RunIsPartitioned` | backend/pkg/hash/ring.go:50-92 | without cross-node collisions every run, re-adding included, leaves each member owning all its points and no others |
| `RingSpec.LapMeetsEveryone` | backend/pkg/hash/ring.go:107-131 | one lap from any position meets every member |
| `RingSpec.ReplicasAreDistinctMembers` | backend/pkg/hash/ring.go:107-131 | in every ring so reached, exactly min(n, members) distinct members in order of first clockwise appearance |
| `RingSpec.DistinctFirsts` | backend/pkg/hash/ring.go:119-129 | the distinct nodes along a walk are its first appearances, in order |
| `Rings.PointNamesDiffer` | backend/pkg/hash/ring.go:59-75 | distinct pairs of node ID and number hash distinct names, whatever the IDs contain |
| `Rings.PointNameReads` | backend/pkg/hash/ring.go:59-75 | a name is the whole ID, a separator, and the number in decimal |
| `Rings.PointsAre` | backend/pkg/hash/ring.go:58-62 | a node's points are exactly the hashes of its names, one for each virtual node |
| `Rings.PointsDoNotCollide` | backend/pkg/hash/ring.go:58-75 | a hash that does not collide on the names hashed gives different nodes disjoint points, and every node some |
| `Rings.HashedRunIsPartitioned` | backend/pkg/hash/ring.go:50-92 | so over every run each member owns all its points and no others |
| `Rings.HashedReplicasAreDistinct` | backend/pkg/hash/ring.go:107-131 | and the replicas of every key are the first min(n, members) distinct members clockwise |
| `RingSpec.LoopEndsIff` | backend/pkg/hash/ring.go:122-129 | the collecting loop returns if and only if one lap meets as many nodes as are wanted; with members but no points it divides by zero |
| `RingSpec.LoopForAllIff` | backend/pkg/hash/ring.go:107-131 | over every run, collisions included, the loop for all members returns if and only if every member owns a point |
| `RingSpec.RunOwnersAreMembers` | backend/pkg/hash/ring.go:50-92 | over every run, collisions included, every owner is a member and owns only points of its own |
| `RingSpec.CollisionStrandsMember` | backend/pkg/hash/ring.go:66-131 | counter-run: with colliding points a removal leaves a member without a point, and the loop for two nodes does not return |
| `RingSpec.CollisionEmptiesRing` | backend/pkg/hash/ring.go:66-131 | counter-run: when all points of two nodes collide, removing one leaves the other as a member of a ring without points, where the loop fails |
| `Rings.Ring.constructor` | backend/pkg/hash/ring.go:38-47 | an empty ring; a non-positive number of virtual nodes means the default |
| `Rings.Ring.AddNode` | backend/pkg/hash/ring.go:50-63 | points appended and sorted in place, owners and members updated: the new state is the specified one |
| `Rings.Ring.RemoveNode` | backend/pkg/hash/ring.go:66-92 | an unknown member is an error and changes nothing; otherwise the new state is the specified one |
| `Rings.Ring.FilterPoints` | backend/pkg/hash/ring.go:78-88 | the filter that overwrites the array it reads keeps exactly the other points in order |
| `Rings.Ring.Search` | backend/pkg/hash/ring.go:154-160 | binary search with wrap: reading on from the index is the clockwise order |
| `Rings.Ring.GetNode` | backend/pkg/hash/ring.go:95-103 | the owner, or an error on an empty ring |
| `Rings.Ring.Collect` | backend/pkg/hash/ring.go:118-130 | the loop ends within one lap and returns the first distinct nodes along it |
| `Rings.Ring.GetNSuccessors` | backend/pkg/hash/ring.go:107-131 | the replica list, or an error without members; required of the caller is only what LoopEndsIff shows the loop needs to end |
| `Causality.CompareIsCausality` | backend/pkg/versioning/vector_clock.go:28-84 | in every run of writes and receptions, as long as no node has written 2^64 times up to the two versions, comparing them gives Before exactly when the first happened before the second, Concurrent exactly when neither did, Equal only for the same version |
| `Causality.CausalityIffCountersSuffice` | backend/pkg/versioning/vector_clock.go:28-84 | comparison decides causality between all versions of a run if and only if no node writes 2^64 times |
| `Causality.WrapHidesCause` | backend/pkg/versioning/vector_clock.go:28-32 | the first write that wraps a counter is seen as coming after none of the writer's earlier ones |
| `Causality.KnownIsHappensBefore` | backend/pkg/versioning/vector_clock.go:28-44 | what a node knows after an event is the event and everything that happened before it |
| `Causality.CounterCountsWrites` | backend/pkg/versioning/vector_clock.go:28-44 | each counter is the number of known writes of that node |
| `Causality.LeqIffKnown` | backend/pkg/versioning/vector_clock.go:52-84 | a version clock is below another exactly when the version is known where the other was written |
| `VectorClocks.MergeIsLeastUpperBound` | backend/pkg/versioning/vector_clock.go:36-44 | a clock is above the merge exactly when it is above both |
| `VectorClocks.IncrementMovesForwardIff` | backend/pkg/versioning/vector_clock.go:28-32 | incrementing moves forward exactly when the 64-bit counter does not wrap |
| `VectorClocks.BeforeTransitive` | backend/pkg/versioning/vector_clock.go:52-84 | Before is transitive |
| `VectorClocks.RelationSwaps` | backend/pkg/versioning/vector_clock.go:52-84 | swapping the clocks swaps Before and After and keeps Concurrent and Equal |
| `VectorClocks.Compare` | backend/pkg/versioning/vector_clock.go:52-84 | the two flags set over both key sets decide the pointwise order with missing entries as zero |
| `VectorClocks.Merge` | backend/pkg/versioning/vector_clock.go:36-44 | the loop over the other clock computes the pointwise maximum |
| `VectorClocks.Increment` | backend/pkg/versioning/vector_clock.go:28-32 | one counter goes up by one, modulo 2^64, in a copy |
| `VectorClocks.Copy` | backend/pkg/versioning/vector_clock.go:115-121 | an equal clock |
| `Conflicts.DetectPartitions` | backend/pkg/versioning/conflict.go:32-74 | the winner is a head with the largest timestamp, siblings are the other heads and not causally related to it, every version left out is Before some head, and nothing is lost or repeated among distinct objects |
| `Conflicts.SiblingsConcurrentIff` | backend/pkg/versioning/conflict.go:61-73 | every sibling is Concurrent with the winner if and only if no other listed version has a clock Equal to the winner's |
| `Conflicts.EqualClocksAreSiblings` | backend/pkg/versioning/conflict.go:54-73 | counter-example to the comment: two distinct versions with equal clocks are returned as winner and sibling |
| `Conflicts.EqualToHead` | backend/pkg/versioning/conflict.go:40-59 | a listed version with the clock of a head is itself a head |
| `Conflicts.DiscardedIsCovered` | backend/pkg/versioning/conflict.go:40-59 | each dominated version is superseded by an undominated one, through a chain of any length |
| `Conflicts.HeadsNotEmpty` | backend/pkg/versioning/conflict.go:54-67 | a non-empty list has a head, so the resolution is never given an empty list |
| `Conflicts.HeadsAreIncomparable` | backend/pkg/versioning/conflict.go:54-59 | no head is Before or After another |
| `Conflicts.NewestIsFirstLargest` | backend/pkg/versioning/conflict.go:77-85 | the resolution picks the largest timestamp, the earliest listed on ties |
| `Conflicts.Detect` | backend/pkg/versioning/conflict.go:32-74 | nothing for no versions; otherwise the newest head and the other heads, on every shortcut |
| `Conflicts.FindHeads` | backend/pkg/versioning/conflict.go:40-59 | the flag array marks exactly the dominated versions |
| `Conflicts.FindDominator` | backend/pkg/versioning/conflict.go:43-51 | the inner loop finds out whether another version supersedes this one |
| `Conflicts.FindSiblings` | backend/pkg/versioning/conflict.go:68-72 | the heads other than the winner object |
| `Conflicts.LwwResolve` | backend/pkg/versioning/conflict.go:77-85 | the loop computes the newest version |
| `Conflicts.VersionedValue.constructor` | backend/pkg/versioning/conflict.go:14-21 | the clock is the given one incremented for the node |
| `MerkleMeaning.EqualRootsMeanEqualData` | backend/pkg/sync/merkle.go:33-62 | without zero bytes and repeated keys, and with no collision between the two strings hashed at any one place, two built trees have equal roots if and only if the entries form the same map |
| `MerkleMeaning.RootsEqualIffBytes` | backend/pkg/sync/merkle.go:33-131 | equal roots if and only if every bucket was hashed from the same bytes |
| `MerkleMeaning.OrderDoesNotMatter` | backend/pkg/sync/merkle.go:33-62 | the tree depends only on the map of entries, for every hash function |
| `MerkleMeaning.BytesDetermineItems` | backend/pkg/sync/merkle.go:112-124 | the bytes hashed for a bucket determine its entries when there are no zero bytes |
| `MerkleMeaning.NoPairCollisions` | backend/pkg/sync/merkle.go:126-131 | without collisions at any one place, equal inner nodes of the two trees have equal children |
| `MerkleMeaning.ZeroByteAmbiguity` | backend/pkg/sync/merkle.go:117-122 | a zero byte in a value lets one entry hash from the same bytes as two |
| `MerkleMeaning.ZeroByteHidesDifference` | backend/pkg/sync/merkle.go:33-124 | hence different maps with equal roots, whatever the hash function |
| `Merkle.PrunedEqualsFull` | backend/pkg/sync/merkle.go:66-92 | the pruned descent reports the same list as comparing all buckets one by one |
| `Merkle.DiffBuckets` | backend/pkg/sync/merkle.go:66-73 | strictly ascending, exactly the differing buckets all of whose ancestors differ, with no assumption about collisions |
| `Merkle.DiffSubtree` | backend/pkg/sync/merkle.go:76-92 | the recursion appends exactly what the subtree contributes, and ends |
| `Merkle.FoundIsReached` | backend/pkg/sync/merkle.go:76-92 | a bucket is reported exactly when it differs and every node on its path does |
| `Merkle.FoundAscends` | backend/pkg/sync/merkle.go:85-91 | the reported buckets ascend strictly and lie below the node |
| `Merkle.DifferencePropagates` | backend/pkg/sync/merkle.go:57-59 | without pair collisions a difference reaches the root |
| `Merkle.FullComparisonIs` | backend/pkg/sync/merkle.go:64-66 | the reference list: exactly the differing buckets, ascending |
| `Merkle.Build` | backend/pkg/sync/merkle.go:33-62 | a heap-shaped tree over the bucket hashes of the entries as sorted, which is also the order the caller's slice is left in |
| `Merkle.SortEntries` | backend/pkg/sync/merkle.go:37 | the caller's entries are sorted by key in place, losing none |
| `Merkle.BuildNodes` | backend/pkg/sync/merkle.go:49-60 | every inner node is the hash of its two children and every leaf its bucket |
| `Merkle.Distribute` | backend/pkg/sync/merkle.go:39-44 | each bucket gets exactly its entries, in key order |
| `Merkle.HexInjective` | backend/pkg/sync/merkle.go:123 | hex encoding loses nothing |
| `Merkle.HexDigits` | backend/pkg/sync/merkle.go:123-130 | each byte of a digest is written as two lower-case hexadecimal digits, the high one first |
| `Merkle.BucketIndex` | backend/pkg/sync/merkle.go:104-109 | an index below the number of buckets |
| `Merkle.BucketsShared` | backend/pkg/sync/merkle.go:104-109 | two keys share a bucket exactly if their digests agree on the second byte and the low two bits of the first |
| `Coordination.GetSeesPut` | backend/pkg/replication/coordinator.go:70-200 | a Get after a Put that returned Ok, at levels whose quorums together exceed the replicas: with its quorum of answers it succeeds, with a timestamp no smaller than the least stored by the replicas whose acknowledgements Put had heard when it returned, for every interleaving and reply order without deletes of the key |
| `Coordination.SomeAnswerIsNew` | backend/pkg/replication/coordinator.go:101-200 | one of the answers comes from a replica that had acknowledged and is at least as new as what it stored |
| `Coordination.HeardIs` | backend/pkg/replication/coordinator.go:101-112 | Put returns at exactly the shortest prefix of arrivals with enough acknowledgements |
| `Coordination.Coordinator.GetReplicas` | backend/pkg/replication/coordinator.go:242-252 | distinct nodes, the first clockwise; no more than the replication factor and the members, and as many as one of the two; the node itself on an empty ring |
| `Quorums.ReadHearsWriter` | backend/pkg/replication/coordinator.go:70-200 | if acknowledging and responding replicas together exceed all replicas, the Get hears from an acknowledging replica, which answers with a timestamp no smaller than the one it stored |
| `Quorums.LevelsOverlapIff` | backend/pkg/replication/coordinator.go:258-274 | exactly which pairs of levels always overlap, for every number of replicas |
| `Quorums.AlwaysOverlapIff` | backend/pkg/replication/coordinator.go:258-274 | every write set meets every read set if and only if their sizes add up to more than the replicas |
| `Quorums.Overlap` | backend/pkg/replication/coordinator.go:258-274 | two sets too large to fit side by side share a replica |
| `Quorums.QuorumIsMajority` | backend/pkg/replication/coordinator.go:242-274 | on the replicas used, Quorum is the least strict majority and All is all, also in small clusters |
| `Quorums.ReplicaCountIs` | backend/pkg/replication/coordinator.go:242-250 | the number of replicas is the lesser of the factor and the members, and one without members |
| `Coordination.PutHasWAcksIff` | backend/pkg/replication/coordinator.go:68-119 | every Put that returns Ok has the configured number of acknowledgements if and only if the level alone asks for as many; otherwise a Put with just its quorum returns Ok |
| `Coordination.GetHasRAnswersIff` | backend/pkg/replication/coordinator.go:121-200 | the same for the answers of a successful Get |
| `Quorums.HeldAfterStore` | backend/pkg/storage/engine.go:131-142 | a replica that stored a value and did not delete it holds one at least as new, over every later history |
| `Coordination.AckedOrHinted` | backend/pkg/replication/coordinator.go:80-99 | once all writers of a Put have finished, each remote replica has acknowledged and gained no hint, or failed and gained exactly one behind its others |
| `Coordination.SelfGainsNoHint` | backend/pkg/replication/coordinator.go:84-86 | the coordinator's own write leaves no hint, whether it succeeds or not |
| `Coordination.PutDecides` | backend/pkg/replication/coordinator.go:101-118 | a Put returns Ok exactly if as many writers acknowledged as the level asks for, and too few replicas otherwise |
| `Coordination.AwaitAcks` | backend/pkg/replication/coordinator.go:101-118 | success if and only if enough writers succeed, in any arrival order, at the first arrival that completes the quorum |
| `Coordination.Coordinator.RunWriters` | backend/pkg/replication/coordinator.go:80-99 | the writers leave exactly the hints of the failed remote writes |
| `Coordination.Coordinator.Put` | backend/pkg/replication/coordinator.go:70-119 | success or too few replicas by the number of acknowledgements; the hints left behind |
| `Coordination.Get` | backend/pkg/replication/coordinator.go:123-200 | the result that GetErrors and GetChooses describe; only a successful Get repairs the replicas it heard from |
| `Coordination.GetErrors` | backend/pkg/replication/coordinator.go:183-191 | which error Get returns exactly when: with no answer that found the key the last error heard, or not found if there was none; with one, too few answers if they are fewer than the quorum |
| `Coordination.GetChooses` | backend/pkg/replication/coordinator.go:193-199 | a successful Get returns the newest value found, the first heard on ties |
| `Coordination.Gather` | backend/pkg/replication/coordinator.go:169-178 | the loop gathers every answer and the error heard last |
| `Coordination.FilterFound` | backend/pkg/replication/coordinator.go:301-309 | the loop keeps exactly the answers that found the key |
| `Coordination.LatestValue` | backend/pkg/replication/coordinator.go:311-319 | the loop computes the newest answer |
| `Coordination.LatestIsLargest` | backend/pkg/replication/coordinator.go:311-319 | the newest answer has the largest timestamp, the earliest on ties |
| `Coordination.RepairConvergesIff` | backend/pkg/replication/coordinator.go:181-197 | after a repair all responders hold the chosen data if and only if the answers tied at the largest timestamp agreed |
| `Coordination.ReadRepair` | backend/pkg/replication/coordinator.go:277-299 | the loop writes exactly the repair writes, in order |
| `Coordination.RepairedCell` | backend/pkg/replication/coordinator.go:277-299 | what each replica holds afterwards: the chosen data with its own stamp if it answered, was missing the key or older, and accepted; otherwise what it held |
| `Coordination.SilentReplicaUntouched` | backend/pkg/replication/coordinator.go:277-299 | a replica that did not answer is never written |
| `Coordination.DeletedStaysIff` | backend/pkg/replication/coordinator.go:123-299 | a replica that deleted the key stays without it after a Get if and only if it did not answer, or no answer found the key, or there were too few answers, or its repair write failed; otherwise it ends up with the data of a responder that had not deleted it |
| `Quorums.NothingAfterErase` | backend/pkg/replication/coordinator.go:139-144 | a replica that erased the key and did not write it again answers not found |
| `HintRuns.HintsAreAccountedFor` | backend/pkg/replication/hints.go:51-116 | over every interleaving of Store with the locked sections and the single sends of Deliver: each hint is exactly one of pending, delivered, expired, or lost to a delivery during which it arrived, and pending hints keep their order |
| `HintRuns.ConservedIffUndisturbed` | backend/pkg/replication/hints.go:76-116 | over every run: pending, delivered and expired hints add up to those stored if and only if no hint was stored while a delivery to its node was under way that finished later in the run |
| `HintRuns.UninterruptedDelivery` | backend/pkg/replication/hints.go:76-116 | the steps of a delivery with nothing in between do what Deliver does |
| `HintRuns.ArrivalIsLost` | backend/pkg/replication/hints.go:76-116 | in every reachable state with a delivery under way, a hint stored for that node is lost when the delivery finishes, whatever happens in between |
| `HintRuns.RecordsAreUndelivered` | backend/pkg/replication/hints.go:63-106 | with distinct record keys the persisted records are, in the middle of deliveries too, exactly the hints stored and not delivered |
| `HintRuns.DistinctHintsHaveUniqueKeys` | backend/pkg/replication/hints.go:64 | hints for names without colons that differ in node, key or time have distinct record keys |
| `HintRuns.SendDecides` | backend/pkg/replication/hints.go:88-106 | what the clock and the answer do to the next hint: expired after three hours, else delivered with its record gone if accepted, else still open |
| `HintRuns.StepKeepsInv` | backend/pkg/replication/hints.go:51-116 | each step keeps the balance, the order and the bookkeeping of arrivals |
| `Hints.OutcomesPartition` | backend/pkg/replication/hints.go:87-107 | a delivery splits the hints into expired, delivered and failed, losing none |
| `Hints.WithKeepsOrder` | backend/pkg/replication/hints.go:87-101 | the failed hints stay in their order |
| `Hints.HintedHandoff.Store` | backend/pkg/replication/hints.go:51-72 | one more pending hint at the end for the node, and its record |
| `Hints.HintedHandoff.SendAll` | backend/pkg/replication/hints.go:87-107 | the sending loop keeps exactly the failed hints and removes exactly the delivered records |
| `Hints.HintedHandoff.Deliver` | backend/pkg/replication/hints.go:76-116 | pending afterwards are, in order, exactly the hints refused within three hours of their creation; the records gone are exactly those of the hints accepted within that time; other nodes are untouched |
| `Hints.DeliveryDecides` | backend/pkg/replication/hints.go:87-107 | the same for the sending loop, by the clock and the answers alone |
| `Hints.RecordKeyTells` | backend/pkg/replication/hints.go:64 | node and key names without colons make a record key tell node, key and time |
| `Hints.ColonConfusesKeys` | backend/pkg/replication/hints.go:64 | with a colon in a name two different hints can share a record key |

## Left out

- EngineRuns.RecoveryIsExact: being clean is proved necessary one step at a time (`RecoveredIffClean`, `FailedSyncRecoversIff`, `RotationRecoversIff`); once several writes have followed a torn record, later ones may happen to be read in step again, and no condition is given for that.
- EngineRuns.CrashInAppendIsAtomic: appends that rotate the log or follow a torn record are excluded; `RotationRecoversIff` and `TornTailLosesWrite` say what a restart yields when they complete.
- EngineLosses.TornTailLosesWrite: says nothing about a write whose timestamp equals the one read at the torn record, where the completed torn record may by chance be the write itself.
- EngineGaps.RotationRecoversIff: old offsets that fall inside a record of the new log are left out, because replay then reads arbitrary bytes as headers.
- EngineRaces.RacesRebuildIff: records are counted instead of bytes (`RebuiltOnDisk` connects the two), and the log is not rotated.
- HintRuns.RecordsAreUndelivered: persisted records are a map from record key to hint; the JSON text and failing local writes are not modelled.
- Coordination.GetSeesPut: claims neither linearizability nor that a delete is visible; each replica stamps its own writes and the Put may still be running elsewhere.
- Coordination.Coordinator.Put: the replica list and the arrivals of the writers are inputs; the hints are those left after the slowest writer has finished.
- Coordination.Get: the results of the replicas are an input, and the repair runs with no other operation in between.
- Wal.WAL.Append: a write that fails after part of the record, with the process going on, is not modelled; the size field would then fall behind the file.
- Wal.WAL.RotateIfNeeded: errors of closing, renaming and opening the file are not modelled.
- Snapshots with negative creation times.
- Huge allocations in Replay when a misread length is close to 2^33 bytes.
- The B-tree, gob, JSON, fsync and rename: a sorted sequence, the identity and atomic file steps stand for them.
- The coordinator's Delete, whose counting loop repeats Put's without hints; PendingCount, TotalPending, Nodes, BucketKeyRange and the JSON form of clocks: easy members.
- Anti-entropy over the network, cluster membership, health checks and the consistency tracker: plumbing or counters.
- HTTP, gRPC, command line, metrics, configuration and logging, apart from the range of the prefix scan.
- Timeouts, and the periodic loops that call takeSnapshot and Deliver: these are steps that may happen at any time.
- Load balance of the ring and other probabilistic claims.
