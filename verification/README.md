# Vault: a verified model

Vault is a replicated object store: storage nodes keep object versions as directories of chunk
files, and a control plane commits versions, places and repairs replicas, migrates them, reconciles
nodes that come back, checks integrity and watches heartbeats. This project models that logic in Dafny and
proves what it promises over every input, every interleaving and every run.
`dafny verify dfyconfig.toml` checks all of it.

## How it is laid out

**A storage node.** `ChunkLayout` and `ObjectDirectory` say what a stored object looks like,
`ChunkWriter` holds the two write loops, `ObjectVerifier` the verifier and reader, and
`ObjectIntegrity` joins them: write, restart, verify, read; and what tampering shows. `StorageEngine` is
the capacity accounting: a class whose methods are the stretches that nothing interrupts, so that
`Run` covers every interleaving of writers and deletes (`Sums` adds up maps). The synchronous write
keeps the lock throughout, which is one of those interleavings.

**The control plane.** `Names` has canonical names and addresses, `Tables` the rows, the state tables and `Consistent`, what every operation keeps.
`Metadata` proves it on values and `MetadataManager` is the class that does it. Every operation of the
class also ensures `OneStep`: rows stay where they are, FAILED is never left, and HEALTHY is entered only from
COPYING or REPAIRING. The invariant of the class includes the log of commits and `Follows`, what never turns back since a snapshot was taken.
`Cluster` is the storage nodes as the managers see them: each call may succeed, fail, fail after
taking effect, or never return. `Safe` says that every HEALTHY row names a node that holds bytes of
the version's size and checksum. `Replication`, `Repair`, `Rebalance` with `Drain` (on `Targets` and
`Jobs`), `Recovery`, `Integrity` and `Health` are the managers, `Steps` names their calls and the effect of each, and
`ControlPlane` runs any sequence of them, each one a step. `Traces` describes what a run leads through, one metadata operation or node call at
a time, and `GoodCopies` counts the good copies along it. `LostDelete` is a history from nothing to the one unsafe state.

**On their own.** `RateLimiter` is the sliding window against the count over the whole history, and
`Placement` the filter-sort-limit query against the unique list of best nodes.

How a node call goes is an input, so every theorem holds for every behaviour of the nodes. The hash
is a parameter that yields lower-case digests; injectivity is assumed only where it is named.
Times are integers in the control plane and reals in the rate limiter.

## Where the code does not keep a promise

- A source DELETE that takes effect but reports failure leaves a HEALTHY row without bytes. `Rebalance.RunJob`
  has the exact condition on tables, bytes and calls, `LostDelete.DeleteLost` a history that gets there; even then
  min(h, RF) good copies remain at every point.
- `mark_replica_healthy` believes its caller: a caller that marks a row over wrong bytes breaks safety, and no other
  call on replica rows can: `ControlPlane.PerformRows`. The managers mark only what they have verified.
- A restart deletes every published version whose id looks like ".*.upload", and does not count other objects
  whose version id ends in ".upload", although both are valid ids: `ObjectIntegrity.WriteVerifyRead` and
  `ObjectIntegrity.RestartDestroys`, `StorageEngine.RescanMisses`.
- A delete between rename and accounting can leave `used` too high, never too low:
  `StorageEngine.DeleteBeforeAccounting`. `StorageEngine.StorageEngine.Run` has the exact condition on the deletes
  of the schedule.
- An intact object of more than 1,000,000 chunks is always reported invalid: `ObjectIntegrity.OversizedIsNeverSound`.
- Documentation says that a recovered node stays RECOVERING until reconciled. It does exactly when no scan
  suspects it meanwhile: `Health.StaysRecovering` and `Health.HealthyUnreconciled`.
- A commit makes a DELETING or DELETED object ACTIVE again, against the object state table:
  `MetadataManager.CommitAfterDeletion`. The table is kept exactly when no commit succeeds on an object that is
  not ACTIVE: `ControlPlane.TableKeptExactly`.

## Model

| member | source | states |
|---|---|---|
| `ChunkLayout.SplitSound` | storage/storage_engine.py:131-180 | Cutting bytes into chunks is lossless: the concatenation gives the bytes back, every chunk but the last is full and the last is not empty |
| `ChunkLayout.CanonicalIsSplit` | storage/storage_engine.py:131-180 | Any list of chunks with that shape is the one and only split of its bytes, so piece boundaries cannot matter |
| `ChunkLayout.CanonicalCount` | storage/storage_engine.py:181-190 | The number of chunks is the size divided by the chunk size, rounded up; the last chunk has what remains |
| `ChunkLayout.ExpectedSizesMatch` | storage/storage_engine.py:716-735 | The size the verifier expects of chunk i is the size the writer gave it |
| `ChunkLayout.ChunkNameInjective` | storage/storage_engine.py:745-747 | Two indexes never share a file name |
| `ChunkLayout.ChunkNameRoundTrip` | storage/storage_engine.py:737-747 | Below 1,000,000 a "chunk-" entry parses to an index exactly when it is the name written for that index |
| `ChunkLayout.WideNamesDoNotParse` | storage/storage_engine.py:737-747 | Names written for indexes from 1,000,000 on do not parse back |
| `ChunkWriter.StreamPiece` | storage/storage_engine.py:132-171 | One incoming piece, of any length, is appended in full; closed files are full chunks |
| `ChunkWriter.WriteStream` | storage/storage_engine.py:131-190 | The asynchronous loop ends for every sequence of pieces, empty ones included, and leaves exactly the directory of the concatenation: chunk files, digests, count, size, checksum |
| `ChunkWriter.WriteIterable` | storage/storage_engine.py:488-530 | The buffering loop leaves the same directory for the same pieces |
| `ChunkWriter.CloseChunks` | storage/storage_engine.py:173-180 | Full chunks plus a short rest are the split of their bytes |
| `ObjectVerifier.ReadChunk` | storage/storage_engine.py:388-397 | Reading a file block by block gives its content whatever the block size |
| `ObjectVerifier.CheckMetadata` | storage/storage_engine.py:273-320 | No error is collected exactly when ids, sizes, count and digests of the metadata are usable and agree |
| `ObjectVerifier.CheckEntries` | storage/storage_engine.py:337-344 | Exactly the "chunk-" entries that are not expected are reported, and exactly their indexes are marked |
| `ObjectVerifier.CheckChunks` | storage/storage_engine.py:346-411 | The bad chunks are exactly those missing, of the wrong size or of the wrong digest; the payload is the concatenation of what is there |
| `ObjectVerifier.Verify` | storage/storage_engine.py:248-431 | Valid exactly when metadata, entries, chunks, size and checksum all agree; `corrupt_chunks` is exactly the set of bad or unexpected indexes; missing and unreadable metadata have their own answers |
| `ObjectVerifier.ReadBytes` | storage/storage_engine.py:217-246 | The payload if the metadata is readable and every chunk file exists, and the right error otherwise |
| `ObjectIntegrity.TamperEvident` | storage/storage_engine.py:248-431 | With an injective hash and untouched metadata, verification is valid exactly when the "chunk-" entries are the ones written, and a chunk is reported exactly when its file is missing or altered |
| `ObjectIntegrity.OversizedIsNeverSound` | storage/storage_engine.py:293-295 | An intact object is valid exactly when it has at most 1,000,000 chunks |
| `ObjectIntegrity.WriteVerifyRead` | storage/storage_engine.py:58-246 | Write any pieces, restart with any chunk size, verify and read: for every valid id that is free, the bytes come back exactly when the version id does not look like that of an unfinished upload, and otherwise the object is gone; the verification is valid, with true size and checksum, exactly when there are at most 1,000,000 chunks; all else that was stored fares the same way |
| `ObjectIntegrity.Restart` | storage/storage_engine.py:683-694 | The clean-up loop keeps exactly the directories that do not match ".*.upload" |
| `ObjectIntegrity.RestartDestroys` | storage/storage_engine.py:690-694 | A version written under the valid id ".v.upload" is not found after a restart |
| `ObjectIntegrity.UntouchedIsSound` | storage/storage_engine.py:248-431 | Untouched chunk entries verify, and concatenate to the object |
| `ObjectIntegrity.SoundIsUntouched` | storage/storage_engine.py:248-431 | What verifies is untouched, if the hash is injective |
| `ObjectIntegrity.ExpectedNames` | storage/storage_engine.py:337-344 | An entry is expected exactly when it is the name of an index below the count |
| `StorageEngine.StorageEngine.constructor` | storage/storage_engine.py:58-81 | A start removes upload leftovers and counts the published bytes, except those under version ids ending in ".upload"; it counts all of them exactly when those objects are empty |
| `StorageEngine.StorageEngine.Begin` | storage/storage_engine.py:113-118 | Claims a key that is valid, not in flight and not stored |
| `StorageEngine.StorageEngine.Receive` | storage/storage_engine.py:137-140 | Reserves the whole piece or fails the writer, exactly by the free space; an accepted piece is appended to what was received |
| `StorageEngine.StorageEngine.WritePart` | storage/storage_engine.py:142-163 | Reserved bytes move to the staging directory |
| `StorageEngine.StorageEngine.Publish` | storage/storage_engine.py:191-192 | The rename always finds the final name free, and publishes what was received |
| `StorageEngine.StorageEngine.Account` | storage/storage_engine.py:194-198 | The reservation turns into used bytes |
| `StorageEngine.StorageEngine.Release` | storage/storage_engine.py:201-215 | A failed writer gives back its whole reservation |
| `StorageEngine.StorageEngine.Delete` | storage/storage_engine.py:433-444 | Takes the payload off `used`, clamped at zero; what the clamp swallows is the overshoot |
| `StorageEngine.StorageEngine.Perform` | storage/storage_engine.py:106-215 | Each step of a schedule takes the state to the one and only next state, and records exactly whether its delete came before the accounting and how much the clamp swallowed |
| `StorageEngine.StorageEngine.Run` | storage/storage_engine.py:106-215 | For every interleaving of writers and deletes, with the state before and after every step: at each of them used plus reserved is at most the capacity (or the bytes found at start-up, if more), and published plus staged bytes are at most used plus reserved plus what start-up missed. A publication of a complete upload stores exactly the accepted pieces since its begin, in order; a delete removes the object; nothing else touches it. At rest, with nothing missed and no debt at the start, `used` is what a restart would count exactly when no delete of the schedule takes off more than `used` holds and every object under a ".upload" version id is empty; and no delete does so if none hits an object between its rename and its accounting |
| `StorageEngine.ContentKept` | storage/storage_engine.py:131-192 | Over every run, what a key holds is read off the schedule: the concatenation of the pieces that the free space let in, in order, once all of them are written and the upload is published; gone after a delete; otherwise as before |
| `StorageEngine.RescanMisses` | storage/storage_engine.py:664-672 | The start-up scan never counts too much and misses exactly non-empty objects under ".upload" version ids |
| `StorageEngine.PayloadIsChunkBytes` | storage/storage_engine.py:674-681 | Chunk file sizes add up to the payload size |
| `StorageEngine.DeleteBeforeAccounting` | storage/storage_engine.py:191-197 | For every non-empty object: a delete between rename and accounting leaves `used` too high for good |
| `RateLimiter.SlidingWindowRateLimiter.Allow` | common/rate_limit.py:37-57 | A client that was not evicted within the last window is admitted exactly when fewer than `limit` of its requests were admitted in the window; on refusal a wait is long enough exactly when it is at least `retry_after`; the table never exceeds `max_clients`, and only the oldest entry, never the caller, is evicted |
| `RateLimiter.SlidingWindowRateLimiter.EvictOne` | common/rate_limit.py:59-66 | The oldest entry goes, since no deque is ever empty |
| `RateLimiter.RetryIsLeast` | common/rate_limit.py:49-52 | The delay from the oldest event is the least number of whole seconds after which the whole history admits the next request |
| `RateLimiter.DequeCounts` | common/rate_limit.py:43-48 | The trimmed deque counts the admitted requests of the window over the whole history |
| `RateLimiter.CutOff` | common/rate_limit.py:59-66 | What an eviction cuts off has left every window that begins after it, so counts are exact again one window later |
| `Placement.SelectIsTop` | placement/manager.py:71-125 | For every node table in any row order, the result is the list of the `factor` best eligible nodes, or an error exactly when fewer are eligible: HEALTHY, with room and without a row of the version, most free space first, then by id |
| `Placement.TopIsUnique` | placement/manager.py:71-125 | There is only one such list |
| `Placement.SelectIgnoresRowOrder` | placement/manager.py:71-125 | Row order does not matter |
| `Placement.BestTarget` | repair/manager.py:105-133 | The limit-1 query finds the best eligible node, with the most free space and then the smallest id, or none exactly when there is none |
| `Placement.TargetHeadsSelection` | rebalance/manager.py:97-131 | The repair and drain target is the head of the placement order |
| `Names.NormalizeName` | common/validation.py:7-20 | Canonical names have no blank ends, 1 to 255 characters and no control characters; a canonical name is itself |
| `Names.StripIsCanonical` | common/validation.py:11-11 | Stripping leaves no blank at either end, and leaves alone what has none |
| `Metadata.ValidateChecksum` | metadata/manager.py:27-33 | Digests are normalised to lower case, and a lower-case digest is itself |
| `MetadataManager.MetadataManager.CreateObject` | metadata/manager.py:63-74 | A new ACTIVE object without a version under the canonical name, exactly unless the name has none or is taken; names stay distinct |
| `MetadataManager.MetadataManager.CreateVersion` | metadata/manager.py:116-163 | The exact condition of success; the new number is one above every other number of the object |
| `MetadataManager.MetadataManager.CommitVersion` | metadata/manager.py:165-201 | Succeeds exactly when the version is PREPARING, the expectation holds and its number is above the current one; then it is current, COMMITTED and logged, and the object ACTIVE |
| `Metadata.CommitFollowsTable` | metadata/manager.py:194-199 | A commit follows the object state table exactly when the object was ACTIVE |
| `MetadataManager.CommitAfterDeletion` | metadata/manager.py:165-201 | A reachable history in which a commit brings a DELETED object back |
| `MetadataManager.MetadataManager.FailVersion` | metadata/manager.py:225-239 | Any version but a COMMITTED one becomes FAILED |
| `MetadataManager.MetadataManager.TransitionObjectState` | metadata/manager.py:203-223 | Exactly the edges of the object table |
| `MetadataManager.MetadataManager.TransitionNodeState` | metadata/manager.py:241-265 | Exactly the edges of the node table |
| `MetadataManager.MetadataManager.RegisterNode` | metadata/manager.py:595-647 | The node that already has the canonical address, unless another id is asked for; else a new node with the given id or a generated one, in the given state; addresses stay distinct |
| `MetadataManager.MetadataManager.ProcessNodeHeartbeat` | metadata/manager.py:649-704 | Counts only if strictly newer; used never exceeds capacity; otherwise nothing changes |
| `MetadataManager.MetadataManager.UpdateNodeHeartbeat` | metadata/manager.py:706-728 | Only an accepted heartbeat moves the node to the state it asks for, along the node table, and it stays accepted when that state is out of reach |
| `MetadataManager.MetadataManager.CreateReplica` | metadata/manager.py:389-427 | One PENDING row per version and node |
| `MetadataManager.MetadataManager.CreateReplicas` | metadata/manager.py:267-322 | The whole batch of rows or nothing |
| `MetadataManager.MetadataManager.SetReplicaState` | metadata/manager.py:429-472 | Exactly the edges of the replica table, which never lead to HEALTHY or out of FAILED |
| `MetadataManager.MetadataManager.SetReplicaStates` | metadata/manager.py:324-387 | Succeeds exactly when every single transition would, with the rows that making them one by one leaves, else changes nothing |
| `Metadata.SetEachStep` | metadata/manager.py:324-387 | Each single transition is still possible after those before it |
| `Metadata.SetEachContent` | metadata/manager.py:324-387 | The batch sets exactly the named rows |
| `MetadataManager.MetadataManager.RecordReplicaVerification` | metadata/manager.py:474-519 | Succeeds exactly on a matching measurement of a HEALTHY row |
| `MetadataManager.MetadataManager.MarkReplicaHealthy` | metadata/manager.py:521-570 | HEALTHY is entered exactly from COPYING or REPAIRING with the version's checksum and size |
| `MetadataManager.MetadataManager.RemoveReplica` | metadata/manager.py:572-593 | Only HEALTHY, CORRUPTED, STALE and UNAVAILABLE rows can be removed |
| `Metadata.CommitKeeps` | metadata/manager.py:165-201 | After a commit the current version is still the object's own COMMITTED version with the largest number, and other objects are not affected |
| `Metadata.NewVersionKeeps` | metadata/manager.py:116-163 | Version numbers stay distinct |
| `Metadata.CommitLogged` | metadata/manager.py:165-201 | The log of commits stays in order and complete: every COMMITTED version is in it, and nothing else |
| `Metadata.OneCommitPerExpectation` | metadata/manager.py:106-114 | Over a whole run the numbers committed for an object strictly rise, and at most one commit succeeds with a given expected version |
| `Metadata.FollowsOn` | metadata/manager.py:429-593 | What never turns back (FAILED rows, COMMITTED and FAILED versions, version contents, heartbeat times, REMOVED nodes, current numbers) composes over any number of operations |
| `Replication.WriteOne` | replication/manager.py:134-188 | A write is verified exactly when the call succeeds, or finds an object already there, and the node then holds bytes of the version's size and checksum; an object that is already there stays; an exception escapes exactly when a call never returns |
| `Replication.WritesAreIndependent` | replication/manager.py:238-248 | Writes to distinct nodes do not affect each other, so concurrent writes have the results of sequential ones |
| `Replication.WriteAll` | replication/manager.py:238-248 | Every write has the result it has on its own, and verified replicas are still intact when all are done |
| `Replication.MarkAll` | replication/manager.py:250-280 | Every row of the batch ends HEALTHY or FAILED as its own write went; no other row changes |
| `Replication.Partition` | replication/manager.py:285-286 | Selected nodes split into verified and failed, without repetition |
| `Replication.ReplicateVersion` | replication/manager.py:190-308 | All outcomes: refused with nothing changed; or exactly the `factor` best nodes, rows settled, bytes written there and nowhere else, and then COMMITTED and current exactly when nothing unexpected happened, at least `quorum` of the new rows are HEALTHY and the commit is allowed; FAILED exactly when fewer are with nothing unexpected; otherwise still PREPARING |
| `Replication.QuorumMeans` | replication/manager.py:282-299 | Verified writes are HEALTHY rows, one for one, so it is the number of HEALTHY rows in the tables that decides between COMMITTED and FAILED |
| `Repair.CreateJob` | repair/manager.py:149-195 | Returns the active job of the target or a new one, with the exact error condition |
| `Repair.TargetFor` | repair/manager.py:85-133 | The preferred row's own node if it can take it, else the best eligible node |
| `Repair.ScheduleForVersion` | repair/manager.py:197-252 | No job exactly when enough rows are HEALTHY and none is preferred; INSUFFICIENT_REPLICAS exactly when a repair is due, has a source, and neither the preferred row's own node nor any eligible node can take it; otherwise an active job for that node, the one there is or exactly if there is none a new one from a HEALTHY row, or the right error with nothing changed |
| `Repair.TargetRow` | repair/manager.py:254-292 | The target row is brought to REPAIRING, exactly unless it is HEALTHY, COPYING or FAILED |
| `Targets.Transfer` | repair/manager.py:377-410 | Clear, upload, verify: succeeds exactly when every call does and the bytes are right, and dies exactly when a call it gets to never returns; every state on the way is one call after the one before, and differs only in the target's bytes |
| `Repair.RunJob` | repair/manager.py:300-447 | Only the job, the target row and the target's bytes change; what the run comes to (not run, rejected, succeeded, a counted failure, or a crash) is stated exactly from the tables, the bytes and the calls; every attempt counts one, and after a handled error the job is PENDING exactly while attempts are left and FAILED otherwise; the target becomes HEALTHY exactly on success, with the right bytes; safety is kept |
| `Repair.OutcomeMeans` | repair/manager.py:300-447 | The outcomes written out on tables, bytes and calls: when a job is not run again, when it is rejected, when it succeeds and when it crashes |
| `Repair.RepairVersionUntilHealthy` | repair/manager.py:449-477 | With no repair job of the version active, it returns exactly when enough rows are HEALTHY, or there is a source, enough nodes are eligible, and every run that is needed meets good calls and a source on right bytes; it goes through the best eligible nodes in order, until a run fails. Whether it returns or raises, what it has repaired is on distinct nodes without a row before, exactly max(0, RF - h) of them on return; earlier HEALTHY rows and all other versions are unchanged |
| `Repair.RunRepeatedly` | repair/manager.py:300-447 | Over any sequence of runs, attempts are the runs that got that far, never more than `max_attempts` plus the runs in which some call never returns, so failing calls alone exhaust the job; PENDING means attempts are left, and FAILED that they are not or that a run was rejected |
| `Rebalance.CreateJob` | rebalance/manager.py:133-198 | Succeeds exactly when version, source and target allow a migration |
| `Rebalance.TargetRow` | rebalance/manager.py:200-240 | The target row is brought to COPYING, one metadata operation at a time; a HEALTHY one is returned as it is, and exactly a REPAIRING or FAILED one is refused |
| `GoodCopies.OneLost` | rebalance/manager.py:390-401 | Taking one node's bytes, and perhaps its row, costs at most one good copy |
| `Rebalance.RemoveSource` | rebalance/manager.py:387-405 | The source goes, bytes first, exactly while more than RF rows are HEALTHY, the DELETE is confirmed and the row can be removed; safety is lost exactly when the DELETE takes effect under a HEALTHY row without reporting it |
| `Rebalance.RunJob` | rebalance/manager.py:273-427 | A trace leads from the start of the run to its end, one metadata operation or node call at a time, and at every point of it at least min(h, RF) HEALTHY rows with correct bytes remain, whichever calls fail and even if the source DELETE is lost. Exactly when the run is made, when it succeeds, when it crashes and when its DELETE is lost, for every target; the source's bytes are touched only once the target is ready and more than RF rows are HEALTHY, its row goes only with success, and no other bytes change; attempts count and end as for repair jobs; safety afterwards holds exactly when no DELETE was lost |
| `LostDelete.DeleteLost` | rebalance/manager.py:390-401 | For every hash, from nothing, by manager calls alone, to a safe state with a job that is due; one run of it with a lost source DELETE leaves a HEALTHY row without bytes |
| `Rebalance.MigrateReplica` | rebalance/manager.py:429-441 | With no other job active it returns exactly when the migration is allowed and its calls let it succeed, and loses its source DELETE exactly under the condition of a run; on return the row has moved and at least RF rows are HEALTHY, and otherwise the source keeps its row. Whatever happens, min(h, RF) good copies remain at every point, and safety is kept exactly when no DELETE was lost |
| `Drain.DrainNode` | rebalance/manager.py:472-529 | Whatever fails, a node that may be drained is DRAINING afterwards, unless the call returns and no row names it, and then it is REMOVED; every other node keeps its state. With no other job active it returns exactly when the node may drain and every row of a COMMITTED version on it can move to the best eligible node; then each version has a HEALTHY row there, none on the node, and at least RF HEALTHY rows; a row that cannot be drained stays. Every version keeps min(h, RF) good copies at every point of the drain, and safety is kept exactly when no DELETE was lost |
| `Rebalance.RunRepeatedly` | rebalance/manager.py:273-427 | Attempts are bounded by `max_attempts` plus the runs in which some call never returns, and the job is FAILED only when they are used up |
| `Jobs.AttemptsBounded` | integrity/manager.py:203-236 | Over every history of runs attempts are at most `max_attempts` plus the crashes, and PENDING means fewer than `max_attempts` |
| `Jobs.StatusMeans` | repair/manager.py:306-443 | Over every history attempts count exactly the runs that got that far, a job has SUCCEEDED exactly when a run of it has, and it is FAILED with attempts left only by a rejection that nothing has followed up |
| `Jobs.FinishedIsAbsorbing` | repair/manager.py:306-323 | SUCCEEDED and exhausted FAILED jobs never change again |
| `Recovery.MarkVerified` | recovery/manager.py:90-128 | A verified row becomes HEALTHY, unless it is FAILED, which is passed over, or COPYING, which is exactly the error |
| `Recovery.HealthyAfterwards` | recovery/manager.py:169-252 | A known row is HEALTHY afterwards exactly when its verification matched, or it was unreachable and HEALTHY before; a HEALTHY row becomes UNAVAILABLE exactly when its bytes are gone and CORRUPTED exactly when they are wrong |
| `Recovery.ReconcileNode` | recovery/manager.py:151-264 | Ends normally exactly when no call crashes and no COPYING row matches; then every known row is reconciled with its finding, healthy + missing + corrupted = checked, checked + unreachable = known, and repairs + rows without one = missing + corrupted. A missing or damaged row is left without a repair exactly when, by the tables at the start, it has no source or no node to go to; every other one has a listed job at work on its version |
| `Recovery.CompleteExactly` | recovery/manager.py:254-264 | A reconciliation is complete exactly when every known row was reached and every missing or damaged one has a source and a node for its repair, by the tables at the start |
| `Recovery.CompleteIsBacked` | recovery/manager.py:254-264 | A complete reconciliation vouches for every known HEALTHY row of the node, whatever happened to its bytes before |
| `Recovery.ReconcileAndMarkHealthy` | recovery/manager.py:266-273 | Ends normally exactly when the node is RECOVERING and every known row can be reconciled; the node becomes HEALTHY exactly when, by the tables at the start, every known row is then solved, and all its HEALTHY rows of COMMITTED versions are on right bytes |
| `Integrity.VerifyReplica` | integrity/manager.py:96-184 | A row becomes CORRUPTED exactly when a HEALTHY node answers with a measurement that disagrees; then a repair job is at work on its version, or the call fails exactly because there is no other source or no node for it; unreachable nodes and missing objects change nothing |
| `Integrity.ScanNode` | integrity/manager.py:238-259 | Ends normally exactly when the node is known and its rows are clean (every call brings back a measurement, and every bad row can be repaired from a row that is not bad); then all HEALTHY rows of COMMITTED versions on it are checked |
| `Integrity.ScanVersion` | integrity/manager.py:261-280 | All HEALTHY rows of the version on HEALTHY nodes are checked, in the same way |
| `Integrity.CleanOn` | integrity/manager.py:238-280 | Whether a scan gets through does not depend on the order: two batches are clean one after the other exactly when they are clean together |
| `Integrity.CheckedIsBacked` | integrity/manager.py:143-168 | A checked row stays HEALTHY exactly when its bytes are right |
| `Integrity.CreateJob` | integrity/manager.py:186-201 | A new PENDING job, or an error exactly when its node or version is unknown |
| `Integrity.RunJob` | integrity/manager.py:203-236 | The run succeeds exactly when the job is not over, its scope is known, every call for a row in scope brings back a measurement, and every bad row has room for a repair and a HEALTHY row of its version that is not bad; then exactly the rows in scope were checked, and the job carries their number and the number found bad. A crash takes a call that never returns; attempts count and end as for repair jobs; only CORRUPTED marks change rows |
| `Integrity.RunRepeatedly` | integrity/manager.py:203-236 | Attempts are bounded by `max_attempts` plus the runs in which some call never returns, and the job is FAILED only when they are used up |
| `Health.Ingest` | health/heartbeat.py:94-129 | Accepted heartbeats are strictly newer and move the node to HEALTHY or RECOVERING by its state; others change nothing |
| `Health.IngestAndRecover` | health/heartbeat.py:131-155 | A node that comes back is reconciled: the call ends normally exactly when every known row can be reconciled; then a known row is HEALTHY exactly when its bytes are right, or it was HEALTHY and could not be reached, a missing or damaged one has a repair job if there can be one, and the node is HEALTHY exactly when every known row is solved, which vouches for its HEALTHY rows. The report of an accepted heartbeat is kept whatever happens; any other heartbeat changes nothing |
| `Health.Evaluate` | health/failure_detector.py:104-132 | The node moves by its own row alone; its rows go down with it exactly when it becomes UNAVAILABLE |
| `Health.ScheduleRepairsForNode` | health/failure_detector.py:68-102 | Every HEALTHY row of a COMMITTED version becomes UNAVAILABLE; then each of those versions has enough HEALTHY rows, or a repair job at work on it, or none is possible for want of a source or of an eligible node; the listed jobs are at work on those versions |
| `Health.Scan` | health/failure_detector.py:139-146 | Every node is judged by its row as it was before the scan, exactly the rows of fallen nodes go down, all their versions are served at the end (enough HEALTHY rows, a repair job, or none possible), and the list has exactly the nodes that moved, each once with its new state |
| `Health.DownMeans` | health/failure_detector.py:118-126 | In a scan a HEALTHY or RECOVERING node becomes SUSPECT exactly when its last heartbeat is at least `suspect_after` old, a SUSPECT one UNAVAILABLE exactly when it is at least `unavailable_after` old; then exactly its HEALTHY rows of COMMITTED versions become UNAVAILABLE, and nothing else moves |
| `Health.SkipReconciliation` | health/failure_detector.py:128-130 | One evaluation and one heartbeat make a RECOVERING node HEALTHY, with no row verified, exactly when it had been silent for `suspect_after` and the heartbeat is accepted |
| `Health.Watch` | health/heartbeat.py:94-129 | Over any run of heartbeats and scans the row of a node takes exactly the path of its events |
| `Health.StaysRecovering` | health/heartbeat.py:114-115 | A RECOVERING node stays RECOVERING over such a run exactly when no scan finds it silent for `suspect_after` |
| `Health.HealthyUnreconciled` | health/heartbeat.py:104-108 | It becomes HEALTHY without reconciliation exactly when a heartbeat is accepted while it is SUSPECT, which it is only after such a scan |
| `ControlPlane.Perform` | metadata/manager.py:63-704 | Every call of every manager, those on single replica rows included: the effect of that call on tables and disks, consistent tables, nothing turned back, object states along the table unless it commits, heartbeat times only by the heartbeat it accepts, one edge at most per row in a metadata call, the log extended by its commit; safety survives unless a source DELETE is lost or a row is marked HEALTHY over wrong bytes, and a run of a job, a migration with no other job active and a mark break it exactly then |
| `ControlPlane.Run` | replication/manager.py:134-308 | Over every run, with tables and disks before and after each step: consistent tables at every point, all of that at every step, strictly increasing accepted heartbeats per node, and, from a safe start, every HEALTHY row names a node that holds bytes of the version's size and checksum, at every point before the first careless step |
| `ControlPlane.SafeExactly` | rebalance/manager.py:387-405 | Over every run without drains, whose migrations by one call find no other job active: every point is safe exactly when the first one is, no source DELETE is lost and no row is marked HEALTHY over wrong bytes |
| `ControlPlane.PerformRows` | metadata/manager.py:267-593 | The calls on replica rows have exactly their own effect, along one edge per row, and lose safety exactly when one marks a row HEALTHY over wrong bytes |
| `ControlPlane.TableKeptExactly` | common/constants.py:39-43 | Over every run object states follow the state table exactly when no commit succeeds on an object that is not ACTIVE |
| `ControlPlane.BeatsIncrease` | metadata/manager.py:679-691 | The accepted heartbeats of each node, taken from the steps and the tables they met, strictly increase |
| `ControlPlane.Life` | metadata/manager.py:84-201 | The same from empty tables and empty disks, which are safe; the log is complete, numbers committed for an object strictly rise, and no two commits of it expected the same version |

## Left out

- HTTP routes, middleware, authentication, the worker, the gateway's listing and staging, settings, logging and the frontend: plumbing around the managers.
- SQL sessions, locks and isolation: a manager call, or a stretch of one between node calls, is one atomic step; calls of different managers do not interleave inside each other, as the properties of rebalance, repair and drain assume.
- Retries, timeouts and wire formats of the node client: a call is a success, a failure with or without effect, or no return at all.
- SHA-256 itself, UUIDs (any identifier that is not in use), Unicode digits in chunk names, and stripping of blanks from node ids outside registration.
- Timestamps that no decision depends on, reasons of jobs and texts of errors.
- Times of the last verification: the order of repair sources that they give is an input of `Repair.RepairVersionUntilHealthy`, and elsewhere any HEALTHY row may be the source; likewise drain, recovery, integrity and the detector go through rows in any order.
- Type checks on arguments (a piece that is not bytes, a factor that is a boolean): typed parameters rule them out, except that any failure of a stream is `StorageEngine.StorageEngine.Fail`.
- fsync, symbolic links, unreadable or short-written files and physical free space beyond an arbitrary bound.
- JSON metadata whose fields have odd types: a field is present with its type or it is absent.
- The branches for rows whose version or node is missing, which foreign keys rule out.
- Liveness: FAILED and COPYING rows and nodes held in RECOVERING mean that "eventually healthy" does not follow from the code.
- Repair.RepairVersionUntilHealthy: takes a factor, since the default of none cannot be compared with a count.
- RateLimiter.SlidingWindowRateLimiter.Allow: assumes a clock that does not go back, and is exact for a client again one window after its last eviction, not before, since the deque is gone.
- ControlPlane.SafeExactly: leaves out drains, whose rows go in any order, so that which DELETE is reached first is not determined by the tables, and migrations that find another active job; for those `ControlPlane.Run` has the one direction.
- Integrity.RunJob: when a run meets both a call that never returns and a failure, whether it crashes or errs depends on the order of the rows, and only the causes of each are stated.
