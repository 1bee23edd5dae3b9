# crabstash, modelled in Dafny

This project models the parts of crabstash, an embedded LSM and MVCC database, whose correctness the code
itself decides: deadlock detection, range and key locks, commit validation, the transaction engine, the
write-ahead log and its segments, table files, and the merging iterators. Every operation is an atomic
step. Objects that the code updates in place are classes; each of their methods is tied to a function on
plain values, and what the code promises over whole runs is proved about those functions.

## How it is laid out

| files | what they model |
|---|---|
| `Bytes`, `Sequences`, `Simd` | byte strings, little-endian fields, chunked comparison, the order of versioned keys |
| `Graph`, `Deadlock` | the wait-for graph, Tarjan's component search as a recursive method over mutable maps and a stack, victim selection |
| `LockModes`, `RangeLock`, `LockState`, `LockTables` | lock modes, the interval tree in its growable array, the lock table as a value and as a class |
| `SsiState`, `SsiRuns`, `Ssi` | the commit validator as functions, its runs beside the real keys, and `SSIManager` with its index, filter and counters |
| `TxnState`, `TxnRuns`, `Answers`, `LockedRuns`, `MemTables`, `Transactions`, `Mvcc` | write sets, the transaction manager, the versioned store, the engine, serial replay of its runs, what it answers as told by the operations alone, and its runs with the lock table answering each write |
| `Wal`, `WalState`, `WalManagers` | log frames and recovery, segments with rotation and archiving, recovery across segments |
| `StorageBloom`, `SSTableFormat`, `SSTables`, `TableReader`, `Flushes` | the table file: filter, layout, builder, point reads, iterator; flushing a memtable and reading it back |
| `Iterators`, `Compaction` | k-way merge, merge of two, end bound, the compaction loop |

Hash-map iteration is an arbitrary choice among the remaining keys, so no result depends on an order.
The checksum, the compressor, the key hashes and the timestamp oracle are parameters: a compressor is
only asked to give back what it compressed, and a hash may collide in any way.

## What the code does that its names do not say

* A granted lock request does not always leave the requested mode behind: X on top of SIX keeps SIX
  (`LockState.GrantedModeExactly`, `LockState.SixToExclusiveKeepsSix`).
* `upgrade_lock` does not look at range locks; a granted upgrade keeps the locks compatible exactly when no
  other transaction has a range over the key (`LockState.UpgradeKeepsSafeExactly`), and two requests lead
  to one that does not (`LockState.UpgradeBreaksSafe`).
* The interval tree stands in 256 bytes of 0xFF for "no end"; a query that starts beyond them misses
  unbounded ranges, and only such a query does (`RangeLock.SearchExactIffWithinSentinel`). A key beyond them
  may be granted inside another transaction's unbounded range, and no other key may
  (`LockState.KeyKeepsSafeIff`); the engine asks for no range without an end
  (`LockedRuns.EngineLockIsExact`).
* Committing a Snapshot transaction that has already ended answers an error after its writes are in
  storage (`TxnRuns.AbortedSnapshotStillWrites`); unless it wrote nothing, that is the one refused commit
  that does harm (`TxnRuns.EndedCommitIsHarmless`).
* Mixed with Snapshot, a Serializable transaction can be refused although no commit wrote what it read: the
  writes of one that passes the SSI manager and is then refused by the transaction manager stay in the
  former (`Answers.RefusedForNothing`). `Answers.CommitsExactly` says when a commit succeeds in any run;
  without Snapshot and without collisions that is just when nothing it read was written since its start
  (`Answers.CommitsIffNothingOverwritten`).
* The commit of a read-only transaction is always refused, because nothing gives it a commit timestamp.
* `TwoMergeIterator` gives a user key twice exactly when its first input has the older version of a
  shared key (`Iterators.TwoMergeUniqueIff`, `Iterators.TwoMergeRepeats`).
* A flush writes all versions of a key without their timestamps, and the search goes to a block that starts
  with the key. A key whose versions begin in the block before is then read in an older version, and only
  such a key (`Flushes.ReadFlushed`, `TableReader.WholeIffUnsplit`, `Flushes.OverwrittenValueIsRead`).
* A refused commit leaves its transaction open with all its locks (`LockedRuns.RefusedCommitKeepsLocks`).
* A transaction that has ended may still write, and its write takes a lock. Nothing that has ended holds a
  lock, at any step of a run, if and only if every write that goes through is of an open transaction
  (`LockedRuns.EndedHoldNothingIff`). The lock of any other write keeps its key from all others until that
  transaction is aborted again (`LockedRuns.LateWriteKeepsItsLock`, `LockedRuns.LateRunBlocks`).
* Validation is exact if and only if the own start or the watermark is no later than the first timestamp
  after the read timestamp at which anything can commit (`SsiRuns.ValidationIsExactIff`). Below both, it may
  overlook pruned commits (`SsiRuns.StaleReadIsAccepted`).
* `recover_all` reads the live directory only: it returns everything ever appended exactly when the
  archived segments hold nothing (`WalManagers.LiveIsEverythingIff`).
* `append_batch` counts the size of a batch twice after a rotation; the segment bound holds all the same.
* Storage numbers its writes 1, 2, 3 while start timestamps are clock values, so a read at a start
  timestamp returns the current value: a Snapshot transaction can read two values of one key
  (`TxnRuns.SnapshotReadsTwoValues`, `TxnRuns.RereadsAgreeExactly`). A key that the transaction has written
  is safe from that until it ends (`LockedRuns.WrittenKeyIsStable`). Serializability does not come from
  snapshots but from validation, which is what `TxnRuns.RunIsSerial` rests on.

## Model

| member | source | states |
|---|---|---|
| Simd.CompareBytes | crates/crabstash-common/src/simd.rs:8-37 | comparing 16-byte chunks by mask and first clear bit, then byte by byte, is lexicographic order |
| Simd.BytesEqual | crates/crabstash-common/src/simd.rs:39-61 | chunked equality is equality |
| Simd.FirstClearBit | crates/crabstash-common/src/simd.rs:18-27 | the lowest clear bit of the lane mask is the first lane where two chunks differ |
| Simd.CompareVersionedKeys | crates/crabstash-common/src/key.rs:32-40 | the key comparison computed through the chunked comparison |
| Simd.KeyOrderIsTotal | crates/crabstash-common/src/key.rs:32-40 | the key order is total and antisymmetric, equality on it is equality, newer versions sort first |
| Deadlock.WaitForGraph.FindComponents | crates/crabstash-lock/src/deadlock.rs:92-99 | for every iteration order the collected sets are exactly the strongly connected components of all vertices |
| Deadlock.WaitForGraph.StrongConnect | crates/crabstash-lock/src/deadlock.rs:111-148 | one recursive visit keeps the search invariant, indexes what it reaches, and leaves only components behind it |
| Deadlock.ComponentsAreUnique | crates/crabstash-lock/src/deadlock.rs:92-148 | two iteration orders collect the same component for every vertex |
| Deadlock.WaitForGraph.DetectDeadlock | crates/crabstash-lock/src/deadlock.rs:92-109 | a victim is reported if and only if the graph has a cycle; it lies on one, and in its component no registered transaction has a larger priority value, at the same a later start, at the same fewer locks |
| Deadlock.WaitForGraph.SelectVictims | crates/crabstash-lock/src/deadlock.rs:150-165 | the victim is the registered member with the largest priority value, then the latest start, then the fewest locks |
| Deadlock.SortedHeadIsLeast | crates/crabstash-lock/src/deadlock.rs:156-164 | the head of the sorted candidates has the largest priority value, then the latest start, then the fewest locks |
| Deadlock.NoLargeComponentNoCycle | crates/crabstash-lock/src/deadlock.rs:101-108 | without self-edges, components of one vertex each mean no cycle |
| Deadlock.LargeComponentIsCycle | crates/crabstash-lock/src/deadlock.rs:101-106 | every member of a component of two or more lies on a cycle |
| Deadlock.WaitForGraph.BreakDeadlocks | crates/crabstash-lock/src/deadlock.rs:51-57 | detecting and unregistering until nothing is found removes one vertex a time and ends without a cycle |
| Deadlock.WaitForGraph.UnregisterTxn | crates/crabstash-lock/src/deadlock.rs:51-57 | no edge and no registration mentions the transaction, everything else stays |
| Deadlock.WaitForGraph.AddWaitEdge | crates/crabstash-lock/src/deadlock.rs:59-65 | exactly one edge more, and never a self-edge |
| Deadlock.WaitForGraph.RemoveAllWaits | crates/crabstash-lock/src/deadlock.rs:76-78 | exactly the edges that leave the transaction less |
| Deadlock.WaitForGraph.RemoveWaitEdge | crates/crabstash-lock/src/deadlock.rs:67-74 | exactly that edge less |
| LockModes.CompatibleIffNoClash | crates/crabstash-lock/src/lock_mode.rs:13-27 | two modes are compatible if and only if neither is X and neither reads all below, as S and SIX do, while the other may write some of it, as IX and SIX do |
| LockModes.UpgradeIffStronger | crates/crabstash-lock/src/lock_mode.rs:37-43 | the listed upgrades are exactly the moves to a mode that keeps out more, but for SIX to X |
| RangeLock.CompareStartsIsTotalOrder | crates/crabstash-lock/src/range_lock.rs:210-232 | the order of range starts is a total preorder |
| RangeLock.CommonKeyMeansOverlap | crates/crabstash-lock/src/range_lock.rs:42-66 | an entry that shares a key with a query overlaps it |
| RangeLock.PointOverlapIsContainment | crates/crabstash-lock/src/range_lock.rs:26-66 | overlapping a single-key query is containing the key |
| RangeLock.MaxEndPrunes | crates/crabstash-lock/src/range_lock.rs:153-155 | a subtree whose bound is below the query start holds no overlapping entry |
| RangeLock.StartPrunes | crates/crabstash-lock/src/range_lock.rs:165-169 | nothing to the right of a node that starts past the query end overlaps |
| RangeLock.SearchIsScan | crates/crabstash-lock/src/range_lock.rs:132-170 | the pruned walk gives the in-order sequence filtered by overlap |
| RangeLock.SearchIsSound | crates/crabstash-lock/src/range_lock.rs:132-170 | for every query the walk gives only overlapping entries of the tree |
| RangeLock.SearchFindsEnded | crates/crabstash-lock/src/range_lock.rs:132-170 | whatever the query start, the walk finds every overlapping range that has an end |
| RangeLock.SearchExactIffWithinSentinel | crates/crabstash-lock/src/range_lock.rs:203-208 | the walk is exact on all arenas if and only if the query start is not beyond the sentinel |
| RangeLock.PastSentinelExactly | crates/crabstash-lock/src/range_lock.rs:203-208 | the keys past the sentinel are those that begin with 256 bytes of 0xFF and go on |
| RangeLock.BeyondSentinel | crates/crabstash-lock/src/range_lock.rs:203-208 | a tree and a query past the sentinel for which an overlapping range is missed |
| RangeLock.HangGrowsTree | crates/crabstash-lock/src/range_lock.rs:101-121 | the descent keeps links, order and subtree bounds of the arena tree |
| RangeLock.GrownEntries | crates/crabstash-lock/src/range_lock.rs:101-121 | the in-order sequence gains the new entry at its place |
| RangeLock.TreeIsSorted | crates/crabstash-lock/src/range_lock.rs:108-121 | the in-order sequence of a tree is sorted by start |
| RangeLock.IntervalTree.Insert | crates/crabstash-lock/src/range_lock.rs:85-130 | the arena stays a well-formed tree and gains exactly the entry |
| RangeLock.IntervalTree.FindOverlapping | crates/crabstash-lock/src/range_lock.rs:132-142 | the result is the filtered contents |
| RangeLock.IntervalTree.FindOverlappingRecursive | crates/crabstash-lock/src/range_lock.rs:144-170 | one call appends the walk of its subtree |
| RangeLock.IntervalTree.FindContainingKey | crates/crabstash-lock/src/range_lock.rs:172-177 | exactly the entries that contain the key |
| RangeLock.IntervalTree.RemoveByTxn | crates/crabstash-lock/src/range_lock.rs:179-182 | the multiset loses exactly the entries of that transaction |
| RangeLock.IntervalTree.Rebuild | crates/crabstash-lock/src/range_lock.rs:184-193 | the rebuilt arena is a well-formed tree of the same entries |
| LockState.RunIsSafe | crates/crabstash-lock/src/lock_table.rs:89-220 | where searches overlook no range: through every run of key locks, range locks, upgrades, releases and escalations, two transactions covering one key hold compatible modes if and only if no upgrade is granted inside another's range |
| LockState.TableRunIsSafe | crates/crabstash-lock/src/lock_table.rs:89-220 | the same of the table with what its searches may overlook, when no key or range starts past the sentinel, or every range asked for has an end |
| LockState.KeyKeepsSafeIff | crates/crabstash-lock/src/lock_table.rs:99-120 | a request for a key keeps the claims of every table compatible if and only if the key is not past the sentinel |
| LockState.SeenKeyIsExact | crates/crabstash-lock/src/lock_table.rs:89-144 | for a key within the sentinel, or among ranges that all have an end, the one outcome is that of the specification, escalation included |
| LockState.SeenRangeIsExact | crates/crabstash-lock/src/lock_table.rs:147-202 | so it is for a range that starts within the sentinel, or among ranges that all have an end |
| LockState.LockKeyKeepsSafe | crates/crabstash-lock/src/lock_table.rs:89-144 | a key lock with its escalation keeps all claims compatible |
| LockState.LockRangeKeepsSafe | crates/crabstash-lock/src/lock_table.rs:147-202 | a range lock keeps all claims compatible |
| LockState.ReleaseKeepsSafe | crates/crabstash-lock/src/lock_table.rs:223-238 | a release keeps all claims compatible |
| LockState.NoConflictIsGranted | crates/crabstash-lock/src/lock_table.rs:240-263 | a key that `check_conflict` clears is granted at once |
| LockState.GrantedModeExactly | crates/crabstash-lock/src/lock_entry.rs:31-46 | a granted request leaves the requested mode exactly when it is new, repeated or a listed upgrade; other holders stay |
| LockState.SixToExclusiveKeepsSix | crates/crabstash-lock/src/lock_mode.rs:37-43 | X asked for on top of SIX is granted and SIX stays |
| LockState.KeyIsGrantedExactly | crates/crabstash-lock/src/lock_table.rs:89-144 | a key is granted if and only if no other transaction has a range over it, nor, unless it is only asked for again, the key itself, in a mode that clashes; else a range conflict or a timeout is answered |
| LockState.ConflictIsClash | crates/crabstash-lock/src/lock_table.rs:240-263 | a conflict is answered if and only if somebody else has the key, or a range over it, in a mode that clashes |
| LockState.RangeIsGrantedExactly | crates/crabstash-lock/src/lock_table.rs:147-202 | a range is granted if and only if nobody else has an overlapping range, or a key in it, in a mode that clashes |
| LockState.ReadersShare | crates/crabstash-lock/src/lock_entry.rs:31-46 | any number of transactions get S on one key together |
| LockState.LoneReaderUpgrades | crates/crabstash-lock/src/lock_entry.rs:31-46 | one that holds S alone and asks for X, or upgrades, holds X afterwards |
| LockState.EscalatesExactly | crates/crabstash-lock/src/lock_table.rs:286-307 | each granted key is counted, and once their number reaches a threshold a range from the least to the greatest key is asked for, once |
| LockState.RegisteredHasNothing | crates/crabstash-lock/src/lock_table.rs:76-81 | registering starts the count afresh and changes no lock |
| LockState.ReleaseRemovesExactly | crates/crabstash-lock/src/lock_table.rs:223-238 | a release removes all claims of the transaction and none of another |
| LockState.BoundingRangeContainsKeys | crates/crabstash-lock/src/escalation.rs:59-69 | the bounding range of an escalation contains every locked key |
| LockState.UpgradeKeepsSafeExactly | crates/crabstash-lock/src/lock_table.rs:205-220 | a granted upgrade keeps claims compatible if and only if no other transaction has a range over the key |
| LockState.UpgradeBreaksSafe | crates/crabstash-lock/src/lock_table.rs:205-220 | a range lock and a key lock after which an upgrade is granted and the claims are no longer compatible |
| LockTables.LockEntry.TryAcquireLock | crates/crabstash-lock/src/lock_entry.rs:31-46 | the new holders are those of the specification |
| LockTables.LockEntry.Acquire | crates/crabstash-lock/src/lock_entry.rs:48-89 | a request no other step overtakes is granted at once or times out and leaves the queue |
| LockTables.LockEntry.Upgrade | crates/crabstash-lock/src/lock_entry.rs:91-146 | which of the four answers an upgrade gets, and the holders after it |
| LockTables.LockTable.LockKeyOf | crates/crabstash-lock/src/lock_table.rs:89-144 | for every key, table and answer are those of the specification on all ranges, or past the sentinel on those with an end; no wait edge is left that was not there |
| LockTables.LockTable.LockRangeOf | crates/crabstash-lock/src/lock_table.rs:147-202 | for every start, table and answer are those of the specification on all ranges, or past the sentinel on those with an end |
| LockTables.LockTable.CheckConflict | crates/crabstash-lock/src/lock_table.rs:240-263 | a conflict answered is one; none is overlooked but with a range without an end by a key past the sentinel |
| LockTables.LockTable.RecordLockAcquired | crates/crabstash-lock/src/lock_table.rs:286-307 | bookkeeping and escalation are those of the specification, the escalation as for any range request |
| LockTables.LockTable.WaitFor | crates/crabstash-lock/src/lock_table.rs:120-143 | a blocked request leaves holders and ranges alone and takes back its wait edges |
| LockTables.LockTable.ReleaseAllOf | crates/crabstash-lock/src/lock_table.rs:223-238 | no holder, range, wait edge or registration of the transaction is left |
| LockTables.LockTable.UpgradeLockOf | crates/crabstash-lock/src/lock_table.rs:205-220 | table and answer are those of the specification |
| SsiRuns.RunIsSerializable | crates/crabstash-lock/src/ssi.rs:345-494 | over every run, for every hash and any read timestamps, an accepted transaction read no key, and no range holding a listed key, that was written between the timestamp it was checked from and its commit |
| SsiRuns.ValidationIsExact | crates/crabstash-lock/src/ssi.rs:345-494 | where the own start or the watermark is no later than the next possible commit, validation accepts if and only if no commit since the read timestamp wrote a hash that was read or listed a key in a range that was read, and it carries no mark of a refusal at an earlier read timestamp |
| SsiRuns.ValidationIsExactIff | crates/crabstash-lock/src/ssi.rs:541-563 | for every read timestamp, start and watermark: validation there is exact after all runs that end with them if and only if the start or the watermark is no later than the next possible commit |
| SsiRuns.StaleReadIsAccepted | crates/crabstash-lock/src/ssi.rs:541-563 | for every other read timestamp, start and watermark, a run that ends with them and accepts what is refused when nothing is pruned |
| SsiRuns.ListedIsInRanges | crates/crabstash-lock/src/ssi.rs:595-609 | the range test is that some listed key lies within the bounds of some range that was read |
| SsiRuns.CollisionFreeConflictIsReal | crates/crabstash-lock/src/ssi.rs:15-17 | where the keys in use do not collide, hash conflicts are exactly the real ones |
| SsiRuns.PruningIsInvisible | crates/crabstash-lock/src/ssi.rs:541-563 | advancing the watermark up to the oldest open start changes no answer and no commit of any run whose open transactions validate where that is exact |
| SsiRuns.StepKeepsInv | crates/crabstash-lock/src/ssi.rs:277-563 | every operation keeps retained commits, open accesses and sticky conflicts in step with what happened |
| SsiRuns.AcceptedIsFresh | crates/crabstash-lock/src/ssi.rs:363-412 | what an accepted transaction read was not overwritten by a commit after the timestamp it was checked from |
| Ssi.BloomFilter.Insert | crates/crabstash-lock/src/ssi.rs:44-50 | the bits of the hash are added and no other |
| Ssi.BloomFilter.MayContain | crates/crabstash-lock/src/ssi.rs:52-61 | true if and only if all three bits are set |
| Ssi.PushedIsIndex | crates/crabstash-lock/src/ssi.rs:442-461 | pushing the entry of a commit keeps the index the exact inverted index of the retained commits |
| Ssi.RetainedIsIndex | crates/crabstash-lock/src/ssi.rs:541-563 | pruning both keeps the index exact |
| Ssi.IndexFindsWriters | crates/crabstash-lock/src/ssi.rs:364-382 | looking a hash up finds exactly its conflicting retained writers |
| Ssi.SSIManager.FindInbound | crates/crabstash-lock/src/ssi.rs:363-385 | the conflicts collected are exactly the retained writers in conflict with the reads |
| Ssi.SSIManager.ScanCommitted | crates/crabstash-lock/src/ssi.rs:387-415 | in any order, a phantom is reported if and only if there is one, else the overwritten readers are collected |
| Ssi.SSIManager.ValidateAndCommitWithKeys | crates/crabstash-lock/src/ssi.rs:345-494 | state and answer are those of the specification, with the error each refusal reports; index, filter, writer count and safe snapshot stay right |
| Ssi.SSIManager.Check | crates/crabstash-lock/src/ssi.rs:353-437 | a validation that does not commit changes only the conflict lists, by exactly the conflicts found |
| Ssi.SSIManager.RecordWriteOf | crates/crabstash-lock/src/ssi.rs:315-328 | the write is recorded and passes the filter; a first write counts one writer more |
| Ssi.SSIManager.MayHaveWriteConflict | crates/crabstash-lock/src/ssi.rs:517-524 | no recorded write is ever denied |
| Ssi.SSIManager.BeginTxnWithTs | crates/crabstash-lock/src/ssi.rs:300-307 | the new state, for any id; the safe snapshot is the least open start, and the writer count stays right if and only if no open writer was replaced |
| Ssi.SSIManager.AbortTxn | crates/crabstash-lock/src/ssi.rs:496-507 | the new state; a writer less if it had written |
| Ssi.SSIManager.AdvanceWatermarkTo | crates/crabstash-lock/src/ssi.rs:541-563 | the new state, with commits and index pruned alike |
| Ssi.SSIManager.UpdateSafeSnapshot | crates/crabstash-lock/src/ssi.rs:585-593 | the minimum of the open starts, or the largest value |
| TxnState.ReadThroughIsApplied | crates/crabstash-txn/src/transaction.rs:57-81 | reading through a write set is reading what applying it leaves |
| TxnRuns.RunIsSerial | crates/crabstash-txn/src/mvcc.rs:79-203 | over every run mixing isolation levels, replaying the committed programs in commit order gives the store, and each program whose caller asked for Serializable its own answers |
| TxnRuns.WritesAreLatest | crates/crabstash-txn/src/transaction.rs:57-81 | the write set of a program holds for each key its last put or delete, and no other key |
| TxnRuns.ReplayIsLatest | crates/crabstash-txn/src/mvcc.rs:189-195 | the replayed store holds under each key what the last put or delete of the whole log left |
| TxnRuns.StepKeepsInv | crates/crabstash-txn/src/mvcc.rs:49-218 | every engine operation keeps each tracked read current or known to be overwritten, and the store equal to the replay |
| TxnRuns.ValidatedReexecutes | crates/crabstash-txn/src/transaction.rs:153-167 | a transaction that passes validation gets the same answers from the store just before its commit |
| TxnRuns.ValidationIsLogged | crates/crabstash-txn/src/transaction.rs:153-167 | validation succeeds if and only if no commit since the start wrote a tracked key |
| TxnRuns.CollectionIsInvisible | crates/crabstash-txn/src/transaction.rs:199-202 | collecting commit records below the open starts changes how no later commit ends |
| TxnRuns.EndedCommitIsHarmless | crates/crabstash-txn/src/mvcc.rs:189-197 | a refused commit changes no store if and only if it is not an ended Snapshot transaction with writes |
| TxnRuns.AbortedSnapshotStillWrites | crates/crabstash-txn/src/mvcc.rs:187-197 | an aborted Snapshot transaction whose refused commit puts its value into the store |
| TxnRuns.RereadsAgreeExactly | crates/crabstash-txn/src/mvcc.rs:79-99 | over every run, two reads of a key by one transaction that has not written it answer the same if and only if the last commit in between that writes the key, if any, wrote the value read first |
| TxnRuns.SnapshotReadsTwoValues | crates/crabstash-txn/src/mvcc.rs:79-99 | a Snapshot transaction that reads a key before and after another commits it sees both values |
| Answers.GetAnswersExactly | crates/crabstash-txn/src/mvcc.rs:79-99 | over every run, from the operations alone: a get answers the last own put or delete of the key, else what the last successful commit that wrote the key left |
| Answers.CommitsExactly | crates/crabstash-txn/src/mvcc.rs:162-203 | over every run, from the operations alone: a commit succeeds if and only if its transaction is open and was begun as Snapshot, or as Serializable with nothing it read written by a commit since its start, nor by hash by one that passed the SSI manager |
| Answers.SerializableAtCommit | crates/crabstash-txn/src/mvcc.rs:79-203 | over every run mixing levels, each get of a transaction begun as Serializable that commits answered what it would answer just before the commit |
| Answers.RunsAsAsked | crates/crabstash-txn/src/mvcc.rs:48-77 | every transaction keeps the level and start it was begun with, and is open until it is aborted or commits |
| Answers.SerializableIsTracked | crates/crabstash-txn/src/mvcc.rs:66-72 | one begun as Serializable is known to the SSI manager, with the hashes of exactly what it read and wrote, until it ends or passes it |
| Answers.ReadOnlyIsRegistered | crates/crabstash-txn/src/mvcc.rs:66-72 | one begun as read-only has its start registered there until it is aborted, one begun as Snapshot never |
| Answers.CommitsIffNothingOverwritten | crates/crabstash-txn/src/mvcc.rs:162-203 | where nobody asks for Snapshot and no keys in use collide, an open Serializable transaction commits if and only if nothing it read was written by a commit since its start |
| Answers.RefusedForNothing | crates/crabstash-txn/src/mvcc.rs:181-187 | a run mixed with Snapshot in which one is refused although no commit wrote what it read |
| LockedRuns.OpenWritesAreApart | crates/crabstash-txn/src/mvcc.rs:101-159 | in every run in which the lock table answers the writes, two open transactions have never written the same key |
| LockedRuns.OverlappingWriteIsRefused | crates/crabstash-txn/src/mvcc.rs:118-120 | a write of a key that another open transaction has written is refused |
| LockedRuns.WrittenKeyIsStable | crates/crabstash-txn/src/mvcc.rs:101-218 | between a transaction's write of a key and its own end nothing in the run changes the stored value of the key |
| LockedRuns.StepKeepsLocks | crates/crabstash-txn/src/mvcc.rs:49-218 | every engine operation keeps the locks compatible and exclusive, and every key an open transaction has written locked by it |
| LockedRuns.EndedHoldNothingIff | crates/crabstash-txn/src/mvcc.rs:101-218 | over every run answered by the lock table, no transaction that has ended holds a key or a range at any step if and only if every write that goes through is of an open transaction |
| LockedRuns.StepEndedExactly | crates/crabstash-txn/src/mvcc.rs:49-218 | one engine operation keeps that so if and only if it is no such write of a transaction that has ended |
| LockedRuns.RefusedCommitKeepsLocks | crates/crabstash-txn/src/mvcc.rs:162-203 | after a commit an open transaction stays open if and only if the commit was refused, and then all locks are as before |
| LockedRuns.LateWriteKeepsItsLock | crates/crabstash-txn/src/mvcc.rs:101-159 | once an ended transaction has written a key, every run keeps the key from all others until that transaction is aborted again |
| LockedRuns.LateRunBlocks | crates/crabstash-txn/src/mvcc.rs:206-218 | a run from the start in which an aborted transaction writes, holds the key, and the open one beside it is refused |
| LockedRuns.EngineLockIsExact | crates/crabstash-lock/src/lock_table.rs:89-144 | in every run of the engine the lock table answers a write as the specification says, whatever the key |
| MemTables.InsertedHas | crates/crabstash-storage/src/memtable.rs:40-50 | inserting a version adds it, replaces an equal key and keeps all others |
| MemTables.InsertedSorted | crates/crabstash-storage/src/memtable.rs:40-50 | the versions stay in key order |
| MemTables.MemTable.GetAtTs | crates/crabstash-storage/src/memtable.rs:26-38 | the newest version at or before the timestamp, or none if there is none |
| MemTables.WriteRepresents | crates/crabstash-storage/src/lsm.rs:245-275 | a write under the next sequence number becomes the current value of its key and of no other |
| MemTables.LateReadSeesContents | crates/crabstash-storage/src/lsm.rs:214-242 | a read at or past every sequence number returns the current value |
| MemTables.Storage.GetAtTs | crates/crabstash-storage/src/lsm.rs:214-242 | the newest version at or before the timestamp, which is the current value once no write is later |
| Transactions.TransactionManager.ValidateSerializable | crates/crabstash-txn/src/transaction.rs:153-167 | the answer is the validation predicate, for any order of the keys |
| Transactions.TransactionManager.Commit | crates/crabstash-txn/src/transaction.rs:169-191 | accepted exactly when open and prepared; records its keys |
| Transactions.TransactionManager.Gc | crates/crabstash-txn/src/transaction.rs:199-202 | keeps exactly the records after the watermark |
| Mvcc.MvccEngine.BeginWithIsolation | crates/crabstash-txn/src/mvcc.rs:49-77 | the whole new state, for each isolation level |
| Mvcc.MvccEngine.Get | crates/crabstash-txn/src/mvcc.rs:79-99 | own writes first, else the newest version at the start timestamp, tracked in both managers when Serializable |
| Mvcc.MvccEngine.Put | crates/crabstash-txn/src/mvcc.rs:101-132 | the error for each refusal, else the write set and the SSI record |
| Mvcc.MvccEngine.Delete | crates/crabstash-txn/src/mvcc.rs:134-159 | the error for each refusal, else the write set and the SSI record |
| Mvcc.MvccEngine.Commit | crates/crabstash-txn/src/mvcc.rs:162-203 | state and answer are those of the specification, through both validations, storage and the manager; a refusal by the SSI manager is reported as what it was |
| Mvcc.LockErrorsKeepTheirKind | crates/crabstash-txn/src/mvcc.rs:237-248 | a failed lock request is answered as the timeout, deadlock or abort it was, and any other as a conflict |
| Mvcc.MvccEngine.ApplyWrites | crates/crabstash-txn/src/mvcc.rs:189-195 | applying puts and deletes in any order gives the write set applied |
| Mvcc.MvccEngine.Abort | crates/crabstash-txn/src/mvcc.rs:206-218 | the whole new state |
| Bytes.U64RoundTrip | crates/crabstash-storage/src/wal.rs:187-187 | a little-endian 64-bit field is read back |
| Wal.RecordComesBack | crates/crabstash-storage/src/wal.rs:182-208 | a well-formed record, compressed or not, is decoded to itself |
| Wal.LogRecovers | crates/crabstash-storage/src/wal.rs:149-325 | recovery of a whole log is exactly what was written |
| Wal.PrefixRecovers | crates/crabstash-storage/src/wal.rs:266-325 | recovery of every byte prefix: the whole frames if less than a header is left over, an error otherwise |
| Wal.TornLogIsPrefix | crates/crabstash-storage/src/wal.rs:266-325 | recovery of a byte prefix is an error or a prefix of the records |
| Wal.DamageIsFound | crates/crabstash-storage/src/wal.rs:266-325 | behind any whole frames, one with a wrong checksum or an unknown type ends recovery with an error |
| Wal.RecordLayout | crates/crabstash-storage/src/wal.rs:149-207 | the bytes of a put and of a delete, one by one |
| Wal.Log.Append | crates/crabstash-storage/src/wal.rs:149-164 | the file grows by the frame of the record |
| Wal.Log.AppendBatch | crates/crabstash-storage/src/wal.rs:166-180 | the file grows by the frames of the records in order |
| Wal.Recover | crates/crabstash-storage/src/wal.rs:266-325 | the reading loop computes the recovery function, errors included |
| WalState.LogWithinEstimate | crates/crabstash-storage/src/wal.rs:454-460 | what is written is never larger than estimated |
| WalState.EstimateIsExact | crates/crabstash-storage/src/wal.rs:454-460 | without compression it is exactly as large |
| WalState.RotatesExactly | crates/crabstash-storage/src/wal.rs:454-562 | a new segment is opened if and only if the current one would pass the limit, and then exactly the older ones past the number to keep are archived |
| WalState.OpeningIsReopen | crates/crabstash-storage/src/wal.rs:387-434 | what opening reads off the directories is the state that was left, with the size of the last file as it is |
| WalState.ArchiveKeepsSegments | crates/crabstash-storage/src/wal.rs:534-562 | archiving changes the contents of no segment and leaves few live ones |
| WalState.AppendOk | crates/crabstash-storage/src/wal.rs:454-509 | an append or batch, with any rotation, adds exactly itself at the end and keeps every segment bounded |
| WalState.RunConserves | crates/crabstash-storage/src/wal.rs:386-562 | over every run with reopenings, archived then live segments are all appends in order; live ids, their number and segment sizes are bounded |
| WalManagers.WalManager.Open | crates/crabstash-storage/src/wal.rs:387-434 | the largest and smallest segment of the directory, in any listing order, and the size on disk |
| WalManagers.WalManager.AppendRecord | crates/crabstash-storage/src/wal.rs:454-480 | files and counters are those of the specification |
| WalManagers.WalManager.AppendBatch | crates/crabstash-storage/src/wal.rs:482-509 | files and counters are those of the specification |
| WalManagers.WalManager.RotateSegment | crates/crabstash-storage/src/wal.rs:511-532 | files and counters are those of the specification |
| WalManagers.WalManager.ArchiveOldSegments | crates/crabstash-storage/src/wal.rs:534-562 | the files moved are those of the specification |
| WalManagers.RecoverFiles | crates/crabstash-storage/src/wal.rs:590-609 | readable segments in id order, filtered by timestamp |
| WalManagers.RecoverPitr | crates/crabstash-storage/src/wal.rs:612-663 | both directories in id order, archived files first on equal ids |
| WalManagers.RecoverFromTimestamp | crates/crabstash-storage/src/wal.rs:572-610 | the live directory in id order, from a timestamp on |
| WalManagers.KeptExactly | crates/crabstash-storage/src/wal.rs:590-609 | what a time window keeps is every record within it, as often as it was there |
| WalManagers.KeptInOrder | crates/crabstash-storage/src/wal.rs:590-609 | and in the order it was there |
| WalManagers.PitrIsHistory | crates/crabstash-storage/src/wal.rs:612-663 | after any run, point-in-time recovery is exactly the history up to the target |
| WalManagers.LiveRecovers | crates/crabstash-storage/src/wal.rs:572-610 | after any run, recovery of the live directory is what its segments hold from the timestamp on |
| WalManagers.PitrIsEverything | crates/crabstash-storage/src/wal.rs:612-663 | after any run, point-in-time recovery at the largest timestamp is everything that was ever appended, in order |
| WalManagers.LiveIsEverythingIff | crates/crabstash-storage/src/wal.rs:568-610 | after any run, `recover_all` is everything that was ever appended if and only if the archived segments hold nothing, so always without an archive |
| StorageBloom.WithBitSets | crates/crabstash-storage/src/bloom.rs:43-43 | setting a bit sets that bit and no other |
| StorageBloom.BloomFilter.Insert | crates/crabstash-storage/src/bloom.rs:36-46 | the key passes from then on, and exactly its probes are added |
| StorageBloom.Test | crates/crabstash-storage/src/bloom.rs:48-61 | true if and only if all probes are set |
| StorageBloom.MoreBitsKeepKeys | crates/crabstash-storage/src/bloom.rs:36-61 | later insertions never make the filter forget a key |
| SSTableFormat.ItemComesBack | crates/crabstash-storage/src/sstable.rs:481-491 | an encoded entry is parsed back, whatever follows it |
| SSTableFormat.ItemLayout | crates/crabstash-storage/src/sstable.rs:481-491 | the bytes of an entry and of a tombstone, one by one |
| SSTableFormat.SearchFinds | crates/crabstash-storage/src/sstable.rs:234-258 | searching an encoded block is looking the key up in its entries |
| SSTableFormat.StoredBlockComesBack | crates/crabstash-storage/src/sstable.rs:198-232 | a stored block is read back through checksum and decompression |
| SSTableFormat.DamagedBlockIsFound | crates/crabstash-storage/src/sstable.rs:198-220 | a stored block whose checksum does not match is refused |
| SSTableFormat.MetadataComesBack | crates/crabstash-storage/src/sstable.rs:108-154 | encoded metadata is decoded to itself |
| SSTableFormat.TableOpens | crates/crabstash-storage/src/sstable.rs:66-106 | opening a finished file gives its metadata |
| SSTableFormat.DamagedFileIsFound | crates/crabstash-storage/src/sstable.rs:66-106 | a file without the magic number at its end, or whose metadata would start behind it, is refused |
| SSTables.SSTableBuilder.Add | crates/crabstash-storage/src/sstable.rs:473-501 | the entry is added at the end and in the filter; the block is closed exactly when it reaches the limit |
| SSTables.SSTableBuilder.FlushBlock | crates/crabstash-storage/src/sstable.rs:503-531 | the current block becomes the last stored one, and nothing added is lost |
| SSTables.SSTableBuilder.Finish | crates/crabstash-storage/src/sstable.rs:540-577 | the file opens, and holds exactly what was added |
| SSTables.LayoutHolds | crates/crabstash-storage/src/sstable.rs:473-531 | the blocks an entry sequence is cut into hold exactly that sequence |
| SSTables.BlocksAreCut | crates/crabstash-storage/src/sstable.rs:473-501 | every block but the last is cut by the entry that makes it reach 4096 bytes, and by no earlier one |
| SSTables.WriteTable | crates/crabstash-storage/src/lsm.rs:379-383 | adding entries one by one and finishing gives a file that opens and holds exactly them |
| TableReader.FindBlock | crates/crabstash-storage/src/sstable.rs:174-178 | binary search over first keys in order, equal ones included, finds a block that starts with the key, or else the last that starts before it, or the first |
| TableReader.SearchedBlockDecides | crates/crabstash-storage/src/sstable.rs:156-168 | the block found decides the lookup, unless the entries of the key begin in the block before |
| TableReader.PointReadIsLookup | crates/crabstash-storage/src/sstable.rs:156-168 | for entries in key order a point read answers the first entry of the key, or nothing, unless the block before the one found ends with the key |
| TableReader.LaterBlockAnswers | crates/crabstash-storage/src/sstable.rs:156-168 | in that case it answers the entry the block starts with, which has another entry of the key before it |
| TableReader.WholeIffUnsplit | crates/crabstash-storage/src/sstable.rs:174-178 | whatever the search finds, the first entry of a key is read, if and only if no block boundary separates two entries of the key |
| TableReader.WriteAndGet | crates/crabstash-storage/src/sstable.rs:156-168 | from entries in key order to the answer of `get` on the file written and opened; for ascending keys a value is answered if and only if it was added under the key |
| TableReader.LookupIsExact | crates/crabstash-storage/src/sstable.rs:156-168 | a value is found exactly when it was added, so nothing is found exactly for a missing key or a tombstone |
| TableReader.SSTable.Get | crates/crabstash-storage/src/sstable.rs:156-168 | the point read, with its errors, on any file whose blocks start in key order |
| TableReader.SearchBlock | crates/crabstash-storage/src/sstable.rs:234-258 | the parse loop computes the search function |
| TableReader.SSTableIterator.constructor | crates/crabstash-storage/src/sstable.rs:320-333 | all entries are still to come, none for an empty table |
| TableReader.SSTableIterator.Next | crates/crabstash-storage/src/sstable.rs:429-431 | one entry less is still to come |
| TableReader.SSTableIterator.ParseEntry | crates/crabstash-storage/src/sstable.rs:371-413 | the next entry becomes current, across block boundaries |
| TableReader.SSTableIterator.Seek | crates/crabstash-storage/src/sstable.rs:341-356 | for entries in key order, equal keys included: what is still to come is everything at or after the target from the block found on |
| TableReader.SeekIsExactly | crates/crabstash-storage/src/sstable.rs:341-356 | that is everything at or after the target in the table if and only if the block before does not end with the target |
| TableReader.SeekExactIffUnsplit | crates/crabstash-storage/src/sstable.rs:341-347 | whatever block the search finds, nothing at or after the target is skipped if and only if no block boundary separates two entries of it |
| Flushes.ReadFlushed | crates/crabstash-storage/src/lsm.rs:370-398 | a key read from a file just flushed is answered in its newest version, or in an older one exactly if the block found starts with the key and the block before ends with it |
| Flushes.FlushKeepsContents | crates/crabstash-storage/src/lsm.rs:214-242 | such a read answers what the memtable held, where no block boundary separates the versions of the key |
| Flushes.OverwrittenValueIsRead | crates/crabstash-storage/src/lsm.rs:370-398 | three versions for which every read of the flushed key answers the overwritten value |
| Iterators.MergeIterator.Next | crates/crabstash-storage/src/iterator.rs:79-101 | gives the current winner and moves past its user key in every input |
| Iterators.Merge | crates/crabstash-storage/src/iterator.rs:32-101 | read to its end, one entry for each user key of any input, ascending: newest, then larger index |
| Iterators.LeastHeadWins | crates/crabstash-storage/src/iterator.rs:32-40 | the top of the heap is the winner of its user key among all inputs |
| Iterators.MergeIsUnique | crates/crabstash-storage/src/iterator.rs:79-101 | there is only one such merge |
| Iterators.TwoMergeIterator.Next | crates/crabstash-storage/src/iterator.rs:148-159 | gives the next entry of the merge of two |
| Iterators.TwoMergeIsOverride | crates/crabstash-storage/src/iterator.rs:110-160 | where the first input is never older the merge is map override, in order |
| Iterators.TwoMergeUniqueIff | crates/crabstash-storage/src/iterator.rs:110-160 | each user key comes once if and only if the first input is never older on a shared one |
| Iterators.TwoMergeRepeats | crates/crabstash-storage/src/iterator.rs:110-160 | two inputs of one entry each whose shared user key comes out twice |
| Iterators.BoundedIterator.Next | crates/crabstash-storage/src/iterator.rs:207-211 | one entry less, up to the bound |
| Iterators.BoundedIsFilter | crates/crabstash-storage/src/iterator.rs:168-211 | over keys in order, stopping at the bound keeps exactly what is within it |
| Iterators.BoundedMergeIsRange | crates/crabstash-storage/src/iterator.rs:110-212 | a bounded merge of two is the range part of the override |
| Compaction.LeastHead | crates/crabstash-storage/src/compaction.rs:162-169 | the first iterator among those with the least key |
| Compaction.Compact | crates/crabstash-storage/src/compaction.rs:108-123 | one entry for each user key of any input, ascending, from the lowest input that holds it, tombstones kept |
| Compaction.CompactionKeepsReads | crates/crabstash-storage/src/compaction.rs:48-76 | a read of the output answers what reading the inputs in order answered: the upper level overrides the lower |
| Compaction.CompactedFileKeepsReads | crates/crabstash-storage/src/compaction.rs:108-123 | so does a point read of the file the compacted entries are written to |

## Left out

- Threads, condition variables, timeouts, the detector thread, group commit and memory orderings: operations are atomic steps, and a blocked lock request ends in its timeout.
- Files as the system sees them (buffering, fsync, directory errors), the block cache, concurrent maps and the skip list: a file is its bytes, a directory a map from id to bytes, an ordered map its sorted entries.
- CRC32, LZ4, the key hashes and the sizing of the filters: parameters of the model.
- LockState.RunIsSafe: models a table whose range checks overlook nothing; LockState.TableRunIsSafe says for which runs the table is that, and LockState.KeyKeepsSafeIff why not for all.
- LockTables.LockTable.LockKeyOf: past the sentinel which ranges without an end are overlooked depends on the shape of the tree and is left open; RangeLock.SearchExactIffWithinSentinel gives the boundary.
- LockTables.LockTable.WaitFor: a waiting request is never woken by another step, so only the timeout outcome is modelled; a request granted after waiting is the same request made at that later step.
- LockTables.LockEntry.Acquire: the immediate grant and the timeout are modelled, not a grant after waiting, for the same reason.
- LockTables.LockEntry.Upgrade: the immediate outcome of an upgrade is modelled, not a grant after waiting, for the same reason.
- LockTables.LockTable.UpgradeLockOf: the immediate outcome of an upgrade is modelled, not a grant after waiting, for the same reason.
- Ssi.SSIManager.ValidateAndCommitWithKeys: commit timestamps are fresh, because the oracle is not part of this model.
- Mvcc.MvccEngine.Get: its answer is tied to the current value only while storage sequence numbers have not passed the start timestamp, which holds because they count writes while timestamps count milliseconds; serial replay is stated under that assumption.
- TxnState.WriteSet.Put: the write set is a value inside the transaction object, so `put` and `delete` return the new value.
- Mvcc.MvccEngine.BeginWithIsolation: the id counter has not run through all 64-bit values; the registration with the lock manager is part of LockedRuns, not of the class.
- Mvcc.MvccEngine.Put: the answer of the lock manager is an arbitrary input, so serial replay does not rest on locks at all; runs in which the lock table gives it are in LockedRuns.
- Mvcc.MvccEngine.Delete: as for `put`, the answer of the lock manager is an arbitrary input.
- Mvcc.MvccEngine.Commit: the release of the locks is part of LockedRuns, not of the class, and commit timestamps are fresh.
- Mvcc.MvccEngine.Abort: the release of the locks is part of LockedRuns, not of the class.
- MemTables.Storage.GetAtTs: immutable memtables and table files are not searched; what a flushed file answers is in Flushes.
- SSTables.SSTableBuilder.Add: lengths fit the 32-bit and 64-bit fields of the format, and a value is not as long as the tombstone mark.
- SSTables.WriteTable: every entry, and every block with it, fits the fields of the format (`RoomForAll`); the same holds for TableReader.WriteAndGet and Flushes.ReadFlushed.
- Wal.LogRecovers: records are well formed (a put has a value, a delete has none, lengths fit 32 bits), and compressed logs are read with decompression on.
- WalManagers.WalManager.Open: the directory holds nothing but whole segment files.
- TableReader.SSTable.Get: block first keys are in order, as in every file of the builder that was given entries in order; on others the result of the library's binary search is unspecified.
- TableReader.SSTableIterator.constructor: models tables that came out of the builder.
- SSTableIterator and MergedIterator errors on corrupt files; point reads and recovery do carry their errors.
- TableReader.SSTableIterator.ParseEntry: models tables that came out of the builder, for which parsing cannot fail.
- Compaction.Compact: the inputs are the entry sequences the table iterators give and the output is the sequence of `add` calls; manifest changes and file removal are not modelled.
- `SSTable.max_key` and `ranges_overlap`: the last key of the final block is taken from the block before it.
- The snapshot iterator, scans of the engine, memtable rotation, and point reads across several files: each file alone is modelled, not the order in which the levels are searched.
- Read-only commits beyond their refusal, and waiting for a safe snapshot: its outcome is an input.
- The database and transaction wrappers, statistics, error texts, manifest parsing and compaction picking.
