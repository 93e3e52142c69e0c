# ShardDB, modelled and verified

ShardDB is a sharded key-value store with multi-version reads, exclusive locks, two-phase commit across
shards, a range map that is split online, a small SQL layer, a write-ahead log and a text format for
replicated log entries. This project models the logic of these parts in Dafny and proves what they promise.

`dafny verify dfyconfig.toml` checks everything.

## How the parts fit

| file | part |
|---|---|
| `Bytes.dfy`, `Text.dfy` | byte order, big-endian and decimal numbers, separated fields |
| `Mvcc.dfy` | encoded keys (user key, then inverted timestamp) and the order they induce |
| `Tree.dfy` | the ordered tree as a strictly ascending sequence of items; `Raw` and `View` read it as maps |
| `Store.dfy` | a store as its users see it: versions and locks; lock exclusion; the one-phase fast path |
| `SeekRead.dfy` | the seek-based point read against the one-timestamp-at-a-time search |
| `Gc.dfy`, `RangeScan.dfy` | garbage collection in one pass; range scans |
| `MemoryStore.dfy` | the storage engine itself, a class updated in place |
| `TwoPhase.dfy`, `TwoPhaseInvariant.dfy`, `Reachability.dfy`, `Progress.dfy` | distributed transactions as a step system, its invariant, what sequences of steps reach, and that uncontended transactions can commit |
| `Snapshot.dfy`, `Aborts.dfy`, `Stability.dfy` | the theorems about whole runs: atomic reads, what aborts leave behind, when an answer is final |
| `Coordinator.dfy`, `CommitRun.dfy` | the coordinator's own code, and its Commit as steps of the system |
| `Meta.dfy`, `Migration.dfy` | the range map, the router, and moving part of a range |
| `Sql.dfy`, `Wal.dfy`, `Command.dfy` | table scan, point read and insert; the log; replicated log entries |

The engine's methods are specified by the functions of `Store.dfy`: after each method the class's `Contents()`
is that function of its old `Contents()`. The step system applies the same functions at its shards, so its
theorems speak about the stores the engine implements.

## What turned out

* **Encoded keys have no terminator.** A key and an extension of it interleave. The seek-based read never
  returns a wrong value, but it misses a visible version exactly when another key's version sorts between the
  seek key and that version (`SeekReadExact`). Two conditions exclude this: no prefix relation between the
  queried key and other stored keys, or ASCII keys with timestamps below 2^63 (`Separate`). Reading the latest
  version (the greatest timestamp) is outside the second condition: among ASCII keys at low timestamps it misses
  exactly the stored keys that have a stored extension (`LatestReadExact`). The comment at
  `internal/storage/memory.go:262` (user keys ascending) does not hold either: the traversal ascends if and only if
  no stored version of an extension sorts before one of its prefix (`AscendsExactly`). With ASCII keys and low
  timestamps an extension always does (`LongerKeyFirst`), so it ascends if and only if the keys are prefix-free
  (`AsciiAscendsExactly`). `PrefixPair` gives trees for which the order and the latest read fail.
* **Garbage collection** keeps every read at or above the safe timestamp, for all keys, and runs compose, for all
  keys. It leaves one version at or below the safe timestamp per key if and only if those versions were
  contiguous (`CollectExact`); `InterruptedTree` gives trees in which they are not.
* **Range export** is not exact in general. `ScanExact` gives the exact condition on the stored versions, for all
  keys. With an ASCII start, ASCII keys and timestamps below 2^63 it becomes one on keys (`AsciiScanExact`): the
  export is exact if and only if no stored key in the range has a stored extension past the end, and every stored
  proper prefix of the start that is below the end has one. (Only when the start itself is past the end must that
  extension also be one the seek does not skip.)
* **Table scans** are exact at every timestamp if and only if no stored key continues `table:` with the byte 0xFF.
  They agree with the point read of an unlocked key if and only if nothing intercepts its seek
  (`ScanAgreesExactly`). At the greatest timestamp, the only one the server queries at
  (`cmd/shard-node/main.go:181`), the scan shows rows of ASCII keys that the point read misses: those with a
  stored extension (`LatestScanAgrees`).
* **A split without a key** breaks the partition unless some range starts at the empty key (`NilSplit`).
* **An aborted transaction can be installed.** When the one-shot send fails, the coordinator records an abort
  (`internal/txn/coordinator.go:108-110`), but the message may still arrive, even after all aborts. A transaction can
  end aborted with a write installed if and only if its writes go to one shard (`AbortLeaksExactly`); then all its
  writes can be installed.
* **One-shot commits** take their timestamp before they are delivered. A two-phase transaction's atomicity is not
  affected by them, but an answered read can still change. It is final if and only if no one-shot write of the key
  was sent with a timestamp between the answer's and the read's (`ReadFinalExactly`); locks in the way of such a
  write do not help, since every lock can be released. Runs with such a write exist for every one-shard batch
  (`LateRun`).
* **Ingest ignores locks.** It is the only operation that changes the versions of a locked key (`LockExclusion`).
* **Log records** round-trip if and only if they are shorter than 2^32 bytes. A log cut right before a record's data or
  checksum ends its replay with the plain end-of-file error, any other cut inside a record with the unexpected one
  (`ReplayTruncated`).
* **Log entries** round-trip if and only if no argument contains a space. A commit entry whose timestamp text is no
  number commits at timestamp 0 (`CommitTextRead`, `ScanLeading`).

## Assumptions

* A prepare call has no effect after it returned, and an acknowledged prepare took the lock. The coordinator relies
  on this at `internal/txn/coordinator.go:120-128`; the handler at `cmd/shard-node/main.go:190-195` replies before
  the entry is applied, so the model has to assume it. A prepare that failed may or may not have taken the lock.
* Transaction ids are fresh: the coordinator makes them from the clock (`NamesAreNew`). Each transaction gets one Commit or Abort call and no write afterwards. The clock is
  strictly increasing. Routing is fixed during a run. A store operation is one atomic step.
* Commit, abort and one-shot messages may be lost, reordered and duplicated.
* `ReadFinalExactly` asks that the clock is not within a batch's length of 2^64: a fully prepared transaction can give
  up its locks only by taking a timestamp.
* Go strings and byte slices are byte sequences. An absent bound is `None`; elsewhere nil and empty are the same.
  Timestamps are bounded by 2^64, shard ids are unbounded.
* The checksum, the decoding of a one-shot request and the parsing of an insert are parameters, and so are the
  replies and the readings of the clock in the coordinator's Commit.

## Model

| member | source | states |
|---|---|---|
| Mvcc.EncodeKey | internal/storage/mvcc.go:10-20 | the fresh buffer holds the key followed by the big-endian inverted timestamp |
| Mvcc.DecodeEncode | internal/storage/mvcc.go:10-34 | decoding an encoded key gives back key and timestamp, for all of them |
| Mvcc.EncodeDecode | internal/storage/mvcc.go:23-34 | every string of at least 8 bytes is the encoding of what it decodes to |
| Mvcc.DecodeCollides | internal/storage/mvcc.go:23-34 | two strings decode to the same version if and only if they are equal or one, too short to be encoded, is the other's key at timestamp 0 |
| Mvcc.NewestFirst | internal/storage/mvcc.go:16-18 | for one key, byte order is descending timestamp order, both directions |
| Mvcc.DivergingOrder | internal/storage/mvcc.go:8-20 | keys without prefix relation sort as keys whatever the timestamps |
| Mvcc.LongerKeyFirst | internal/storage/mvcc.go:10-20 | with ASCII keys and low timestamps every extension sorts before its prefix |
| SeekRead.AscendsExactly | internal/storage/memory.go:260-262 | for all keys and timestamps the traversal meets user keys in ascending order if and only if no stored version of an extension sorts before one of its prefix |
| SeekRead.AsciiAscendsExactly | internal/storage/memory.go:260-262 | with ASCII keys and low timestamps it does if and only if the stored keys are prefix-free |
| SeekRead.PrefixPair | internal/storage/memory.go:243-262 | every ASCII key and low-timestamp proper prefix of it form a tree whose traversal descends and whose latest read misses the prefix |
| Mvcc.BetweenIsPrefixRelated | internal/storage/mvcc.go:10-20 | only a prefix or an extension of a key can sort between two of its versions |
| Mvcc.SeparateNotBetween | internal/storage/mvcc.go:10-20 | no version of a separate key sorts between two versions of a key |
| SeekRead.SeparateContiguous | internal/storage/memory.go:260-262 | in a tree of pairwise separate keys the versions of each key stand side by side |
| Tree.InsertSpec | internal/storage/memory.go:28-35 | replace-or-insert keeps the tree strictly ascending and is the map update |
| Tree.RemoveSpec | internal/storage/memory.go:309-312 | delete keeps the order, is map removal, and drops one item exactly when the key is stored |
| Store.LockExclusion | internal/storage/memory.go:45-147 | over any sequence of prepares, commits, aborts, one-phase commits and ingests, a lock stays with its holder's latest value until the holder ends it, the key's versions change by the ingests only, the holder's commit then installs that value and its abort drops the lock only |
| Store.LockedKeyUntouched | internal/storage/memory.go:45-147 | if the ingests bring no version of the locked key, none appears or changes |
| MemoryStore.Execute | internal/storage/memory.go:45-351 | the engine carries out any such sequence as the specification's run does |
| Store.FastPathRefines | internal/storage/memory.go:121-147 | the one-phase commit leaves what preparing all and committing all leaves, duplicates included; with a foreign lock it changes nothing |
| Store.RepeatedCommitFails | internal/storage/memory.go:73-81 | of a prepared batch's commits, exactly the first for each key succeeds |
| SeekRead.SeekReadExact | internal/storage/memory.go:210-231 | the seek never returns a wrong value, and equals the simple search if and only if no other key's version intercepts it |
| SeekRead.SeekReadCorrect | internal/storage/memory.go:189-231 | for a key separate from the stored ones the read is the newest version not after readTs |
| SeekRead.AbsentKeyRead | internal/storage/memory.go:201-206 | a key without versions is reported missing whatever else is stored |
| SeekRead.LatestReadMissesPrefixKey | internal/storage/memory.go:243-245 | the latest read misses every ASCII key with a stored extension, both written at low timestamps |
| SeekRead.LatestReadExact | internal/storage/memory.go:243-245 | among ASCII keys at low timestamps the latest read is wrong exactly for stored keys with a stored extension |
| Gc.CollectPreservesReads | internal/storage/memory.go:251-315 | for every tree, key and readTs at or above safeTs the newest visible version is the same before and after, and so is a correct seek |
| Gc.CollectShrinks | internal/storage/memory.go:295-304 | versions are only removed, values stay, and none above safeTs is removed |
| Gc.CollectComposes | internal/storage/memory.go:285-312 | collecting up to s1 and then s2 is collecting up to s2; a repeated run deletes nothing; no condition on keys |
| Gc.CollectExact | internal/storage/memory.go:270-304 | one version at or below safeTs per key remains if and only if these versions were contiguous |
| Gc.InterruptedTree | internal/storage/memory.go:270-304 | every ASCII key and proper prefix of it give a tree in which collection leaves two old versions of the prefix |
| Gc.CollectExactForSeparateKeys | internal/storage/memory.go:270-304 | pairwise separate keys keep at most one version at or below safeTs |
| RangeScan.ScanSound | internal/storage/memory.go:317-330 | a scan visits stored items only, in order, from the seek key on and before the end |
| RangeScan.VisitedExactly | internal/storage/memory.go:317-330 | an item is visited if and only if it is at or after the seek key, not past the end, and no stored version past the end stands before it |
| RangeScan.ScanExact | internal/storage/memory.go:317-341 | for all keys and timestamps: the scan visits exactly the items in range if and only if no version in range is cut off by one past the end and every unskipped version of a proper prefix of the start is |
| RangeScan.AsciiScanExact | internal/storage/memory.go:317-341 | with an ASCII start, ASCII keys and low timestamps: exact if and only if no stored key in range has a stored extension past the end and every stored proper prefix of the start below the end has one that the seek does not skip |
| RangeScan.UnstraddledScanExact | internal/storage/memory.go:317-341 | exact for all timestamps without a stored proper prefix of the start and without a stored key extending past the end |
| RangeScan.PrefixFreeScanExact | internal/storage/memory.go:317-341 | prefix-free keys, none a proper prefix of the start: the export is exact, also unbounded |
| RangeScan.StraddledKeyLost | internal/storage/memory.go:324-326 | an ASCII key in range with a stored extension past the end loses all its low-timestamp versions |
| MemoryStore.MemoryStore.constructor | internal/storage/memory.go:37-42 | a new store has no versions and no locks |
| MemoryStore.MemoryStore.Prepare | internal/storage/memory.go:45-65 | takes or renews the lock unless another transaction holds it; the error names that transaction |
| MemoryStore.MemoryStore.Commit | internal/storage/memory.go:68-94 | moves the holder's value to the version at commitTs and releases; otherwise an error and no change |
| MemoryStore.MemoryStore.Abort | internal/storage/memory.go:97-113 | releases the holder's lock; an error only when another transaction holds it |
| MemoryStore.FindConflict | internal/storage/memory.go:127-134 | finds a foreign lock on some key of the batch if and only if there is one |
| MemoryStore.MemoryStore.OnePhaseCommit | internal/storage/memory.go:121-147 | installs all writes and releases their locks, or fails and changes nothing, exactly when a key is locked by another |
| MemoryStore.MemoryStore.GetTxn | internal/storage/memory.go:189-231 | is refused, naming the holder, if and only if the key is locked; otherwise equals the simple newest-version read if and only if nothing intercepts the seek |
| MemoryStore.FindShadowed | internal/storage/memory.go:279-307 | the traversal collects exactly the keys of the shadowed items, each once |
| MemoryStore.DeleteAll | internal/storage/memory.go:309-312 | deleting the collected keys removes exactly them and the count is the drop in size |
| MemoryStore.MemoryStore.RunGC | internal/storage/memory.go:252-315 | the tree becomes the collected tree and the count is the drop in size |
| MemoryStore.VisitFrom | internal/storage/memory.go:321-328 | the traversal visits the items up to the first key past the end or the first item the callback refuses |
| RangeScan.HandedExactly | internal/storage/memory.go:327-327 | a callback is handed a prefix of the items if and only if that ends with the first item it refuses, or is everything |
| MemoryStore.MemoryStore.Scan | internal/storage/memory.go:317-330 | hands the callback exactly the scan's items, up to and including the first it refuses |
| MemoryStore.MemoryStore.ScanRange | internal/storage/memory.go:334-341 | returns the visited items as a map of raw keys |
| MemoryStore.MemoryStore.Ingest | internal/storage/memory.go:344-351 | the tree becomes the old map overlaid with the data, whatever the traversal order; encoded entries overlay the versions and leave the locks |
| MemoryStore.MemoryStore.Put | internal/storage/memory.go:234-241 | installs the value at timestamp 1 unless another transaction holds the key |
| MemoryStore.MemoryStore.Get | internal/storage/memory.go:243-245 | the seek's answer at the greatest timestamp; it equals the latest version if and only if the key is locked or nothing intercepts the seek |
| TwoPhaseInvariant.QueueKeepsLast | internal/txn/coordinator.go:89-103 | grouping by shard, traversed in any order, keeps every key's last write |
| TwoPhaseInvariant.QueuePermutes | internal/txn/coordinator.go:89-128 | and prepares every write exactly once |
| TwoPhaseInvariant.StepKeepsInv | internal/txn/coordinator.go:73-168 | every step of coordinator, shards and network keeps the invariant |
| TwoPhaseInvariant.StepKeepsRecorded | internal/txn/coordinator.go:96-168 | one-shot transactions write to one shard, and the messages of every decision have been sent, after every step |
| TwoPhaseInvariant.RunInv | internal/txn/coordinator.go:73-168 | the invariant and these records hold in every state of every run |
| Snapshot.VersionProvenance | internal/storage/memory.go:68-147 | every version is the last write of the one transaction that took its timestamp, which is decided to commit or writes to one shard only |
| Aborts.LeakIsOnOneShard | internal/txn/coordinator.go:96-115 | in every state of every run an aborted transaction with an installed write is on one shard |
| Aborts.AbortedOneShotLands | internal/txn/coordinator.go:107-110 | an open one-shard transaction without foreign locks can end aborted, its aborts delivered, with all its writes installed |
| Aborts.LeakRun | internal/txn/coordinator.go:107-110 | for every list of writes to one shard there is a run that ends so |
| Aborts.AbortLeaksExactly | internal/txn/coordinator.go:96-168 | a transaction can be aborted with a write installed if and only if its writes go to one shard |
| Snapshot.CommittedLands | internal/txn/coordinator.go:130-145 | once decided, each written key is locked with the value to install or has it installed at the one timestamp |
| Snapshot.CommittedCompletes | internal/txn/coordinator.go:139-145 | once all commits were delivered, in any order and multiplicity, all writes are installed and no lock is held |
| Snapshot.AbortedReleases | internal/txn/coordinator.go:150-168 | once all aborts were delivered an aborted transaction holds no lock; a failed one-shot never holds one |
| Snapshot.RunIsLater | internal/txn/coordinator.go:130-137 | timestamps and decisions are final, and a timestamp taken later is later than the clock was |
| Snapshot.RefusedExactly | internal/storage/memory.go:189-207 | a read at a shard is refused, naming the holder, if and only if the key is locked, and otherwise answers the newest version |
| Snapshot.ReadReflects | internal/storage/memory.go:189-207 | an answered read not ahead of the clock reflects a two-phase transaction's write exactly when its timestamp is not after the read's, and answers its last value when it is the newest |
| Snapshot.SnapshotAtomicity | internal/txn/coordinator.go:120-145 | two such reads at any moments of any run reflect all or none of any two-phase transaction's writes |
| Snapshot.EngineAtomicity | internal/storage/memory.go:189-231 | the same for the engine's seek on trees that hold the shards' versions, when nothing intercepts it: it answers as specified and reflects all or none |
| Snapshot.CollectedAtomicity | internal/storage/memory.go:252-315 | and when each store was collected up to any timestamp not after the read's |
| Stability.ReadStable | internal/txn/coordinator.go:130-145 | later reads are refused or answer the same if no one-shot write of the key is late |
| Stability.LateOneShotChangesRead | internal/txn/coordinator.go:107-108 | a late one-shot write none of whose keys is locked changes the answer when it arrives |
| Stability.ReleaseLock | internal/txn/coordinator.go:117-168 | every lock can be released without touching another, unlocked key |
| Stability.LateArrives | internal/txn/coordinator.go:107-108 | a late one-shot write, blocked or not, can be made to arrive and changes the answer |
| Stability.ReadFinalExactly | internal/txn/coordinator.go:107-145 | in every state of every run an answered read's answer is final if and only if no one-shot write of the key is late |
| Stability.LateRun | internal/txn/coordinator.go:107-108 | for every list of writes to one shard there is a run with a late one-shot write of any of its unlocked keys |
| Progress.UncontendedCommits | internal/txn/coordinator.go:120-148 | an open multi-shard transaction without foreign locks can reach a state with all its writes installed at one timestamp |
| Coordinator.Coordinator.constructor | internal/txn/coordinator.go:42-47 | no transactions at first |
| Coordinator.Coordinator.Begin | internal/txn/coordinator.go:49-60 | registers an active transaction without writes, under an id made from the clock that is new while the clock moves forward |
| Coordinator.NamesAreNew | internal/txn/coordinator.go:52-52 | different readings of the clock give different ids |
| Coordinator.Coordinator.AddWrite | internal/txn/coordinator.go:62-71 | appends the write if and only if the transaction is active |
| Coordinator.Coordinator.Abort | internal/txn/coordinator.go:150-168 | marks the transaction aborted and sends one abort per write, or fails for an unknown one |
| Coordinator.Coordinator.Commit | internal/txn/coordinator.go:73-148 | each outcome's exact condition, state change, prepares in order up to the first refusal, and messages sent, with the timestamp read after the last acknowledgement |
| CommitRun.CommitIsSteps | internal/txn/coordinator.go:73-148 | every outcome is reached by steps of the system with the same decision, timestamp and messages |
| CommitRun.StampedAfterAcks | internal/txn/coordinator.go:120-145 | with a clock that moves on at every reply, a successful two-phase Commit passes through a state before its timestamp in which all its keys are locked and the clock shows the reading before the last |
| CommitRun.AbortIsSteps | internal/txn/coordinator.go:150-168 | Abort on an open transaction is a step that records it, sends one abort per write and touches no store |
| CommitRun.FailedPrepareMayLock | internal/txn/coordinator.go:120-128 | a prepare reported as failed may have taken the lock, and the transaction is aborted |
| CommitRun.ClockAdvances | internal/txn/coordinator.go:132-132 | the clock can move on to any later time by itself |
| Coordinator.BeginAccepts | internal/txn/coordinator.go:49-80 | a transaction just begun takes a write and is then decided |
| Coordinator.CommitIsFinal | internal/txn/coordinator.go:62-148 | after Commit of a transaction with writes, a second Commit and a write are refused, send nothing and change nothing; a commit without writes leaves it active |
| Coordinator.AbortIsFinal | internal/txn/coordinator.go:62-168 | after Abort, commits and writes are refused, send nothing and change nothing |
| Coordinator.GroupByShard | internal/txn/coordinator.go:89-94 | the groups are the writes routed to each shard, in write order |
| Coordinator.SendPrepares | internal/txn/coordinator.go:120-128 | prepares go out shard by shard until the first refusal, in any order of the shards |
| Coordinator.SendCommits | internal/txn/coordinator.go:139-145 | as many commits as writes: one for each and nothing else |
| Coordinator.SendAborts | internal/txn/coordinator.go:162-166 | one abort per write, in write order |
| Meta.MetaStore.constructor | internal/meta/store.go:35-44 | one unbounded range owned by shard 1 |
| Meta.NewStoreOwns | internal/meta/store.go:35-76 | a new table gives every key to shard 1 |
| Meta.SearchAfter | internal/meta/store.go:56-63 | on a partition the binary search separates the ranges that start after the key from the others |
| Meta.OwnerUnique | internal/meta/store.go:13-20 | in a partition every key lies in exactly one range |
| Meta.MetaStore.GetShard | internal/meta/store.go:47-76 | on a partition the shard of the containing range, with the default branch unreachable |
| Meta.MetaStore.Apply | internal/meta/store.go:79-163 | a split rewrites the containing range in place or is rejected; a registration touches only the shards; anything else changes nothing |
| Meta.SplitKeepsPartition | internal/meta/store.go:104-156 | a split at a key keeps the ranges sorted, adjacent and covering |
| Meta.SplitRejected | internal/meta/store.go:123-133 | a split is rejected, changing nothing, exactly when a range already starts at the key |
| Meta.SplitOwnership | internal/meta/store.go:135-151 | ownership changes only inside the target range, left of the key to one shard and the rest to the other |
| Meta.NilSplit | internal/meta/store.go:88-140 | a split without a key keeps the partition if and only if some range starts at the empty key |
| Meta.HistoryPartition | internal/meta/store.go:99-158 | from creation on, any sequence of commands whose splits have a key keeps the partition |
| Meta.Router.GetShardID | internal/router/router.go:50-67 | on a partition the owner, with the default unreachable; the default 1 when no range contains the key |
| Meta.Router.Locate | internal/router/router.go:70-75 | the owner's address, empty when unknown |
| Meta.LookupsAgree | internal/router/router.go:48-67 | on a partition binary search and linear scan return the same owner for every key |
| Meta.ReachableLookupsAgree | internal/router/router.go:48-67 | so they do on every table reached from creation by commands whose splits have a key |
| Migration.PrefixFreeRead | internal/storage/memory.go:189-231 | with prefix-free stored keys every read, also of keys not stored, is exact |
| Migration.RoutedRead | internal/meta/store.go:47-76 | looking the shard up and asking its store is the routed read |
| Migration.RoutedGetExactly | internal/storage/memory.go:189-207 | a routed read names the holder of a locked key, and otherwise answers the newest version at the key's owner if and only if nothing intercepts the seek there, in particular for prefix-free keys |
| Migration.MovedReads | internal/storage/memory.go:334-351 | after export and ingest the destination answers as the source in the moved range and as before elsewhere |
| Migration.RoutedReadsSurvive | internal/meta/store.go:104-151 | export, ingest and split leave every routed read of every key at every timestamp unchanged |
| Migration.MoveRange | cmd/shard-node/main.go:248-310 | the three operations in sequence produce the moved tree and the split table |
| Sql.ExecuteScan | internal/sql/executor.go:101-143 | returns the rows of the scanned items, first visible version of each key |
| Sql.RealKeyIsPrimaryKey | internal/sql/executor.go:124-130 | the row shows the primary key if and only if the table name has no colon |
| Sql.TableScanExact | internal/sql/executor.go:101-143 | one row per primary key with a visible version, carrying the newest, at every readTs, if and only if no stored key continues the prefix with 0xFF |
| Sql.RowsFollow | internal/sql/executor.go:112-136 | the rows stem from items at ascending positions of the traversal |
| Sql.RowsAscend | internal/sql/executor.go:112-136 | they ascend by primary key when the traversal ascends |
| Sql.ScanAgreesExactly | internal/sql/executor.go:63-143 | at every timestamp the scan shows an unlocked key as its point read answers if and only if nothing intercepts the seek, provided no stored key continues the prefix with 0xFF |
| Sql.ScanAgreesWithPointRead | internal/sql/executor.go:63-143 | with ASCII keys and low timestamps they agree |
| Sql.LatestScanAgrees | cmd/shard-node/main.go:181-181 | at the greatest timestamp they agree about such a key if and only if it is not both stored and extended by a stored key |
| Sql.ExecutePointGet | internal/sql/executor.go:63-77 | an error for a locked key, no row for a missing one, else key and value |
| Sql.ExecuteInsert | internal/sql/executor.go:28-61 | one new version of table:pk holding the joined values, or an error and no change when another transaction holds the key |
| Sql.InsertIsRead | internal/sql/executor.go:28-77 | an inserted row, its columns joined by commas, is what later reads of table:pk are specified to answer until a newer version |
| Sql.InsertIsSought | internal/sql/executor.go:28-77 | the engine's read answers it if and only if nothing intercepts its seek |
| Sql.ColumnsRecovered | internal/sql/executor.go:36-41 | the stored row splits back into its columns if and only if none contains a comma |
| Sql.AutoTxnInjective | internal/sql/executor.go:50-51 | inserts at different timestamps are different transactions |
| Wal.WAL.Append | internal/storage/wal/wal.go:32-57 | the file grows by the record's length, data and checksum |
| Wal.ReadNext | internal/storage/wal/wal.go:69-98 | one turn of the loop: end, the failure with its kind, or the record and the next position |
| Wal.WAL.Iterate | internal/storage/wal/wal.go:60-108 | delivers the replay of the file and, when complete, is positioned at its end |
| Wal.RoundTrip | internal/storage/wal/wal.go:30-108 | the replay of the appended records is the records, complete, if and only if each is shorter than 2^32 bytes |
| Wal.ReplayTruncated | internal/storage/wal/wal.go:69-103 | over any prefix exactly the complete records are delivered, and the replay ends as the place of the cut says: complete on a boundary, end of file before data or checksum, unexpected end elsewhere |
| Wal.ReplayRefused | internal/storage/wal/wal.go:100-102 | a refused record is the last one delivered |
| Wal.ReplayChecked | internal/storage/wal/wal.go:84-102 | a record is delivered if and only if its checksum is right |
| Wal.ReplayCorrupt | internal/storage/wal/wal.go:91-98 | a corrupt record after any log: exactly the records before it are delivered, and the replay fails |
| Wal.AppendedLog | internal/storage/wal/wal.go:30-57 | appending to a log gives the log of one more record |
| Text.SplitJoin | cmd/shard-node/main.go:41-42 | splitting joined fields recovers them if and only if none contains the separator, otherwise there are more |
| Text.JoinSplit | cmd/shard-node/main.go:41-42 | every text is the join of its separator-free fields |
| Text.DecimalDigits | internal/sql/executor.go:50-50 | the printed digits are those of the number in base ten, without leading zeros |
| Text.ScanLeading | cmd/shard-node/main.go:51-52 | scanning reads the leading digits, and gives 0 without any or when they exceed 64 bits |
| Text.ScanDecimal | cmd/shard-node/main.go:51-52 | a printed uint64 is scanned back, and its text has no space |
| Command.PrepareRoundTrip | cmd/shard-node/main.go:190-195 | a proposed prepare is read back exactly when no argument has a space, and ignored otherwise |
| Command.CommitTextRead | cmd/shard-node/main.go:48-53 | a commit entry with any timestamp text is read with the scanned number exactly when no argument has a space |
| Command.CommitRoundTrip | cmd/shard-node/main.go:197-202 | the same for a printed timestamp, which is recovered |
| Command.AbortRoundTrip | cmd/shard-node/main.go:204-208 | the same for abort |
| Command.EntryTexts | cmd/shard-node/main.go:190-208 | the proposed texts, byte by byte |
| Command.PrepareThenCommit | cmd/shard-node/main.go:40-57 | a prepare entry and its commit entry install the value at the timestamp and leave the key unlocked, or do nothing when another transaction holds it |
| Command.AbortOrLateCommit | cmd/shard-node/main.go:48-65 | an abort entry drops only the holder's lock; a commit entry without the lock does nothing |
| Command.OneShotEntry | cmd/shard-node/main.go:66-90 | a one-shot entry leaves every key at its last value at the request's timestamp and frees the keys, or does nothing when blocked |
| Command.SqlEntry | cmd/shard-node/main.go:91-104 | an insert entry is what reads from timestamp 100 on answer until a newer version |
| Command.MalformedEntry | cmd/shard-node/main.go:40-65 | an entry with the wrong number of fields does nothing |
| Command.OtherEntry | cmd/shard-node/main.go:105-108 | an entry without one of the words does nothing |
| Command.ApplierAdapter.Apply | cmd/shard-node/main.go:38-108 | each entry has exactly the effect of its command on the store, unknown and malformed ones none |

## Left out

- Raft, the HTTP servers and clients, metrics, flags and the command-line tools: consensus is in a library, the rest is input and output.
- Replay of the Raft storage: it depends on the library's in-memory storage.
- Store snapshot and restore: locks are not part of the snapshot and its JSON keys are arbitrary bytes, so the round trip is not an identity.
- MVCCGet: it encodes its start key twice; GetTxn is the read the system uses.
- Nodes and rebalancing of the B-tree, and locking inside a store: a tree is its ascending items, an operation one step.
- A stored nil value, which GetTxn cannot tell from a missing key.
- JSON and SQL parsing, filter and projection: parameters, or pass-through.
- Leading white space before the timestamp of a commit entry, which Sscanf would skip: the scan takes the leading digits only.
- Failing writes of the log file: what they leave behind is a prefix, which `ReplayTruncated` covers.
- CommitRun.CommitIsSteps: the steps of one Commit call follow each other directly; steps of others in between are part of the step system, not of this lemma.
- Garbage collection and splits as steps of the transaction system: a collection at the time of a read is covered by `CollectedAtomicity`, migrations are proved on their own.
