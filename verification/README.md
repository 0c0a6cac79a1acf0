# Verification of the distributed key-value store's core

This project models the parts of the key-value store whose correctness is least visible in the code, and proves what they are for. It is self-contained: `dafny verify dfyconfig.toml` checks all of it.

- **Backup crash recovery** (`BackupSlot`, `BackupCrash`, `BackupHistory`, `BackupRestart`, `BackupManager`, `BackupStores`, `BackupDisk`). Backup and recovery are lists of atomic file operations; a crash is a prefix of such a list. Exporting and saving the key pass through arbitrary partial contents. `Disk` is the file system the code works on, and records every state it passes through.
- **Striped map** (`StripedMap`, `StripedMapReclaim`, `StripedMapCalls`). Handles are state machines whose steps interleave in any way: lookups, actions, each read of the deleter by itself, the map's mutex, the erasure, the release. The reference count is the number of holders.
- **LRU cache** (`LruSpec`, `LruBucket`, `DevManager`). The intrusive circular list with its index, against a list of pairs in order of recency, and the device cache on top of it.
- **Timer scheduler** (`SchedulerSpec`, `TaskScheduler`). Every critical section is an event of a state machine; the object refines it section by section, so what holds of runs holds of every interleaving.
- **Auto-sync** (`AutoSyncProtocol`, `AutoSyncTimer`). The two timers with adders and processors, where a timer may also fire inside StartTimer and StopTimer; and the batches.
- **Encoders**: the query text (`QueryText`, `QueryClauses`, `DataQuery`), device keys (`DeviceKeys`), marshalling (`MarshalSpec`, `Marshalling`, `BlobBuffer`).
- **Access control lists** (`AclSpec`, `Acl`), as in section 23 of the withdrawn draft 17 of IEEE 1003.1e.

`ByteCodes`, `Collections` and `Options` hold what several of these share.

## Results that are not what one would expect

- The table beside the recovery code says that the key is stored in the `.key` file, and recovery counts and rolls back that file. SecurityManager writes `.key_v1`. With `.key` Backup is crash-atomic. With `.key_v1` it is not when it overwrites an encrypted backup that had another password: a crash after the key was saved leaves the old backup beside the new key. `PasswordAtomicExactlyWhen` has the exact condition, and `CrashAtomicExactlyWhen` the one on the contents of the files. A first Backup that is interrupted can leave a `.key_v1` file without a backup.
- Backup does not look at the result of saving the key. When nothing was saved, the old `.key` file is deleted all the same.
- Store and backup name are joined by an underscore in the name of the key file, so that two stores can share one. Recovery lists the key directory once for all stores: it may roll a shared key back for the first of them and delete it for the second. `RecoversAllExactlyWhen` says when all stores are recovered all the same.
- An update of the striped map can be lost. The deleter reads under the map's mutex first that the element is gone and then the reference count, but actions and releases do not take that mutex: a Compute that stores a value and ends between the two reads is followed by the erasure. `LosesExactlyWhen` has the exact condition. Two handles that release together can leave an entry without an element behind; `DeadExactlyWhen` says when. Neither happens on a key whose handles do not overlap.
- Recovery is not itself safe against crashes. `RestartableExactlyWhen` says for which files it is, and for which the restorable pair is.
- Recovery looks only at names with a file in the backup directory. The `.bk` copy of a key stays behind when its name has none.
- A Remove that does not wait lets an executing task that repeats be queued again. A task scheduled with zero executions is executed: the count wraps around.
- An empty string operand of a query has the same text as the operand ^EMPTY_STRING; nothing else is ambiguous, but for floating-point numbers that print alike, as they are printed with six digits.
- A key prefix without a device can lose keys: a key whose first bytes happen to be the header of a known device is stored for that device, and a prefix that cuts the header off is not.
- A list or map of values without width is read back only when enough other data follows, also inside another value. A list of blobs that is announced with size zero is accepted and lost.
- An access control list of 50 to 100 entries can be written, but not read back through the buffer of 400 bytes.
- DataQuery's Reset keeps the keys of an earlier InKeys.

## Assumptions

- Backup: a name has no residue when Backup begins, its backup and `.key` file are not empty (an empty `.bk` file is how recovery recognises a first backup), and a backup has a key exactly when it is encrypted. `RecoverySettles` says that recovery brings this about again. File operations are atomic, except for the contents of a file being written.
- Clocks are parameters of the events. Ids do not wrap around. Locks are taken as the code takes them, and every access outside a lock is a step by itself; memory is sequentially consistent.
- The timers' executor accepts every task. A task that has fired may or may not still be caught by a removal.
- Ids of devices are translated by an arbitrary function; the host is little-endian.
- A parcel holds 32-bit numbers and truth values in four bytes, 64-bit numbers in eight, and text behind its length; writing to it succeeds. The layout of MessageParcel is not part of the repository.
- Access control entries have known tags, an id exactly where the tag needs one, and only the three rights.

## Model

| member | source | states |
|---|---|---|
| `BackupCrash.BackupIsCrashAtomic` | frameworks/innerkitsimpl/kvdb/src/backup_manager.cpp:114-165 | for either key file, a crash after any file step of Backup, partial writes included, followed by one recovery leaves the old (backup, key) pair or the finished new one at every crash point exactly when there is no key to store, or it goes to `.key` with no `.key_v1` beside it, or to `.key_v1` under the condition of the next rows; a Backup that is not interrupted ends with the new files, or with the untouched old ones when the export fails |
| `BackupCrash.KeyFileIsCrashAtomic` | frameworks/innerkitsimpl/kvdb/src/backup_manager.cpp:387-428 | with the key in the `.key` file, as the table beside the code has it, or without a key to store, recovery leaves exactly the old files or the finished new ones |
| `BackupCrash.AtomicForExactlyWhen` | frameworks/innerkitsimpl/kvdb/src/security_manager.cpp:287-330 | with the `.key_v1` file the key really goes to, and whatever one looks at in the files, every crash point recovers to the old or the finished new state exactly when storing the key goes unnoticed: every contents the file passes through beside the old files, and the finished one beside the old files without `.key` |
| `BackupCrash.CrashAtomicExactlyWhen` | frameworks/innerkitsimpl/kvdb/src/security_manager.cpp:287-330 | for the contents of backup and key file: exactly when Backup does not overwrite an encrypted backup, or every contents the key file passes through is the key in force, or the export left the backup as it was and the contents are the finished key |
| `BackupCrash.PasswordAtomicExactlyWhen` | frameworks/innerkitsimpl/kvdb/src/security_manager.cpp:168-216 | for the backup and the password Restore would use, however key files are read and with the fall-back to `.key`: exactly when Backup does not overwrite an encrypted backup, or with every contents the key file passes through, and without `.key` at the end, the old backup keeps its password, or it is unchanged and has the new password already |
| `BackupCrash.OverwriteMayMixPairs` | frameworks/innerkitsimpl/kvdb/src/backup_manager.cpp:151-156 | a backup, a key and a crash point at which recovery leaves the old backup with the new key |
| `BackupCrash.FirstBackupMayLeaveKey` | frameworks/innerkitsimpl/kvdb/src/backup_manager.cpp:151-156 | with `.key_v1`, for every contents the key file of a first Backup passes through there is a crash point after which recovery leaves that file without a backup |
| `BackupHistory.RecoverySettles` | frameworks/innerkitsimpl/kvdb/src/backup_manager.cpp:114-165 | wherever a Backup is interrupted, and whichever file the key goes to, recovery leaves files that the next Backup can begin with |
| `BackupHistory.EveryHistoryIsAtomic` | frameworks/innerkitsimpl/kvdb/src/backup_manager.cpp:114-165 | over any sequence of Backups, whichever file their keys go to, each interrupted anywhere or not at all and followed by a recovery: when each is crash-atomic in the state it begins in, the restorable pair is the one there was at first or one a Backup finished |
| `BackupHistory.KeyHistoryIsAtomic` | frameworks/innerkitsimpl/kvdb/src/backup_manager.cpp:114-165 | with keys in `.key` the same holds of all files of the name, without a condition |
| `BackupHistory.UnsavedKeyIsLost` | frameworks/innerkitsimpl/kvdb/src/backup_manager.cpp:152-155 | when SaveDBPassword stores nothing, a Backup that reports success leaves the new backup with an old `.key_v1` file or with no key |
| `BackupCrash.FailureIsSafe` | frameworks/innerkitsimpl/kvdb/src/backup_manager.cpp:157-162 | undoing a failed export restores every file of the name, and every crash point on the way is safe |
| `BackupSlot.ClearExecutes` | frameworks/innerkitsimpl/kvdb/src/backup_manager.cpp:457-484 | the file operations recovery issues, run one by one, make of the files of a name what the closed description Clear says |
| `BackupSlot.ClearSettles` | frameworks/innerkitsimpl/kvdb/src/backup_manager.cpp:429-484 | whatever the files of a name were, one recovery leaves no `.bk` file and a second one changes nothing; the newer key file is never touched |
| `BackupRestart.RestartableExactlyWhen` | frameworks/innerkitsimpl/kvdb/src/backup_manager.cpp:471-474 | a recovery that is interrupted anywhere and run again ends with the files an uninterrupted one leaves, for all files but exactly those with a key, both `.bk` files, an old backup that is not empty, and an old key that is empty or differs from the key; it ends with the same restorable pair for these too when there is a `.key_v1` file, and only then |
| `BackupSlot.TraceIsPrefixes` | frameworks/innerkitsimpl/kvdb/src/backup_manager.cpp:143-163 | the states a list of operations passes through are those of its prefixes, so that crash points are prefixes |
| `BackupManager.PathsDiffer` | frameworks/innerkitsimpl/kvdb/src/backup_manager.cpp:129-133 | no two files of one name, or of two names of a store, share a path |
| `BackupManager.RecoveryIsIdempotent` | frameworks/innerkitsimpl/kvdb/src/backup_manager.cpp:49-69 | over any directory contents a second recovery of a store changes nothing |
| `BackupManager.RecoveryPerName` | frameworks/innerkitsimpl/kvdb/src/backup_manager.cpp:365-484 | per name: without `.bk` residue nothing changes, the restorable pair depends on its own files alone, and a `.bk` file stays behind in one case only, a key whose name has no file in the backup directory |
| `BackupManager.NamesShrink` | frameworks/innerkitsimpl/kvdb/src/backup_manager.cpp:365-384 | recovery brings up no backup name that was not there |
| `BackupManager.CrashThenRecover` | frameworks/innerkitsimpl/kvdb/src/backup_manager.cpp:114-165 | on the whole file system, for either key file: when one Backup of the name is crash-atomic, then after a crash anywhere in it and one recovery of the store the name has its old or its new pair, and every other name keeps its own |
| `BackupManager.SharedPathsAreKeys` | frameworks/innerkitsimpl/kvdb/src/backup_manager.cpp:129-133 | of two stores only key files can share a path, and only where store and backup name joined by an underscore are the same |
| `BackupManager.StoresMayShareKeys` | frameworks/innerkitsimpl/kvdb/src/backup_manager.cpp:132-133 | two stores and two names whose key files are the same |
| `BackupStores.SharedKeyExactlyWhen` | frameworks/innerkitsimpl/kvdb/src/backup_manager.cpp:54-65 | two names of different stores with one key file, cleared one after the other by the residue listed at first, are both recovered exactly when there is no `.bk` file of the key; or an empty one, and both roll the key back or neither does; or one with contents, and the second does not roll it back, and the first only if the key does not change by it |
| `BackupStores.SharedKeyMayBeLost` | frameworks/innerkitsimpl/kvdb/src/backup_manager.cpp:54-65 | two stores, two names and their files, for which either recovery alone brings the key back and both together lose it |
| `BackupStores.RecoversAllExactlyWhen` | frameworks/innerkitsimpl/kvdb/src/backup_manager.cpp:54-66 | over any number of stores cleared one after the other by one listing, every name of every store is recovered exactly when all pairs that share key files are compatible in that sense, in the order of the stores |
| `BackupStores.DataIsCleared` | frameworks/innerkitsimpl/kvdb/src/backup_manager.cpp:57-66 | the backup files come out right in any case |
| `BackupStores.FreshIsRecovered` | frameworks/innerkitsimpl/kvdb/src/backup_manager.cpp:60-65 | by a listing that is up to date, clearing a store is its complete recovery |
| `BackupDisk.Disk.KeepData` | frameworks/innerkitsimpl/kvdb/src/backup_manager.cpp:86-94 | the files and the states passed through are those of KeepOps |
| `BackupDisk.Disk.RollBackData` | frameworks/innerkitsimpl/kvdb/src/backup_manager.cpp:96-106 | the files and the states passed through are those of RollBackOps |
| `BackupDisk.Disk.CleanTmpData` | frameworks/innerkitsimpl/kvdb/src/backup_manager.cpp:108-112 | deletes the `.bk` file and nothing else |
| `BackupDisk.Disk.Backup` | frameworks/innerkitsimpl/kvdb/src/backup_manager.cpp:114-165 | the early returns change no file; otherwise the files, and every state in between, are those of the steps the crash theorems are about |
| `BackupDisk.Disk.ClearResidueFile` | frameworks/innerkitsimpl/kvdb/src/backup_manager.cpp:457-484 | clears exactly the names it is given by exactly what was noted of them, also where that is older than the files, and changes no other file |
| `BackupDisk.Disk.RecoverStore` | frameworks/innerkitsimpl/kvdb/src/backup_manager.cpp:60-65 | reading the backup directory, noting residue with a listing of the key directory that may be older, and clearing it does to every name of the store what its noted residue asks for, also when nothing is found to do |
| `BackupDisk.Disk.Init` | frameworks/innerkitsimpl/kvdb/src/backup_manager.cpp:48-69 | one listing of the key directory and the loop over all stores recover every name of every store exactly when those that share key files are compatible, and change no file that belongs to no name |
| `BackupDisk.GetClearType` | frameworks/innerkitsimpl/kvdb/src/backup_manager.cpp:429-455 | the counting comes down to which files there are: nothing without a `.bk` file, a full rollback with both, a clean-up with one of them beside a backup and a key, and otherwise the rollback of the one |
| `BackupDisk.HaveResidueFile` | frameworks/innerkitsimpl/kvdb/src/backup_manager.cpp:314-322 | true exactly when some listed file has the `.bk` suffix |
| `BackupDisk.HaveResidueKey` | frameworks/innerkitsimpl/kvdb/src/backup_manager.cpp:324-333 | true exactly when some listed key file of the store has the `.bk` suffix |
| `BackupDisk.SetResidueInfo` | frameworks/innerkitsimpl/kvdb/src/backup_manager.cpp:342-363 | the loop notes exactly the files that are in the listing |
| `BackupDisk.BuildResidueInfo` | frameworks/innerkitsimpl/kvdb/src/backup_manager.cpp:365-384 | notes, for every name with a file in the backup directory, the residue its own files amount to |
| `BackupDisk.NothingToRecover` | frameworks/innerkitsimpl/kvdb/src/backup_manager.cpp:62 | a listing without residue means that recovery would change nothing |
| `StripedMap.NextKeeps` | frameworks/common/concurrent_striped_map.h:122-196 | every step of every thread, each read of a deleter by itself, keeps the invariant: unique nodes, every unreleased handle that has not just erased on the node of its key, one deleter at a time in the mutex, dead nodes hold the default value |
| `StripedMap.RunKeeps` | frameworks/common/concurrent_striped_map.h:54-196 | the invariant holds in every interleaving |
| `StripedMap.HandlesOwnTheirEntry` | frameworks/common/concurrent_striped_map.h:151-183 | in every interleaving two handles on one key share the node the map has for it |
| `StripedMap.OnlyHolderErases` | frameworks/common/concurrent_striped_map.h:153-167 | in every interleaving the handle that erases an entry is the only one on its node |
| `StripedMap.ActRefines` | frameworks/common/concurrent_striped_map.h:126-138 | DoAction is one atomic action on the map of valid elements |
| `StripedMap.StepRefines` | frameworks/common/concurrent_striped_map.h:79-110 | every step is the action of its DoAction on the abstract map, or the loss of an element that an erasure takes with it, or leaves the abstract map alone |
| `StripedMap.RunRefines` | frameworks/common/concurrent_striped_map.h:54-110 | any interleaving leaves the elements its actions and its lossy erasures leave one after the other |
| `StripedMapReclaim.LosesExactlyWhen` | frameworks/common/concurrent_striped_map.h:159-165 | in every run, an erasure takes a live element with it exactly when the last action on the node since the deleter read under the mutex that the element was gone has kept the element |
| `StripedMapReclaim.CondemnedIsUntouched` | frameworks/common/concurrent_striped_map.h:162-165 | that action falls between the two reads: once the count is read, no step before the erasure acts on the node |
| `StripedMapReclaim.UpdateMayBeLost` | frameworks/common/concurrent_striped_map.h:157-165 | a run in which a Compute stores any given value and ends between the deleter's two reads under the mutex, and the value is lost |
| `StripedMapReclaim.DeadExactlyWhen` | frameworks/common/concurrent_striped_map.h:153-167 | in every run, once all handles on a key are past their deleters, its entry is without an element exactly when a deleter found the element gone and left because of another reference, with no action on the node since |
| `StripedMapReclaim.EntryMayStayBehind` | frameworks/common/concurrent_striped_map.h:153-158 | a run that leaves an entry without an element and without a handle |
| `StripedMapReclaim.NoDeadEntryWithoutOverlap` | frameworks/common/concurrent_striped_map.h:151-168 | every run in which at no time two handles are on a key, and those that were are past their deleters, has an entry for it exactly when there is an element |
| `StripedMapReclaim.NoLossWithoutOverlap` | frameworks/common/concurrent_striped_map.h:151-168 | nor does a run in which at no time two handles are on a key lose an element of it |
| `StripedMapReclaim.WithoutOverlapIsAtomic` | frameworks/common/concurrent_striped_map.h:79-110 | when that holds of every key, the elements are those the callers' actions leave one after the other, and every erasure changes nothing |
| `StripedMapCalls.DropRuns` | frameworks/common/concurrent_striped_map.h:151-168 | the reads, the mutex, the erasure and the release of a handle that is let go without interruption are one of the runs |
| `StripedMapCalls.ComputeRuns` | frameworks/common/concurrent_striped_map.h:79-110 | a Compute or ComputeIfPresent that is not interrupted is one of the runs, applies its action if it has one, and returns what the source says; unless another handle is on the key an entry is left exactly when there is an element |
| `StripedMapCalls.Clone` | frameworks/common/concurrent_striped_map.h:185-196 | takes one handle per entry, beside the handles that are out, and changes no element |
| `StripedMapCalls.VisitAll` | frameworks/common/concurrent_striped_map.h:61-75 | visits each clone once, and counts those without an element afterwards |
| `StripedMapCalls.EraseIf` | frameworks/common/concurrent_striped_map.h:54-76 | is one of the runs, whoever else holds handles; keeps exactly the elements the action does not ask to erase, as the action left them, leaves no dead entry but under another handle, and counts the entries without an element, dead ones included; does nothing without an action |
| `LruSpec.CacheHoldsMostRecent` | frameworks/common/lru_bucket.h:94-162 | over any run of Set and Get the cache holds exactly the most recently touched distinct keys that fit, latest first, each with its last value |
| `LruSpec.TouchesKeepMostRecent` | frameworks/common/lru_bucket.h:134-162 | eviction from the back keeps the most recent touches |
| `LruSpec.FreshTouchesStay` | frameworks/common/lru_bucket.h:134-162 | distinct keys touched in a row, no more than fit, are all there |
| `LruBucket.LRUBucket.constructor` | frameworks/common/lru_bucket.h:28-29 | an empty ring around the head |
| `LruBucket.LRUBucket.Remove` | frameworks/common/lru_bucket.h:251-256 | the ring stays circular and loses exactly this node |
| `LruBucket.LRUBucket.Insert` | frameworks/common/lru_bucket.h:258-265 | the ring stays circular and has the node at its front |
| `LruBucket.LRUBucket.PopBack` | frameworks/common/lru_bucket.h:239-244 | drops the last element, from list and index |
| `LruBucket.LRUBucket.Get` | frameworks/common/lru_bucket.h:94-109 | finds the value exactly when there is an element, and moves the element to the front exactly when it is asked to |
| `LruBucket.LRUBucket.Contains` | frameworks/common/lru_bucket.h:114-129 | tells whether there is an element and whether it was moved |
| `LruBucket.LRUBucket.Set` | frameworks/common/lru_bucket.h:134-162 | acts as a touch of the recency list; fails and changes nothing exactly at capacity zero |
| `LruBucket.LRUBucket.Update` | frameworks/common/lru_bucket.h:167-176 | changes the value of the element and no order |
| `LruBucket.LRUBucket.UpdateAll` | frameworks/common/lru_bucket.h:182-204 | the two-pointer walk changes exactly the values of the keys in both maps, keeps the order, and returns whether there was such a key |
| `LruBucket.LRUBucket.Erase` | frameworks/common/lru_bucket.h:209-219 | removes exactly the element with the key |
| `LruBucket.LRUBucket.ResetCapacity` | frameworks/common/lru_bucket.h:81-89 | keeps the front of the list, as much as fits |
| `LruBucket.LRUBucket.Initialize` | frameworks/common/lru_bucket.h:44-69 | replaces the contents by the memento, the last key at the front, and grows the capacity where needed |
| `LruBucket.LRUBucket.DumpMemento` | frameworks/common/lru_bucket.h:221-291 | keys and values, least recently used first |
| `LruBucket.LRUBucket.Reload` | frameworks/common/lru_bucket.h:44-69 | dumping and initialising restores the contents and their order |
| `LruBucket.MementoRoundTrip` | frameworks/common/lru_bucket.h:278-291 | the memento determines contents and order |
| `DevManager.DevManager.UpdateBucket` | frameworks/innerkitsimpl/kvdb/src/dev_manager.cpp:101-115 | touches both ids of every device with two ids, in order |
| `DevManager.DevManager.GetDevInfoFromBucket` | frameworks/innerkitsimpl/kvdb/src/dev_manager.cpp:88-99 | answers from the cache, or from the cache after an update, or with nothing |
| `DevManager.EveryDeviceIsFindable` | frameworks/innerkitsimpl/kvdb/src/dev_manager.cpp:101-115 | after an update with at most 32 devices with distinct ids, each is found under either id, whatever was cached |
| `SchedulerSpec.StepKeeps` | frameworks/common/task_scheduler.h:63-185 | every critical section keeps tasks and index in bijection by id, the tasks in order of time and insertion, the executing id out of the queue, and at most capacity + 1 tasks queued or executing |
| `SchedulerSpec.RunKeeps` | frameworks/common/task_scheduler.h:63-185 | the same over every run |
| `SchedulerSpec.StartsEarliest` | frameworks/common/task_scheduler.h:160-170 | the worker starts a due task before which no other comes in time or, at equal times, in the queue |
| `SchedulerSpec.NodesCountInsertions` | frameworks/common/task_scheduler.h:74-78 | the order among equal times is the order of insertion |
| `SchedulerSpec.RemovedNeverExecutes` | frameworks/common/task_scheduler.h:116-129 | once Remove(id, true) has returned, no run executes the task again, nor does it execute |
| `SchedulerSpec.RemoveIsFinalExactlyWhen` | frameworks/common/task_scheduler.h:116-129 | a Remove that does not wait rules out later executions exactly when the task is not executing with repeats left |
| `SchedulerSpec.QueuedCanExecute` | frameworks/common/task_scheduler.h:151-185 | from every state some run executes a queued task |
| `SchedulerSpec.Accounts` | frameworks/common/task_scheduler.h:165-180 | while a task is live, executions done and executions left add up to those given, under every interleaving, resets included; it never executes more often |
| `SchedulerSpec.TimesBoundsExecutionsExactlyWhen` | frameworks/common/task_scheduler.h:63-80 | a task scheduled with `times` executes at most that often in every run exactly when `times` is positive |
| `SchedulerSpec.QueueMayExceedCapacity` | frameworks/common/task_scheduler.h:177-180 | for every capacity of at least one there is a run that reaches the bound of capacity + 1 |
| `TaskScheduler.Scheduler.GenTaskId` | frameworks/common/task_scheduler.h:187-194 | never the invalid id, and the next number while the counter does not wrap |
| `TaskScheduler.Scheduler.At` | frameworks/common/task_scheduler.h:63-80 | is the event Schedule; returns the new id or, when full, the invalid one; wakes the worker whenever the head of the queue changes |
| `TaskScheduler.Scheduler.Reset` | frameworks/common/task_scheduler.h:81-103 | is the event Reset; inserting before erasing makes no difference; wakes the worker whenever the head changes |
| `TaskScheduler.Scheduler.Clean` | frameworks/common/task_scheduler.h:104-109 | is the event Clean |
| `TaskScheduler.Scheduler.Remove` | frameworks/common/task_scheduler.h:116-129 | is the event Remove, behind the wait; wakes the worker whenever the head changes |
| `TaskScheduler.Scheduler.BeginTask` | frameworks/common/task_scheduler.h:156-171 | is the event Start when a task is due, and changes nothing otherwise |
| `TaskScheduler.Scheduler.EndTask` | frameworks/common/task_scheduler.h:175-183 | is the event Finish |
| `TaskScheduler.InsertThenErase` | frameworks/common/task_scheduler.h:96-101 | inserting the moved task before erasing the old one gives the same queue |
| `AutoSyncProtocol.StepKeeps` | frameworks/innerkitsimpl/kvdb/src/auto_sync_timer.cpp:70-90 | every step of adders, processors and timers keeps: ids outside StopTimer belong to live tasks, queued tasks belong to an id, pending stores are looked after |
| `AutoSyncProtocol.NoLostWakeUp` | frameworks/innerkitsimpl/kvdb/src/auto_sync_timer.cpp:134-160 | in every interleaving, while stores are pending a timer task waits or has fired, or a thread has still to start the timer or to look for stores |
| `AutoSyncProtocol.AtMostTwoTimers` | frameworks/innerkitsimpl/kvdb/src/auto_sync_timer.cpp:70-84 | at most two timer tasks wait at a time |
| `AutoSyncProtocol.Progress` | frameworks/innerkitsimpl/kvdb/src/auto_sync_timer.cpp:134-187 | while anything is under way some step is possible: no deadlock on the mutex |
| `AutoSyncProtocol.PendingStoresAreDrained` | frameworks/innerkitsimpl/kvdb/src/auto_sync_timer.cpp:134-160 | without new stores every run from every reachable state ends within a bound, and ends with all stores taken |
| `AutoSyncTimer.BatchTakes` | frameworks/innerkitsimpl/kvdb/src/auto_sync_timer.cpp:110-132 | a batch has min(10, total) stores, and the others stay |
| `AutoSyncTimer.BatchConserves` | frameworks/innerkitsimpl/kvdb/src/auto_sync_timer.cpp:110-132 | per application, what is taken and what stays make up the old list, in order |
| `AutoSyncTimer.BatchStaysTidy` | frameworks/innerkitsimpl/kvdb/src/auto_sync_timer.cpp:114-130 | no application keeps an empty list, no list has a store twice |
| `AutoSyncTimer.EarlierFirst` | frameworks/innerkitsimpl/kvdb/src/auto_sync_timer.cpp:114-130 | an application gives stores only when those visited before it have given all of theirs |
| `AutoSyncTimer.DrainedExactlyAfter` | frameworks/innerkitsimpl/kvdb/src/auto_sync_timer.cpp:134-160 | n pending stores are gone after ceil(n / 10) rounds and not before |
| `AutoSyncTimer.AutoSyncTimer.AddSyncStores` | frameworks/innerkitsimpl/kvdb/src/auto_sync_timer.cpp:92-103 | appends exactly the stores the application does not have pending, behind those it has |
| `AutoSyncTimer.AutoSyncTimer.HasSyncStores` | frameworks/innerkitsimpl/kvdb/src/auto_sync_timer.cpp:105-108 | true exactly when some store is pending |
| `AutoSyncTimer.AutoSyncTimer.GetStoreIds` | frameworks/innerkitsimpl/kvdb/src/auto_sync_timer.cpp:110-132 | splits every list at the share the batch still has room for when the application is visited |
| `AutoSyncTimer.AutoSyncTimer.Visit` | frameworks/innerkitsimpl/kvdb/src/auto_sync_timer.cpp:114-130 | moves as much of the front of a list as the batch takes |
| `QueryText.UnescapeEscape` | frameworks/innerkitsimpl/distributeddatafwk/src/data_query.cpp:768-791 | escaping has a left inverse |
| `QueryText.EscapeHasNoSpace` | frameworks/innerkitsimpl/distributeddatafwk/src/data_query.cpp:782-790 | an escaped string has no space |
| `QueryText.EscapeIsInjectiveBut` | frameworks/innerkitsimpl/distributeddatafwk/src/data_query.cpp:768-791 | two operands are spelled alike exactly when they are equal or are the empty string and ^EMPTY_STRING |
| `QueryText.FromDecimalDecimal` | frameworks/innerkitsimpl/distributeddatafwk/src/data_query.cpp:802-808 | the text of an integer determines it |
| `QueryText.WordsDiffer` | frameworks/innerkitsimpl/distributeddatafwk/src/data_query.cpp:23-62 | no two keywords are spelled alike |
| `QueryClauses.UnspellSpell` | frameworks/innerkitsimpl/distributeddatafwk/src/data_query.cpp:23-62 | no operand is spelled like a keyword |
| `QueryClauses.SplitJoin` | frameworks/innerkitsimpl/distributeddatafwk/src/data_query.cpp:666-766 | the text splits at its spaces into the tokens it was made of |
| `QueryClauses.ParseTokens` | frameworks/innerkitsimpl/distributeddatafwk/src/data_query.cpp:666-766 | the parser gives back each clause and leaves what follows it |
| `QueryClauses.TextIsReadable` | frameworks/innerkitsimpl/distributeddatafwk/src/data_query.cpp:81-654 | the text of any list of clauses gives the list back, an empty operand as its stand-in |
| `QueryClauses.TextIsUnambiguous` | frameworks/innerkitsimpl/distributeddatafwk/src/data_query.cpp:81-654 | two lists have the same text exactly when they are the same up to that stand-in |
| `DataQuery.TwoPassesAreOne` | frameworks/innerkitsimpl/distributeddatafwk/src/data_query.cpp:773-790 | the two replacing passes are one substitution, character by character |
| `DataQuery.ReplaceAll` | frameworks/innerkitsimpl/distributeddatafwk/src/data_query.cpp:774-781 | a loop of find and replace in place substitutes every occurrence |
| `DataQuery.EscapeSpace` | frameworks/innerkitsimpl/distributeddatafwk/src/data_query.cpp:768-791 | the two loops escape every ^ and every space, and nothing else; ^EMPTY_STRING stands in for the empty string |
| `DataQuery.ClauseBehind` | frameworks/innerkitsimpl/distributeddatafwk/src/data_query.cpp:666-766 | what a builder appends is the text of its clause |
| `DataQuery.ClauseInFront` | frameworks/innerkitsimpl/distributeddatafwk/src/data_query.cpp:598-612 | what DeviceId puts in front is the text of its clause |
| `DataQuery.DataQuery.ValidateField` | frameworks/innerkitsimpl/distributeddatafwk/src/data_query.cpp:793-800 | refuses the empty string and strings with ^ |
| `DataQuery.DataQuery.Comparison` | frameworks/innerkitsimpl/distributeddatafwk/src/data_query.cpp:81-345 | the clause of the comparison joins the others when the field is valid, and nothing happens otherwise |
| `DataQuery.DataQuery.Naming` | frameworks/innerkitsimpl/distributeddatafwk/src/data_query.cpp:357-383 | the clause of IsNull, IsNotNull, OrderByAsc, OrderByDesc or SetSuggestIndex joins the others when the field is valid, and nothing happens otherwise |
| `DataQuery.DataQuery.Membership` | frameworks/innerkitsimpl/distributeddatafwk/src/data_query.cpp:385-473 | the clause of In or NotIn joins the others, with all values in order, when the field is valid, and nothing happens otherwise |
| `DataQuery.DataQuery.Matching` | frameworks/innerkitsimpl/distributeddatafwk/src/data_query.cpp:475-495 | the clause of Like or Unlike joins the others when the field is valid, and nothing happens otherwise |
| `DataQuery.DataQuery.Joint` | frameworks/innerkitsimpl/distributeddatafwk/src/data_query.cpp:497-511 | And, Or, BeginGroup and EndGroup join the others |
| `DataQuery.DataQuery.OrderByWriteTime` | frameworks/innerkitsimpl/distributeddatafwk/src/data_query.cpp:541-549 | the clause joins the others |
| `DataQuery.DataQuery.Limit` | frameworks/innerkitsimpl/distributeddatafwk/src/data_query.cpp:551-565 | the clause joins the others unless a number is negative |
| `DataQuery.DataQuery.KeyPrefix` | frameworks/innerkitsimpl/distributeddatafwk/src/data_query.cpp:583-596 | the clause joins the others and its prefix is noted; earlier prefixes stay in the text |
| `DataQuery.DataQuery.DeviceId` | frameworks/innerkitsimpl/distributeddatafwk/src/data_query.cpp:598-612 | the clause comes in front of all others |
| `DataQuery.DataQuery.InKeys` | frameworks/innerkitsimpl/distributeddatafwk/src/data_query.cpp:628-654 | works once; the text has the valid keys in order, `keys` has all |
| `DataQuery.DataQuery.Reset` | frameworks/innerkitsimpl/distributeddatafwk/src/data_query.cpp:70-79 | starts over, but for `keys`, which stay |
| `DataQuery.DataQuery.ToString` | frameworks/innerkitsimpl/distributeddatafwk/src/data_query.cpp:656-664 | a text of at most 5 * 1024 characters, from which the clauses can be read, or nothing |
| `DeviceKeys.TrimKeyIsCore` | frameworks/innerkitsimpl/kvdb/src/convertor.cpp:69-78 | what is cut off is space, what is kept has none at either end |
| `DeviceKeys.TrimKeepsPrefix` | frameworks/innerkitsimpl/kvdb/src/convertor.cpp:69-78 | a prefix stays a prefix when both are trimmed |
| `DeviceKeys.GetPrefix` | frameworks/innerkitsimpl/kvdb/src/convertor.cpp:17-39 | a prefix becomes a prefix of every trimmed key that begins with it, nothing exactly when it is blank or too long, and what comes back from the store converts to itself |
| `DeviceKeys.QueryKeys` | frameworks/innerkitsimpl/kvdb/src/convertor.cpp:53-59 | the set of the stored keys of all keys of a query |
| `DeviceKeys.ToLocal` | frameworks/innerkitsimpl/kvdb/src/device_convertor.cpp:28-52 | the stored key of this device, or nothing |
| `DeviceKeys.ConvertNetwork` | frameworks/innerkitsimpl/kvdb/src/device_convertor.cpp:113-167 | the stored key of the device the header names, of this device, or nothing |
| `DeviceKeys.ToKey` | frameworks/innerkitsimpl/kvdb/src/device_convertor.cpp:61-82 | cuts uuid and length off where there are any, and fills in an empty device id |
| `DeviceKeys.StoredRoundTrip` | frameworks/innerkitsimpl/kvdb/src/device_convertor.cpp:61-82 | uuid and original key come back from a stored key |
| `DeviceKeys.StoredDetermines` | frameworks/innerkitsimpl/kvdb/src/device_convertor.cpp:157-165 | a stored key determines uuid and original key |
| `DeviceKeys.HeaderExactlyWhen` | frameworks/innerkitsimpl/kvdb/src/device_convertor.cpp:98-111 | the header GetRealKey writes names the device exactly when its id is shorter than 10000 |
| `DeviceKeys.DeviceKeyRoundTrip` | frameworks/innerkitsimpl/kvdb/src/device_convertor.cpp:98-167 | a key of a known device is stored exactly when it is not blank and not too long, and comes back trimmed with its device |
| `DeviceKeys.LocalKeyRoundTrip` | frameworks/innerkitsimpl/kvdb/src/device_convertor.cpp:28-52 | the same for keys of this device |
| `DeviceKeys.SameStoredKey` | frameworks/innerkitsimpl/kvdb/src/device_convertor.cpp:113-167 | two keys of a device are stored alike exactly when they differ only in the space around them |
| `DeviceKeys.QueryPrefix` | frameworks/innerkitsimpl/kvdb/src/device_convertor.cpp:91-96 | the prefix of a query for a device is a prefix of every stored key that begins with it |
| `DeviceKeys.PlainPrefix` | frameworks/innerkitsimpl/kvdb/src/device_convertor.cpp:84-89 | the same for keys as they are, when no header is cut off |
| `DeviceKeys.PlainPrefixExactlyWhen` | frameworks/innerkitsimpl/kvdb/src/device_convertor.cpp:84-89 | for all uuids it holds exactly when the header of the longer key is not cut off, the prefix is too long, this device has no uuid, or the bytes behind what the two uuids have in common go on alike |
| `DeviceKeys.OwnHeaderExactlyWhen` | frameworks/innerkitsimpl/kvdb/src/device_convertor.cpp:118-144 | of a header that names this device: when the trimmed prefix is one of the trimmed rest of the key with its length |
| `DeviceKeys.DifferentUuids` | frameworks/innerkitsimpl/kvdb/src/device_convertor.cpp:118-144 | of uuids of which neither begins with the other: never |
| `DeviceKeys.CutHeaderLosesPrefix` | frameworks/innerkitsimpl/kvdb/src/device_convertor.cpp:118-144 | a prefix that cuts a header off and is then no prefix |
| `MarshalSpec.DecodesExactlyWhen` | frameworks/common/itypes_util.h:269-490 | by induction over all nested types: unmarshalling what was written gives the value back and consumes exactly that, when every list and map in it finds at least as many bytes behind its size as it has elements, counting what follows the value; otherwise it fails, and never gives another value |
| `MarshalSpec.SolidIsEnough` | frameworks/common/itypes_util.h:338-361 | that is so, whatever follows, for every value whose containers have elements of at least one byte |
| `MarshalSpec.RoundTrip` | frameworks/common/itypes_util.h:269-490 | unmarshalling gives back every such value, and consumes exactly what was written, whatever follows |
| `MarshalSpec.EmptyElementsReturnExactlyWhen` | frameworks/common/itypes_util.h:131-139 | a list of elements without width comes back exactly when enough other bytes follow |
| `MarshalSpec.WidthIsZeroExactlyWhen` | frameworks/common/itypes_util.h:131-139 | a value takes no bytes exactly when its type is made of monostates only |
| `MarshalSpec.EncodeIsInjective` | frameworks/common/itypes_util.h:302-465 | what is written determines the value and where it ends |
| `Marshalling.Parcel.Marshal` | frameworks/common/itypes_util.h:302-446 | appends the encoding of the value |
| `Marshalling.Parcel.MarshalToContainer` | frameworks/common/itypes_util.h:448-465 | appends size and elements |
| `Marshalling.Parcel.MarshalMap` | frameworks/common/itypes_util.h:324-336 | appends size and entries |
| `Marshalling.Parcel.WriteVariant` | frameworks/common/itypes_util.h:293-300 | appends the alternative the index names, found step by step |
| `Marshalling.Parcel.Unmarshal` | frameworks/common/itypes_util.h:313-446 | gives what the bytes stand for, or fails exactly when they stand for nothing |
| `Marshalling.Parcel.UnmarshalFromContainer` | frameworks/common/itypes_util.h:467-490 | the same for containers, with the size check before the loop |
| `Marshalling.Parcel.UnmarshalMap` | frameworks/common/itypes_util.h:338-361 | the same for maps, entries with a key that is there replaced |
| `Marshalling.Parcel.ReadVariant` | frameworks/common/itypes_util.h:275-285 | reads the alternative the index names |
| `Marshalling.Parcel.WriteThenRead` | frameworks/common/itypes_util.h:585-600 | a value written to a parcel is read back and nothing is left |
| `BlobBuffer.WriteToBuffer` | frameworks/innerkitsimpl/distributeddatafwk/src/blob.cpp:187-202 | writes size and data at the cursor exactly when they fit, and no other byte |
| `BlobBuffer.ReadFromBuffer` | frameworks/innerkitsimpl/distributeddatafwk/src/blob.cpp:205-219 | reads a blob exactly when its size fits what is left |
| `BlobBuffer.ReadBlobsRaw` | frameworks/innerkitsimpl/distributeddatafwk/src/blob.cpp:187-219 | blobs written one after the other are read back |
| `BlobBuffer.BlobsArriveExactlyWhen` | frameworks/common/itypes_util.h:514-583 | a list of blobs arrives exactly when the announced size has room for the sum of their raw sizes |
| `BlobBuffer.ZeroSizeLosesBlobs` | frameworks/common/itypes_util.h:520-522 | a size of zero is accepted and loses the list |
| `BlobBuffer.MarshalToBuffer` | frameworks/common/itypes_util.h:514-540 | succeeds exactly when the sizes are within the limits and the blobs fit or the size is zero, and appends size, count and buffer |
| `BlobBuffer.UnmarshalFromBuffer` | frameworks/common/itypes_util.h:559-583 | gives the blobs the bytes stand for, or fails exactly when they stand for none |
| `AclSpec.InsertKeeps` | databaseutils/src/acl.cpp:79-98 | an insert keeps tags and ids unique, the mask equal to the rights it covers and there exactly when there are any, and at most 100 entries |
| `AclSpec.EveryRunIsGood` | databaseutils/src/acl.cpp:65-98 | the same over every run of inserts from the empty set |
| `AclSpec.InsertedSize` | databaseutils/include/acl.h:153-154 | one insert may add two entries, yet 100 is never exceeded |
| `AclSpec.UniqueEntries` | databaseutils/include/acl.h:95-101 | at most one entry per tag and id |
| `AclSpec.MaskPermMembers` | databaseutils/src/acl.cpp:49-58 | the mask has a right exactly when some user or group entry has it |
| `AclSpec.SetThenHas` | databaseutils/src/acl.cpp:202-260 | setting the rights of a user or group decides later queries about it, and no others |
| `AclSpec.LoadRestores` | databaseutils/src/acl.cpp:127-150 | inserting the entries of a set one by one, with the mask recomputed each time, gives the set, also at the limit |
| `Acl.ImageRoundTrip` | databaseutils/src/acl.cpp:100-150 | DeSerialize of the image restores version and entries, from the exact buffer and from any longer one filled with zeros |
| `Acl.EntryRoundTrip` | databaseutils/include/acl.h:77-85 | tag, rights and id come back from eight bytes |
| `Acl.Acl.ReCalcMaskPerm` | databaseutils/src/acl.cpp:49-58 | the loop computes the union of the rights to be masked |
| `Acl.Acl.CompareInsertEntry` | databaseutils/src/acl.cpp:65-77 | replaces the entry with the tag and id, or drops it when it is not necessary and has no rights |
| `Acl.Acl.InsertEntry` | databaseutils/src/acl.cpp:79-98 | fails exactly when the set is full; keeps a good set good |
| `Acl.Acl.SetEntry` | databaseutils/src/acl.cpp:202-220 | later queries about the user or group see exactly the rights set, all others see what they saw |
| `Acl.Acl.HasEntry` | databaseutils/src/acl.cpp:222-260 | true exactly when an entry with the tag and id has all rights asked for |
| `Acl.Acl.AclFromMode` | databaseutils/src/acl.cpp:166-179 | the three classes of the mode, and a mask exactly when the group has rights |
| `Acl.Acl.Serialize` | databaseutils/src/acl.cpp:100-125 | the image of the entries; fails for no set that inserts lead to |
| `Acl.Acl.DeSerialize` | databaseutils/src/acl.cpp:127-150 | inserts the entries up to an undefined tag or to where none fits; fails for an image shorter than the header exactly, and then the list is empty |

## Left out

- Restore, DeleteBackup, and the keys the service hands out: they read files or call the service, and add no step that has to be undone.
- BackupDisk.Disk.Init: the listing of the stores is a parameter, in any order and without repetition.
- BackupCrash.PasswordAtomicExactlyWhen: that reading a key in the older format rewrites it in the newer one is not modelled.
- StripedMapCalls.EraseIf: its own steps are not interrupted; under concurrency each visit is the atomic action of RunRefines. The model works on values of the state, so that steps can interleave.
- LruBucket.LRUBucket.Initialize: keys must be distinct, as the code leaves nodes without an index otherwise. Memory is never short.
- TaskScheduler.Scheduler.At: requires that the id counter does not wrap around. The destructor and the thread of the worker are not modelled; the loop is its two critical sections.
- TaskScheduler.Scheduler.Remove: the wait is a precondition, namely the condition it waits for.
- AutoSyncProtocol.PendingStoresAreDrained: says nothing about how long a timer takes, only that every run of steps ends.
- AutoSyncTimer.AutoSyncTimer.GetStoreIds: the order of the visits is a parameter, of which the order of the keys is one.
- Sending the stores of a batch to the service, and the collaboration check.
- DataQuery.DataQuery.Comparison: a floating-point operand is known by the text it is printed as; how it is rounded is not modelled. The query object that is built beside the text is left out.
- DataQuery.DataQuery.Membership: the same for lists of floating-point numbers.
- Between, which has no text.
- DeviceKeys.ToKey: big-endian hosts.
- Marshalling.Parcel.Marshal: sizes fit 32 bits. 16-bit numbers, doubles, 16-bit text and remote objects are left out, as they add primitives and no structure. A map is read into an empty one.
- BlobBuffer.WriteToBuffer: blobs of 2 GB and more, for which the size check overflows.
- BlobBuffer.MarshalToBuffer: the same.
- Marshalling.Parcel.UnmarshalMap: under a repeated key, which no written map has, a value that is itself a map is merged into the earlier one by the code and replaces it in the model.
- Acl.Acl.DeSerialize: the header itself can be read, as the code does before it looks at the size; rights other than the three are dropped, where the code keeps the bits.
- Dump and Anonymous, and the system calls around extended attributes.
- The kvstoremock, sample, script, JavaScript and Cangjie directories, proxies and stubs, adapters of crypto and device libraries, ConcurrentMap and BlockData: plumbing, or one locked step each.
