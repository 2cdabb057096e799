# ProjectDb, verified

ProjectDb is a small LSM-tree storage engine. Writes go to a transaction log and to the newest
memtable; a full memtable is frozen and flushed to a table file by a background job; finished
flush jobs are harvested strictly in order; one background compaction at a time folds a window of
tables into fewer tables. This project models that engine in Dafny and proves what it promises
and, where the code falls short of the promise, exactly when.

## How the model is laid out

| file | what it models |
|---|---|
| `Bytes`, `Tables`, `Errors`, `Sizes` | byte strings and their order, values with type tags, `std::map` and its traversal, sizes, outcomes |
| `Compaction`, `Grouping`, `SSTableOps` | what merging does to answers; how a window splits into groups; the two loops of `sstable_ops.cpp` |
| `Engine` | the whole database as a state machine: calls, ends of flush jobs in any order, end of the compaction job |
| `Refinement`, `Workload`, `StaleRead`, `Protocol` | runs of the engine against a map of last writes; what background jobs may rely on |
| `Serializer`, `Formats`, `SparseIndex`, `TransactionLog`, `Streams`, `TableFiles` | the byte formats, also on literal bytes, the two index builders, `seek`, the log loader, the stream code that carries them out, and the table queue and its compaction as files with indexes |
| `MemTables`, `IndexQueue`, `ProjectDb` | the classes of the program, updated in place; every method equals a step of `Engine` |
| `Recovery`, `Crash`, `CrashPoints`, `ByteRecovery` | the directory as a map, opening, crashes at every file operation of a call, and the same on the bytes of the files |
| `Lifetime`, `LifetimeWorkload`, `LifetimeBytes`, `StaleRestart` | many sessions in a row, each closed or killed at any point, on operations and on bytes |
| `FileNames` | counters printed into file names and read back, extensions, renaming |
| `Random`, `RandomCycle` | the Lehmer generator of the benchmarks |

`Engine.Db` is the common state. The classes carry ghost copies of what they hold, and the
`ensures` of each method says that the abstract state after it is the engine's step. Theorems
about runs are lemmas about `Engine`, so they hold of the classes.

A run is any sequence of events: a `set` or `remove` call, a `get` call, the end of the i-th
outstanding flush job, the end of the outstanding compaction job. Nothing restricts the order.

## What turned out

* **A removed key can come back.** `mergeSSTable` drops a key when both tables hold it and the
  newer one holds a tombstone, and two tombstones cancel as well. The comment above it
  (db/sstable_ops.cpp:15-34) says that this is safe; it is not when an older table outside the
  group holds a live value. `Refinement.ReadsLastWriteExactly` states, for every run and key, that
  all reads are exact if and only if no applied compaction resurfaces the key, a condition on the
  input tables alone. `StaleRead` gives complete runs from an empty database in which a removed
  key reads as its old value.
* **Which uses are unaffected.** With compaction disabled or one table per compaction, every run is
  exact (`FewTablesAlwaysSafe`). In any configuration, a key that is never removed, or set at most
  once and removed at most once, always reads exactly, whatever other keys do
  (`ModestKeysReadLastWrite`); neither bound can be relaxed (`StaleRunCalls`).
* **Recovery of operations.** Taking a log for the sequence of its operations, which is what it is in
  the format the loader reads: after a kill at any file operation of a call or of the destructor,
  outside `update`, the directory opens, and through any number of sessions a key reads exactly if
  and only if no step and no end of a session resurfaces it (`LifetimeReadsExactly`). A key that is
  never removed then always reads exactly. A key set at most once and removed at most once does,
  unless a kill falls between the rename of a table that holds it and the deprecation of the table's
  log (`ModestKeysReadExactly`): the table then comes back twice, two copies of a removal cancel, and
  the removed key reads as set. `StaleRestart` is such a run; its logs hold nothing that the loader
  would not read back.
* **Recovery of bytes.** The log writer and the log loader disagree on `set`. The writer appends the
  bare text (db/memtable_queue.cpp:46), the loader expects a type tag before it
  (db/transaction_log.cpp:37-38), although db/projectdb.cpp:127-129 relies on logs to rebuild
  memtables. On the bytes that the writer leaves, a log loads as the removals before its first set,
  so that a set that was not flushed is lost with a kill, and also when the database is closed. The
  results above hold of the bytes as long as the logs lose nothing at any opening; at the last one
  it is enough that they lose nothing about the key that is read (`LifetimeBytes.BytesReadExactly`).
  A text that starts with four zeros is read on as records: after one such call the database never
  opens again (`LifetimeBytes.UnopenableRun`). It opens if and only if every log loads
  (`OpensExactly`).
* **The generator** visits every seed: its source comment (benchmark/random.h:30-32) is right.

## Model

| member | source | states |
|---|---|---|
| Bytes.LessAtFirstDifference | db/key.cpp:30-30 | the key order is decided at the first differing byte, and a proper prefix comes first |
| Compaction.FoldClosedForm | db/sstable_ops.cpp:35-78 | closed form of folding a group: a live newest entry always survives; a tombstone survives exactly if an even number of trailing tombstones follows a live entry, or an odd number none; what survives is the newest entry |
| Compaction.CompactionKeepsLive | db/sstable_ops.cpp:142-199 | a live binding keeps its value through a compaction, for all older, compacted and newer tables and every grouping |
| Compaction.CompactionChangesExactly | db/sstable_ops.cpp:142-199 | the answer for a key changes if and only if no newer table holds it, the window hides it behind a tombstone, and a live value is the newest thing left after each group has cancelled its tombstones |
| Compaction.SafeDropsNeverResurface | db/sstable_ops.cpp:15-34 | the guard the comment has in mind: if every group that loses its tombstone has no live entry in an older table, no answer changes |
| Compaction.WholeQueueNeverResurfaces | db/sstable_ops.cpp:142-199 | a compaction from the front of the queue into one table changes no answer |
| Compaction.NoTombstoneNeverResurfaces | db/sstable_ops.cpp:53-61 | without a tombstone for the key in the window no answer changes |
| Compaction.ResurfacingExample | db/sstable_ops.cpp:53-61 | a concrete value, overwritten and removed, reads as the overwritten value after the merge |
| Sizes.TotalOfEntries | db/memtable.cpp:53-58 | the loop over a traversal adds up to the size of the table |
| Sizes.TotalWithout | db/memtable.cpp:53-58 | every entry adds its own weight wherever it stands, so the size does not depend on the order of traversal |
| Sizes.FileSizeMerged | db/sstable_ops.cpp:161-167 | a merged table's file is never larger than the two input files together |
| Grouping.GroupingUnique | db/sstable_ops.cpp:151-198 | the computed partition is the only one that closes each group at its first merge above the limit |
| Grouping.GroupsCover | db/sstable_ops.cpp:151-198 | the groups are consecutive, in order, and cover the window |
| Grouping.GroupsBound | db/sstable_ops.cpp:162-198 | every group but the last has two tables or more whose files are together longer than the limit, no two or more at its front short of all are, and there are at most half as many groups as tables, rounded up |
| Grouping.MergeWindowTables | db/sstable_ops.cpp:162-198 | the output tables are the folds of the groups |
| Grouping.MergeWindowIds | db/sstable_ops.cpp:158-193 | file counters of the output are increasing, start with the window's first and stay between those of its ends |
| Grouping.MergeWindowLength | db/sstable_ops.cpp:142-199 | n tables become between 1 and half of n + 1 |
| SSTableOps.MergeSSTable | db/sstable_ops.cpp:35-78 | the two-iterator loop computes the merge of the two maps |
| SSTableOps.MergeSSTables | db/sstable_ops.cpp:142-199 | the loop over a window fails on a single table and otherwise yields one fold for each group, in order |
| SSTableOps.FoldFitsInputs | db/sstable_ops.cpp:161-167 | the running size is never below the file size of the table merged so far |
| Engine.GetReadsChronicle | db/projectdb.cpp:76-95 | searching memtables, then tables, newest first, is a search of one chronological sequence |
| Engine.WriteKeepsFront | db/memtable_queue.cpp:41-63 | a write touches no memtable but the newest |
| Engine.HarvestValid | db/projectdb.cpp:208-224 | in whatever order jobs end, a harvest keeps the invariant and the chronological sequence of tables, and stops at an unfinished job |
| Engine.CheckCompactionValid | db/sstable_index_queue.cpp:34-86 | in every reachable state `update` succeeds, replaces exactly the window its job was launched on, shortens the queue, and keeps the start index in the queue and not below its old value |
| Engine.StepValid | db/projectdb.cpp:76-115 | no step fails, and each keeps: memtables are flush jobs plus one, job i owns memtable i, logs replay to their memtables, counters increase, a running compaction sees its launch window |
| Engine.RunValid | db/projectdb.cpp:76-268 | the same for every run |
| Refinement.WriteReads | db/projectdb.cpp:97-115 | a write changes the answer for its own key, as the call says, and no other |
| Refinement.CheckReads | db/projectdb.cpp:183-198 | checking on background jobs changes an answer if and only if the compaction it applies resurfaces the key |
| Refinement.StepReads | db/projectdb.cpp:76-268 | the effect of any step on any read, in both directions |
| Refinement.ReadsLastWriteExactly | db/projectdb.cpp:76-268 | for every run and interleaving: all reads of a key along the run return its last write if and only if no step resurfaces it |
| Refinement.SafeRunReadsLastWrite | db/projectdb.cpp:76-115 | the reading direction at the end of a run |
| Refinement.FewTablesAlwaysSafe | db/sstable_index_queue.cpp:88-122 | with at most one table per compaction (0 disables it) every run is exact and the start index stays 0 |
| Refinement.SingleOutput | db/sstable_ops.cpp:142-199 | a compaction from the front of the queue into one group resurfaces nothing in a reachable state |
| Workload.FewOccurrencesDropSafely | db/sstable_ops.cpp:46-72 | with at most one live value and one tombstone of a key among the tables, every drop is safe |
| Workload.RunCounts | db/projectdb.cpp:76-268 | from any state, along every run, tables come to hold a key as a value, or as a tombstone, no more often than it is set, or removed |
| Workload.FewEntriesNeverStale | db/sstable_ops.cpp:46-72 | while the tables hold no tombstone of a key, or one value and one tombstone at most, no compaction resurfaces it |
| Workload.ModestNeverStale | db/sstable_ops.cpp:46-72 | so no reachable compaction resurfaces a key whose entries and calls are that few together |
| Workload.ModestKeysReadLastWrite | db/projectdb.cpp:76-115 | from an empty database, in every interleaving, such keys read as last written |
| StaleRead.RemovedKeyComesBack | db/sstable_ops.cpp:53-61 | two complete runs after which a removed key reads as its old value |
| StaleRead.RemovedKeyIsGoneInModel | db/projectdb.cpp:107-115 | in those runs the last call on the key removed it |
| StaleRead.StaleRunCalls | db/projectdb.cpp:97-115 | those runs miss the bounds of the workload theorem by one call each, so neither bound can be relaxed |
| Protocol.RunningCompactionFreezesQueue | db/projectdb.cpp:183-198 | while a compaction runs no step changes the queue or the start index or launches a second one, and flush jobs are only added or ended |
| Protocol.RunsDuringCompaction | db/projectdb.cpp:183-198 | until the compaction job ends, every run leaves the queue and the start index as they were at launch and the same job outstanding, while flush jobs are only added |
| Protocol.CallLaunches | db/sstable_index_queue.cpp:88-122 | after every call a compaction is outstanding, or compaction is disabled or fewer tables than configured stand behind the start index; a new one is that of the queue and the start index as the call leaves them |
| Protocol.RunLaunches | db/projectdb.cpp:238-243 | so no run, whatever backlog it builds up, ends a call with a compaction due and none outstanding |
| Protocol.CompactionApplied | db/projectdb.cpp:256-268 | the first call after the end of a compaction job puts what the window becomes in its place, keeps the tables behind it, and moves the start index to the last merged table |
| Protocol.EndsSetFlags | db/memtable_queue.cpp:112-116 | in whatever order jobs end, exactly those that end count as done, and nothing else changes |
| Protocol.EndedJobsAreHarvested | db/projectdb.cpp:208-224 | if the first n outstanding jobs have ended, in any order and whatever others end in between, the next call queues the tables of at least those n memtables in order under their counters, and of exactly n if job n has not ended |
| Protocol.RunKeepsSettledTables | db/sstable_index_queue.cpp:73-85 | along every run the start index never falls and tables before it never change |
| Protocol.HarvestTakesFront | db/projectdb.cpp:208-224 | a harvest moves exactly the front memtables whose jobs are done to the back of the queue, under their jobs' counters |
| Protocol.FrozenTablesStay | db/memtable_queue.cpp:93-117 | after any step, a memtable whose flush was launched is as it was, or its table stands in the queue under the job's counter |
| Protocol.FrozenUntilQueued | db/memtable_queue.cpp:93-117 | along every run it is never written again, up to the event after which its table stands in the queue |
| Protocol.FrozenSize | db/memtable.cpp:52-67 | without 32-bit wrap a frozen table has at least the limit and less than the limit plus its last entry |
| Protocol.RunActiveSmall | db/memtable.cpp:52-67 | from a state whose newest memtable is below the limit, the empty database included, every run keeps it below (a reopened database may start with a full one) |
| Serializer.TextRoundTrip | utils/serializer.h:222-230 | decoding an encoded string returns it and the unread rest, whatever follows |
| Serializer.ValueRoundTrip | db/value.cpp:35-48 | the same for a value with its tag |
| Formats.ValueBytes | db/value.cpp:35-48 | a live value is four zeros, 8 bytes of length and its text; a tombstone is 1, 0, 0, 0 and a length of zero |
| Formats.ValueReads | db/value.cpp:23-48 | four bytes of tag, a length and a text, whatever they are and whatever follows, decode to a value that holds the text, unless the tag is 1, 0, 0, 0; then it holds nothing |
| Formats.EntryBytes | utils/serializer.h:177-195 | the literal bytes of a pair, live or removed |
| Formats.FileBytes | db/sstable_ops.cpp:88-91 | a table file is 8 bytes of time, 8 bytes of count, and the entries |
| Formats.RecordBytes | db/transaction_log.h:25-45 | the literal bytes of the records that the writer appends, set 1 and remove 2, and of those that the loader expects |
| Formats.RemovalReads | db/transaction_log.cpp:47-52 | 2, 0, 0, 0, a length and a key bind the key to nothing readable, and the loader goes on with what follows |
| Formats.SetReads | db/transaction_log.cpp:33-46 | 1, 0, 0, 0, a length and a key, four zeros, a length and a text bind the key to that text, and the loader goes on with what follows |
| Formats.UnknownReads | db/transaction_log.cpp:53-60 | a record is refused as unknown if and only if its type is neither of the two |
| Formats.WeightInBytes | db/value.cpp:50-52 | the approximate size of an entry is key, text and 4 bytes of tag: its encoding without the two lengths |
| Formats.FullByFileLength | db/memtable.cpp:52-67 | so a memtable is full if and only if its file would have, less 16 bytes and 16 for each entry, the limit or more, modulo 2^32 |
| Serializer.EntryRoundTrip | utils/serializer.h:177-211 | the same for a key-value pair |
| Serializer.TableRoundTrip | utils/serializer.h:222-275 | the same for a whole table |
| Serializer.FileRoundTrip | db/sstable_ops.cpp:114-140 | a table file decodes to its table with nothing left |
| Serializer.FileLength | db/sstable_ops.cpp:161-165 | the size added up for a table is the length of its file |
| Serializer.RangeRoundTrip | utils/serializer.h:301-311 | decoding between any two entry boundaries gives exactly the entries between them |
| SparseIndex.BlockFromFinds | db/sstable_index.cpp:66-104 | the index walk finds no block exactly for keys outside the index, else the block around the key |
| SparseIndex.SeekWithSparseIndex | db/sstable_index.cpp:27-64 | with any index that points at entries and has the first and last, seeking equals a lookup in the whole table |
| SparseIndex.SeekWithWriterIndex | db/sstable_ops.cpp:82-112 | so it does with the index built while writing, for every table, key and block size |
| SparseIndex.SeekWithReaderIndex | db/sstable_ops.cpp:114-140 | and with the different index built while reading |
| SparseIndex.WriterIndexExactly | utils/serializer.h:237-254 | behind an entry of the writer's index the next table entry in it is the last of the table or the first that starts the block size or more behind it |
| SparseIndex.WriterBlockBounds | db/sstable_ops.cpp:93-102 | neighbours in the writer's index are table entries in their order, less than the block size and the entry before the second apart, and at least the block size unless the second is the last of the table |
| SparseIndex.ReaderIndexExactly | utils/serializer.h:282-297 | behind an entry of the reader's index the next table entry in it is the last of the table or the first that ends the block size or more behind the end of the indexed one |
| SparseIndex.ReaderBlockBounds | db/sstable_ops.cpp:121-132 | neighbours in the reader's index are less than the block size and the first entry apart, and their ends at least the block size unless the second is the last of the table |
| TransactionLog.CompleteIsGreatest | db/transaction_log.cpp:23-75 | the number of complete records in a byte prefix is the greatest that fits |
| TransactionLog.TornLog | db/transaction_log.cpp:23-75 | loading any byte prefix of a log in the loader's format applies exactly its complete records |
| TransactionLog.ReadsBackExactlyRemovals | db/memtable_queue.cpp:46-60 | the loader reads a written record back if and only if it is a removal, whatever follows |
| TransactionLog.SingleCallLog | db/transaction_log.h:25-45 | the log of one call loads to that call's memtable if and only if the call is a removal |
| TransactionLog.RemovalLogLoads | db/transaction_log.h:25-45 | logs of removals load as written |
| TransactionLog.FirstSetEndsReplay | db/transaction_log.cpp:34-46 | in a log below 4 GB, cut off anywhere or not, a set ends the replay, and it and all behind it are lost, unless the four bytes behind its length are zero |
| TransactionLog.ZeroSetReadsOn | db/transaction_log.cpp:34-46 | if they are, its key is bound to an empty value with the text's length for a tag, and the loader goes on inside the text |
| Streams.InputStream.Read | utils/serializer.h:119-135 | reads exactly the next bytes, or fails at the end of the file |
| Streams.InputStream.ReadText | utils/serializer.h:267-275 | the character loop decodes a string |
| Streams.InputStream.ReadValue | db/value.cpp:44-48 | decodes a tag and a string |
| Streams.InputStream.ReadEntry | utils/serializer.h:203-211 | decodes a pair and advances by its size |
| Streams.OutputStream.WriteText | utils/serializer.h:222-230 | appends the encoding of a string |
| Streams.OutputStream.WriteEntry | utils/serializer.h:177-195 | appends the encoding of a pair |
| Streams.LoadLog | db/transaction_log.cpp:23-75 | the replay loop computes the specified load, end-of-file and unknown types included |
| Streams.SSTableIndex.GetPotentialBlockPos | db/sstable_index.cpp:66-104 | the iterator loop finds the specified block |
| Streams.SSTableIndex.Seek | db/sstable_index.cpp:27-64 | seeks in the specified way, decoding one block |
| Streams.ReadRange | utils/serializer.h:301-311 | the loop decodes the specified range and terminates |
| Streams.FlushSSTable | db/sstable_ops.cpp:82-112 | writes the file of the table and builds the writer's index of it |
| Streams.ReadEntries | utils/serializer.h:277-299 | reads the entries and, of a table file, builds the reader's index |
| Streams.LoadSSTable | db/sstable_ops.cpp:114-140 | loads the table and, of a table file, the reader's index and end position |
| MemTables.MemTable.Remove | db/memtable.cpp:42-42 | binds the key to a tombstone |
| MemTables.MemTable.NeedsFlushToDisk | db/memtable.cpp:52-67 | the loop compares the size modulo 2^32 with the limit |
| MemTables.ReplayLog | db/transaction_log.cpp:23-75 | applies the operations of a log in order |
| MemTables.MemTableQueue.Get | db/memtable_queue.cpp:23-36 | the newest memtable with the key answers |
| MemTables.MemTableQueue.PushBack | db/transaction_log.cpp:11-13 | a new memtable with a new, empty, freshly numbered log |
| MemTables.TransactionLogWriter.Write | db/transaction_log.h:28-45 | type, key and text, written one after the other, are the record of the operation, and the stream still holds the log of all operations since it was opened |
| MemTables.MemTableQueue.WriteBack | db/memtable_queue.cpp:41-63 | the newest log's file grows by the operation's record and the newest memtable by the operation; no other log or memtable changes |
| MemTables.MemTableQueue.StreamsHoldLogs | db/memtable_queue.cpp:41-80 | what a log file held when it was opened, followed by what its stream has written, is the log of its memtable |
| MemTables.MemTableQueue.TryLaunchFlushToDisk | db/memtable_queue.cpp:93-100 | freezes the newest memtable exactly when it is full |
| MemTables.MemTableQueue.Write | db/memtable_queue.cpp:41-63 | `set` and `remove` have the effect of the engine's write |
| MemTables.MemTableQueue.PushFromTransactionLog | db/memtable_queue.cpp:65-80 | a reloaded memtable; all but the last are flushed at once |
| MemTables.MemTableQueue.Pop | db/memtable_queue.cpp:82-87 | removes the front memtable and names its log |
| IndexQueue.SSTableIndexQueue.Get | db/sstable_index_queue.cpp:17-28 | the newest table with the key answers |
| TableFiles.IndexedSeek | db/sstable_index.cpp:27-64 | seeking in a file with an index that fits it answers for the table in the file |
| TableFiles.Get | db/sstable_index_queue.cpp:17-28 | the reverse loop of seeks over files and indexes finds what a search of the tables finds, tombstones included |
| TableFiles.FlushInto | db/projectdb.cpp:215-220 | a flushed table joins the queue as the file of that time and table with the writer's index for the block size, and the queue still answers for its tables |
| TableFiles.LoadInto | db/projectdb.cpp:147-153 | a loaded file joins the queue with the reader's index for the block size, and the queue still answers for its tables |
| TableFiles.MergeFiles | db/sstable_ops.cpp:142-199 | the compaction on files: with the lengths of the files for sizes, it reads tables and writes, for each table that the window becomes, its file with the writer's index for the block size |
| IndexQueue.SSTableIndexQueue.Update | db/sstable_index_queue.cpp:34-86 | splices the merged tables in place of the window, with the three error cases |
| IndexQueue.SSTableIndexQueue.TryLaunchCompaction | db/sstable_index_queue.cpp:88-122 | launches exactly when enough tables stand behind the start index |
| ProjectDb.ProjectDbImpl.constructor | db/projectdb.cpp:41-46 | starts as the empty engine |
| ProjectDb.ProjectDbImpl.ReloadTables | db/projectdb.cpp:144-160 | queues the table files by counter and numbers new ones above |
| ProjectDb.ProjectDbImpl.ReloadLogs | db/projectdb.cpp:162-180 | replays the logs by counter, flushes all but the last, numbers new ones above |
| ProjectDb.ProjectDbImpl.Init | db/projectdb.cpp:132-181 | opening yields the specified state, in order, or the specified error |
| ProjectDb.ProjectDbImpl.FlushJobEnds | db/memtable_queue.cpp:112-116 | the end of job i is the engine's step, the job reading the memtable it shares |
| ProjectDb.ProjectDbImpl.CompactionJobEnds | db/sstable_index_queue.cpp:117-121 | the end of the compaction job is the engine's step, the job reading the live queue |
| ProjectDb.ProjectDbImpl.CheckSSTableCompactionFuture | db/projectdb.cpp:256-268 | applies a finished compaction without error and tells whether one still runs |
| ProjectDb.ProjectDbImpl.HarvestFront | db/projectdb.cpp:215-223 | one harvest, table, memtable and job together |
| ProjectDb.ProjectDbImpl.HarvestFinished | db/projectdb.cpp:208-224 | the harvest loop stops at the first unfinished job |
| ProjectDb.ProjectDbImpl.CheckFlushToDiskFutures | db/projectdb.cpp:208-246 | harvests, then tries to launch a compaction |
| ProjectDb.ProjectDbImpl.CheckFutures | db/projectdb.cpp:183-198 | harvests only when no compaction is running |
| ProjectDb.ProjectDbImpl.Read | db/projectdb.cpp:76-95 | a tombstone in the memtables ends the search |
| ProjectDb.ProjectDbImpl.Get | db/projectdb.cpp:76-95 | `get` is the engine's step and answers from the state after it |
| ProjectDb.ProjectDbImpl.Write | db/projectdb.cpp:97-115 | `set` and `remove` are the engine's step |
| ProjectDb.ProjectDbImpl.Set | db/projectdb.cpp:97-105 | `set` is the engine's step |
| ProjectDb.ProjectDbImpl.Remove | db/projectdb.cpp:107-115 | `remove` is the engine's step |
| ProjectDb.ProjectDbImpl.LogFilesHoldLogs | db/memtable_queue.cpp:41-63 | whatever steps the database has made, every log file holds the records of exactly the operations of its memtable |
| Recovery.SortedIdsUnique | utils/system_utils.cpp:139-152 | there is one order by counters, and sorting finds it |
| Recovery.OpensAs | db/projectdb.cpp:132-181 | a directory that holds some tables and logs opens as exactly those, in order |
| Recovery.InitValid | db/projectdb.cpp:132-181 | whatever a directory holds, if it opens, the state satisfies the invariant |
| Recovery.InitOnDisk | db/projectdb.cpp:132-181 | and the directory holds that state |
| Recovery.OpenedValid | db/projectdb.cpp:155-180 | counters taken after a restart are above all those in use |
| Recovery.RecoversBetweenCalls | db/projectdb.cpp:132-181 | opened between two calls, the directory gives the same tables, memtables and answers |
| Recovery.RenamedRecovers | db/projectdb.cpp:218-222 | between the rename of a table and the deprecation of its log it is there twice, and every read is as before |
| Recovery.HarvestRecovers | db/projectdb.cpp:208-224 | a crash after any file operation of a harvest reads as before the call |
| Recovery.WriteRecovers | db/memtable_queue.cpp:41-63 | a crash during a write reads as before until the log holds the operation, and as after from then on |
| Crash.AppliedOnDisk | db/sstable_index_queue.cpp:34-86 | when `update` is over the directory holds the new queue |
| Crash.StepOnDisk | db/projectdb.cpp:76-268 | after every step the directory holds the state |
| Crash.RunOnDisk | db/projectdb.cpp:76-268 | the same along every run |
| Crash.CallRecovers | db/projectdb.cpp:97-115 | a crash at any file operation of a call after `update` opens and reads as before the write or as after it, by whether the log has the operation |
| CrashPoints.CallOneByOne | db/projectdb.cpp:97-115 | these moments skip nothing: from `update` on, the directories of a call differ from one to the next by at most one rename, one new log or one appended operation, and the last is that after the call |
| Crash.CrashReadsLastWrite | db/projectdb.cpp:132-181 | whatever the run and the moment, keys within the workload bound read after the restart as last written |
| Crash.CloseAndReopen | db/projectdb.cpp:52-74 | closing and reopening gives the compacted queue, the flushed tables behind it, and the memtable that was not full |
| ByteRecovery.LogLoads | db/transaction_log.cpp:23-75 | cut off after any number of bytes, the writer's log loads as its complete removals before the first set, unless the text of that set starts with four zeros or 4 GB follow its length |
| ByteRecovery.KeyLoadsExactly | db/memtable_queue.cpp:41-63 | of a log read so far, the binding of a key survives if and only if the key is not called for from the first set on, or was removed before and is removed last |
| ByteRecovery.LogLoadsExactly | db/memtable_queue.cpp:41-63 | under the bounds of `LogLoads` a log loads as its memtable if and only if that holds of every key |
| ByteRecovery.OpensExactly | db/transaction_log.cpp:62-70 | the bytes of a directory open if and only if every log loads |
| ByteRecovery.OpensBytes | db/projectdb.cpp:132-181 | if every log is within the bounds of `LogLoads`, opening the bytes gives the tables back, and of each memtable the removals before its first set, a kill inside an append included |
| ByteRecovery.BytesRead | db/projectdb.cpp:132-181 | so a key reads as nothing if some log removes it before its first set, and else as the tables have it |
| ByteRecovery.BytesSufficeExactly | db/projectdb.cpp:132-181 | the bytes rebuild the same tables and memtables if and only if no log loses a key |
| ByteRecovery.KeyReadsBack | db/projectdb.cpp:132-181 | a key that no log loses reads as from the memtables, whatever the logs lose of other keys |
| ByteRecovery.CrashBytesReadLastWrite | db/projectdb.cpp:132-181 | crash recovery on bytes, at every file operation of a call and inside the append of its record: keys within the workload bound that no log loses read as last written |
| Lifetime.ScratchIgnored | db/projectdb.cpp:135-142 | unfinished files under temporary names have no effect on opening |
| Lifetime.EndReadsExactly | db/projectdb.cpp:52-74 | however a session ends, between calls, in a call, in the destructor or by closing, the directory opens, and a key reads as the calls demand if and only if the end does not apply a compaction that resurfaces it uncovered |
| CrashPoints.ClosingOneByOne | db/projectdb.cpp:59-66 | the directories of the destructor's harvest start with the one it finds and differ by at most one file operation each |
| CrashPoints.EveryCallPointEnds | db/projectdb.cpp:97-115 | the directories that a kill during a call may leave are exactly those of the call |
| CrashPoints.EveryClosingPointEnds | db/projectdb.cpp:52-66 | and so for the destructor |
| Lifetime.LifeOpens | db/projectdb.cpp:132-181 | after any number of sessions the directory opens |
| Lifetime.LifetimeReadsExactly | db/projectdb.cpp:132-181 | through any number of sessions, after every event and at every opening, a key reads as last written if and only if no step and no end of a session resurfaces it |
| Lifetime.FewTablesLifetime | db/sstable_index_queue.cpp:88-122 | with at most one table per compaction that holds for every key |
| LifetimeWorkload.HarvestCounts | db/projectdb.cpp:208-224 | killed after a rename the directory opens with that table twice, killed after a deprecation with no table twice |
| LifetimeWorkload.EndCounts | db/projectdb.cpp:52-74 | apart from such a table, reopening finds a key no more often than the tables held it |
| LifetimeWorkload.LifeCounts | db/projectdb.cpp:76-268 | along a life tables hold a key no more often than it is called for, kind by kind, if no table that holds it is left twice |
| LifetimeWorkload.ModestKeysReadExactly | db/projectdb.cpp:76-115 | through any number of sessions in any configuration, reads are exact for a key never removed, and for a key set at most once and removed at most once unless a kill falls between the rename of a table that holds it and the deprecation of its log |
| LifetimeBytes.SessionsStartAlike | db/projectdb.cpp:132-181 | if the logs lose nothing at any opening, every session starts on the bytes with the queue and the memtables of the operations |
| LifetimeBytes.BytesOpenExactly | db/transaction_log.cpp:62-70 | then, after any number of such sessions, the bytes open if and only if every log loads, and they do if every log is within the bounds of `LogLoads` |
| LifetimeBytes.BytesReadExactly | db/projectdb.cpp:132-181 | and a key that no session resurfaces and no log loses reads from the bytes as last written |
| LifetimeBytes.ModestKeysReadFromBytes | db/projectdb.cpp:76-115 | so do keys within the workload bound for lives |
| LifetimeBytes.PoisonedLog | db/transaction_log.cpp:52-70 | a log with one set of eight chosen bytes does not load |
| LifetimeBytes.UnopenableRun | db/projectdb.cpp:162-173 | in every configuration, after that one call and a kill, or closing while the memtable is not full, the directory does not open again |
| StaleRestart.OpensWithCopies | db/projectdb.cpp:218-222 | a complete run, killed at that point, after which a removal stands in a table file and in the oldest log |
| StaleRestart.LogsLoadBack | db/transaction_log.cpp:47-52 | the bytes of the two logs left by this run load to their memtables |
| StaleRestart.BytesOpenWithCopies | db/projectdb.cpp:132-181 | so the bytes of the directory open as the state that the run goes on from |
| StaleRestart.RestartForgetsRemoval | db/sstable_ops.cpp:53-61 | in the session after the kill, without another call, the two tombstones cancel and the removed key reads as set |
| StaleRestart.OnceSetOnceRemoved | db/sstable_ops.cpp:15-34 | over both sessions the key is set once and removed once, the removal last; the guard on kills is all that fails |
| FileNames.CounterReadsBack | utils/system_utils.cpp:118-126 | the counter is read back from a printed name if and only if it fits an int |
| FileNames.NamesSpelledOut | config/db_config.cpp:29-37 | the six names of a counter, letter for letter |
| FileNames.DigitsAreShortest | utils/system_utils.cpp:16-18 | a counter is printed without zeros in front |
| FileNames.NamesDiffer | utils/system_utils.cpp:16-22 | different files have different names |
| FileNames.TemporaryNamesBecomeFinal | utils/system_utils.cpp:88-100 | removing the last extension of a temporary name gives the final name of the same counter |
| FileNames.KindShowsInName | utils/system_utils.cpp:139-147 | the extension by which opening selects files tells the kind of file |
| Random.FoldKeepsResidue | benchmark/random.h:34-37 | folding the high bits onto the low ones keeps the residue modulo 2^31 - 1 |
| Random.NextIsPermutation | benchmark/random.h:24-44 | good seeds lead to good seeds, different ones to different ones, and each is reached |
| Random.Generator.constructor | benchmark/random.h:18-23 | every 32-bit argument gives a good seed |
| Random.OneSubtraction | benchmark/random.h:33-42 | the product fits 64 bits, the folded sum fits 32 bits and is never 2^31 - 1, and at most one subtraction completes the reduction |
| Random.Generator.Next | benchmark/random.h:24-44 | by shift, mask and subtraction the seed becomes seed * 16807 modulo 2^31 - 1 and stays good |
| RandomCycle.OrderIsGreatest | benchmark/random.h:25-32 | no power of the multiplier below 2^31 - 2 is 1 modulo 2^31 - 1 |
| RandomCycle.ReachesEverySeed | benchmark/random.h:30-32 | from every good seed the generator reaches every good seed |
| RandomCycle.PeriodIsExact | benchmark/random.h:30-32 | it returns to a seed after 2^31 - 2 steps and not earlier |

## Left out

- A crash inside `update`, between deprecating the window and renaming the merged tables: the code
  loses data there and says so (db/sstable_index_queue.cpp:60-64), so the crash theorems start
  when `update` is over.
- Writing to a log behind a torn record: recovery appends to the same file, and the loader takes
  what follows for the rest of the torn record.
- MemTables.ReplayLog: applies operations; that the loader reads them off the bytes is `Streams.LoadLog`,
  and what it reads of a log that holds a set is `ByteRecovery.LogLoads`.
- MemTables.MemTableQueue.PushFromTransactionLog: is given the operations of the log, not its bytes.
- ProjectDb.ProjectDbImpl.ReloadLogs: logs are operation sequences, see `ByteRecovery.OpensBytes`.
- ProjectDb.ProjectDbImpl.Init: logs are operation sequences, see `ByteRecovery.OpensBytes`.
- Recovery.OpensAs: logs are operation sequences, since the program's writer and loader disagree on
  sets; on bytes `ByteRecovery.OpensBytes` says what opening gives.
- Recovery.RecoversBetweenCalls: the same; exact on bytes under the condition of
  `ByteRecovery.BytesSufficeExactly`, and for a key under that of `ByteRecovery.KeyReadsBack`.
- Recovery.RenamedRecovers: the same.
- Recovery.HarvestRecovers: the same.
- Recovery.WriteRecovers: the same, and records are appended whole; `ByteRecovery.LogLoads` has the cuts.
- Crash.CallRecovers: the same.
- Crash.CrashReadsLastWrite: the same; on bytes it is `ByteRecovery.CrashBytesReadLastWrite`.
- Crash.CloseAndReopen: the same.
- ByteRecovery.OpensBytes: not for a log whose first set has a text that starts with four zeros or
  has 4 GB behind its length; what such a text does is `TransactionLog.ZeroSetReadsOn`.
- ByteRecovery.CrashBytesReadLastWrite: the same bounds on logs.
- Lifetime.EndReadsExactly: logs are operation sequences, so that they always load.
- Lifetime.LifeOpens: the same; on bytes it is `LifetimeBytes.BytesOpenExactly`, and it can fail.
- Lifetime.LifetimeReadsExactly: the same; on bytes it is `LifetimeBytes.BytesReadExactly`.
- Lifetime.FewTablesLifetime: the same.
- LifetimeWorkload.HarvestCounts: the same.
- LifetimeWorkload.EndCounts: the same.
- LifetimeWorkload.LifeCounts: the same.
- LifetimeWorkload.ModestKeysReadExactly: the same; on bytes it is
  `LifetimeBytes.ModestKeysReadFromBytes`.
- LifetimeBytes.BytesReadExactly: once an opening has lost something, the sessions behind it are not
  followed, since they then differ from those of the operations.
- IndexQueue.SSTableIndexQueue.Get: looks keys up in tables where the program seeks in files through
  their indexes; `TableFiles.Get` is that loop, with the same answer.
- Threads and their memory accesses: jobs are steps that end in any order. A flush job that cleans
  up deprecated files while another job or the main thread does the same is not modelled.
- The filesystem, streams in error states other than the end of the file, clocks, sleeping, the
  regular expression engine: a file is a byte sequence, a directory a map, the name pattern a
  search for the prefix and digits.
- Keeping table files open: caching of a handle with the same meaning.
- Integer widths other than those stated: file counters, stream positions, block sizes and the sum of
  file sizes in a compaction are unbounded, the configured number of tables to compact is taken to fit an int. The
  32-bit size of a memtable, 8-byte lengths, 4-byte tags and the int of a file counter are
  modelled.
- The byte order and the widths of the host: 8-byte sizes and times, 4-byte enumerations, little
  endian. Only `Formats`, `FirstSetEndsReplay`, `ZeroSetReadsOn`, `ByteRecovery` and the poisoned log of
  `LifetimeBytes` depend on the byte order.
- Global file counters: they are fields of the memtable queue, and each session starts with zero as
  a new process does.
- The destructor as a method: it is the directory transformation of `CloseAndReopen`, and the file
  operations of `ClosingDisks`, with the ends of the jobs it waits for as events before it.
- Removing deprecated and temporary files at opening: they stay in the modelled directory, where
  `ScratchIgnored` says that they have no effect.
- Configuration parsing, logging, concepts and templates, the benchmark drivers, `Uniform`, `OneIn`
  and `Skewed` of the generator: plumbing or direct consequences.
