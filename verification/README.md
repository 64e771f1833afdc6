# Models of FoundationDB's backup tools and command-line tools

This project models, in Dafny, the parts of FoundationDB's backup and command-line tools that work on more than one
thing at a time, and proves what they promise:

* the **log converter and decoder** (`fdbbackup/FileConverter.actor.cpp`, `fdbbackup/FileDecoder.actor.cpp`): the
  choice of the log files, the k-way merge of files by (version, sub), the grouping by version, the division of a
  batch into numbered parts, the blocks of the output file, the buffered file below it, and the decoder of the result;
  also the files as backup workers write them (`fdbserver/BackupWorker.actor.cpp`).
  The top theorem is `EndToEnd.ConvertAndDecode`;
* the **replica checker** (`fdbcli/DebugCommands.actor.cpp`): the comparison of the answers of all replicas, the
  rounds, nested checks and retries around it, and the limits of the answers (`fdbserver/storageserver.actor.cpp`);
* **renaming a tenant** through a retry loop, under interleavings with other clients and unknown commit results
  (`fdbcli/TenantCommands.actor.cpp`);
* the **thread that runs tasks from a queue** (`fdbclient/AsyncTaskThread.actor.cpp`,
  `flow/include/flow/ThreadSafeQueue.h`), as a state machine over its steps;
* the **map between versions and wall-clock times** (`fdbclient/BackupContainer.actor.cpp`), with its binary search over
  sparse records;
* the **parsers of escaped text** (`fdbbackup/Decode.cpp`, `fdbbackup/FileDecoder.actor.cpp`,
  `fdbbackup/backup.actor.cpp`), which edit the string they read in place.

`dafny verify dfyconfig.toml` checks the whole project.

## How the code is modelled

* Objects whose methods change their fields are classes (`BackupFile`, `FileProgress`, `MutationFilesReadProgress`,
  `LogFileWriter`, `WorkerLogWriter`, `DecodeProgress`); loops are loops. Concurrent code (`TenantRename`, `TaskThread`) is a step relation
  over states, and its theorems are about every state of every run.
* Bytes are integers below 256, versions are signed 64-bit integers where they are read from and written to files.
  A file is a sequence of bytes. The hash in a key of a part and the function that deserializes a message are arbitrary
  functions; block sizes, part sizes, limits and rates are parameters.
* Errors that the source throws are values of `Readers.Result`.

## What turned out differently from the source's comments or documentation

* `checkResults` does not always report every difference below the key at which the next round starts:
  `ReplicaReports.CompleteIffAligned` gives the exact condition and `ServerLimits.UnreportedDifference` an example.
  The verdict of the check is not affected.
* A nested check can meet incomplete answers again, in spite of the comment in `doCheckAll`:
  `ServerLimits.NestedCompleteIff` gives the exact condition and `ServerLimits.NestedAnswerIncomplete` an example with
  three replicas. With two replicas it cannot (`ServerLimits.NestedTwoReplicas`).
* The check looks at no more than the first 100 shards of its range. Its verdict is about the whole range exactly if no
  more shards meet it (`CheckAll.VerdictIsAboutAllIff`).
* The check takes answers of different length for different data. Its false verdicts are always right if all servers cut their
  answers to one request alike (`CheckAll.DoCheckAll`), and only then: for any other servers there are replicas that
  agree and a check of them with a false verdict (`CheckAll.FalseVerdict`).
* A tenant can be renamed more than once by one command, if other clients rename it back: at most once more than that,
  and as often as that (`TenantRename.RenameSafety`, `TenantRename.RenamedTimes`).
* A wake-up on an empty queue makes the thread of `AsyncTaskThread` fail unless something is pushed before it looks
  (`TaskThread.WokenOnNothingFailsIff`). Such a wake-up is spurious (`TaskThread.SpuriousWakeUpFails`), or comes from a
  notify left over by a spurious wake-up on a queue with work in it (`TaskThread.LeftOverNotifyFails`). No wake-up is
  lost in either case (`TaskThread.NoLostWakeUp`).
* The binary search over time records does not find the closest record; `TimeKeeper.GuaranteeIff` says how far away
  it can stop.
* A semicolon escaped by a backslash is not accepted in a list of prefixes (`HexStrings.JoinedTextsIff`,
  `HexStrings.EscapedSemicolonFails`).
* A part with number -1 makes an accumulated batch that was given up start again (`MutationBatches.BrokenStays`,
  `MutationBatches.MinusOneRestarts`). No writer makes such a part.
* An empty token in quotes is lost directly before a semicolon (`CommandLines.ParseSpelled`).
* A backup worker does not check that a message fits into a block. Its file is read back exactly if every message does
  (`WorkerLog.WorkerLogWriter.ReadBackIff`).
* `parseLine` can return a view outside its line (`CommandLines.WildIff`, `CommandLines.QuotedThenSemicolon`).

## Model

| member | source | states |
|---|---|---|
| `Readers.Consume` | fdbclient/include/fdbclient/BackupAgent.actor.h:982-991 | reading `n` bytes succeeds exactly if the buffer has them, and returns them; at the end of the buffer the error is another one than within it |
| `Readers.CheckHeader` | fdbclient/FileBackupAgent.actor.cpp:1309-1311 | a block is accepted exactly if it begins with the format version; otherwise the error tells whether it is too short |
| `LogFiles.FilterOverlapping` | fdbbackup/FileConverter.actor.cpp:75-80 | the files that overlap the range, have a tag and are not empty, in the order of the list, each as often as in the list |
| `LogFiles.OverlapsIff` | fdbbackup/FileConverter.actor.cpp:77 | for ranges that are not empty, a file is taken exactly if it is a partitioned log, is not empty and has a version of the range |
| `LogFiles.IsSubsetIff` | fdbclient/include/fdbclient/BackupContainer.h:89-93 | for a file with versions, exactly if the other one has the same tag and all these versions |
| `LogFiles.DropCovered` | fdbbackup/FileConverter.actor.cpp:83-97 | for every file, also one dropped because of a file that is dropped in turn, a kept file has its tag and all its versions; no kept file is covered by the next one; kept files are files of the list in sorted order |
| `LogFiles.GetRelevantLogFiles` | fdbbackup/FileConverter.actor.cpp:74-100 | deduplication loses nothing: for every listed log with a version of the range, a kept file has its tag and all its versions; the result is sorted by begin and end version, made of overlapping files, and free of neighbours that cover one another |
| `WorkerLog.ReadMessageBack` | fdbserver/BackupWorker.actor.cpp:675-682 | a message written by a backup worker is read back wherever it stands in a block, and is not taken for the end of the block |
| `WorkerLog.HeadersSort` | fdbserver/BackupWorker.actor.cpp:676-682 | headers sort bytewise by version, then sub, then length: the fields are big-endian |
| `WorkerLog.BlockBegins` | fdbserver/BackupWorker.actor.cpp:693-695 | a block begins with the bytes 0E 10 00 00 |
| `WorkerLog.BlockMessagesIff` | fdbbackup/FileConverter.actor.cpp:180-200 | a block is read as messages exactly if it is the block of these messages, followed by nothing or by 0xFF |
| `WorkerLog.BlockBack` | fdbserver/BackupWorker.actor.cpp:684-699 | a block of messages, padded or not, is read back |
| `WorkerLog.FullBack` | fdbserver/BackupWorker.actor.cpp:685-694 | full blocks are read back, whatever follows them in the file |
| `WorkerLog.FileBack` | fdbserver/BackupWorker.actor.cpp:669-701 | a file of blocks is read back |
| `WorkerLog.WrittenFile` | fdbserver/BackupWorker.actor.cpp:669-701 | a file that a worker wrote in order decodes, is in order and holds the messages written: it meets what the conversion needs |
| `WorkerLog.WorkerLogWriter.StartBlock` | fdbserver/BackupWorker.actor.cpp:685-696 | fills up the current block and writes the header of the next; nothing written before is lost |
| `WorkerLog.NextLayout` | fdbserver/BackupWorker.actor.cpp:684-700 | one more record keeps the file made of blocks if the message fits into one; otherwise the file is broken at it from then on |
| `WorkerLog.WorkerLogWriter.AddMutation` | fdbserver/BackupWorker.actor.cpp:669-701 | adds the message to those written; the file is made of blocks as long as every message fits into one, and after that holds the first that does not behind full blocks |
| `WorkerLog.TooLong` | fdbserver/BackupWorker.actor.cpp:684-700 | a file with a message too long for a block is not read back, whatever the size of the blocks and whatever follows |
| `WorkerLog.WorkerLogWriter.ReadBackIff` | fdbserver/BackupWorker.actor.cpp:669-701 | the file that the worker wrote is read back as the messages written exactly if each of them fits into a block |
| `PartitionedLog.FileVersions` | fdbbackup/FileConverter.actor.cpp:190 | versions read from a file are signed 64-bit integers |
| `FileProgresses.ScanKeeps` | fdbbackup/FileConverter.actor.cpp:184-213 | scanning sorted messages keeps exactly those in [min, max), and stops early only at a message past the end |
| `FileProgresses.ScanStops` | fdbbackup/FileConverter.actor.cpp:184-213 | messages in any order: scanning stops at the first one at or past the end, and keeps those before it that reach the begin |
| `FileProgresses.SplitBlock` | fdbbackup/FileConverter.actor.cpp:349-366 | a block splits the unread messages of a file into its own and the rest, and its scan saves its own in the range |
| `FileProgresses.BlockContribution` | fdbbackup/FileConverter.actor.cpp:200-213 | after a block nothing in the range is lost, and stopping early loses nothing that was still in the range |
| `FileProgresses.FileProgress.DecodeBlock` | fdbbackup/FileConverter.actor.cpp:173-236 | the new buffer, offset and end-of-file flag, the result, and the error cases with the offset unchanged |
| `FileProgresses.FileProgress.DecodeNextBlock` | fdbbackup/FileConverter.actor.cpp:350-366 | moves on by a block and leaves no more to do than before; fails on a short read; on a file in order, the messages of that block in the range are added, and buffered plus unread messages in the range stay the same |
| `FileProgresses.FileProgress.DecodeToVersion` | fdbbackup/FileConverter.actor.cpp:336-377 | terminates whatever the file holds, with a message at hand or at the end of the file; on a file in order it cannot fail, loses no message of the range, and buffers the messages of one block only |
| `LogMerge.HeadIsLeast` | fdbbackup/FileConverter.actor.cpp:281-284 | in merge order the first message of the first file is a least message of all files |
| `LogMerge.PopHead` | fdbbackup/FileConverter.actor.cpp:284-292 | taking it removes exactly that message, and only the first file can be out of place |
| `LogMerge.MoveUp` | fdbbackup/FileConverter.actor.cpp:295-299 | a swap with a smaller neighbour leaves only the moved file out of place, one place further |
| `LogMerge.TakeFirst` | fdbbackup/FileConverter.actor.cpp:283-289 | delivers the first message of a file, leaving less to do; on a file in order it keeps the rest, reading on when the buffer is empty |
| `LogMerge.MutationFilesReadProgress.KeepSorted` | fdbbackup/FileConverter.actor.cpp:294-300 | the loop of swaps keeps the files; if only the first file was out of place, it restores the order with the same messages |
| `LogMerge.MutationFilesReadProgress.PlaceFirst` | fdbbackup/FileConverter.actor.cpp:291-301 | dropping an exhausted file or moving a file up leaves a message at hand in every file, and restores the order of files in order, with the same messages to come |
| `LogMerge.MutationFilesReadProgress.HasMutations` | fdbbackup/FileConverter.actor.cpp:245-251 | true exactly if a file is not empty, which is exactly if messages are to come |
| `LogMerge.MutationFilesReadProgress.GetNextMutation` | fdbbackup/FileConverter.actor.cpp:280-303 | whatever the files hold, what the assertion at the start needs is kept and less is left to do; on files in order it delivers a least message to come, removes exactly that one and keeps the order |
| `LogMerge.SortFiles` | fdbbackup/FileConverter.actor.cpp:268-270 | a rearrangement of the files in order of their first messages, files without one last |
| `LogMerge.DropExhausted` | fdbbackup/FileConverter.actor.cpp:271-273 | after exhausted files are popped every file has a message at hand; for files in order the list is in merge order and no message is lost |
| `LogMerge.MutationFilesReadProgress.SortAndRemoveEmpty` | fdbbackup/FileConverter.actor.cpp:267-274 | establishes the invariant of the merge with the same messages to come |
| `LogMerge.OpenFile` | fdbbackup/FileConverter.actor.cpp:321-324 | after opening, exactly the messages of the file in the range are pending, in order |
| `LogMerge.MutationFilesReadProgress.OpenLogFiles` | fdbbackup/FileConverter.actor.cpp:310-332 | after opening every file has a message at hand; for files in order the messages to come are exactly those of all files with a version in the range |
| `LogConversion.BatchesGroup` | fdbbackup/FileConverter.actor.cpp:485-497 | cutting a sorted stream where the version changes gives one batch for every version, with exactly its messages, in increasing order |
| `LogConversion.Collect` | fdbbackup/FileConverter.actor.cpp:485-497 | one message is added to the batch; one of another version first writes the batch out; fails only if that batch cannot be written |
| `LogConversion.CollectedWhole` | fdbbackup/FileConverter.actor.cpp:485-490 | a batch is written only when it holds all messages of its version from all files |
| `LogConversion.AllCanBeWritten` | fdbbackup/FileConverter.actor.cpp:435-447 | whether the messages of a version can be written does not depend on their order |
| `LogConversion.WriteBatches` | fdbbackup/FileConverter.actor.cpp:482-501 | terminates whatever the files hold, and the records written are those of the batches delivered; over the whole run on files in order the delivered messages are sorted and a permutation of all messages to come, and it fails exactly if there is a version whose batch cannot be written |
| `LogConversion.SelectLogs` | fdbbackup/FileConverter.actor.cpp:458-467 | the files read are files of the listing; for every listed log with a version of the range, one of them has its tag and all its versions |
| `LogConversion.Convert` | fdbbackup/FileConverter.actor.cpp:455-506 | terminates on all files; if it succeeds, the output is the one packed file of the parts of the batches delivered, and reads back as these, in whatever order the writes of the file reach the disk; for files that decode and are in order these are one batch for every version of all selected files, and it fails exactly if one cannot be written |
| `BackupFiles.BackupFile.Append` | fdbclient/BackupContainerLocalDirectory.actor.cpp:44-52 | appends to the log of bytes; written bytes plus buffer stay that log; one block is written exactly if the buffer has one, and short appends leave less than a block |
| `BackupFiles.BackupFile.Flush` | fdbclient/BackupContainerLocalDirectory.actor.cpp:54-74 | moves bytes from the buffer to a write at the end of the earlier ones; the log is unchanged |
| `BackupFiles.BackupFile.Size` | fdbclient/BackupContainerLocalDirectory.actor.cpp:89 | the length of everything appended |
| `BackupFiles.BackupFile.Finish` | fdbclient/BackupContainerLocalDirectory.actor.cpp:76-87 | the buffer is empty, and whatever order the writes land in, the file cut to its size is the log |
| `BackupFiles.Disjoint` | fdbclient/BackupContainerLocalDirectory.actor.cpp:67-69 | no two writes of a file overlap |
| `BackupFiles.LandedInAnyOrder` | fdbclient/BackupContainerLocalDirectory.actor.cpp:67-78 | whatever order the writes land in and whatever the disk held, the file cut to its size is exactly the log |
| `LogFileWriters.AppendStringWithLen` | fdbclient/BackupContainer.actor.cpp:58-63 | appends the length in network order and the bytes |
| `LogFileWriters.Fill` | fdbbackup/FileConverter.actor.cpp:406-412 | the file ends inside its last block, and the padding written is what fills that block |
| `LogFileWriters.RenderAddToLast` | fdbbackup/FileConverter.actor.cpp:405-422 | a record that fits is appended inside the last block |
| `LogFileWriters.RenderNewBlock` | fdbbackup/FileConverter.actor.cpp:406-422 | a record that does not fit begins a new block, after padding and a header |
| `LogFileWriters.LogFileWriter.StartBlock` | fdbbackup/FileConverter.actor.cpp:407-418 | the file is filled up to whole blocks, followed by the header, and the end moves on by a block |
| `LogFileWriters.LogFileWriter.WriteKV` | fdbbackup/FileConverter.actor.cpp:403-429 | succeeds exactly if the record fits into a block; then the file is blocks of whole records, packed and padded, with this record added |
| `LogFileWriters.PackedUnique` | fdbbackup/FileConverter.actor.cpp:406-419 | there is one way to pack records into blocks so that no block had room for the next record |
| `LogFileWriters.PackedFileUnique` | fdbbackup/FileConverter.actor.cpp:403-429 | so records and block size determine the file byte by byte |
| `LogFileWriters.LogFileWriter.AddMutation` | fdbbackup/FileConverter.actor.cpp:435-447 | succeeds exactly if the first part fits into a block; then exactly the parts of the serialized batch are added |
| `MutationBatches.PartsOfValue` | fdbbackup/FileConverter.actor.cpp:438-445 | the parts are nonempty, at most the part size and all but the last equal to it, numbered in order, and concatenate to the value |
| `MutationBatches.PartCount` | fdbbackup/FileConverter.actor.cpp:439 | there are as many parts as the length divided by the part size, rounded up |
| `MutationBatches.PartKeysSort` | fdbbackup/FileConverter.actor.cpp:390-400 | the keys of the parts of a version sort bytewise in part order |
| `MutationBatches.DecodeKeyBack` | fdbclient/FileBackupAgent.actor.cpp:3970-3985 | decoding the key of a part returns its version and number, and the hash check passes |
| `MutationBatches.DecodeKeyIff` | fdbclient/FileBackupAgent.actor.cpp:3970-3985 | a key decodes to a version and a part exactly if it is made of them, with the right hash |
| `MutationBatches.HashOfRange` | fdbbackup/FileConverter.actor.cpp:393-396 | all versions of one hash range have the hash of its number, as a 32-bit integer |
| `MutationBatches.DecodeValueBack` | fdbclient/FileBackupAgent.actor.cpp:3991-4024 | the declared length of a serialized list is right, and decoding returns the list |
| `MutationBatches.DecodesIff` | fdbclient/FileBackupAgent.actor.cpp:3994-3997 | a serialized list decodes, and to itself, exactly if its protocol version is recent enough |
| `MutationBatches.ShortMutationBytes` | fdbclient/FileBackupAgent.actor.cpp:3987-3990 | the bytes of a mutation with short parameters, written out |
| `MutationBatches.SerializeBegins` | fdbclient/FileBackupAgent.actor.cpp:3987-3990 | so are the first bytes of a short list |
| `MutationBatches.AddPartsBack` | fdbclient/FileBackupAgent.actor.cpp:4026-4035 | the parts of a value, added in order, accumulate to the value |
| `MutationBatches.EntryOfVersion` | fdbclient/FileBackupAgent.actor.cpp:4026-4035 | whatever records of other versions come in between, the entry of a version is made of the parts of that version, in order |
| `MutationBatches.AddChunksIff` | fdbclient/FileBackupAgent.actor.cpp:4026-4035 | parts are joined exactly if they are numbered from 0 without a gap; after a missing or repeated one nothing is kept |
| `MutationBatches.BrokenStays` | fdbclient/FileBackupAgent.actor.cpp:4030-4033 | after that no later parts make the entry complete, unless one has the number -1 |
| `MutationBatches.MinusOneRestarts` | fdbclient/FileBackupAgent.actor.cpp:4027-4029 | after an empty part with number -1 a broken entry takes parts as a new one does |
| `MutationBatches.CompleteIffWhole` | fdbclient/FileBackupAgent.actor.cpp:4037-4051 | the first parts of a batch make a complete entry exactly if they are all its parts; it is an error exactly if they end within the header |
| `MutationLogFormat.DecodeRecordsBack` | fdbclient/FileBackupAgent.actor.cpp:1313-1331 | records followed by padding decode to the records |
| `MutationLogFormat.DecodeBlockBack` | fdbclient/FileBackupAgent.actor.cpp:1305-1334 | a block with header, records and padding decodes to its records |
| `MutationLogFormat.DecodeBlockIff` | fdbclient/FileBackupAgent.actor.cpp:1305-1334 | a block decodes to records exactly if it is a header, these records, and nothing but 0xFF behind them |
| `MutationLogFormat.BlockBegins` | fdbbackup/FileConverter.actor.cpp:417-418 | a block begins with the bytes D1 07 00 00 |
| `MutationLogFormat.DecodeBlocksBack` | fdbbackup/FileDecoder.actor.cpp:568-582 | a file of blocks, the last one unpadded, decodes block by block to all its records in order |
| `LogDecoder.DecodeProgress.AddBlockKVPairs` | fdbbackup/FileDecoder.actor.cpp:560-565 | accumulates the chunks by version; fails exactly if a key is malformed |
| `LogDecoder.DecodeProgress.DecodeNextBlock` | fdbbackup/FileDecoder.actor.cpp:571-581 | keeps the accumulated state equal to what the blocks read so far hold |
| `LogDecoder.DecodeProgress.DecodeFile` | fdbbackup/FileDecoder.actor.cpp:568-591 | terminates; succeeds exactly if all blocks and keys are well-formed, and then holds all records, by version |
| `LogDecoder.DecodeProgress.GetNextBatch` | fdbbackup/FileDecoder.actor.cpp:502-520 | delivers and removes some complete batch, decoded; nothing exactly if none is complete; an error only for a malformed batch |
| `LogDecoder.AllBatches` | fdbbackup/FileDecoder.actor.cpp:744-747 | terminates; asking until there is no batch delivers exactly the complete batches, each once, and leaves the others; fails only if an entry is malformed |
| `LogDecoder.DeliversExpected` | fdbbackup/FileDecoder.actor.cpp:502-520 | for complete entries that is what was expected, and nothing is malformed |
| `EndToEnd.AccumulateBatches` | fdbbackup/FileDecoder.actor.cpp:560-565 | the records of any batches of increasing versions accumulate to complete batches with their mutations |
| `EndToEnd.OutputDecodes` | fdbbackup/FileDecoder.actor.cpp:568-591 | the output of the converter decodes completely |
| `EndToEnd.DecodeCutOff` | fdbbackup/FileDecoder.actor.cpp:499-520 | a file that ends within a batch: the whole batches are delivered and the one cut off is kept; it fails exactly if that was cut off within its header, which takes parts shorter than a header |
| `EndToEnd.ListedComesOut` | fdbbackup/FileConverter.actor.cpp:74-100 | if files that cover others have their messages, no message of any listed file is lost by the choice of files |
| `EndToEnd.ConvertAndDecode` | fdbbackup/FileConverter.actor.cpp:455-506 | terminates on all files; if they decode and are in order, converting and then decoding delivers one batch for every version of the range that occurs in the files read, with exactly the mutations of that version from all files in order of sub, and no other batch; it fails exactly if the batch of some version cannot be written; if files that cover others have their messages, every message in range of every listed file comes out |
| `ReplicaReports.CompareReplies` | fdbcli/DebugCommands.actor.cpp:220-289 | every report is true, in scope and about another key; all differences in scope are reported exactly if no round follows or the replies are aligned below the claim |
| `ReplicaReports.CompleteIffAligned` | fdbcli/DebugCommands.actor.cpp:221-227 | the exact condition under which stopping at the claim misses no difference |
| `ReplicaReports.CheckResults` | fdbcli/DebugCommands.actor.cpp:194-293 | true exactly if all replies are identical; for every other server the reports are as above |
| `ReplicaChecker.AskAll` | fdbcli/DebugCommands.actor.cpp:337-347 | one answer of every replica about the range, cut wherever its server likes; they are identical exactly if the servers answer this request alike |
| `ReplicaChecker.AnswerCovers` | fdbcli/DebugCommands.actor.cpp:409-411 | an answer holds exactly the data below its last key, and all data if nothing more is to come |
| `ReplicaChecker.DecideScope` | fdbcli/DebugCommands.actor.cpp:349-373 | whether an answer with data has more to come; if no last key is empty, also the least and greatest last key of the answers that have one |
| `ReplicaChecker.AgreeUpToClaim` | fdbcli/DebugCommands.actor.cpp:409-414 | identical answers mean identical data up to the claim, wherever servers cut them |
| `ReplicaChecker.CompleteAnswersAgree` | fdbcli/DebugCommands.actor.cpp:407-416 | identical complete answers mean same data |
| `ReplicaChecker.UniformAlike` | fdbcli/DebugCommands.actor.cpp:215-219 | where the data agree, servers that cut alike answer alike |
| `ReplicaChecker.SameDataMovesOn` | fdbcli/DebugCommands.actor.cpp:384-394 | where the data agree, no round stands still, so none takes a nested check |
| `ReplicaChecker.ScopeBounds` | fdbcli/DebugCommands.actor.cpp:366-377 | the claim and the greatest last key are stored keys of the range, and with more to come the latter is beyond its begin |
| `ReplicaChecker.LocateInside` | fdbcli/DebugCommands.actor.cpp:305-321 | for a range inside one shard the listing is about that shard alone |
| `ReplicaChecker.MeetsIff` | fdbcli/DebugCommands.actor.cpp:317-321 | a shard is checked exactly if some key is in it and in the range |
| `ReplicaChecker.SameOnIff` | fdbcli/DebugCommands.actor.cpp:215-219 | the data of the replicas in the range are the same exactly if the replicas agree pair by pair |
| `ReplicaChecker.AnswersShow` | fdbcli/DebugCommands.actor.cpp:350-373 | the answers of a round have every pair of every replica before the key at which the next round begins |
| `CheckAll.CheckRound` | fdbcli/DebugCommands.actor.cpp:332-417 | a round, with its nested check, establishes sameness up to the next begin, moves on, and where the data agree finds them the same exactly if the servers answer alike; all pairs before the next begin were looked at, also after a difference if the check goes on |
| `CheckAll.AfterRound` | fdbcli/DebugCommands.actor.cpp:396-416 | what is known about a shard after a round; from a stored key on every round leaves strictly fewer stored keys |
| `CheckAll.EndsInside` | fdbcli/DebugCommands.actor.cpp:394-398 | the range of a nested check lies in one shard, so its verdict is about that shard |
| `CheckAll.BeforeStoredKey` | fdbcli/DebugCommands.actor.cpp:390-396 | a nested check has strictly fewer stored keys |
| `CheckAll.CheckShard` | fdbcli/DebugCommands.actor.cpp:323-422 | terminates; finished means that every pair was looked at, and finished and consistent that the replicas agree on the part of the shard; it stops at a difference exactly without `checkAll`; inconsistent means they differ if servers cut alike, and is certain if the first answers are not alike |
| `CheckAll.CheckListed` | fdbcli/DebugCommands.actor.cpp:303-424 | one attempt over all listed shards, with the verdict so far carried along and the same account of a false one |
| `CheckAll.ListedAgree` | fdbcli/DebugCommands.actor.cpp:303-321 | a verdict about the listed shards says that the first 100 shards agree, key by key; and follows from all shards agreeing |
| `CheckAll.DoCheckAll` | fdbcli/DebugCommands.actor.cpp:297-434 | terminates; whatever requests fail and wherever servers cut their answers, a true verdict means that the replicas of the first 100 shards agree on every pair in the range; if servers cut alike, the verdict is true exactly then; a difference found in the first round is not forgotten when the check starts over; with `checkAll`, or without a difference, every pair was looked at |
| `CheckAll.FalseVerdict` | fdbcli/DebugCommands.actor.cpp:215-219 | for any servers that cut an answer about some data differently, replicas that agree and a check of them with a false verdict: with the above, servers that cut alike are exactly those whose false verdicts are right |
| `CheckAll.VerdictIsAboutAllIff` | fdbcli/DebugCommands.actor.cpp:66-86 | whatever the shards hold, a true verdict means that all shards agree on every pair in the range exactly if at most 100 shards meet it |
| `CheckAll.UnlistedDifference` | fdbcli/DebugCommands.actor.cpp:66-86 | for any shards of which more meet the range, data with a true verdict and a difference in a shard that is not listed |
| `ServerLimits.RequestLimitsValidIff` | fdbcli/DebugCommands.actor.cpp:341-342 | incomplete answers have two rows, as the check needs, exactly if at least two rows are asked for and no single pair uses up the bytes |
| `ServerLimits.AnswerIsAnswer` | fdbserver/storageserver.actor.cpp:4258-4447 | an answer cut where a limit is reached is one that the check can deal with |
| `ServerLimits.BeginAnswerIff` | fdbserver/storageserver.actor.cpp:4258-4447 | an answer about the begin of a range is incomplete exactly if the one about the range was, and its server stopped before the end of that begin |
| `ServerLimits.NestedCompleteIff` | fdbcli/DebugCommands.actor.cpp:390-393 | in a nested check all answers are complete exactly if no server stopped before the greatest last key; for limits of rows and bytes as the storage server applies them, exactly if every incomplete answer ended at that key |
| `ServerLimits.NestedTwoReplicas` | fdbcli/DebugCommands.actor.cpp:390-393 | with two replicas they always are, whatever the limits of their servers |
| `ServerLimits.OnlyOneIncomplete` | fdbcli/DebugCommands.actor.cpp:384-393 | with two replicas every incomplete answer of a round that stands still ends at the greatest last key |
| `ServerLimits.NestedAnswerIncomplete` | fdbcli/DebugCommands.actor.cpp:390-393 | with three replicas a nested check can meet an incomplete answer |
| `ServerLimits.StandsStillIff` | fdbcli/DebugCommands.actor.cpp:384-398 | without two rows in incomplete answers, a round moves on exactly if some answer has a key beyond its begin |
| `ServerLimits.OneRowStandsStill` | fdbcli/DebugCommands.actor.cpp:384-398 | with answers of one row it need not |
| `ServerLimits.FirstRoundKeepsKeys` | fdbcli/DebugCommands.actor.cpp:409-414 | the first round need not move past a stored key |
| `ServerLimits.UnreportedDifference` | fdbcli/DebugCommands.actor.cpp:222-227 | answers with more to come, and a key below the claim on which they differ and which is in no report |
| `TenantRename.InvariantHolds` | fdbcli/TenantCommands.actor.cpp:773-832 | unique ids, one id for all commits and the count of effective commits are kept in every state of every run |
| `TenantRename.IdIsFirstRead` | fdbcli/TenantCommands.actor.cpp:786-796 | in every run the id the command works with is the one it read under the old name first |
| `TenantRename.RenamesOnlyFirstRead` | fdbcli/TenantCommands.actor.cpp:797-820 | whenever a commit takes effect it moves that tenant from the old name to the new one, and no other |
| `TenantRename.ReadTogether` | fdbcli/TenantCommands.actor.cpp:782-785 | the two entries the command acts on were read in one state |
| `TenantRename.SuccessDecided` | fdbcli/TenantCommands.actor.cpp:798-804 | success is reported only if the tenant was read under the new name, or the last commit took effect |
| `TenantRename.DecidedByRead` | fdbcli/TenantCommands.actor.cpp:785-820 | in every run, what the command decides, by the tenants at its read: on a retry success exactly if its tenant has the new name, an error of one kind exactly if another has it, of the other kind exactly if none has it and its tenant lost the old one, and another commit otherwise; on the first try likewise, but never success |
| `TenantRename.SucceedsAlone` | fdbcli/TenantCommands.actor.cpp:773-838 | a run of the command alone that succeeds with one effective commit, whether it hears of that or not |
| `TenantRename.GivesUp` | fdbcli/TenantCommands.actor.cpp:822-831 | a run in which the command fails, and its commit is dropped or takes effect afterwards |
| `TenantRename.RenameSafety` | fdbcli/TenantCommands.actor.cpp:773-832 | in every run the assertion never fails, and commits take effect at most once more than others put the tenant back |
| `TenantRename.RenamedTimes` | fdbcli/TenantCommands.actor.cpp:812-820 | for every n, all names and ids, a run in which others put the tenant back n times and the command renames it n + 1 times: the bound is met |
| `TaskThread.PushAdds` | flow/include/flow/ThreadSafeQueue.h:109-141 | an entry is added at the end, and the pusher is told to wake the consumer exactly if that sleeps on an empty queue |
| `TaskThread.SleepWhenEmpty` | flow/include/flow/ThreadSafeQueue.h:145-167 | the consumer may sleep exactly if the queue is empty and holds no marker, and then it holds one |
| `TaskThread.PopTakes` | flow/include/flow/ThreadSafeQueue.h:64-106 | the first entry is taken past the stub and a marker; no internal node is ever handed out |
| `TaskThread.InvariantHolds` | fdbclient/AsyncTaskThread.actor.cpp:65-90 | in every state of every run the work taken is a prefix of the work pushed, a blocked consumer has left its marker, and if there is work it has a notify to come |
| `TaskThread.RunsInPushOrder` | fdbclient/AsyncTaskThread.actor.cpp:77-90 | in every run what was executed is a prefix of all tasks pushed before the sign to stop, each once, in push order; at the exit it is all of them |
| `TaskThread.NoLostWakeUp` | fdbclient/AsyncTaskThread.actor.cpp:65-90 | in every run, with spurious wake-ups or without, a consumer blocked with work in the queue has a notify to come; while there is work it can make a step, and every step takes the first piece or comes closer to it; without spurious wake-ups it never fails |
| `TaskThread.FailsIffOnlyMarker` | fdbclient/AsyncTaskThread.actor.cpp:80-83 | in every run a look at the queue fails exactly if it finds the marker and no work |
| `TaskThread.WokenOnNothingFailsIff` | fdbclient/AsyncTaskThread.actor.cpp:65-90 | in every run, after a wake-up on an empty queue, spurious or by a left-over notify, the next look fails exactly if nothing was pushed in between |
| `TaskThread.SpuriousWakeUpFails` | fdbclient/AsyncTaskThread.actor.cpp:82-83 | a run with one spurious wake-up in which the consumer fails |
| `TaskThread.LeftOverNotifyFails` | fdbclient/AsyncTaskThread.actor.cpp:80-83 | for any task a run in which the spurious wake-up is on a queue with that task in it, and the notify left over makes the consumer fail |
| `TimeKeeper.EpochsFromVersion` | fdbclient/BackupContainer.actor.cpp:463-514 | the search terminates; the result is the time of the record found, moved by the whole seconds that the versions are apart, with the rest dropped toward that time |
| `TimeKeeper.Last` | fdbclient/BackupContainer.actor.cpp:477-478 | the last record of a range, nothing exactly if there is none |
| `TimeKeeper.VersionFromDatetime` | fdbclient/BackupContainer.actor.cpp:425-461 | never negative; nothing exactly if there is no record before the time or, after it, below the limit |
| `TimeKeeper.VersionFromNearest` | fdbclient/BackupContainer.actor.cpp:440-456 | the version comes from the last record before the time, or the first after it if there is none, moved by the rate and cut at 0 |
| `TimeKeeper.SearchFinds` | fdbclient/BackupContainer.actor.cpp:474-511 | with versions nondecreasing in time the search keeps the closest record between its ends and stops less than two gaps before it |
| `TimeKeeper.ClosestExists` | fdbclient/BackupContainer.actor.cpp:466 | whenever a record before `now` has a version of at most `v`, there is a closest one |
| `TimeKeeper.BaseOutcome` | fdbclient/BackupContainer.actor.cpp:466-511 | whatever the records are, a result is based on a record with a version of at most `v` or on the first record, and on the first if no record is low enough; there is no result exactly if there is no record |
| `TimeKeeper.BaseFound` | fdbclient/BackupContainer.actor.cpp:466-511 | with versions nondecreasing in time and bounded gaps, a record with a version of at most `v` is found whenever there is one, and is less than two gaps from the closest |
| `TimeKeeper.GuaranteeIff` | fdbclient/BackupContainer.actor.cpp:466-511 | the search is guaranteed to stop within a distance of the closest record exactly if that is at least twice the largest gap, less one |
| `TimeKeeper.TimeRoundTripIff` | fdbclient/BackupContainer.actor.cpp:425-514 | with records on a line, a time mapped to a version and back is unchanged exactly if its version is not negative, whichever record each search lands on |
| `HexStrings.DecodeHexString` | fdbbackup/Decode.cpp:29-78 | decoding in place terminates and gives the string the text stands for; on a malformed sequence the result is empty and the error is set, which it never clears |
| `HexStrings.UnescapeToHex` | fdbcli/DebugCommands.actor.cpp:30-37 | every byte string, printed, is decoded to itself, and the printed text has no semicolon |
| `Escapes.HexPairReads` | fdbbackup/Decode.cpp:58-64 | two characters are accepted exactly if the C function for numbers reads them up to a zero byte, with the value it returns |
| `Escapes.DigitsStandFor` | fdbbackup/Decode.cpp:58-66 | digits in upper or lower case stand for their byte |
| `HexStrings.UnescapeIff` | fdbbackup/Decode.cpp:25-28 | a text is decoded to a byte string exactly if it writes its bytes in any mix of plain bytes, backslashed special characters and accepted numbers |
| `HexStrings.UnescapeJoined` | fdbbackup/Decode.cpp:33-75 | text after a well-formed text is decoded on its own |
| `HexStrings.ParsePrefixesLine` | fdbbackup/FileDecoder.actor.cpp:254-272 | the parts between semicolons are decoded, up to the first malformed one |
| `HexStrings.PrefixesRoundTripIff` | fdbbackup/FileDecoder.actor.cpp:254-272 | a printed and joined list is parsed to the same list exactly if it is empty or its last prefix is not |
| `HexStrings.JoinedTextsIff` | fdbbackup/FileDecoder.actor.cpp:251-272 | well-formed texts joined by semicolons are parsed to the strings they stand for exactly if none has a semicolon, escaped or not, and there is none or the last is not empty |
| `HexStrings.EscapedSemicolonFails` | fdbbackup/FileDecoder.actor.cpp:251-264 | an escaped semicolon makes the parser fail, whatever follows |
| `CommandLines.EditKeepsViews` | fdbbackup/backup.actor.cpp:3105-3170 | an edit at or after the scan index does not change what views that end before it show |
| `CommandLines.ParseLine` | fdbbackup/backup.actor.cpp:3092-3182 | terminates; the line is edited as `Edited` says, and the views, read in it at the end, show exactly the tokens of the text, with the same error and partial flags |
| `CommandLines.EditedSpelled` | fdbbackup/backup.actor.cpp:3116-3164 | the edited line has the bytes that escape sequences stand for and no quotes; from a malformed sequence on it is unchanged but for a zero byte |
| `CommandLines.ParseSpelled` | fdbbackup/backup.actor.cpp:3092-3182 | tokens written in any mix of plain bytes, escape sequences and quoted parts, with any spaces around them and semicolons between groups, are parsed to these tokens; an empty one directly before a semicolon is lost |
| `CommandLines.FlagsIff` | fdbbackup/backup.actor.cpp:3131-3180 | the parser fails exactly if the text has a malformed sequence, and the result is partial exactly if it has an odd number of quotes that are not escaped |
| `CommandLines.MalformedFails` | fdbbackup/backup.actor.cpp:3131-3162 | the token with the malformed sequence is dropped |
| `CommandLines.PrintParseIff` | fdbbackup/backup.actor.cpp:3092-3182 | printed groups of tokens are parsed to themselves exactly if there is a group and no token is empty; empty tokens are dropped |
| `CommandLines.QuotedToken` | fdbbackup/backup.actor.cpp:3116-3121 | between quotes spaces and semicolons, or nothing at all, make one token; without the second quote the result is partial |
| `CommandLines.WildIff` | fdbbackup/backup.actor.cpp:3107-3112 | the exact condition for a view outside the line: the text ends after an unquoted semicolon while a token is forced |
| `CommandLines.WildNeeds` | fdbbackup/backup.actor.cpp:3107-3121 | such a text has a quote and ends in a semicolon and spaces |
| `CommandLines.NoQuotesNoWild` | fdbbackup/backup.actor.cpp:3116-3121 | a text without quotes gives no such view |
| `CommandLines.QuotedThenSemicolon` | fdbbackup/backup.actor.cpp:3172-3174 | any quoted string before a semicolon and spaces at the end gives such a view |

## Left out

- Files and the network: opening, listing and reading files, the S3 and Azure containers, transactions and timeouts; their results are parameters.
- FileProgresses.FileProgress.DecodeBlock: a message that cannot be deserialized is not an error; deserializing is an arbitrary function, and checksums and encryption of mutations are not modelled.
- The kv list kept beside accumulated mutations.
- LogMerge.SortFiles: the library sort is modelled by insertion; its comparator is not a strict order when both files are empty, and what the library does then is not modelled.
- Negative versions in input files: refilling a buffer starts at version 0, so what is proved for files in order is for versions that are not negative.
- Batches whose length exceeds 31 bits: undefined in the source, an error `SizeOverflow` here.
- BackupFiles.BackupFile.Finish: the file is cut when all its writes have landed; sync and rename are not modelled.
- LogConversion.Convert: for files that do not decode or are not in order it is only stated that the conversion ends and that its output, if any, holds the batches delivered.
- WorkerLog.BlockMessagesIff: is about messages whose version is not negative and whose length is below 31 bits, as workers write them.
- WorkerLog.WorkerLogWriter.AddMutation: requires that the length of a record fits into a signed 32-bit integer, as the source computes it in one; which messages go to which file is not modelled.
- Filters on prefixes and versions in the decoder's output, and `RangeMapFilters`: they would only add easy members.
- Removing every redundant log file: only neighbours in sorted order are compared.
- CheckAll.DoCheckAll: the data do not change during the check, keys are not empty, replies with more to come have at least two rows, and requests fail finitely often.
- ReplicaChecker.DecideScope: the source takes an empty key for one that is not set; nothing is stated about the least and greatest key then.
- The listing of shards is taken as given, cut to its first 100 entries.
- TenantRename.RenameSafety: the branch for a metacluster management cluster, the errors raised by the special key space, and the back-off between attempts are not modelled; ids are never reused.
- TaskThread.InvariantHolds: each operation on the queue is one step, because all of them run under the mutex; the lock-free use of the queue is not modelled. Tasks are numbers and do not throw.
- Futures delivered by `execAsync`, and simulation mode.
- TimeKeeper.EpochsFromVersion: arithmetic on times and versions is unbounded; parsing of dates is not modelled.
- Changes of the time records while they are read: the model is for one unchanging set of records.
- CommandLines.ParseLine: requires a line whose length plus one is below the largest size, and moved-from vectors are empty.
- Other `fdbcli` and `fdbbackup` commands, usage texts and option tables.
