# antdb write-ahead log, replication and query front end in Dafny

This project models the core of antdb, a small in-memory key-value store
written in Go, and proves properties of the model.

A client sends a query line, such as `SET key value`, `GET key` or `DEL key`.
The query goes through a byte-level tokenizer and an analyzer that checks the
command word and the token count. The database answers with one of a few fixed
reply shapes.

Writes are durable through a write-ahead log (WAL):

- units are staged in a buffer;
- the writer drains the buffer and appends the drained units, as one batch, to
  the newest segment file `wal-<unix seconds>.gob`;
- the writer rotates to a fresh segment once the size counter reaches the
  maximum;
- every staged unit's waiter receives the batch-wide outcome.

Recovery reads the `wal-*.gob` segments in string order and replays their
batches. Compaction merges the two oldest segments into a SET-only snapshot
stored under the older name. A replica ("slave") repeatedly asks the master
for the segment after the last one it holds. It appends the bytes it receives
and forwards the first batch to its engine.

How the model represents this:

- A WAL directory is a map from file names to frame sequences (`WalDisk`).
- A frame is either an encoded batch with its byte size or bytes that fail to
  decode.
- The replay of a directory, `WalDisk.Replay`, is the table obtained by
  applying the batches of its `wal-*.gob` files in sorted name order.
- The main results state that this replay is kept by:
  - a write: the replay gains exactly the written batch, or is left alone when
    the write fails;
  - recovery: it rebuilds exactly the replay;
  - compaction: the replay is unchanged when compaction succeeds, and the
    model says precisely what is lost when it fails midway.
- Storage keeps its memory table equal to the replay of its WAL directory.
- Replication moves through segments in order under three conditions:
  - the master's directory is readable;
  - the replica's cursor is still listed on the master;
  - all timestamps have the same number of digits.
  Then the master names the least segment newer than the cursor, ships its
  contents when it can read the file, and never re-ships a segment at or
  before the cursor (`ShipsSuccessor`, `ShippedOnce`).
- A replica can still miss data when all three conditions hold:
  - a successor the master cannot read arrives without data, and the replica moves its cursor past it, keeping an empty file (`UnreadableSuccessorLost`);
  - compaction merges the second-oldest segment into the oldest one. A replica whose cursor is the oldest is then sent the third-oldest, and never receives the merged writes (`CompactionHidesMerged`).
- Outside those conditions it does not move in order:
  - a cursor the master no longer lists skips a segment (`AbsentNameSkipsOne`). Compaction causes this when it merges away the replica's cursor (`CompactionStrandsReplica`);
  - a replica whose listing fails rewinds and appends the oldest segment again (`ListingFailureRewinds`);
  - timestamps of different lengths break the order (`DigitCountBreaksTip`).
- The tokenizer's state machine computes a reference word-splitting function.
  Joining valid tokens with spaces and tokenizing gives the tokens back.
- Objects whose fields the Go code updates in place are classes:
  - `Buffer`, `Writer`, `Reader`, `Compaction`, `MemoryTable`, `Storage`,
    `Slave`, `Parser` and `Database`;
  - the directory itself is a `FileSystem` object whose `files` map the
    methods reassign.
- Operating-system results (directory listings, failing reads, open, close,
  write and sync failures), the clock and the network replies are explicit
  parameters (`WriteIo`, `CompactIo`, `SyncIo`, listings of type
  `Option<seq<string>>`, sets of unreadable names).

## Model

| member | source | states |
|---|---|---|
| WalUnit.NewUnitFromQuery | internal/service/storage/wal/unit.go:15-20 | the unit built from a valid query keeps the argument list as given, stores SET as "SET" and DEL as "DEL", and has the arity replay relies on |
| WalUnit.UnitsOf | internal/service/storage/wal/writer.go:36-39 | the drained units, one per staged entry, in push order |
| WalUnit.Completion.constructor | internal/service/storage/wal/buffer.go:31 | a new waiter channel has nothing delivered yet |
| WalReplay.ApplyUnit | internal/service/storage/storage.go:98-109 | SET k v maps k to v, DEL k removes k, any other command leaves the table alone |
| WalReplay.ApplyUnitsAppend | internal/service/storage/storage.go:98-109 | applying two unit sequences one after the other equals applying their concatenation |
| WalReplay.ApplyBatchesAppend | internal/service/storage/storage.go:42-45 | applying batches in two runs equals applying all of them in order |
| WalReplay.ApplyBatchesFlatten | internal/service/storage/storage.go:42-45 | applying a sequence of batches equals applying the flattened unit sequence |
| WalReplay.ApplyUnitsLastWrite | internal/service/storage/wal/compaction.go:146-155 | after a replay, each key holds the value of its last SET, is absent after a last DEL, and is as before when no unit touches it |
| WalReplay.ApplyUnitsIdempotent | internal/service/storage/storage.go:98-109 | replaying the same units twice gives the same table as replaying them once |
| EngineMemory.MemoryTable.constructor | internal/service/storage/engine/memory.go:10-14 | a new table is empty |
| EngineMemory.MemoryTable.Set | internal/service/storage/engine/memory.go:16-21 | the key now maps to the value, every other key is unchanged, the same as replaying a SET unit |
| EngineMemory.MemoryTable.Get | internal/service/storage/engine/memory.go:23-29 | found exactly when the key is present, with its value; an absent key gives ("", false) |
| EngineMemory.MemoryTable.Del | internal/service/storage/engine/memory.go:31-36 | the key is gone, every other key is unchanged, the same as replaying a DEL unit |
| EngineMemory.SetThenGet | internal/service/storage/engine/memory.go:16-29 | a Get after Set of the same key returns (value, true), and other keys read as before |
| EngineMemory.DelThenGet | internal/service/storage/engine/memory.go:23-36 | a Get after Del returns ("", false), other keys read as before, and deleting an absent key changes nothing |
| WalBuffer.Buffer.constructor | internal/service/storage/wal/buffer.go:22-28 | a new buffer is empty, has the given limit and no pending oversize signal |
| WalBuffer.Buffer.Push | internal/service/storage/wal/buffer.go:30-46 | one entry holding the unit and a fresh waiter is appended, earlier entries are unchanged, at most one signal is pending, the signal is raised when the limit is reached and none is pending, and cancellation while signalling returns no channel but keeps the entry |
| WalBuffer.Buffer.PopAll | internal/service/storage/wal/buffer.go:48-61 | returns every staged entry in push order and leaves the buffer empty, including when it was already empty |
| WalBuffer.Buffer.TakeOversize | internal/service/storage/wal/buffer.go:63-65 | receiving from the oversize channel succeeds exactly when a signal was pending and empties the slot |
| Text.SortStrings | internal/service/storage/wal/segment.go:45 | `sort.Strings`: the result is sorted and holds exactly the input's elements |
| Text.TrimPrefix | internal/service/storage/wal/segment.go:16 | strips the prefix when present, otherwise returns the string unchanged |
| Text.TrimSuffix | internal/service/storage/wal/segment.go:16 | strips the suffix when present, otherwise returns the string unchanged |
| Text.ParseInt64 | internal/service/storage/wal/segment.go:17 | `strconv.ParseInt(s, 10, 64)` only succeeds with a value that fits in 64 bits |
| Text.ParseInt64Ascii | internal/service/storage/wal/segment.go:17 | a string `strconv.ParseInt` accepts is all ASCII |
| Text.FormatParseRoundTrip | internal/service/storage/wal/writer.go:82 | a 64-bit integer printed with %d parses back to itself |
| WalSegment.SegmentNameRoundTrip | internal/service/storage/wal/segment.go:12-22 | the name a segment opened at second t gets parses back to t |
| WalSegment.GetNewerSegmentNames | internal/service/storage/wal/segment.go:11-48 | an unparsable request fails before the listing is looked at, an unreadable directory fails, and otherwise the result is sorted and holds exactly the listed entries whose timestamp is at least the requested one, unparsable entries skipped |
| WalSegment.NewerMembers | internal/service/storage/wal/segment.go:34-45 | a name is in the sorted filtered list exactly when it is listed and qualifies |
| WalSegment.NewerFacts | internal/service/storage/wal/segment.go:34-45 | the filtered list of a listing without duplicates is sorted, duplicate-free and holds exactly the qualifying entries |
| WalSegment.GetLastSegment | internal/service/storage/wal/segment.go:50-59 | fails exactly when the directory cannot be read |
| WalSegment.LastSegmentIsGreatest | internal/service/storage/wal/segment.go:50-59 | returns "" when no entry qualifies, otherwise a listed qualifying name that is the greatest qualifying name in string order |
| WalSegment.LastQualifying | internal/service/storage/wal/segment.go:50-59 | the list GetLastSegment reads is the sorted qualifying entries, and its last element is the greatest of them |
| WalSegment.GetNextSegment | internal/service/storage/wal/segment.go:61-74 | the errors of GetNewerSegmentNames are passed on unchanged, and otherwise it succeeds |
| WalSegment.NewerThanListed | internal/service/storage/wal/segment.go:41-45 | when timestamps and string order agree, the entries qualifying for a listed name are that name and the names after it in string order |
| WalSegment.NextSegmentIsSuccessor | internal/service/storage/wal/segment.go:61-74 | for a listed name, the result is the least listed name after it in string order, or the name itself when there is none |
| WalSegment.NextAtTip | internal/service/storage/wal/segment.go:50-74 | the newest segment is a fixed point: GetNextSegment of GetLastSegment is GetLastSegment again |
| WalSegment.BadNameFailsFirst | internal/service/storage/wal/segment.go:24-27 | every request that does not parse fails with the parse error whatever the directory holds, and the same as when it cannot be read |
| WalSegment.NoDigitNoParse | internal/service/storage/wal/segment.go:12-22 | a non-empty name whose stem, with "wal-" and ".gob" stripped, is empty or does not end in a digit does not parse |
| WalSegment.ParsedNameIsAscii | internal/service/storage/wal/segment.go:12-22 | every name that parses is all ASCII |
| WalSegment.NextQualifies | internal/service/storage/wal/segment.go:34-45 | a non-empty answer of GetNextSegment qualifies for the request's timestamp |
| WalSegment.DigitCountBreaksTip | internal/service/storage/wal/segment.go:41-74 | when timestamps of different digit counts coexist, GetLastSegment picks the string-greatest name rather than the newest, and asking for that name's successor skips to another segment |
| WalSegment.AbsentNameSkipsOne | internal/service/storage/wal/segment.go:66-73 | for a request that is not itself listed, with two or more qualifying names, the answer is the second qualifying name, so the oldest newer segment is skipped |
| WalDisk.FileSystem.constructor | internal/service/storage/wal/reader.go:20-26 | the directory holds the given files |
| WalDisk.DecodedPrefix | internal/service/storage/wal/reader.go:51-60 | decoding stops at the first frame that does not decode |
| WalDisk.DecodedPrefixFacts | internal/service/storage/wal/reader.go:51-60 | every batch decoded so far is its frame's batch, and decoding stops only at a corrupt frame |
| WalDisk.DecodedPrefixFull | internal/service/storage/wal/reader.go:51-60 | all frames decode exactly when the segment is decodable |
| WalDisk.DecodedAppend | internal/service/storage/wal/writer.go:66-76 | appending an encoded batch to a decodable segment adds exactly that batch to what a reader decodes |
| WalDisk.WalOrder | internal/service/storage/wal/reader.go:35-43 | the replay order holds exactly the `wal-*.gob` names of the directory |
| WalDisk.WalOrderSorted | internal/service/storage/wal/reader.go:43 | the replay order is sorted ascending, without duplicates |
| WalDisk.WalOrderOfListing | internal/service/storage/wal/reader.go:35-43 | filtering any listing of the directory to `wal-*.gob` names and sorting gives the replay order |
| WalDisk.BatchesOfAppend | internal/service/storage/wal/reader.go:45-61 | the batches of two runs of segments are the batches of the first run followed by those of the second |
| WalDisk.ReplayAppendNewest | internal/service/storage/wal/writer.go:72-76 | appending a batch to the newest segment changes the replay by exactly that batch |
| WalDisk.ReplayWriteThrough | internal/service/storage/wal/writer.go:72-76 | a write through a handle to the newest segment changes the replay by exactly the written batch |
| WalDisk.OpenForAppend | internal/service/storage/wal/writer.go:83 | opening with O_CREATE adds an empty file when the name is new and keeps every existing file |
| WalDisk.AppendThroughBytes | internal/service/storage/wal/writer.go:72-76 | a write through a handle on a listed file grows that file by the bytes written and leaves every other file alone |
| WalDisk.ReplayOpenNewest | internal/service/storage/wal/writer.go:81-90 | creating a segment whose name sorts after every existing segment leaves the replay unchanged and makes that segment the newest |
| WalDisk.ReplayWithout | internal/service/storage/wal/compaction.go:115-120 | removing the k oldest segments leaves a directory that replays the remaining segments in order |
| WalReader.ReadSegmentsPrefix | internal/service/storage/wal/reader.go:45-61 | what is emitted is a prefix of the segments' batches in order; it is all of them exactly when every segment can be opened and fully decoded |
| WalReader.FailureIndex | internal/service/storage/wal/reader.go:46-57 | a failed read names a segment that cannot be opened or does not decode |
| WalReader.ReadSegmentsStop | internal/service/storage/wal/reader.go:46-57 | once a segment fails, the later segments add nothing |
| WalReader.ReadRecovers | internal/service/storage/wal/reader.go:28-64 | for an intact directory, Read succeeds, emits the batches of the `wal-*.gob` segments in ascending name order, and replaying them rebuilds the directory's replay |
| WalReader.Reader.constructor | internal/service/storage/wal/reader.go:20-26 | a new reader has emitted nothing and its stream is open |
| WalReader.Reader.Read | internal/service/storage/wal/reader.go:28-64 | the stream receives exactly the batches the read outcome lists, the returned error is the outcome's (directory failure, first unopenable or undecodable segment), and the stream is closed on every path |
| WalReader.Reader.SendSegments | internal/service/storage/wal/reader.go:45-61 | the segments loop emits each segment's batches in turn and stops at the first failure |
| WalReader.Reader.SendSegment | internal/service/storage/wal/reader.go:46-60 | one segment's batches are emitted in file order until its bytes run out or a frame does not decode |
| WalReader.WalSegments | internal/service/storage/wal/reader.go:35-41 | keeps exactly the names with the `wal-` prefix and `.gob` suffix, in listing order |
| WalWriter.WriteKeepsWellFormed | internal/service/storage/wal/writer.go:22-79 | the counter is never negative, is zero before the first segment, and a kept closed file is a full one; a new writer starts that way and every write, failed or not, keeps it |
| WalWriter.WriteLands | internal/service/storage/wal/writer.go:54-76 | a successful write lands in a freshly rotated segment with counter 0, or in a segment whose counter was below the maximum, and the counter grows by exactly the bytes written |
| WalWriter.ClockPastFresh | internal/service/storage/wal/writer.go:82-83 | a clock strictly later than every segment names a file that does not exist yet |
| WalWriter.WriteTracksSize | internal/service/storage/wal/writer.go:54-76 | when every rotation runs in a later second than every existing segment, the counter stays equal to the open file's bytes, and a successful write leaves a segment that held fewer bytes than the maximum, or none, before its last batch |
| WalWriter.SameSecondOvershoot | internal/service/storage/wal/writer.go:54-64 | a rotation in the second the full segment was opened reopens that file: the batch is appended after the old contents, the file holds twice the maximum and the counter no longer matches it |
| WalWriter.WriteFailureWritesNothing | internal/service/storage/wal/writer.go:46-79 | a failed write appends nothing: at most an empty segment was created, and the counter is unchanged or was reset by a rotation |
| WalWriter.RotateFailureWritesNothing | internal/service/storage/wal/writer.go:54-79 | the same for the rotate-then-write part |
| WalWriter.WriteErrors | internal/service/storage/wal/writer.go:46-79 | each error names the step that failed (create, close, encode, write), and with every step succeeding on a usable handle the write succeeds |
| WalWriter.FailedRotationSticks | internal/service/storage/wal/writer.go:54-63 | when the close in a rotation succeeds but the new segment cannot be opened, the writer keeps the closed file, and every later write fails to close it again |
| WalWriter.SegmentNameIsWalName | internal/service/storage/wal/writer.go:82 | a created segment's name has the prefix and suffix that recovery reads |
| WalWriter.WriteDurable | internal/service/storage/wal/writer.go:46-79 | with a clock whose segment name sorts at or after every existing one (a rotation in the same second appends to that segment, see SameSecondOvershoot), a successful write changes the directory's replay by exactly the written batch, a failed one leaves it unchanged, and the writer still appends to the newest segment |
| WalWriter.OpenDurable | internal/service/storage/wal/writer.go:81-90 | creating a segment keeps the replay and leaves the writer appending to the newest segment |
| WalWriter.RotateDurable | internal/service/storage/wal/writer.go:54-79 | the same as WriteDurable for a writer that already has a file |
| WalWriter.WriteNewestDurable | internal/service/storage/wal/writer.go:66-76 | encoding and writing to the newest segment extends the replay by the batch, or leaves it on failure |
| WalWriter.Writer.constructor | internal/service/storage/wal/writer.go:22-28 | a new writer has the given maximum, no file and a zero counter |
| WalWriter.Writer.CreateNewSegment | internal/service/storage/wal/writer.go:81-90 | opens `wal-<now>.gob` and resets the counter, or reports failure and leaves the writer's handle and counter as they were |
| WalWriter.Writer.Write | internal/service/storage/wal/writer.go:46-79 | the new handle, counter, directory and error are those of the write specification, so every WriteDurable, WriteLands and WriteErrors fact applies |
| WalWriter.Writer.Flush | internal/service/storage/wal/writer.go:30-44 | an empty buffer changes nothing; otherwise the buffer is drained, the drained units are written in push order as one batch, and every drained waiter receives the same outcome |
| WalWriter.CollectUnits | internal/service/storage/wal/writer.go:36-39 | the units of the drained entries, in order |
| WalWriter.Deliver | internal/service/storage/wal/writer.go:41-43 | every drained waiter receives the write's result |
| WalCompaction.TempName | internal/service/storage/wal/compaction.go:93 | the scratch file is never a `wal-*.gob` segment, so it is never replayed |
| WalCompaction.CompactsTwoOldest | internal/service/storage/wal/compaction.go:61-75 | with more than one `wal-*.gob` segment, run compacts exactly the two smallest names in string order, and every other segment sorts after them; with zero or one, it compacts nothing |
| WalCompaction.TwoOldest | internal/service/storage/wal/compaction.go:69-71 | the first two names of the replay order are listed, ordered, and precede every other segment |
| WalCompaction.ReplaySets | internal/service/storage/wal/compaction.go:159-162 | replaying SET units taken from a table adds exactly those keys with the table's values |
| WalCompaction.SnapshotReplays | internal/service/storage/wal/compaction.go:159-164 | replaying the snapshot from an empty table rebuilds the table |
| WalCompaction.SnapshotSize | internal/service/storage/wal/compaction.go:89-91 | the snapshot is empty exactly when no key is live |
| WalCompaction.ReplayBatch | internal/service/storage/wal/compaction.go:146-155 | the scratch table after one decoded batch is its replay |
| WalCompaction.ReplaySegment | internal/service/storage/wal/compaction.go:138-156 | a segment is accepted exactly when every frame decodes, and then the table is the replay of all its batches |
| WalCompaction.ReadUnits | internal/service/storage/wal/compaction.go:130-165 | fails exactly as a reader of the same segments would, and otherwise returns one SET unit per live key with its final value and no DEL unit |
| WalCompaction.Snapshot | internal/service/storage/wal/compaction.go:159-162 | the units are one SET per key of the table carrying its value |
| WalCompaction.Compact | internal/service/storage/wal/compaction.go:80-128 | the snapshot written is that of the segments' replay, and the directory and error follow the step order: read, open, encode, write, sync, remove each source, rename to the oldest name |
| WalCompaction.MergedIsMerge | internal/service/storage/wal/compaction.go:115-125 | after removing both sources and renaming, the oldest name holds just the snapshot and the second name is gone |
| WalCompaction.RemoveTwo | internal/service/storage/wal/compaction.go:115-120 | sources are removed oldest first, and a failed removal stops the loop |
| WalCompaction.SnapshotSteps | internal/service/storage/wal/compaction.go:93-125 | the directory after each possible failure: untouched, the empty or written scratch file, the oldest source removed, or both removed |
| WalCompaction.MergedOrder | internal/service/storage/wal/compaction.go:122 | after a merge, the replay order is the oldest name followed by the segments after the two sources |
| WalCompaction.ReplayInTwoParts | internal/service/storage/wal/compaction.go:130-165 | a snapshot equivalent to the two oldest segments, followed by the rest, replays as the whole directory |
| WalCompaction.ReplayMerged | internal/service/storage/wal/compaction.go:115-125 | the merged directory replays to the same table as the original |
| WalCompaction.CompactSteps | internal/service/storage/wal/compaction.go:80-128 | success leaves the directory untouched (no live keys) or merged; each failure leaves one of the named intermediate directories |
| WalCompaction.CompactKeepsReplay | internal/service/storage/wal/compaction.go:80-128 | a successful compaction of the two oldest segments keeps the directory's replay, and the compacted name takes the oldest's place in the order |
| WalCompaction.CompactFailureKeepsReplay | internal/service/storage/wal/compaction.go:85-120 | a failure before any source is removed keeps the replay, since the scratch name is never replayed |
| WalCompaction.CompactRemoveFailureLosesOldest | internal/service/storage/wal/compaction.go:115-120 | when removing the second source fails, the directory replays without the oldest segment |
| WalCompaction.CompactRenameFailureLosesBoth | internal/service/storage/wal/compaction.go:122-125 | when the rename fails, the directory replays without both sources, whose data is left only in the scratch file |
| WalCompaction.CompactRemovesOpenSegment | internal/service/storage/wal/compaction.go:61-125 | with exactly two segments, a merge removes the newest one, which is the writer's open segment, so later appends through its handle do not reach the directory |
| WalCompaction.RunKeepsReplay | internal/service/storage/wal/compaction.go:51-128 | a successful run keeps the directory's replay |
| WalCompaction.Compaction.constructor | internal/service/storage/wal/compaction.go:24-30 | a new compactor is not processing |
| WalCompaction.Compaction.Run | internal/service/storage/wal/compaction.go:51-78 | an unreadable directory is an error and changes nothing; otherwise it compacts the selected segments as Compact does; the processing flag is clear on every exit |
| WalCompaction.Compaction.Tick | internal/service/storage/wal/compaction.go:39-46 | a tick while processing is skipped and changes nothing; otherwise it runs once |
| ServiceStorage.Wal.constructor | internal/service/storage/storage.go:34-40 | the WAL wraps the given buffer, writer and directory |
| ServiceStorage.Wal.Append | internal/service/storage/wal/writer.go:30-44 | pushing one unit and flushing it gives the waiter the write specification's outcome for that one-unit batch, and the buffer is empty again |
| ServiceStorage.SetUnit | internal/service/storage/storage.go:62 | the logged SET unit is well formed and sets the key to the value |
| ServiceStorage.DelUnit | internal/service/storage/storage.go:87 | the logged DEL unit is well formed and removes the key from any table |
| ServiceStorage.WalThenEngine | internal/service/storage/storage.go:57-96 | after a WAL write, applying the unit to the table exactly when the WAL accepted it keeps the table equal to the directory's replay |
| ServiceStorage.WalOutcome | internal/service/storage/storage.go:57-96 | the same, including that the writer stays well formed |
| ServiceStorage.Storage.constructor | internal/service/storage/storage.go:27-55 | every restore batch is applied to the engine in order before the storage is returned; an empty table restored from a stream that replays to the WAL directory, with a writer that has no file yet, starts with the table equal to the replay (the invariant Set and Del keep) |
| ServiceStorage.Storage.ApplyUnitsToEngine | internal/service/storage/storage.go:98-109 | the engine becomes the replay of the units in order |
| ServiceStorage.Storage.Set | internal/service/storage/storage.go:57-71 | a replica with a WAL refuses and changes nothing; without a WAL the engine is set directly; otherwise the WAL is written first, its error is wrapped and leaves the engine alone, success sets the engine, and the engine stays equal to the WAL's replay |
| ServiceStorage.Storage.Del | internal/service/storage/storage.go:82-96 | the same for DEL |
| ServiceStorage.Storage.Get | internal/service/storage/storage.go:73-80 | returns the value of a present key, or "not found" without touching the WAL |
| ReplicationMaster.FindLastSegment | internal/service/storage/replication/master.go:56-86 | the name is always what GetNextSegment resolved ("" on error); data is sent only for a readable file other than the one asked about, and then it is the whole file |
| ReplicationMaster.Handle | internal/service/storage/replication/master.go:32-49 | an undecodable request gets no reply; otherwise the reply names "", the requested name or a listed segment |
| ReplicationMaster.NextIsListed | internal/service/storage/wal/segment.go:61-74 | a resolved name other than "" is one of the listed entries |
| ReplicationMaster.ShipsSuccessor | internal/service/storage/replication/master.go:56-86 | a replica behind the master is sent the least newer segment, with its contents when the file can be read and with no data otherwise |
| ReplicationMaster.CaughtUpGetsNothing | internal/service/storage/replication/master.go:65-69 | a replica at the newest segment gets its own name back and no data |
| ReplicationMaster.ShipsOldestFirst | internal/service/storage/replication/master.go:56-86 | a replica with no segment gets the least qualifying segment and its contents, or "" when there is none |
| ReplicationMaster.NextFromScratch | internal/service/storage/wal/segment.go:69-70 | asked from scratch, the first sorted qualifying name is returned |
| ReplicationMaster.OldestQualifying | internal/service/storage/wal/segment.go:41-45 | the first sorted qualifying name is the least qualifying entry |
| ReplicationMaster.ShippedOnce | internal/service/storage/replication/master.go:65-85 | once a replica's cursor is at or past a segment, that segment's data is never sent again, so anything appended to it later never reaches the replica |
| ReplicationMaster.ReplyNameIsAscii | internal/service/storage/replication/master.go:41-48 | every name the master replies with is ASCII, so marshalling the reply cannot fail |
| ReplicationMaster.TempNameUnparsed | internal/service/storage/wal/compaction.go:93 | a compaction's temporary name never parses as a segment name |
| ReplicationMaster.TempNameFails | internal/service/storage/wal/segment.go:24-27 | a request naming a compaction's temporary file fails on its timestamp whatever the directory holds, and the master replies with an empty response |
| ReplicationMaster.ScratchNeverShipped | internal/service/storage/replication/master.go:56-85 | the master never names, let alone ships, a compaction's temporary file, even when it is listed |
| ReplicationMaster.CursorQualifies | internal/service/storage/wal/segment.go:41-45 | in a consistently ordered listing, the entries after a cursor qualify for it and the oldest one before it does not |
| ReplicationMaster.NoneBeforeThird | internal/service/storage/wal/segment.go:45 | past the oldest entry, no entry of a sorted listing sorts before the third |
| ReplicationMaster.DroppedCursorSkipsNext | internal/service/storage/wal/segment.go:61-74 | a cursor dropped from the listing between its oldest entry and the rest is answered with something other than the entry after it |
| ReplicationMaster.CompactionStrandsReplica | internal/service/storage/wal/compaction.go:115-125 | a compaction that merges the two oldest segments removes a replica's cursor from the listing, and the replica's next request skips the third-oldest segment, which is still there |
| ReplicationMaster.DroppedEntry | internal/service/storage/wal/compaction.go:115-125 | dropping the second entry keeps the oldest and the third and leaves the second out |
| ReplicationMaster.KeptCursorSkipsDropped | internal/service/storage/wal/segment.go:61-74 | an oldest cursor that stays listed, with the second entry dropped, is answered with the third |
| ReplicationMaster.CompactionHidesMerged | internal/service/storage/wal/compaction.go:115-125 | after a merging compaction, a replica whose cursor is the oldest segment is answered with the third-oldest, and the merged second-oldest name is gone |
| ReplicationSlave.SaveSegment | internal/service/storage/replication/slave.go:126-141 | an empty name writes nothing; otherwise the data is appended to the named file, which is created when absent, and no other file changes |
| ReplicationSlave.DecodeData | internal/service/storage/replication/slave.go:143-157 | empty data forwards nothing; otherwise exactly the first batch is decoded, and a corrupt first frame is an error |
| ReplicationSlave.AdvancesOnlyOnSuccess | internal/service/storage/replication/slave.go:73-110 | the cursor moves to the reply's name exactly when every step succeeds; any failure keeps the cursor and forwards nothing |
| ReplicationSlave.AdvancesWithoutData | internal/service/storage/replication/slave.go:103-109 | a reply without data still advances the cursor and forwards nothing |
| ReplicationSlave.ForwardsFirstBatchOnly | internal/service/storage/replication/slave.go:148-155 | at most one batch is forwarded per sync, the first of the data |
| ReplicationSlave.SecondBatchNotForwarded | internal/service/storage/replication/slave.go:148-155 | when the shipped segment holds two batches, only the first reaches the engine although both are saved |
| ReplicationSlave.CopiesNewSegment | internal/service/storage/replication/slave.go:73-141 | a replica behind the master copies the next segment in full and advances to it |
| ReplicationSlave.UnreadableSuccessorLost | internal/service/storage/replication/slave.go:97-109 | when the master cannot read the successor, the replica moves its cursor to it, keeps an empty file of that name and forwards nothing |
| ReplicationSlave.SyncSaves | internal/service/storage/replication/slave.go:97-109 | a successful sync with a name appends the data to that file and moves the cursor there |
| ReplicationSlave.ListingFailureRewinds | internal/service/storage/replication/slave.go:73-110 | when the master cannot list its directory, the replica's cursor is reset to "", and the next sync appends the oldest segment again to the copy it already holds |
| ReplicationSlave.Slave.constructor | internal/service/storage/replication/slave.go:44-51 | a replica starts at the given cursor with nothing forwarded |
| ReplicationSlave.Slave.Sync | internal/service/storage/replication/slave.go:73-110 | the cursor, directory, forwarded batches and error are those of the sync specification |
| ReplicationSlave.Slave.SaveSegmentTo | internal/service/storage/replication/slave.go:126-141 | the directory and error are those of SaveSegment |
| ReplicationSlave.Slave.ApplyDataToEngine | internal/service/storage/replication/slave.go:143-157 | forwards DecodeData's batches, or returns its error and forwards nothing |
| ReplicationSlave.NewSlave | internal/service/storage/replication/slave.go:27-52 | a dial failure or a failed GetLastSegment is an error with no replica; otherwise the cursor starts at the local last segment |
| ComputeQuery.MapCommand | internal/service/compute/query.go:58-65 | exactly "SET", "GET" and "DEL" map to themselves; any other word is an invalid command |
| ComputeQuery.ArgumentsNumber | internal/service/compute/query.go:15-19 | SET needs 3 tokens, GET and DEL 2, counting the command word |
| ComputeQuery.NewQueryGetters | internal/service/compute/query.go:43-56 | the getters return exactly what the query was built with |
| ComputeQuery.MessageNotInternal | internal/service/compute/query.go:21-24 | no compute error's text is "internal error" |
| ComputeParser.RunLength | internal/service/compute/parser.go:48-58 | the leading run of non-separators ends at the end of the text or at a separator |
| ComputeParser.Parser.constructor | internal/service/compute/parser.go:25-27 | a new parser is in the initial state with an empty buffer |
| ComputeParser.Parser.Parse | internal/service/compute/parser.go:29-78 | the state machine yields the reference tokenization: no tokens for an empty query, a parse error on a leading separator, an invalid-symbol error on any other non-letter byte, and otherwise the maximal runs of non-separators |
| ComputeParser.WordsAreRuns | internal/service/compute/parser.go:48-75 | every word is non-empty and free of separators |
| ComputeParser.TokensAreLetters | internal/service/compute/parser.go:42-75 | every token of a successful parse is a non-empty run of letter bytes |
| ComputeParser.WordsOfJoin | internal/service/compute/parser.go:60-75 | splitting tokens joined with single spaces gives them back |
| ComputeParser.TokenizeJoin | internal/service/compute/parser.go:29-78 | tokenizing valid tokens joined with single spaces succeeds with those tokens |
| ComputeAnalyzer.Analyze | internal/service/compute/analyzer.go:17-37 | empty input and an unknown command word are invalid commands, a wrong token count is invalid arguments, and success carries the mapped command with the tokens after it |
| ComputeAnalyzer.AnalyzeAccepts | internal/service/compute/analyzer.go:17-37 | accepted exactly when the tokens are SET with two arguments, or GET or DEL with one |
| Compute.ComputeService.constructor | internal/service/compute/compute.go:22-28 | the pipeline uses the given parser |
| Compute.ComputeService.HandleQuery | internal/service/compute/compute.go:30-42 | a parse error is returned unchanged without consulting the analyzer; otherwise the result is the analyzer's on the parsed tokens |
| Compute.ProcessAccepted | internal/service/compute/compute.go:30-42 | an accepted query is SET with two arguments, or GET or DEL with one, and each argument is a letter token |
| Compute.ProcessJoined | internal/service/compute/compute.go:30-42 | a well-formed command written out with single spaces is accepted as exactly that command and arguments |
| Service.Database.constructor | internal/service/database.go:17-23 | the database uses the given pipeline and table |
| Service.Database.HandleQuery | internal/service/database.go:25-52 | the reply and the new table are those of the reply specification: "[error] " and the message on a rejected query, "[OK]" after SET and DEL, "[ok] " and the value or "[error] not found" for GET |
| Service.NoInternalError | internal/service/database.go:50-51 | the "[error] internal error" fallback is never given, since the pipeline only passes SET, GET and DEL |
| Service.ErrorReplyNotInternal | internal/service/database.go:28-31 | no rejected query's reply reads like the fallback |
| Service.QueryActsAsUnit | internal/service/database.go:25-52 | a rejected query or a GET leaves the table alone, and an accepted SET or DEL changes it exactly as replaying its WAL unit does |
| Service.ReplyShapes | internal/service/database.go:25-52 | every reply is "[OK]" or starts with "[ok] " or "[error] " |
| Service.SetThenGetReplies | internal/service/database.go:34-43 | after SET k v, GET k replies "[ok] v" |
| Service.DelThenGetReplies | internal/service/database.go:38-47 | after DEL k, GET k replies "[error] not found" |

## Left out

- Concurrency is not modelled:
  - the mutexes and the condition variable;
  - the channels between buffer, writer and waiters;
  - the replication-apply goroutine in `NewStorage`;
  - the ticker loops in `Compaction.Start`, `Slave.Start` and the WAL watcher.
  
  Every operation runs to completion on its own. A compaction that runs at the same time as a write is therefore not modelled, and neither is a replica's stream being read while it is filled.
- Byte encodings are abstract:
  - gob and protobuf are not modelled;
  - a segment is a sequence of frames, each an encoded batch with an abstract byte size or a run of bytes that fails to decode;
  - decoding an encoded batch is taken to give it back;
  - an encoding failure is a flag in the I/O parameters.
- Operating-system calls are abstract:
  - `os.ReadDir`, `os.ReadFile`, `OpenFile`, `Write`, `Sync`, `Close`, `Remove` and `Rename` act on a name-to-frames map;
  - whether each call fails is given as a parameter;
  - partial writes, torn frames, crashes and fsync durability are not modelled.
- `time.Now` is a parameter `now`. The durability lemmas take a clock whose segment name sorts at or after every existing one (`ClockAhead`). A rotation in the same second as the full segment's creation is modelled: `os.OpenFile` hands back that file, and the batch is appended after its old contents (`WalWriter.SameSecondOvershoot`).
- WalWriter.WriteTracksSize: the counter is proved to measure the open file, and so to bound a segment's overshoot by its last batch, only when every rotation runs in a later second than every existing segment. Without that, a segment can exceed the maximum by any amount.
- The network is not modelled:
  - TCP dial, send and receive, and the master's server loop are parameters or absent;
  - the replica's request and the master's reply are values;
  - the replica's marshal and send failures are flags;
  - the master's branch for a reply that fails to marshal (replication/master.go:42-46) is left out. It cannot be taken: every name in a reply is ASCII (`ReplicationMaster.ReplyNameIsAscii`), and protobuf refuses a string only when it is not valid UTF-8.
- Logging is not modelled, and neither is Go's error-message wrapping. Errors are datatype values that keep the cause.
- internal/service/storage/wal/wal.go is not part of this model. Neither are wal/writer_flush.go and the batch_buffer package, which are an older generation that cannot be compiled alongside the rest.
- ServiceStorage.Wal.Append: takes the WAL that storage writes through as the wal/buffer.go buffer plus the wal/writer.go writer. A unit is pushed, flushed as a batch of its own, and its waiter's outcome is returned. Batching of several callers' units into one write is therefore not modelled for storage, though `Writer.Flush` models it in full.
- internal/service/storage/engine.go is a logging forwarder and is not part of this model. `Database` is modelled directly over `MemoryTable`.
- internal/service/storage/replication/replication.go (an interface), config, prepare, cmd and network are not part of this model.
- `tools.ParseSize` is not part of this model.
- `Buffer.Push` takes the outcome of the `select` in wal/buffer.go:38-43 as a boolean `ctxDone`: true when the context's branch wins, false when the signal is sent. Which branch Go picks when both are ready, and waiting while neither is, are not modelled.
- Reader.Read: the stream handed to `NewStorage` is a sequence that the reader appends to. Blocking until a consumer reads is not modelled.
- Units that decode with too few arguments are excluded by precondition. `applyUnits` (storage.go:100-106) and `readUnits` (wal/compaction.go:147-153) index `Arguments[0]` and `Arguments[1]` without a check. In Go, such a unit panics the process during restore, replica apply or compaction. The model instead requires `WellFormed` units: through `Intact` for directories, `BatchWellFormed` on `ApplyUnitsToEngine`, and `BatchesWellFormed` on the `Storage` constructor, and `NamedWellFormed` on compaction's replay of its sources. The program's own writes never produce such a unit (`NewUnitFromQuery`).
- Slave.ApplyDataToEngine: the engine stream is the sequence `sent`. The consumer goroutine that applies it is not modelled here; `Storage.ApplyUnitsToEngine` models the application.
- WalWriter.Writer.Write: one `openOk` flag covers both segment opens that a single call can make, the first segment and a rotation. An open that fails only on the second attempt in the same call is not modelled.
- The compaction lemmas assume no temporary file of the same second is already in the directory (`TempName(io.now) !in files`). In Go, a scratch file left by a compaction that failed earlier in that second would be reopened with O_APPEND (wal/compaction.go:94), and its stale SET units would come back after the rename. With a tick of several seconds this needs two compactions in one second.
- WalCompaction.Compact: the snapshot's unit order comes from Go's random map iteration. The model returns some order and states only that the units are one SET per live key. Replay does not depend on the order.
