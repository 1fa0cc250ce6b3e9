# kafko: a verified model of the storage engine and its actors

kafko is an embedded, Kafka-like log written in Rust. This project models the part of it that
everything else rests on, in four layers, and proves what each layer promises to the next.

1. **Framing and recovery** (`Records`, `Framing`, `Recovery`, `DiskImages`). A record is a
   length- and checksum-framed byte string. Recovery scans the active segment for the last
   position that decodes, truncates there, and replays what is left into a new index.
2. **The segmented log** (`Segments`, `SparseIndexes`, `Logs`). Segment files with a cached file
   cursor, a sparse index per segment, batch appends, rotation, retention, positioned reads.
3. **The partition actor** (`Partitions`). One writer task drains an inbox, coalesces appends,
   publishes a high-water mark, answers, and syncs before it exits.
4. **Clients across partitions** (`Wakeups`, `Consumers`, `Producers`, `OffsetStores`). The
   parked-counter wakeup gate, the round-robin merge, batch scatter and gather, committed offsets.

`ByteStrings`, `Compressions` and `Searching` hold what the layers share. The checksum, the LZ4
block codec, the zstd frame codec and the key hash are parameters (`Build`, `hash`), so every
theorem holds for all of them; no result depends on the checksum being free of collisions.

## How the main results fit together

* `PlainLog` is a plain sequence of records with a moving lower bound. `Logs.Log` carries it as
  ghost state (`origin`, `history`, and `First()`), and every method of the class is proved
  against it: an append extends it, `ReadRecordAt` answers exactly from it, retention moves its
  lower bound, rotation and sync leave it alone. `PartitionWriter` is proved to act on it as if
  commands ran one at a time.
* `Log.trace` holds every disk state of a run. `Valid` keeps its last entry equal to the files as
  they are and every two neighbours one file operation (`FileOp`) apart, so no state can be left
  out: not the one between the two syncs of a rotation, nor the one between creating a new `.log`
  and creating its `.index`. `ReopenAfterCrash` takes any state of the trace and anything a crash
  may leave of it, and shows that opening gives back a prefix of the history at its old offsets,
  at least as long as the durable mark. The mark and the readiness for a crash carry over every
  open, so this repeats for any number of restarts; `CrashInsideOpenIsACrash` adds the crashes
  that hit an open half-way.
* A crash keeps the synced records of each file and, after some whole frames, any tail that fails
  with one of the three errors recovery truncates on. `AnyCutSurvives` and `ZeroFillSurvives`
  show that losing any number of unsynced bytes, or having them zeroed, are such crashes.
* `PartitionWriter` keeps the log as it was at each answer, with the state of the disk trace it
  belongs to, and every retention sweep with what it found and deleted. Whatever retention does in between, at
  each of these moments a reader could see an explicit batch whole or not at all, because no
  segment ever starts inside one.
* `OffsetStore.trace` is the state of its two files over time, and the last entry is what is on
  disk; a commit cannot change the files without passing through it.
* `Wakeups` is a state machine with any number of partitions, producers and consumers. The
  relaxed counter is its modification history; a relaxed load may return any entry from the
  newest one its thread is known to have seen.

## What turned out not to hold

* **Padded frames.** `decode` checks the inner lengths against the remaining buffer, not against
  the frame. A frame that declares more than its fields use decodes, but truncating right after
  its fields cuts it: the first open fails, leaves the truncated file behind, and the next one
  opens with the record gone (`PaddedFrameFailsFirstOpen`). `ArbitraryBytesRecovery` says exactly when opening succeeds.
* **Values over 16 MiB in compressed topics** are acknowledged and can then not be read, and
  opening a log that ends in one fails (`OversizedValueBlocksOpen`). `RoundTrip` holds if and
  only if the value is within the cap.
* **Round robin across a counter wrap.** The keyless spread of a batch can be off by two when the
  64-bit counter wraps inside it (`WrapSendsTwiceToOne`); `KeylessSpreadIsEvenIff` is exact.
* **Commits are synced, appends are not.** A group that commits a record before it is synced may,
  after a crash, never see the record that takes over its offset (`ReplacedRecordIsSkipped`).
  `NothingSkippedIffLogsAgree` says exactly when resuming skips a record, and
  `CommitIsSafeIffSynced` what a caller must see to before committing: whatever the partition does
  afterwards, no crash and no append after it can make the group skip anything if and only if the
  records below the committed cursor are in sealed segments or in synced bytes of the active one.
* The comments in `crates/kafko/src/consumer.rs:20-21` still say that positions are not stored;
  the code has committed offsets, and the model follows the code. The comment on the flag byte in
  `crates/kafko/src/record.rs:114` names two codecs where the code has three.

## Model

| member | source | states |
|---|---|---|
| `Compressions.CompressedValueReadsBackIffWithinCap` | crates/kafko/src/compression.rs:117-203 | decompression inverts compression exactly for values within the 16 MiB cap and fails on every other, for both codecs |
| `Compressions.CapIsSixteenMebibytes` | crates/kafko/src/compression.rs:188-208 | the cap is 16,777,216 bytes; a stored LZ4 value that claims more is refused whatever the library would do; a codec not in the build is reported as such |
| `Records.EncodeInner` | crates/kafko/src/record.rs:99-154 | filling the buffer field by field and patching the checksum in appends exactly one frame and touches nothing before it |
| `Records.EncodeWith` | crates/kafko/src/record.rs:84-97 | appends the encoding, or leaves the buffer alone when the codec is not in the build |
| `ByteStrings.ByteOrder` | crates/kafko/src/record.rs:105-106 | record fields are big-endian, offset files little-endian |
| `Records.RoundTrip` | crates/kafko/src/record.rs:161-225 | decoding an encoding followed by anything gives back the record and consumes exactly the frame, if and only if the value is within the cap |
| `Records.DecodedIsChecksummed` | crates/kafko/src/record.rs:161-186 | nothing decodes from bytes that are not all there or whose checksum is not the one of the declared payload |
| `Records.TamperingIsCaught` | crates/kafko/src/record.rs:178-186 | an encoding with other payload bytes behind its header is a checksum mismatch, with both checksums, whenever the checksum tells them apart |
| `Records.UnreadableFlagIsAnError` | crates/kafko/src/record.rs:188-189 | a checksummed frame with a flag above 2 is an unknown compression |
| `Records.MissingCodecIsAnError` | crates/kafko/src/record.rs:213-217 | a checksummed frame whose codec is not in the build is reported with that codec |
| `Records.NeededIsExact` | crates/kafko/src/record.rs:162-176 | the count in a truncation error is exactly what is missing of the declared frame: with fewer bytes more it stays truncated by the rest, with as many it is not truncated any more |
| `Records.KeyRoundTrip` | crates/kafko/src/record.rs:193-204 | a missing key, an empty key and every other key stay distinct; the sentinel is never a real length |
| `Records.DecodeStable` | crates/kafko/src/record.rs:161-225 | on arbitrary bytes, a successful decode gives the same record and consumption whatever follows |
| `Records.DecodeConsumedOnly` | crates/kafko/src/record.rs:172-219 | a decodable frame still decodes after any cut that keeps what it declares and what it consumes |
| `Records.ProperPrefixIsTorn` | crates/kafko/src/record.rs:162-212 | on arbitrary bytes, cutting inside a decodable frame always gives one of the errors recovery truncates on |
| `Records.EncodedPrefixIsTruncated` | crates/kafko/src/record.rs:162-176 | every proper prefix of an encoding is reported as truncated |
| `Records.ZeroTailIsTorn` | crates/kafko/src/record.rs:162-171 | an all-zero tail never decodes and fails with a truncating error |
| `Framing.MixedCodecRoundTrip` | crates/kafko/src/record.rs:84-225 | the concatenation of records under any mix of codecs decodes to exactly those records and leaves exactly the remainder |
| `Framing.ParseAccounts` | crates/kafko/src/log.rs:449-464 | a scan of arbitrary bytes accounts for every byte: it stops in bounds, at the end or at the first undecodable position, and each frame takes at least 25 bytes |
| `Framing.ParseFrom` | crates/kafko/src/log.rs:280-293 | decoding forward from the start of the k-th frame yields the frames from k on |
| `Framing.SolidPrefix` | crates/kafko/src/log.rs:424-427 | the first k frames of encoder output parse alone to exactly those k frames |
| `Framing.CutIsTorn` | crates/kafko/src/log.rs:458-460 | cutting encoder output at any byte leaves whole frames and a torn tail |
| `Framing.TornTailIsDropped` | crates/kafko/src/log.rs:449-464 | a scan of whole frames and a torn tail finds exactly those frames |
| `Framing.OversizedRecordHidesTheRest` | crates/kafko/src/compression.rs:199-201 | a value over the cap makes every frame behind it unreachable to a scan |
| `Framing.FoundFramesAreChecksummed` | crates/kafko/src/log.rs:449-464 | every frame a scan finds in arbitrary bytes carries the checksum of its payload |
| `Framing.ScanStopsAtTampering` | crates/kafko/src/log.rs:449-464 | a scan stops in front of a frame that was tampered with |
| `SparseIndexes.SparseIndex.TrackAppend` | crates/kafko/src/sparse_index.rs:116-140 | memory and file move together by one index step |
| `SparseIndexes.SparseIndex.Lookup` | crates/kafko/src/sparse_index.rs:146-174 | the binary search finds the last entry at or before the offset, or the start of the segment |
| `SparseIndexes.SparseIndex.Open` | crates/kafko/src/sparse_index.rs:54-83 | loads the parsed entries of the file |
| `SparseIndexes.IndexFileRoundTrip` | crates/kafko/src/sparse_index.rs:54-83 | parsing a printed index gives back its entries, ignoring an incomplete last entry |
| `SparseIndexes.IndexIsExact` | crates/kafko/src/sparse_index.rs:122-138 | entries are strictly increasing and each is the exact start byte of its record |
| `SparseIndexes.LookupLandsClose` | crates/kafko/src/sparse_index.rs:116-174 | the bytes between the entry found and the record sought are fewer than max(interval, 1) |
| `SparseIndexes.EntriesAreSparse` | crates/kafko/src/sparse_index.rs:122-138 | at least an interval of bytes lies between an entry and the next |
| `SparseIndexes.SeekThenDecode` | crates/kafko/src/log.rs:267-293 | lookup plus forward decode equals decoding from byte 0 |
| `SparseIndexes.EntriesFit` | crates/kafko/src/sparse_index.rs:124-129 | in a segment within 4 GiB no index entry exceeds u32 |
| `SparseIndexes.StartBounds` | crates/kafko/src/sparse_index.rs:124-129 | 25 times the relative offset of a record is at most its file position |
| `Segments.Segment.Append` | crates/kafko/src/segment.rs:102-109 | writes at the end of the file, whatever the cached cursor |
| `Segments.Segment.ReadAt` | crates/kafko/src/segment.rs:113-118 | is a positioned read and leaves the bytes alone, whatever the cached cursor |
| `Segments.Segment.Truncate` | crates/kafko/src/segment.rs:122-129 | sets the length, durably, and keeps the cursor cache honest |
| `Segments.Segment.EnsureCursor` | crates/kafko/src/segment.rs:131-137 | after it, cached and real position are the one asked for |
| `Recovery.ScanForLastValidPosition` | crates/kafko/src/log.rs:441-465 | returns the end of the last frame of the scan, or the error that recovery does not truncate on |
| `Recovery.ReplayRecordsToIndex` | crates/kafko/src/log.rs:467-494 | rebuilds the index a live log would have, one index write at a time, and counts the records |
| `Recovery.RecoverActiveSegment` | crates/kafko/src/log.rs:418-439 | succeeds exactly when the specification of recovery does, with its bytes, index and count; records the state of the files after every operation, up to the truncated file a failed open leaves behind |
| `DiskImages.AppendKeepsImage` | crates/kafko/src/log.rs:209-255 | appending clean frames keeps the disk invariant and extends the history by their records |
| `DiskImages.RotationKeepsImage` | crates/kafko/src/log.rs:349-363 | adding a segment, with or without its index file, keeps the disk invariant |
| `DiskImages.RetirementKeepsImage` | crates/kafko/src/log.rs:365-378 | dropping the oldest segment keeps the disk invariant |
| `DiskImages.BasesIncrease` | crates/kafko/src/log.rs:349-363 | bases strictly increase and each segment ends where a later one starts or before |
| `DiskImages.RotationBaseIsFresh` | crates/kafko/src/segment.rs:92-97 | rotating a non-empty segment never re-creates an existing file |
| `DiskImages.AnyCutSurvives` | crates/kafko/src/log.rs:424-427 | losing any number of unsynced bytes is a crash the recovery theorem covers |
| `DiskImages.ZeroFillSurvives` | crates/kafko/src/log.rs:458-460 | so is replacing unsynced records by zeros |
| `DiskImages.SyncedRecordsSurvive` | crates/kafko/src/log.rs:299-307 | a record within synced bytes is never in the torn tail |
| `DiskImages.SurvivorRecovers` | crates/kafko/src/log.rs:418-439 | whatever a crash leaves of a file, recovery keeps exactly the whole records in front of the torn tail |
| `DiskImages.EveryCrashRecoversIffSynced` | crates/kafko/src/log.rs:299-307 | every crash recovers at least up to an offset if and only if the records below it are in sealed segments or synced bytes |
| `DiskImages.SyncedStays` | crates/kafko/src/log.rs:349-378 | what is synced stays synced through any file operation: writes, syncs, rotations, removals |
| `DiskImages.SyncedSurvivesReopen` | crates/kafko/src/log.rs:418-439 | and through any crash and the open that follows |
| `DiskImages.CrashRecovery` | crates/kafko/src/log.rs:108-141 | whatever a crash leaves of a good disk image, opening succeeds and holds exactly a prefix of the history at its old offsets, up to the durable mark and the active base at least; what was durable still is, and the files are ready for the next crash |
| `DiskImages.CrashInsideOpen` | crates/kafko/src/log.rs:418-439 | a crash at any step of recovering a file leaves nothing the first crash could not have left |
| `DiskImages.CrashInsideOpenIsACrash` | crates/kafko/src/log.rs:108-141 | hence a crash inside an open is one more crash of the run before it |
| `DiskImages.CleanReopen` | crates/kafko/src/log.rs:108-141 | opening a log that was closed keeps the whole history, the durable mark and the readiness for a crash |
| `DiskImages.ArbitraryBytesRecovery` | crates/kafko/src/log.rs:418-494 | on arbitrary bytes, recovery succeeds if and only if the scan stops on a truncating error or the end and no kept frame reaches over the cut; it keeps exactly the frames found, and recovering again changes nothing |
| `DiskImages.MissingCodecBlocksOpen` | crates/kafko/src/log.rs:458-461 | an active segment with a frame whose codec is not in the build fails to open with that error, and the file is left alone |
| `DiskImages.UnknownFlagBlocksOpen` | crates/kafko/src/log.rs:458-461 | the same for a flag without a meaning |
| `DiskImages.CorruptionIsCutOff` | crates/kafko/src/log.rs:458-460 | a corrupted frame behind encoder output is cut off with everything after it, and the open succeeds with exactly the encoder output |
| `DiskImages.TruncationReplaysIffContained` | crates/kafko/src/log.rs:424-437 | the truncated file replays without error if and only if no kept frame declares bytes beyond the cut |
| `DiskImages.ReopenTwice` | crates/kafko/src/log.rs:108-141 | a second open changes nothing |
| `DiskImages.ArbitraryActiveOpens` | crates/kafko/src/log.rs:116-141 | arbitrary bytes that recover, behind any good sealed segments, open to a good log of the sealed records followed by the records found, so they stay readable under all later operations |
| `DiskImages.SmallIsReplayable` | crates/kafko/src/sparse_index.rs:122-139 | replaying any file within 4 GiB, whatever its bytes, makes no index entry exceed u32 |
| `DiskImages.GoodIsReplayable` | crates/kafko/src/sparse_index.rs:122-139 | a file that reopens to a good image makes no index entry exceed u32, however long its torn tail |
| `DiskImages.PaddedFrameFailsFirstOpen` | crates/kafko/src/record.rs:193-212 | a checksummed frame with padding fails the first open, and what that open leaves behind opens without the record |
| `DiskImages.OversizedValueBlocksOpen` | crates/kafko/src/log.rs:461 | a value over the cap in the active segment makes opening fail |
| `Logs.EncodeBatch` | crates/kafko/src/log.rs:227-238 | encodes a batch into one buffer with its offsets and the size of each frame |
| `Logs.UncompressedSizeIsWireSize` | crates/kafko/src/record.rs:63-69 | without compression the announced size of a batch is its exact size |
| `Logs.UncompressedAcceptable` | crates/kafko/src/sparse_index.rs:122-139 | without compression, a threshold and a batch within 4 GiB rule out both u32 failures |
| `Logs.SizedAfterOp` | crates/kafko/src/segment.rs:85-97 | no file operation but a write to the log file can make a segment outgrow both the threshold and its first write |
| `Logs.SizedAfterWrite` | crates/kafko/src/segment.rs:85-97 | nor can a write that has room or is the segment's first |
| `Logs.FilledAfterOp` | crates/kafko/src/segment.rs:92-97 | no file operation but the creation of a log file can leave a segment behind that was not filled |
| `Logs.FilledAfterRotation` | crates/kafko/src/log.rs:176-187 | nor can that, when the announced write had no room in the last one |
| `Logs.Log.Create` | crates/kafko/src/log.rs:89-101 | a new log is empty, valid, within its size bounds and ready for a crash, also before its index file exists |
| `Logs.Log.Append` | crates/kafko/src/log.rs:172-204 | assigns the next offset, extends the history by the record, and starts a new segment if and only if the active one is not empty and its length plus the record's wire size exceeds the threshold; a missing codec changes no record; in every disk state of the run no segment outgrows both the threshold and its first write (without compression), and none was sealed while the write at hand had room |
| `Logs.Log.AppendBatch` | crates/kafko/src/log.rs:209-255 | assigns contiguous offsets and extends the history by the batch, in one write to the active file or, if and only if that is not empty and the batch's wire size would exceed the threshold, to a new one, so no segment starts inside it; an empty batch does nothing; both size laws are kept |
| `Logs.Log.RotateActiveSegment` | crates/kafko/src/log.rs:349-363 | passes through exactly four disk states: `.log` synced, `.index` synced and the segment sealed, new `.log` created, its `.index` created; everything so far is durable before the new segment exists |
| `Logs.Log.StartSegment` | crates/kafko/src/log.rs:355-361 | the new `.log` is on disk before its `.index` |
| `Logs.Log.Sync` | crates/kafko/src/log.rs:299-307 | syncing only the active segment makes every record of every segment durable |
| `Logs.Log.FindSegmentIndex` | crates/kafko/src/log.rs:380-389 | finds the segment that would hold the offset |
| `Logs.Log.ReadRecordAt` | crates/kafko/src/log.rs:260-294 | returns the o-th record ever appended when o is retained and assigned, None otherwise, and never an error |
| `Logs.Log.ApplyRetention` | crates/kafko/src/log.rs:311-337 | deletes the maximal aged prefix of sealed segments and the fewest further ones the byte cap asks for, never the active one |
| `Logs.Log.DeleteAged` | crates/kafko/src/log.rs:315-327 | deletes exactly the longest run of oldest sealed segments older than the cutoff |
| `Logs.Log.DeleteOverCap` | crates/kafko/src/log.rs:329-334 | deletes only while over the cap, and ends under it or with one segment |
| `Logs.Log.DeleteOldestSegment` | crates/kafko/src/log.rs:365-378 | removes the first segment and keeps the log valid |
| `Logs.Log.Open` | crates/kafko/src/log.rs:108-141 | succeeds exactly when reopening is specified to, with the specified disk image, records and durable mark; the result is a valid log, ready for a crash if its files or an empty directory allow it; every step of the recovery is recorded |
| `Logs.ReopenAfterCrash` | crates/kafko/src/log.rs:108-141 | from any disk state of any run and any crash, opening succeeds with a prefix of that state's history that covers its durable mark, keeps that mark, and is ready for the next crash |
| `Logs.ReopenCleanly` | crates/kafko/src/log.rs:108-141 | closing any valid log and opening it keeps history, first and next offset, durable mark, size bounds and readiness for a crash |
| `Logs.ReopenSynced` | crates/kafko/src/partition.rs:346-351 | once a log is synced to its end, as its writer leaves it, no crash loses a record |
| `Logs.OpenArbitraryActive` | crates/kafko/src/log.rs:108-141 | with arbitrary bytes in the active segment the open succeeds exactly when they recover, and every offset then reads back: the sealed records, then the records found |
| `Logs.DecodeForward` | crates/kafko/src/log.rs:280-293 | the forward decode returns the record that many frames ahead |
| `Partitions.AppendRunIsOneBatch` | crates/kafko/src/partition.rs:407-444 | records sent one by one and records sent as one batch give the same log and the same answers |
| `Partitions.BatchIsAtomic` | crates/kafko/src/partition.rs:447-465 | among commands alone, a read before an AppendBatch sees none of its records, a read after it all of them, at contiguous offsets |
| `Partitions.BatchesAreWhole` | crates/kafko/src/partition.rs:447-465 | with retention sweeps anywhere, at the moment of every answer a reader sees each explicit batch whole or not at all |
| `Partitions.NewBatchIsOk` | crates/kafko/src/log.rs:209-255 | no segment starts inside a batch that was just written |
| `Partitions.SweepKeepsBatches` | crates/kafko/src/log.rs:311-337 | a sweep takes whole segments, so it does not split a batch |
| `Partitions.HistoryOnlyGrows` | crates/kafko/src/partition.rs:467-503 | no command removes or changes a record or an earlier answer |
| `Partitions.RetentionOnlyHides` | crates/kafko/src/partition.rs:340-342 | on a log that retention has shortened, every command leaves the same records and gives the same answer, except that a read may find nothing |
| `Partitions.SweepsServe` | crates/kafko/src/partition.rs:320-344 | commands served after sweeps continue the run as if one at a time, except for missed reads |
| `Partitions.UncompressedInboxAcceptable` | crates/kafko/src/partition.rs:387-401 | without compression, size limits on the inbox alone cover every batch that may be formed |
| `Partitions.PartitionWriter.FlushAppendBatch` | crates/kafko/src/partition.rs:407-444 | one write for many appends: log and answers as one at a time, each offset answered only after the mark has passed it |
| `Partitions.PartitionWriter.FlushExplicitBatch` | crates/kafko/src/partition.rs:447-465 | the same for an explicit batch |
| `Partitions.PartitionWriter.HandleSingleCommand` | crates/kafko/src/partition.rs:467-503 | each command acts on the log as specified and is answered after the mark is published |
| `Partitions.PartitionWriter.HandleAppend` | crates/kafko/src/partition.rs:474-484 | a lone append is written, published and answered as specified |
| `Partitions.PartitionWriter.DrainAppends` | crates/kafko/src/partition.rs:381-401 | takes, in order, the appends that are ready, up to the first other command; it stops earlier only at a batch limit |
| `Partitions.PartitionWriter.ProcessWithBatching` | crates/kafko/src/partition.rs:364-404 | log and answers equal processing the taken commands one at a time; the batch is as long as what is ready and the limits allow; a sync is acknowledged only when the log is durable up to the mark sent |
| `Partitions.PartitionWriter.RetentionTick` | crates/kafko/src/partition.rs:340-342 | a sweep deletes exactly what the age and byte limits ask for at that time, and changes no record |
| `Partitions.SyncedAnswerStaysDurable` | crates/kafko/src/partition.rs:492-495 | from the moment a sync is acknowledged on, every disk state is durable up to the mark sent with the answer |
| `Partitions.CrashAfterSynced` | crates/kafko/src/partition.rs:492-495 | after any crash from that moment on, the reopened log has every record below that mark |
| `Partitions.PartitionWriter.ServeNext` | crates/kafko/src/partition.rs:322-332 | one turn of the loop continues the run with the commands it took |
| `Partitions.PartitionWriter.Tick` | crates/kafko/src/partition.rs:340-342 | a tick continues the run with one more sweep |
| `Partitions.PartitionWriter.WriterLoop` | crates/kafko/src/partition.rs:304-358 | for every inbox, batching and sweep schedule: the history and the answers are those of one command at a time, except that a read may miss a record retention has taken, and not even that without retention; each read answers from the log of its moment, and these moments only move forward, so a record missed because retention took it stays missed; the marks sent with the answers never decrease and never exceed the next offset; every explicit batch is seen whole or not at all; every sweep deletes exactly what retention asks for; every acknowledged sync was durable up to its mark; at exit every acknowledged record is synced |
| `Partitions.PartitionWriter.ServeInbox` | crates/kafko/src/partition.rs:320-344 | the same for the loop before the exit |
| `Partitions.PartitionWriter.SyncOnExit` | crates/kafko/src/partition.rs:346-351 | the final sync covers every segment and changes no record or answer |
| `Wakeups.NoRunLosesAWakeup` | crates/kafko/src/topic.rs:24-61 | in every state of every run, a sleeping un-notified consumer has nothing to read, except at a partition whose writer has its signal still to run and can only load a positive counter |
| `Wakeups.AnswerMeans` | crates/kafko/src/partition.rs:488-491 | a live question is answered by whether first <= offset < next when it is processed; a stale one changes no consumer |
| `Wakeups.AnswerIsTheLogs` | crates/kafko/src/partition.rs:488-491 | which is whether the partition's log has a record to read at that offset |
| `Wakeups.ReceivedWasThere` | crates/kafko/src/consumer.rs:223-239 | in every run, a record is received only if the partition held it at that offset when it processed the question, and the cursor moves on by one |
| `Wakeups.SleepsOnlyIfAllWereEmpty` | crates/kafko/src/consumer.rs:188-218 | in every run, a consumer marks itself or goes to sleep only after each partition, when it processed the question, had nothing at the cursor |
| `Wakeups.NothingSentIsLost` | crates/kafko/src/partition.rs:407-432 | in every run, what a partition has and what is on its way to it is what was sent to it |
| `Wakeups.CursorMoves` | crates/kafko/src/consumer.rs:231-235 | a cursor moves only by receiving, and then by one, or by a seek |
| `Wakeups.NobodyIsStuck` | crates/kafko/src/consumer.rs:188-218 | in every run, a consumer can go on unless it sleeps un-notified, and an owed signal can run with any value it may still load |
| `Wakeups.EveryStepCounts` | crates/kafko/src/consumer.rs:188-218 | each step of a consumer that is no delivery, failure or new round brings it closer to sleep, and at most 6 n + 8 of them are left for n partitions |
| `Wakeups.OwesOnlyForCommands` | crates/kafko/src/partition.rs:322-338 | in every run, a writer owes a signal only for a command processed since its last one |
| `Wakeups.NotifiedOnlyBySignals` | crates/kafko/src/topic.rs:39-43 | in every run, a consumer is notified only by a signal that ran while it was registered and saw a positive counter |
| `Wakeups.CounterMovesWithMarks` | crates/kafko/src/topic.rs:47-54 | the counter goes up by one when a consumer gets its mark, down by one when it gives it back, and not otherwise |
| `Wakeups.FirstMoves` | crates/kafko/src/log.rs:365-378 | a writer's first offset moves only by retention |
| `Wakeups.EmptyAnswerIsNoted` | crates/kafko/src/consumer.rs:225-237 | a partition that answered "nothing there" is not asked again in the same pass |
| `Wakeups.PendingSignalWakes` | crates/kafko/src/topic.rs:39-43 | whatever value that pending signal loads, it notifies the sleeper |
| `Wakeups.InvKept` | crates/kafko/src/consumer.rs:188-218 | every step of every writer and consumer keeps the invariant |
| `Wakeups.CountsKept` | crates/kafko/src/topic.rs:47-54 | every value the counter ever held from a consumer's mark on counts that consumer |
| `Wakeups.CoveredKeptByWriter` | crates/kafko/src/partition.rs:320-339 | a writer that answered "nothing there" has seen the asker's mark, and owes a signal once it has something |
| `Wakeups.UnmarkNeverUnderflows` | crates/kafko/src/topic.rs:52-54 | the counter is positive whenever a consumer deregisters |
| `Consumers.ScanIsDeterministic` | crates/kafko/src/consumer.rs:223-239 | cursors and answers decide the outcome of a scan |
| `Consumers.DeliveriesAreTheLog` | crates/kafko/src/consumer.rs:223-239 | in every run without seeks, what is delivered from a partition is exactly its log from the first cursor to the last, in order, each record once |
| `Consumers.ReadyPartitionComesCloser` | crates/kafko/src/consumer.rs:225-235 | serving another partition strictly decreases the distance to a ready one; an error changes nothing |
| `Consumers.ReadyPartitionIsServed` | crates/kafko/src/consumer.rs:223-239 | a partition ready at every scan is served within n successful scans |
| `Consumers.DeliveredIffInTheLog` | crates/kafko/src/consumer.rs:223-239 | below its cursor a consumer was given an offset's record and nothing else |
| `Consumers.NothingSkippedIffLogsAgree` | crates/kafko/src/consumer.rs:68-78 | resuming skips a record exactly when the log holds, below the cursor resumed at, a record other than the one delivered with that offset |
| `Consumers.CommitIsSafeIffSynced` | crates/kafko/src/consumer.rs:127-137 | through every continuation of the run, no crash and no append after it makes a group skip a record if and only if the records below the committed cursor are synced when it commits |
| `Consumers.SyncedThroughRun` | crates/kafko/src/log.rs:172-255 | what is synced at a commit is synced at every later moment of the run |
| `Consumers.RecoveredAgrees` | crates/kafko/src/consumer.rs:68-78 | a recovery that reaches the committed cursor skips nothing, whatever is appended later |
| `Consumers.ResumingSkipsNothing` | crates/kafko/src/consumer.rs:68-86 | a group that resumes over a log that agrees with what it was given has been given every record from its start to its present cursor |
| `Consumers.ReplacedRecordIsSkipped` | crates/kafko/src/consumer.rs:127-137 | after any recovery that ends below the committed cursor, there are records to append, as acceptable as the lost one, of which one is skipped |
| `Consumers.Consumer.TryTakeNext` | crates/kafko/src/consumer.rs:223-239 | one scan in rotation order: the first partition that answers is served or its error returned; None only if all are quiet |
| `Consumers.Consumer.NextWithPosition` | crates/kafko/src/consumer.rs:188-218 | returns the first record or error to turn up, all scans before it having found every partition quiet, with the parked counter balanced |
| `Consumers.Consumer.FromTopicWithGroup` | crates/kafko/src/consumer.rs:68-86 | each cursor starts exactly at the committed offset, or at the high-water mark if that is lower |
| `Consumers.ResumeAfterCommit` | crates/kafko/src/consumer.rs:68-86 | so does a consumer built from whatever a crash left of the offset file after a commit |
| `Consumers.ResumingContinues` | crates/kafko/src/consumer.rs:68-86 | while the log only grows, a group goes on exactly where it committed, and both runs together deliver one stretch of the log, each record once |
| `Consumers.ViewAnswers` | crates/kafko/src/partition.rs:173-190 | a partition answers with the record of a retained and assigned offset, with nothing otherwise, and with an error when its writer is gone |
| `Consumers.SuccessesMoveCursors` | crates/kafko/src/consumer.rs:231-235 | the cursors together have moved by the number of successful scans |
| `Consumers.Consumer.Commit` | crates/kafko/src/consumer.rs:127-137 | a crash at any step of a commit resumes at the old commit or at the cursors |
| `Consumers.Consumer.Seek` | crates/kafko/src/consumer.rs:148-152 | moves one cursor, ignoring unknown partitions |
| `Consumers.Consumer.SeekAll` | crates/kafko/src/consumer.rs:140-144 | moves every cursor |
| `Producers.SlotOf` | crates/kafko/src/producer.rs:147-153 | each record is in its partition's bucket, behind exactly the earlier records of that partition |
| `Producers.PositionHoldsTheRecord` | crates/kafko/src/producer.rs:155-170 | the position returned for a record is where it can be read |
| `Producers.PositionsFollowInput` | crates/kafko/src/producer.rs:140-171 | positions are pairwise distinct and follow input order within a partition |
| `Producers.KeyOrderIsKept` | crates/kafko/src/producer.rs:124-129 | records of one key share a partition and keep their order, whatever other producers do |
| `Producers.EvenUnlessLopsidedWrap` | crates/kafko/src/topic.rs:197-200 | exactly when consecutive tickets are spread with counts differing by at most one |
| `Producers.KeylessSpreadIsEvenIff` | crates/kafko/src/topic.rs:197-200 | the same for the keyless records of a batch of a single producer |
| `Producers.WrapSendsTwiceToOne` | crates/kafko/src/topic.rs:197-200 | two keyless records around the wrap go to the same of three partitions |
| `Producers.Topic.Route` | crates/kafko/src/producer.rs:124-129 | a key decides the partition; without one the counter does, and advances, wrapping |
| `Producers.RouteIs` | crates/kafko/src/topic.rs:197-200 | the partition is the key's hash or the ticket modulo the partition count, the counter wraps at 64 bits, and two keys meet exactly when their hashes agree modulo the count |
| `Producers.MetHoldsArrivals` | crates/kafko/src/producer.rs:161-165 | what others append before the batch arrives is in the log it meets |
| `Producers.Topic.FillBuckets` | crates/kafko/src/producer.rs:144-153 | the buckets hold the records of each partition in input order, under any interleaving of other producers |
| `Producers.Topic.Scatter` | crates/kafko/src/producer.rs:160-168 | writes each offset of a bucket to its record's input place and no other |
| `Producers.Topic.AppendBatchRouted` | crates/kafko/src/producer.rs:140-171 | every position returned holds its record; on failure the partitions before the failing one hold all their records of the batch, the others none |
| `OffsetStores.Encode` | crates/kafko/src/offset_store.rs:98-110 | builds the file of a vector |
| `OffsetStores.Decode` | crates/kafko/src/offset_store.rs:115-139 | is total on arbitrary bytes and equals its specification |
| `OffsetStores.CommitRoundTrip` | crates/kafko/src/offset_store.rs:98-139 | decoding a commit gives back its vector, cut or padded to the partition count |
| `OffsetStores.TruncatedCommitIsNoCommit` | crates/kafko/src/offset_store.rs:115-128 | a commit file cut anywhere means all zeros, even if the checksum matches |
| `OffsetStores.CorruptedCommitIsNoCommit` | crates/kafko/src/offset_store.rs:120-124 | a file whose checksum does not match means all zeros, whatever else is in it |
| `OffsetStores.EntryTakesEffect` | crates/kafko/src/offset_store.rs:129-137 | an entry for an unknown partition is ignored, and a later entry for a partition counts |
| `OffsetStores.UnsyncedRenameLosesBoth` | crates/kafko/src/offset_store.rs:75-79 | renaming without the sync could lose the old vector and the new one |
| `OffsetStores.OffsetStore.Open` | crates/kafko/src/offset_store.rs:33-57 | loads what the file means, a missing or damaged one being no commit |
| `OffsetStores.OffsetStore.Commit` | crates/kafko/src/offset_store.rs:72-82 | creates, writes, syncs and renames the temporary file, in that order; after any of these steps a crash reopens to the old vector or the new one |
| `OffsetStores.OffsetStore.Perform` | crates/kafko/src/offset_store.rs:75-79 | a file operation and the disk state it leads to |

## Left out

- The internals of CRC-32, LZ4, zstd and FNV-1a: parameters here. `Lawful` asks only that the checksum is a u32 and that the codecs round-trip.
- I/O that fails half-way: writes succeed or have no effect, and reads fill their buffer. The code does not restore its state after a partial write or a failed index write.
- Sizes beyond the format: frames and values whose length does not fit in u32 (`Appendable`), which the code truncates, and index entries that do not fit in u32 (`Acceptable` for appends, `Replayable` for opens), on which it panics. Files longer than 4 GiB whose index entries fit are covered.
- Offsets and cursors are unbounded: an overflow of a u64 offset is not modelled. The round-robin counter does wrap.
- Directory entries are taken as durable, file names are not parsed, and segment files are given in offset order. An index file whose log file is gone is not part of a disk state, because opening does not look at it.
- The clock and file times are inputs; they are integers, without i64 saturation.
- The test-only commands `Poison` and `FailNextAppend`, the panic supervisor, and panicking writers.
- The broker registry, its directory lock, and shutdown of topics with outstanding handles: durability is stated for a log and a writer task.
- Topic discovery, creation and deletion, group-name checks, single sends to an explicit partition, and the HTTP and bench crates: they would only add easy members.
- A writer that exits while consumers wait: the wakeup model has no closed partitions, so it does not cover the final signal.
- That a caught-up consumer stays asleep: a re-scan makes the writer signal, so it may wake its own consumer.
- Progress of a consumer whose cursor is below the retained range: reads there answer None, and the model claims order and correctness only.
- Equality of the parked counter with the number of waiting consumers: a cancelled wait never gives its mark back, so the model proves "at least".
- Groups whose names collide with another group's temporary file.
- Logs.Log.Open: the active segment may hold any bytes that recover to the expected records, but sealed segments and their index files must be what the log wrote; the code trusts them unchecked.
- Consumers.Consumer.NextWithPosition: the wakeups are a given sequence of rounds; that they come is the subject of `Wakeups`.
- Wakeups.InvKept: partitions are asked in any order rather than in rotation order, which covers more runs than the code has.
- Producers.Topic.AppendBatchRouted: commands of other producers run before this batch's append on each partition; those after it only extend the log.
