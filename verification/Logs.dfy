/**
 The segmented log of one partition.

 The ghost fields say what the log is: `history`, every record taken since `origin`;
 `image`, the files as they are; `durable`, the offset below which a crash loses nothing;
 `trace`, the disk as it was after every file operation so far, the last entry being the disk
 now; and `writes`, the buffers written to log files. `Valid` ties the segments and indexes to
 them, and keeps neighbours in the trace one operation apart and every entry recoverable.
 */
module Logs {
  import opened ByteStrings
  import opened Compressions
  import opened DiskImages
  import opened Framing
  import opened Records
  import opened Recovery
  import opened Searching
  import opened Segments
  import opened SparseIndexes

  datatype LogConfig = LogConfig(
    segmentSizeThreshold: nat,
    indexInterval: nat,
    maxSegmentAge: Option<nat>,
    maxPartitionBytes: Option<nat>,
    batchMaxRecords: nat,
    batchMaxBytes: nat,
    compression: Compression)

  datatype IndexedSegment = IndexedSegment(segment: Segment, index: SparseIndex)

  function WireTotal(rs: seq<Record>): (n: nat) {
    if rs == [] then 0 else WireTotal(rs[..|rs| - 1]) + WireSize(rs[|rs| - 1])
  }

  // What the source needs of a batch to acknowledge it and read it back: every record
  // encodes within its limits, and the segment it lands in stays within 4 GiB.
  ghost predicate Acceptable(b: Build, cfg: LogConfig, rs: seq<Record>) {
    Available(b, cfg.compression) ==>
      && (forall i :: 0 <= i < |rs| ==> Appendable(b, cfg.compression, rs[i]))
      && |EncodeAll(b, cfg.compression, rs)| <= TWO_32
      && cfg.segmentSizeThreshold + |EncodeAll(b, cfg.compression, rs)| - WireTotal(rs) <= TWO_32
  }

  lemma {:induction false} UncompressedSizeIsWireSize(b: Build, rs: seq<Record>)
    ensures |EncodeAll(b, NoCompression, rs)| == WireTotal(rs)
  {
    if rs != [] {
      UncompressedSizeIsWireSize(b, rs[..|rs| - 1]);
    }
  }

  /** Without compression the size conditions are the documented ones: threshold and batch within 4 GiB. */
  lemma UncompressedAcceptable(b: Build, cfg: LogConfig, rs: seq<Record>)
    requires cfg.compression.NoCompression?
    requires cfg.segmentSizeThreshold <= TWO_32 && WireTotal(rs) <= TWO_32
    requires forall i :: 0 <= i < |rs| ==> WireSize(rs[i]) - 4 < TWO_32
    ensures Acceptable(b, cfg, rs)
  {
    UncompressedSizeIsWireSize(b, rs);
  }

  function Consecutive(from: nat, n: nat): (offsets: seq<nat>)
    ensures |offsets| == n
  {
    seq(n, i requires 0 <= i < n => from + i)
  }

  lemma EncodeNothing(b: Build, c: Compression)
    ensures Available(b, c) ==> EncodeAll(b, c, []) == []
  {
  }

  /** Encodes a batch into one buffer, remembering each record's size and offset. */
  method EncodeBatch(b: Build, c: Compression, records: seq<Record>, nextOffset: nat)
    returns (offsets: Result<seq<nat>>, buf: Bytes, sizes: seq<nat>)
    requires Lawful(b)
    ensures offsets.Ok? <==> records == [] || Available(b, c)
    ensures offsets.Ok? ==> offsets.value == Consecutive(nextOffset, |records|)
    ensures offsets.Err? ==> offsets.error == CompressionUnavailable(c)
    ensures Available(b, c) ==>
              && buf == EncodeAll(b, c, records) && |sizes| == |records|
              && forall i :: 0 <= i < |records| ==> sizes[i] == |Encode(b, c, records[i]).value|
  {
    hide Encode, Lawful, EncodeAll;
    EncodeNothing(b, c);
    buf, sizes := [], [];
    var current, given := nextOffset, [];
    for i := 0 to |records|
      invariant current == nextOffset + i && given == Consecutive(nextOffset, i)
      invariant i > 0 ==> Available(b, c)
      invariant |sizes| == i
      invariant Available(b, c) ==>
                  && buf == EncodeAll(b, c, records[..i])
                  && forall j :: 0 <= j < i ==> sizes[j] == |Encode(b, c, records[j]).value|
    {
      given := given + [current];
      current := current + 1;
      var written: Result<nat>;
      buf, written := EncodeWith(b, buf, c, records[i]);
      if written.Err? {
        return Err(written.error), buf, sizes;
      }
      assert records[..i + 1] == records[..i] + [records[i]];
      EncodeAllSnoc(b, c, records[..i], records[i]);
      sizes := sizes + [written.value];
    }
    assert records[..|records|] == records;
    offsets := Ok(given);
  }

  lemma BatchOfOne(b: Build, c: Compression, r: Record)
    ensures WireTotal([r]) == WireSize(r)
    ensures Available(b, c) ==> EncodeAll(b, c, [r]) == Encode(b, c, r).value
  {
    hide Encode;
    assert [r][..0] == [];
    if Available(b, c) {
      EncodeAllSnoc(b, c, [], r);
      assert [] + [r] == [r];
    }
  }

  /** What an encoded batch becomes behind the bytes already in the active file. */
  lemma BatchLands(b: Build, cfg: LogConfig, data: Bytes, records: seq<Record>)
    requires Lawful(b) && Available(b, cfg.compression) && Acceptable(b, cfg, records) && Clean(b, data)
    requires !WouldOverflow(|data|, WireTotal(records), cfg.segmentSizeThreshold)
    ensures var buf := EncodeAll(b, cfg.compression, records);
            && Clean(b, buf) && Solid(b, buf) && RecordsOf(Items(b, buf)) == records
            && IndexFits(b, cfg.indexInterval, data + buf)
            && Start(Items(b, data) + Items(b, buf), |Items(b, data)|) == |data|
            && forall i :: 0 <= i < |records| ==>
                 (Items(b, data) + Items(b, buf))[|Items(b, data)| + i].size
                 == |Encode(b, cfg.compression, records[i]).value|
  {
    hide Encode, EncodeAll, Parse, Decode, Solid, IndexFits, Lawful, WireTotal;
    var buf := EncodeAll(b, cfg.compression, records);
    EncodedRunIsSolid(b, cfg.compression, records);
    ParseAccounts(b, data);
    AppendedDataFits(b, cfg.indexInterval, data, buf);
    assert (Items(b, data) + Items(b, buf))[..|Items(b, data)|] == Items(b, data);
  }

  // Where an append of `bytes`, announced as `wire` bytes, lands: at the end of the active file if
  // that is empty or has room, else in a new one; no other file changes.
  ghost predicate Landed(before: seq<DiskSegment>, after: seq<DiskSegment>, bytes: Bytes, wire: nat, threshold: nat)
    requires |before| > 0
  {
    var n := |before| - 1;
    if |before[n].data| == 0 || |before[n].data| + wire <= threshold then
      && |after| == n + 1 && after[n].data == before[n].data + bytes
      && forall i :: 0 <= i < n ==> after[i].data == before[i].data
    else
      && |after| == n + 2 && after[n + 1].data == bytes
      && forall i :: 0 <= i <= n ==> after[i].data == before[i].data
  }

  // A rotation is recorded when, and only when, the announced write has no room in the last file.
  function RotatedFor(before: seq<DiskSegment>, rotations: seq<Rotation>, wire: nat, threshold: nat, next: nat)
    : (more: seq<Rotation>)
    requires |before| > 0
  {
    if |before[|before| - 1].data| == 0 || |before[|before| - 1].data| + wire <= threshold then rotations
    else rotations + [Rotation(next, wire)]
  }

  // One write more: to the old last file, or as the first to a new one.
  ghost predicate MadeOneWrite(before: seq<DiskSegment>, after: seq<DiskSegment>, writes: seq<WriteMade>,
                               more: seq<WriteMade>, bytes: Bytes)
    requires |before| > 0
  {
    && |before| <= |after|
    && var last := after[|after| - 1];
       more == writes + [if |after| == |before| then WriteTo(before, bytes) else WriteMade(last.base, true, bytes)]
  }

  // Segments keep their bases, and a new one starts at `next`.
  ghost predicate BasesKept(before: seq<DiskSegment>, after: seq<DiskSegment>, next: nat) {
    && |before| <= |after|
    && (forall i :: 0 <= i < |before| ==> after[i].base == before[i].base)
    && (forall i :: |before| <= i < |after| ==> after[i].base == next)
  }

  // ---------------------------------------------------------------- segment sizes

  // A buffer written to the log file with that base, and whether the file was empty before.
  datatype WriteMade = WriteMade(base: nat, first: bool, bytes: Bytes)

  // Within the threshold, or what is left of the segment's own first write.
  ghost predicate WithinOrFirst(threshold: nat, writes: seq<WriteMade>, s: DiskSegment) {
    || |s.data| <= threshold
    || exists k :: 0 <= k < |writes| && writes[k].first && writes[k].base == s.base && s.data <= writes[k].bytes
  }

  ghost predicate ImageSized(threshold: nat, writes: seq<WriteMade>, image: seq<DiskSegment>) {
    forall i :: 0 <= i < |image| ==> WithinOrFirst(threshold, writes, image[i])
  }

  ghost predicate TraceSized(threshold: nat, writes: seq<WriteMade>, trace: seq<Snapshot>) {
    forall t :: 0 <= t < |trace| ==> ImageSized(threshold, writes, trace[t].image)
  }

  lemma SizedPrefix(threshold: nat, writes: seq<WriteMade>, s: DiskSegment, short: DiskSegment)
    requires WithinOrFirst(threshold, writes, s) && short.base == s.base && short.data <= s.data
    ensures WithinOrFirst(threshold, writes, short)
  {
    if |s.data| > threshold {
      var k :| 0 <= k < |writes| && writes[k].first && writes[k].base == s.base && s.data <= writes[k].bytes;
      assert short.data <= writes[k].bytes;
    }
  }

  lemma ShorterIsSized(threshold: nat, writes: seq<WriteMade>, image: seq<DiskSegment>, shorter: seq<DiskSegment>)
    requires ImageSized(threshold, writes, image) && |shorter| == |image|
    requires forall i :: 0 <= i < |image| ==> shorter[i].base == image[i].base && shorter[i].data <= image[i].data
    ensures ImageSized(threshold, writes, shorter)
  {
    hide WithinOrFirst;
    forall i | 0 <= i < |shorter|
      ensures WithinOrFirst(threshold, writes, shorter[i])
    {
      SizedPrefix(threshold, writes, image[i], shorter[i]);
    }
  }

  /** Only a write can make a segment outgrow the threshold. */
  lemma SizedAfterOp(threshold: nat, writes: seq<WriteMade>, image: seq<DiskSegment>, op: FileOp)
    requires ImageSized(threshold, writes, image) && !op.Write?
    ensures ImageSized(threshold, writes, AfterOp(image, op))
  {
    var next := AfterOp(image, op);
    forall i | 0 <= i < |next|
      ensures WithinOrFirst(threshold, writes, next[i])
    {
      if op.CreateLog? {
        assert i < |image| ==> next[i] == image[i];
      } else if op.RemoveOldest? {
        assert next[i] == image[i + 1];
      } else {
        SizedPrefix(threshold, writes, image[i], next[i]);
      }
    }
  }

  // The record kept of a write to the active log file.
  function WriteTo(image: seq<DiskSegment>, bytes: Bytes): (w: WriteMade)
    requires image != []
  {
    WriteMade(image[|image| - 1].base, image[|image| - 1].data == [], bytes)
  }

  /** And a write that has room, or is the segment's first, does not make it outgrow both. */
  lemma SizedAfterWrite(threshold: nat, writes: seq<WriteMade>, image: seq<DiskSegment>, bytes: Bytes)
    requires ImageSized(threshold, writes, image) && image != []
    requires var data := image[|image| - 1].data; data == [] || |data| + |bytes| <= threshold
    ensures ImageSized(threshold, writes + [WriteTo(image, bytes)], AfterOp(image, Write(bytes)))
  {
    var next, w := AfterOp(image, Write(bytes)), WriteTo(image, bytes);
    MoreWrites(threshold, writes, w, image);
    forall i | 0 <= i < |next|
      ensures WithinOrFirst(threshold, writes + [w], next[i])
    {
      if i == |image| - 1 {
        assert image[i].data == [] ==> next[i].data == bytes && (writes + [w])[|writes|] == w;
      } else {
        assert next[i] == image[i];
      }
    }
  }

  lemma MoreWrites(threshold: nat, writes: seq<WriteMade>, w: WriteMade, image: seq<DiskSegment>)
    requires ImageSized(threshold, writes, image)
    ensures ImageSized(threshold, writes + [w], image)
  {
    forall i | 0 <= i < |image|
      ensures WithinOrFirst(threshold, writes + [w], image[i])
    {
      var s := image[i];
      if |s.data| > threshold {
        assert WithinOrFirst(threshold, writes, s);
        var k :| 0 <= k < |writes| && writes[k].first && writes[k].base == s.base && s.data <= writes[k].bytes;
        assert (writes + [w])[k] == writes[k];
      }
    }
  }

  // ---------------------------------------------------------------- segments are filled

  // A rotation, to a segment with that base, for a write announced with that size.
  datatype Rotation = Rotation(base: nat, announced: nat)

  // The segment was not empty and the write that `next` was opened for did not fit into it.
  ghost predicate Filled(threshold: nat, rotations: seq<Rotation>, s: DiskSegment, next: DiskSegment) {
    exists k :: 0 <= k < |rotations| && rotations[k].base == next.base
                && 0 < |s.data| && threshold < |s.data| + rotations[k].announced
  }

  ghost predicate ImageFilled(threshold: nat, rotations: seq<Rotation>, image: seq<DiskSegment>) {
    forall i :: 0 <= i < |image| - 1 ==> Filled(threshold, rotations, image[i], image[i + 1])
  }

  ghost predicate TraceFilled(threshold: nat, rotations: seq<Rotation>, trace: seq<Snapshot>) {
    forall t :: 0 <= t < |trace| ==> ImageFilled(threshold, rotations, trace[t].image)
  }

  lemma SameIsFilled(threshold: nat, rotations: seq<Rotation>, image: seq<DiskSegment>, other: seq<DiskSegment>)
    requires ImageFilled(threshold, rotations, image) && |other| == |image|
    requires forall i :: 0 <= i < |image| ==> other[i].base == image[i].base
    requires forall i :: 0 <= i < |image| - 1 ==> other[i].data == image[i].data
    ensures ImageFilled(threshold, rotations, other)
  {
    forall i | 0 <= i < |other| - 1
      ensures Filled(threshold, rotations, other[i], other[i + 1])
    {
      assert Filled(threshold, rotations, image[i], image[i + 1]);
    }
  }

  /** Only the creation of a log file can leave a segment unfilled behind it. */
  lemma FilledAfterOp(threshold: nat, rotations: seq<Rotation>, image: seq<DiskSegment>, op: FileOp)
    requires ImageFilled(threshold, rotations, image) && !op.CreateLog?
    ensures ImageFilled(threshold, rotations, AfterOp(image, op))
  {
    var next := AfterOp(image, op);
    if op.RemoveOldest? {
      forall i | 0 <= i < |next| - 1
        ensures Filled(threshold, rotations, next[i], next[i + 1])
      {
        assert Filled(threshold, rotations, image[i + 1], image[i + 2]);
      }
    } else {
      SameIsFilled(threshold, rotations, image, next);
    }
  }

  /** And it does not when the write at hand had no room. */
  lemma FilledAfterRotation(threshold: nat, rotations: seq<Rotation>, image: seq<DiskSegment>, base: nat, wire: nat)
    requires ImageFilled(threshold, rotations, image) && image != []
    requires 0 < |image[|image| - 1].data| && threshold < |image[|image| - 1].data| + wire
    ensures ImageFilled(threshold, rotations + [Rotation(base, wire)], AfterOp(image, CreateLog(base)))
  {
    var next, more := AfterOp(image, CreateLog(base)), rotations + [Rotation(base, wire)];
    MoreRotations(threshold, rotations, Rotation(base, wire), image);
    forall i | 0 <= i < |next| - 1
      ensures Filled(threshold, more, next[i], next[i + 1])
    {
      if i < |image| - 1 {
        assert Filled(threshold, more, image[i], image[i + 1]);
      } else {
        assert more[|rotations|] == Rotation(base, wire);
      }
    }
  }

  lemma MoreRotations(threshold: nat, rotations: seq<Rotation>, r: Rotation, image: seq<DiskSegment>)
    requires ImageFilled(threshold, rotations, image)
    ensures ImageFilled(threshold, rotations + [r], image)
  {
    forall i | 0 <= i < |image| - 1
      ensures Filled(threshold, rotations + [r], image[i], image[i + 1])
    {
      assert Filled(threshold, rotations, image[i], image[i + 1]);
      var k :| 0 <= k < |rotations| && rotations[k].base == image[i + 1].base
               && 0 < |image[i].data| && threshold < |image[i].data| + rotations[k].announced;
      assert (rotations + [r])[k] == rotations[k];
    }
  }

  // The objects of one segment and its files agree.
  ghost predicate Mirrors(interval: nat, p: IndexedSegment, s: DiskSegment)
    reads p.segment, p.index
  {
    && p.segment.Valid()
    && p.segment.baseOffset == s.base == p.index.baseOffset
    && p.index.interval == interval
    && p.segment.file.data == s.data && p.segment.file.synced == s.synced
    && s.index == Some(p.index.file) && s.indexSynced == p.index.synced
  }

  // Every disk state in the trace is good, and each is one file operation after the one before.
  ghost predicate TraceOk(b: Build, interval: nat, origin: nat, trace: seq<Snapshot>) {
    && (forall i :: 0 <= i < |trace| ==> ImageOk(b, interval, origin, trace[i]))
    && (forall i :: 0 < i < |trace| ==> Follows(trace[i - 1], trace[i]))
  }

  ghost predicate TraceSolid(b: Build, trace: seq<Snapshot>) {
    forall i :: 0 <= i < |trace| ==> AllSolid(b, trace[i].image)
  }

  lemma TraceGrows(b: Build, interval: nat, origin: nat, trace: seq<Snapshot>, step: Snapshot, op: FileOp)
    requires TraceOk(b, interval, origin, trace) && ImageOk(b, interval, origin, step) && trace != []
    requires var last := trace[|trace| - 1];
             step.image == AfterOp(last.image, op) && last.history <= step.history && last.durable <= step.durable
    ensures TraceOk(b, interval, origin, trace + [step])
    ensures TraceSolid(b, trace) && AllSolid(b, step.image) ==> TraceSolid(b, trace + [step])
  {
    hide ImageOk, AllSolid, AfterOp;
    assert Follows(trace[|trace| - 1], step);
  }

  lemma TraceStaysFilled(threshold: nat, rotations: seq<Rotation>, trace: seq<Snapshot>, step: Snapshot, op: FileOp)
    requires trace != [] && step.image == AfterOp(trace[|trace| - 1].image, op) && !op.CreateLog?
    ensures TraceFilled(threshold, rotations, trace) ==> TraceFilled(threshold, rotations, trace + [step])
  {
    hide ImageFilled, AfterOp;
    if TraceFilled(threshold, rotations, trace) {
      FilledAfterOp(threshold, rotations, trace[|trace| - 1].image, op);
    }
  }

  lemma RotationStaysFilled(threshold: nat, rotations: seq<Rotation>, trace: seq<Snapshot>, bare: Snapshot,
                            step: Snapshot, next: nat, wire: nat)
    requires trace != [] && bare.image == AfterOp(trace[|trace| - 1].image, CreateLog(next))
    requires step.image == AfterOp(bare.image, CreateIndex)
    requires trace[|trace| - 1].image != []
    ensures var image := trace[|trace| - 1].image;
            var full := 0 < |image[|image| - 1].data| && threshold < |image[|image| - 1].data| + wire;
            TraceFilled(threshold, rotations, trace) && full ==>
              TraceFilled(threshold, rotations + [Rotation(next, wire)], trace + [bare] + [step])
  {
    hide ImageFilled, AfterOp;
    var image := trace[|trace| - 1].image;
    if TraceFilled(threshold, rotations, trace)
       && 0 < |image[|image| - 1].data| && threshold < |image[|image| - 1].data| + wire {
      var more := rotations + [Rotation(next, wire)];
      forall t | 0 <= t < |trace|
        ensures ImageFilled(threshold, more, trace[t].image)
      {
        MoreRotations(threshold, rotations, Rotation(next, wire), trace[t].image);
      }
      FilledAfterRotation(threshold, rotations, trace[|trace| - 1].image, next, wire);
      TraceStaysFilled(threshold, more, trace + [bare], step, CreateIndex);
    }
  }

  lemma TraceStaysSized(threshold: nat, writes: seq<WriteMade>, trace: seq<Snapshot>, step: Snapshot, op: FileOp)
    requires trace != [] && step.image == AfterOp(trace[|trace| - 1].image, op) && !op.Write?
    ensures TraceSized(threshold, writes, trace) ==> TraceSized(threshold, writes, trace + [step])
  {
    hide ImageSized, AfterOp;
    if TraceSized(threshold, writes, trace) {
      SizedAfterOp(threshold, writes, trace[|trace| - 1].image, op);
    }
  }

  lemma TraceSizedByWrite(threshold: nat, writes: seq<WriteMade>, trace: seq<Snapshot>, step: Snapshot, bytes: Bytes)
    requires trace != [] && trace[|trace| - 1].image != []
    requires step.image == AfterOp(trace[|trace| - 1].image, Write(bytes))
    requires var data := trace[|trace| - 1].image[|trace[|trace| - 1].image| - 1].data;
             data == [] || |data| + |bytes| <= threshold
    requires TraceSized(threshold, writes, trace)
    ensures TraceSized(threshold, writes + [WriteTo(trace[|trace| - 1].image, bytes)], trace + [step])
  {
    hide ImageSized, AfterOp;
    var w := WriteTo(trace[|trace| - 1].image, bytes);
    forall t | 0 <= t < |trace|
      ensures ImageSized(threshold, writes + [w], trace[t].image)
    {
      MoreWrites(threshold, writes, w, trace[t].image);
    }
    SizedAfterWrite(threshold, writes, trace[|trace| - 1].image, bytes);
  }

  // One more disk state of a run, by an operation other than a write to the log file.
  lemma StepTrace(b: Build, interval: nat, origin: nat, threshold: nat, writes: seq<WriteMade>, trace: seq<Snapshot>,
                  step: Snapshot, op: FileOp)
    requires TraceOk(b, interval, origin, trace) && ImageOk(b, interval, origin, step) && trace != [] && !op.Write?
    requires var last := trace[|trace| - 1];
             step.image == AfterOp(last.image, op) && last.history <= step.history && last.durable <= step.durable
    requires AllSolid(b, trace[|trace| - 1].image) ==> AllSolid(b, step.image)
    ensures TraceOk(b, interval, origin, trace + [step])
    ensures TraceSolid(b, trace) ==> TraceSolid(b, trace + [step])
    ensures TraceSized(threshold, writes, trace) ==> TraceSized(threshold, writes, trace + [step])
  {
    hide ImageOk, AllSolid, TraceOk, TraceSized, AfterOp;
    TraceGrows(b, interval, origin, trace, step, op);
    TraceStaysSized(threshold, writes, trace, step, op);
  }

  lemma SyncLogTrace(b: Build, interval: nat, origin: nat, threshold: nat, writes: seq<WriteMade>,
                     trace: seq<Snapshot>, snap: Snapshot)
    returns (step: Snapshot)
    requires TraceOk(b, interval, origin, trace) && ImageOk(b, interval, origin, snap) && trace != []
    requires trace[|trace| - 1] == snap
    ensures step == Snapshot(AfterOp(snap.image, SyncLog), snap.history, origin + |snap.history|)
    ensures var n := |snap.image| - 1;
            n >= 0 && step.image == snap.image[n := snap.image[n].(synced := |snap.image[n].data|)]
    ensures ImageOk(b, interval, origin, step) && TraceOk(b, interval, origin, trace + [step])
    ensures AllSolid(b, snap.image) ==> AllSolid(b, step.image)
    ensures TraceSolid(b, trace) ==> TraceSolid(b, trace + [step])
    ensures TraceSized(threshold, writes, trace) ==> TraceSized(threshold, writes, trace + [step])
  {
    hide ImageOk, AllSolid, TraceOk, TraceSized, TraceSolid;
    var last := LastOf(b, interval, origin, snap);
    step := TouchKeepsImage(b, interval, origin, snap, |last.data|, last.index, last.indexSynced,
                            origin + |snap.history|);
    StepTrace(b, interval, origin, threshold, writes, trace, step, SyncLog);
  }

  lemma LastOf(b: Build, interval: nat, origin: nat, snap: Snapshot) returns (last: DiskSegment)
    requires ImageOk(b, interval, origin, snap)
    ensures snap.image != [] && last == snap.image[|snap.image| - 1]
    ensures last.synced <= |last.data| && snap.durable <= origin + |snap.history|
  {
    hide Sealed, IndexFits, SegmentItems, Clean;
    last := snap.image[|snap.image| - 1];
    assert Holds(b, interval, origin, snap.history, last);
  }

  // Syncing the active index, or writing to it.
  lemma IndexTrace(b: Build, interval: nat, origin: nat, threshold: nat, writes: seq<WriteMade>, trace: seq<Snapshot>,
                   snap: Snapshot,
                   file: Bytes, indexSynced: nat, op: FileOp)
    returns (step: Snapshot)
    requires TraceOk(b, interval, origin, trace) && ImageOk(b, interval, origin, snap) && trace != []
    requires trace[|trace| - 1] == snap
    requires snap.image != [] && snap.image[|snap.image| - 1].index.Some?
    requires var last := snap.image[|snap.image| - 1];
             || (op == SyncIndex && file == last.index.value && indexSynced == |file|)
             || (op.WriteIndex? && file == last.index.value + op.bytes && indexSynced == last.indexSynced)
    ensures step == snap.(image := AfterOp(snap.image, op))
    ensures var n := |snap.image| - 1;
            step.image == snap.image[n := snap.image[n].(index := Some(file), indexSynced := indexSynced)]
    ensures ImageOk(b, interval, origin, step) && TraceOk(b, interval, origin, trace + [step])
    ensures AllSolid(b, snap.image) ==> AllSolid(b, step.image)
    ensures TraceSolid(b, trace) ==> TraceSolid(b, trace + [step])
    ensures TraceSized(threshold, writes, trace) ==> TraceSized(threshold, writes, trace + [step])
  {
    hide ImageOk, AllSolid, TraceOk, TraceSized, TraceSolid;
    var last := LastOf(b, interval, origin, snap);
    step := TouchKeepsImage(b, interval, origin, snap, last.synced, Some(file), indexSynced, snap.durable);
    StepTrace(b, interval, origin, threshold, writes, trace, step, op);
  }

  lemma WriteTrace(b: Build, interval: nat, origin: nat, threshold: nat, writes: seq<WriteMade>, trace: seq<Snapshot>,
                   snap: Snapshot, bytes: Bytes)
    returns (step: Snapshot)
    requires TraceOk(b, interval, origin, trace) && ImageOk(b, interval, origin, snap) && trace != []
    requires trace[|trace| - 1] == snap
    requires snap.image != [] && Clean(b, bytes) && IndexFits(b, interval, snap.image[|snap.image| - 1].data + bytes)
    ensures step == Snapshot(AfterOp(snap.image, Write(bytes)), snap.history + RecordsOf(Items(b, bytes)), snap.durable)
    ensures var n := |snap.image| - 1; step.image == snap.image[n := snap.image[n].(data := snap.image[n].data + bytes)]
    ensures ImageOk(b, interval, origin, step) && TraceOk(b, interval, origin, trace + [step])
    ensures AllSolid(b, snap.image) && Solid(b, bytes) ==> AllSolid(b, step.image)
    ensures TraceSolid(b, trace) && Solid(b, bytes) ==> TraceSolid(b, trace + [step])
    ensures var room := !WouldOverflow(|snap.image[|snap.image| - 1].data|, |bytes|, threshold);
            TraceSized(threshold, writes, trace) && room ==>
              TraceSized(threshold, writes + [WriteTo(snap.image, bytes)], trace + [step])
  {
    hide ImageOk, AllSolid, TraceOk, TraceSized, Solid, IndexFits, RecordsOf, Items;
    var last := snap.image[|snap.image| - 1];
    step := AppendKeepsImage(b, interval, origin, snap, bytes, last.index, last.indexSynced);
    assert step.image == AfterOp(snap.image, Write(bytes));
    TraceGrows(b, interval, origin, trace, step, Write(bytes));
    if TraceSized(threshold, writes, trace) && !WouldOverflow(|last.data|, |bytes|, threshold) {
      TraceSizedByWrite(threshold, writes, trace, step, bytes);
    }
  }

  class Log {
    const build: Build
    const config: LogConfig
    var segments: seq<IndexedSegment>
    var nextOffset: nat
    var encodeBuf: Bytes
    var actualSizes: seq<nat>

    ghost var repr: set<object>
    ghost var origin: nat
    ghost var history: seq<Record>
    ghost var durable: nat
    ghost var image: seq<DiskSegment>
    ghost var trace: seq<Snapshot>
    ghost var writes: seq<WriteMade>
    ghost var rotations: seq<Rotation>

    ghost predicate Owns()
      reads this
    {
      && this !in repr && |segments| > 0
      && (forall i :: 0 <= i < |segments| ==> segments[i].segment in repr && segments[i].index in repr)
      && (forall i, j :: 0 <= i < j < |segments| ==>
            segments[i].segment != segments[j].segment && segments[i].index != segments[j].index)
    }

    // Everything but the active segment's index and the next offset.
    ghost predicate Core()
      reads this, repr
    {
      && Owns() && Lawful(build)
      && |image| == |segments|
      && (forall i :: 0 <= i < |segments| ==> Mirrors(config.indexInterval, segments[i], image[i]))
      && (forall i :: 0 <= i < |segments| - 1 ==>
            segments[i].index.entries == IndexOf(Items(build, image[i].data), config.indexInterval).entries)
      && ImageOk(build, config.indexInterval, origin, Now())
      && TraceOk(build, config.indexInterval, origin, trace)
      && trace != [] && trace[|trace| - 1] == Now()
    }

    // The active index covers the first k records of its segment.
    ghost predicate ActiveIndexed(k: nat)
      requires Core()
      reads this, repr
    {
      var n := |segments| - 1;
      var items, index := Items(build, image[n].data), segments[n].index;
      && k <= |items|
      && index.State() == IndexOf(items[..k], config.indexInterval)
      && index.file == PrintIndex(index.entries)
    }

    ghost predicate Valid()
      reads this, repr
    {
      && Core()
      && nextOffset == origin + |history|
      && ActiveIndexed(|Items(build, image[|image| - 1].data)|)
    }

    ghost function Now(): Snapshot
      reads this
    {
      Snapshot(image, history, durable)
    }

    ghost function First(): nat
      requires |image| > 0
      reads this
    {
      image[0].base
    }

    // Every disk state so far holds only frames that stand alone, so any crash recovers.
    ghost predicate CrashReady()
      reads this
    {
      AllSolid(build, image) && TraceSolid(build, trace)
    }

    // Without compression, no segment has ever outgrown both the threshold and its first write.
    ghost predicate Sized()
      reads this
    {
      config.compression.NoCompression? ==> TraceSized(config.segmentSizeThreshold, writes, trace)
    }

    // No segment has ever been sealed while the write at hand still had room in it.
    ghost predicate Packed()
      reads this
    {
      TraceFilled(config.segmentSizeThreshold, rotations, trace)
    }

    // The run goes on: disk states are only added, and what held of all of them still does.
    twostate predicate Continues()
      reads this
    {
      Persists() && (old(Packed()) ==> Packed())
    }

    twostate predicate Persists()
      reads this
    {
      && old(trace) <= trace
      && (old(CrashReady()) ==> CrashReady())
      && (old(Sized()) ==> Sized())
    }

    // ------------------------------------------------------------ creation

    constructor Create(build: Build, config: LogConfig)
      requires Lawful(build)
      ensures Valid() && CrashReady() && Sized() && Packed() && fresh(repr)
      ensures this.build == build && this.config == config
      ensures origin == 0 && history == [] && durable == 0 && First() == 0 && writes == [] && rotations == []
      ensures trace == [Snapshot([DiskSegment(0, [], 0, None, 0)], [], 0), Now()]
    {
      hide Parse, Decode, IndexOf, Lawful, ImageOk, PrintIndex, Items, AllSolid;
      this.build, this.config := build, config;
      var segment := new Segment.Create(0);
      var index := new SparseIndex.Create(0, config.indexInterval);
      segments := [IndexedSegment(segment, index)];
      nextOffset, encodeBuf, actualSizes := 0, [], [];
      repr := {segment, index};
      origin, history, durable := 0, [], 0;
      ghost var bare, empty := DiskSegment(0, [], 0, None, 0), DiskSegment(0, [], 0, Some([]), 0);
      image, writes, rotations := [empty], [], [];
      trace := [Snapshot([bare], [], 0), Snapshot([empty], [], 0)];
      new;
      EmptyImageIsGood(build, config.indexInterval, bare);
      EmptyImageIsGood(build, config.indexInterval, empty);
      assert [empty] == AfterOp([bare], CreateIndex);
      assert Core();
    }

    // ------------------------------------------------------------ rotation

    // Changing the last segment's objects along with its image leaves the rest of the log as it is.
    twostate lemma CoreAfterTouch(n: nat)
      requires old(Core()) && segments == old(segments) && repr == old(repr) && n == |segments| - 1
      requires |image| == |old(image)| && forall i :: 0 <= i < n ==> image[i] == old(image)[i]
      requires forall i :: 0 <= i < n ==> unchanged(segments[i].segment) && unchanged(segments[i].index)
      requires Mirrors(config.indexInterval, segments[n], image[n])
      requires ImageOk(build, config.indexInterval, origin, Now())
      requires TraceOk(build, config.indexInterval, origin, trace)
      requires trace != [] && trace[|trace| - 1] == Now()
      ensures Core()
    {
      hide Parse, IndexOf, ImageOk, TraceOk, Lawful, Items;
    }

    method SyncActiveSegment()
      requires Valid()
      modifies this`image, this`durable, this`trace, segments[|segments| - 1].segment
      ensures Valid() && durable == nextOffset
      ensures var n, was := |old(image)| - 1, old(image);
              image == was[n := was[n].(synced := |was[n].data|)] == AfterOp(was, SyncLog)
      ensures trace == old(trace) + [Now()] && Continues()
    {
      hide Core, Parse, IndexOf, ImageOk, AllSolid, PrintIndex, TraceOk, TraceSolid, TraceSized, TraceFilled, Lawful;
      hide Items, AfterOp;
      CoreParts();
      var n := |segments| - 1;
      segments[n].segment.Sync();
      ghost var step := SyncLogTrace(build, config.indexInterval, origin, config.segmentSizeThreshold, writes, trace,
                                     Now());
      TraceStaysFilled(config.segmentSizeThreshold, rotations, trace, step, SyncLog);
      image, durable, trace := step.image, step.durable, trace + [step];
      CoreAfterTouch(n);
    }

    method SyncActiveIndex()
      requires Valid()
      modifies this`image, this`trace, segments[|segments| - 1].index
      ensures Valid()
      ensures var n, was := |old(image)| - 1, old(image);
              && was[n].index.Some?
              && image == was[n := was[n].(indexSynced := |was[n].index.value|)] == AfterOp(was, SyncIndex)
      ensures trace == old(trace) + [Now()] && Continues()
    {
      hide Core, Parse, IndexOf, ImageOk, AllSolid, PrintIndex, TraceOk, TraceSolid, TraceSized, TraceFilled, Lawful;
      hide Items, AfterOp;
      CoreParts();
      var n := |segments| - 1;
      ghost var file := segments[n].index.file;
      segments[n].index.Sync();
      ghost var step := IndexTrace(build, config.indexInterval, origin, config.segmentSizeThreshold, writes, trace,
                                   Now(), file, |file|, SyncIndex);
      TraceStaysFilled(config.segmentSizeThreshold, rotations, trace, step, SyncIndex);
      image, trace := step.image, trace + [step];
      CoreAfterTouch(n);
    }

    /** Fsyncs the active segment and its index; sealed segments already are. */
    method Sync()
      requires Valid()
      modifies this`image, this`durable, this`trace, segments[|segments| - 1].segment, segments[|segments| - 1].index
      ensures Valid() && durable == nextOffset
      ensures forall i :: 0 <= i < |image| ==> image[i].synced == |image[i].data|
      ensures |image| == |old(image)| && First() == old(First()) && BasesKept(old(image), image, nextOffset)
      ensures Continues()
    {
      hide Valid, CrashReady, Sized, Packed, Sealed, AfterOp;
      Shape();
      SyncActiveSegment();
      SyncActiveIndex();
      SealedAreSynced();
    }

    lemma Shape()
      requires Valid()
      ensures Owns() && |image| == |segments|
    {
      hide ImageOk, Lawful, Mirrors, TraceOk, ActiveIndexed;
    }

    lemma CoreFacts()
      requires Core()
      ensures Owns() && |image| == |segments| && Lawful(build)
      ensures Clean(build, image[|image| - 1].data)
      ensures image[|image| - 1].base + |ActiveItems()| == origin + |history|
    {
      hide Parse, Decode, IndexOf, Lawful, Mirrors, TraceOk;
      ActiveIsClean();
    }

    lemma SealedAreSynced()
      requires Valid()
      ensures forall i :: 0 <= i < |image| - 1 ==> Sealed(build, config.indexInterval, image[i])
      ensures forall i :: 0 <= i < |image| - 1 ==> image[i].synced == |image[i].data|
    {
      hide Parse, Decode, IndexOf, Lawful, Items, Mirrors, Holds, TraceOk;
    }

    lemma ActiveCanSeal()
      requires Valid()
      requires var last := image[|image| - 1];
               && last.data != [] && last.synced == |last.data|
               && last.index.Some? && last.indexSynced == |last.index.value|
      ensures Sealed(build, config.indexInterval, image[|image| - 1])
    {
      hide Decode, IndexOf, PrintIndex, Lawful, TraceOk;
      var n := |image| - 1;
      var items := Items(build, image[n].data);
      assert Mirrors(config.indexInterval, segments[n], image[n]);
      assert Holds(build, config.indexInterval, origin, history, image[n]);
      assert items[..|items|] == items;
    }

    /**
     Seals the active segment and starts an empty one at the next offset. Both files of the
     sealed segment are synced before the new `.log` exists, and the new `.log` exists before
     its `.index`.
     */
    method RotateActiveSegment(ghost wire: nat)
      requires Valid() && image[|image| - 1].data != []
      modifies this`segments, this`image, this`durable, this`trace, this`repr, this`rotations
      modifies segments[|segments| - 1].segment, segments[|segments| - 1].index
      ensures Valid() && old(repr) <= repr && fresh(repr - old(repr))
      ensures durable == nextOffset
      ensures |image| == |old(image)| + 1
      ensures forall i :: 0 <= i < |old(image)| ==>
                image[i].base == old(image)[i].base && image[i].data == old(image)[i].data
      ensures image[|image| - 1] == DiskSegment(nextOffset, [], 0, Some([]), 0)
      ensures Persists() && rotations == old(rotations) + [Rotation(nextOffset, wire)]
      ensures old(Packed()) && config.segmentSizeThreshold < |old(image)[|old(image)| - 1].data| + wire ==> Packed()
      ensures |old(image)| > 0 && Sealed(build, config.indexInterval, image[|old(image)| - 1])
      ensures |trace| == |old(trace)| + 4 && RotatedThrough(old(image), trace[|old(trace)|..], image, nextOffset)
    {
      hide Valid, CrashReady, Sized, Packed, Sealed, AfterOp, RotatedThrough, ImageOk, TraceOk;
      ValidTrace();
      SyncActiveSegment();
      ghost var one := Now();
      SyncActiveIndex();
      ghost var two := Now();
      ActiveCanSeal();
      StartSegment(wire);
      ghost var three := two.(image := AfterOp(two.image, CreateLog(nextOffset)));
      RotationStates(old(image), one, two, three, Now(), nextOffset);
      assert trace[|old(trace)|..] == [one, two, three, Now()];
    }

    method StartSegment(ghost wire: nat)
      requires Valid() && Sealed(build, config.indexInterval, image[|image| - 1])
      modifies this`segments, this`image, this`trace, this`repr, this`rotations
      ensures Valid() && old(repr) <= repr && fresh(repr - old(repr))
      ensures image == old(image) + [DiskSegment(nextOffset, [], 0, Some([]), 0)]
      ensures trace == old(trace) + [old(Now()).(image := AfterOp(old(image), CreateLog(nextOffset))), Now()]
      ensures image == AfterOp(AfterOp(old(image), CreateLog(nextOffset)), CreateIndex)
      ensures Persists() && rotations == old(rotations) + [Rotation(nextOffset, wire)]
      ensures var data := old(image)[|old(image)| - 1].data;
              old(Packed()) && 0 < |data| && config.segmentSizeThreshold < |data| + wire ==> Packed()
    {
      hide Valid, ImageOk, AllSolid, TraceOk, TraceSolid, TraceSized, TraceFilled, Sealed, AfterOp;
      ValidTrace();
      var newSegment := new Segment.Create(nextOffset);
      var newIndex := new SparseIndex.Create(nextOffset, config.indexInterval);
      ghost var bare, step := RotationTrace(build, config.indexInterval, origin, Now(), trace);
      RotationStaysSized(config.segmentSizeThreshold, writes, trace, bare, step, nextOffset);
      RotationStaysFilled(config.segmentSizeThreshold, rotations, trace, bare, step, nextOffset, wire);
      rotations := rotations + [Rotation(nextOffset, wire)];
      assert trace + [bare] + [step] == trace + [Now().(image := AfterOp(image, CreateLog(nextOffset))), step];
      image, trace := step.image, trace + [bare] + [step];
      segments := segments + [IndexedSegment(newSegment, newIndex)];
      repr := repr + {newSegment, newIndex};
      ValidAfterPush(IndexedSegment(newSegment, newIndex));
    }

    lemma CoreParts()
      requires Core()
      ensures Owns() && |image| == |segments|
      ensures Mirrors(config.indexInterval, segments[|segments| - 1], image[|image| - 1])
      ensures ImageOk(build, config.indexInterval, origin, Now()) && TraceOk(build, config.indexInterval, origin, trace)
      ensures trace != [] && trace[|trace| - 1] == Now()
    {
      hide ImageOk, Lawful, Mirrors, TraceOk;
    }

    lemma CoreTrace()
      requires Core()
      ensures ImageOk(build, config.indexInterval, origin, Now()) && TraceOk(build, config.indexInterval, origin, trace)
      ensures trace != [] && trace[|trace| - 1] == Now()
    {
      hide ImageOk, Lawful, Mirrors, TraceOk;
    }

    lemma ValidTrace()
      requires Valid()
      ensures Owns() && |image| == |segments| && nextOffset == origin + |history|
      ensures ImageOk(build, config.indexInterval, origin, Now()) && TraceOk(build, config.indexInterval, origin, trace)
      ensures trace != [] && trace[|trace| - 1] == Now()
    {
      hide ImageOk, Lawful, Mirrors, TraceOk, ActiveIndexed;
    }

    // A new, empty last segment leaves the others as they are.
    twostate lemma ValidAfterPush(new p: IndexedSegment)
      requires old(Valid()) && segments == old(segments) + [p] && repr == old(repr) + {p.segment, p.index}
      requires p.segment !in old(repr) && p.index !in old(repr) && p.segment as object != this
      requires p.index as object != this
      requires image == old(image) + [DiskSegment(p.segment.baseOffset, [], 0, Some([]), 0)]
      requires nextOffset == old(nextOffset) && origin == old(origin) && history == old(history)
      requires forall i :: 0 <= i < |old(segments)| ==>
                 unchanged(old(segments)[i].segment) && unchanged(old(segments)[i].index)
      requires Mirrors(config.indexInterval, p, image[|image| - 1]) && p.index.State() == IndexState([], 0)
      requires ImageOk(build, config.indexInterval, origin, Now())
      requires TraceOk(build, config.indexInterval, origin, trace)
      requires trace != [] && trace[|trace| - 1] == Now()
      ensures Valid()
    {
      hide Parse, IndexOf, ImageOk, TraceOk, Lawful, PrintIndex;
      ghost var items := Items(build, old(image)[|old(image)| - 1].data);
      assert items[..|items|] == items;
      EmptyIndex(build, config.indexInterval);
      assert Owns();
      assert Core();
    }

    // ------------------------------------------------------------ appending

    ghost function ActiveItems(): seq<Framed>
      requires |image| > 0
      reads this
    {
      Items(build, image[|image| - 1].data)
    }

    /** Writes frames at the end of the active file: the records are in the log, not yet in the index. */
    method WriteActive(bytes: Bytes) returns (filePos: nat)
      requires Valid() && Clean(build, bytes)
      requires IndexFits(build, config.indexInterval, image[|image| - 1].data + bytes)
      modifies this`history, this`image, this`trace, this`writes, segments[|segments| - 1].segment
      ensures Core() && ActiveIndexed(|old(ActiveItems())|)
      ensures filePos == |old(image)[|old(image)| - 1].data|
      ensures history == old(history) + RecordsOf(Items(build, bytes))
      ensures var n, was := |old(image)| - 1, old(image);
              image == was[n := was[n].(data := was[n].data + bytes)]
      ensures ActiveItems() == old(ActiveItems()) + Items(build, bytes)
      ensures trace == old(trace) + [Now()] && writes == old(writes) + [WriteTo(old(image), bytes)]
      ensures old(CrashReady()) && Solid(build, bytes) ==> CrashReady()
      ensures old(Packed()) ==> Packed()
      ensures old(Sized()) && (config.compression.NoCompression? ==> old(RoomFor(|bytes|))) ==> Sized()
    {
      hide Core, Parse, Decode, IndexOf, IndexFits, ImageOk, AllSolid, Solid, PrintIndex, TraceOk, TraceSolid;
      hide TraceSized, Lawful, AfterOp;
      CoreParts();
      var n := |segments| - 1;
      filePos := segments[n].segment.Append(bytes);
      ghost var last := image[n];
      ghost var step := WriteTrace(build, config.indexInterval, origin, config.segmentSizeThreshold, writes, trace,
                                   Now(), bytes);
      ActiveIsClean();
      ParseConcat(build, last.data, bytes);
      ghost var items := Items(build, last.data);
      assert (items + Items(build, bytes))[..|items|] == items[..|items|];
      TraceStaysFilled(config.segmentSizeThreshold, rotations, trace, step, Write(bytes));
      history, image, trace, writes := step.history, step.image, trace + [step], writes + [WriteTo(image, bytes)];
      CoreAfterTouch(n);
    }

    lemma ActiveIsClean()
      requires |image| > 0 && ImageOk(build, config.indexInterval, origin, Now())
      ensures Clean(build, image[|image| - 1].data)
      ensures IndexFits(build, config.indexInterval, image[|image| - 1].data)
      ensures image[|image| - 1].base + |ActiveItems()| == origin + |history|
    {
      hide Parse, Decode, IndexOf, Lawful;
      assert Holds(build, config.indexInterval, origin, history, image[|image| - 1]);
    }

    /** Tells the active index about the next record of the active file. */
    method TrackActive(offset: nat, filePos: nat, size: nat, ghost k: nat)
      requires Core() && ActiveIndexed(k) && k < |ActiveItems()|
      requires offset == image[|image| - 1].base + k
      requires filePos == Start(ActiveItems(), k) && size == ActiveItems()[k].size
      modifies this`image, this`trace, segments[|segments| - 1].index
      ensures Core() && ActiveIndexed(k + 1)
      ensures |image| == |old(image)| && image[..|image| - 1] == old(image)[..|image| - 1]
      ensures image[|image| - 1] == old(image)[|image| - 1].(index := image[|image| - 1].index)
      ensures trace == old(trace) + [Now()] && Continues()
    {
      hide Core, Parse, IndexOf, IndexFits, ImageOk, AllSolid, PrintIndex, TraceOk, TraceSolid, TraceSized, TraceFilled;
      hide Lawful;
      hide Items, Track, NeedsEntry, Start;
      hide AfterOp;
      CoreParts();
      var n := |segments| - 1;
      ghost var last := image[n];
      TrackIsNext(k);
      segments[n].index.TrackAppend(offset, filePos, size);
      ghost var file := segments[n].index.file;
      ghost var more := file[|last.index.value|..];
      assert last.index.value + more == file;
      ghost var step := IndexTrace(build, config.indexInterval, origin, config.segmentSizeThreshold, writes, trace,
                                   Now(),
                                   file, last.indexSynced, WriteIndex(more));
      TraceStaysFilled(config.segmentSizeThreshold, rotations, trace, step, WriteIndex(more));
      image, trace := step.image, trace + [step];
      CoreAfterTouch(n);
    }

    // The index step for record k of the active segment is in range and covers one record more.
    lemma TrackIsNext(k: nat)
      requires Core() && ActiveIndexed(k) && k < |ActiveItems()|
      ensures var items, st, interval := ActiveItems(), segments[|segments| - 1].index.State(), config.indexInterval;
              && (NeedsEntry(st, interval) ==> Fits(Entry(k, Start(items, k))))
              && Track(st, interval, k, Start(items, k), items[k].size) == IndexOf(items[..k + 1], interval)
      ensures var last := image[|image| - 1]; last.synced <= |last.data|
    {
      hide Parse, IndexOf, IndexFits, ImageOk, AllSolid, PrintIndex, TraceOk, TraceSolid, TraceSized, TraceFilled;
      hide Lawful, Items;
      hide Track, NeedsEntry, Start;
      ActiveIsClean();
      IndexOfStep(ActiveItems(), config.indexInterval, k);
      if NeedsEntry(segments[|segments| - 1].index.State(), config.indexInterval) {
        TrackedEntryFits(build, config.indexInterval, image[|image| - 1].data, k);
      }
    }

    // The room an append has in the active file, after the overflow test and a rotation if it asks for one.
    ghost predicate RoomFor(wire: nat)
      requires |image| > 0
      reads this
    {
      !WouldOverflow(|image[|image| - 1].data|, wire, config.segmentSizeThreshold)
    }

    method MakeRoom(wire: nat)
      requires Valid()
      modifies this`segments, this`image, this`durable, this`trace, this`repr, this`rotations
      modifies segments[|segments| - 1].segment, segments[|segments| - 1].index
      ensures Valid() && old(repr) <= repr && fresh(repr - old(repr))
      ensures RoomFor(wire) && First() == old(First()) && durable >= old(durable)
      ensures if old(RoomFor(wire)) then image == old(image)
              else |image| == |old(image)| + 1 && image[|image| - 1].data == []
      ensures forall i :: 0 <= i < |old(image)| ==> image[i].data == old(image)[i].data
      ensures BasesKept(old(image), image, nextOffset)
      ensures Continues()
      ensures rotations == RotatedFor(old(image), old(rotations), wire, config.segmentSizeThreshold, nextOffset)
    {
      hide Valid, CrashReady, Sized, Packed;
      Shape();
      ActiveSize();
      var shouldRotate := WouldOverflow(segments[|segments| - 1].segment.size, wire, config.segmentSizeThreshold);
      if shouldRotate {
        RotateActiveSegment(wire);
      }
    }

    lemma ActiveSize()
      requires Valid()
      ensures |image| == |segments| > 0
      ensures segments[|segments| - 1].segment.size == |image[|image| - 1].data|
      ensures durable <= nextOffset
    {
      hide Parse, Decode, IndexOf, Lawful, TraceOk, ActiveIndexed;
      assert Mirrors(config.indexInterval, segments[|segments| - 1], image[|image| - 1]);
    }

    /** Tells the active index about every record of a batch that was just written. */
    method TrackBatch(offsets: seq<nat>, sizes: seq<nat>, filePos: nat, ghost k: nat)
      requires Core() && ActiveIndexed(k) && |ActiveItems()| == k + |sizes| && |offsets| == |sizes|
      requires offsets == Consecutive(image[|image| - 1].base + k, |sizes|)
      requires filePos == Start(ActiveItems(), k)
      requires forall i :: 0 <= i < |sizes| ==> sizes[i] == ActiveItems()[k + i].size
      modifies this`image, this`trace, segments[|segments| - 1].index
      ensures Core() && ActiveIndexed(|ActiveItems()|)
      ensures |image| == |old(image)| && image[..|image| - 1] == old(image)[..|image| - 1]
      ensures image[|image| - 1] == old(image)[|image| - 1].(index := image[|image| - 1].index)
      ensures Continues()
    {
      hide Core, ActiveIndexed, CrashReady, Sized, Packed, Parse;
      CoreFacts();
      var pos := filePos;
      for i := 0 to |sizes|
        invariant segments == old(segments) && |image| > 0
        invariant Core() && ActiveIndexed(k + i)
        invariant |image| == |old(image)| && image[..|image| - 1] == old(image)[..|image| - 1]
        invariant image[|image| - 1] == old(image)[|image| - 1].(index := image[|image| - 1].index)
        invariant pos == Start(ActiveItems(), k + i)
        invariant Continues()
      {
        StartStep(ActiveItems(), k + i);
        TrackActive(offsets[i], pos, sizes[i], k + i);
        pos := pos + sizes[i];
      }
    }

    /**
     Takes a batch in one write and gives it consecutive offsets. A codec missing from the build
     fails the batch, possibly after a rotation, and takes nothing.
     */
    method AppendBatch(records: seq<Record>) returns (r: Result<seq<nat>>)
      requires Valid() && Acceptable(build, config, records)
      modifies this, repr
      ensures Valid() && old(repr) <= repr && fresh(repr - old(repr))
      ensures origin == old(origin) && First() == old(First()) && durable >= old(durable)
      ensures r.Ok? <==> records == [] || Available(build, config.compression)
      ensures r.Ok? ==> r.value == Consecutive(old(nextOffset), |records|) && history == old(history) + records
      ensures r.Err? ==> r.error == CompressionUnavailable(config.compression) && history == old(history)
      ensures |old(image)| > 0 && BasesKept(old(image), image, old(nextOffset))
      ensures r.Ok? && records != [] ==>
                MadeOneWrite(old(image), image, old(writes), writes, EncodeAll(build, config.compression, records))
      ensures r.Err? || records == [] ==> writes == old(writes)
      ensures r.Ok? && records != [] ==>
                Landed(old(image), image, EncodeAll(build, config.compression, records), WireTotal(records),
                       config.segmentSizeThreshold)
      ensures records != [] ==>
                rotations == RotatedFor(old(image), old(rotations), WireTotal(records), config.segmentSizeThreshold,
                                        old(nextOffset))
      ensures records == [] ==> image == old(image) && rotations == old(rotations)
      ensures r.Err? ==> Landed(old(image), image, [], WireTotal(records), config.segmentSizeThreshold)
      ensures Continues()
    {
      hide Core, ActiveIndexed, CrashReady, Sized, Packed, Encode, EncodeAll, Parse, Decode, Total, Lawful, Acceptable;
      hide WireTotal, Items;
      Shape();
      if records == [] {
        return Ok([]);
      }
      MakeRoom(WireTotal(records));
      Shape();
      CoreFacts();
      var offsets, buf, sizes := EncodeBatch(build, config.compression, records, nextOffset);
      if offsets.Err? {
        return offsets;
      }
      WriteBatch(offsets.value, buf, sizes, records);
      return offsets;
    }

    /** The write, the index entries and the new next offset of an encoded batch. */
    method WriteBatch(offsets: seq<nat>, buf: Bytes, sizes: seq<nat>, records: seq<Record>)
      requires Valid() && Acceptable(build, config, records)
      requires Available(build, config.compression) && RoomFor(WireTotal(records))
      requires offsets == Consecutive(nextOffset, |records|) && |sizes| == |records|
      requires buf == EncodeAll(build, config.compression, records)
      requires forall i :: 0 <= i < |records| ==> sizes[i] == |Encode(build, config.compression, records[i]).value|
      modifies this`encodeBuf, this`actualSizes, this`nextOffset, this`history, this`image, this`trace, this`writes
      modifies segments[|segments| - 1].segment, segments[|segments| - 1].index
      ensures Valid() && history == old(history) + records && First() == old(First())
      ensures |image| == |old(image)| && image[..|image| - 1] == old(image)[..|image| - 1]
      ensures image[|image| - 1].data == old(image)[|image| - 1].data + buf
      ensures image[|image| - 1].base == old(image)[|image| - 1].base
      ensures Continues() && writes == old(writes) + [WriteTo(old(image), buf)]
    {
      hide Encode, EncodeAll, Parse, Decode, Solid, IndexFits, Lawful, Core, ActiveIndexed, CrashReady, Sized, Packed;
      hide Acceptable;
      hide Total, WireTotal, RecordsOf, Items;
      CoreFacts();
      ghost var k := |ActiveItems()|;
      BatchLands(build, config, image[|image| - 1].data, records);
      UncompressedSizeIsWireSize(build, records);
      var filePos := WriteActive(buf);
      CoreFacts();
      TrackBatch(offsets, sizes, filePos, k);
      Finish(buf, sizes, |records|);
    }

    method Finish(buf: Bytes, sizes: seq<nat>, n: nat)
      requires Core() && ActiveIndexed(|ActiveItems()|) && nextOffset + n == origin + |history|
      modifies this`encodeBuf, this`actualSizes, this`nextOffset
      ensures Valid() && Continues()
    {
      hide Parse, Decode, ImageOk, IndexOf, Lawful, TraceOk, Mirrors, PrintIndex;
      encodeBuf, actualSizes := buf, sizes;
      nextOffset := nextOffset + n;
      assert Core();
    }


    /** Takes one record; the same log as a batch of one. */
    method Append(record: Record) returns (r: Result<nat>)
      requires Valid() && Acceptable(build, config, [record])
      modifies this, repr
      ensures Valid() && old(repr) <= repr && fresh(repr - old(repr))
      ensures origin == old(origin) && First() == old(First()) && durable >= old(durable)
      ensures r.Ok? <==> Available(build, config.compression)
      ensures r.Ok? ==> r.value == old(nextOffset) && history == old(history) + [record]
      ensures r.Err? ==> r.error == CompressionUnavailable(config.compression) && history == old(history)
      ensures |old(image)| > 0 && BasesKept(old(image), image, old(nextOffset))
      ensures r.Ok? ==>
                MadeOneWrite(old(image), image, old(writes), writes, Encode(build, config.compression, record).value)
      ensures r.Err? ==> writes == old(writes)
      ensures r.Ok? ==>
                Landed(old(image), image, Encode(build, config.compression, record).value, WireSize(record),
                       config.segmentSizeThreshold)
      ensures rotations
           == RotatedFor(old(image), old(rotations), WireSize(record), config.segmentSizeThreshold, old(nextOffset))
      ensures r.Err? ==> Landed(old(image), image, [], WireSize(record), config.segmentSizeThreshold)
      ensures Continues()
    {
      hide Core, ActiveIndexed, CrashReady, Sized, Packed, Encode, EncodeAll, Parse, Decode, Total, Lawful, Acceptable;
      hide WireTotal, Items;
      Shape();
      MakeRoom(WireSize(record));
      Shape();
      CoreFacts();
      var buf, written := EncodeWith(build, [], config.compression, record);
      if written.Err? {
        return Err(written.error);
      }
      WriteOne(buf, written.value, record);
      return Ok(nextOffset - 1);
    }

    /** The write, the index entry and the new next offset of one encoded record. */
    method WriteOne(buf: Bytes, size: nat, record: Record)
      requires Valid() && Acceptable(build, config, [record])
      requires Available(build, config.compression) && RoomFor(WireSize(record))
      requires buf == Encode(build, config.compression, record).value && size == |buf|
      modifies this`encodeBuf, this`actualSizes, this`nextOffset, this`history, this`image, this`trace, this`writes
      modifies segments[|segments| - 1].segment, segments[|segments| - 1].index
      ensures Valid() && history == old(history) + [record] && nextOffset == old(nextOffset) + 1
      ensures First() == old(First())
      ensures |image| == |old(image)| && image[..|image| - 1] == old(image)[..|image| - 1]
      ensures image[|image| - 1].data == old(image)[|image| - 1].data + buf
      ensures image[|image| - 1].base == old(image)[|image| - 1].base
      ensures Continues() && writes == old(writes) + [WriteTo(old(image), buf)]
    {
      hide Encode, EncodeAll, Parse, Decode, Solid, IndexFits, Lawful, Core, ActiveIndexed, CrashReady, Sized, Packed;
      hide Acceptable;
      hide Total, WireTotal, RecordsOf, Items;
      CoreFacts();
      ghost var k := |ActiveItems()|;
      BatchOfOne(build, config.compression, record);
      BatchLands(build, config, image[|image| - 1].data, [record]);
      assert [record][0] == record;
      var filePos := WriteActive(buf);
      CoreFacts();
      assert ActiveItems()[k + 0].size == size;
      TrackActive(nextOffset, filePos, size, k);
      CoreFacts();
      Finish(encodeBuf, actualSizes, 1);
    }

    // ------------------------------------------------------------ reading

    /** The segment that would hold `offset`: the last one starting at or before it, else the first. */
    method FindSegmentIndex(offset: nat) returns (at: nat)
      requires Valid()
      ensures at < |segments| && |segments| == |image|
      ensures if offset < First() then at == 0
              else image[at].base <= offset && (at + 1 < |image| ==> offset < image[at + 1].base)
    {
      hide Parse, Decode, IndexOf, Lawful, TraceOk, ActiveIndexed, Items, ImageOk;
      BasesAreIncreasing();
      var bases := seq(|segments|, i requires 0 <= i < |segments| reads this => segments[i].segment.baseOffset);
      assert forall i :: 0 <= i < |image| ==> Mirrors(config.indexInterval, segments[i], image[i]);
      assert forall i :: 0 <= i < |image| ==> bases[i] == image[i].base;
      assert StrictlyIncreasing(bases);
      var o := BinarySearch(bases, offset);
      match o {
        case Found(i) => at := i;
        case Missing(i) => at := if i == 0 then 0 else i - 1;
      }
    }

    lemma BasesBelowNext()
      requires Valid()
      ensures forall i :: 0 <= i < |image| ==> image[i].base <= nextOffset
    {
      hide Parse, Decode, IndexOf, Lawful, TraceOk, ActiveIndexed, IndexFits, Mirrors, Sealed, Covered;
      forall i | 0 <= i < |image|
        ensures image[i].base <= nextOffset
      {
        assert Holds(build, config.indexInterval, origin, history, image[i]);
      }
    }

    lemma BasesAreIncreasing()
      requires Valid()
      ensures forall i, j :: 0 <= i < j < |image| ==> image[i].base < image[j].base
    {
      hide Parse, Decode, IndexOf, Lawful, TraceOk, ActiveIndexed, Items, ImageOk, Mirrors;
      forall i, j | 0 <= i < j < |image|
        ensures image[i].base < image[j].base
      {
        BasesIncrease(build, config.indexInterval, origin, Now(), i, j);
      }
    }

    method ReadSegment(at: nat, filePos: nat, n: nat) returns (bytes: Bytes)
      requires Valid() && at < |segments| && at < |image|
      requires filePos + n == |image[at].data|
      modifies segments[at].segment
      ensures Valid() && bytes == image[at].data[filePos..]
    {
      hide Parse, Decode, IndexOf, ImageOk, PrintIndex, TraceOk, Lawful;
      assert Mirrors(config.indexInterval, segments[at], image[at]);
      bytes := segments[at].segment.ReadAt(filePos, n);
      assert Core();
    }

    lemma SegmentAt(at: nat)
      requires Valid() && at < |segments|
      ensures |image| == |segments| && Mirrors(config.indexInterval, segments[at], image[at])
      ensures segments[at].segment in repr && segments[at].index in repr
      ensures segments[at].index.entries == IndexOf(Items(build, image[at].data), config.indexInterval).entries
      ensures segments[at].segment.size == |image[at].data|
    {
      hide Parse, Decode, IndexOf, Lawful, TraceOk, ImageOk;
      ghost var items := Items(build, image[|image| - 1].data);
      assert items[..|items|] == items;
    }

    // What a reader may see: retained and already assigned offsets.
    ghost function Visible(offset: nat): Option<Record>
      requires |image| > 0 && origin <= First() && nextOffset == origin + |history|
      reads this
    {
      if First() <= offset < nextOffset then Some(history[offset - origin]) else None
    }

    lemma VisibleIsDefined()
      requires Valid()
      ensures |image| > 0 && origin <= First() && nextOffset == origin + |history|
    {
      hide Parse, Decode, IndexOf, Lawful, TraceOk, IndexFits;
      assert Holds(build, config.indexInterval, origin, history, image[0]);
    }

    /**
     Reads through the sparse index and a forward decode. The answer is the record with that
     offset if it is retained and assigned, and nothing otherwise; it is never an error.
     */
    method ReadRecordAt(offset: nat) returns (r: Result<Option<Record>>)
      requires Valid()
      modifies repr
      ensures Valid() && |image| > 0 && origin <= First() && nextOffset == origin + |history|
      ensures r == Ok(Visible(offset))
    {
      hide Core, ActiveIndexed, Parse, Decode, IndexOf, ImageOk, Items;
      VisibleIsDefined();
      if offset >= nextOffset {
        return Ok(None);
      }
      CoreIsGood();
      var at := FindSegmentIndex(offset);
      SegmentAt(at);
      LookupReaches(build, config.indexInterval, origin, Now(), at, offset);
      var seek := segments[at].index.Lookup(offset);
      var remaining := if segments[at].segment.size > seek.filePosition
                       then segments[at].segment.size - seek.filePosition else 0;
      if remaining == 0 {
        return Ok(None);
      }
      var buf := ReadSegment(at, seek.filePosition, remaining);
      r := DecodeForward(build, buf, seek.startingOffset, offset);
    }

    lemma CoreIsGood()
      requires Core()
      ensures ImageOk(build, config.indexInterval, origin, Now())
    {
      hide ImageOk, Lawful, Mirrors, TraceOk;
    }

    // ------------------------------------------------------------ retention

    method TotalSize() returns (total: nat)
      requires Valid()
      ensures total == TotalBytes(image)
    {
      hide Parse, Decode, IndexOf, Lawful, TraceOk, ImageOk, ActiveIndexed, Items;
      total := 0;
      for i := 0 to |segments|
        invariant total == TotalBytes(image[..i])
      {
        assert Mirrors(config.indexInterval, segments[i], image[i]);
        assert image[..i + 1][..i] == image[..i];
        total := total + segments[i].segment.size;
      }
      assert image[..|image|] == image;
    }

    method DeleteOldestSegment()
      requires Valid() && |segments| > 1
      modifies this`segments, this`image, this`trace
      ensures Valid() && |old(segments)| == |old(image)|
      ensures segments == old(segments)[1..] && image == old(image)[1..]
      ensures trace == old(trace) + [Now()] && Continues()
    {
      hide Parse, Decode, IndexOf, ImageOk, AllSolid, PrintIndex, TraceOk, TraceSolid, TraceSized, TraceFilled, Lawful;
      hide Items;
      hide Mirrors;
      RetirementKeepsImage(build, config.indexInterval, origin, Now());
      ghost var step := Now().(image := image[1..]);
      StepTrace(build, config.indexInterval, origin, config.segmentSizeThreshold, writes, trace, step, RemoveOldest);
      TraceStaysFilled(config.segmentSizeThreshold, rotations, trace, step, RemoveOldest);
      segments := segments[1..];
      image, trace := step.image, trace + [step];
      assert Owns();
      assert Core();
    }

    /**
     Drops the longest run of oldest sealed segments older than the cutoff, then the fewest
     further ones that bring the partition under its byte cap; never the active segment.
     */
    method ApplyRetention(now: int, mtimes: seq<int>) returns (deleted: nat)
      requires Valid() && |mtimes| == |segments|
      modifies this`segments, this`image, this`trace
      ensures Valid() && |old(image)| == |mtimes|
      ensures RetentionAsks(config, now, mtimes, old(image), deleted)
      ensures segments == old(segments)[deleted..] && image == old(image)[deleted..]
      ensures Continues()
    {
      hide Valid, CrashReady, Sized, Packed, TotalBytes, AgedPrefix;
      Shape();
      deleted := 0;
      if config.maxSegmentAge.Some? {
        deleted := DeleteAged(mtimes, now - config.maxSegmentAge.value);
      }
      ghost var aged := deleted;
      if config.maxPartitionBytes.Some? {
        var more := DeleteOverCap(config.maxPartitionBytes.value);
        DropDrop(old(segments), aged, more);
        DropDrop(old(image), aged, more);
        OverCapShift(old(image), aged, more, config.maxPartitionBytes.value);
        deleted := deleted + more;
      }
    }

    method DeleteAged(mtimes: seq<int>, cutoff: int) returns (deleted: nat)
      requires Valid() && |mtimes| == |segments|
      modifies this`segments, this`image, this`trace
      ensures Valid() && |old(image)| == |mtimes|
      ensures deleted == AgedPrefix(mtimes, cutoff, |mtimes| - 1)
      ensures segments == old(segments)[deleted..] && image == old(image)[deleted..]
      ensures Continues()
    {
      hide Valid, CrashReady, Sized, Packed, AgedPrefix;
      Shape();
      deleted := 0;
      while |segments| > 1
        invariant Valid() && deleted < |mtimes| && |image| == |segments|
        invariant segments == old(segments)[deleted..] && image == old(image)[deleted..]
        invariant forall i :: 0 <= i < deleted ==> mtimes[i] < cutoff
        invariant Continues()
        decreases |segments|
      {
        if mtimes[deleted] < cutoff {
          DeleteOldestSegment();
          deleted := deleted + 1;
        } else {
          break;
        }
      }
      AgedPrefixIs(mtimes, cutoff, |mtimes| - 1, deleted);
    }

    method DeleteOverCap(cap: nat) returns (deleted: nat)
      requires Valid()
      modifies this`segments, this`image, this`trace
      ensures Valid() && deleted < |old(segments)| == |old(image)|
      ensures segments == old(segments)[deleted..] && image == old(image)[deleted..]
      ensures forall k :: 0 <= k < deleted ==> TotalBytes(old(image)[k..]) > cap
      ensures deleted == |old(image)| - 1 || TotalBytes(image) <= cap
      ensures Continues()
    {
      hide Valid, CrashReady, Sized, Packed, TotalBytes;
      Shape();
      deleted := 0;
      var total := TotalSize();
      while |segments| > 1 && total > cap
        invariant Valid() && deleted < |old(segments)| && |image| == |segments|
        invariant segments == old(segments)[deleted..] && image == old(image)[deleted..]
        invariant total == TotalBytes(image)
        invariant forall k :: 0 <= k < deleted ==> TotalBytes(old(image)[k..]) > cap
        invariant Continues()
        decreases |segments|
      {
        DropDrop(old(image), deleted, 1);
        DropDrop(old(segments), deleted, 1);
        DeleteOldestSegment();
        deleted := deleted + 1;
        total := TotalSize();
      }
    }

    // ------------------------------------------------------------ reopening

    constructor FromParts(build: Build, config: LogConfig, segments: seq<IndexedSegment>, nextOffset: nat,
                          ghost now: Snapshot, ghost origin: nat, ghost writes: seq<WriteMade>,
                          ghost rotations: seq<Rotation>, ghost repr: set<object>)
      requires forall i :: 0 <= i < |segments| ==> segments[i].segment in repr && segments[i].index in repr
      requires Lawful(build) && |segments| == |now.image| > 0
      requires forall i :: 0 <= i < |segments| ==> Mirrors(config.indexInterval, segments[i], now.image[i])
      requires forall i, j :: 0 <= i < j < |segments| ==>
                 segments[i].segment != segments[j].segment && segments[i].index != segments[j].index
      requires forall i :: 0 <= i < |segments| ==>
                 segments[i].index.entries == IndexOf(Items(build, now.image[i].data), config.indexInterval).entries
      requires var index := segments[|segments| - 1].index;
               && index.State() == IndexOf(Items(build, now.image[|now.image| - 1].data), config.indexInterval)
               && index.file == PrintIndex(index.entries)
      requires ImageOk(build, config.indexInterval, origin, now)
      requires nextOffset == origin + |now.history|
      ensures Valid() && this.build == build && this.config == config
      ensures this.segments == segments && this.nextOffset == nextOffset
      ensures Now() == now && this.origin == origin && this.writes == writes && this.rotations == rotations
      ensures trace == [now] && this.repr == repr
      ensures AllSolid(build, now.image) ==> CrashReady()
      ensures ImageSized(config.segmentSizeThreshold, writes, now.image) ==> Sized()
      ensures ImageFilled(config.segmentSizeThreshold, rotations, now.image) ==> Packed()
    {
      hide Parse, Decode, IndexOf, Lawful, ImageOk, PrintIndex, Items, IndexFits, AllSolid, ImageSized, ImageFilled;
      this.build, this.config, this.segments, this.nextOffset := build, config, segments, nextOffset;
      encodeBuf, actualSizes := [], [];
      this.repr := repr;
      this.origin, this.history, this.durable := origin, now.history, now.durable;
      this.image, trace, this.writes, this.rotations := now.image, [now], writes, rotations;
      new;
      ghost var items := Items(build, now.image[|now.image| - 1].data);
      assert items[..|items|] == items;
      assert Core();
    }

    /**
     Opens a directory. `disk` is what is there, in offset order. Sealed segments are trusted
     with their index files; the active one is recovered, and `steps` are the states its files
     go through. The ghost arguments say which records the caller expects to find at which
     offsets, how many of them are durable and by which writes they came, and bind only if the
     open succeeds.
     */
    static method Open(build: Build, config: LogConfig, disk: seq<DiskSegment>, ghost origin: nat,
                       ghost history: seq<Record>,
                       ghost durable: nat, ghost writes: seq<WriteMade>, ghost rotations: seq<Rotation>)
      returns (r: Result<Log>, ghost steps: seq<DiskSegment>)
      requires Lawful(build)
      requires forall i :: 0 <= i < |disk| ==> disk[i].synced <= |disk[i].data|
      requires disk != [] ==> Replayable(build, config.indexInterval, disk[|disk| - 1].data)
      requires disk != [] && Reopen(build, config.indexInterval, disk).Ok? ==>
                 ImageOk(build, config.indexInterval, origin,
                         Snapshot(Reopen(build, config.indexInterval, disk).value, history, durable))
      ensures r.Ok? ==> fresh(r.value) && fresh(r.value.repr) && r.value.Valid()
      ensures r.Ok? ==> r.value.build == build && r.value.config == config
      ensures disk == [] ==> r.Ok? && r.value.history == [] && r.value.origin == 0 && r.value.First() == 0
                             && r.value.CrashReady() && r.value.Sized() && r.value.Packed()
      ensures disk != [] ==>
                && (r.Ok? <==> Reopen(build, config.indexInterval, disk).Ok?)
                && (r.Err? ==> Reopen(build, config.indexInterval, disk) == Err(r.error))
      ensures disk != [] && r.Ok? ==>
                var now := Snapshot(Reopen(build, config.indexInterval, disk).value, history, durable);
                && r.value.Now() == now && r.value.trace == [now]
                && r.value.origin == origin && r.value.writes == writes && r.value.rotations == rotations
                && (AllSolid(build, now.image) ==> r.value.CrashReady())
                && (ImageSized(config.segmentSizeThreshold, writes, now.image) ==> r.value.Sized())
                && (ImageFilled(config.segmentSizeThreshold, rotations, now.image) ==> r.value.Packed())
      ensures disk != [] && (forall i :: 0 <= i < |disk| - 1 ==> disk[i].index.Some?) ==>
                var found := disk[|disk| - 1];
                && Steps(steps) && steps[0] == found && steps[|steps| - 1].data == LeftBehind(build, found.data)
                && (forall i :: 0 <= i < |steps| ==> DuringOpen(build, found, steps[i]))
                && (r.Ok? ==> r.value.image == disk[|disk| - 1 := steps[|steps| - 1]])
    {
      hide Parse, Decode, IndexOf, Lawful, ImageOk, PrintIndex, Items, RecoverActive, Log.Core, Log.ActiveIndexed;
      hide AllSolid, ImageSized, ImageFilled, Log.CrashReady, Log.Sized, Log.Packed, Steps, DuringOpen, LeftBehind;
      hide Replayable;
      steps := [];
      if disk == [] {
        var log := new Log.Create(build, config);
        return Ok(log), steps;
      }
      var n := |disk| - 1;
      var sealed, older := OpenSealed(config.indexInterval, disk, n);
      if sealed.Err? {
        return Err(sealed.error), steps;
      }
      var recovered;
      recovered, steps := RecoverActiveSegment(build, config.indexInterval, disk[n]);
      if recovered.Err? {
        return Err(recovered.error), steps;
      }
      var active := IndexedSegment(recovered.value.segment, recovered.value.index);
      var segments := sealed.value + [active];
      ghost var image := Reopen(build, config.indexInterval, disk).value;
      ReopenedIndexes(build, config.indexInterval, origin, disk, history, durable);
      forall i | 0 <= i < n
        ensures Mirrors(config.indexInterval, segments[i], image[i])
        ensures segments[i].index.entries == IndexOf(Items(build, image[i].data), config.indexInterval).entries
      {
        assert segments[i] == sealed.value[i] && image[i] == disk[i];
      }
      assert Mirrors(config.indexInterval, segments[n], image[n]);
      var log := new Log.FromParts(build, config, segments, disk[n].base + recovered.value.count,
                                   Snapshot(image, history, durable),
                                   origin, writes, rotations, older + {active.segment, active.index});
      return Ok(log), steps;
    }
  }

  /**
   A crash after any file operation of any run, followed by an open: the new log holds exactly
   the records up to some offset `end`, at their old offsets, and `end` is not below the durable
   mark of that moment nor below the start of its active segment. What was durable still is, so
   the same holds of the next crash.
   */
  method ReopenAfterCrash(log: Log, ghost t: nat, disk: seq<DiskSegment>) returns (r: Result<Log>, ghost end: nat)
    requires log.Valid() && log.CrashReady() && t < |log.trace|
    requires ImageSurvives(log.build, log.trace[t].image, disk)
    ensures r.Ok? && fresh(r.value) && fresh(r.value.repr) && r.value.Valid() && r.value.CrashReady()
    ensures var was := log.trace[t];
            && was.image != []
            && was.durable <= end <= log.origin + |was.history|
            && log.origin <= was.image[|was.image| - 1].base <= end
            && r.value.origin == log.origin && r.value.history == was.history[..end - log.origin]
            && r.value.durable == was.durable
            && |r.value.image| > 0 && r.value.First() == was.image[0].base
    ensures r.value.writes == log.writes && (log.Sized() ==> r.value.Sized())
    ensures r.value.rotations == log.rotations && (log.Packed() ==> r.value.Packed())
  {
    hide Parse, Decode, IndexOf, Lawful, ImageOk, Items, AllSolid, ImageSurvives, Reopen, Log.ActiveIndexed, Mirrors;
    hide ImageSized, ImageFilled, Follows, Replayable;
    ghost var b, interval, was := log.build, log.config.indexInterval, log.trace[t];
    assert ImageOk(b, interval, log.origin, was) && AllSolid(b, was.image);
    end := CrashRecovery(b, interval, log.origin, was, disk);
    SurvivorsExist(b, interval, log.origin, was, disk);
    GoodIsReplayable(b, interval, log.origin, disk, was.history[..end - log.origin], was.durable);
    if log.Sized() && log.config.compression.NoCompression? {
      assert ImageSized(log.config.segmentSizeThreshold, log.writes, was.image);
      ShorterIsSized(log.config.segmentSizeThreshold, log.writes, was.image, Reopen(b, interval, disk).value);
    }
    if log.Packed() {
      assert ImageFilled(log.config.segmentSizeThreshold, log.rotations, was.image);
      SameIsFilled(log.config.segmentSizeThreshold, log.rotations, was.image, Reopen(b, interval, disk).value);
    }
    ghost var steps;
    r, steps := Log.Open(log.build, log.config, disk, log.origin, was.history[..end - log.origin], was.durable,
                         log.writes, log.rotations);
  }

  /** Once a log is synced to its end, as it is when its writer has exited, no crash loses anything. */
  method ReopenSynced(log: Log, disk: seq<DiskSegment>) returns (r: Result<Log>)
    requires log.Valid() && log.CrashReady() && log.durable == log.nextOffset && |log.image| > 0
    requires ImageSurvives(log.build, log.image, disk)
    ensures r.Ok? && fresh(r.value) && fresh(r.value.repr) && r.value.Valid() && r.value.CrashReady()
    ensures r.value.origin == log.origin && r.value.history == log.history
    ensures r.value.nextOffset == log.nextOffset == r.value.durable
    ensures |r.value.image| > 0 && r.value.First() == log.First()
  {
    hide Log.Valid, Log.CrashReady, Log.Sized, ImageOk, TraceOk, ImageSurvives;
    log.ValidTrace();
    ghost var end;
    r, end := ReopenAfterCrash(log, |log.trace| - 1, disk);
    r.value.ValidTrace();
    assert log.history[..|log.history|] == log.history;
  }

  lemma SurvivorsExist(b: Build, interval: nat, origin: nat, snap: Snapshot, disk: seq<DiskSegment>)
    requires ImageOk(b, interval, origin, snap) && ImageSurvives(b, snap.image, disk)
    ensures disk != [] && snap.image != []
    ensures forall i :: 0 <= i < |disk| ==> disk[i].synced <= |disk[i].data|
  {
    hide Holds, Sealed, Covered, KeepsSynced, SegmentItems, TornTail;
    forall i | 0 <= i < |disk|
      ensures disk[i].synced <= |disk[i].data|
    {
      assert Survives(b, snap.image[i], disk[i]);
    }
  }

  /**
   Closing and opening again, without a crash, finds every retained record at its offset, and what
   was durable still is.
   */
  method ReopenCleanly(log: Log) returns (r: Result<Log>)
    requires log.Valid() && |log.image| > 0
    ensures r.Ok? && fresh(r.value) && fresh(r.value.repr) && r.value.Valid()
    ensures r.value.origin == log.origin && r.value.history == log.history && r.value.durable == log.durable
    ensures |r.value.image| > 0 && r.value.First() == log.First() && r.value.nextOffset == log.nextOffset
    ensures log.CrashReady() ==> r.value.CrashReady()
    ensures r.value.writes == log.writes && (log.Sized() ==> r.value.Sized())
    ensures r.value.rotations == log.rotations && (log.Packed() ==> r.value.Packed())
  {
    hide Parse, Lawful, ImageOk, Items, Reopen, Log.Core, Log.ActiveIndexed, AllSolid, ImageSized, ImageFilled, TraceOk;
    hide Replayable;
    log.CoreFacts();
    log.CoreTrace();
    CleanReopen(log.build, log.config.indexInterval, log.origin, log.Now());
    SyncedWithin(log.build, log.config.indexInterval, log.origin, log.Now());
    GoodIsReplayable(log.build, log.config.indexInterval, log.origin, log.image, log.history, log.durable);
    if log.Sized() && log.config.compression.NoCompression? {
      assert ImageSized(log.config.segmentSizeThreshold, log.writes, log.trace[|log.trace| - 1].image);
      ShorterIsSized(log.config.segmentSizeThreshold, log.writes, log.image,
                     Reopen(log.build, log.config.indexInterval, log.image).value);
    }
    if log.Packed() {
      assert ImageFilled(log.config.segmentSizeThreshold, log.rotations, log.trace[|log.trace| - 1].image);
      SameIsFilled(log.config.segmentSizeThreshold, log.rotations, log.image,
                   Reopen(log.build, log.config.indexInterval, log.image).value);
    }
    var disk := DiskOf(log);
    ghost var steps;
    r, steps := Log.Open(log.build, log.config, disk, log.origin, log.history, log.durable, log.writes, log.rotations);
  }

  /**
   Arbitrary bytes in the active segment, behind any good sealed segments: the open succeeds
   exactly when the bytes recover, and every offset from the first base on then reads back: the
   sealed records first, and behind them the records found.
   */
  method OpenArbitraryActive(build: Build, config: LogConfig, older: seq<DiskSegment>, s: DiskSegment, offset: nat,
                             ghost origin: nat, ghost history: seq<Record>)
    returns (r: Result<Log>, read: Result<Option<Record>>)
    requires Lawful(build) && s.synced <= |s.data| && Replayable(build, config.indexInterval, s.data)
    requires ImageOk(build, config.indexInterval, origin, Snapshot(older + [s.(data := [], synced := 0)], history, 0))
    ensures r.Ok? <==> RecoverActive(build, s.data).Ok?
    ensures r.Ok? ==> fresh(r.value) && fresh(r.value.repr) && r.value.Valid()
    ensures r.Ok? ==>
              var all := history + RecordsOf(Items(build, s.data));
              && r.value.origin == origin && r.value.history == all
              && origin <= (older + [s])[0].base
              && read == Ok(if (older + [s])[0].base <= offset < origin + |all| then Some(all[offset - origin])
                            else None)
  {
    hide Parse, Decode, IndexOf, Lawful, Items, Log.Valid, RecoverActive, AllSolid, ImageSized, ImageFilled, ImageOk;
    hide RecordsOf, Replayable, Steps, DuringOpen, LeftBehind, Log.CrashReady, Log.Sized, Log.Packed;
    ghost var before := Snapshot(older + [s.(data := [], synced := 0)], history, 0);
    var disk := older + [s];
    SealedHaveIndexes(build, config.indexInterval, origin, before);
    assert forall i :: 0 <= i < |older| ==> disk[i] == before.image[i];
    assert !MissingIndex(disk);
    SyncedWithin(build, config.indexInterval, origin, before);
    if RecoverActive(build, s.data).Ok? {
      ArbitraryActiveOpens(build, config.indexInterval, origin, older, s, history, 0);
    }
    ghost var steps;
    read := Ok(None);
    r, steps := Log.Open(build, config, disk, origin, history + RecordsOf(Items(build, s.data)), 0, [], []);
    if r.Ok? {
      r.value.Shape();
      r.value.VisibleIsDefined();
      read := r.value.ReadRecordAt(offset);
    }
  }

  lemma SyncedWithin(b: Build, interval: nat, origin: nat, snap: Snapshot)
    requires ImageOk(b, interval, origin, snap)
    ensures forall i :: 0 <= i < |snap.image| ==> snap.image[i].synced <= |snap.image[i].data|
  {
    hide Sealed, Covered, IndexFits, SegmentItems, Clean;
    forall i | 0 <= i < |snap.image|
      ensures snap.image[i].synced <= |snap.image[i].data|
    {
      assert Holds(b, interval, origin, snap.history, snap.image[i]);
    }
  }

  /** The files behind the log's segments. */
  method DiskOf(log: Log) returns (disk: seq<DiskSegment>)
    requires log.Valid()
    ensures disk == log.image
  {
    hide Parse, Decode, IndexOf, Lawful, ImageOk, Items, TraceOk, Log.ActiveIndexed;
    disk := [];
    for i := 0 to |log.segments|
      invariant disk == log.image[..i]
    {
      var p := log.segments[i];
      assert Mirrors(log.config.indexInterval, p, log.image[i]);
      disk := disk + [DiskSegment(p.segment.baseOffset, p.segment.file.data, p.segment.file.synced,
                                  Some(p.index.file), p.index.synced)];
    }
  }

  method OpenSealed(interval: nat, disk: seq<DiskSegment>, n: nat)
    returns (r: Result<seq<IndexedSegment>>, ghost repr: set<object>)
    requires n <= |disk|
    requires forall i :: 0 <= i < |disk| ==> disk[i].synced <= |disk[i].data|
    ensures r.Ok? <==> forall i :: 0 <= i < n ==> disk[i].index.Some?
    ensures r.Err? ==> r.error == MissingFile
    ensures r.Ok? ==>
              && |r.value| == n && fresh(repr)
              && (forall i :: 0 <= i < n ==> r.value[i].segment in repr && r.value[i].index in repr)
              && (forall i :: 0 <= i < n ==> Mirrors(interval, r.value[i], disk[i]))
              && (forall i :: 0 <= i < n ==> r.value[i].index.entries == ParseIndex(disk[i].index.value))
              && (forall i, j :: 0 <= i < j < n ==>
                    r.value[i].segment != r.value[j].segment && r.value[i].index != r.value[j].index)
  {
    hide ParseIndex;
    var segments: seq<IndexedSegment> := [];
    repr := {};
    for k := 0 to n
      invariant |segments| == k && forall i :: 0 <= i < k ==> disk[i].index.Some?
      invariant fresh(repr) && forall i :: 0 <= i < k ==> segments[i].segment in repr && segments[i].index in repr
      invariant forall i :: 0 <= i < k ==> Mirrors(interval, segments[i], disk[i])
      invariant forall i :: 0 <= i < k ==> segments[i].index.entries == ParseIndex(disk[i].index.value)
      invariant forall i, j :: 0 <= i < j < k ==>
                  segments[i].segment != segments[j].segment && segments[i].index != segments[j].index
    {
      var segment := new Segment.Open(disk[k].base, disk[k].data, disk[k].synced);
      if disk[k].index.None? {
        return Err(MissingFile), repr;
      }
      var index := new SparseIndex.Open(disk[k].base, interval, disk[k].index.value, disk[k].indexSynced);
      segments := segments + [IndexedSegment(segment, index)];
      repr := repr + {segment, index};
    }
    return Ok(segments), repr;
  }

  /** The index files of a good image parse back to the indexes of its segments. */
  lemma ReopenedIndexes(b: Build, interval: nat, origin: nat, disk: seq<DiskSegment>, history: seq<Record>,
                        durable: nat)
    requires disk != [] && Reopen(b, interval, disk).Ok?
    requires ImageOk(b, interval, origin, Snapshot(Reopen(b, interval, disk).value, history, durable))
    ensures var n, image := |disk| - 1, Reopen(b, interval, disk).value;
            && (forall i :: 0 <= i < n ==>
                  && image[i] == disk[i] && disk[i].index.Some?
                  && ParseIndex(disk[i].index.value) == IndexOf(Items(b, disk[i].data), interval).entries)
            && disk[n].base + |Items(b, image[n].data)| == origin + |history|
  {
    hide Parse, Decode, IndexOf, Items, RecoverActive, PrintIndex, ParseIndex;
    var n, image := |disk| - 1, Reopen(b, interval, disk).value;
    forall i | 0 <= i < n
      ensures ParseIndex(disk[i].index.value) == IndexOf(Items(b, disk[i].data), interval).entries
    {
      assert image[i] == disk[i] && Sealed(b, interval, image[i]);
      assert Holds(b, interval, origin, history, image[i]);
      var entries := IndexOf(Items(b, disk[i].data), interval).entries;
      IndexFileRoundTrip(entries, []);
      assert PrintIndex(entries) + [] == PrintIndex(entries);
    }
  }

  lemma EmptyImageIsGood(b: Build, interval: nat, empty: DiskSegment)
    requires empty == DiskSegment(0, [], 0, empty.index, 0)
    ensures ImageOk(b, interval, 0, Snapshot([empty], [], 0)) && AllSolid(b, [empty])
    ensures Items(b, []) == [] && IndexOf([], interval) == IndexState([], 0) && PrintIndex([]) == []
  {
    hide Decode, IndexFits, Solid;
    EmptyIsFine(b, interval);
    assert Holds(b, interval, 0, [], empty);
  }

  // The four disk states of a rotation: the old `.log` synced, its `.index` synced, and the new
  // `.log` without, then with, its `.index`.
  ghost predicate RotatedThrough(before: seq<DiskSegment>, states: seq<Snapshot>, after: seq<DiskSegment>, next: nat) {
    && |states| == 4
    && states[0].image == AfterOp(before, SyncLog)
    && states[1].image == AfterOp(states[0].image, SyncIndex) && states[1].image <= after
    && states[2].image == AfterOp(states[1].image, CreateLog(next))
    && states[3].image == AfterOp(states[2].image, CreateIndex) == after
  }

  lemma RotationStates(before: seq<DiskSegment>, one: Snapshot, two: Snapshot, three: Snapshot, four: Snapshot,
                       next: nat)
    requires one.image == AfterOp(before, SyncLog) && two.image == AfterOp(one.image, SyncIndex)
    requires two.image <= four.image
    requires three.image == AfterOp(two.image, CreateLog(next)) && four.image == AfterOp(three.image, CreateIndex)
    ensures RotatedThrough(before, [one, two, three, four], four.image, next)
  {
    hide AfterOp;
  }

  // The two disk states of a rotation: the new `.log` without, then with, its `.index`.
  lemma RotationTrace(b: Build, interval: nat, origin: nat, snap: Snapshot, trace: seq<Snapshot>)
    returns (bare: Snapshot, step: Snapshot)
    requires ImageOk(b, interval, origin, snap) && TraceOk(b, interval, origin, trace) && trace != []
    requires trace[|trace| - 1] == snap
    requires Sealed(b, interval, snap.image[|snap.image| - 1])
    ensures var next := origin + |snap.history|;
            && bare == snap.(image := AfterOp(snap.image, CreateLog(next)))
            && step == snap.(image := AfterOp(bare.image, CreateIndex))
            && step.image == snap.image + [DiskSegment(next, [], 0, Some([]), 0)]
    ensures ImageOk(b, interval, origin, step)
    ensures TraceOk(b, interval, origin, trace + [bare] + [step])
    ensures AllSolid(b, snap.image) ==> AllSolid(b, step.image)
    ensures AllSolid(b, snap.image) && TraceSolid(b, trace) ==> TraceSolid(b, trace + [bare] + [step])
  {
    hide ImageOk, AllSolid, TraceOk, TraceSolid, Sealed;
    bare := RotationKeepsImage(b, interval, origin, snap, None);
    TraceGrows(b, interval, origin, trace, bare, CreateLog(origin + |snap.history|));
    step := RotationKeepsImage(b, interval, origin, snap, Some([]));
    assert step.image == AfterOp(bare.image, CreateIndex);
    TraceGrows(b, interval, origin, trace + [bare], step, CreateIndex);
  }

  lemma RotationStaysSized(threshold: nat, writes: seq<WriteMade>, trace: seq<Snapshot>, bare: Snapshot,
                           step: Snapshot, next: nat)
    requires trace != [] && bare.image == AfterOp(trace[|trace| - 1].image, CreateLog(next))
    requires step.image == AfterOp(bare.image, CreateIndex)
    ensures TraceSized(threshold, writes, trace) ==> TraceSized(threshold, writes, trace + [bare] + [step])
  {
    hide TraceSized, AfterOp;
    TraceStaysSized(threshold, writes, trace, bare, CreateLog(next));
    TraceStaysSized(threshold, writes, trace + [bare], step, CreateIndex);
  }

  lemma EmptyIndex(b: Build, interval: nat)
    ensures Items(b, []) == [] && IndexOf([], interval) == IndexState([], 0) && PrintIndex([]) == []
  {
  }

  // ---------------------------------------------------------------- retention on values

  function TotalBytes(image: seq<DiskSegment>): (n: nat) {
    if image == [] then 0 else TotalBytes(image[..|image| - 1]) + |image[|image| - 1].data|
  }

  lemma DropDrop<T>(s: seq<T>, a: nat, m: nat)
    requires a + m <= |s|
    ensures s[a..][m..] == s[a + m..]
  {
  }

  // The limits ask for exactly this many deletions: the longest run of aged sealed segments, and
  // then the fewest further ones that bring the rest under the byte cap.
  ghost predicate RetentionAsks(config: LogConfig, now: int, mtimes: seq<int>, image: seq<DiskSegment>, deleted: nat) {
    && deleted < |image| == |mtimes|
    && var aged := if config.maxSegmentAge.None? then 0
                   else AgedPrefix(mtimes, now - config.maxSegmentAge.value, |mtimes| - 1);
       && aged <= deleted
       && (config.maxPartitionBytes.None? ==> deleted == aged)
       && (config.maxPartitionBytes.Some? ==>
             && (forall k :: aged <= k < deleted ==> TotalBytes(image[k..]) > config.maxPartitionBytes.value)
             && (deleted == |mtimes| - 1 || TotalBytes(image[deleted..]) <= config.maxPartitionBytes.value))
  }

  lemma OverCapShift(image: seq<DiskSegment>, aged: nat, more: nat, cap: nat)
    requires aged + more <= |image|
    requires forall k :: 0 <= k < more ==> TotalBytes(image[aged..][k..]) > cap
    ensures forall k :: aged <= k < aged + more ==> TotalBytes(image[k..]) > cap
  {
    hide TotalBytes;
    forall k | aged <= k < aged + more
      ensures TotalBytes(image[k..]) > cap
    {
      DropDrop(image, aged, k - aged);
      assert TotalBytes(image[aged..][k - aged..]) > cap;
    }
  }

  // How many leading segments, at most `limit`, were last modified before the cutoff.
  function AgedPrefix(mtimes: seq<int>, cutoff: int, limit: nat): (k: nat)
    requires limit <= |mtimes|
    ensures k <= limit
    ensures forall i :: 0 <= i < k ==> mtimes[i] < cutoff
    ensures k < limit ==> mtimes[k] >= cutoff
  {
    if limit == 0 || mtimes[0] >= cutoff then 0 else 1 + AgedPrefix(mtimes[1..], cutoff, limit - 1)
  }

  lemma AgedPrefixIs(mtimes: seq<int>, cutoff: int, limit: nat, k: nat)
    requires k <= limit <= |mtimes|
    requires forall i :: 0 <= i < k ==> mtimes[i] < cutoff
    requires k < limit ==> mtimes[k] >= cutoff
    ensures AgedPrefix(mtimes, cutoff, limit) == k
  {
  }

  // ---------------------------------------------------------------- reads on values

  /** Decodes forward from `start` until the record numbered `target`. */
  method DecodeForward(b: Build, buf: Bytes, start: nat, target: nat) returns (r: Result<Option<Record>>)
    ensures var p := Parse(b, buf);
            r == if start <= target < start + |p.items| then Ok(Some(p.items[target - start].record))
                 else if p.fault.None? || p.fault.value.Truncated? then Ok(None)
                 else Err(p.fault.value)
  {
    hide Decode;
    var slice, current := buf, start;
    while slice != []
      invariant start <= current
      invariant current - start <= |Items(b, buf)|
      invariant Parse(b, slice) == Parsed(Items(b, buf)[current - start..], Parse(b, buf).fault)
      invariant target < start || current <= target
      decreases |slice|
    {
      match Decode(b, slice) {
        case Ok(d) =>
          if current == target {
            return Ok(Some(d.record));
          }
          assert |Items(b, slice)| > 0;
          assert Items(b, buf)[current - start..][1..] == Items(b, buf)[current - start + 1..];
          slice := slice[d.consumed..];
          current := current + 1;
        case Err(error) =>
          if error.Truncated? {
            return Ok(None);
          }
          return Err(error);
      }
    }
    return Ok(None);
  }

  lemma FloorOfClamped(entries: seq<Entry>, k: nat)
    requires forall i :: 0 <= i < |entries| ==> Fits(entries[i])
    requires k >= TWO_32
    ensures Floor(entries, U32_MAX) == Floor(entries, k)
  {
  }

  // Where a lookup in a segment lands, and that decoding from there finds the record.
  lemma LookupInSegment(b: Build, interval: nat, origin: nat, history: seq<Record>, s: DiskSegment, offset: nat)
    requires Holds(b, interval, origin, history, s) && s.base <= offset < End(b, s)
    ensures var seek := LookupIn(IndexOf(Items(b, s.data), interval).entries, s.base, offset);
            && seek.filePosition < |s.data|
            && var p := Parse(b, s.data[seek.filePosition..]);
               && p.fault.None?
               && seek.startingOffset <= offset < seek.startingOffset + |p.items|
               && p.items[offset - seek.startingOffset].record == history[offset - origin]
  {
    hide Parse, Decode, IndexOf;
    var items, k := Items(b, s.data), offset - s.base;
    var entries := IndexOf(items, interval).entries;
    SeekThenDecode(b, s.data, interval, k);
    if k >= TWO_32 {
      FloorOfClamped(entries, k);
    }
    assert RecordsOf(items)[k] == history[s.base - origin..End(b, s) - origin][k];
  }

  lemma LookupReaches(b: Build, interval: nat, origin: nat, snap: Snapshot, at: nat, offset: nat)
    requires ImageOk(b, interval, origin, snap) && at < |snap.image|
    requires offset < origin + |snap.history|
    requires if offset < snap.image[0].base then at == 0
             else snap.image[at].base <= offset && (at + 1 < |snap.image| ==> offset < snap.image[at + 1].base)
    ensures var s := snap.image[at];
            var seek := LookupIn(IndexOf(Items(b, s.data), interval).entries, s.base, offset);
            && StrictlyIncreasing(Keys(IndexOf(Items(b, s.data), interval).entries))
            && seek.filePosition <= |s.data| && origin <= s.base
            && (offset < snap.image[0].base ==>
                  seek == Seek(0, s.base) && Clean(b, s.data) && offset < s.base)
            && (snap.image[0].base <= offset ==>
                  var p := Parse(b, s.data[seek.filePosition..]);
                  && p.fault.None? && seek.filePosition < |s.data|
                  && seek.startingOffset <= offset < seek.startingOffset + |p.items|
                  && p.items[offset - seek.startingOffset].record == snap.history[offset - origin])
  {
    hide Parse, Decode, IndexOf, IndexFits, Floor, Total, Covered;
    var s := snap.image[at];
    assert Holds(b, interval, origin, snap.history, s);
    ParseAccounts(b, s.data);
    IndexIsExact(Items(b, s.data), interval);
    if snap.image[0].base <= offset {
      if at < |snap.image| - 1 {
        assert Sealed(b, interval, s) && snap.image[at + 1].base == End(b, s);
      }
      LookupInSegment(b, interval, origin, snap.history, s, offset);
    }
  }
}
