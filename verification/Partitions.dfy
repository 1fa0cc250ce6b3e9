/**
 The writer task of one partition: it drains an inbox, coalesces the appends it finds ready
 into one write, publishes the high-water mark, answers, and syncs before it exits.
 */
module Partitions {
  import opened ByteStrings
  import opened Compressions
  import opened DiskImages
  import opened Framing
  import opened Logs
  import opened Records

  datatype Command =
    | Append(record: Record)
    | AppendBatch(records: seq<Record>)
    | ReadAt(offset: nat)
    | Sync

  datatype Reply =
    | Appended(offset: Result<nat>)
    | BatchAppended(offsets: Result<seq<nat>>)
    | ReadDone(record: Result<Option<Record>>)
    | Synced

  // ---------------------------------------------------------------- one command at a time

  // A plain sequence of records with a moving lower bound: what the log refines.
  datatype PlainLog = PlainLog(origin: nat, first: nat, history: seq<Record>) {
    function Next(): (n: nat) {
      origin + |history|
    }

    function Read(offset: nat): (r: Option<Record>) {
      if origin <= first <= offset < Next() then Some(history[offset - origin]) else None
    }
  }

  datatype Ran = Ran(log: PlainLog, replies: seq<Reply>)

  // Whether the topic's codec is in the build decides every append alike.
  datatype Codec = Codec(compression: Compression, available: bool)

  function OneResult(c: Codec, offset: nat): (r: Result<nat>) {
    if c.available then Ok(offset) else Err(CompressionUnavailable(c.compression))
  }

  function BatchResult(c: Codec, offsets: seq<nat>): (r: Result<seq<nat>>) {
    if c.available then Ok(offsets) else Err(CompressionUnavailable(c.compression))
  }

  function Take(c: Codec, log: PlainLog, records: seq<Record>): (next: PlainLog) {
    if c.available then log.(history := log.history + records) else log
  }

  function Exec(c: Codec, log: PlainLog, cmd: Command): (r: Ran) {
    match cmd
    case Append(record) => Ran(Take(c, log, [record]), [Appended(OneResult(c, log.Next()))])
    case AppendBatch(records) =>
      if records == [] then Ran(log, [BatchAppended(Ok([]))])
      else Ran(Take(c, log, records), [BatchAppended(BatchResult(c, Consecutive(log.Next(), |records|)))])
    case ReadAt(offset) => Ran(log, [ReadDone(Ok(log.Read(offset)))])
    case Sync => Ran(log, [Synced])
  }

  function ExecAll(c: Codec, log: PlainLog, cmds: seq<Command>): (r: Ran) {
    if cmds == [] then Ran(log, []) else
    var before := ExecAll(c, log, cmds[..|cmds| - 1]);
    var last := Exec(c, before.log, cmds[|cmds| - 1]);
    Ran(last.log, before.replies + last.replies)
  }

  lemma ExecNothing(c: Codec, log: PlainLog)
    ensures ExecAll(c, log, []) == Ran(log, [])
  {
  }

  lemma ExecSnoc(c: Codec, log: PlainLog, cmds: seq<Command>, cmd: Command)
    ensures ExecAll(c, log, cmds + [cmd])
         == Ran(Exec(c, ExecAll(c, log, cmds).log, cmd).log,
                ExecAll(c, log, cmds).replies + Exec(c, ExecAll(c, log, cmds).log, cmd).replies)
  {
    assert (cmds + [cmd])[..|cmds|] == cmds;
  }

  lemma {:induction false} ExecConcat(c: Codec, log: PlainLog, x: seq<Command>, y: seq<Command>)
    ensures ExecAll(c, log, x + y)
         == Ran(ExecAll(c, ExecAll(c, log, x).log, y).log,
                ExecAll(c, log, x).replies + ExecAll(c, ExecAll(c, log, x).log, y).replies)
    decreases |y|
  {
    hide Exec;
    if y == [] {
      assert x + y == x;
    } else {
      var most := y[..|y| - 1];
      ExecConcat(c, log, x, most);
      assert (x + y)[..|x + y| - 1] == x + most;
    }
  }

  function AppendRun(records: seq<Record>): (cmds: seq<Command>)
    ensures |cmds| == |records|
  {
    seq(|records|, i requires 0 <= i < |records| => Append(records[i]))
  }

  function AppendReplies(c: Codec, from: nat, n: nat): (replies: seq<Reply>)
    ensures |replies| == n
  {
    seq(n, i requires 0 <= i < n => Appended(OneResult(c, from + i)))
  }

  /** Sending records one by one is one batch as far as the log and every answer can tell. */
  lemma {:induction false} AppendRunIsOneBatch(c: Codec, log: PlainLog, records: seq<Record>)
    ensures ExecAll(c, log, AppendRun(records)) == Ran(Take(c, log, records), AppendReplies(c, log.Next(), |records|))
    decreases |records|
  {
    if records == [] {
      assert log.history + records == log.history;
    } else {
      var n := |records| - 1;
      var most, last := records[..n], records[n];
      AppendRunIsOneBatch(c, log, most);
      assert AppendRun(records) == AppendRun(most) + [Append(last)];
      ExecSnoc(c, log, AppendRun(most), Append(last));
      assert log.history + records == log.history + most + [last];
      assert AppendReplies(c, log.Next(), n + 1)
          == AppendReplies(c, log.Next(), n) + [Appended(OneResult(c, log.Next() + n))];
    }
  }

  lemma {:induction false} HistoryOnlyGrows(c: Codec, log: PlainLog, cmds: seq<Command>, k: nat)
    requires k <= |cmds|
    ensures ExecAll(c, log, cmds[..k]).log.history <= ExecAll(c, log, cmds).log.history
    ensures ExecAll(c, log, cmds).log.origin == log.origin && ExecAll(c, log, cmds).log.first == log.first
    ensures |ExecAll(c, log, cmds).replies| == |cmds|
    ensures ExecAll(c, log, cmds[..k]).replies <= ExecAll(c, log, cmds).replies
    decreases |cmds|
  {
    if k == |cmds| {
      assert cmds[..k] == cmds;
      if k > 0 {
        HistoryOnlyGrows(c, log, cmds[..k - 1], 0);
      }
    } else {
      HistoryOnlyGrows(c, log, cmds[..|cmds| - 1], k);
      assert cmds[..|cmds| - 1][..k] == cmds[..k];
    }
  }

  lemma ReplyAt(c: Codec, log: PlainLog, cmds: seq<Command>, k: nat)
    requires k < |cmds|
    ensures |ExecAll(c, log, cmds).replies| == |cmds|
    ensures [ExecAll(c, log, cmds).replies[k]] == Exec(c, ExecAll(c, log, cmds[..k]).log, cmds[k]).replies
  {
    hide Exec;
    HistoryOnlyGrows(c, log, cmds, k + 1);
    HistoryOnlyGrows(c, log, cmds[..k], 0);
    ExecSnoc(c, log, cmds[..k], cmds[k]);
    assert cmds[..k] + [cmds[k]] == cmds[..k + 1];
  }

  /**
   Batch atomicity: whatever else is in the inbox, a read before an AppendBatch sees none of
   its records and a read after it sees every one of them, at contiguous offsets.
   */
  lemma BatchIsAtomic(c: Codec, log: PlainLog, cmds: seq<Command>, i: nat, j: nat, m: nat)
    requires i < |cmds| && cmds[i].AppendBatch? && m < |cmds[i].records| && c.available
    requires log.origin <= log.first <= log.Next()
    requires j < |cmds| && j != i
    requires cmds[j] == ReadAt(ExecAll(c, log, cmds[..i]).log.Next() + m)
    ensures |ExecAll(c, log, cmds).replies| == |cmds|
    ensures ExecAll(c, log, cmds).replies[i]
         == BatchAppended(Ok(Consecutive(ExecAll(c, log, cmds[..i]).log.Next(), |cmds[i].records|)))
    ensures ExecAll(c, log, cmds).replies[j] == ReadDone(Ok(if j < i then None else Some(cmds[i].records[m])))
  {
    hide ExecAll, Consecutive;
    ReplyAt(c, log, cmds, i);
    ReplyAt(c, log, cmds, j);
    var before := ExecAll(c, log, cmds[..i]).log;
    ExecNothing(c, log);
    HistoryOnlyGrows(c, log, cmds[..i], 0);
    HistoryOnlyGrows(c, log, cmds[..j], 0);
    assert cmds[..i][..0] == [];
    if j < i {
      HistoryOnlyGrows(c, log, cmds[..i], j);
      assert cmds[..i][..j] == cmds[..j];
    } else {
      ExecSnoc(c, log, cmds[..i], cmds[i]);
      assert cmds[..i] + [cmds[i]] == cmds[..j][..i + 1];
      HistoryOnlyGrows(c, log, cmds[..j], i + 1);
      assert ExecAll(c, log, cmds[..j][..i + 1]).log.history == before.history + cmds[i].records;
      assert (before.history + cmds[i].records)[|before.history| + m] == cmds[i].records[m];
    }
  }

  // ---------------------------------------------------------------- the writer task

  // An answer and the high-water mark that was published when it was sent.
  datatype Sent = Sent(reply: Reply, highWaterMark: nat)

  function Replies(sent: seq<Sent>): (replies: seq<Reply>)
    ensures |replies| == |sent|
  {
    seq(|sent|, i requires 0 <= i < |sent| => sent[i].reply)
  }

  // No offset is acknowledged before the mark has moved past it.
  ghost predicate PublishedFirst(s: Sent) {
    && (s.reply.Appended? && s.reply.offset.Ok? ==> s.reply.offset.value < s.highWaterMark)
    && (s.reply.BatchAppended? && s.reply.offsets.Ok? ==>
          forall i :: 0 <= i < |s.reply.offsets.value| ==> s.reply.offsets.value[i] < s.highWaterMark)
  }

  lemma RepliesConcat(x: seq<Sent>, y: seq<Sent>)
    ensures Replies(x + y) == Replies(x) + Replies(y)
  {
  }

  // The marks published with the answers never went down and are at most `now`.
  ghost predicate MarksInOrder(sent: seq<Sent>, now: nat) {
    && (forall i, j :: 0 <= i < j < |sent| ==> sent[i].highWaterMark <= sent[j].highWaterMark)
    && (forall i :: 0 <= i < |sent| ==> sent[i].highWaterMark <= now)
  }

  // ---------------------------------------------------------------- what a reader can see of a batch

  datatype Batch = Batch(from: nat, records: seq<Record>)

  // A reader sees every record of the batch, or none.
  ghost predicate WholeOrNone(view: PlainLog, b: Batch) {
    || (forall o: nat :: b.from <= o < b.from + |b.records| ==> view.Read(o) == Some(b.records[o - b.from]))
    || (forall o: nat :: b.from <= o < b.from + |b.records| ==> view.Read(o) == None)
  }

  ghost predicate InLog(log: PlainLog, b: Batch) {
    && log.origin <= b.from && b.from + |b.records| <= log.Next()
    && log.history[b.from - log.origin..][..|b.records|] == b.records
  }

  // No segment starts inside the batch, so retention takes all of it or nothing.
  ghost predicate NotSplit(image: seq<DiskSegment>, b: Batch) {
    forall i :: 0 <= i < |image| ==> image[i].base <= b.from || b.from + |b.records| <= image[i].base
  }

  ghost predicate BatchesOk(log: PlainLog, image: seq<DiskSegment>, batches: seq<Batch>) {
    forall j :: 0 <= j < |batches| ==> InLog(log, batches[j]) && NotSplit(image, batches[j])
  }

  lemma BatchIsWhole(log: PlainLog, image: seq<DiskSegment>, b: Batch)
    requires InLog(log, b) && NotSplit(image, b) && image != [] && log.origin <= log.first == image[0].base
    ensures WholeOrNone(log, b)
  {
    var unswept := log.(first := log.origin);
    forall o: nat | b.from <= o < b.from + |b.records|
      ensures unswept.Read(o) == Some(b.records[o - b.from])
    {
      assert log.history[b.from - log.origin..][..|b.records|][o - b.from] == b.records[o - b.from];
    }
  }

  lemma BatchesStayOk(log: PlainLog, next: PlainLog, image: seq<DiskSegment>, after: seq<DiskSegment>,
                      batches: seq<Batch>)
    requires BatchesOk(log, image, batches) && next.origin == log.origin && log.history <= next.history
    requires BasesKept(image, after, log.Next())
    ensures BatchesOk(next, after, batches)
  {
    forall j | 0 <= j < |batches|
      ensures InLog(next, batches[j]) && NotSplit(after, batches[j])
    {
      var b := batches[j];
      assert InLog(log, b) && NotSplit(image, b);
      var at := b.from - log.origin;
      assert next.history[at..][..|b.records|] == log.history[at..][..|b.records|];
      forall i | 0 <= i < |after|
        ensures after[i].base <= b.from || b.from + |b.records| <= after[i].base
      {
        if i < |image| {
          assert after[i].base == image[i].base;
        }
      }
    }
  }

  lemma NewBatchIsOk(log: PlainLog, records: seq<Record>, image: seq<DiskSegment>, after: seq<DiskSegment>)
    requires BasesKept(image, after, log.Next()) && forall i :: 0 <= i < |image| ==> image[i].base <= log.Next()
    ensures var next := log.(history := log.history + records);
            InLog(next, Batch(log.Next(), records)) && NotSplit(after, Batch(log.Next(), records))
  {
    var next := log.(history := log.history + records);
    assert next.history[|log.history|..][..|records|] == records;
    forall i | 0 <= i < |after|
      ensures after[i].base <= log.Next()
    {
      if i < |image| {
        assert after[i].base == image[i].base;
      }
    }
  }

  lemma SweepKeepsBatches(log: PlainLog, first: nat, image: seq<DiskSegment>, d: nat, batches: seq<Batch>)
    requires BatchesOk(log, image, batches) && d <= |image|
    ensures BatchesOk(log.(first := first), image[d..], batches)
  {
    forall j | 0 <= j < |batches|
      ensures InLog(log.(first := first), batches[j]) && NotSplit(image[d..], batches[j])
    {
      assert InLog(log, batches[j]) && NotSplit(image, batches[j]);
    }
  }

  // The log as it was at each answer: it had the mark published with the answer, has only grown
  // since, and showed every batch whole or not at all.
  ghost predicate Witnessed(log: PlainLog, sent: seq<Sent>, views: seq<PlainLog>, batches: seq<Batch>) {
    && |views| == |sent|
    && (forall i :: 0 <= i < |views| ==> Seen(views[i], log, sent[i].highWaterMark))
    && (forall i, j :: 0 <= i < |views| && 0 <= j < |batches| ==> WholeOrNone(views[i], batches[j]))
  }

  ghost predicate Seen(view: PlainLog, log: PlainLog, mark: nat) {
    view.origin == log.origin && view.history <= log.history && view.Next() == mark
  }

  lemma WitnessesStay(log: PlainLog, next: PlainLog, sent: seq<Sent>, views: seq<PlainLog>, batches: seq<Batch>)
    requires Witnessed(log, sent, views, batches) && next.origin == log.origin && log.history <= next.history
    ensures Witnessed(next, sent, views, batches)
  {
    hide WholeOrNone;
    forall i | 0 <= i < |views|
      ensures Seen(views[i], next, sent[i].highWaterMark)
    {
      assert Seen(views[i], log, sent[i].highWaterMark);
    }
  }

  lemma WitnessAnswer(log: PlainLog, image: seq<DiskSegment>, sent: seq<Sent>, views: seq<PlainLog>,
                      batches: seq<Batch>, s: Sent)
    requires Witnessed(log, sent, views, batches) && BatchesOk(log, image, batches)
    requires image != [] && log.origin <= log.first == image[0].base && s.highWaterMark == log.Next()
    ensures Witnessed(log, sent + [s], views + [log], batches)
  {
    hide WholeOrNone, InLog, NotSplit;
    assert Seen(log, log, s.highWaterMark);
    forall j | 0 <= j < |batches|
      ensures WholeOrNone(log, batches[j])
    {
      BatchIsWhole(log, image, batches[j]);
    }
  }

  lemma WitnessBatch(log: PlainLog, records: seq<Record>, sent: seq<Sent>, views: seq<PlainLog>, batches: seq<Batch>)
    requires Witnessed(log, sent, views, batches)
    ensures Witnessed(log.(history := log.history + records), sent, views, batches + [Batch(log.Next(), records)])
  {
    var next, b := log.(history := log.history + records), Batch(log.Next(), records);
    WitnessesStay(log, next, sent, views, batches);
    hide InLog;
    forall i | 0 <= i < |views|
      ensures WholeOrNone(views[i], b)
    {
      assert Seen(views[i], log, sent[i].highWaterMark);
    }
    hide WholeOrNone;
    var all := batches + [b];
    assert forall i, j :: 0 <= i < |views| && 0 <= j < |batches| ==> WholeOrNone(views[i], batches[j]);
    assert forall i, j :: 0 <= i < |views| && 0 <= j < |all| ==> WholeOrNone(views[i], all[j]);
  }

  // The explicit batches of a run of commands, with the offsets they got.
  function BatchesOf(c: Codec, log: PlainLog, cmds: seq<Command>): (batches: seq<Batch>) {
    if cmds == [] then [] else
    var most, last := cmds[..|cmds| - 1], cmds[|cmds| - 1];
    BatchesOf(c, log, most) + BatchOf(c, ExecAll(c, log, most).log, last)
  }

  function BatchOf(c: Codec, log: PlainLog, cmd: Command): (batches: seq<Batch>) {
    if cmd.AppendBatch? && cmd.records != [] && c.available then [Batch(log.Next(), cmd.records)] else []
  }

  lemma BatchesSnoc(c: Codec, log: PlainLog, cmds: seq<Command>, cmd: Command)
    ensures BatchesOf(c, log, cmds + [cmd]) == BatchesOf(c, log, cmds) + BatchOf(c, ExecAll(c, log, cmds).log, cmd)
  {
    hide ExecAll, BatchOf;
    assert (cmds + [cmd])[..|cmds|] == cmds;
  }

  lemma {:induction false} BatchesConcat(c: Codec, log: PlainLog, x: seq<Command>, y: seq<Command>)
    ensures BatchesOf(c, log, x + y) == BatchesOf(c, log, x) + BatchesOf(c, ExecAll(c, log, x).log, y)
    decreases |y|
  {
    hide ExecAll, BatchOf;
    if y == [] {
      assert x + y == x;
    } else {
      var most := y[..|y| - 1];
      BatchesConcat(c, log, x, most);
      ExecConcat(c, log, x, most);
      assert (x + y)[..|x + y| - 1] == x + most;
    }
  }

  lemma {:induction false} AppendsAreNoBatches(c: Codec, log: PlainLog, records: seq<Record>)
    ensures BatchesOf(c, log, AppendRun(records)) == []
    decreases |records|
  {
    hide ExecAll;
    if records != [] {
      var n := |records| - 1;
      AppendsAreNoBatches(c, log, records[..n]);
      assert AppendRun(records)[..n] == AppendRun(records[..n]);
    }
  }

  lemma {:induction false} SweptBatches(c: Codec, x: PlainLog, y: PlainLog, cmds: seq<Command>)
    requires Shortened(x, y)
    ensures BatchesOf(c, x, cmds) == BatchesOf(c, y, cmds)
    decreases |cmds|
  {
    hide ExecAll;
    if cmds != [] {
      var most := cmds[..|cmds| - 1];
      SweptBatches(c, x, y, most);
      RetentionOnlyHides(c, x, y, most);
    }
  }

  // ---------------------------------------------------------------- batching the inbox

  // The batches that natural batching may form from a stretch of the inbox.
  ghost predicate MayCoalesce(cfg: LogConfig, records: seq<Record>) {
    && records != []
    && (|records| > 1 ==> |records| <= cfg.batchMaxRecords && WireTotal(records[..|records| - 1]) < cfg.batchMaxBytes)
  }

  ghost predicate AllAcceptable(b: Build, cfg: LogConfig, cmds: seq<Command>) {
    && (forall i :: 0 <= i < |cmds| && cmds[i].AppendBatch? ==> Acceptable(b, cfg, cmds[i].records))
    && (forall i, records: seq<Record> {:trigger cmds[i..], AppendRun(records)} ::
          0 <= i < |cmds| && MayCoalesce(cfg, records) && AppendRun(records) <= cmds[i..] ==>
            Acceptable(b, cfg, records))
  }

  // Natural batching is greedy: behind a first append, the appends taken stop only at another
  // command, when nothing more is ready, or at a batch limit.
  ghost predicate Coalesced(cfg: LogConfig, cmds: seq<Command>, taken: nat, ready: nat)
    requires cmds != []
  {
    && taken <= ready
    && (!cmds[|cmds| - 1].Append?
        || taken == ready
        || exists records :: cmds == AppendRun(records)
             && (|records| >= cfg.batchMaxRecords || WireTotal(records) >= cfg.batchMaxBytes))
  }

  lemma CoalesceStart(cfg: LogConfig, r: Record)
    ensures MayCoalesce(cfg, [r]) && WireTotal([r]) == WireSize(r) && AppendRun([r]) == [Append(r)]
  {
    hide WireSize;
    assert [r][..0] == [];
  }

  lemma CoalesceStep(cfg: LogConfig, records: seq<Record>, r: Record)
    requires records != [] && |records| < cfg.batchMaxRecords && WireTotal(records) < cfg.batchMaxBytes
    ensures MayCoalesce(cfg, records + [r])
    ensures WireTotal(records + [r]) == WireTotal(records) + WireSize(r)
    ensures AppendRun(records + [r]) == AppendRun(records) + [Append(r)]
  {
    hide WireSize, AppendRun;
    assert (records + [r])[..|records|] == records;
    AppendRunSnoc(records, r);
  }

  lemma AppendRunSnoc(records: seq<Record>, r: Record)
    ensures AppendRun(records + [r]) == AppendRun(records) + [Append(r)]
  {
  }

  lemma RestIsAcceptable(b: Build, cfg: LogConfig, cmds: seq<Command>, n: nat)
    requires AllAcceptable(b, cfg, cmds) && n <= |cmds|
    ensures AllAcceptable(b, cfg, cmds[n..])
  {
    hide Acceptable, MayCoalesce;
    var rest := cmds[n..];
    forall i, records: seq<Record> | 0 <= i < |rest| && MayCoalesce(cfg, records) && AppendRun(records) <= rest[i..]
      ensures Acceptable(b, cfg, records)
    {
      assert rest[i..] == cmds[n + i..];
    }
  }

  /** Without compression: the batch limit plus one record within 4 GiB is enough. */
  lemma UncompressedInboxAcceptable(b: Build, cfg: LogConfig, cmds: seq<Command>)
    requires cfg.compression.NoCompression? && cfg.segmentSizeThreshold <= TWO_32
    requires forall i :: 0 <= i < |cmds| && cmds[i].Append? ==> cfg.batchMaxBytes + WireSize(cmds[i].record) <= TWO_32
    requires forall i :: 0 <= i < |cmds| && cmds[i].AppendBatch? ==> WireTotal(cmds[i].records) <= TWO_32
    ensures AllAcceptable(b, cfg, cmds)
  {
    hide Acceptable;
    forall i | 0 <= i < |cmds| && cmds[i].AppendBatch?
      ensures Acceptable(b, cfg, cmds[i].records)
    {
      EachWithinTotal(cmds[i].records);
      UncompressedAcceptable(b, cfg, cmds[i].records);
    }
    forall i, records: seq<Record> | 0 <= i < |cmds| && MayCoalesce(cfg, records) && AppendRun(records) <= cmds[i..]
      ensures Acceptable(b, cfg, records)
    {
      var n := |records| - 1;
      assert AppendRun(records)[n] == cmds[i..][n] == cmds[i + n];
      EachWithinTotal(records);
      UncompressedAcceptable(b, cfg, records);
    }
  }

  lemma {:induction false} EachWithinTotal(records: seq<Record>)
    ensures forall i :: 0 <= i < |records| ==> WireSize(records[i]) <= WireTotal(records)
  {
    hide WireSize;
    if records != [] {
      EachWithinTotal(records[..|records| - 1]);
    }
  }

  // A retention sweep: the clock, the file times, the segments it found and how many it deleted.
  datatype Sweep = Sweep(now: int, mtimes: seq<int>, image: seq<DiskSegment>, deleted: nat)

  ghost predicate AllAsked(cfg: LogConfig, sweeps: seq<Sweep>) {
    forall i :: 0 <= i < |sweeps| ==>
      RetentionAsks(cfg, sweeps[i].now, sweeps[i].mtimes, sweeps[i].image, sweeps[i].deleted)
  }

  // The first offset after some sweeps: the base of the oldest segment the last one left.
  function FirstAfter(first: nat, sweeps: seq<Sweep>): (f: nat) {
    if sweeps == [] then first else
    var s := sweeps[|sweeps| - 1];
    if s.deleted < |s.image| then s.image[s.deleted].base else first
  }

  // The abstract log, what was answered, the log at each answer, the explicit batches, how long
  // the disk trace was at each answer, and the sweeps.
  datatype Ledger = Ledger(log: PlainLog, sent: seq<Sent>, views: seq<PlainLog>, batches: seq<Batch>,
                           moments: seq<nat>, sweeps: seq<Sweep>)

  // The view of an answer is the log in that state of the disk trace; and when a sync was
  // acknowledged, everything below the mark sent with it was durable.
  ghost predicate AnsweredAt(s: Sent, view: PlainLog, moment: nat, trace: seq<Snapshot>) {
    && 0 < moment <= |trace|
    && var at := trace[moment - 1];
       && at.history == view.history && at.image != [] && at.image[0].base == view.first
       && (s.reply.Synced? ==> at.durable == s.highWaterMark)
  }

  ghost predicate MomentsOk(l: Ledger, trace: seq<Snapshot>) {
    && |l.moments| == |l.sent| == |l.views|
    && (forall i :: 0 <= i < |l.sent| ==> AnsweredAt(l.sent[i], l.views[i], l.moments[i], trace))
    && (forall i, j :: 0 <= i < j < |l.moments| ==> l.moments[i] <= l.moments[j])
  }

  lemma MomentsStay(l: Ledger, trace: seq<Snapshot>, longer: seq<Snapshot>)
    requires MomentsOk(l, trace) && trace <= longer
    ensures MomentsOk(l, longer)
  {
    forall i | 0 <= i < |l.sent|
      ensures AnsweredAt(l.sent[i], l.views[i], l.moments[i], longer)
    {
      assert AnsweredAt(l.sent[i], l.views[i], l.moments[i], trace);
      assert longer[l.moments[i] - 1] == trace[l.moments[i] - 1];
    }
  }

  lemma MomentOfAnswer(l: Ledger, trace: seq<Snapshot>, s: Sent)
    requires MomentsOk(l, trace) && AnsweredAt(s, l.log, |trace|, trace)
    ensures MomentsOk(l.(sent := l.sent + [s], views := l.views + [l.log], moments := l.moments + [|trace|]), trace)
  {
    forall i | 0 <= i < |l.moments|
      ensures l.moments[i] <= |trace|
    {
      assert AnsweredAt(l.sent[i], l.views[i], l.moments[i], trace);
    }
  }

  // What the answers, the views and the batches so far promise about each other.
  ghost predicate Recorded(l: Ledger, image: seq<DiskSegment>, trace: seq<Snapshot>) {
    && (forall i :: 0 <= i < |l.sent| ==> PublishedFirst(l.sent[i]))
    && MarksInOrder(l.sent, l.log.Next())
    && BatchesOk(l.log, image, l.batches)
    && Witnessed(l.log, l.sent, l.views, l.batches)
    && MomentsOk(l, trace)
  }

  // When a sync was acknowledged, everything below the mark sent with the answer was durable.
  ghost predicate SyncsWereDurable(l: Ledger, trace: seq<Snapshot>) {
    && |l.moments| == |l.sent|
    && forall i :: 0 <= i < |l.sent| && l.sent[i].reply.Synced? ==>
         0 < l.moments[i] <= |trace| && trace[l.moments[i] - 1].durable == l.sent[i].highWaterMark
  }

  lemma SyncsAreDurable(l: Ledger, image: seq<DiskSegment>, trace: seq<Snapshot>)
    requires Recorded(l, image, trace)
    ensures SyncsWereDurable(l, trace)
  {
    hide PublishedFirst, MarksInOrder, BatchesOk, Witnessed;
    forall i | 0 <= i < |l.sent| && l.sent[i].reply.Synced?
      ensures 0 < l.moments[i] <= |trace| && trace[l.moments[i] - 1].durable == l.sent[i].highWaterMark
    {
      assert AnsweredAt(l.sent[i], l.views[i], l.moments[i], trace);
    }
  }

  /** Once a sync is acknowledged, every later disk state is durable up to the mark sent with the answer. */
  lemma {:induction false} SyncedAnswerStaysDurable(l: Ledger, image: seq<DiskSegment>, trace: seq<Snapshot>, i: nat,
                                                    t: nat)
    requires Recorded(l, image, trace) && i < |l.sent| && l.sent[i].reply.Synced?
    requires forall j :: 0 < j < |trace| ==> Follows(trace[j - 1], trace[j])
    requires |l.moments| == |l.sent| == |l.views| && 0 < l.moments[i] <= t + 1 <= |trace|
    ensures l.sent[i].highWaterMark <= trace[t].durable
    ensures l.views[i].history <= trace[t].history && l.views[i].Next() == l.sent[i].highWaterMark
    decreases t
  {
    hide OneOp, PublishedFirst, MarksInOrder, BatchesOk, WholeOrNone;
    assert AnsweredAt(l.sent[i], l.views[i], l.moments[i], trace);
    assert Seen(l.views[i], l.log, l.sent[i].highWaterMark);
    if l.moments[i] <= t {
      SyncedAnswerStaysDurable(l, image, trace, i, t - 1);
      assert Follows(trace[t - 1], trace[t]);
    }
  }

  // A longer log, in segments with the old bases or one that starts where the old log ended.
  lemma RecordedGrows(l: Ledger, next: PlainLog, image: seq<DiskSegment>, after: seq<DiskSegment>,
                      trace: seq<Snapshot>, longer: seq<Snapshot>)
    requires Recorded(l, image, trace) && next.origin == l.log.origin && l.log.history <= next.history
    requires BasesKept(image, after, l.log.Next()) && trace <= longer
    ensures Recorded(l.(log := next), after, longer)
  {
    hide PublishedFirst, BatchesOk, Witnessed, BasesKept, AnsweredAt;
    MomentsStay(l, trace, longer);
    MarksStayInOrder(l.sent, l.log.Next(), next.Next());
    BatchesStayOk(l.log, next, image, after, l.batches);
    WitnessesStay(l.log, next, l.sent, l.views, l.batches);
  }

  lemma RecordedBatch(l: Ledger, records: seq<Record>, image: seq<DiskSegment>, after: seq<DiskSegment>,
                      trace: seq<Snapshot>, longer: seq<Snapshot>)
    requires Recorded(l, image, trace) && BasesKept(image, after, l.log.Next()) && trace <= longer
    requires forall i :: 0 <= i < |image| ==> image[i].base <= l.log.Next()
    ensures Recorded(l.(log := l.log.(history := l.log.history + records),
                        batches := l.batches + [Batch(l.log.Next(), records)]), after, longer)
  {
    hide PublishedFirst, BatchesOk, Witnessed, BasesKept, InLog, NotSplit, AnsweredAt;
    var next := l.log.(history := l.log.history + records);
    RecordedGrows(l, next, image, after, trace, longer);
    NewBatchIsOk(l.log, records, image, after);
    OneMoreBatch(next, after, l.batches, Batch(l.log.Next(), records));
    WitnessBatch(l.log, records, l.sent, l.views, l.batches);
  }

  lemma RecordedAnswer(l: Ledger, image: seq<DiskSegment>, trace: seq<Snapshot>, s: Sent)
    requires Recorded(l, image, trace) && PublishedFirst(s) && s.highWaterMark == l.log.Next()
    requires image != [] && l.log.origin <= l.log.first == image[0].base && AnsweredAt(s, l.log, |trace|, trace)
    ensures Recorded(l.(sent := l.sent + [s], views := l.views + [l.log], moments := l.moments + [|trace|]), image,
                     trace)
  {
    hide PublishedFirst, BatchesOk, Witnessed, AnsweredAt;
    MomentOfAnswer(l, trace, s);
    WitnessAnswer(l.log, image, l.sent, l.views, l.batches, s);
  }

  lemma RecordedSweep(l: Ledger, first: nat, image: seq<DiskSegment>, trace: seq<Snapshot>, longer: seq<Snapshot>,
                      sweep: Sweep)
    requires Recorded(l, image, trace) && sweep.deleted <= |image| && trace <= longer
    ensures Recorded(l.(log := l.log.(first := first), sweeps := l.sweeps + [sweep]), image[sweep.deleted..], longer)
  {
    hide PublishedFirst, BatchesOk, Witnessed, MarksInOrder, AnsweredAt;
    var d := sweep.deleted;
    MomentsStay(l, trace, longer);
    SweepKeepsBatches(l.log, first, image, d, l.batches);
    WitnessesStay(l.log, l.log.(first := first), l.sent, l.views, l.batches);
  }

  /** Batch atomicity: at every answer, and now, a reader sees each explicit batch whole or not at all. */
  lemma BatchesAreWhole(l: Ledger, image: seq<DiskSegment>, trace: seq<Snapshot>)
    requires Recorded(l, image, trace) && image != [] && l.log.origin <= l.log.first == image[0].base
    ensures |l.views| == |l.sent|
    ensures forall i, j :: 0 <= i < |l.views| && 0 <= j < |l.batches| ==> WholeOrNone(l.views[i], l.batches[j])
    ensures forall j :: 0 <= j < |l.batches| ==> WholeOrNone(l.log, l.batches[j])
  {
    hide WholeOrNone, InLog, NotSplit, PublishedFirst;
    forall j | 0 <= j < |l.batches|
      ensures WholeOrNone(l.log, l.batches[j])
    {
      BatchIsWhole(l.log, image, l.batches[j]);
    }
  }

  // The same log at a later moment.
  ghost predicate Later(x: PlainLog, y: PlainLog) {
    x.origin == y.origin && x.first <= y.first && x.history <= y.history
  }

  // Each of `cmds` was answered at a moment between x and y, and each read among them from the
  // log of that moment.
  ghost predicate ReadsFromViews(x: Ledger, y: Ledger, cmds: seq<Command>) {
    && |x.views| == |x.sent| && |y.views| == |y.sent| == |x.sent| + |cmds|
    && x.views <= y.views && x.sent <= y.sent && Later(x.log, y.log)
    && (forall i :: |x.views| <= i < |y.views| ==> Later(x.log, y.views[i]) && Later(y.views[i], y.log))
    && (forall i, j :: |x.views| <= i < j < |y.views| ==> Later(y.views[i], y.views[j]))
    && forall i :: 0 <= i < |cmds| && cmds[i].ReadAt? ==>
         y.sent[|x.sent| + i].reply == ReadDone(Ok(y.views[|x.sent| + i].Read(cmds[i].offset)))
  }

  // From x to y, `cmds` were processed as if one at a time.
  ghost predicate Served(c: Codec, x: Ledger, y: Ledger, cmds: seq<Command>) {
    var ran := ExecAll(c, x.log, cmds);
    && y.log == ran.log && Replies(y.sent) == Replies(x.sent) + ran.replies
    && y.batches == x.batches + BatchesOf(c, x.log, cmds) && y.sweeps == x.sweeps
    && ReadsFromViews(x, y, cmds)
  }

  // The same with retention sweeps in between: some reads may miss.
  ghost predicate ServedWithSweeps(c: Codec, x: Ledger, y: Ledger, cmds: seq<Command>) {
    var ran := ExecAll(c, x.log, cmds);
    && Shortened(y.log, ran.log) && AllMayMiss(Replies(y.sent), Replies(x.sent) + ran.replies)
    && y.batches == x.batches + BatchesOf(c, x.log, cmds)
    && x.sweeps <= y.sweeps && y.log.first == FirstAfter(x.log.first, y.sweeps[|x.sweeps|..])
    && ReadsFromViews(x, y, cmds)
  }

  lemma ReadsConcat(x: Ledger, y: Ledger, z: Ledger, a: seq<Command>, b: seq<Command>)
    requires ReadsFromViews(x, y, a) && ReadsFromViews(y, z, b)
    ensures ReadsFromViews(x, z, a + b)
  {
    hide PlainLog.Read;
    forall i | |x.views| <= i < |z.views|
      ensures Later(x.log, z.views[i]) && Later(z.views[i], z.log)
    {
      if i < |y.views| {
        assert z.views[i] == y.views[i];
      }
    }
    forall i, j | |x.views| <= i < j < |z.views|
      ensures Later(z.views[i], z.views[j])
    {
      if i < |y.views| {
        assert z.views[i] == y.views[i] && Later(y.views[i], y.log);
        assert j < |y.views| ==> z.views[j] == y.views[j];
        assert j >= |y.views| ==> Later(y.log, z.views[j]);
      }
    }
    forall i | 0 <= i < |a + b| && (a + b)[i].ReadAt?
      ensures z.sent[|x.sent| + i].reply == ReadDone(Ok(z.views[|x.sent| + i].Read((a + b)[i].offset)))
    {
      if i < |a| {
        assert z.sent[|x.sent| + i] == y.sent[|x.sent| + i] && z.views[|x.sent| + i] == y.views[|x.sent| + i];
      } else {
        assert (a + b)[i] == b[i - |a|];
        assert |x.sent| + i == |y.sent| + (i - |a|);
      }
    }
  }

  lemma ServedConcat(c: Codec, x: Ledger, y: Ledger, z: Ledger, a: seq<Command>, b: seq<Command>)
    requires Served(c, x, y, a) && Served(c, y, z, b)
    ensures Served(c, x, z, a + b)
  {
    hide ExecAll, Replies, ReadsFromViews, BatchesOf;
    ExecConcat(c, x.log, a, b);
    BatchesConcat(c, x.log, a, b);
    ReadsConcat(x, y, z, a, b);
  }

  lemma SweepsServe(c: Codec, x: Ledger, y: Ledger, z: Ledger, a: seq<Command>, b: seq<Command>)
    requires ServedWithSweeps(c, x, y, a) && Served(c, y, z, b)
    ensures ServedWithSweeps(c, x, z, a + b)
  {
    hide ExecAll, Replies, ReadsFromViews, BatchesOf, AllMayMiss, Shortened;
    ExecConcat(c, x.log, a, b);
    HistoryOnlyGrows(c, y.log, b, 0);
    BatchesConcat(c, x.log, a, b);
    ReadsConcat(x, y, z, a, b);
    var ran := ExecAll(c, x.log, a);
    RetentionOnlyHides(c, y.log, ran.log, b);
    SweptBatches(c, y.log, ran.log, b);
    MayMissConcat(Replies(y.sent), ExecAll(c, y.log, b).replies,
                  Replies(x.sent) + ran.replies, ExecAll(c, ran.log, b).replies);
    assert Replies(x.sent) + ran.replies + ExecAll(c, ran.log, b).replies
        == Replies(x.sent) + ExecAll(c, x.log, a + b).replies;
  }

  lemma ServedNothing(c: Codec, x: Ledger)
    requires |x.views| == |x.sent| && x.log.origin <= x.log.first
    ensures Served(c, x, x, []) && ServedWithSweeps(c, x, x, [])
  {
    hide Replies;
    ExecNothing(c, x.log);
    assert x.sweeps[|x.sweeps|..] == [];
    assert forall i :: 0 <= i < |Replies(x.sent)| ==> MayMiss(Replies(x.sent)[i], Replies(x.sent)[i]);
    assert Replies(x.sent) + [] == Replies(x.sent);
  }

  class PartitionWriter {
    const log: Log
    var highWaterMark: nat
    var inbox: seq<Command>
    var sent: seq<Sent>
    ghost var views: seq<PlainLog>
    ghost var batches: seq<Batch>
    ghost var moments: seq<nat>
    ghost var sweeps: seq<Sweep>

    ghost predicate Valid()
      reads this, log, log.repr
    {
      && log as object != this && this !in log.repr
      && log.Valid() && |log.image| > 0 && log.origin <= log.First()
      && highWaterMark == log.nextOffset
      && |views| == |sent| && Recorded(Books(), log.image, log.trace) && AllAsked(log.config, sweeps)
    }

    ghost function Plain(): PlainLog
      requires |log.image| > 0
      reads this, log
    {
      PlainLog(log.origin, log.First(), log.history)
    }

    ghost function Books(): Ledger
      requires |log.image| > 0
      reads this, log
    {
      Ledger(Plain(), sent, views, batches, moments, sweeps)
    }

    function TopicCodec(): Codec {
      Codec(log.config.compression, Available(log.build, log.config.compression))
    }

    // The log's run goes on, still ready for a crash and within its size bounds if it was.
    twostate predicate LogContinues()
      reads this, log
    {
      && old(log.trace) <= log.trace
      && (old(log.CrashReady()) ==> log.CrashReady())
      && (old(log.Sized()) ==> log.Sized())
      && (old(log.Packed()) ==> log.Packed())
    }

    constructor (log: Log)
      requires log.Valid()
      ensures Valid() && this.log == log && inbox == [] && sent == [] && batches == [] && sweeps == []
      ensures highWaterMark == log.nextOffset
    {
      hide Log.Core, Log.ActiveIndexed;
      this.log := log;
      highWaterMark, inbox, sent := log.nextOffset, [], [];
      views, batches, moments, sweeps := [], [], [], [];
      log.VisibleIsDefined();
    }

    /** Writes the coalesced appends in one batch, publishes the mark, then answers each of them. */
    method FlushAppendBatch(records: seq<Record>)
      requires Valid() && records != [] && Acceptable(log.build, log.config, records)
      modifies this`highWaterMark, this`sent, this`views, this`moments, log, log.repr
      ensures Valid() && fresh(log.repr - old(log.repr)) && highWaterMark >= old(highWaterMark)
      ensures Served(TopicCodec(), old(Books()), Books(), AppendRun(records))
      ensures LogContinues()
    {
      hide Log.Valid, Log.CrashReady, Log.Sized, Log.Packed, Landed, EncodeAll, WireTotal, Acceptable, ExecAll;
      hide Log.First;
      hide AppendReplies, EachAnswer, Replies;
      hide Recorded, BatchesOf, BasesKept, ReadsFromViews, ImageOk, TraceOk, MadeOneWrite, RotatedFor, AllAsked;
      log.VisibleIsDefined();
      ghost var codec, was, before, image, x := TopicCodec(), Plain(), Replies(sent), log.image, Books();
      ghost var trace := log.trace;
      assert was.Next() == log.nextOffset;
      AppendRunIsOneBatch(codec, was, records);
      AppendsAreNoBatches(codec, was, records);
      var result := log.AppendBatch(records);
      log.VisibleIsDefined();
      log.ValidTrace();
      RecordedGrows(x, Plain(), image, log.image, trace, log.trace);
      if result.Ok? {
        highWaterMark := result.value[|result.value| - 1] + 1;
      }
      AnswerEach(result, |records|);
      AnswersMatch(codec, result, was.Next(), |records|);
      assert Replies(sent) == before + ExecAll(codec, was, AppendRun(records)).replies;
      AppendsReadNothing(x, Books(), records);
      assert batches + [] == batches;
    }

    /** Sends an answer, with the mark published by now. */
    method Answer(reply: Reply)
      requires |log.image| > 0 && Recorded(Books(), log.image, log.trace) && PublishedFirst(Sent(reply, highWaterMark))
      requires highWaterMark == Plain().Next() && log.origin <= log.First()
      requires log.trace != [] && log.trace[|log.trace| - 1] == log.Now()
      requires reply.Synced? ==> log.durable == highWaterMark
      modifies this`sent, this`views, this`moments
      ensures Recorded(Books(), log.image, log.trace) && Replies(sent) == Replies(old(sent)) + [reply]
      ensures sent == old(sent) + [Sent(reply, highWaterMark)] && views == old(views) + [Plain()]
      ensures moments == old(moments) + [|log.trace|]
    {
      hide PublishedFirst, Recorded, Replies;
      ghost var s := Sent(reply, highWaterMark);
      RepliesConcat(sent, [s]);
      OneReply(s);
      RecordedAnswer(Books(), log.image, log.trace, s);
      sent := sent + [Sent(reply, highWaterMark)];
      views := views + [Plain()];
      moments := moments + [|log.trace|];
    }

    method HandleSingleCommand(cmd: Command)
      requires Valid()
      requires cmd.AppendBatch? ==> Acceptable(log.build, log.config, cmd.records)
      requires cmd.Append? ==> Acceptable(log.build, log.config, [cmd.record])
      modifies this`highWaterMark, this`sent, this`views, this`moments, this`batches, log, log.repr
      ensures Valid() && fresh(log.repr - old(log.repr)) && highWaterMark >= old(highWaterMark)
      ensures Served(TopicCodec(), old(Books()), Books(), [cmd])
      ensures cmd.Sync? ==> log.durable == log.nextOffset
      ensures LogContinues()
    {
      hide Log.Valid, Log.CrashReady, Log.Sized, Log.Packed, Acceptable, Log.First, Replies;
      hide Recorded, BasesKept, ExecAll, BatchesOf, Served, ImageOk, TraceOk, MadeOneWrite, RotatedFor, AllAsked;
      ghost var codec, x, image, trace := TopicCodec(), Books(), log.image, log.trace;
      match cmd {
        case Append(record) =>
          HandleAppend(record);
          return;
        case AppendBatch(records) =>
          FlushExplicitBatch(records);
          return;
        case ReadAt(offset) =>
          log.Shape();
          var result := log.ReadRecordAt(offset);
          log.ValidTrace();
          Answer(ReadDone(result));
        case Sync =>
          log.Shape();
          log.Sync();
          log.VisibleIsDefined();
          log.ValidTrace();
          RecordedGrows(x, Plain(), image, log.image, trace, log.trace);
          Answer(Synced);
      }
      ServedOne(codec, x, Books(), cmd);
    }

    method HandleAppend(record: Record)
      requires Valid() && Acceptable(log.build, log.config, [record])
      modifies this`highWaterMark, this`sent, this`views, this`moments, log, log.repr
      ensures Valid() && fresh(log.repr - old(log.repr)) && highWaterMark >= old(highWaterMark)
      ensures Served(TopicCodec(), old(Books()), Books(), [Append(record)])
      ensures LogContinues()
    {
      hide Log.Valid, Log.CrashReady, Log.Sized, Log.Packed, Landed, EncodeAll, WireTotal, Acceptable, Log.First;
      hide Replies;
      hide Recorded, BasesKept, ExecAll, BatchesOf, Served, ImageOk, TraceOk, MadeOneWrite, RotatedFor, AllAsked;
      log.VisibleIsDefined();
      ghost var codec, x, image, trace := TopicCodec(), Books(), log.image, log.trace;
      var result := log.Append(record);
      log.VisibleIsDefined();
      log.ValidTrace();
      RecordedGrows(x, Plain(), image, log.image, trace, log.trace);
      if result.Ok? {
        highWaterMark := result.value + 1;
      }
      Answer(Appended(result));
      ServedOne(codec, x, Books(), Append(record));
    }

    method FlushExplicitBatch(records: seq<Record>)
      requires Valid() && Acceptable(log.build, log.config, records)
      modifies this`highWaterMark, this`sent, this`views, this`moments, this`batches, log, log.repr
      ensures Valid() && fresh(log.repr - old(log.repr)) && highWaterMark >= old(highWaterMark)
      ensures Served(TopicCodec(), old(Books()), Books(), [AppendBatch(records)])
      ensures LogContinues()
    {
      hide Log.Valid, Log.CrashReady, Log.Sized, Log.Packed, Landed, EncodeAll, WireTotal, Acceptable, Log.First;
      hide Replies;
      hide Recorded, BasesKept, ExecAll, BatchesOf, Served, ImageOk, TraceOk, MadeOneWrite, RotatedFor, AllAsked;
      log.VisibleIsDefined();
      log.BasesBelowNext();
      ghost var codec, x, image, trace := TopicCodec(), Books(), log.image, log.trace;
      var result := log.AppendBatch(records);
      log.VisibleIsDefined();
      log.ValidTrace();
      assert records == [] ==> x.log.history + records == x.log.history;
      RecordedGrows(x, Plain(), image, log.image, trace, log.trace);
      if result.Ok? && result.value != [] {
        highWaterMark := result.value[|result.value| - 1] + 1;
        RecordedBatch(x, records, image, log.image, trace, log.trace);
        batches := batches + [Batch(x.log.Next(), records)];
      }
      Answer(BatchAppended(result));
      ServedOne(codec, x, Books(), AppendBatch(records));
    }

    /**
     Natural batching. Starting from an append, takes every append that is ready, up to the batch
     limits, and writes them as one batch; the first other command found ends the batch and runs
     right after it. `ready` is how many commands `try_recv` finds before the inbox is dry.
     */
    method ProcessWithBatching(first: Command, ready: nat) returns (ghost taken: nat)
      requires ready <= |inbox|
      requires Valid() && AllAcceptable(log.build, log.config, [first] + inbox)
      modifies this, log, log.repr
      ensures Valid() && fresh(log.repr - old(log.repr)) && highWaterMark >= old(highWaterMark)
      ensures taken <= |old(inbox)| && inbox == old(inbox)[taken..] && sweeps == old(sweeps)
      ensures first.Append? ==> Coalesced(log.config, [first] + old(inbox)[..taken], taken, ready)
      ensures !first.Append? ==> taken == 0
      ensures Served(TopicCodec(), old(Books()), Books(), [first] + old(inbox)[..taken])
      ensures LogContinues()
    {
      hide Log.Valid, Log.CrashReady, Log.Sized, Log.Packed, Log.First, AllAcceptable, Acceptable, Served, Recorded;
      hide AllAsked;
      ghost var codec, x := TopicCodec(), Books();
      taken := 0;
      if !first.Append? {
        SingleIsAcceptable(log.build, log.config, [first] + inbox, 0);
        HandleSingleCommand(first);
        assert [first] == [first] + old(inbox)[..0];
        return;
      }
      var records, other;
      records, other, taken := DrainAppends(first, ready);
      RunIsAcceptable(log.build, log.config, [first] + old(inbox), records);
      FlushAppendBatch(records);
      if other.Some? {
        ghost var y := Books();
        SingleIsAcceptable(log.build, log.config, [first] + old(inbox), taken);
        HandleSingleCommand(other.value);
        ServedConcat(codec, x, y, Books(), AppendRun(records), [other.value]);
      } else {
        assert AppendRun(records) + [] == AppendRun(records);
      }
    }

    /** Takes ready appends off the inbox until a limit, another command, or nothing is ready. */
    method DrainAppends(first: Command, ready: nat)
      returns (records: seq<Record>, other: Option<Command>, ghost taken: nat)
      requires first.Append? && ready <= |inbox|
      modifies this`inbox
      ensures taken <= |old(inbox)| && inbox == old(inbox)[taken..]
      ensures MayCoalesce(log.config, records)
      ensures AppendRun(records) + (if other.Some? then [other.value] else []) == [first] + old(inbox)[..taken]
      ensures AppendRun(records) <= [first] + old(inbox)
      ensures other.Some? ==> taken > 0 && !other.value.Append? && old(inbox)[taken - 1] == other.value
      ensures taken <= ready
      ensures other.None? ==>
                || taken == ready
                || |records| >= log.config.batchMaxRecords || WireTotal(records) >= log.config.batchMaxBytes
    {
      hide WireSize, WireTotal, AppendRun, MayCoalesce;
      taken, other := 0, None;
      records := [first.record];
      var batchBytes := WireSize(first.record);
      CoalesceStart(log.config, first.record);
      var left := ready;
      while |records| < log.config.batchMaxRecords && batchBytes < log.config.batchMaxBytes
        invariant taken + left == ready && inbox == old(inbox)[taken..]
        invariant AppendRun(records) == [first] + old(inbox)[..taken]
        invariant records != [] && batchBytes == WireTotal(records) && MayCoalesce(log.config, records)
        decreases |inbox|
      {
        if left == 0 {
          break;
        }
        var cmd := inbox[0];
        inbox := inbox[1..];
        left, taken := left - 1, taken + 1;
        assert old(inbox)[..taken] == old(inbox)[..taken - 1] + [cmd];
        if !cmd.Append? {
          other := Some(cmd);
          return;
        }
        CoalesceStep(log.config, records, cmd.record);
        batchBytes := batchBytes + WireSize(cmd.record);
        records := records + [cmd.record];
      }
    }

    /** A retention sweep at some time: it deletes exactly what the limits ask for. */
    method RetentionTick(now: int, mtimes: seq<int>)
      requires Valid() && |mtimes| == |log.image|
      modifies this`sweeps, log, log.repr
      ensures Valid() && log.repr == old(log.repr)
      ensures |sweeps| == |old(sweeps)| + 1
      ensures var sweep := sweeps[|old(sweeps)|];
              && sweeps == old(sweeps) + [Sweep(now, mtimes, old(log.image), sweep.deleted)]
              && RetentionAsks(log.config, now, mtimes, old(log.image), sweep.deleted)
              && sweep.deleted < |old(log.image)|
              && log.image == old(log.image)[sweep.deleted..]
      ensures Shortened(Plain(), old(Plain())) && log.First() == FirstAfter(old(log.First()), [sweeps[|old(sweeps)|]])
      ensures RetentionOff(log.config) ==> log.First() == old(log.First())
      ensures LogContinues()
    {
      hide Log.Valid, Log.CrashReady, Log.Sized, Log.Packed, Logs.TotalBytes, Logs.AgedPrefix, Recorded;
      log.Shape();
      ghost var x, image, trace := Books(), log.image, log.trace;
      log.BasesAreIncreasing();
      var deleted := log.ApplyRetention(now, mtimes);
      log.VisibleIsDefined();
      ghost var sweep := Sweep(now, mtimes, image, deleted);
      RecordedSweep(x, log.First(), image, trace, log.trace, sweep);
      sweeps := sweeps + [sweep];
    }

    /**
     The writer task from start to exit: every command of the inbox is processed, with batching
     and retention sweeps left open, and the log is synced before the writer exits. At every
     answer, a reader could see each explicit batch whole or not at all.
     */
    method WriterLoop(ticks: nat)
      requires Valid() && AllAcceptable(log.build, log.config, inbox)
      modifies this, log, log.repr
      ensures Valid() && fresh(log.repr - old(log.repr)) && highWaterMark >= old(highWaterMark)
      ensures inbox == []
      ensures log.durable == log.nextOffset
      ensures forall i :: 0 <= i < |log.image| ==> log.image[i].synced == |log.image[i].data|
      ensures ServedWithSweeps(TopicCodec(), old(Books()), Books(), old(inbox))
      ensures RetentionOff(log.config) ==> Served(TopicCodec(), Unswept(old(Books())), Unswept(Books()), old(inbox))
      ensures |sweeps| == |old(sweeps)| + ticks && AllAsked(log.config, sweeps)
      ensures MarksInOrder(sent, highWaterMark)
      ensures |views| == |sent|
      ensures forall i, j :: 0 <= i < |views| && 0 <= j < |batches| ==> WholeOrNone(views[i], batches[j])
      ensures forall j :: 0 <= j < |batches| ==> WholeOrNone(Plain(), batches[j])
      ensures SyncsWereDurable(Books(), log.trace)
      ensures LogContinues()
    {
      hide Valid, Log.Valid, Log.CrashReady, Log.Sized, Log.Packed, AllAcceptable, Served, ServedWithSweeps;
      hide MarksInOrder;
      hide WholeOrNone;
      ServeInbox(ticks);
      SyncOnExit();
      AtRest();
    }

    /** Everything up to the exit: the inbox in order, and sweeps before, between and after its commands. */
    method ServeInbox(ticks: nat)
      requires Valid() && AllAcceptable(log.build, log.config, inbox)
      modifies this, log, log.repr
      ensures Valid() && fresh(log.repr - old(log.repr)) && highWaterMark >= old(highWaterMark) && inbox == []
      ensures ServedWithSweeps(TopicCodec(), old(Books()), Books(), old(inbox))
      ensures RetentionOff(log.config) ==> Served(TopicCodec(), Unswept(old(Books())), Unswept(Books()), old(inbox))
      ensures |sweeps| == |old(sweeps)| + ticks && AllAsked(log.config, sweeps)
      ensures LogContinues()
    {
      hide Log.Valid, Log.CrashReady, Log.Sized, Log.Packed, AllAcceptable, Acceptable, Served, ServedWithSweeps;
      hide Recorded;
      hide AllAsked;
      ghost var codec, x, cmds := TopicCodec(), Books(), inbox;
      ghost var done := 0;
      var left := ticks;
      ServedNothing(codec, x);
      ServedNothing(codec, Unswept(x));
      assert cmds[..0] == [];
      while inbox != [] || left > 0
        invariant Valid() && fresh(log.repr - old(log.repr)) && highWaterMark >= old(highWaterMark)
        invariant done <= |cmds| && inbox == cmds[done..]
        invariant AllAcceptable(log.build, log.config, inbox)
        invariant ServedWithSweeps(codec, x, Books(), cmds[..done])
        invariant RetentionOff(log.config) ==> Served(codec, Unswept(x), Unswept(Books()), cmds[..done])
        invariant |sweeps| + left == |old(sweeps)| + ticks
        invariant LogContinues()
        decreases |inbox|, left
      {
        var tick: bool := *;
        if left > 0 && (tick || inbox == []) {
          Tick(codec, x, cmds[..done]);
          left := left - 1;
        } else {
          ghost var rest := inbox;
          ghost var taken := ServeNext(codec, x, cmds[..done]);
          assert cmds[..done] + rest[..taken] == cmds[..done + taken];
          done := done + taken;
        }
      }
      assert cmds[..done] == cmds;
    }

    /** One turn of the loop: the next command, and the ready appends behind it if it is one. */
    method ServeNext(ghost codec: Codec, ghost x: Ledger, ghost done: seq<Command>) returns (ghost taken: nat)
      requires Valid() && inbox != [] && AllAcceptable(log.build, log.config, inbox) && codec == TopicCodec()
      requires ServedWithSweeps(codec, x, Books(), done)
      requires RetentionOff(log.config) ==> Served(codec, Unswept(x), Unswept(Books()), done)
      modifies this, log, log.repr
      ensures Valid() && fresh(log.repr - old(log.repr)) && highWaterMark >= old(highWaterMark) && sweeps == old(sweeps)
      ensures 0 < taken <= |old(inbox)| && inbox == old(inbox)[taken..] && AllAcceptable(log.build, log.config, inbox)
      ensures ServedWithSweeps(codec, x, Books(), done + old(inbox)[..taken])
      ensures RetentionOff(log.config) ==> Served(codec, Unswept(x), Unswept(Books()), done + old(inbox)[..taken])
      ensures LogContinues()
    {
      hide Log.Valid, Log.CrashReady, Log.Sized, Log.Packed, AllAcceptable, Served, ServedWithSweeps, Recorded;
      hide AllAsked;
      var cmd := inbox[0];
      assert inbox == [cmd] + inbox[1..];
      ghost var y, all := Books(), inbox;
      inbox := inbox[1..];
      var found: int := *;
      var ready := if 0 <= found <= |inbox| then found else |inbox|;
      taken := ProcessWithBatching(cmd, ready);
      ghost var more := [cmd] + all[1..][..taken];
      taken := taken + 1;
      assert more == all[..taken];
      SweepsServe(codec, x, y, Books(), done, more);
      if RetentionOff(log.config) {
        ServedUnswept(codec, y, Books(), more);
        ServedConcat(codec, Unswept(x), Unswept(y), Unswept(Books()), done, more);
      }
      RestIsAcceptable(log.build, log.config, all, taken);
    }

    /** The retention timer fires, at whatever time and with whatever file times. */
    method Tick(ghost codec: Codec, ghost x: Ledger, ghost done: seq<Command>)
      requires Valid() && ServedWithSweeps(codec, x, Books(), done)
      requires RetentionOff(log.config) ==> Served(codec, Unswept(x), Unswept(Books()), done)
      modifies this`sweeps, log, log.repr
      ensures Valid() && log.repr == old(log.repr) && |sweeps| == |old(sweeps)| + 1
      ensures inbox == old(inbox) && highWaterMark == old(highWaterMark)
      ensures ServedWithSweeps(codec, x, Books(), done)
      ensures RetentionOff(log.config) ==> Served(codec, Unswept(x), Unswept(Books()), done)
      ensures LogContinues()
    {
      hide Log.Valid, Log.CrashReady, Log.Sized, Log.Packed, Served, ServedWithSweeps, Recorded, AllAsked;
      hide RetentionAsks;
      ghost var y := Books();
      var now: int := *;
      var clock: nat -> int := *;
      log.Shape();
      var n := |log.segments|;
      RetentionTick(now, seq(n, i requires 0 <= i < n => clock(i)));
      SweptServes(codec, x, y, Books(), done);
    }

    method SyncOnExit()
      requires Valid()
      modifies log, log.repr
      ensures Valid() && log.repr == old(log.repr) && log.durable == log.nextOffset && Books() == old(Books())
      ensures inbox == old(inbox) && highWaterMark == old(highWaterMark)
      ensures forall i :: 0 <= i < |log.image| ==> log.image[i].synced == |log.image[i].data|
      ensures LogContinues()
    {
      hide Log.Valid, Log.CrashReady, Log.Sized, Log.Packed, Recorded, BasesKept;
      log.Shape();
      ghost var image, trace := log.image, log.trace;
      log.Sync();
      log.VisibleIsDefined();
      RecordedGrows(Books(), Plain(), image, log.image, trace, log.trace);
    }

    lemma AtRest()
      requires Valid()
      ensures |log.image| > 0 && MarksInOrder(sent, highWaterMark) && |views| == |sent|
      ensures forall i, j :: 0 <= i < |views| && 0 <= j < |batches| ==> WholeOrNone(views[i], batches[j])
      ensures forall j :: 0 <= j < |batches| ==> WholeOrNone(Plain(), batches[j])
      ensures SyncsWereDurable(Books(), log.trace)
    {
      hide Log.Valid, Recorded, MarksInOrder, WholeOrNone;
      SyncsAreDurable(Books(), log.image, log.trace);
      log.VisibleIsDefined();
      MarksOf(Books(), log.image, log.trace);
      BatchesAreWhole(Books(), log.image, log.trace);
    }

    method AnswerEach(result: Result<seq<nat>>, n: nat)
      requires |log.image| > 0 && Recorded(Books(), log.image, log.trace) && highWaterMark == Plain().Next()
      requires log.origin <= log.First() && log.trace != [] && log.trace[|log.trace| - 1] == log.Now()
      requires result.Ok? ==> |result.value| == n && forall i :: 0 <= i < n ==> result.value[i] < highWaterMark
      modifies this`sent, this`views, this`moments
      ensures Recorded(Books(), log.image, log.trace) && Replies(sent) == Replies(old(sent)) + EachAnswer(result, n)
      ensures |sent| == |old(sent)| + n && |views| == |old(views)| + n && old(sent) <= sent && old(views) <= views
      ensures forall i :: |old(views)| <= i < |views| ==> views[i] == Plain()
    {
      hide Recorded, Replies;
      for i := 0 to n
        invariant Recorded(Books(), log.image, log.trace)
        invariant Replies(sent) == Replies(old(sent)) + EachAnswer(result, n)[..i]
        invariant |sent| == |old(sent)| + i && |views| == |old(views)| + i && old(sent) <= sent && old(views) <= views
        invariant forall k :: |old(views)| <= k < |views| ==> views[k] == Plain()
      {
        assert EachAnswer(result, n)[..i + 1] == EachAnswer(result, n)[..i] + [EachAnswer(result, n)[i]];
        Answer(AnswerAt(result, i));
      }
    }
  }

  /**
   Durability of an acknowledged sync: after any crash in any disk state from the moment of the
   answer on, the reopened log has every record below the mark that was sent with it.
   */
  method CrashAfterSynced(w: PartitionWriter, ghost i: nat, ghost t: nat, disk: seq<DiskSegment>)
    returns (r: Result<Log>)
    requires w.Valid() && w.log.CrashReady() && i < |w.sent| == |w.moments| && w.sent[i].reply.Synced?
    requires 0 < w.moments[i] <= t + 1 <= |w.log.trace| && ImageSurvives(w.log.build, w.log.trace[t].image, disk)
    ensures r.Ok? && fresh(r.value) && r.value.Valid() && r.value.CrashReady()
    ensures |w.views| == |w.sent| && w.views[i].Next() == w.sent[i].highWaterMark
    ensures r.value.origin == w.log.origin && w.views[i].history <= r.value.history
  {
    hide Log.Valid, Log.CrashReady, Log.Sized, Log.Packed, Recorded, ImageSurvives, Follows, ImageOk;
    w.log.ValidTrace();
    SyncedAnswerStaysDurable(w.Books(), w.log.image, w.log.trace, i, t);
    ghost var end;
    r, end := ReopenAfterCrash(w.log, t, disk);
    assert w.views[i].origin == w.log.origin by { ViewOrigin(w.Books(), w.log.image, w.log.trace, i); }
  }

  lemma ViewOrigin(l: Ledger, image: seq<DiskSegment>, trace: seq<Snapshot>, i: nat)
    requires Recorded(l, image, trace) && i < |l.views|
    ensures l.views[i].origin == l.log.origin
  {
    hide PublishedFirst, MarksInOrder, BatchesOk, WholeOrNone, MomentsOk;
    assert Seen(l.views[i], l.log, l.sent[i].highWaterMark);
  }

  lemma MarksOf(l: Ledger, image: seq<DiskSegment>, trace: seq<Snapshot>)
    requires Recorded(l, image, trace)
    ensures MarksInOrder(l.sent, l.log.Next())
  {
    hide PublishedFirst, MarksInOrder, BatchesOk, Witnessed, MomentsOk;
  }

  lemma AppendsReadNothing(x: Ledger, y: Ledger, records: seq<Record>)
    requires |x.views| == |x.sent| && |y.views| == |y.sent| == |x.sent| + |records| && x.views <= y.views
    requires x.sent <= y.sent
    requires Later(x.log, y.log) && forall i :: |x.views| <= i < |y.views| ==> y.views[i] == y.log
    ensures ReadsFromViews(x, y, AppendRun(records))
  {
    assert forall i :: 0 <= i < |records| ==> AppendRun(records)[i].Append?;
  }

  lemma OneReply(s: Sent)
    ensures Replies([s]) == [s.reply]
  {
  }

  lemma MarksStayInOrder(sent: seq<Sent>, now: nat, next: nat)
    requires MarksInOrder(sent, now) && now <= next
    ensures MarksInOrder(sent, next)
  {
  }

  lemma OneMoreBatch(log: PlainLog, image: seq<DiskSegment>, batches: seq<Batch>, b: Batch)
    requires BatchesOk(log, image, batches) && InLog(log, b) && NotSplit(image, b)
    ensures BatchesOk(log, image, batches + [b])
  {
    hide InLog, NotSplit;
  }

  lemma ServedOne(c: Codec, x: Ledger, y: Ledger, cmd: Command)
    requires |x.views| == |x.sent| && |y.views| == |y.sent| == |x.sent| + 1 && x.views <= y.views && x.sent <= y.sent
    requires y.log == Exec(c, x.log, cmd).log && Replies(y.sent) == Replies(x.sent) + Exec(c, x.log, cmd).replies
    requires y.batches == x.batches + BatchOf(c, x.log, cmd) && y.sweeps == x.sweeps
    requires y.views[|x.sent|] == y.log
    ensures Served(c, x, y, [cmd])
  {
    ExecNothing(c, x.log);
    ExecSnoc(c, x.log, [], cmd);
    BatchesSnoc(c, x.log, [], cmd);
    assert [] + [cmd] == [cmd];
    assert Replies(y.sent)[|x.sent|] == y.sent[|x.sent|].reply;
  }

  lemma SweptServes(c: Codec, x: Ledger, y: Ledger, z: Ledger, cmds: seq<Command>)
    requires ServedWithSweeps(c, x, y, cmds) && z == y.(log := z.log, sweeps := z.sweeps) && Shortened(z.log, y.log)
    requires |z.sweeps| == |y.sweeps| + 1 && y.sweeps <= z.sweeps
    requires var sweep := z.sweeps[|y.sweeps|];
             sweep.deleted < |sweep.image| && z.log.first == FirstAfter(y.log.first, [sweep])
    ensures ServedWithSweeps(c, x, z, cmds)
  {
    hide ExecAll, Replies, BatchesOf, AllMayMiss, PlainLog.Read;
    assert z.sweeps[|x.sweeps|..] == y.sweeps[|x.sweeps|..] + [z.sweeps[|y.sweeps|]];
  }

  // Sweeps that change nothing do not count.
  function Unswept(l: Ledger): (r: Ledger) {
    l.(sweeps := [])
  }

  lemma ServedUnswept(c: Codec, x: Ledger, y: Ledger, cmds: seq<Command>)
    requires Served(c, x, y, cmds)
    ensures Served(c, Unswept(x), Unswept(y), cmds)
  {
    hide ExecAll, Replies, BatchesOf, PlainLog.Read;
  }

  predicate RetentionOff(cfg: LogConfig) {
    cfg.maxSegmentAge.None? && cfg.maxPartitionBytes.None?
  }

  // An answer as specified, or "nothing there" to a read whose record retention has taken.
  predicate MayMiss(actual: Reply, plain: Reply) {
    actual == plain || (plain.ReadDone? && actual == ReadDone(Ok(None)))
  }

  ghost predicate AllMayMiss(actual: seq<Reply>, plain: seq<Reply>) {
    |actual| == |plain| && forall i :: 0 <= i < |actual| ==> MayMiss(actual[i], plain[i])
  }

  lemma MayMissConcat(a: seq<Reply>, b: seq<Reply>, x: seq<Reply>, y: seq<Reply>)
    requires AllMayMiss(a, x) && AllMayMiss(b, y)
    ensures AllMayMiss(a + b, x + y)
  {
  }

  // A log that retention has shortened takes the same records and misses only retired reads.
  ghost predicate Shortened(x: PlainLog, y: PlainLog) {
    x.origin == y.origin <= y.first <= x.first && x.history == y.history
  }

  lemma {:induction false} RetentionOnlyHides(c: Codec, x: PlainLog, y: PlainLog, cmds: seq<Command>)
    requires Shortened(x, y)
    ensures Shortened(ExecAll(c, x, cmds).log, ExecAll(c, y, cmds).log)
    ensures AllMayMiss(ExecAll(c, x, cmds).replies, ExecAll(c, y, cmds).replies)
    decreases |cmds|
  {
    hide AllMayMiss, Consecutive;
    if cmds == [] {
      NothingMissed();
    } else {
      var most, last := cmds[..|cmds| - 1], cmds[|cmds| - 1];
      RetentionOnlyHides(c, x, y, most);
      var dx, dy := ExecAll(c, x, most), ExecAll(c, y, most);
      OneMayMiss(c, dx.log, dy.log, last);
      MayMissConcat(dx.replies, Exec(c, dx.log, last).replies, dy.replies, Exec(c, dy.log, last).replies);
    }
  }

  lemma NothingMissed()
    ensures AllMayMiss([], [])
  {
  }

  lemma OneMayMiss(c: Codec, x: PlainLog, y: PlainLog, cmd: Command)
    requires Shortened(x, y)
    ensures Shortened(Exec(c, x, cmd).log, Exec(c, y, cmd).log)
    ensures AllMayMiss(Exec(c, x, cmd).replies, Exec(c, y, cmd).replies)
  {
  }

  lemma SingleIsAcceptable(b: Build, cfg: LogConfig, cmds: seq<Command>, i: nat)
    requires AllAcceptable(b, cfg, cmds) && i < |cmds|
    ensures cmds[i].AppendBatch? ==> Acceptable(b, cfg, cmds[i].records)
  {
    hide Acceptable;
  }

  lemma RunIsAcceptable(b: Build, cfg: LogConfig, cmds: seq<Command>, records: seq<Record>)
    requires AllAcceptable(b, cfg, cmds) && cmds != []
    requires MayCoalesce(cfg, records) && AppendRun(records) <= cmds
    ensures Acceptable(b, cfg, records)
  {
    hide Acceptable, MayCoalesce;
    assert cmds[0..] == cmds;
  }

  lemma AnswersMatch(c: Codec, result: Result<seq<nat>>, from: nat, n: nat)
    requires result == BatchResult(c, Consecutive(from, n))
    ensures EachAnswer(result, n) == AppendReplies(c, from, n)
  {
    forall i | 0 <= i < n
      ensures EachAnswer(result, n)[i] == AppendReplies(c, from, n)[i]
    {
      assert EachAnswer(result, n)[i] == AnswerAt(result, i);
      assert AppendReplies(c, from, n)[i] == Appended(OneResult(c, from + i));
      if c.available {
        assert result.value[i] == from + i;
      }
    }
  }

  // The answers of a coalesced batch: its offsets in order, or its one error to everyone.
  function AnswerAt(result: Result<seq<nat>>, i: nat): (reply: Reply)
    requires result.Ok? ==> i < |result.value|
  {
    match result
    case Ok(offsets) => Appended(Ok(offsets[i]))
    case Err(e) => Appended(Err(e))
  }

  function EachAnswer(result: Result<seq<nat>>, n: nat): (replies: seq<Reply>)
    requires result.Ok? ==> |result.value| == n
    ensures |replies| == n
  {
    seq(n, i requires 0 <= i < n => AnswerAt(result, i))
  }
}
