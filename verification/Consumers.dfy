/**
 The merged consumer of a topic: one cursor per partition, a rotating round-robin scan, and, for
 a consumer group, committed offsets to resume from.
 */
module Consumers {
  import opened ByteStrings
  import opened Compressions
  import opened Records
  import opened Partitions
  import DiskImages
  import Logs
  import OffsetStores
  import Segments

  datatype Delivery = Delivery(partition: nat, offset: nat, record: Record)

  // A partition at the moment it is asked: its log, or the error of a writer that is gone.
  datatype View = Up(log: PlainLog) | Down(error: Error) {
    function Read(offset: nat): (r: Result<Option<Record>>) {
      match this
      case Up(log) => Ok(log.Read(offset))
      case Down(e) => Err(e)
    }
  }

  /** A partition that is up answers with the record of a retained and assigned offset, and with nothing otherwise. */
  lemma ViewAnswers(log: PlainLog, e: Error, offset: nat)
    requires log.origin <= log.first
    ensures Up(log).Read(offset)
         == Ok(if log.first <= offset < log.origin + |log.history| then Some(log.history[offset - log.origin])
               else None)
    ensures Down(e).Read(offset) == Err(e)
  {
  }

  datatype Place = Place(cursors: seq<nat>, scanStart: nat) {
    ghost predicate Valid() {
      |cursors| == 0 || scanStart < |cursors|
    }
  }

  // How many partitions the scan asks before it asks `p`.
  function Dist(start: nat, p: nat, n: nat): (d: nat)
    requires start < n && p < n
    ensures d < n
  {
    if start <= p then p - start else p + n - start
  }

  lemma WrapsOnce(x: nat, n: nat)
    requires x < 2 * n
    ensures x % n == if x < n then x else x - n
  {
    var q := x / n;
    assert x == n * q + x % n;
    assert q < 2 || n * q >= n * 2;
  }

  lemma ScannedAt(start: nat, i: nat, n: nat)
    requires start < n && i < n
    ensures (start + i) % n < n && Dist(start, (start + i) % n, n) == i
  {
    WrapsOnce(start + i, n);
  }

  // ---------------------------------------------------------------- one scan

  ghost predicate Quiet(s: Place, views: seq<View>, p: nat)
    requires p < |s.cursors| == |views|
  {
    views[p].Read(s.cursors[p]) == Ok(None)
  }

  ghost predicate AllQuiet(s: Place, views: seq<View>) {
    |views| == |s.cursors| && forall p: nat :: p < |s.cursors| ==> Quiet(s, views, p)
  }

  ghost predicate QuietBefore(s: Place, views: seq<View>, p: nat)
    requires s.Valid() && p < |s.cursors| == |views|
  {
    var n := |s.cursors|;
    forall q: nat :: q < n && Dist(s.scanStart, q, n) < Dist(s.scanStart, p, n) ==> Quiet(s, views, q)
  }

  // What one scan may answer, and where it leaves the consumer.
  ghost predicate Takes(s: Place, views: seq<View>, item: Result<Option<Delivery>>, after: Place)
    requires s.Valid() && |s.cursors| == |views|
  {
    var n := |s.cursors|;
    match item
    case Err(e) =>
      && after == s
      && exists p: nat :: p < n && QuietBefore(s, views, p) && views[p].Read(s.cursors[p]) == Err(e)
    case Ok(None) => after == s && AllQuiet(s, views)
    case Ok(Some(d)) =>
      && d.partition < n
      && QuietBefore(s, views, d.partition)
      && d.offset == s.cursors[d.partition]
      && views[d.partition].Read(d.offset) == Ok(Some(d.record))
      && after == Place(s.cursors[d.partition := d.offset + 1], (d.partition + 1) % n)
  }

  lemma DistIsOneToOne(start: nat, p: nat, q: nat, n: nat)
    requires start < n && p < n && q < n && Dist(start, p, n) == Dist(start, q, n)
    ensures p == q
  {
  }

  /** Nothing is left open: the cursors and the answers of the partitions decide the scan. */
  lemma ScanIsDeterministic(s: Place, views: seq<View>, x: Result<Option<Delivery>>, sx: Place,
                            y: Result<Option<Delivery>>, sy: Place)
    requires s.Valid() && |s.cursors| == |views|
    requires Takes(s, views, x, sx) && Takes(s, views, y, sy)
    ensures x == y && sx == sy
  {
    hide Dist;
    var px := Answering(s, views, x, sx);
    var py := Answering(s, views, y, sy);
    if px.Some? && py.Some? {
      var n := |s.cursors|;
      if Dist(s.scanStart, px.value, n) == Dist(s.scanStart, py.value, n) {
        DistIsOneToOne(s.scanStart, px.value, py.value, n);
      }
    }
  }

  ghost function Answering(s: Place, views: seq<View>, item: Result<Option<Delivery>>, after: Place): (p: Option<nat>)
    requires s.Valid() && |s.cursors| == |views| && Takes(s, views, item, after)
    ensures p.None? <==> item == Ok(None)
    ensures p.Some? ==> p.value < |s.cursors| && QuietBefore(s, views, p.value) && !Quiet(s, views, p.value)
    ensures item.Err? ==> views[p.value].Read(s.cursors[p.value]) == Err(item.error)
    ensures item.Ok? && item.value.Some? ==> p.value == item.value.value.partition
  {
    match item
    case Ok(None) => None
    case Ok(Some(d)) => Some(d.partition)
    case Err(e) =>
      var p: nat :| p < |s.cursors| && QuietBefore(s, views, p) && views[p].Read(s.cursors[p]) == Err(e);
      Some(p)
  }

  // ---------------------------------------------------------------- runs of scans

  // A consumer's life without seeks: where it starts and the scans it makes.
  datatype Run = Start(at: Place) | Scan(before: Run, views: seq<View>, item: Result<Option<Delivery>>, after: Place) {
    ghost predicate Valid() {
      && First().Valid() && Last().Valid() && |Last().cursors| == Width()
      && (Scan? ==>
            && before.Valid()
            && |views| == Width()
            && Takes(before.Last(), views, item, after))
    }

    function First(): (s: Place) {
      match this
      case Start(at) => at
      case Scan(before, _, _, _) => before.First()
    }

    function Last(): (s: Place) {
      match this
      case Start(at) => at
      case Scan(_, _, _, after) => after
    }

    ghost function Width(): nat {
      |First().cursors|
    }

    // What was delivered from one partition, in order.
    function From(p: nat): (ds: seq<Delivery>) {
      match this
      case Start(_) => []
      case Scan(before, _, item, _) =>
        before.From(p) +
        if item.Ok? && item.value.Some? && item.value.value.partition == p then [item.value.value] else []
    }

    function Successes(): (n: nat) {
      match this
      case Start(_) => 0
      case Scan(before, _, item, _) => before.Successes() + if item.Ok? && item.value.Some? then 1 else 0
    }

    ghost predicate Delivered(d: Delivery) {
      match this
      case Start(_) => false
      case Scan(before, _, item, _) => item == Ok(Some(d)) || before.Delivered(d)
    }

    // At every scan the partition had something to answer: a record, or an error.
    ghost predicate AlwaysReady(p: nat)
      requires Valid() && p < Width()
    {
      match this
      case Start(_) => true
      case Scan(before, views, _, _) =>
        before.AlwaysReady(p) && !Quiet(before.Last(), views, p)
    }

    // Every answer came from a log that `logs[p]` has since grown out of.
    ghost predicate SeenIn(logs: seq<PlainLog>) {
      match this
      case Start(_) => true
      case Scan(before, views, _, _) =>
        && before.SeenIn(logs)
        && |logs| == |views|
        && forall p :: 0 <= p < |views| && views[p].Up? ==> Within(views[p].log, logs[p])
    }
  }

  lemma RunShape(run: Run)
    requires run.Valid()
    ensures |run.Last().cursors| == |run.First().cursors| == run.Width()
  {
  }

  // The same log later on; retention may have moved its first offset.
  ghost predicate Within(x: PlainLog, y: PlainLog) {
    x.origin == y.origin && x.history <= y.history
  }

  // Records of `log` at consecutive offsets from `start` on.
  ghost predicate IsStretch(ds: seq<Delivery>, p: nat, start: nat, log: PlainLog) {
    forall k :: 0 <= k < |ds| ==> IsAt(ds[k], p, start + k, log)
  }

  function RecordAt(log: PlainLog, offset: nat): (r: Record)
    requires log.origin <= offset < log.Next()
  {
    log.history[offset - log.origin]
  }

  ghost predicate IsAt(d: Delivery, p: nat, offset: nat, log: PlainLog) {
    && log.origin <= offset < log.Next()
    && d == Delivery(p, offset, RecordAt(log, offset))
  }

  lemma NothingIsStretch(p: nat, start: nat, log: PlainLog)
    ensures IsStretch([], p, start, log)
  {
  }

  lemma StretchGrows(ds: seq<Delivery>, p: nat, start: nat, seen: PlainLog, log: PlainLog, d: Delivery)
    requires IsStretch(ds, p, start, log) && Within(seen, log)
    requires d.partition == p && d.offset == start + |ds| && seen.Read(d.offset) == Some(d.record)
    ensures IsStretch(ds + [d], p, start, log)
  {
    var all := ds + [d];
    forall k | 0 <= k < |all|
      ensures IsAt(all[k], p, start + k, log)
    {
      if k < |ds| {
        assert IsAt(ds[k], p, start + k, log);
      }
    }
  }

  /**
   The merged stream, split by partition: what was delivered from a partition is exactly the
   stretch of its log from the first cursor to the last one, in order, each record once.
   */
  lemma {:induction false} DeliveriesAreTheLog(run: Run, logs: seq<PlainLog>, p: nat)
    requires run.Valid() && run.SeenIn(logs) && p < run.Width() == |logs|
    ensures run.Last().cursors[p] == run.First().cursors[p] + |run.From(p)|
    ensures IsStretch(run.From(p), p, run.First().cursors[p], logs[p])
  {
    hide QuietBefore, AllQuiet, IsStretch, Within, PlainLog.Read;
    if run.Start? {
      NothingIsStretch(p, run.First().cursors[p], logs[p]);
    } else {
      DeliveriesAreTheLog(run.before, logs, p);
      if run.item.Ok? && run.item.value.Some? && run.item.value.value.partition == p {
        assert run.views[p].Up?;
        StretchGrows(run.before.From(p), p, run.First().cursors[p], run.views[p].log, logs[p], run.item.value.value);
      } else {
        assert run.From(p) == run.before.From(p);
      }
    }
  }

  function TotalOf(cursors: seq<nat>): (n: nat) {
    if cursors == [] then 0 else TotalOf(cursors[..|cursors| - 1]) + cursors[|cursors| - 1]
  }

  lemma {:induction false} TotalAfterOne(cursors: seq<nat>, p: nat)
    requires p < |cursors|
    ensures TotalOf(cursors[p := cursors[p] + 1]) == TotalOf(cursors) + 1
    decreases |cursors|
  {
    var n, next := |cursors| - 1, cursors[p := cursors[p] + 1];
    if p < n {
      TotalAfterOne(cursors[..n], p);
      assert next[..n] == cursors[..n][p := cursors[p] + 1];
    } else {
      assert next[..n] == cursors[..n];
    }
  }

  /** A scan succeeds exactly when it moves a cursor: the cursors together have moved by the number of successes. */
  lemma {:induction false} SuccessesMoveCursors(run: Run)
    requires run.Valid()
    ensures TotalOf(run.Last().cursors) == TotalOf(run.First().cursors) + run.Successes()
  {
    hide QuietBefore, AllQuiet, TotalOf;
    if run.Scan? {
      SuccessesMoveCursors(run.before);
      if run.item.Ok? && run.item.value.Some? {
        TotalAfterOne(run.before.Last().cursors, run.item.value.value.partition);
      }
    }
  }

  /** Serving another partition brings the scan strictly closer to one that is ready. */
  lemma ReadyPartitionComesCloser(s: Place, views: seq<View>, item: Result<Option<Delivery>>, after: Place, p: nat)
    requires s.Valid() && p < |s.cursors| == |views| && Takes(s, views, item, after) && !Quiet(s, views, p)
    requires item.Ok? ==> item.value.Some? ==> item.value.value.partition != p
    ensures item != Ok(None)
    ensures item.Ok? ==> after.Valid() && |after.cursors| == |s.cursors|
                         && Dist(after.scanStart, p, |s.cursors|) < Dist(s.scanStart, p, |s.cursors|)
    ensures item.Err? ==> after == s
  {
    if item.Ok? && item.value.Some? {
      WrapsOnce(item.value.value.partition + 1, |s.cursors|);
    }
  }

  /**
   Fairness: a partition that is ready at every scan is served before as many scans have
   succeeded as there are partitions, whatever the other partitions and failed scans do.
   */
  lemma {:induction false} ReadyPartitionIsServed(run: Run, p: nat)
    requires run.Valid() && p < run.Width() && run.AlwaysReady(p) && run.From(p) == []
    ensures run.Successes() + Dist(run.Last().scanStart, p, run.Width()) <= Dist(run.First().scanStart, p, run.Width())
    ensures run.Successes() < run.Width()
  {
    hide Takes, Quiet, Dist;
    if run.Scan? {
      ReadyPartitionIsServed(run.before, p);
      ReadyPartitionComesCloser(run.before.Last(), run.views, run.item, run.after, p);
    }
  }

  // ---------------------------------------------------------------- consumer groups

  // A group resumes at what it committed, but never past the high-water mark.
  function Resumed(committed: seq<nat>, marks: seq<nat>): (cursors: seq<nat>)
    ensures |cursors| == |marks|
  {
    seq(|marks|, p requires 0 <= p < |marks| =>
      var c := if p < |committed| then committed[p] else 0;
      if c <= marks[p] then c else marks[p])
  }

  lemma ResumedAt(committed: seq<nat>, marks: seq<nat>, p: nat)
    requires p < |committed| && p < |marks|
    ensures Resumed(committed, marks)[p] <= committed[p]
  {
  }

  function Marks(logs: seq<PlainLog>): (marks: seq<nat>)
    ensures |marks| == |logs|
  {
    seq(|logs|, p requires 0 <= p < |logs| => logs[p].Next())
  }

  // What `later` holds at the offsets from `lo` to `hi` is what `earlier` held there.
  ghost predicate AgreeBetween(earlier: PlainLog, later: PlainLog, lo: nat, hi: nat) {
    forall o: nat :: lo <= o < hi ==> AgreeAt(earlier, later, o)
  }

  ghost predicate AgreeAt(earlier: PlainLog, later: PlainLog, o: nat) {
    later.origin <= o < later.Next() ==>
      earlier.origin <= o < earlier.Next() && RecordAt(earlier, o) == RecordAt(later, o)
  }

  lemma {:induction false} FromIsDelivered(run: Run, p: nat, k: nat)
    requires k < |run.From(p)|
    ensures run.Delivered(run.From(p)[k])
  {
    if k < |run.before.From(p)| {
      FromIsDelivered(run.before, p, k);
    }
  }

  lemma {:induction false} DeliveredIsFrom(run: Run, d: Delivery) returns (k: nat)
    requires run.Delivered(d)
    ensures k < |run.From(d.partition)| && run.From(d.partition)[k] == d
  {
    if run.item == Ok(Some(d)) {
      k := |run.before.From(d.partition)|;
    } else {
      k := DeliveredIsFrom(run.before, d);
    }
  }

  /** Below its cursor, what a consumer has been given at an offset is that offset's record and nothing else. */
  lemma DeliveredIffInTheLog(run: Run, logs: seq<PlainLog>, p: nat, offset: nat, r: Record)
    requires run.Valid() && run.SeenIn(logs) && p < run.Width() == |logs|
    requires run.First().cursors[p] <= offset < run.Last().cursors[p]
    ensures logs[p].origin <= offset < logs[p].Next()
    ensures run.Delivered(Delivery(p, offset, r)) <==> r == RecordAt(logs[p], offset)
  {
    hide Takes, Run.Delivered, Run.From, Run.SeenIn;
    DeliveriesAreTheLog(run, logs, p);
    var k := offset - run.First().cursors[p];
    assert IsAt(run.From(p)[k], p, offset, logs[p]);
    FromIsDelivered(run, p, k);
    if run.Delivered(Delivery(p, offset, r)) {
      var j := DeliveredIsFrom(run, Delivery(p, offset, r));
    }
  }

  // Every record of the resumed log between a group's first cursor and the one it resumes at
  // has been delivered to the group.
  ghost predicate NothingSkipped(run: Run, p: nat, resumed: PlainLog, again: nat)
    requires p < run.Width()
  {
    forall o: nat :: run.First().cursors[p] <= o < again && resumed.origin <= o < resumed.Next() ==>
      run.Delivered(Delivery(p, o, RecordAt(resumed, o)))
  }

  /**
   Exactly when resuming skips a record: when the log it resumes over holds, below the cursor it
   resumes at, a record other than the one that was delivered with that offset.
   */
  lemma NothingSkippedIffLogsAgree(run: Run, logs: seq<PlainLog>, p: nat, marks: seq<nat>, resumed: PlainLog)
    requires run.Valid() && run.SeenIn(logs) && p < run.Width() == |logs| && p < |marks|
    ensures var again := Resumed(run.Last().cursors, marks)[p];
            NothingSkipped(run, p, resumed, again) <==> AgreeBetween(logs[p], resumed, run.First().cursors[p], again)
  {
    hide Run.Valid, Run.Last, Run.First, Run.Delivered, Run.SeenIn, Run.From, Resumed, RecordAt, PlainLog.Next;
    RunShape(run);
    ResumedAt(run.Last().cursors, marks, p);
    var start, again := run.First().cursors[p], Resumed(run.Last().cursors, marks)[p];
    if NothingSkipped(run, p, resumed, again) {
      forall o: nat | start <= o < again
        ensures AgreeAt(logs[p], resumed, o)
      {
        if resumed.origin <= o < resumed.Next() {
          DeliveredIffInTheLog(run, logs, p, o, RecordAt(resumed, o));
        }
      }
    } else {
      var o: nat :| start <= o < again && resumed.origin <= o < resumed.Next()
                    && !run.Delivered(Delivery(p, o, RecordAt(resumed, o)));
      DeliveredIffInTheLog(run, logs, p, o, RecordAt(resumed, o));
      assert !AgreeAt(logs[p], resumed, o);
    }
  }

  /**
   At least once: a group commits after the scans of `first`, and another consumer resumes from
   that commit and makes the scans of `second`. If the log it resumes over agrees with the one
   read before, then every record it holds from where the group started up to where it now
   stands was delivered, before the commit or after it.
   */
  lemma ResumingSkipsNothing(first: Run, logs: seq<PlainLog>, second: Run, resumed: seq<PlainLog>, later: seq<PlainLog>,
                             p: nat, offset: nat)
    requires first.Valid() && first.SeenIn(logs) && second.Valid() && second.SeenIn(later)
    requires p < first.Width() == |logs| && p < second.Width() == |later| == |resumed|
    requires second.First().cursors == Resumed(first.Last().cursors, Marks(resumed)) && Within(resumed[p], later[p])
    requires AgreeBetween(logs[p], resumed[p], first.First().cursors[p], second.First().cursors[p])
    requires first.First().cursors[p] <= offset < second.Last().cursors[p]
    requires later[p].origin <= offset < later[p].Next()
    ensures var d := Delivery(p, offset, RecordAt(later[p], offset));
            first.Delivered(d) || second.Delivered(d)
  {
    hide Run.Valid, Run.First, Run.Last, Run.Delivered, Run.SeenIn, Run.From, Resumed, Marks, Within, AgreeBetween;
    hide RecordAt, PlainLog.Next;
    RunShape(first);
    RunShape(second);
    ResumedAt(first.Last().cursors, Marks(resumed), p);
    var r := RecordAt(later[p], offset);
    if offset < second.First().cursors[p] {
      BelowMark(first.Last().cursors, resumed, p);
      StaysAt(resumed[p], later[p], offset);
      NothingSkippedIffLogsAgree(first, logs, p, Marks(resumed), resumed[p]);
      assert first.Delivered(Delivery(p, offset, RecordAt(resumed[p], offset)));
    } else {
      DeliveredIffInTheLog(second, later, p, offset, r);
    }
  }

  lemma StretchesJoin(x: seq<Delivery>, y: seq<Delivery>, p: nat, start: nat, earlier: PlainLog, log: PlainLog)
    requires IsStretch(x, p, start, earlier) && Within(earlier, log) && IsStretch(y, p, start + |x|, log)
    ensures IsStretch(x + y, p, start, log)
  {
    var all := x + y;
    forall k | 0 <= k < |all|
      ensures IsAt(all[k], p, start + k, log)
    {
      if k < |x| {
        assert IsAt(x[k], p, start + k, earlier);
      } else {
        assert IsAt(y[k - |x|], p, start + |x| + (k - |x|), log);
      }
    }
  }

  /**
   Exactly once, while the log only grows: a group that commits and resumes goes on where it
   stopped, and what both runs delivered from a partition is one stretch of its log.
   */
  lemma ResumingContinues(first: Run, logs: seq<PlainLog>, second: Run, resumed: seq<PlainLog>, later: seq<PlainLog>,
                          p: nat)
    requires first.Valid() && first.SeenIn(logs) && second.Valid() && second.SeenIn(later)
    requires p < first.Width() == |logs| && p < second.Width() == |later| == |resumed|
    requires second.First().cursors == Resumed(first.Last().cursors, Marks(resumed))
    requires Within(logs[p], resumed[p]) && Within(resumed[p], later[p]) && first.First().cursors[p] <= logs[p].Next()
    ensures second.First().cursors[p] == first.Last().cursors[p]
    ensures IsStretch(first.From(p) + second.From(p), p, first.First().cursors[p], later[p])
    ensures first.First().cursors[p] + |first.From(p) + second.From(p)| == second.Last().cursors[p]
  {
    hide Run.Valid, Run.SeenIn, Run.From, Run.First, Run.Last, IsStretch, Within, Resumed, Marks, PlainLog.Next;
    RunShape(first);
    RunShape(second);
    DeliveriesAreTheLog(first, logs, p);
    DeliveriesAreTheLog(second, later, p);
    CursorWithinLog(first, logs, p);
    ResumesAtCommit(first.Last().cursors, logs[p], resumed, p);
    StretchesJoin(first.From(p), second.From(p), p, first.First().cursors[p], logs[p], later[p]) by {
      WithinTrans(logs[p], resumed[p], later[p]);
    }
  }

  lemma WithinTrans(x: PlainLog, y: PlainLog, z: PlainLog)
    requires Within(x, y) && Within(y, z)
    ensures Within(x, z)
  {
  }

  lemma CursorWithinLog(run: Run, logs: seq<PlainLog>, p: nat)
    requires run.Valid() && run.SeenIn(logs) && p < run.Width() == |logs| && run.First().cursors[p] <= logs[p].Next()
    ensures run.Last().cursors[p] <= logs[p].Next()
  {
    hide Run.SeenIn, Run.From, Takes;
    DeliveriesAreTheLog(run, logs, p);
    var ds := run.From(p);
    if ds != [] {
      assert IsAt(ds[|ds| - 1], p, run.First().cursors[p] + (|ds| - 1), logs[p]);
    }
  }

  lemma ResumesAtCommit(committed: seq<nat>, log: PlainLog, resumed: seq<PlainLog>, p: nat)
    requires p < |committed| && p < |resumed| && Within(log, resumed[p]) && committed[p] <= log.Next()
    ensures Resumed(committed, Marks(resumed))[p] == committed[p]
  {
  }

  lemma BelowMark(committed: seq<nat>, logs: seq<PlainLog>, p: nat)
    requires p < |logs|
    ensures Resumed(committed, Marks(logs))[p] <= logs[p].Next()
  {
  }

  lemma StaysAt(x: PlainLog, y: PlainLog, offset: nat)
    requires Within(x, y) && y.origin <= offset < x.Next()
    ensures x.origin <= offset < y.Next() && RecordAt(x, offset) == RecordAt(y, offset)
  {
  }

  // ---------------------------------------------------------------- when a commit is safe

  // A log that recovery has cut at `end`, with whatever was appended since.
  function Recovered(log: PlainLog, end: nat, more: seq<Record>): (r: PlainLog)
    requires log.origin <= end <= log.Next()
  {
    log.(history := log.history[..end - log.origin] + more)
  }

  /** Resuming over a log cut at `end` skips nothing, whatever was appended, if the cut is not below the cursor. */
  lemma RecoveredAgrees(read: PlainLog, log: PlainLog, end: nat, more: seq<Record>, start: nat, cursor: nat)
    requires Within(read, log) && log.origin <= end <= log.Next() && cursor <= end && cursor <= read.Next()
    ensures AgreeBetween(read, Recovered(log, end, more), start,
                         Segments.Min(cursor, Recovered(log, end, more).Next()))
  {
  }

  // A record that differs from `r` and takes as much room.
  function Twin(r: Record): (t: Record)
    ensures t != r
  {
    r.(timestampMs := if r.timestampMs == 0 then 1 else 0)
  }

  lemma TwinIsAppendable(b: Build, c: Compression, r: Record)
    requires Appendable(b, c, r)
    ensures Appendable(b, c, Twin(r))
  {
  }

  /** And otherwise there are records to append, as acceptable as those lost, that it then skips. */
  lemma ReplacedRecordIsSkipped(log: PlainLog, end: nat, start: nat, cursor: nat) returns (more: seq<Record>)
    requires log.origin <= end < cursor <= log.Next() && log.origin <= start < cursor
    ensures !AgreeBetween(log, Recovered(log, end, more), start, Segments.Min(cursor, Recovered(log, end, more).Next()))
    ensures var lost := RecordAt(log, if start <= end then end else start);
            forall b, c, i :: 0 <= i < |more| && Appendable(b, c, lost) ==> Appendable(b, c, more[i])
  {
    var o := if start <= end then end else start;
    var other := Twin(RecordAt(log, o));
    more := seq(o - end + 1, _ => other);
    var later := Recovered(log, end, more);
    assert later.history[o - log.origin] == more[o - end] == other;
    assert !AgreeAt(log, later, o);
    forall b, c, i | 0 <= i < |more| && Appendable(b, c, RecordAt(log, o))
      ensures Appendable(b, c, more[i])
    {
      TwinIsAppendable(b, c, RecordAt(log, o));
    }
  }

  // The disk states of a run, from the one at the commit to a later one.
  ghost predicate RunsOn(b: Build, interval: nat, origin: nat, run: seq<DiskImages.Snapshot>,
                         snap: DiskImages.Snapshot, now: DiskImages.Snapshot)
  {
    && run != [] && run[0] == snap && run[|run| - 1] == now
    && Logs.TraceOk(b, interval, origin, run) && Logs.TraceSolid(b, run)
  }

  // However the run goes on after the commit, no crash and no append after it makes a group that
  // started at `start` and committed at `cursor` skip a record.
  ghost predicate CommitIsSafe(b: Build, interval: nat, origin: nat, snap: DiskImages.Snapshot, start: nat, cursor: nat)
  {
    forall run, now: DiskImages.Snapshot, after, more: seq<Record> ::
      RunsOn(b, interval, origin, run, snap, now) && DiskImages.ImageSurvives(b, now.image, after) ==>
        ResumesWithoutSkipping(b, origin, snap, now, start, cursor, after, more)
  }

  // `now` is the run's state at the crash and `after` what is left of it.
  ghost predicate ResumesWithoutSkipping(b: Build, origin: nat, snap: DiskImages.Snapshot, now: DiskImages.Snapshot,
                                         start: nat, cursor: nat, after: seq<DiskImages.DiskSegment>, more: seq<Record>)
  {
    var read, log := PlainLog(origin, origin, snap.history), PlainLog(origin, origin, now.history);
    && DiskImages.RecoversTo(b, after, origin) && DiskImages.RecoveredEnd(b, after) <= log.Next()
    && var later := Recovered(log, DiskImages.RecoveredEnd(b, after), more);
       AgreeBetween(read, later, start, Segments.Min(cursor, later.Next()))
  }

  /**
   A commit is synced and appends are not. Committing a cursor is safe, through everything the
   partition does afterwards, exactly when the records below the cursor are synced: they lie in
   sealed segments or in synced bytes of the active one.
   */
  lemma CommitIsSafeIffSynced(b: Build, interval: nat, origin: nat, snap: DiskImages.Snapshot, start: nat, cursor: nat)
    requires DiskImages.ImageOk(b, interval, origin, snap) && DiskImages.AllSolid(b, snap.image)
    requires origin <= start < cursor <= origin + |snap.history|
    ensures CommitIsSafe(b, interval, origin, snap, start, cursor) <==> DiskImages.SyncedUpTo(b, snap.image, cursor)
  {
    hide DiskImages.ImageOk, DiskImages.AllSolid, DiskImages.ImageSurvives, DiskImages.RecoversTo;
    hide DiskImages.SyncedUpTo;
    hide DiskImages.End, DiskImages.RecoveredEnd, ResumesWithoutSkipping, RunsOn;
    DiskImages.LastEnds(b, interval, origin, snap);
    if DiskImages.SyncedUpTo(b, snap.image, cursor) {
      forall run, now: DiskImages.Snapshot, after, more: seq<Record> |
        RunsOn(b, interval, origin, run, snap, now) && DiskImages.ImageSurvives(b, now.image, after)
        ensures ResumesWithoutSkipping(b, origin, snap, now, start, cursor, after, more)
      {
        CoveredCrashSkipsNothing(b, interval, origin, run, snap, now, start, cursor, after, more);
      }
    } else {
      DiskImages.EveryCrashRecoversIffSynced(b, interval, origin, snap, cursor);
      var after :| DiskImages.ImageSurvives(b, snap.image, after) && !DiskImages.RecoversTo(b, after, cursor);
      var more := UncoveredCrashMaySkip(b, interval, origin, snap, start, cursor, after);
      NothingHappenedYet(b, interval, origin, snap);
      assert !ResumesWithoutSkipping(b, origin, snap, snap, start, cursor, after, more);
    }
  }

  lemma NothingHappenedYet(b: Build, interval: nat, origin: nat, snap: DiskImages.Snapshot)
    requires DiskImages.ImageOk(b, interval, origin, snap) && DiskImages.AllSolid(b, snap.image)
    ensures RunsOn(b, interval, origin, [snap], snap, snap)
  {
    hide DiskImages.ImageOk, DiskImages.AllSolid;
  }

  // What was synced at the commit is synced at every later moment of the run.
  lemma {:induction false} SyncedThroughRun(b: Build, interval: nat, origin: nat, run: seq<DiskImages.Snapshot>,
                                            snap: DiskImages.Snapshot, last: DiskImages.Snapshot, offset: nat, t: nat)
    requires RunsOn(b, interval, origin, run, snap, last) && t < |run| && DiskImages.SyncedUpTo(b, snap.image, offset)
    ensures var now := run[t];
            && DiskImages.ImageOk(b, interval, origin, now) && DiskImages.AllSolid(b, now.image)
            && snap.history <= now.history && DiskImages.SyncedUpTo(b, now.image, offset)
    decreases t
  {
    hide DiskImages.ImageOk, DiskImages.AllSolid, DiskImages.End, DiskImages.SyncedUpTo, DiskImages.OneOp;
    if t > 0 {
      SyncedThroughRun(b, interval, origin, run, snap, last, offset, t - 1);
      assert DiskImages.Follows(run[t - 1], run[t]);
      DiskImages.SyncedStays(b, interval, origin, run[t - 1], run[t], offset);
    }
  }

  lemma CoveredCrashSkipsNothing(b: Build, interval: nat, origin: nat, run: seq<DiskImages.Snapshot>,
                                 snap: DiskImages.Snapshot, now: DiskImages.Snapshot, start: nat, cursor: nat,
                                 after: seq<DiskImages.DiskSegment>, more: seq<Record>)
    requires RunsOn(b, interval, origin, run, snap, now) && DiskImages.ImageSurvives(b, now.image, after)
    requires DiskImages.SyncedUpTo(b, snap.image, cursor) && origin <= cursor <= origin + |snap.history|
    ensures ResumesWithoutSkipping(b, origin, snap, now, start, cursor, after, more)
  {
    hide DiskImages.ImageOk, DiskImages.AllSolid, DiskImages.ImageSurvives, DiskImages.RecoveredEnd, DiskImages.End;
    hide DiskImages.SyncedUpTo, AgreeBetween, Logs.TraceOk, Logs.TraceSolid;
    SyncedThroughRun(b, interval, origin, run, snap, now, cursor, |run| - 1);
    DiskImages.SyncedRecovers(b, interval, origin, now, cursor, after);
    DiskImages.RecoveredEndIsInHistory(b, interval, origin, now, after);
    var read, log := PlainLog(origin, origin, snap.history), PlainLog(origin, origin, now.history);
    RecoveredAgrees(read, log, DiskImages.RecoveredEnd(b, after), more, start, cursor);
  }

  lemma UncoveredCrashMaySkip(b: Build, interval: nat, origin: nat, snap: DiskImages.Snapshot, start: nat, cursor: nat,
                              after: seq<DiskImages.DiskSegment>)
    returns (more: seq<Record>)
    requires DiskImages.ImageOk(b, interval, origin, snap) && DiskImages.AllSolid(b, snap.image)
    requires origin <= start < cursor <= origin + |snap.history|
    requires DiskImages.ImageSurvives(b, snap.image, after) && !DiskImages.RecoversTo(b, after, cursor)
    ensures !ResumesWithoutSkipping(b, origin, snap, snap, start, cursor, after, more)
  {
    hide DiskImages.ImageOk, DiskImages.AllSolid, DiskImages.ImageSurvives, DiskImages.RecoveredEnd, AgreeBetween;
    hide Appendable;
    DiskImages.RecoveredEndIsInHistory(b, interval, origin, snap, after);
    var log := PlainLog(origin, origin, snap.history);
    more := ReplacedRecordIsSkipped(log, DiskImages.RecoveredEnd(b, after), start, cursor);
  }

  // ---------------------------------------------------------------- the consumer

  // What a wait sees: the scan before parking and the scan after it.
  datatype Round = Round(views: seq<View>, again: seq<View>)

  class Consumer {
    var cursors: seq<nat>
    var scanStart: nat
    // This consumer's share of the topic's parked counter.
    var parked: nat
    const store: OffsetStores.OffsetStore?

    ghost predicate Valid()
      reads this, store
    {
      && At().Valid()
      && (store != null ==> store.Valid() && store.partitions == |cursors|)
    }

    ghost function At(): Place
      reads this
    {
      Place(cursors, scanStart)
    }

    constructor FromTopicAt(partitions: nat, start: nat)
      ensures Valid() && store == null && parked == 0
      ensures At() == Place(seq(partitions, _ => start), 0)
    {
      cursors, scanStart, parked, store := seq(partitions, _ => start), 0, 0, null;
    }

    constructor FromTopicWithGroup(store: OffsetStores.OffsetStore, marks: seq<nat>)
      requires store.Valid() && store.partitions == |marks|
      ensures Valid() && this.store == store && parked == 0
      ensures At() == Place(Resumed(store.committed, marks), 0)
      ensures |cursors| == |marks| == |store.committed|
      ensures forall p :: 0 <= p < |marks| ==>
                cursors[p] == if store.committed[p] <= marks[p] then store.committed[p] else marks[p]
    {
      cursors, scanStart, parked, this.store := Resumed(store.committed, marks), 0, 0, store;
    }

    /** One round-robin scan over the partitions. */
    method TryTakeNext(views: seq<View>) returns (item: Result<Option<Delivery>>)
      requires Valid() && |views| == |cursors|
      modifies this`cursors, this`scanStart
      ensures Valid() && |cursors| == |old(cursors)|
      ensures Takes(old(At()), views, item, At())
    {
      hide OffsetStores.ReopensTo, Compressions.Lawful, Dist;
      var n := |cursors|;
      ghost var was := At();
      for i := 0 to n
        invariant At() == was
        invariant forall q: nat :: q < n && Dist(scanStart, q, n) < i ==> Quiet(was, views, q)
      {
        var p := (scanStart + i) % n;
        ScannedAt(scanStart, i, n);
        var read := views[p].Read(cursors[p]);
        if read.Err? {
          return Err(read.error);
        }
        if read.value.Some? {
          item := Ok(Some(Delivery(p, cursors[p], read.value.value)));
          cursors := cursors[p := cursors[p] + 1];
          scanStart := (p + 1) % n;
          return;
        }
        forall q: nat | q < n && Dist(scanStart, q, n) < i + 1
          ensures Quiet(was, views, q)
        {
          if Dist(scanStart, q, n) == i {
            DistIsOneToOne(scanStart, p, q, n);
          }
        }
      }
      item := Ok(None);
    }

    /**
     Scans until a record or an error turns up, parking before the second scan of every round.
     The rounds are the wakeups so far; `None` means still waiting after the last of them.
     Every scan before the last found all partitions quiet, and the counter is balanced.
     */
    method NextWithPosition(rounds: seq<Round>)
      returns (item: Option<Result<Delivery>>, ghost views: seq<View>, ghost scans: nat)
      requires Valid()
      requires forall k :: 0 <= k < |rounds| ==> |rounds[k].views| == |cursors| == |rounds[k].again|
      modifies this`cursors, this`scanStart, this`parked
      ensures Valid() && |cursors| == |old(cursors)|
      ensures item.Some? ==> parked == old(parked) && scans < 2 * |rounds| && views == ScanOf(rounds, scans)
      ensures item.Some? ==> |views| == |old(cursors)| && Takes(old(At()), views, Answer(item.value), At())
      ensures item.None? && rounds != [] ==> parked == old(parked) + 1
      ensures item.None? ==> scans == 2 * |rounds| && At() == old(At())
      ensures forall k :: 0 <= k < scans ==> AllQuiet(old(At()), ScanOf(rounds, k))
    {
      hide OffsetStores.ReopensTo, Compressions.Lawful, QuietBefore, AllQuiet;
      item, views, scans := None, [], 0;
      for k := 0 to |rounds|
        invariant Valid() && At() == old(At()) && scans == 2 * k
        invariant parked == old(parked) + if k == 0 then 0 else 1
        invariant forall j :: 0 <= j < scans ==> AllQuiet(old(At()), ScanOf(rounds, j))
      {
        if k > 0 {
          parked := parked - 1;
        }
        views := rounds[k].views;
        var found := TryTakeNext(rounds[k].views);
        if found != Ok(None) {
          return Some(if found.Err? then Err(found.error) else Ok(found.value.value)), views, scans;
        }
        scans := scans + 1;
        parked := parked + 1;
        views := rounds[k].again;
        found := TryTakeNext(rounds[k].again);
        if found != Ok(None) {
          parked := parked - 1;
          return Some(if found.Err? then Err(found.error) else Ok(found.value.value)), views, scans;
        }
        scans := scans + 1;
      }
    }

    method Seek(partition: nat, offset: nat)
      requires Valid()
      modifies this`cursors
      ensures Valid()
      ensures cursors == if partition < |old(cursors)| then old(cursors)[partition := offset] else old(cursors)
    {
      if partition < |cursors| {
        cursors := cursors[partition := offset];
      }
    }

    method SeekAll(offset: nat)
      requires Valid()
      modifies this`cursors
      ensures Valid() && |cursors| == |old(cursors)|
      ensures forall p :: 0 <= p < |cursors| ==> cursors[p] == offset
    {
      for p := 0 to |cursors|
        invariant |cursors| == |old(cursors)|
        invariant forall q :: 0 <= q < p ==> cursors[q] == offset
      {
        cursors := cursors[p := offset];
      }
    }

    /** Commits the cursors; a crash at any step of it resumes the group at the old commit or at this one. */
    method Commit()
      requires Valid() && (store != null ==> OffsetStores.Storable(cursors))
      modifies store
      ensures Valid()
      ensures store != null ==> store.committed == cursors
      ensures store != null ==> old(store.trace) <= store.trace && |store.trace| == |old(store.trace)| + 4
      ensures store != null ==> forall i :: |old(store.trace)| <= i < |store.trace| ==>
                OffsetStores.ReopensTo(store.build, store.trace[i], old(store.committed))
                || OffsetStores.ReopensTo(store.build, store.trace[i], cursors)
    {
      hide OffsetStores.ReopensTo, Compressions.Lawful;
      if store != null {
        store.Commit(cursors);
      }
    }
  }

  /**
   A group consumer after a restart, whatever a crash left of the offset file since the last
   commit: each cursor is the committed one, or the high-water mark if that is lower.
   */
  method ResumeAfterCommit(c: Consumer, after: Option<OffsetStores.File>, marks: seq<nat>) returns (again: Consumer)
    requires c.Valid() && c.store != null && |marks| == |c.cursors|
    requires c.store.trace != [] && OffsetStores.FileSurvives(c.store.OnDisk().live, after)
    ensures fresh(again) && again.Valid() && |again.cursors| == |marks| == |c.store.committed|
    ensures forall p :: 0 <= p < |marks| ==>
              again.cursors[p] == if c.store.committed[p] <= marks[p] then c.store.committed[p] else marks[p]
  {
    hide OffsetStores.Decoded, OffsetStores.FileSurvives;
    var live := if after.None? then None else Some(after.value.data);
    var store := new OffsetStores.OffsetStore.Open(c.store.build, |marks|, live);
    assert OffsetStores.Loaded(c.store.build, after, |c.store.committed|) == c.store.committed;
    again := new Consumer.FromTopicWithGroup(store, marks);
  }

  function Answer(r: Result<Delivery>): (item: Result<Option<Delivery>>) {
    match r
    case Ok(d) => Ok(Some(d))
    case Err(e) => Err(e)
  }

  function ScanOf(rounds: seq<Round>, k: nat): (views: seq<View>)
    requires k < 2 * |rounds|
  {
    if k % 2 == 0 then rounds[k / 2].views else rounds[k / 2].again
  }
}
