/**
 What is on disk: the segment files of one partition in offset order, how much of each
 is durable, what a crash may leave of them, and what reopening makes of that.

 `history` is every record the log has taken, `origin` the offset of the first one, so
 the record at offset `o` is `history[o - origin]`.
 */
module DiskImages {
  import opened ByteStrings
  import opened Compressions
  import opened Framing
  import opened Records
  import opened SparseIndexes
  import Segments

  datatype DiskSegment = DiskSegment(base: nat, data: Bytes, synced: nat, index: Option<Bytes>, indexSynced: nat)

  // A disk image with the records written so far and the offset below which they must survive.
  datatype Snapshot = Snapshot(image: seq<DiskSegment>, history: seq<Record>, durable: nat)

  function SegmentItems(b: Build, s: DiskSegment): (items: seq<Framed>) {
    Items(b, s.data)
  }

  function End(b: Build, s: DiskSegment): (n: nat) {
    s.base + |SegmentItems(b, s)|
  }

  function IndexImage(b: Build, interval: nat, data: Bytes): (f: Bytes) {
    PrintIndex(IndexOf(Items(b, data), interval).entries)
  }

  ghost predicate IndexFits(b: Build, interval: nat, data: Bytes) {
    var entries := IndexOf(Items(b, data), interval).entries;
    forall i :: 0 <= i < |entries| ==> Fits(entries[i])
  }

  // The file holds exactly the history's records from its base on.
  ghost predicate Holds(b: Build, interval: nat, origin: nat, history: seq<Record>, s: DiskSegment) {
    && Clean(b, s.data)
    && s.synced <= |s.data|
    && IndexFits(b, interval, s.data)
    && origin <= s.base && End(b, s) <= origin + |history|
    && RecordsOf(SegmentItems(b, s)) == history[s.base - origin..End(b, s) - origin]
  }

  // Recovery trusts every segment but the last, so those must be durable, index included.
  ghost predicate Sealed(b: Build, interval: nat, s: DiskSegment) {
    && SegmentItems(b, s) != []
    && s.synced == |s.data|
    && s.index == Some(IndexImage(b, interval, s.data))
    && s.indexSynced == |IndexImage(b, interval, s.data)|
  }

  ghost predicate Covered(b: Build, durable: nat, last: DiskSegment) {
    && durable <= End(b, last)
    && (durable > last.base ==> Start(SegmentItems(b, last), durable - last.base) <= last.synced)
  }

  ghost predicate ImageOk(b: Build, interval: nat, origin: nat, snap: Snapshot) {
    var image, n := snap.image, |snap.image|;
    && n > 0
    && (forall i :: 0 <= i < n ==> Holds(b, interval, origin, snap.history, image[i]))
    && (forall i :: 0 <= i < n - 1 ==> Sealed(b, interval, image[i]) && image[i + 1].base == End(b, image[i]))
    && End(b, image[n - 1]) == origin + |snap.history|
    && Covered(b, snap.durable, image[n - 1])
  }

  // Every frame on disk declares no more than it consumes, as the encoder's do.
  ghost predicate AllSolid(b: Build, image: seq<DiskSegment>) {
    forall i :: 0 <= i < |image| ==> Solid(b, image[i].data)
  }

  // ---------------------------------------------------------------- file operations

  // What a single system call does to the files. A partial write is a crash after the write.
  datatype FileOp =
    | Write(bytes: Bytes)
    | SyncLog
    | CreateIndex
    | WriteIndex(bytes: Bytes)
    | SyncIndex
    | RemoveIndex
    | Truncate(size: nat)
    | CreateLog(base: nat)
    | RemoveOldest

  function AfterOp(image: seq<DiskSegment>, op: FileOp): (next: seq<DiskSegment>) {
    if op.CreateLog? then image + [DiskSegment(op.base, [], 0, None, 0)]
    else if image == [] then []
    else if op.RemoveOldest? then image[1..]
    else image[|image| - 1 := ActiveAfterOp(image[|image| - 1], op)]
  }

  // Truncation is durable at once: the source syncs right behind it, and losing it is the state before.
  function ActiveAfterOp(s: DiskSegment, op: FileOp): (t: DiskSegment) {
    match op
    case Write(bytes) => s.(data := s.data + bytes)
    case SyncLog => s.(synced := |s.data|)
    case CreateIndex => if s.index.None? then s.(index := Some([]), indexSynced := 0) else s
    case WriteIndex(bytes) => if s.index.Some? then s.(index := Some(s.index.value + bytes)) else s
    case SyncIndex => if s.index.Some? then s.(indexSynced := |s.index.value|) else s
    case RemoveIndex => s.(index := None, indexSynced := 0)
    case Truncate(size) => if size < |s.data| then s.(data := s.data[..size], synced := size) else s
    case CreateLog(_) => s
    case RemoveOldest => s
  }

  ghost predicate OneActiveOp(s: DiskSegment, t: DiskSegment) {
    exists op :: t == ActiveAfterOp(s, op)
  }

  ghost predicate OneOp(x: seq<DiskSegment>, y: seq<DiskSegment>) {
    exists op :: y == AfterOp(x, op)
  }

  // The next disk state of a run: one file operation later, with no record or durable offset lost.
  ghost predicate Follows(x: Snapshot, y: Snapshot) {
    OneOp(x.image, y.image) && x.history <= y.history && x.durable <= y.durable
  }

  // ---------------------------------------------------------------- index entries in range

  lemma AppendedDataFits(b: Build, interval: nat, data: Bytes, bytes: Bytes)
    requires Clean(b, data) && Clean(b, bytes) && |data| + |bytes| <= TWO_32
    ensures IndexFits(b, interval, data + bytes)
  {
    hide Decode, Parse;
    ParseConcat(b, data, bytes);
    FittingDataIndexFits(b, interval, data + bytes);
  }

  lemma FittingDataIndexFits(b: Build, interval: nat, data: Bytes)
    requires |data| <= TWO_32
    ensures IndexFits(b, interval, data)
  {
    hide Decode, Parse;
    ParseAccounts(b, data);
    EntriesFit(Items(b, data), interval);
  }

  /** The entry written for record k of a segment is one of the segment's index entries. */
  lemma TrackedEntryFits(b: Build, interval: nat, data: Bytes, k: nat)
    requires IndexFits(b, interval, data) && k < |Items(b, data)|
    requires NeedsEntry(IndexOf(Items(b, data)[..k], interval), interval)
    ensures Fits(Entry(k, Start(Items(b, data), k)))
  {
    hide Decode, Parse;
    var items := Items(b, data);
    IndexOfPrefix(items, interval, k + 1);
    assert items[..k + 1][..k] == items[..k];
    var st := IndexOf(items[..k + 1], interval);
    assert st.entries[|st.entries| - 1] == Entry(k, Start(items, k));
  }

  lemma IndexOfStep(items: seq<Framed>, interval: nat, k: nat)
    requires k < |items|
    ensures IndexOf(items[..k + 1], interval)
         == Track(IndexOf(items[..k], interval), interval, k, Start(items, k), items[k].size)
  {
    assert items[..k + 1][..k] == items[..k];
  }

  // ---------------------------------------------------------------- segments stay apart

  /** Segment bases strictly increase, so a rotation never names an existing file. */
  lemma {:induction false} BasesIncrease(b: Build, interval: nat, origin: nat, snap: Snapshot, i: nat, j: nat)
    requires ImageOk(b, interval, origin, snap) && i < j < |snap.image|
    ensures snap.image[i].base < snap.image[j].base
    ensures End(b, snap.image[i]) <= snap.image[j].base
    decreases j
  {
    hide Parse, Decode, IndexOf;
    assert Sealed(b, interval, snap.image[j - 1]);
    if i < j - 1 {
      BasesIncrease(b, interval, origin, snap, i, j - 1);
    }
  }

  /** A rotation asked for by the overflow test opens a base no segment has. */
  lemma RotationBaseIsFresh(b: Build, interval: nat, origin: nat, snap: Snapshot, i: nat)
    requires ImageOk(b, interval, origin, snap) && i < |snap.image|
    requires snap.image[|snap.image| - 1].data != []
    ensures snap.image[i].base < origin + |snap.history|
  {
    hide Decode, IndexOf;
    var last := snap.image[|snap.image| - 1];
    assert Holds(b, interval, origin, snap.history, last);
    if i < |snap.image| - 1 {
      BasesIncrease(b, interval, origin, snap, i, |snap.image| - 1);
    }
  }

  // ---------------------------------------------------------------- steps that keep an image good

  lemma HoldsLonger(b: Build, interval: nat, origin: nat, history: seq<Record>, more: seq<Record>, s: DiskSegment)
    requires Holds(b, interval, origin, history, s)
    ensures Holds(b, interval, origin, history + more, s)
  {
    hide Parse, IndexFits;
    assert (history + more)[s.base - origin..End(b, s) - origin] == history[s.base - origin..End(b, s) - origin];
  }

  /** Appending frames to the active file extends the history by exactly their records. */
  lemma AppendKeepsImage(b: Build, interval: nat, origin: nat, snap: Snapshot, bytes: Bytes, index: Option<Bytes>,
                         indexSynced: nat)
    returns (next: Snapshot)
    requires ImageOk(b, interval, origin, snap) && Clean(b, bytes)
    requires IndexFits(b, interval, snap.image[|snap.image| - 1].data + bytes)
    ensures next.durable == snap.durable && next.history == snap.history + RecordsOf(Items(b, bytes))
    ensures var n, last := |snap.image| - 1, snap.image[|snap.image| - 1];
            next.image == snap.image[n := DiskSegment(last.base, last.data + bytes, last.synced, index, indexSynced)]
    ensures ImageOk(b, interval, origin, next)
    ensures AllSolid(b, snap.image) && Solid(b, bytes) ==> AllSolid(b, next.image)
  {
    hide Parse, Decode, IndexFits, IndexOf, Solid;
    var n, last := |snap.image| - 1, snap.image[|snap.image| - 1];
    var grown := DiskSegment(last.base, last.data + bytes, last.synced, index, indexSynced);
    next := Snapshot(snap.image[n := grown], snap.history + RecordsOf(Items(b, bytes)), snap.durable);
    assert Holds(b, interval, origin, snap.history, last);
    ParseConcat(b, last.data, bytes);
    var items := SegmentItems(b, last);
    assert RecordsOf(items + Items(b, bytes)) == RecordsOf(items) + RecordsOf(Items(b, bytes));
    assert snap.history == snap.history[..last.base - origin] + RecordsOf(items);
    assert Holds(b, interval, origin, next.history, grown);
    forall i | 0 <= i < |next.image|
      ensures Holds(b, interval, origin, next.history, next.image[i])
    {
      if i < n {
        HoldsLonger(b, interval, origin, snap.history, RecordsOf(Items(b, bytes)), snap.image[i]);
      }
    }
    if snap.durable > last.base {
      var k := snap.durable - last.base;
      assert (items + Items(b, bytes))[..k] == items[..k];
    }
    if AllSolid(b, snap.image) && Solid(b, bytes) {
      assert Solid(b, last.data);
      SolidConcat(b, last.data, bytes);
    }
  }

  /** Changing what is known durable, or the index file, of the active segment. */
  lemma TouchKeepsImage(b: Build, interval: nat, origin: nat, snap: Snapshot, synced: nat, index: Option<Bytes>,
                        indexSynced: nat, durable: nat)
    returns (next: Snapshot)
    requires ImageOk(b, interval, origin, snap)
    requires var last := snap.image[|snap.image| - 1]; last.synced <= synced <= |last.data|
    requires || durable == snap.durable
             || (durable == origin + |snap.history| && synced == |snap.image[|snap.image| - 1].data|)
    ensures next.durable == durable && next.history == snap.history
    ensures var n, last := |snap.image| - 1, snap.image[|snap.image| - 1];
            next.image == snap.image[n := DiskSegment(last.base, last.data, synced, index, indexSynced)]
    ensures ImageOk(b, interval, origin, next)
    ensures AllSolid(b, snap.image) ==> AllSolid(b, next.image)
  {
    hide Parse, Decode, IndexFits, IndexOf, Solid;
    var n, last := |snap.image| - 1, snap.image[|snap.image| - 1];
    var touched := DiskSegment(last.base, last.data, synced, index, indexSynced);
    next := Snapshot(snap.image[n := touched], snap.history, durable);
    assert Holds(b, interval, origin, snap.history, last);
    assert Holds(b, interval, origin, next.history, touched);
    ParseAccounts(b, last.data);
    var items := SegmentItems(b, last);
    assert items[..|items|] == items;
    forall i | 0 <= i < |next.image|
      ensures Holds(b, interval, origin, next.history, next.image[i])
    {
      if i < n {
        assert Holds(b, interval, origin, snap.history, snap.image[i]);
      }
    }
  }

  /** A new, empty active segment behind one that has just been sealed. */
  lemma RotationKeepsImage(b: Build, interval: nat, origin: nat, snap: Snapshot, index: Option<Bytes>)
    returns (next: Snapshot)
    requires ImageOk(b, interval, origin, snap)
    requires Sealed(b, interval, snap.image[|snap.image| - 1])
    ensures next
         == Snapshot(snap.image + [DiskSegment(origin + |snap.history|, [], 0, index, 0)], snap.history, snap.durable)
    ensures ImageOk(b, interval, origin, next)
    ensures AllSolid(b, snap.image) ==> AllSolid(b, next.image)
  {
    hide Decode, IndexFits, Solid;
    var n := |snap.image|;
    var empty := DiskSegment(origin + |snap.history|, [], 0, index, 0);
    next := Snapshot(snap.image + [empty], snap.history, snap.durable);
    assert Items(b, []) == [];
    EmptyIsFine(b, interval);
    assert Holds(b, interval, origin, next.history, empty);
    forall i | 0 <= i < n
      ensures Holds(b, interval, origin, next.history, next.image[i])
    {
      assert next.image[i] == snap.image[i];
    }
    forall i | 0 <= i < n
      ensures Sealed(b, interval, next.image[i]) && next.image[i + 1].base == End(b, next.image[i])
    {
      assert next.image[i] == snap.image[i];
      if i < n - 1 {
        assert Sealed(b, interval, snap.image[i]) && snap.image[i + 1].base == End(b, snap.image[i]);
        assert next.image[i + 1] == snap.image[i + 1];
      }
    }
  }

  lemma EmptyIsFine(b: Build, interval: nat)
    ensures IndexFits(b, interval, []) && Solid(b, [])
  {
  }

  /** Dropping the oldest segment forgets nothing newer. */
  lemma RetirementKeepsImage(b: Build, interval: nat, origin: nat, snap: Snapshot)
    requires ImageOk(b, interval, origin, snap) && |snap.image| > 1
    ensures ImageOk(b, interval, origin, snap.(image := snap.image[1..]))
    ensures AllSolid(b, snap.image) ==> AllSolid(b, snap.image[1..])
  {
    hide Parse, Decode, IndexFits, IndexOf, Solid;
    var next := snap.(image := snap.image[1..]);
    forall i | 0 <= i < |next.image| - 1
      ensures Sealed(b, interval, next.image[i]) && next.image[i + 1].base == End(b, next.image[i])
    {
      assert next.image[i] == snap.image[i + 1] && next.image[i + 1] == snap.image[i + 2];
      assert Sealed(b, interval, snap.image[i + 1]);
    }
  }

  // ---------------------------------------------------------------- crash

  // Every record that lies in synced bytes is still there, in bytes that are synced.
  ghost predicate KeepsSynced(b: Build, s: DiskSegment, after: DiskSegment) {
    forall j :: 0 <= j <= |SegmentItems(b, s)| && Start(SegmentItems(b, s), j) <= s.synced <= |s.data| ==>
      && Start(SegmentItems(b, s), j) <= after.synced <= |after.data|
      && after.data[..Start(SegmentItems(b, s), j)] == s.data[..Start(SegmentItems(b, s), j)]
  }

  // A crash keeps the synced records. The file is then whole records followed by a torn tail,
  // and unchanged if nothing was left to sync.
  ghost predicate SurvivesAt(b: Build, s: DiskSegment, after: DiskSegment, k: nat, tail: Bytes) {
    && after.base == s.base && after.synced <= |after.data| && s.synced <= |s.data| && KeepsSynced(b, s, after)
    && (s.synced == |s.data| ==> after.data == s.data)
    && k <= |SegmentItems(b, s)| && Start(SegmentItems(b, s), k) <= |s.data|
    && TornTail(b, tail) && after.data == s.data[..Start(SegmentItems(b, s), k)] + tail
  }

  ghost predicate Survives(b: Build, s: DiskSegment, after: DiskSegment) {
    exists k, tail :: SurvivesAt(b, s, after, k, tail)
  }

  // A fully synced index file is kept; any other may be lost, short or garbled.
  ghost predicate IndexSurvives(s: DiskSegment, after: DiskSegment) {
    s.index.Some? && s.indexSynced == |s.index.value| ==> after.index == s.index && after.indexSynced == s.indexSynced
  }

  // The index of the active segment is rebuilt on open, so nothing is asked of it.
  ghost predicate ImageSurvives(b: Build, image: seq<DiskSegment>, after: seq<DiskSegment>) {
    && |after| == |image|
    && (forall i :: 0 <= i < |image| ==> Survives(b, image[i], after[i]))
    && (forall i :: 0 <= i < |image| - 1 ==> IndexSurvives(image[i], after[i]))
  }

  /** Losing any part of the unsynced bytes, down to a single byte, is such a crash. */
  lemma AnyCutSurvives(b: Build, s: DiskSegment, after: DiskSegment, m: nat)
    requires Solid(b, s.data) && s.synced <= m <= |s.data|
    requires after.base == s.base && after.data == s.data[..m] && s.synced <= after.synced <= m
    ensures Survives(b, s, after)
  {
    hide Decode, Parse, Solid;
    var k := CutIsTorn(b, s.data, m);
    KeepsPrefix(b, s, after);
    assert SurvivesAt(b, s, after, k, s.data[Start(SegmentItems(b, s), k)..m]);
  }

  /** So is replacing the unsynced records from any point on by zeros. */
  lemma ZeroFillSurvives(b: Build, s: DiskSegment, after: DiskSegment, k: nat, zeros: nat)
    requires Solid(b, s.data) && k <= |SegmentItems(b, s)| && s.synced <= Start(SegmentItems(b, s), k)
    requires s.synced < |s.data| && after.base == s.base && s.synced <= after.synced <= |after.data|
    requires Start(SegmentItems(b, s), k) <= |s.data|
    requires after.data == s.data[..Start(SegmentItems(b, s), k)] + Segments.Zeros(zeros)
    ensures Survives(b, s, after)
  {
    hide Decode, Parse, Solid;
    ZeroTailIsTorn(b, Segments.Zeros(zeros));
    assert after.data[..s.synced] == s.data[..s.synced];
    KeepsPrefix(b, s, after);
    assert SurvivesAt(b, s, after, k, Segments.Zeros(zeros));
  }

  lemma KeepsPrefix(b: Build, s: DiskSegment, after: DiskSegment)
    requires s.synced <= after.synced <= |after.data| && s.synced <= |s.data|
    requires after.data[..s.synced] == s.data[..s.synced]
    ensures KeepsSynced(b, s, after)
  {
    hide SegmentItems;
    forall j | 0 <= j <= |SegmentItems(b, s)| && Start(SegmentItems(b, s), j) <= s.synced
      ensures after.data[..Start(SegmentItems(b, s), j)] == s.data[..Start(SegmentItems(b, s), j)]
    {
      var n := Start(SegmentItems(b, s), j);
      assert after.data[..s.synced][..n] == s.data[..s.synced][..n];
    }
  }

  // Frame k of encoder output, found whole in front of other bytes, decodes there.
  lemma FrameInside(b: Build, buf: Bytes, k: nat, x: Bytes)
    requires Solid(b, buf) && k < |Items(b, buf)| && Start(Items(b, buf), k + 1) <= |buf|
    requires Start(Items(b, buf), k + 1) <= |x|
    requires x[..Start(Items(b, buf), k + 1)] == buf[..Start(Items(b, buf), k + 1)]
    ensures Start(Items(b, buf), k) < Start(Items(b, buf), k + 1) && Decode(b, x[Start(Items(b, buf), k)..]).Ok?
  {
    hide Decode, Parse, Solid, Total;
    var items := Items(b, buf);
    var at, end := Start(items, k), Start(items, k + 1);
    SolidPrefix(b, buf, k + 1);
    var head := buf[..end];
    StartOfPrefix(items, k + 1, k);
    ItemDecodes(b, head, k);
    assert x[at..] == head[at..] + x[end..];
    DecodeStable(b, head[at..], x[end..]);
  }

  /** A record that lies within the synced bytes is never part of the torn tail. */
  lemma SyncedRecordsSurvive(b: Build, s: DiskSegment, after: DiskSegment, k: nat, tail: Bytes, j: nat)
    requires Solid(b, s.data) && SurvivesAt(b, s, after, k, tail)
    requires j <= |SegmentItems(b, s)| && Start(SegmentItems(b, s), j) <= s.synced
    ensures j <= k
  {
    hide Decode, Parse, Solid, Total, Start;
    var items := SegmentItems(b, s);
    if k < j {
      ParseAccounts(b, s.data);
      var end := Start(items, k + 1);
      if k + 1 < j {
        StartGrows(items, k + 1, j);
      }
      assert after.data[..end] == after.data[..Start(items, j)][..end] == s.data[..Start(items, j)][..end];
      assert tail == after.data[Start(items, k)..];
      FrameInside(b, s.data, k, after.data);
      assert false;
    }
  }

  lemma SealedSurvivesWhole(b: Build, interval: nat, s: DiskSegment, after: DiskSegment)
    requires Sealed(b, interval, s) && Survives(b, s, after) && IndexSurvives(s, after) && Clean(b, s.data)
    ensures after.base == s.base && after.data == s.data && Sealed(b, interval, after)
  {
    hide Decode, Parse, IndexOf;
    var k: nat, tail :| SurvivesAt(b, s, after, k, tail);
    SyncedWhole(b, s, after, k, tail);
  }

  lemma SyncedWhole(b: Build, s: DiskSegment, after: DiskSegment, k: nat, tail: Bytes)
    requires Clean(b, s.data) && SurvivesAt(b, s, after, k, tail) && s.synced == |s.data|
    ensures after.data == s.data && after.synced == |after.data|
  {
    hide Decode, Parse;
    var items := SegmentItems(b, s);
    ParseAccounts(b, s.data);
    assert items[..|items|] == items;
    assert Start(items, |items|) <= after.synced;
  }

  // ---------------------------------------------------------------- reopening

  // Scan for the last decodable position, truncate there, replay what is left.
  function RecoverActive(b: Build, data: Bytes): (r: Result<Bytes>) {
    var scanned := Parse(b, data);
    ParseAccounts(b, data);
    if scanned.fault.Some? && !Truncating(scanned.fault.value) then Err(scanned.fault.value) else
    var kept := data[..Total(scanned.items)];
    match Parse(b, kept).fault
    case Some(error) => Err(error)
    case None => Ok(kept)
  }

  predicate MissingIndex(image: seq<DiskSegment>) {
    exists i :: 0 <= i < |image| - 1 && image[i].index.None?
  }

  function ReopenedActive(b: Build, interval: nat, s: DiskSegment, kept: Bytes): (t: DiskSegment) {
    DiskSegment(s.base, kept, if |kept| < |s.data| then |kept| else s.synced, Some(IndexImage(b, interval, kept)), 0)
  }

  // The disk after a successful open: only the active segment and its index change.
  function Reopen(b: Build, interval: nat, image: seq<DiskSegment>): (r: Result<seq<DiskSegment>>)
    requires image != []
  {
    var n := |image| - 1;
    if MissingIndex(image) then Err(MissingFile) else
    match RecoverActive(b, image[n].data)
    case Err(error) => Err(error)
    case Ok(kept) => Ok(image[n := ReopenedActive(b, interval, image[n], kept)])
  }

  // The frames found up to byte n declare nothing beyond byte n.
  ghost predicate Contained(b: Build, buf: Bytes, n: nat)
    decreases |buf|
  {
    n == 0 ||
    (&& Decode(b, buf).Ok?
     && Decode(b, buf).value.consumed <= n && 4 + FromBigEndian(buf[..4]) <= n
     && Contained(b, buf[Decode(b, buf).value.consumed..], n - Decode(b, buf).value.consumed))
  }

  lemma {:induction false} TruncationReplaysIffContained(b: Build, buf: Bytes, n: nat)
    requires n == Total(Items(b, buf))
    ensures n <= |buf|
    ensures Clean(b, buf[..n]) <==> Contained(b, buf, n)
    decreases |buf|
  {
    hide Decode;
    ParseAccounts(b, buf);
    if n > 0 {
      var d := Decode(b, buf).value;
      var rest := buf[d.consumed..];
      TotalConcat([Framed(d.record, d.consumed)], Items(b, rest));
      TotalOne(Framed(d.record, d.consumed));
      TruncationReplaysIffContained(b, rest, n - d.consumed);
      ParseAccounts(b, rest);
      var head := buf[..n];
      assert head[d.consumed..] == rest[..n - d.consumed];
      if 4 + FromBigEndian(buf[..4]) <= n {
        DecodeConsumedOnly(b, buf, n);
      } else {
        DeclaredBeyondEnd(b, buf, n);
      }
    }
  }

  lemma DeclaredBeyondEnd(b: Build, buf: Bytes, n: nat)
    requires Decode(b, buf).Ok? && n <= |buf| && n < 4 + FromBigEndian(buf[..4])
    ensures Decode(b, buf[..n]).Err? && Decode(b, buf[..n]).error.Truncated?
  {
    if n >= 4 {
      assert buf[..n][..4] == buf[..4];
    }
  }

  /**
   On arbitrary bytes, opening succeeds exactly when the scan stops for a reason it
   truncates on and no frame it kept reaches over the cut. It then keeps exactly the
   frames the scan found, and opening again changes nothing.
   */
  lemma ArbitraryBytesRecovery(b: Build, data: Bytes)
    ensures var scanned := Parse(b, data);
            RecoverActive(b, data).Ok? <==>
              (scanned.fault.None? || Truncating(scanned.fault.value)) && Contained(b, data, Total(scanned.items))
    ensures RecoverActive(b, data).Ok? ==>
              var kept := RecoverActive(b, data).value;
              && kept <= data
              && Parse(b, kept) == Parsed(Items(b, data), None)
              && RecoverActive(b, kept) == Ok(kept)
  {
    hide Decode, Contained;
    var items := Items(b, data);
    var t := Total(items);
    TruncationReplaysIffContained(b, data, t);
    if RecoverActive(b, data).Ok? {
      var kept := data[..t];
      ParseConcat(b, kept, data[t..]);
      assert kept + data[t..] == data;
      ParseAccounts(b, kept);
      ParseAccounts(b, data);
      TotalConcat(Items(b, kept), Items(b, data[t..]));
      ParseAccounts(b, data[t..]);
      assert Items(b, data[t..]) == [];
      assert Items(b, kept) + [] == Items(b, kept);
      assert kept[..|kept|] == kept;
    }
  }

  /** Reopening what an open left behind changes nothing. */
  lemma ReopenTwice(b: Build, interval: nat, image: seq<DiskSegment>)
    requires image != [] && Reopen(b, interval, image).Ok?
    ensures Reopen(b, interval, Reopen(b, interval, image).value) == Reopen(b, interval, image)
  {
    hide Decode, Parse, RecoverActive, Contained;
    var n := |image| - 1;
    ArbitraryBytesRecovery(b, image[n].data);
    var once := Reopen(b, interval, image).value;
    var kept := RecoverActive(b, image[n].data).value;
    assert forall i :: 0 <= i < n ==> once[i] == image[i];
    assert once[n := ReopenedActive(b, interval, once[n], kept)] == once;
  }

  /**
   Arbitrary bytes in the active segment, behind any good sealed segments: if they recover, the
   open gives a good log of the sealed records followed by the records found.
   */
  lemma ArbitraryActiveOpens(b: Build, interval: nat, origin: nat, older: seq<DiskSegment>, s: DiskSegment,
                             history: seq<Record>, durable: nat)
    requires ImageOk(b, interval, origin, Snapshot(older + [s.(data := [], synced := 0)], history, durable))
    requires RecoverActive(b, s.data).Ok? && s.synced <= |s.data| && Replayable(b, interval, s.data)
    ensures Reopen(b, interval, older + [s]).Ok?
    ensures ImageOk(b, interval, origin,
              Snapshot(Reopen(b, interval, older + [s]).value, history + RecordsOf(Items(b, s.data)), durable))
  {
    hide Parse, RecoverActive, Contained, IndexFits, IndexImage, ImageOk, RecordsOf, Total, AllSolid, LeftBehind;
    var n, before := |older|, Snapshot(older + [s.(data := [], synced := 0)], history, durable);
    ArbitraryBytesRecovery(b, s.data);
    var kept := RecoverActive(b, s.data).value;
    var t := ReopenedActive(b, interval, s, kept);
    RecoveredIsLeft(b, s.data);
    assert [] + kept == kept;
    var written := AppendKeepsImage(b, interval, origin, before, kept, t.index, t.indexSynced);
    assert written.image[n] == t.(synced := 0);
    var next := TouchKeepsImage(b, interval, origin, written, t.synced, t.index, t.indexSynced, durable);
    SealedHaveIndexes(b, interval, origin, before);
    assert forall i :: 0 <= i < n ==> (older + [s])[i] == before.image[i];
    assert !MissingIndex(older + [s]);
    assert (older + [s])[n := t] == next.image;
  }

  lemma SealedHaveIndexes(b: Build, interval: nat, origin: nat, snap: Snapshot)
    requires ImageOk(b, interval, origin, snap)
    ensures forall i :: 0 <= i < |snap.image| - 1 ==> snap.image[i].index.Some?
  {
    hide Holds, Covered, IndexImage, SegmentItems;
    forall i | 0 <= i < |snap.image| - 1
      ensures snap.image[i].index.Some?
    {
      assert Sealed(b, interval, snap.image[i]);
    }
  }

  // A frame of 34 bytes whose fields end after 25: the rest of the frame is padding.
  function PaddedFrame(b: Build): (f: Bytes) {
    Frame(b, Payload(0, Record(0, None, []), []) + Segments.Zeros(9))
  }

  /**
   A checksummed frame longer than its fields: the first open fails after truncating the
   file in the middle of the frame, and the second open succeeds with the record gone.
   */
  lemma PaddedFrameFailsFirstOpen(b: Build)
    requires Lawful(b)
    ensures RecoverActive(b, PaddedFrame(b)).Err?
    ensures Items(b, PaddedFrame(b)) == [Framed(Record(0, None, []), 25)]
    ensures LeftBehind(b, PaddedFrame(b)) == PaddedFrame(b)[..25]
    ensures RecoverActive(b, LeftBehind(b, PaddedFrame(b))) == Ok([])
  {
    var r := Record(0, None, []);
    var payload := Payload(0, r, []) + Segments.Zeros(9);
    var f := PaddedFrame(b);
    PaddedFrameDecodes(b);
    ZeroTailIsTorn(b, f[25..]);
    assert Parse(b, f[25..]).items == [];
    assert Items(b, f) == [Framed(r, 25)] + [];
    TotalOne(Framed(r, 25));
    FrameHeader(b, payload, []);
    assert f + [] == f;
    DeclaredBeyondEnd(b, f, 25);
    assert Items(b, f[..25]) == [];
    assert f[..25][..0] == [];
  }

  lemma PaddedFrameDecodes(b: Build)
    requires Lawful(b)
    ensures |PaddedFrame(b)| == 34 && Decode(b, PaddedFrame(b)) == Ok(Decoded(Record(0, None, []), 25))
    ensures forall i :: 25 <= i < 34 ==> PaddedFrame(b)[i] == 0
  {
    hide DecodeBody, DecodeKey;
    var r := Record(0, None, []);
    var pad := Segments.Zeros(9);
    var payload := Payload(0, r, []) + pad;
    var f := PaddedFrame(b);
    FrameHeader(b, payload, []);
    assert f + [] == f;
    var head := PutU32(4 + |payload|) + PutU32(b.crc32(payload));
    var ts, kf, valLen := PutU64(0), KeyField(None), PutU32(0);
    assert f == head + [0] + ts + kf + valLen + [] + pad by { Reassociate(head, [0], ts, kf, valLen, [], pad); }
    FrameFields(head, [0], ts, kf, valLen, [], pad);
    U64RoundTrip(0);
    U32RoundTrip(0);
    KeyRoundTrip(f, head + [0] + ts, None, valLen + [] + pad, 4 + |payload|);
    BodyFromFields(b, f, NoCompression, r, [], 4 + |payload|);
  }

  /** One acknowledged value above the decompression cap, and the partition no longer opens. */
  lemma OversizedValueBlocksOpen(b: Build, c: Compression, before: Bytes, r: Record, rest: Bytes)
    requires Lawful(b) && Available(b, c) && |r.value| < TWO_32 && FrameFits(Encode(b, c, r).value)
    requires Clean(b, before) && !WithinCap(c, r.value)
    ensures RecoverActive(b, before + (Encode(b, c, r).value + rest)) == Err(DecompressionFailed)
  {
    hide Decode, Encode;
    OversizedRecordHidesTheRest(b, c, before, r, rest);
  }

  /**
   Opening a log with a codec that is not in the build: it fails, says which codec, and leaves
   every byte of the file alone.
   */
  lemma MissingCodecBlocksOpen(b: Build, c: Compression, before: Bytes, r: Record, stored: Bytes, rest: Bytes)
    requires Lawful(b) && Clean(b, before) && !Available(b, c) && FrameFits(Frame(b, Payload(Flag(c), r, stored)))
    ensures var data := before + (Frame(b, Payload(Flag(c), r, stored)) + rest);
            RecoverActive(b, data) == Err(CompressionUnavailable(c)) && LeftBehind(b, data) == data
  {
    hide Decode, Parse, Payload, Frame;
    MissingCodecIsAnError(b, c, r, stored, rest);
    ScanStopsAt(b, before, Frame(b, Payload(Flag(c), r, stored)) + rest);
  }

  /** The same for a flag no version of the format has given a meaning. */
  lemma UnknownFlagBlocksOpen(b: Build, before: Bytes, payload: Bytes, rest: Bytes)
    requires Lawful(b) && Clean(b, before) && 17 <= |payload| && 4 + |payload| < TWO_32 && payload[0] > 2
    ensures var data := before + (Frame(b, payload) + rest);
            RecoverActive(b, data) == Err(UnknownCompression(payload[0])) && LeftBehind(b, data) == data
  {
    hide Decode, Parse, Frame;
    UnreadableFlagIsAnError(b, payload, rest);
    ScanStopsAt(b, before, Frame(b, payload) + rest);
  }

  /** A corrupted frame behind encoder output: the open succeeds with exactly the encoder output. */
  lemma CorruptionIsCutOff(b: Build, before: Bytes, payload: Bytes, other: Bytes, rest: Bytes)
    requires Lawful(b) && Solid(b, before)
    requires 17 <= |payload| == |other| && 4 + |payload| < TWO_32 && b.crc32(other) != b.crc32(payload)
    ensures var data := before + (Tampered(b, payload, other) + rest);
            RecoverActive(b, data) == Ok(before) && LeftBehind(b, data) == before
  {
    hide Decode, Parse, Tampered, Solid;
    SolidIsClean(b, before);
    ScanStopsAtTampering(b, before, payload, other, rest);
    ParseAccounts(b, before);
    var data := before + (Tampered(b, payload, other) + rest);
    assert data[..|before|] == before;
  }

  // ---------------------------------------------------------------- crash refinement

  lemma RecordsPrefix(items: seq<Framed>, k: nat, history: seq<Record>, from: nat)
    requires k <= |items| && from + |items| <= |history|
    requires RecordsOf(items) == history[from..from + |items|]
    ensures RecordsOf(items[..k]) == history[..from + k][from..]
  {
    forall i | 0 <= i < k
      ensures RecordsOf(items[..k])[i] == history[..from + k][from..][i]
    {
      assert RecordsOf(items)[i] == history[from + i];
    }
  }

  lemma {:induction false} IndexOfPrefix(items: seq<Framed>, interval: nat, k: nat)
    requires k <= |items|
    ensures IndexOf(items[..k], interval).entries <= IndexOf(items, interval).entries
    decreases |items|
  {
    if k == |items| {
      assert items[..k] == items;
    } else {
      var most := items[..|items| - 1];
      IndexOfPrefix(most, interval, k);
      assert most[..k] == items[..k];
    }
  }

  /** Whatever the crash leaves of a file, recovery keeps exactly the whole records in front of the torn tail. */
  lemma SurvivorRecovers(b: Build, s: DiskSegment, after: DiskSegment, k: nat, tail: Bytes)
    requires Solid(b, s.data) && SurvivesAt(b, s, after, k, tail)
    ensures var head := s.data[..Start(SegmentItems(b, s), k)];
            && RecoverActive(b, after.data) == Ok(head)
            && Solid(b, head) && Clean(b, head) && Items(b, head) == SegmentItems(b, s)[..k] == Items(b, after.data)
  {
    hide Decode, Parse, Solid;
    TornTailIsDropped(b, s.data, k, tail);
    SolidPrefix(b, s.data, k);
    var head := s.data[..Start(SegmentItems(b, s), k)];
    SolidIsClean(b, head);
    ParseAccounts(b, head);
    assert after.data[..|head|] == head;
  }

  // What was durable is still there, in bytes that are still synced.
  lemma DurableStaysCovered(b: Build, interval: nat, durable: nat, s: DiskSegment, after: DiskSegment, k: nat,
                            tail: Bytes)
    requires Solid(b, s.data) && SurvivesAt(b, s, after, k, tail) && Covered(b, durable, s)
    ensures durable <= s.base + k
    ensures Covered(b, durable, ReopenedActive(b, interval, after, s.data[..Start(SegmentItems(b, s), k)]))
  {
    hide Decode, Parse, Solid, IndexImage;
    var items := SegmentItems(b, s);
    SurvivorRecovers(b, s, after, k, tail);
    if durable > s.base {
      var j := durable - s.base;
      SyncedRecordsSurvive(b, s, after, k, tail, j);
      StartOfPrefix(items, k, j);
      ParseAccounts(b, s.data);
      if j < k {
        StartGrows(items, j, k);
      }
    }
  }

  /** The records kept are at their old offsets, and nothing synced is among the lost ones. */
  lemma ActiveRecovers(b: Build, interval: nat, origin: nat, snap: Snapshot, after: DiskSegment, k: nat, tail: Bytes)
    requires ImageOk(b, interval, origin, snap) && AllSolid(b, snap.image)
    requires SurvivesAt(b, snap.image[|snap.image| - 1], after, k, tail)
    ensures RecoverActive(b, after.data).Ok?
    ensures var last := snap.image[|snap.image| - 1];
            var kept := RecoverActive(b, after.data).value;
            && Solid(b, kept) && kept <= last.data && Items(b, kept) == SegmentItems(b, last)[..k]
            && snap.durable <= last.base + k
            && Covered(b, snap.durable, ReopenedActive(b, interval, after, kept))
            && Holds(b, interval, origin, snap.history[..last.base + k - origin],
                     ReopenedActive(b, interval, after, kept))
  {
    hide Decode, Parse, IndexOf, Solid, RecoverActive, Covered, Total;
    var last := snap.image[|snap.image| - 1];
    var items := SegmentItems(b, last);
    assert Holds(b, interval, origin, snap.history, last);
    SurvivorRecovers(b, last, after, k, tail);
    DurableStaysCovered(b, interval, snap.durable, last, after, k, tail);
    IndexOfPrefix(items, interval, k);
    RecordsPrefix(items, k, snap.history, last.base - origin);
  }

  lemma SealedRecovers(b: Build, interval: nat, origin: nat, snap: Snapshot, after: seq<DiskSegment>, end: nat, i: nat)
    requires ImageOk(b, interval, origin, snap) && ImageSurvives(b, snap.image, after)
    requires i < |snap.image| - 1 && origin <= snap.image[|snap.image| - 1].base <= end <= origin + |snap.history|
    ensures after[i].base == snap.image[i].base && after[i].data == snap.image[i].data
    ensures Sealed(b, interval, after[i]) && Holds(b, interval, origin, snap.history[..end - origin], after[i])
    ensures after[i].index.Some?
  {
    hide Decode, Parse, IndexOf, IndexFits;
    var s := snap.image[i];
    assert Sealed(b, interval, s) && Holds(b, interval, origin, snap.history, s);
    assert Survives(b, s, after[i]) && IndexSurvives(s, after[i]);
    SealedSurvivesWhole(b, interval, s, after[i]);
    BasesIncrease(b, interval, origin, snap, i, |snap.image| - 1);
    assert snap.history[..end - origin][s.base - origin..End(b, s) - origin]
        == snap.history[s.base - origin..End(b, s) - origin];
  }

  /**
   Crash refinement. From any good image, whatever a crash leaves of it, opening succeeds and
   yields a good image holding exactly a prefix of the history at its old offsets; the prefix
   reaches at least to the durable mark and to the start of the active segment.
   */
  lemma CrashRecovery(b: Build, interval: nat, origin: nat, snap: Snapshot, after: seq<DiskSegment>) returns (end: nat)
    requires ImageOk(b, interval, origin, snap) && AllSolid(b, snap.image)
    requires ImageSurvives(b, snap.image, after)
    ensures snap.durable <= end <= origin + |snap.history|
    ensures origin <= snap.image[|snap.image| - 1].base <= end
    ensures Reopen(b, interval, after).Ok?
    ensures var image := Reopen(b, interval, after).value;
            && |image| == |snap.image|
            && (forall i :: 0 <= i < |image| ==>
                  image[i].base == snap.image[i].base && image[i].data <= snap.image[i].data)
            && (forall i :: 0 <= i < |image| - 1 ==> image[i].data == snap.image[i].data)
            && ImageOk(b, interval, origin, Snapshot(image, snap.history[..end - origin], snap.durable))
            && AllSolid(b, image)
  {
    hide Decode, Parse, IndexOf, Solid, RecoverActive, IndexFits, Holds, Sealed, Survives, Covered;
    var n := |after| - 1;
    end := ActiveSurvivorRecovers(b, interval, origin, snap, after[n]);
    var short := snap.history[..end - origin];
    forall i | 0 <= i < n
      ensures after[i].base == snap.image[i].base && End(b, after[i]) == End(b, snap.image[i])
      ensures after[i].data == snap.image[i].data && after[i].index.Some?
      ensures Sealed(b, interval, after[i]) && Holds(b, interval, origin, short, after[i])
    {
      SealedRecovers(b, interval, origin, snap, after, end, i);
    }
    var kept := RecoverActive(b, after[n].data).value;
    var image := after[n := ReopenedActive(b, interval, after[n], kept)];
    assert Reopen(b, interval, after) == Ok(image);
  }

  lemma ActiveSurvivorRecovers(b: Build, interval: nat, origin: nat, snap: Snapshot, after: DiskSegment)
    returns (end: nat)
    requires ImageOk(b, interval, origin, snap) && AllSolid(b, snap.image)
    requires Survives(b, snap.image[|snap.image| - 1], after)
    ensures var last := snap.image[|snap.image| - 1];
            && origin <= last.base == after.base <= end <= origin + |snap.history| && snap.durable <= end
    ensures RecoverActive(b, after.data).Ok?
    ensures var last, kept := snap.image[|snap.image| - 1], RecoverActive(b, after.data).value;
            && Solid(b, kept) && kept <= last.data && after.base + |Items(b, kept)| == end
            && Covered(b, snap.durable, ReopenedActive(b, interval, after, kept))
            && Holds(b, interval, origin, snap.history[..end - origin], ReopenedActive(b, interval, after, kept))
  {
    hide Decode, Parse, IndexOf, Solid, RecoverActive, IndexFits;
    var last := snap.image[|snap.image| - 1];
    var k, tail :| SurvivesAt(b, last, after, k, tail);
    ActiveRecovers(b, interval, origin, snap, after, k, tail);
    end := last.base + k;
    assert Holds(b, interval, origin, snap.history, last);
  }

  // ---------------------------------------------------------------- a crash inside an open

  // What recovery leaves in the file, whether the open then succeeds or not.
  function LeftBehind(b: Build, data: Bytes): (left: Bytes) {
    var scanned := Parse(b, data);
    ParseAccounts(b, data);
    if scanned.fault.Some? && !Truncating(scanned.fault.value) then data else data[..Total(scanned.items)]
  }

  // The replay finds no index entry too large for u32, on which the source would panic.
  ghost predicate Replayable(b: Build, interval: nat, data: Bytes) {
    Parse(b, data).fault.None? || Truncating(Parse(b, data).fault.value) ==> IndexFits(b, interval, LeftBehind(b, data))
  }

  /** Any file within 4 GiB is replayable. */
  lemma SmallIsReplayable(b: Build, interval: nat, data: Bytes)
    requires |data| <= TWO_32
    ensures Replayable(b, interval, data)
  {
    hide Parse, IndexFits;
    ParseAccounts(b, data);
    FittingDataIndexFits(b, interval, LeftBehind(b, data));
  }

  /** So is any that reopens to a good image, whatever its size. */
  lemma GoodIsReplayable(b: Build, interval: nat, origin: nat, disk: seq<DiskSegment>, history: seq<Record>,
                         durable: nat)
    requires disk != [] && Reopen(b, interval, disk).Ok?
    requires ImageOk(b, interval, origin, Snapshot(Reopen(b, interval, disk).value, history, durable))
    ensures Replayable(b, interval, disk[|disk| - 1].data)
  {
    hide Parse, IndexFits, RecoverActive, Sealed, Covered, LeftBehind;
    var n := |disk| - 1;
    RecoveredIsLeft(b, disk[n].data);
    assert Holds(b, interval, origin, history, Reopen(b, interval, disk).value[n]);
  }

  // The active file at some moment of its recovery: untouched so far, or truncated.
  ghost predicate DuringOpen(b: Build, s: DiskSegment, t: DiskSegment) {
    && t.base == s.base
    && ((t.data == s.data && t.synced == s.synced)
        || (t.data == LeftBehind(b, s.data) && t.synced == |t.data| < |s.data|))
  }

  /** A crash while recovering from a crash leaves nothing that the first crash could not have left. */
  lemma CrashInsideOpen(b: Build, s: DiskSegment, found: DiskSegment, during: DiskSegment, after: DiskSegment)
    requires Solid(b, s.data) && Survives(b, s, found) && DuringOpen(b, found, during) && Survives(b, during, after)
    ensures Survives(b, s, after)
  {
    hide Decode, Parse, Solid, RecoverActive, Total, Start, LeftBehind, TornTail;
    var k: nat, tail :| SurvivesAt(b, s, found, k, tail);
    var j: nat, torn :| SurvivesAt(b, during, after, j, torn);
    var items := SegmentItems(b, s);
    SurvivorRecovers(b, s, found, k, tail);
    RecoveredIsLeft(b, found.data);
    assert SegmentItems(b, during) == items[..k];
    StartOfPrefix(items, k, j);
    ParseAccounts(b, s.data);
    forall i: nat | i < k
      ensures Start(items, i) <= Start(items, k)
    {
      StartGrows(items, i, k);
    }
    assert during.data[..Start(items, j)] == s.data[..Start(items, j)];
    forall i | 0 <= i <= |items| && Start(items, i) <= s.synced
      ensures Start(items, i) <= after.synced && after.data[..Start(items, i)] == s.data[..Start(items, i)]
    {
      SyncedRecordsSurvive(b, s, found, k, tail, i);
      KeptBoth(b, s, found, during, after, k, tail, i);
    }
    if s.synced == |s.data| {
      SolidIsClean(b, s.data);
      NothingToLose(b, s, found, k, tail, during, after, j, torn);
    }
    assert KeepsSynced(b, s, after);
    assert SurvivesAt(b, s, after, j, torn);
  }

  lemma NothingToLose(b: Build, s: DiskSegment, found: DiskSegment, k: nat, tail: Bytes,
                      during: DiskSegment, after: DiskSegment, j: nat, torn: Bytes)
    requires Clean(b, s.data) && s.synced == |s.data| && SurvivesAt(b, s, found, k, tail)
    requires DuringOpen(b, found, during) && SurvivesAt(b, during, after, j, torn)
    ensures after.data == s.data
  {
    hide Decode, Parse, KeepsSynced, TornTail;
    SyncedWhole(b, s, found, k, tail);
    ParseAccounts(b, s.data);
    assert s.data[..|s.data|] == s.data;
  }

  lemma KeptBoth(b: Build, s: DiskSegment, found: DiskSegment, during: DiskSegment, after: DiskSegment, k: nat,
                 tail: Bytes, i: nat)
    requires SurvivesAt(b, s, found, k, tail) && KeepsSynced(b, during, after) && i <= k
    requires during.base == found.base && during.synced <= |during.data|
    requires SegmentItems(b, during) == SegmentItems(b, s)[..k]
    requires if during.data == found.data then found.synced <= during.synced
             else during.data == s.data[..Start(SegmentItems(b, s), k)] && during.synced == |during.data|
    requires Start(SegmentItems(b, s), i) <= s.synced && Start(SegmentItems(b, s), i) <= Start(SegmentItems(b, s), k)
    ensures var n := Start(SegmentItems(b, s), i);
            n <= after.synced <= |after.data| && after.data[..n] == s.data[..n]
  {
    hide SegmentItems, TornTail;
    StartOfPrefix(SegmentItems(b, s), k, i);
    var n := Start(SegmentItems(b, s), i);
    assert n == Start(SegmentItems(b, during), i) <= during.synced;
    assert after.data[..n] == during.data[..n] == s.data[..n];
  }

  lemma UntouchedIsDuringOpen(b: Build, s: DiskSegment)
    ensures DuringOpen(b, s, s)
  {
    hide Parse;
  }

  lemma RecoveredIsLeft(b: Build, data: Bytes)
    requires RecoverActive(b, data).Ok?
    ensures LeftBehind(b, data) == RecoverActive(b, data).value
  {
    hide Decode, Parse;
  }

  /** The same for a whole image: so any number of crashes inside opens is one crash. */
  lemma CrashInsideOpenIsACrash(b: Build, interval: nat, origin: nat, snap: Snapshot, found: seq<DiskSegment>,
                                during: DiskSegment, after: seq<DiskSegment>)
    requires ImageOk(b, interval, origin, snap) && AllSolid(b, snap.image) && ImageSurvives(b, snap.image, found)
    requires found != [] && DuringOpen(b, found[|found| - 1], during)
    requires ImageSurvives(b, found[|found| - 1 := during], after)
    ensures ImageSurvives(b, snap.image, after)
  {
    hide Decode, Parse, Solid, Survives, DuringOpen, Holds, Covered, IndexOf;
    var n := |found| - 1;
    var mid := found[n := during];
    forall i | 0 <= i < n
      ensures Survives(b, snap.image[i], after[i]) && IndexSurvives(snap.image[i], after[i])
    {
      assert Solid(b, snap.image[i].data) && Sealed(b, interval, snap.image[i]) && mid[i] == found[i];
      assert Survives(b, mid[i], after[i]) && IndexSurvives(mid[i], after[i]);
      SolidIsClean(b, snap.image[i].data);
      SealedSurvivesWhole(b, interval, snap.image[i], found[i]);
      UntouchedIsDuringOpen(b, found[i]);
      CrashInsideOpen(b, snap.image[i], found[i], found[i], after[i]);
    }
    assert Solid(b, snap.image[n].data) && Survives(b, snap.image[n], found[n]);
    assert Survives(b, mid[n], after[n]) && mid[n] == during;
    CrashInsideOpen(b, snap.image[n], found[n], during, after[n]);
  }

  // ---------------------------------------------------------------- which records every crash keeps

  ghost predicate RecoversTo(b: Build, after: seq<DiskSegment>, offset: nat) {
    && after != [] && RecoverActive(b, after[|after| - 1].data).Ok?
    && offset <= RecoveredEnd(b, after)
  }

  // The next offset after an open.
  function RecoveredEnd(b: Build, after: seq<DiskSegment>): (n: nat)
    requires after != [] && RecoverActive(b, after[|after| - 1].data).Ok?
  {
    after[|after| - 1].base + |Items(b, RecoverActive(b, after[|after| - 1].data).value)|
  }

  // The records below `offset` lie in sealed segments or in synced bytes of the active one.
  ghost predicate SyncedUpTo(b: Build, image: seq<DiskSegment>, offset: nat) {
    && image != []
    && var last := image[|image| - 1];
       && offset <= End(b, last)
       && (offset <= last.base || Start(SegmentItems(b, last), offset - last.base) <= last.synced)
  }

  /** What is synced stays synced, whatever file operation comes next. */
  lemma SyncedStays(b: Build, interval: nat, origin: nat, x: Snapshot, y: Snapshot, offset: nat)
    requires ImageOk(b, interval, origin, x) && ImageOk(b, interval, origin, y) && Follows(x, y)
    requires SyncedUpTo(b, x.image, offset)
    ensures SyncedUpTo(b, y.image, offset)
  {
    hide Parse, Sealed, IndexFits, Covered, Solid;
    var n, op: FileOp :| n == |x.image| - 1 && y.image == AfterOp(x.image, op);
    LastEnds(b, interval, origin, x);
    LastEnds(b, interval, origin, y);
    var last := x.image[n];
    assert Holds(b, interval, origin, x.history, last);
    if op.CreateLog? {
      assert y.image[n] == last && y.image[n + 1].base == End(b, y.image[n]);
    } else if op.RemoveOldest? {
      assert y.image[|y.image| - 1] == last;
    } else {
      var next := y.image[n];
      assert Holds(b, interval, origin, y.history, next);
      ActiveSyncedStays(b, last, op, offset);
    }
  }

  lemma ActiveSyncedStays(b: Build, s: DiskSegment, op: FileOp, offset: nat)
    requires var t := ActiveAfterOp(s, op);
             Clean(b, s.data) && Clean(b, t.data) && t.synced <= |t.data| && End(b, s) <= End(b, t)
    requires offset <= End(b, s) && s.synced <= |s.data|
    requires offset <= s.base || Start(SegmentItems(b, s), offset - s.base) <= s.synced
    ensures var t := ActiveAfterOp(s, op);
            offset <= t.base || Start(SegmentItems(b, t), offset - t.base) <= t.synced
  {
    hide Parse, Solid;
    var t, items := ActiveAfterOp(s, op), SegmentItems(b, s);
    if offset > s.base {
      var k := offset - s.base;
      match op {
        case Write(bytes) =>
          ParseConcat(b, s.data, bytes);
          assert (items + Items(b, bytes))[..k] == items[..k];
        case Truncate(size) =>
          if size < |s.data| {
            ProperPrefixHasFewer(b, s.data, size);
          }
        case _ =>
          ParseAccounts(b, s.data);
          StartWithinTotal(items, k);
      }
    }
  }

  lemma ProperPrefixHasFewer(b: Build, data: Bytes, n: nat)
    requires n < |data| && Clean(b, data) && Clean(b, data[..n])
    ensures |Items(b, data[..n])| < |Items(b, data)|
  {
    hide Decode;
    ParseConcat(b, data[..n], data[n..]);
    assert data[..n] + data[n..] == data;
    ParseAccounts(b, data[n..]);
  }

  lemma StartWithinTotal(items: seq<Framed>, k: nat)
    requires k <= |items|
    ensures Start(items, k) <= Total(items)
  {
    TotalConcat(items[..k], items[k..]);
    assert items[..k] + items[k..] == items;
  }

  /** Every crash recovers at least up to an offset exactly when the records below it are synced. */
  lemma EveryCrashRecoversIffSynced(b: Build, interval: nat, origin: nat, snap: Snapshot, offset: nat)
    requires ImageOk(b, interval, origin, snap) && AllSolid(b, snap.image) && offset <= origin + |snap.history|
    ensures (forall after :: ImageSurvives(b, snap.image, after) ==> RecoversTo(b, after, offset))
       <==> SyncedUpTo(b, snap.image, offset)
  {
    hide ImageOk, AllSolid, ImageSurvives, RecoversTo, SyncedUpTo, Decode, Parse;
    LastEnds(b, interval, origin, snap);
    if SyncedUpTo(b, snap.image, offset) {
      forall after | ImageSurvives(b, snap.image, after)
        ensures RecoversTo(b, after, offset)
      {
        SyncedRecovers(b, interval, origin, snap, offset, after);
      }
    } else {
      var after := UnsyncedMayBeLost(b, interval, origin, snap, offset);
    }
  }

  lemma RecoveredEndIsInHistory(b: Build, interval: nat, origin: nat, snap: Snapshot, after: seq<DiskSegment>)
    requires ImageOk(b, interval, origin, snap) && AllSolid(b, snap.image) && ImageSurvives(b, snap.image, after)
    ensures after != [] && RecoverActive(b, after[|after| - 1].data).Ok?
    ensures origin <= RecoveredEnd(b, after) <= origin + |snap.history|
  {
    hide Decode, Parse, Solid, RecoverActive, Sealed, IndexFits;
    var n := |snap.image| - 1;
    assert Survives(b, snap.image[n], after[n]) && Holds(b, interval, origin, snap.history, snap.image[n]);
    var end := ActiveSurvivorRecovers(b, interval, origin, snap, after[n]);
  }

  /** What is synced is still synced after any crash and the open that follows. */
  lemma SyncedSurvivesReopen(b: Build, interval: nat, origin: nat, snap: Snapshot, after: seq<DiskSegment>, offset: nat)
    requires ImageOk(b, interval, origin, snap) && AllSolid(b, snap.image) && ImageSurvives(b, snap.image, after)
    requires SyncedUpTo(b, snap.image, offset)
    ensures Reopen(b, interval, after).Ok?
    ensures SyncedUpTo(b, Reopen(b, interval, after).value, offset)
  {
    hide ImageOk, AllSolid, Survives, RecoverActive, Reopen, SyncedUpTo, End;
    LastEnds(b, interval, origin, snap);
    SyncedIsDurable(b, interval, origin, snap, offset);
    var end := CrashRecovery(b, interval, origin, snap.(durable := offset), after);
    var image := Reopen(b, interval, after).value;
    DurableIsSynced(b, interval, origin, Snapshot(image, snap.history[..end - origin], offset));
  }

  // The durable mark of a good image may be any offset below which everything is synced, and no other.
  lemma SyncedIsDurable(b: Build, interval: nat, origin: nat, snap: Snapshot, offset: nat)
    requires ImageOk(b, interval, origin, snap)
    requires SyncedUpTo(b, snap.image, offset)
    ensures ImageOk(b, interval, origin, snap.(durable := offset))
  {
    hide Holds, Sealed, SegmentItems, Start;
  }

  lemma DurableIsSynced(b: Build, interval: nat, origin: nat, snap: Snapshot)
    requires ImageOk(b, interval, origin, snap)
    ensures SyncedUpTo(b, snap.image, snap.durable)
  {
    hide Holds, Sealed, SegmentItems, Start;
  }

  lemma LastEnds(b: Build, interval: nat, origin: nat, snap: Snapshot)
    requires ImageOk(b, interval, origin, snap)
    ensures snap.image != [] && End(b, snap.image[|snap.image| - 1]) == origin + |snap.history|
  {
    hide Holds, Sealed, Covered, SegmentItems;
  }

  lemma SyncedRecovers(b: Build, interval: nat, origin: nat, snap: Snapshot, offset: nat, after: seq<DiskSegment>)
    requires ImageOk(b, interval, origin, snap) && AllSolid(b, snap.image) && offset <= origin + |snap.history|
    requires SyncedUpTo(b, snap.image, offset) && ImageSurvives(b, snap.image, after)
    ensures RecoversTo(b, after, offset)
  {
    hide Decode, Parse, Solid, RecoverActive, Holds, Sealed, Covered, IndexOf;
    var n := |snap.image| - 1;
    var last := snap.image[n];
    assert Survives(b, last, after[n]) && Solid(b, last.data);
    var k, tail :| SurvivesAt(b, last, after[n], k, tail);
    SurvivorRecovers(b, last, after[n], k, tail);
    if offset > last.base {
      SyncedRecordsSurvive(b, last, after[n], k, tail, offset - last.base);
    }
  }

  // Losing every unsynced byte of the active segment.
  lemma UnsyncedMayBeLost(b: Build, interval: nat, origin: nat, snap: Snapshot, offset: nat)
    returns (after: seq<DiskSegment>)
    requires ImageOk(b, interval, origin, snap) && AllSolid(b, snap.image) && offset <= origin + |snap.history|
    requires snap.image != [] && offset <= End(b, snap.image[|snap.image| - 1])
    requires !SyncedUpTo(b, snap.image, offset)
    ensures ImageSurvives(b, snap.image, after) && !RecoversTo(b, after, offset)
  {
    hide Decode, Parse, Solid, RecoverActive, IndexOf, Survives, Sealed, Covered, SegmentItems;
    var n := |snap.image| - 1;
    var last := snap.image[n];
    assert Holds(b, interval, origin, snap.history, last) && Solid(b, last.data);
    var cut := LosesUnsynced(b, last, offset);
    after := snap.image[n := cut];
    forall i | 0 <= i < n
      ensures Survives(b, snap.image[i], after[i])
    {
      var s := snap.image[i];
      assert Holds(b, interval, origin, snap.history, s) && Solid(b, s.data);
      assert s.data[..|s.data|] == s.data;
      AnyCutSurvives(b, s, s, |s.data|);
    }
  }

  lemma LosesUnsynced(b: Build, s: DiskSegment, offset: nat) returns (after: DiskSegment)
    requires Solid(b, s.data) && s.synced <= |s.data| && s.base < offset <= End(b, s)
    requires s.synced < Start(SegmentItems(b, s), offset - s.base)
    ensures Survives(b, s, after) && after.base == s.base && RecoverActive(b, after.data).Ok?
    ensures after.base + |Items(b, RecoverActive(b, after.data).value)| < offset
  {
    hide Decode, Parse, Solid, RecoverActive;
    var items := SegmentItems(b, s);
    after := s.(data := s.data[..s.synced]);
    var k := CutIsTorn(b, s.data, s.synced);
    var tail := s.data[Start(items, k)..s.synced];
    assert s.data[..s.synced][..s.synced] == s.data[..s.synced];
    assert SurvivesAt(b, s, after, k, tail);
    SurvivorRecovers(b, s, after, k, tail);
    ParseAccounts(b, s.data);
    if offset - s.base < k {
      StartGrows(items, offset - s.base, k);
    }
  }

  /** Reopening without a crash finds the whole history again, and what was durable still is. */
  lemma CleanReopen(b: Build, interval: nat, origin: nat, snap: Snapshot)
    requires ImageOk(b, interval, origin, snap)
    ensures Reopen(b, interval, snap.image).Ok?
    ensures var image := Reopen(b, interval, snap.image).value;
            && |image| == |snap.image|
            && (forall i :: 0 <= i < |image| ==>
                  image[i].base == snap.image[i].base && image[i].data == snap.image[i].data)
            && ImageOk(b, interval, origin, Snapshot(image, snap.history, snap.durable))
            && (AllSolid(b, snap.image) ==> AllSolid(b, image))
  {
    hide Decode, Parse, IndexOf, IndexFits;
    var n := |snap.image| - 1;
    var last := snap.image[n];
    assert Holds(b, interval, origin, snap.history, last);
    ParseAccounts(b, last.data);
    assert last.data[..|last.data|] == last.data;
    assert RecoverActive(b, last.data) == Ok(last.data);
    assert forall i :: 0 <= i < n ==> Sealed(b, interval, snap.image[i]);
    var next := TouchKeepsImage(b, interval, origin, snap, last.synced, Some(IndexImage(b, interval, last.data)), 0,
                                snap.durable);
  }
}
