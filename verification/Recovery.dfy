/**
 What `Log::open` does to the active segment: scan for the last decodable position,
 truncate there, and rebuild the index by replaying what is left.
 */
module Recovery {
  import opened ByteStrings
  import opened Compressions
  import opened DiskImages
  import opened Framing
  import opened Records
  import opened Segments
  import opened SparseIndexes

  /** The scan stops at the first frame that does not decode; only some errors mean a torn tail. */
  method ScanForLastValidPosition(b: Build, segment: Segment) returns (r: Result<nat>)
    requires segment.Valid()
    modifies segment`file, segment`cursor
    ensures segment.Valid() && segment.file.data == old(segment.file.data)
    ensures segment.file.synced == old(segment.file.synced)
    ensures var p := Parse(b, segment.file.data);
            r == if p.fault.Some? && !Truncating(p.fault.value) then Err(p.fault.value) else Ok(Total(p.items))
  {
    hide Decode;
    var size := segment.size;
    if size == 0 {
      return Ok(0);
    }
    var buf := segment.ReadAt(0, size);
    assert buf == segment.file.data;
    ghost var p := Parse(b, buf);
    var slice, lastValidPos := buf, 0;
    ghost var k := 0;
    while slice != []
      invariant k <= |p.items| && lastValidPos == Start(p.items, k)
      invariant Parse(b, slice) == Parsed(p.items[k..], p.fault)
      modifies {}
      decreases |slice|
    {
      match Decode(b, slice) {
        case Ok(d) =>
          assert Items(b, slice)[0] == p.items[k];
          StartStep(p.items, k);
          assert p.items[k..][1..] == p.items[k + 1..];
          slice, lastValidPos, k := slice[d.consumed..], lastValidPos + d.consumed, k + 1;
        case Err(error) =>
          assert p.items[..k] == p.items;
          if Truncating(error) {
            return Ok(lastValidPos);
          }
          return Err(error);
      }
    }
    assert p.items[..k] == p.items;
    return Ok(lastValidPos);
  }

  // The disk states of one file, one operation apart.
  ghost predicate Steps(steps: seq<DiskSegment>) {
    steps != [] && forall i :: 0 < i < |steps| ==> OneActiveOp(steps[i - 1], steps[i])
  }

  lemma StepsGrow(steps: seq<DiskSegment>, op: FileOp)
    requires Steps(steps)
    ensures Steps(steps + [ActiveAfterOp(steps[|steps| - 1], op)])
  {
    hide ActiveAfterOp;
    var next := ActiveAfterOp(steps[|steps| - 1], op);
    assert OneActiveOp(steps[|steps| - 1], next);
  }

  lemma StepsConcat(x: seq<DiskSegment>, y: seq<DiskSegment>)
    requires Steps(x) && Steps(y) && x[|x| - 1] == y[0]
    ensures Steps(x + y[1..])
  {
    hide OneActiveOp;
    var z := x + y[1..];
    forall i | 0 < i < |z|
      ensures OneActiveOp(z[i - 1], z[i])
    {
      if i >= |x| {
        assert OneActiveOp(y[i - |x|], y[i - |x| + 1]);
      }
    }
  }

  method ReplayOne(b: Build, index: SparseIndex, ghost buf: Bytes, k: nat, filePos: nat, size: nat,
                   ghost s: DiskSegment, ghost steps: seq<DiskSegment>)
    returns (ghost longer: seq<DiskSegment>)
    requires IndexFits(b, index.interval, buf) && k < |Items(b, buf)|
    requires filePos == Start(Items(b, buf), k) && size == Items(b, buf)[k].size
    requires index.State() == IndexOf(Items(b, buf)[..k], index.interval) && index.file == PrintIndex(index.entries)
    requires Replaying(steps, s, index.file)
    modifies index
    ensures index.State() == IndexOf(Items(b, buf)[..k + 1], index.interval) && index.file == PrintIndex(index.entries)
    ensures index.synced == old(index.synced) && Replaying(longer, s, index.file)
  {
    hide Parse, IndexOf, PrintIndex, OneActiveOp, Items, Track, Start, NeedsEntry, IndexFits;
    IndexOfStep(Items(b, buf), index.interval, k);
    if NeedsEntry(index.State(), index.interval) {
      TrackedEntryFits(b, index.interval, buf, k);
    }
    ghost var before := index.file;
    index.TrackAppend(index.baseOffset + k, filePos, size);
    assert before + index.file[|before|..] == index.file;
    StepsGrow(steps, WriteIndex(index.file[|before|..]));
    longer := steps + [s.(index := Some(index.file))];
  }

  lemma NotYetReplaying(s: DiskSegment)
    requires s.index == Some([])
    ensures Replaying([s], s, [])
  {
  }

  // The steps so far began at `s` and have only written to its index file.
  ghost predicate Replaying(steps: seq<DiskSegment>, s: DiskSegment, file: Bytes) {
    && Steps(steps) && steps[0] == s && steps[|steps| - 1] == s.(index := Some(file))
    && forall i :: 0 <= i < |steps| ==> steps[i] == s.(index := steps[i].index)
  }

  /** Decodes every record again and tells the index about it; any error fails the open. */
  method ReplayRecordsToIndex(b: Build, segment: Segment, index: SparseIndex, ghost s: DiskSegment)
    returns (r: Result<nat>, ghost steps: seq<DiskSegment>)
    requires segment.Valid() && IndexFits(b, index.interval, segment.file.data)
    requires index.State() == IndexState([], 0) && index.file == [] && s.index == Some([])
    modifies segment`file, segment`cursor, index
    ensures segment.Valid() && segment.file.data == old(segment.file.data)
    ensures segment.file.synced == old(segment.file.synced)
    ensures var p := Parse(b, segment.file.data);
            r == if p.fault.Some? then Err(p.fault.value) else Ok(|p.items|)
    ensures r.Ok? ==> index.State() == IndexOf(Items(b, segment.file.data), index.interval)
    ensures index.file == PrintIndex(index.entries) && index.synced == old(index.synced)
    ensures Replaying(steps, s, index.file)
  {
    hide Decode, IndexOf, PrintIndex, Replaying, IndexFits;
    NothingIndexed(index.interval);
    steps := [s];
    NotYetReplaying(s);
    var size := segment.size;
    if size == 0 {
      return Ok(0), steps;
    }
    var buf := segment.ReadAt(0, size);
    assert buf == segment.file.data;
    ghost var p := Parse(b, buf);
    var slice, filePos, count := buf, 0, 0;
    while slice != []
      invariant count <= |p.items| && filePos == Start(p.items, count)
      invariant Parse(b, slice) == Parsed(p.items[count..], p.fault)
      invariant index.State() == IndexOf(p.items[..count], index.interval)
      invariant index.file == PrintIndex(index.entries) && index.synced == old(index.synced)
      invariant Replaying(steps, s, index.file)
      modifies index
      decreases |slice|
    {
      match Decode(b, slice) {
        case Err(error) =>
          return Err(error), steps;
        case Ok(d) =>
          assert Items(b, slice)[0] == p.items[count];
          StartStep(p.items, count);
          assert p.items[count..][1..] == p.items[count + 1..];
          steps := ReplayOne(b, index, buf, count, filePos, d.consumed, s, steps);
          slice, filePos, count := slice[d.consumed..], filePos + d.consumed, count + 1;
      }
    }
    assert p.items[..count] == p.items;
    return Ok(count), steps;
  }

  lemma NothingIndexed(interval: nat)
    ensures IndexOf([], interval) == IndexState([], 0) && PrintIndex([]) == []
    ensures forall items: seq<Framed> :: items[..0] == []
  {
  }

  datatype Recovered = Recovered(segment: Segment, index: SparseIndex, count: nat)

  /**
   Recovers the active segment. `steps` are the states of its files from the one found to the
   one left behind, by a failed open as well; each is one that `CrashInsideOpen` covers.
   */
  method RecoverActiveSegment(b: Build, interval: nat, s: DiskSegment)
    returns (r: Result<Recovered>, ghost steps: seq<DiskSegment>)
    requires s.synced <= |s.data| && Replayable(b, interval, s.data)
    ensures r.Ok? <==> RecoverActive(b, s.data).Ok?
    ensures r.Err? ==> RecoverActive(b, s.data) == Err(r.error)
    ensures r.Ok? ==>
              var t := ReopenedActive(b, interval, s, RecoverActive(b, s.data).value);
              var segment, index := r.value.segment, r.value.index;
              && fresh(segment) && fresh(index) && segment.Valid()
              && segment.baseOffset == index.baseOffset == s.base && index.interval == interval
              && segment.file.data == t.data && segment.file.synced == t.synced
              && index.State() == IndexOf(Items(b, t.data), interval)
              && index.file == PrintIndex(index.entries) && index.synced == 0
              && r.value.count == |Items(b, t.data)|
              && steps != [] && steps[|steps| - 1] == t
    ensures Steps(steps) && steps[0] == s && steps[|steps| - 1].data == LeftBehind(b, s.data)
    ensures forall i :: 0 <= i < |steps| ==> DuringOpen(b, s, steps[i])
  {
    hide Decode, Parse, IndexOf, IndexFits, PrintIndex, Steps, Replaying, LeftBehind, DuringOpen;
    var segment := new Segment.Open(s.base, s.data, s.synced);
    steps := [s];
    var scanned := ScanForLastValidPosition(b, segment);
    ParseAccounts(b, s.data);
    UntouchedSteps(b, s);
    if scanned.Err? {
      return Err(scanned.error), steps;
    }
    if scanned.value < segment.size {
      segment.Truncate(scanned.value);
    } else {
      assert s.data[..scanned.value] == s.data;
    }
    var index := new SparseIndex.Create(s.base, interval);
    ghost var created;
    steps, created := PreparedSteps(b, s);
    var replayed;
    ghost var more;
    replayed, more := ReplayRecordsToIndex(b, segment, index, created);
    steps := ReplayedSteps(b, s, steps, created, more, index.file);
    if replayed.Err? {
      return Err(replayed.error), steps;
    }
    return Ok(Recovered(segment, index, replayed.value)), steps;
  }

  lemma UntouchedSteps(b: Build, s: DiskSegment)
    ensures Steps([s]) && DuringOpen(b, s, s)
    ensures var p := Parse(b, s.data); p.fault.Some? && !Truncating(p.fault.value) ==> LeftBehind(b, s.data) == s.data
    ensures var p := Parse(b, s.data);
            p.fault.None? || Truncating(p.fault.value) ==>
              Total(p.items) <= |s.data| && LeftBehind(b, s.data) == s.data[..Total(p.items)]
  {
    hide Parse;
    ParseAccounts(b, s.data);
  }

  // The states from the file found to the truncated one with a new, empty index.
  lemma PreparedSteps(b: Build, s: DiskSegment) returns (steps: seq<DiskSegment>, created: DiskSegment)
    requires var p := Parse(b, s.data); p.fault.None? || Truncating(p.fault.value)
    ensures created == ReplayFrom(s, LeftBehind(b, s.data))
    ensures Steps(steps) && steps[0] == s && steps[|steps| - 1] == created
    ensures forall i :: 0 <= i < |steps| ==> DuringOpen(b, s, steps[i])
  {
    hide Parse, Steps;
    var left := LeftBehind(b, s.data);
    ParseAccounts(b, s.data);
    UntouchedSteps(b, s);
    var cut := ActiveAfterOp(s, Truncate(|left|));
    StepsGrow([s], Truncate(|left|));
    StepsGrow([s] + [cut], RemoveIndex);
    var bare := cut.(index := None, indexSynced := 0);
    StepsGrow([s] + [cut] + [bare], CreateIndex);
    created := bare.(index := Some([]));
    steps := [s] + [cut] + [bare] + [created];
    assert |left| == |s.data| ==> left == s.data;
  }

  function ReplayFrom(s: DiskSegment, left: Bytes): (t: DiskSegment) {
    DiskSegment(s.base, left, if |left| < |s.data| then |left| else s.synced, Some([]), 0)
  }

  lemma ReplayedSteps(b: Build, s: DiskSegment, steps: seq<DiskSegment>, created: DiskSegment, more: seq<DiskSegment>,
                      file: Bytes)
    returns (all: seq<DiskSegment>)
    requires Steps(steps) && steps[0] == s && steps[|steps| - 1] == created && Replaying(more, created, file)
    requires forall i :: 0 <= i < |steps| ==> DuringOpen(b, s, steps[i])
    ensures all != [] && Steps(all) && all[0] == s && all[|all| - 1] == created.(index := Some(file))
    ensures forall i :: 0 <= i < |all| ==> DuringOpen(b, s, all[i])
  {
    hide LeftBehind, OneActiveOp;
    StepsConcat(steps, more);
    all := steps + more[1..];
    assert DuringOpen(b, s, created);
    forall i | 0 <= i < |more|
      ensures DuringOpen(b, s, more[i])
    {
      assert more[i] == created.(index := more[i].index);
    }
  }
}
