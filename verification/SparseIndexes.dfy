/**
 The sparse index of one segment: one entry about every `interval` bytes, so that a
 read seeks to the closest entry at or before its target and decodes forward.
 */
module SparseIndexes {
  import opened ByteStrings
  import opened Framing
  import opened Records
  import opened Searching

  datatype Entry = Entry(relativeOffset: nat, filePosition: nat)

  datatype IndexState = IndexState(entries: seq<Entry>, since: nat)

  // An entry is 8 bytes on disk: two big-endian u32.

  predicate Fits(e: Entry) {
    e.relativeOffset < TWO_32 && e.filePosition < TWO_32
  }

  predicate NeedsEntry(st: IndexState, interval: nat) {
    st.entries == [] || st.since >= interval
  }

  function Track(st: IndexState, interval: nat, relative: nat, position: nat, size: nat): (next: IndexState) {
    if NeedsEntry(st, interval)
    then IndexState(st.entries + [Entry(relative, position)], size)
    else IndexState(st.entries, st.since + size)
  }

  // The index a segment holding exactly `items` must have, whoever built it.
  function IndexOf(items: seq<Framed>, interval: nat): (st: IndexState) {
    if items == [] then IndexState([], 0) else
    var k := |items| - 1;
    Track(IndexOf(items[..k], interval), interval, k, Total(items[..k]), items[k].size)
  }

  function Keys(entries: seq<Entry>): (keys: seq<nat>)
    ensures |keys| == |entries|
  {
    seq(|entries|, i requires 0 <= i < |entries| => entries[i].relativeOffset)
  }

  // The last entry at or before `relative`; the segment start when there is none.
  function Floor(entries: seq<Entry>, relative: nat): (e: Entry) {
    if entries == [] then Entry(0, 0)
    else if entries[|entries| - 1].relativeOffset <= relative then entries[|entries| - 1]
    else Floor(entries[..|entries| - 1], relative)
  }

  datatype Seek = Seek(filePosition: nat, startingOffset: nat)

  // A relative offset too large for u32 is clamped, as in the source.
  function LookupIn(entries: seq<Entry>, base: nat, offset: nat): (s: Seek) {
    if offset < base then Seek(0, base) else
    var e := Floor(entries, if offset - base < TWO_32 then offset - base else U32_MAX);
    Seek(e.filePosition, base + e.relativeOffset)
  }

  // ---------------------------------------------------------------- the index file

  function PrintEntry(e: Entry): (s: Bytes)
    ensures |s| == 8
  {
    PutU32(e.relativeOffset) + PutU32(e.filePosition)
  }

  function PrintIndex(entries: seq<Entry>): (s: Bytes)
    ensures |s| == 8 * |entries|
  {
    if entries == [] then [] else PrintEntry(entries[0]) + PrintIndex(entries[1..])
  }

  function ParseEntry(chunk: Bytes): (e: Entry)
    requires |chunk| == 8
  {
    Entry(FromBigEndian(chunk[..4]), FromBigEndian(chunk[4..]))
  }

  // Whole chunks only: a torn last entry is ignored.
  function ParseIndex(s: Bytes): (entries: seq<Entry>)
    decreases |s|
  {
    if |s| < 8 then [] else [ParseEntry(s[..8])] + ParseIndex(s[8..])
  }

  lemma EntryRoundTrip(e: Entry)
    requires Fits(e)
    ensures ParseEntry(PrintEntry(e)) == e
  {
    var s := PrintEntry(e);
    assert s[..4] == PutU32(e.relativeOffset);
    assert s[4..] == PutU32(e.filePosition);
    U32RoundTrip(e.relativeOffset);
    U32RoundTrip(e.filePosition);
  }

  /** Parsing an index file gives back its entries, with or without a torn last one. */
  lemma {:induction false} IndexFileRoundTrip(entries: seq<Entry>, torn: Bytes)
    requires forall i :: 0 <= i < |entries| ==> Fits(entries[i])
    requires |torn| < 8
    ensures ParseIndex(PrintIndex(entries) + torn) == entries
    decreases |entries|
  {
    hide ParseEntry, PrintEntry;
    var s := PrintIndex(entries) + torn;
    if entries == [] {
      assert s == torn;
    } else {
      EntryRoundTrip(entries[0]);
      IndexFileRoundTrip(entries[1..], torn);
      assert s[..8] == PrintEntry(entries[0]);
      assert s[8..] == PrintIndex(entries[1..]) + torn;
    }
  }

  lemma {:induction false} PrintSnoc(entries: seq<Entry>, e: Entry)
    ensures PrintIndex(entries + [e]) == PrintIndex(entries) + PrintEntry(e)
  {
    hide PrintEntry;
    if entries == [] {
      assert [e][1..] == [];
    } else {
      PrintSnoc(entries[1..], e);
      assert (entries + [e])[1..] == entries[1..] + [e];
    }
  }

  // ---------------------------------------------------------------- what the entries say

  // Each entry is the exact start of its record, entries increase, and the first one is the segment start.
  ghost predicate Exact(items: seq<Framed>, entries: seq<Entry>) {
    && (items != [] ==> entries != [] && entries[0] == Entry(0, 0))
    && (forall i :: 0 <= i < |entries| ==>
          entries[i].relativeOffset < |items| && entries[i].filePosition == Start(items, entries[i].relativeOffset))
    && (forall i, j :: 0 <= i < j < |entries| ==>
          && entries[i].relativeOffset < entries[j].relativeOffset
          && entries[i].filePosition < entries[j].filePosition)
  }

  ghost predicate Positive(items: seq<Framed>) {
    forall i :: 0 <= i < |items| ==> items[i].size > 0
  }

  lemma {:induction false} StartGrows(items: seq<Framed>, i: nat, j: nat)
    requires Positive(items) && i < j <= |items|
    ensures Start(items, i) < Start(items, j)
    decreases j
  {
    StartStep(items, j - 1);
    if i < j - 1 {
      StartGrows(items, i, j - 1);
    }
  }

  // `since` counts the bytes behind the last entry.
  ghost predicate Counts(items: seq<Framed>, st: IndexState) {
    items != [] ==>
      && st.entries != []
      && st.since == Total(items) - st.entries[|st.entries| - 1].filePosition
  }

  lemma StartOfPrefix(items: seq<Framed>, n: nat, j: nat)
    requires j <= n <= |items|
    ensures Start(items[..n], j) == Start(items, j)
  {
    assert items[..n][..j] == items[..j];
  }

  /** The index of any run of records is exact, and `since` counts the bytes since its last entry. */
  lemma {:induction false} IndexIsExact(items: seq<Framed>, interval: nat)
    requires Positive(items)
    ensures Exact(items, IndexOf(items, interval).entries)
    ensures Counts(items, IndexOf(items, interval))
    decreases |items|
  {
    if items != [] {
      var k := |items| - 1;
      IndexIsExact(items[..k], interval);
      EntriesStayExact(items, IndexOf(items[..k], interval).entries);
      StartStep(items, k);
      assert items[..|items|] == items;
      NewEntryIsExact(items, IndexOf(items[..k], interval).entries);
    }
  }

  lemma EntriesStayExact(items: seq<Framed>, entries: seq<Entry>)
    requires items != [] && Exact(items[..|items| - 1], entries)
    ensures |items| > 1 ==> Exact(items, entries)
  {
    var k := |items| - 1;
    forall i | 0 <= i < |entries|
      ensures entries[i].filePosition == Start(items, entries[i].relativeOffset)
    {
      StartOfPrefix(items, k, entries[i].relativeOffset);
    }
  }

  lemma NewEntryIsExact(items: seq<Framed>, entries: seq<Entry>)
    requires items != [] && Positive(items) && Exact(items[..|items| - 1], entries)
    ensures Exact(items, entries + [Entry(|items| - 1, Start(items, |items| - 1))])
  {
    var k := |items| - 1;
    forall i | 0 <= i < |entries|
      ensures entries[i].filePosition == Start(items, entries[i].relativeOffset) < Start(items, k)
    {
      StartOfPrefix(items, k, entries[i].relativeOffset);
      StartGrows(items, entries[i].relativeOffset, k);
    }
  }

  lemma {:induction false} FloorSkipsLater(entries: seq<Entry>, later: Entry, relative: nat)
    requires relative < later.relativeOffset
    ensures Floor(entries + [later], relative) == Floor(entries, relative)
  {
    assert (entries + [later])[..|entries|] == entries;
  }

  /** The index is sparse: at least an interval of bytes lies between an entry and the next. */
  lemma {:induction false} EntriesAreSparse(items: seq<Framed>, interval: nat, i: nat)
    requires Positive(items) && i + 1 < |IndexOf(items, interval).entries|
    ensures var entries := IndexOf(items, interval).entries;
            entries[i].filePosition + interval <= entries[i + 1].filePosition
    decreases |items|
  {
    hide Total;
    var most := items[..|items| - 1];
    var prev := IndexOf(most, interval);
    IndexIsExact(most, interval);
    if i + 1 < |prev.entries| {
      EntriesAreSparse(most, interval, i);
    }
  }

  // `e` is an exact entry at or before record k, less than an interval in front of it.
  ghost predicate Close(items: seq<Framed>, interval: nat, e: Entry, k: nat)
    requires k <= |items|
  {
    && e.relativeOffset <= k && e.filePosition == Start(items, e.relativeOffset)
    && 0 <= Start(items, k) - e.filePosition < (if interval > 1 then interval else 1)
  }

  lemma CloseInLonger(items: seq<Framed>, interval: nat, e: Entry, n: nat, k: nat)
    requires k <= n <= |items| && Close(items[..n], interval, e, k)
    ensures Close(items, interval, e, k)
  {
    hide Start;
    StartOfPrefix(items, n, k);
    StartOfPrefix(items, n, e.relativeOffset);
  }

  // The record at the end of `most`: its own entry if it gets one, else the last one before it.
  lemma LastLandsClose(most: seq<Framed>, interval: nat)
    requires Positive(most)
    ensures var prev, n := IndexOf(most, interval), |most|;
            var entries := if NeedsEntry(prev, interval) then prev.entries + [Entry(n, Total(most))] else prev.entries;
            var e := Floor(entries, n);
            Close(most, interval, e, n)
  {
    hide IndexOf, Total;
    var prev, n := IndexOf(most, interval), |most|;
    IndexIsExact(most, interval);
    assert most[..n] == most;
  }

  /**
   Looking up any stored record lands on the start of a record at or before it, and fewer
   than max(interval, 1) bytes have to be decoded before the target.
   */
  lemma {:induction false} LookupLandsClose(items: seq<Framed>, interval: nat, k: nat)
    requires Positive(items) && k < |items|
    ensures var e := Floor(IndexOf(items, interval).entries, k);
            && e.relativeOffset <= k && e.filePosition == Start(items, e.relativeOffset)
            && 0 <= Start(items, k) - e.filePosition < (if interval > 1 then interval else 1)
    decreases |items|
  {
    hide Start, Total, Floor;
    var n := |items| - 1;
    var most := items[..n];
    var prev := IndexOf(most, interval);
    if k < n {
      LookupLandsClose(most, interval, k);
      FloorSkipsLater(prev.entries, Entry(n, Total(most)), k);
      CloseInLonger(items, interval, Floor(prev.entries, k), n, k);
    } else {
      LastLandsClose(most, interval);
      CloseInLonger(items, interval, Floor(IndexOf(items, interval).entries, n), n, n);
    }
  }

  /** Lookup plus forward decode reads the same frames as a decode from byte 0. */
  lemma SeekThenDecode(b: Compressions.Build, buf: Bytes, interval: nat, k: nat)
    requires k < |Items(b, buf)|
    ensures var e := Floor(IndexOf(Items(b, buf), interval).entries, k);
            && e.relativeOffset <= k && e.filePosition < |buf|
            && Parse(b, buf[e.filePosition..]) == Parsed(Items(b, buf)[e.relativeOffset..], Parse(b, buf).fault)
  {
    hide Parse, Decode;
    ParseAccounts(b, buf);
    LookupLandsClose(Items(b, buf), interval, k);
    var e := Floor(IndexOf(Items(b, buf), interval).entries, k);
    ParseFrom(b, buf, e.relativeOffset);
    ItemDecodes(b, buf, e.relativeOffset);
  }

  /** Neither u32 conversion can fail while the segment stays within 4 GiB: 25 bytes per record. */
  lemma EntriesFit(items: seq<Framed>, interval: nat)
    requires Total(items) <= TWO_32
    requires forall i :: 0 <= i < |items| ==> items[i].size >= MIN_FRAME
    ensures forall i :: 0 <= i < |IndexOf(items, interval).entries| ==> Fits(IndexOf(items, interval).entries[i])
  {
    var entries := IndexOf(items, interval).entries;
    IndexIsExact(items, interval);
    forall i | 0 <= i < |entries|
      ensures Fits(entries[i])
    {
      var k := entries[i].relativeOffset;
      StartBounds(items, k);
      StartGrows(items, k, |items|);
      assert items[..|items|] == items;
    }
  }

  lemma {:induction false} StartBounds(items: seq<Framed>, k: nat)
    requires forall i :: 0 <= i < |items| ==> items[i].size >= MIN_FRAME
    requires k <= |items|
    ensures MIN_FRAME * k <= Start(items, k)
    decreases k
  {
    if k > 0 {
      StartStep(items, k - 1);
      StartBounds(items, k - 1);
    }
  }

  // ---------------------------------------------------------------- the index object

  class SparseIndex {
    const baseOffset: nat
    const interval: nat
    var file: Bytes
    var synced: nat
    var entries: seq<Entry>
    var bytesSinceLastEntry: nat

    ghost function State(): IndexState
      reads this
    {
      IndexState(entries, bytesSinceLastEntry)
    }

    constructor Create(baseOffset: nat, interval: nat)
      ensures this.baseOffset == baseOffset && this.interval == interval
      ensures State() == IndexState([], 0) && file == [] && synced == 0
    {
      this.baseOffset, this.interval := baseOffset, interval;
      file, synced, entries, bytesSinceLastEntry := [], 0, [], 0;
    }

    constructor Open(baseOffset: nat, interval: nat, bytes: Bytes, onDisk: nat)
      ensures this.baseOffset == baseOffset && this.interval == interval
      ensures State() == IndexState(ParseIndex(bytes), 0) && file == bytes && synced == onDisk
    {
      this.baseOffset, this.interval := baseOffset, interval;
      file, synced, bytesSinceLastEntry := bytes, onDisk, 0;
      var parsed: seq<Entry>, rest := [], bytes;
      while |rest| >= 8
        invariant parsed + ParseIndex(rest) == ParseIndex(bytes)
        decreases |rest|
      {
        parsed, rest := parsed + [ParseEntry(rest[..8])], rest[8..];
      }
      entries := parsed;
    }

    /** The source panics when an entry it must write does not fit in u32. */
    method TrackAppend(absoluteOffset: nat, filePosition: nat, recordSize: nat)
      requires baseOffset <= absoluteOffset
      requires NeedsEntry(State(), interval) ==> Fits(Entry(absoluteOffset - baseOffset, filePosition))
      modifies this
      ensures State() == Track(old(State()), interval, absoluteOffset - baseOffset, filePosition, recordSize)
      ensures old(file) == PrintIndex(old(entries)) ==> file == PrintIndex(entries)
      ensures old(file) <= file
      ensures synced == old(synced)
    {
      var needEntry := entries == [] || bytesSinceLastEntry >= interval;
      if needEntry {
        var entry := Entry(absoluteOffset - baseOffset, filePosition);
        PrintSnoc(entries, entry);
        file := file + PrintEntry(entry);
        entries := entries + [entry];
        bytesSinceLastEntry := 0;
      }
      bytesSinceLastEntry := bytesSinceLastEntry + recordSize;
    }

    method Lookup(absoluteOffset: nat) returns (s: Seek)
      ensures StrictlyIncreasing(Keys(entries)) ==> s == LookupIn(entries, baseOffset, absoluteOffset)
    {
      if absoluteOffset < baseOffset {
        return Seek(0, baseOffset);
      }
      var relative := if absoluteOffset - baseOffset < TWO_32 then absoluteOffset - baseOffset else U32_MAX;
      var o := BinarySearch(Keys(entries), relative);
      match o {
        case Found(i) =>
          s := Seek(entries[i].filePosition, baseOffset + entries[i].relativeOffset);
          if StrictlyIncreasing(Keys(entries)) { FloorIs(entries, relative, i + 1); }
        case Missing(i) =>
          if i == 0 {
            s := Seek(0, baseOffset);
          } else {
            s := Seek(entries[i - 1].filePosition, baseOffset + entries[i - 1].relativeOffset);
          }
          if StrictlyIncreasing(Keys(entries)) { FloorIs(entries, relative, i); }
      }
    }

    method Sync()
      modifies this`synced
      ensures synced == |file|
    {
      synced := |file|;
    }
  }

  lemma {:induction false} FloorIs(entries: seq<Entry>, relative: nat, i: nat)
    requires i <= |entries| && StrictlyIncreasing(Keys(entries))
    requires forall j :: 0 <= j < i ==> Keys(entries)[j] <= relative
    requires forall j :: i <= j < |entries| ==> relative < Keys(entries)[j]
    ensures Floor(entries, relative) == if i == 0 then Entry(0, 0) else entries[i - 1]
    decreases |entries|
  {
    if entries != [] {
      var n := |entries| - 1;
      assert Keys(entries)[n] == entries[n].relativeOffset;
      if i <= n {
        var most := entries[..n];
        assert forall j :: 0 <= j < n ==> Keys(most)[j] == Keys(entries)[j];
        FloorIs(most, relative, i);
      }
    }
  }
}
