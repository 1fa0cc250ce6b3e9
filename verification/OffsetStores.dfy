/**
 Committed offsets of one consumer group, in one file:

   crc u32 | count u32 | (partition u32, offset u64) * count        (little-endian)

 A file that does not check out means "no commit", never an error.
 */
module OffsetStores {
  import opened ByteStrings
  import opened Compressions

  // ---------------------------------------------------------------- the file format

  function EntryBytes(partition: nat, offset: nat): (s: Bytes)
    ensures |s| == 12
  {
    LittleEndian(partition, 4) + LittleEndian(offset, 8)
  }

  function EntriesBytes(offsets: seq<nat>, n: nat): (s: Bytes)
    requires n <= |offsets|
    ensures |s| == 12 * n
  {
    if n == 0 then [] else EntriesBytes(offsets, n - 1) + EntryBytes(n - 1, offsets[n - 1])
  }

  function Body(offsets: seq<nat>): (s: Bytes)
    ensures |s| == 4 + 12 * |offsets|
  {
    LittleEndian(|offsets|, 4) + EntriesBytes(offsets, |offsets|)
  }

  function Encoded(b: Build, offsets: seq<nat>): (s: Bytes)
    ensures |s| == 8 + 12 * |offsets|
  {
    LittleEndian(b.crc32(Body(offsets)), 4) + Body(offsets)
  }

  method Encode(b: Build, offsets: seq<nat>) returns (out: Bytes)
    ensures out == Encoded(b, offsets)
  {
    hide LittleEndian, EntryBytes;
    var body := LittleEndian(|offsets|, 4);
    for i := 0 to |offsets|
      invariant body == LittleEndian(|offsets|, 4) + EntriesBytes(offsets, i)
    {
      body := body + EntryBytes(i, offsets[i]);
    }
    out := LittleEndian(b.crc32(body), 4) + body;
  }

  // Every partition from the beginning.
  function NoCommit(n: nat): (v: seq<nat>)
    ensures |v| == n
  {
    Fitted([], n)
  }

  function EntryPartition(body: Bytes, i: nat): (p: nat)
    requires 4 + 12 * (i + 1) <= |body|
  {
    FromLittleEndian(body[4 + 12 * i..4 + 12 * i + 4])
  }

  function EntryOffset(body: Bytes, i: nat): (o: nat)
    requires 4 + 12 * (i + 1) <= |body|
  {
    FromLittleEndian(body[4 + 12 * i + 4..4 + 12 * i + 12])
  }

  // Entries for partitions the topic does not have are skipped; a later entry wins.
  function Applied(body: Bytes, count: nat, partitions: nat): (v: seq<nat>)
    requires 4 + 12 * count <= |body|
    ensures |v| == partitions
  {
    if count == 0 then NoCommit(partitions) else
    var before := Applied(body, count - 1, partitions);
    var p := EntryPartition(body, count - 1);
    if p < partitions then before[p := EntryOffset(body, count - 1)] else before
  }

  function Decoded(b: Build, bytes: Bytes, partitions: nat): (v: seq<nat>)
    ensures |v| == partitions
  {
    if |bytes| < 8 then NoCommit(partitions) else
    var body := bytes[4..];
    if b.crc32(body) != FromLittleEndian(bytes[..4]) then NoCommit(partitions) else
    var count := FromLittleEndian(body[..4]);
    if |body| < 4 + 12 * count then NoCommit(partitions) else Applied(body, count, partitions)
  }

  method Decode(b: Build, bytes: Bytes, partitions: nat) returns (result: seq<nat>)
    ensures result == Decoded(b, bytes, partitions)
  {
    hide FromLittleEndian;
    result := NoCommit(partitions);
    if |bytes| < 8 {
      return;
    }
    var crc := FromLittleEndian(bytes[..4]);
    var body := bytes[4..];
    if b.crc32(body) != crc {
      return;
    }
    var count := FromLittleEndian(body[..4]);
    if |body| < 4 + 12 * count {
      return;
    }
    for i := 0 to count
      invariant result == Applied(body, i, partitions)
    {
      var p, offset := EntryPartition(body, i), EntryOffset(body, i);
      if p < partitions {
        result := result[p := offset];
      }
    }
  }

  // What a vector means to a topic with a possibly different partition count.
  function Fitted(offsets: seq<nat>, partitions: nat): (v: seq<nat>)
    ensures |v| == partitions
  {
    seq(partitions, p requires 0 <= p < partitions => if p < |offsets| then offsets[p] else 0)
  }

  ghost predicate Storable(offsets: seq<nat>) {
    |offsets| < TWO_32 && forall i :: 0 <= i < |offsets| ==> offsets[i] < TWO_64
  }

  lemma LittleU32(n: nat)
    requires n < TWO_32
    ensures FromLittleEndian(LittleEndian(n, 4)) == n
  {
    Pow256Values();
    LittleEndianRoundTrip(n, 4);
  }

  lemma LittleU64(n: nat)
    requires n < TWO_64
    ensures FromLittleEndian(LittleEndian(n, 8)) == n
  {
    Pow256Values();
    LittleEndianRoundTrip(n, 8);
  }

  lemma {:induction false} EntriesPrefix(offsets: seq<nat>, m: nat, n: nat)
    requires m <= n <= |offsets|
    ensures EntriesBytes(offsets, m) == EntriesBytes(offsets, n)[..12 * m]
    decreases n
  {
    hide EntryBytes;
    if m < n {
      EntriesPrefix(offsets, m, n - 1);
    }
  }

  lemma EntryReadsBack(offsets: seq<nat>, i: nat)
    requires Storable(offsets) && i < |offsets|
    ensures EntryPartition(Body(offsets), i) == i && EntryOffset(Body(offsets), i) == offsets[i]
  {
    hide LittleEndian, FromLittleEndian;
    var body, all := Body(offsets), EntriesBytes(offsets, |offsets|);
    EntriesPrefix(offsets, i + 1, |offsets|);
    var at := 4 + 12 * i;
    var entry := EntryBytes(i, offsets[i]);
    assert all[..12 * (i + 1)][12 * i..] == entry;
    assert body[at..at + 12] == all[12 * i..12 * (i + 1)] == entry;
    assert body[at..at + 4] == body[at..at + 12][..4] == LittleEndian(i, 4);
    assert body[at + 4..at + 12] == body[at..at + 12][4..] == LittleEndian(offsets[i], 8);
    LittleU32(i);
    LittleU64(offsets[i]);
  }

  lemma {:induction false} AppliedReadsBack(offsets: seq<nat>, count: nat, partitions: nat)
    requires Storable(offsets) && count <= |offsets|
    ensures Applied(Body(offsets), count, partitions) == Fitted(offsets[..count], partitions)
    decreases count
  {
    hide Body, EntryPartition, EntryOffset;
    if count > 0 {
      AppliedReadsBack(offsets, count - 1, partitions);
      EntryReadsBack(offsets, count - 1);
    }
  }

  /** Decoding a commit gives back its vector, cut or padded to the topic's partition count. */
  lemma CommitRoundTrip(b: Build, offsets: seq<nat>, partitions: nat)
    requires Lawful(b) && Storable(offsets)
    ensures Decoded(b, Encoded(b, offsets), partitions) == Fitted(offsets, partitions)
  {
    hide LittleEndian, FromLittleEndian, EntriesBytes;
    var bytes := Encoded(b, offsets);
    assert bytes[..4] == LittleEndian(b.crc32(Body(offsets)), 4);
    assert bytes[4..] == Body(offsets);
    assert Body(offsets)[..4] == LittleEndian(|offsets|, 4);
    LittleU32(b.crc32(Body(offsets)));
    LittleU32(|offsets|);
    AppliedReadsBack(offsets, |offsets|, partitions);
    assert offsets[..|offsets|] == offsets;
  }

  /** A commit file cut short anywhere means no commit, even if its checksum happened to match. */
  lemma TruncatedCommitIsNoCommit(b: Build, offsets: seq<nat>, n: nat, partitions: nat)
    requires Storable(offsets) && n < |Encoded(b, offsets)|
    ensures Decoded(b, Encoded(b, offsets)[..n], partitions) == NoCommit(partitions)
  {
    hide LittleEndian, FromLittleEndian, EntriesBytes;
    if n >= 8 {
      var body := Encoded(b, offsets)[..n][4..];
      assert body[..4] == LittleEndian(|offsets|, 4);
      LittleU32(|offsets|);
    }
  }

  /** A commit file whose checksum does not match means no commit, whatever else is in it. */
  lemma CorruptedCommitIsNoCommit(b: Build, bytes: Bytes, partitions: nat)
    requires |bytes| >= 8 && FromLittleEndian(bytes[..4]) != b.crc32(bytes[4..])
    ensures Decoded(b, bytes, partitions) == seq(partitions, _ => 0)
  {
  }

  /** An entry for a partition the topic does not have is ignored; of two for one partition the later counts. */
  lemma EntryTakesEffect(body: Bytes, count: nat, partitions: nat, p: nat)
    requires count > 0 && 4 + 12 * count <= |body| && p < partitions
    ensures var last := FromLittleEndian(body[12 * count - 8..12 * count - 4]);
            Applied(body, count, partitions)[p]
            == if last == p then FromLittleEndian(body[12 * count - 4..12 * count + 4])
               else Applied(body, count - 1, partitions)[p]
  {
  }

  // ---------------------------------------------------------------- the store

  datatype File = File(data: Bytes, synced: nat)

  datatype Disk = Disk(live: Option<File>, temp: Option<File>)

  // A crash may lose any unsynced suffix of a file; renames are atomic.
  ghost predicate FileSurvives(f: Option<File>, after: Option<File>) {
    if f.None? then after.None? else
    after.Some? && after.value.data <= f.value.data && f.value.synced <= |after.value.data|
  }

  function Loaded(b: Build, live: Option<File>, partitions: nat): (v: seq<nat>)
    ensures |v| == partitions
  {
    if live.None? then NoCommit(partitions) else Decoded(b, live.value.data, partitions)
  }

  // Whatever a crash leaves of the live file, reopening yields `v`.
  ghost predicate ReopensTo(b: Build, disk: Disk, v: seq<nat>) {
    forall after :: FileSurvives(disk.live, after) ==> Loaded(b, after, |v|) == v
  }

  // What a single system call of a commit does to the two files.
  datatype StoreOp = CreateTemp | WriteTemp(bytes: Bytes) | SyncTemp | RenameTemp

  function AfterStoreOp(disk: Disk, op: StoreOp): (next: Disk) {
    match op
    case CreateTemp => disk.(temp := Some(File([], 0)))
    case WriteTemp(bytes) => if disk.temp.None? then disk
                             else disk.(temp := Some(disk.temp.value.(data := disk.temp.value.data + bytes)))
    case SyncTemp => if disk.temp.None? then disk
                     else disk.(temp := Some(disk.temp.value.(synced := |disk.temp.value.data|)))
    case RenameTemp => if disk.temp.None? then disk else Disk(disk.temp, None)
  }

  ghost predicate OneStoreOp(x: Disk, y: Disk) {
    exists op :: y == AfterStoreOp(x, op)
  }

  class OffsetStore {
    const build: Build
    const partitions: nat
    var committed: seq<nat>
    // Every state of the two files so far, one file operation apart. The last one is what is on
    // disk now, so the files cannot change without passing through the trace.
    var trace: seq<Disk>

    ghost predicate Traced()
      reads this
    {
      trace != [] && forall i :: 0 < i < |trace| ==> OneStoreOp(trace[i - 1], trace[i])
    }

    function OnDisk(): (disk: Disk)
      requires trace != []
      reads this
    {
      trace[|trace| - 1]
    }

    ghost predicate Valid()
      reads this
    {
      && Lawful(build)
      && |committed| == partitions
      && Traced() && ReopensTo(build, OnDisk(), committed)
    }

    // A file found at open is on disk; a missing or damaged one counts as no commit.
    constructor Open(build: Build, partitions: nat, live: Option<Bytes>)
      requires Lawful(build)
      ensures Valid() && this.build == build && this.partitions == partitions
      ensures committed == if live.None? then NoCommit(partitions) else Decoded(build, live.value, partitions)
      ensures |trace| == 1
    {
      this.build, this.partitions := build, partitions;
      var v := NoCommit(partitions);
      if live.Some? {
        v := Decode(build, live.value, partitions);
      }
      committed := v;
      var file := if live.None? then None else Some(File(live.value, |live.value|));
      trace := [Disk(file, None)];
      new;
      OnlySurvivor(file);
    }

    /** One file operation, and the disk state it leads to. */
    method Perform(op: StoreOp)
      requires Traced()
      modifies this`trace
      ensures Traced() && trace == old(trace) + [AfterStoreOp(old(OnDisk()), op)]
    {
      assert OneStoreOp(OnDisk(), AfterStoreOp(OnDisk(), op));
      trace := trace + [AfterStoreOp(OnDisk(), op)];
    }

    /**
     Writes a temporary file, syncs it, and renames it over the live one. A crash after any of
     these steps reopens to the old vector or to the new one.
     */
    method Commit(offsets: seq<nat>)
      requires Valid() && |offsets| == partitions && Storable(offsets)
      modifies this
      ensures Valid() && committed == offsets
      ensures |trace| == |old(trace)| + 4 && old(trace) <= trace
      ensures forall i :: |old(trace)| <= i < |trace| ==>
                ReopensTo(build, trace[i], old(committed)) || ReopensTo(build, trace[i], offsets)
      ensures var ops := [CreateTemp, WriteTemp(Encoded(build, offsets)), SyncTemp, RenameTemp];
              forall i :: 0 <= i < 4 ==> trace[|old(trace)| + i] == AfterStoreOp(trace[|old(trace)| + i - 1], ops[i])
    {
      hide Encoded, Decoded, ReopensTo, OneStoreOp;
      ghost var was := OnDisk();
      var encoded := Encode(build, offsets);
      Perform(CreateTemp);
      SameLive(build, was, OnDisk(), committed);
      Perform(WriteTemp(encoded));
      SameLive(build, was, OnDisk(), committed);
      Perform(SyncTemp);
      SameLive(build, was, OnDisk(), committed);
      Perform(RenameTemp);
      assert [] + encoded == encoded;
      SyncedReopens(build, OnDisk(), offsets);
      committed := offsets;
    }
  }

  lemma SyncedReopens(b: Build, disk: Disk, offsets: seq<nat>)
    requires Lawful(b) && Storable(offsets) && disk.live == Some(File(Encoded(b, offsets), |Encoded(b, offsets)|))
    ensures ReopensTo(b, disk, offsets)
  {
    hide Encoded, Decoded;
    OnlySurvivor(disk.live);
    CommitRoundTrip(b, offsets, |offsets|);
    assert Fitted(offsets, |offsets|) == offsets;
  }

  lemma OnlySurvivor(f: Option<File>)
    requires f.Some? ==> f.value.synced == |f.value.data|
    ensures forall after :: FileSurvives(f, after) ==>
              && (f.None? ==> after.None?)
              && (f.Some? ==> after.Some? && after.value.data == f.value.data)
  {
  }

  lemma SameLive(b: Build, x: Disk, y: Disk, v: seq<nat>)
    requires x.live == y.live && ReopensTo(b, x, v)
    ensures ReopensTo(b, y, v)
  {
  }

  /**
   Without the sync before the rename, a crash could lose the old vector and the new one: the empty
   file means none.
   */
  lemma UnsyncedRenameLosesBoth(b: Build, offsets: seq<nat>, v: seq<nat>)
    requires v != NoCommit(|v|)
    ensures !ReopensTo(b, Disk(Some(File(Encoded(b, offsets), 0)), None), v)
  {
    var disk := Disk(Some(File(Encoded(b, offsets), 0)), None);
    var after := Some(File([], 0));
    assert FileSurvives(disk.live, after);
    assert Loaded(b, after, |v|) == NoCommit(|v|);
  }
}
