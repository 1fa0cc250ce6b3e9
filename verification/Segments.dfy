/**
 One `.log` file and its cached cursor. `OsFile` is the kernel's side: a byte string, a
 file position that reads and writes move, and how long a prefix an fsync has made durable.
 */
module Segments {
  import opened ByteStrings

  function Zeros(n: nat): (s: Bytes)
    ensures |s| == n
  {
    seq(n, _ => 0)
  }

  function Min(x: nat, y: nat): (m: nat) {
    if x <= y then x else y
  }

  datatype OsFile = OsFile(data: Bytes, pos: nat, synced: nat) {

    function Seek(to: nat): (f: OsFile) {
      this.(pos := to)
    }

    // A write past the end leaves a hole of zeros, a write inside overwrites.
    function Write(bytes: Bytes): (f: OsFile) {
      var padded := if pos <= |data| then data else data + Zeros(pos - |data|);
      var end := pos + |bytes|;
      OsFile(padded[..pos] + bytes + (if end <= |padded| then padded[end..] else []), end, Min(synced, pos))
    }

    function Available(n: nat): (s: Bytes) {
      if pos <= |data| then data[pos..Min(pos + n, |data|)] else []
    }

    function Read(n: nat): (f: OsFile) {
      this.(pos := pos + |Available(n)|)
    }

    function SetLen(n: nat): (f: OsFile) {
      this.(data := if n <= |data| then data[..n] else data + Zeros(n - |data|), synced := Min(synced, n))
    }

    function SyncData(): (f: OsFile) {
      this.(synced := |data|)
    }
  }

  // An empty segment takes its first write whatever its size; otherwise a rotation
  // would create a second segment with the same base offset.
  predicate WouldOverflow(size: nat, additional: nat, threshold: nat) {
    size != 0 && size + additional > threshold
  }

  /**
   The contracts never mention the cursor: with any cached value that `Valid` allows, a
   segment behaves like positioned reads and writes on a byte string of length `size`.
   */
  class Segment {
    const baseOffset: nat
    var file: OsFile
    var size: nat
    var cursor: Option<nat>

    ghost predicate Valid()
      reads this
    {
      && size == |file.data|
      && file.synced <= size
      && (cursor.Some? ==> cursor.value == file.pos)
    }

    constructor Create(baseOffset: nat)
      ensures Valid() && this.baseOffset == baseOffset
      ensures file.data == [] && file.synced == 0
    {
      this.baseOffset := baseOffset;
      file, size, cursor := OsFile([], 0, 0), 0, Some(0);
    }

    constructor Open(baseOffset: nat, data: Bytes, synced: nat)
      requires synced <= |data|
      ensures Valid() && this.baseOffset == baseOffset
      ensures file.data == data && file.synced == synced
    {
      this.baseOffset := baseOffset;
      file, size, cursor := OsFile(data, 0, synced), |data|, Some(0);
    }

    method EnsureCursor(pos: nat)
      requires Valid()
      modifies this`file, this`cursor
      ensures Valid() && cursor == Some(pos)
      ensures file == old(file).(pos := pos)
    {
      if cursor != Some(pos) {
        file := file.Seek(pos);
        cursor := Some(pos);
      }
    }

    method Append(bytes: Bytes) returns (filePos: nat)
      requires Valid()
      modifies this
      ensures Valid()
      ensures filePos == old(size)
      ensures file.data == old(file.data) + bytes && file.synced == old(file.synced)
    {
      filePos := size;
      EnsureCursor(filePos);
      file := file.Write(bytes);
      cursor := Some(filePos + |bytes|);
      size := filePos + |bytes|;
    }

    method ReadAt(filePos: nat, n: nat) returns (bytes: Bytes)
      requires Valid()
      modifies this`file, this`cursor
      ensures Valid()
      ensures bytes == if filePos <= size then file.data[filePos..Min(filePos + n, size)] else []
      ensures file.data == old(file.data) && file.synced == old(file.synced)
    {
      EnsureCursor(filePos);
      bytes := file.Available(n);
      file := file.Read(n);
      cursor := Some(filePos + |bytes|);
    }

    // The kernel leaves the position where it was, possibly past the new end.
    method Truncate(newSize: nat)
      requires Valid()
      modifies this
      ensures Valid() && file.synced == newSize
      ensures file.data == if newSize <= old(size) then old(file.data)[..newSize]
                           else old(file.data) + Zeros(newSize - old(size))
    {
      file := file.SetLen(newSize);
      file := file.SyncData();
      size := newSize;
      cursor := None;
    }

    method Sync()
      requires Valid()
      modifies this`file
      ensures Valid()
      ensures file.data == old(file.data) && file.synced == size
    {
      file := file.SyncData();
    }
  }
}
