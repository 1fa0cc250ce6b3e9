/**
 The build a kafko binary is: its checksum function and the codecs its Cargo
 features enable. The checksum, the LZ4 block codec and the zstd frame codec are
 library code, so they are parameters and every theorem holds for all of them;
 what kafko adds around them (the LZ4 size prefix, the 16 MiB cap, the flag byte)
 is modelled.
 */
module Compressions {
  import opened ByteStrings

  datatype Error =
    | Truncated(needed: nat)
    | CrcMismatch(expected: nat, actual: nat)
    | InvalidLength(len: nat)
    | UnknownCompression(flag: Byte)
    | DecompressionFailed
    | CompressionUnavailable(compression: Compression)
    | MissingFile
    | Closed

  datatype Result<+T> = Ok(value: T) | Err(error: Error)

  datatype Compression = NoCompression | Lz4 | Zstd

  // `decompress` takes the output size it may produce: the claimed size for an
  // LZ4 block, the cap for a zstd frame.
  datatype LibraryCodec = LibraryCodec(compress: Bytes -> Bytes, decompress: (Bytes, nat) -> Option<Bytes>)

  datatype Build = Build(crc32: Bytes -> nat, lz4: Option<LibraryCodec>, zstd: Option<LibraryCodec>)

  const DECOMPRESS_MAX_SIZE: nat := 16 * 1024 * 1024

  // What the libraries promise. The checksum is only asked to be a u32.
  ghost predicate Lawful(b: Build) {
    && (forall s {:trigger b.crc32(s)} :: b.crc32(s) < TWO_32)
    && (b.lz4.Some? ==> forall raw {:trigger b.lz4.value.compress(raw)} ::
          b.lz4.value.decompress(b.lz4.value.compress(raw), |raw|) == Some(raw))
    && (b.zstd.Some? ==> forall raw {:trigger b.zstd.value.compress(raw)} ::
          b.zstd.value.decompress(b.zstd.value.compress(raw), DECOMPRESS_MAX_SIZE)
          == if |raw| <= DECOMPRESS_MAX_SIZE then Some(raw) else None)
  }

  function Flag(c: Compression): (f: Byte) {
    match c
    case NoCompression => 0
    case Lz4 => 1
    case Zstd => 2
  }

  function FromFlag(f: Byte): (r: Result<Compression>)
    ensures r.Ok? ==> Flag(r.value) == f
    ensures r.Ok? <==> f <= 2
  {
    if f == 0 then Ok(NoCompression)
    else if f == 1 then Ok(Lz4)
    else if f == 2 then Ok(Zstd)
    else Err(UnknownCompression(f))
  }

  predicate Available(b: Build, c: Compression) {
    match c
    case NoCompression => true
    case Lz4 => b.lz4.Some?
    case Zstd => b.zstd.Some?
  }

  function Compress(b: Build, c: Compression, raw: Bytes): (r: Result<Bytes>)
    ensures r.Ok? <==> Available(b, c)
    ensures r.Err? ==> r.error == CompressionUnavailable(c)
  {
    match c
    case NoCompression => Ok(raw)
    case Lz4 =>
      if b.lz4.None? then Err(CompressionUnavailable(Lz4))
      else Ok(LittleEndian(|raw|, 4) + b.lz4.value.compress(raw))
    case Zstd =>
      if b.zstd.None? then Err(CompressionUnavailable(Zstd))
      else Ok(b.zstd.value.compress(raw))
  }

  function FromLibrary(decompressed: Option<Bytes>): (r: Result<Bytes>) {
    match decompressed
    case Some(raw) => Ok(raw)
    case None => Err(DecompressionFailed)
  }

  function Decompress(b: Build, c: Compression, stored: Bytes): (r: Result<Bytes>) {
    match c
    case NoCompression => Ok(stored)
    case Lz4 =>
      if b.lz4.None? then Err(CompressionUnavailable(Lz4))
      else if |stored| < 4 then Err(DecompressionFailed)
      else
        var claimed := FromLittleEndian(stored[..4]);
        if claimed > DECOMPRESS_MAX_SIZE then Err(DecompressionFailed)
        else FromLibrary(b.lz4.value.decompress(stored[4..], claimed))
    case Zstd =>
      if b.zstd.None? then Err(CompressionUnavailable(Zstd))
      else FromLibrary(b.zstd.value.decompress(stored, DECOMPRESS_MAX_SIZE))
  }

  // The cap is on decompression only, so compression accepts values that can
  // never be read back.
  predicate WithinCap(c: Compression, raw: Bytes) {
    c.NoCompression? || |raw| <= DECOMPRESS_MAX_SIZE
  }

  /** The cap is 16 MiB, and a stored LZ4 value that claims more is refused before the library sees it. */
  lemma CapIsSixteenMebibytes(b: Build, c: Compression, raw: Bytes, stored: Bytes)
    ensures WithinCap(c, raw) <==> c == NoCompression || |raw| <= 16_777_216
    ensures b.lz4.Some? && |stored| >= 4 && FromLittleEndian(stored[..4]) > 16_777_216 ==>
              Decompress(b, Lz4, stored) == Err(DecompressionFailed)
    ensures !Available(b, c) ==> Decompress(b, c, stored) == Err(CompressionUnavailable(c))
  {
  }

  // A stored value reads back exactly when it is within the cap.
  lemma CompressedValueReadsBackIffWithinCap(b: Build, c: Compression, raw: Bytes)
    requires Lawful(b) && Available(b, c)
    requires |raw| < TWO_32
    ensures Decompress(b, c, Compress(b, c, raw).value)
         == if WithinCap(c, raw) then Ok(raw) else Err(DecompressionFailed)
  {
    if c.Lz4? {
      var stored := Compress(b, c, raw).value;
      assert stored[..4] == LittleEndian(|raw|, 4);
      assert stored[4..] == b.lz4.value.compress(raw);
      Pow256Values();
      LittleEndianRoundTrip(|raw|, 4);
    }
  }
}
