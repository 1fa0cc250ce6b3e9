/**
 One record on the wire (all integers big-endian):

   len u32 | crc u32 | flags u8 | timestamp i64 | key_len u32 | key | val_len u32 | value

 `len` counts everything after itself and the checksum covers everything after
 itself. A key length of u32::MAX stands for "no key".
 */
module Records {
  import opened ByteStrings
  import opened Compressions

  type I64 = x: int | 0 - TWO_63 <= x < TWO_63

  datatype Record = Record(timestampMs: I64, key: Option<Bytes>, value: Bytes)

  const KEY_NULL_SENTINEL: nat := U32_MAX
  const MIN_TOTAL_LEN: nat := 21
  const MIN_FRAME: nat := 25

  // ---------------------------------------------------------------- encoding

  function TimestampToU64(t: I64): (n: nat)
    ensures n < TWO_64
  {
    if t < 0 then t + TWO_64 else t
  }

  function TimestampFromU64(n: nat): (t: I64)
    requires n < TWO_64
    ensures TimestampToU64(t) == n
  {
    if n >= TWO_63 then n - TWO_64 else n
  }

  function KeyField(key: Option<Bytes>): (s: Bytes)
    ensures |s| == if key.None? then 4 else 4 + |key.value|
  {
    match key
    case None => PutU32(KEY_NULL_SENTINEL)
    case Some(k) => PutU32(|k|) + k
  }

  function WireSize(r: Record): (n: nat)
    ensures n >= MIN_FRAME
  {
    4 + 4 + 1 + 8 + |KeyField(r.key)| + 4 + |r.value|
  }

  function Payload(flag: Byte, r: Record, stored: Bytes): (p: Bytes)
    ensures |p| == 9 + |KeyField(r.key)| + 4 + |stored|
  {
    [flag] + PutU64(TimestampToU64(r.timestampMs)) + KeyField(r.key) + PutU32(|stored|) + stored
  }

  function Frame(b: Build, payload: Bytes): (f: Bytes)
    ensures |f| == 8 + |payload|
  {
    PutU32(4 + |payload|) + PutU32(b.crc32(payload)) + payload
  }

  function Encode(b: Build, c: Compression, r: Record): (e: Result<Bytes>)
    ensures e.Ok? <==> Available(b, c)
    ensures e.Err? ==> e.error == CompressionUnavailable(c)
    ensures e.Ok? ==> |e.value| >= MIN_FRAME
    ensures c.NoCompression? ==> |e.value| == WireSize(r)
  {
    match Compress(b, c, r.value)
    case Err(error) => Err(error)
    case Ok(stored) => Ok(Frame(b, Payload(Flag(c), r, stored)))
  }

  lemma Reassociate(head: Bytes, flag: Bytes, ts: Bytes, kf: Bytes, valLen: Bytes, stored: Bytes, rest: Bytes)
    ensures head + (flag + ts + kf + valLen + stored) + rest == head + flag + ts + kf + valLen + stored + rest
  {
  }

  // A patch in the middle of a buffer leaves what is around it.
  lemma Patch(out: Bytes, len: Bytes, hole: Bytes, payload: Bytes, crc: Bytes)
    ensures (out + len + hole + payload)[|out| + |len| + |hole|..] == payload
    ensures (out + len + hole + payload)[..|out| + |len|] == out + len
    ensures out + len + crc + payload == out + (len + crc + payload)
  {
  }

  /** Fills the buffer field by field with a zero checksum, then patches the checksum in. */
  method EncodeInner(b: Build, out: Bytes, c: Compression, r: Record, stored: Bytes)
    returns (filled: Bytes, written: nat)
    requires Lawful(b)
    ensures filled == out + Frame(b, Payload(Flag(c), r, stored))
    ensures written == |filled| - |out|
  {
    var keyPart := if r.key.None? then 4 else 4 + |r.key.value|;
    var payloadLen := 1 + 8 + keyPart + 4 + |stored|;
    var len := PutU32(4 + payloadLen);
    filled := out + len;
    var crcPos := |filled|;
    filled := filled + PutU32(0);
    var payloadStart := |filled|;
    var ts, valLen := PutU64(TimestampToU64(r.timestampMs)), PutU32(|stored|);
    filled := filled + [Flag(c)];
    filled := filled + ts;
    ghost var beforeKey := filled;
    match r.key {
      case None =>
        filled := filled + PutU32(KEY_NULL_SENTINEL);
      case Some(k) =>
        filled := filled + PutU32(|k|);
        filled := filled + k;
    }
    assert filled == beforeKey + KeyField(r.key);
    filled := filled + valLen;
    filled := filled + stored;
    ghost var payload := Payload(Flag(c), r, stored);
    assert filled == out + len + PutU32(0) + payload by {
      Reassociate(out + len + PutU32(0), [Flag(c)], ts, KeyField(r.key), valLen, stored, []);
      assert filled + [] == filled;
    }
    Patch(out, len, PutU32(0), payload, PutU32(b.crc32(payload)));
    var crc := b.crc32(filled[payloadStart..]);
    filled := filled[..crcPos] + PutU32(crc) + filled[crcPos + 4..];
    written := |filled| - |out|;
  }

  /** Appends the encoded record to `out`; a codec missing from the build leaves `out` alone. */
  method EncodeWith(b: Build, out: Bytes, c: Compression, r: Record) returns (filled: Bytes, written: Result<nat>)
    requires Lawful(b)
    ensures written.Ok? <==> Available(b, c)
    ensures written.Ok? ==> filled == out + Encode(b, c, r).value && written.value == |Encode(b, c, r).value|
    ensures written.Err? ==> filled == out && written.error == CompressionUnavailable(c)
  {
    var n: nat;
    match Compress(b, c, r.value) {
      case Err(error) =>
        filled, written := out, Err(error);
      case Ok(stored) =>
        filled, n := EncodeInner(b, out, c, r, stored);
        written := Ok(n);
    }
  }

  // ---------------------------------------------------------------- decoding

  datatype Decoded = Decoded(record: Record, consumed: nat)

  datatype KeyAt = KeyAt(key: Option<Bytes>, next: nat)

  function DecodeKey(buf: Bytes, totalLen: nat): (r: Result<KeyAt>)
    requires |buf| >= MIN_FRAME
    ensures r.Ok? ==> 21 <= r.value.next <= |buf|
    ensures r.Err? ==> r.error == InvalidLength(totalLen)
  {
    var raw := FromBigEndian(buf[17..21]);
    if raw == KEY_NULL_SENTINEL then Ok(KeyAt(None, 21))
    else if |buf| - 21 < raw then Err(InvalidLength(totalLen))
    else Ok(KeyAt(Some(buf[21..21 + raw]), 21 + raw))
  }

  function DecodeBody(b: Build, buf: Bytes, totalLen: nat): (r: Result<Decoded>)
    requires |buf| >= MIN_FRAME
    ensures r.Ok? ==> MIN_FRAME <= r.value.consumed <= |buf|
  {
    match FromFlag(buf[8])
    case Err(error) => Err(error)
    case Ok(compression) =>
      U64Bounded(buf[9..17]);
      var timestamp := TimestampFromU64(FromBigEndian(buf[9..17]));
      match DecodeKey(buf, totalLen)
      case Err(error) => Err(error)
      case Ok(k) =>
        if |buf| - k.next < 4 then Err(InvalidLength(totalLen)) else
        var valLen := FromBigEndian(buf[k.next..k.next + 4]);
        var at := k.next + 4;
        if |buf| - at < valLen then Err(InvalidLength(totalLen)) else
        match Decompress(b, compression, buf[at..at + valLen])
        case Err(error) => Err(error)
        case Ok(value) => Ok(Decoded(Record(timestamp, k.key, value), at + valLen))
  }

  // The inner lengths are checked against the whole remaining buffer, as in the
  // source, so `consumed` and `4 + totalLen` agree only on encoder output.
  function Decode(b: Build, buf: Bytes): (r: Result<Decoded>)
    ensures r.Ok? ==> MIN_FRAME <= r.value.consumed <= |buf|
  {
    if |buf| < 4 then Err(Truncated(4 - |buf|)) else
    var totalLen := FromBigEndian(buf[..4]);
    if totalLen < MIN_TOTAL_LEN then Err(InvalidLength(totalLen)) else
    if |buf| - 4 < totalLen then Err(Truncated(totalLen - (|buf| - 4))) else
    var expected := FromBigEndian(buf[4..8]);
    var actual := b.crc32(buf[8..4 + totalLen]);
    if actual != expected then Err(CrcMismatch(expected, actual)) else
    DecodeBody(b, buf, totalLen)
  }

  // The errors that recovery answers by truncating the segment.
  predicate Truncating(e: Error) {
    e.Truncated? || e.CrcMismatch? || e.InvalidLength?
  }

  // A frame that a u32 length field can describe.
  predicate FrameFits(f: Bytes) {
    |f| - 4 < TWO_32
  }

  // What a record must be for kafko to read it back after acknowledging it.
  predicate Appendable(b: Build, c: Compression, r: Record) {
    Available(b, c) ==> FrameFits(Encode(b, c, r).value) && WithinCap(c, r.value) && |r.value| < TWO_32
  }

  // ---------------------------------------------------------------- round trip

  lemma Slices(f: Bytes, a: Bytes, m: Bytes, z: Bytes)
    requires f == a + m + z
    ensures f[|a|..|a| + |m|] == m
  {
  }

  /**
   Decoding inverts encoding on any continuation, exactly when the stored value is
   within the decompression cap; otherwise the record cannot be read at all.
   */
  lemma RoundTrip(b: Build, c: Compression, r: Record, rest: Bytes)
    requires Lawful(b) && Available(b, c) && |r.value| < TWO_32
    requires FrameFits(Encode(b, c, r).value)
    ensures var f := Encode(b, c, r).value;
            Decode(b, f + rest) == if WithinCap(c, r.value) then Ok(Decoded(r, |f|)) else Err(DecompressionFailed)
  {
    hide Compress, DecodeBody, FromBigEndian, Payload, PutU32;
    var stored := Compress(b, c, r.value).value;
    var payload := Payload(Flag(c), r, stored);
    var f := Frame(b, payload);
    var buf := f + rest;
    FrameHeader(b, payload, rest);
    BodyRoundTrip(b, c, r, rest);
    assert Decode(b, buf) == DecodeBody(b, buf, 4 + |payload|);
  }

  lemma FrameHeader(b: Build, payload: Bytes, rest: Bytes)
    requires Lawful(b) && 4 + |payload| < TWO_32
    ensures var buf := Frame(b, payload) + rest;
            && FromBigEndian(buf[..4]) == 4 + |payload|
            && FromBigEndian(buf[4..8]) == b.crc32(payload)
            && buf[8..8 + |payload|] == payload
  {
    var len, crc := PutU32(4 + |payload|), PutU32(b.crc32(payload));
    var buf := Frame(b, payload) + rest;
    assert buf[..4] == len;
    Slices(buf, len, crc, payload + rest);
    Slices(buf, len + crc, payload, rest);
    U32RoundTrip(4 + |payload|);
    U32RoundTrip(b.crc32(payload));
  }

  lemma BodyRoundTrip(b: Build, c: Compression, r: Record, rest: Bytes)
    requires Lawful(b) && Available(b, c) && |r.value| < TWO_32
    requires FrameFits(Encode(b, c, r).value)
    ensures var f := Encode(b, c, r).value;
            DecodeBody(b, f + rest, |f| - 4)
            == if WithinCap(c, r.value) then Ok(Decoded(r, |f|)) else Err(DecompressionFailed)
  {
    hide DecodeBody, Compress, Decompress, Payload, Frame;
    StoredBody(b, c, r, Compress(b, c, r.value).value, rest);
    CompressedValueReadsBackIffWithinCap(b, c, r.value);
  }

  // A frame with any stored bytes decodes to what its codec makes of them.
  lemma StoredBody(b: Build, c: Compression, r: Record, stored: Bytes, rest: Bytes)
    requires Lawful(b) && FrameFits(Frame(b, Payload(Flag(c), r, stored)))
    ensures var f := Frame(b, Payload(Flag(c), r, stored));
            DecodeBody(b, f + rest, |f| - 4) ==
            match Decompress(b, c, stored)
            case Err(error) => Err(error)
            case Ok(value) => Ok(Decoded(r.(value := value), |f|))
  {
    hide DecodeBody, DecodeKey, Decompress, FromBigEndian, PutU32, PutU64, TimestampToU64;
    var payload := Payload(Flag(c), r, stored);
    var head := PutU32(4 + |payload|) + PutU32(b.crc32(payload));
    var ts, kf, valLen := PutU64(TimestampToU64(r.timestampMs)), KeyField(r.key), PutU32(|stored|);
    var buf := head + [Flag(c)] + ts + kf + valLen + stored + rest;
    assert Frame(b, payload) + rest == buf by { Reassociate(head, [Flag(c)], ts, kf, valLen, stored, rest); }
    FrameFields(head, [Flag(c)], ts, kf, valLen, stored, rest);
    U64RoundTrip(TimestampToU64(r.timestampMs));
    KeyRoundTrip(buf, head + [Flag(c)] + ts, r.key, valLen + stored + rest, |payload| + 4);
    U32RoundTrip(|stored|);
    BodyFromFields(b, buf, c, r, stored, |payload| + 4);
  }

  lemma BodyFromFields(b: Build, buf: Bytes, c: Compression, r: Record, stored: Bytes, totalLen: nat)
    requires |buf| >= 17 + |KeyField(r.key)| + 4 + |stored|
    requires buf[8] == Flag(c)
    requires FromBigEndian(buf[9..17]) == TimestampToU64(r.timestampMs)
    requires DecodeKey(buf, totalLen) == Ok(KeyAt(r.key, 17 + |KeyField(r.key)|))
    requires var at := 17 + |KeyField(r.key)|;
             FromBigEndian(buf[at..at + 4]) == |stored| && buf[at + 4..at + 4 + |stored|] == stored
    ensures DecodeBody(b, buf, totalLen) ==
            match Decompress(b, c, stored)
            case Err(error) => Err(error)
            case Ok(value) => Ok(Decoded(r.(value := value), 17 + |KeyField(r.key)| + 4 + |stored|))
  {
  }

  lemma FrameFields(head: Bytes, flag: Bytes, ts: Bytes, kf: Bytes, valLen: Bytes, stored: Bytes, rest: Bytes)
    requires |head| == 8 && |flag| == 1 && |ts| == 8 && |valLen| == 4
    ensures var buf := head + flag + ts + kf + valLen + stored + rest;
            var at := 17 + |kf|;
            && buf == head + flag + ts + kf + (valLen + stored + rest)
            && buf[8] == flag[0] && buf[9..17] == ts
            && buf[at..at + 4] == valLen
            && buf[at + 4..at + 4 + |stored|] == stored
  {
    var buf := head + flag + ts + kf + valLen + stored + rest;
    Slices(buf, head + flag, ts, kf + valLen + stored + rest);
    Slices(buf, head + flag + ts + kf, valLen, stored + rest);
    Slices(buf, head + flag + ts + kf + valLen, stored, rest);
  }

  // The sentinel is never a real length: a key of a frame that fits is shorter.
  lemma KeyRoundTrip(buf: Bytes, before: Bytes, key: Option<Bytes>, after: Bytes, totalLen: nat)
    requires |before| == 17 && |after| >= 4
    requires buf == before + KeyField(key) + after
    requires key.Some? ==> |key.value| < KEY_NULL_SENTINEL
    ensures DecodeKey(buf, totalLen) == Ok(KeyAt(key, 17 + |KeyField(key)|))
  {
    hide FromBigEndian, PutU32;
    match key {
      case None =>
        Slices(buf, before, KeyField(key), after);
        U32RoundTrip(KEY_NULL_SENTINEL);
      case Some(k) =>
        Slices(buf, before, PutU32(|k|), k + after);
        Slices(buf, before + PutU32(|k|), k, after);
        U32RoundTrip(|k|);
    }
  }

  // ---------------------------------------------------------------- what a frame must be

  // The frame at the front of `buf` is all there and its checksum is the one of its payload.
  ghost predicate Checksummed(b: Build, buf: Bytes) {
    && |buf| >= 25
    && var len := FromBigEndian(buf[..4]);
       21 <= len && 4 + len <= |buf| && FromBigEndian(buf[4..8]) == b.crc32(buf[8..4 + len])
  }

  /** Nothing decodes from bytes whose checksum does not match, or that are not all there. */
  lemma DecodedIsChecksummed(b: Build, buf: Bytes)
    requires Decode(b, buf).Ok?
    ensures Checksummed(b, buf)
  {
  }

  // A whole frame with some other payload of the same length behind the header of an encoding.
  function Tampered(b: Build, payload: Bytes, other: Bytes): (f: Bytes) {
    Frame(b, payload)[..8] + other
  }

  /** Changing the bytes behind a checksum is reported, with both checksums, whenever the checksum tells. */
  lemma TamperingIsCaught(b: Build, payload: Bytes, other: Bytes, rest: Bytes)
    requires Lawful(b) && 17 <= |payload| == |other| && 4 + |payload| < TWO_32 && b.crc32(other) != b.crc32(payload)
    ensures Decode(b, Tampered(b, payload, other) + rest) == Err(CrcMismatch(b.crc32(payload), b.crc32(other)))
  {
    hide DecodeBody;
    FrameHeader(b, payload, []);
    var f := Frame(b, payload);
    assert f + [] == f;
    var buf := Tampered(b, payload, other) + rest;
    assert buf[..4] == f[..4] && buf[4..8] == f[4..8] && buf[8..8 + |payload|] == other;
  }

  /** A checksummed frame whose flag names no codec, or one that is not in the build, is an error of that kind. */
  lemma UnreadableFlagIsAnError(b: Build, payload: Bytes, rest: Bytes)
    requires Lawful(b) && 17 <= |payload| && 4 + |payload| < TWO_32 && payload[0] > 2
    ensures Decode(b, Frame(b, payload) + rest) == Err(UnknownCompression(payload[0]))
  {
    FrameHeader(b, payload, rest);
    var buf := Frame(b, payload) + rest;
    assert buf[8] == buf[8..8 + |payload|][0] == payload[0];
  }

  lemma MissingCodecIsAnError(b: Build, c: Compression, r: Record, stored: Bytes, rest: Bytes)
    requires Lawful(b) && !Available(b, c) && FrameFits(Frame(b, Payload(Flag(c), r, stored)))
    ensures Decode(b, Frame(b, Payload(Flag(c), r, stored)) + rest) == Err(CompressionUnavailable(c))
  {
    hide DecodeBody, Payload, Frame, Compress;
    FrameHeader(b, Payload(Flag(c), r, stored), rest);
    StoredBody(b, c, r, stored, rest);
  }

  /** A frame reported truncated needs exactly that many bytes more before anything else can be said of it. */
  lemma NeededIsExact(b: Build, buf: Bytes, more: Bytes)
    requires Decode(b, buf).Err? && Decode(b, buf).error.Truncated? && |buf| >= 4
    ensures var needed := Decode(b, buf).error.needed;
            && |buf| + needed == 4 + FromBigEndian(buf[..4])
            && (|more| < needed ==> Decode(b, buf + more) == Err(Truncated(needed - |more|)))
            && (|more| >= needed ==> Decode(b, buf + more).Ok? || !Decode(b, buf + more).error.Truncated?)
  {
    hide DecodeKey;
    assert (buf + more)[..4] == buf[..4];
  }

  // ---------------------------------------------------------------- arbitrary bytes

  lemma SliceAgrees(x: Bytes, z: Bytes, c: nat, i: nat, j: nat)
    requires c <= |x| && c <= |z| && x[..c] == z[..c] && i <= j <= c
    ensures x[i..j] == z[i..j]
  {
    assert x[i..j] == x[..c][i..j];
    assert z[i..j] == z[..c][i..j];
  }

  // The body decoder depends only on the bytes it consumes.
  lemma BodyAgrees(b: Build, x: Bytes, z: Bytes, totalLen: nat)
    requires |x| >= MIN_FRAME && DecodeBody(b, x, totalLen).Ok?
    requires var c := DecodeBody(b, x, totalLen).value.consumed; c <= |z| && x[..c] == z[..c]
    ensures DecodeBody(b, z, totalLen) == DecodeBody(b, x, totalLen)
  {
    var c := DecodeBody(b, x, totalLen).value.consumed;
    var k := DecodeKey(x, totalLen).value;
    var at := k.next + 4;
    SliceAgrees(x, z, c, 8, 9);
    assert z[8] == z[8..9][0] == x[8..9][0] == x[8];
    SliceAgrees(x, z, c, 9, 17);
    SliceAgrees(x, z, c, 17, 21);
    SliceAgrees(x, z, c, 21, k.next);
    SliceAgrees(x, z, c, k.next, at);
    SliceAgrees(x, z, c, at, c);
  }

  /** A successful decode is not disturbed by whatever follows it. */
  lemma DecodeStable(b: Build, x: Bytes, y: Bytes)
    requires Decode(b, x).Ok?
    ensures Decode(b, x + y) == Decode(b, x)
  {
    var z, n := x + y, |x|;
    assert x[..n] == z[..n];
    var totalLen := FromBigEndian(x[..4]);
    SliceAgrees(x, z, n, 0, 4);
    SliceAgrees(x, z, n, 4, 8);
    SliceAgrees(x, z, n, 8, 4 + totalLen);
    var c := Decode(b, x).value.consumed;
    SliceAgrees(x, z, n, 0, c);
    BodyAgrees(b, x, z, totalLen);
  }

  /** A decodable frame survives any cut that keeps both what it declares and what it consumes. */
  lemma DecodeConsumedOnly(b: Build, x: Bytes, n: nat)
    requires Decode(b, x).Ok? && Decode(b, x).value.consumed <= n <= |x|
    requires 4 + FromBigEndian(x[..4]) <= n
    ensures Decode(b, x[..n]) == Decode(b, x)
  {
    var z := x[..n];
    assert x[..n] == z[..n];
    var totalLen := FromBigEndian(x[..4]);
    SliceAgrees(x, z, n, 0, 4);
    SliceAgrees(x, z, n, 4, 8);
    SliceAgrees(x, z, n, 8, 4 + totalLen);
    SliceAgrees(x, z, n, 0, Decode(b, x).value.consumed);
    BodyAgrees(b, x, z, totalLen);
  }

  lemma PrefixFields(b: Build, x: Bytes, n: nat)
    requires MIN_FRAME <= n <= |x|
    ensures x[..n][..4] == x[..4]
    ensures x[..n][4..8] == x[4..8]
    ensures x[..n][8] == x[8]
    ensures x[..n][9..17] == x[9..17]
    ensures x[..n][17..21] == x[17..21]
  {
  }

  /**
   Cutting a decodable frame anywhere inside makes it fail with an error that
   recovery truncates on. This holds for arbitrary bytes, whatever the checksum does.
   */
  lemma ProperPrefixIsTorn(b: Build, x: Bytes, n: nat)
    requires Decode(b, x).Ok? && n < Decode(b, x).value.consumed
    ensures Decode(b, x[..n]).Err?
    ensures Decode(b, x[..n]).error.Truncated? || Decode(b, x[..n]).error.InvalidLength?
  {
    if n >= 4 {
      assert x[..n][..4] == x[..4];
      var totalLen := FromBigEndian(x[..4]);
      if n - 4 >= totalLen {
        PrefixFields(b, x, n);
        assert x[..n][8..4 + totalLen] == x[8..4 + totalLen];
        var k := DecodeKey(x, totalLen).value;
        if k.next + 4 <= n {
          assert x[..n][k.next..k.next + 4] == x[k.next..k.next + 4];
          if k.key.Some? {
            assert x[..n][21..k.next] == x[21..k.next];
          }
        }
      }
    }
  }

  /** The encoder's own frames, cut short, are always reported as truncated. */
  lemma EncodedPrefixIsTruncated(b: Build, c: Compression, r: Record, n: nat)
    requires Lawful(b) && Available(b, c)
    requires FrameFits(Encode(b, c, r).value)
    requires n < |Encode(b, c, r).value|
    ensures Decode(b, Encode(b, c, r).value[..n]).Err?
    ensures Decode(b, Encode(b, c, r).value[..n]).error.Truncated?
  {
    var payload := Payload(Flag(c), r, Compress(b, c, r.value).value);
    FrameHeader(b, payload, []);
    var f := Frame(b, payload);
    assert f + [] == f;
    if n >= 4 {
      assert f[..n][..4] == f[..4];
    }
  }

  /** A zero-filled tail, which a file system may leave after a crash, never decodes. */
  lemma ZeroTailIsTorn(b: Build, tail: Bytes)
    requires forall i :: 0 <= i < |tail| ==> tail[i] == 0
    ensures Decode(b, tail).Err? && Truncating(Decode(b, tail).error)
  {
    if |tail| >= 4 {
      ZerosAreZero(tail[..4]);
    }
  }
}
