/**
 What a byte string means as a segment: the records a front-to-back decode finds,
 and the error it stops on, if any. Everything here holds for arbitrary bytes and an
 arbitrary checksum unless a lemma says otherwise.
 */
module Framing {
  import opened ByteStrings
  import opened Compressions
  import opened Records

  datatype Framed = Framed(record: Record, size: nat)

  datatype Parsed = Parsed(items: seq<Framed>, fault: Option<Error>)

  function Parse(b: Build, buf: Bytes): (p: Parsed)
    decreases |buf|
  {
    if buf == [] then Parsed([], None) else
    match Decode(b, buf)
    case Err(error) => Parsed([], Some(error))
    case Ok(d) =>
      var rest := Parse(b, buf[d.consumed..]);
      Parsed([Framed(d.record, d.consumed)] + rest.items, rest.fault)
  }

  function Items(b: Build, buf: Bytes): (items: seq<Framed>) {
    Parse(b, buf).items
  }

  predicate Clean(b: Build, buf: Bytes) {
    Parse(b, buf).fault.None?
  }

  // Bytes taken by a run of frames; `Start(items, k)` is where the k-th one begins.
  function Total(items: seq<Framed>): (n: nat) {
    if items == [] then 0 else Total(items[..|items| - 1]) + items[|items| - 1].size
  }

  function Start(items: seq<Framed>, k: nat): (n: nat)
    requires k <= |items|
  {
    Total(items[..k])
  }

  function RecordsOf(items: seq<Framed>): (rs: seq<Record>)
    ensures |rs| == |items|
  {
    seq(|items|, i requires 0 <= i < |items| => items[i].record)
  }

  // ---------------------------------------------------------------- sums

  lemma {:induction false} TotalConcat(x: seq<Framed>, y: seq<Framed>)
    ensures Total(x + y) == Total(x) + Total(y)
    decreases |y|
  {
    if y == [] {
      assert x + y == x;
    } else {
      TotalConcat(x, y[..|y| - 1]);
      assert (x + y)[..|x + y| - 1] == x + y[..|y| - 1];
    }
  }

  lemma TotalOne(item: Framed)
    ensures Total([item]) == item.size
  {
    assert [item][..0] == [];
  }

  lemma StartStep(items: seq<Framed>, k: nat)
    requires k < |items|
    ensures Start(items, k + 1) == Start(items, k) + items[k].size
  {
    assert items[..k + 1][..k] == items[..k];
  }

  lemma StartShift(items: seq<Framed>, k: nat, j: nat)
    requires k <= j <= |items|
    ensures Start(items, j) == Start(items, k) + Start(items[k..], j - k)
  {
    assert items[..j] == items[..k] + items[k..][..j - k];
    TotalConcat(items[..k], items[k..][..j - k]);
  }

  // ---------------------------------------------------------------- parsing

  /**
   A parse accounts for every byte: it stops exactly at `Total`, either at the end or
   in front of a frame that fails to decode. Every frame takes at least 25 bytes.
   */
  lemma {:induction false} ParseAccounts(b: Build, buf: Bytes)
    ensures var p := Parse(b, buf);
            && Total(p.items) <= |buf|
            && (p.fault.None? <==> Total(p.items) == |buf|)
            && (p.fault.Some? ==> Decode(b, buf[Total(p.items)..]) == Err(p.fault.value))
            && MIN_FRAME * |p.items| <= Total(p.items)
    ensures forall i :: 0 <= i < |Items(b, buf)| ==> Items(b, buf)[i].size >= MIN_FRAME
    decreases |buf|
  {
    hide Decode;
    if buf != [] {
      match Decode(b, buf)
      case Err(error) =>
        assert buf[0..] == buf;
      case Ok(d) =>
        var rest := Parse(b, buf[d.consumed..]);
        ParseAccounts(b, buf[d.consumed..]);
        TotalConcat([Framed(d.record, d.consumed)], rest.items);
        TotalOne(Framed(d.record, d.consumed));
        var t := Total(rest.items);
        forall i | 0 <= i < |Items(b, buf)|
          ensures Items(b, buf)[i].size >= MIN_FRAME
        {
          if i > 0 {
            assert Items(b, buf)[i] == Items(b, buf[d.consumed..])[i - 1];
          }
        }
        assert buf[d.consumed..][t..] == buf[d.consumed + t..];
    }
  }

  /** Frames are found independently of what is appended later. */
  // Parsing unrolled once.
  lemma ParseStep(b: Build, buf: Bytes)
    ensures buf == [] ==> Parse(b, buf) == Parsed([], None)
    ensures buf != [] && Decode(b, buf).Err? ==> Parse(b, buf) == Parsed([], Some(Decode(b, buf).error))
    ensures buf != [] && Decode(b, buf).Ok? ==>
              var d := Decode(b, buf).value;
              var rest := Parse(b, buf[d.consumed..]);
              Parse(b, buf) == Parsed([Framed(d.record, d.consumed)] + rest.items, rest.fault)
  {
    hide Decode;
  }

  lemma {:induction false} ParseConcat(b: Build, x: Bytes, y: Bytes)
    requires Clean(b, x)
    ensures Parse(b, x + y) == Parsed(Items(b, x) + Items(b, y), Parse(b, y).fault)
    decreases |x|
  {
    hide Decode, Parse;
    ParseStep(b, x);
    ParseStep(b, x + y);
    if x == [] {
      assert x + y == y;
      assert [] + Items(b, y) == Items(b, y);
    } else {
      var d := Decode(b, x).value;
      DecodeStable(b, x, y);
      ParseConcat(b, x[d.consumed..], y);
      assert (x + y)[d.consumed..] == x[d.consumed..] + y;
    }
  }

  /** Decoding from the start of the k-th frame yields exactly the frames from k on. */
  lemma {:induction false} ParseFrom(b: Build, buf: Bytes, k: nat)
    requires k <= |Items(b, buf)|
    ensures Start(Items(b, buf), k) <= |buf|
    ensures Parse(b, buf[Start(Items(b, buf), k)..]) == Parsed(Items(b, buf)[k..], Parse(b, buf).fault)
    decreases |buf|
  {
    hide Decode;
    var items := Items(b, buf);
    if k == 0 {
      assert buf[0..] == buf;
    } else {
      var d := Decode(b, buf).value;
      var rest := Items(b, buf[d.consumed..]);
      assert items[1..] == rest;
      ParseFrom(b, buf[d.consumed..], k - 1);
      StartShift(items, 1, k);
      assert items[..1] == [items[0]];
      TotalOne(items[0]);
      var s := Start(rest, k - 1);
      assert buf[d.consumed..][s..] == buf[d.consumed + s..];
    }
  }

  lemma ItemDecodes(b: Build, buf: Bytes, k: nat)
    requires k < |Items(b, buf)|
    ensures Start(Items(b, buf), k) < |buf|
    ensures Decode(b, buf[Start(Items(b, buf), k)..])
         == Ok(Decoded(Items(b, buf)[k].record, Items(b, buf)[k].size))
  {
    hide Decode;
    ParseFrom(b, buf, k);
    var from := buf[Start(Items(b, buf), k)..];
    assert Items(b, from)[0] == Items(b, buf)[k];
  }

  // ---------------------------------------------------------------- frames that stand alone

  // Every frame declares no more than it consumes. The encoder only writes such frames.
  ghost predicate Solid(b: Build, buf: Bytes)
    decreases |buf|
  {
    buf == [] ||
    (&& Decode(b, buf).Ok?
     && 4 + FromBigEndian(buf[..4]) <= Decode(b, buf).value.consumed
     && Solid(b, buf[Decode(b, buf).value.consumed..]))
  }

  lemma {:induction false} SolidIsClean(b: Build, buf: Bytes)
    requires Solid(b, buf)
    ensures Clean(b, buf)
    decreases |buf|
  {
    hide Decode;
    if buf != [] {
      SolidIsClean(b, buf[Decode(b, buf).value.consumed..]);
    }
  }

  lemma {:induction false} SolidConcat(b: Build, x: Bytes, y: Bytes)
    requires Solid(b, x) && Solid(b, y)
    ensures Solid(b, x + y)
    decreases |x|
  {
    hide Decode;
    if x == [] {
      assert x + y == y;
    } else {
      var d := Decode(b, x).value;
      DecodeStable(b, x, y);
      SolidConcat(b, x[d.consumed..], y);
      assert (x + y)[d.consumed..] == x[d.consumed..] + y;
      assert (x + y)[..4] == x[..4];
    }
  }

  lemma {:induction false} SolidPrefix(b: Build, buf: Bytes, k: nat)
    requires Solid(b, buf) && k <= |Items(b, buf)|
    ensures Start(Items(b, buf), k) <= |buf|
    ensures Solid(b, buf[..Start(Items(b, buf), k)])
    ensures Items(b, buf[..Start(Items(b, buf), k)]) == Items(b, buf)[..k]
    decreases |buf|
  {
    hide Decode;
    ParseFrom(b, buf, k);
    var items := Items(b, buf);
    if k > 0 {
      var d := Decode(b, buf).value;
      var rest := buf[d.consumed..];
      assert items[1..] == Items(b, rest);
      SolidPrefix(b, rest, k - 1);
      StartShift(items, 1, k);
      assert items[..1] == [items[0]];
      TotalOne(items[0]);
      var n := Start(items, k);
      var head := buf[..n];
      DecodeConsumedOnly(b, buf, n);
      assert head[..4] == buf[..4];
      assert head[d.consumed..] == rest[..n - d.consumed];
      assert items[..k] == [items[0]] + Items(b, rest)[..k - 1];
    }
  }

  // ---------------------------------------------------------------- torn tails

  // What a crash may leave behind the last whole record.
  predicate TornTail(b: Build, tail: Bytes) {
    tail == [] || (Decode(b, tail).Err? && Truncating(Decode(b, tail).error))
  }

  /** Whole records followed by a torn tail parse to exactly those records. */
  lemma TornTailIsDropped(b: Build, buf: Bytes, k: nat, tail: Bytes)
    requires Solid(b, buf) && k <= |Items(b, buf)| && TornTail(b, tail)
    ensures Start(Items(b, buf), k) <= |buf|
    ensures var survivor := buf[..Start(Items(b, buf), k)] + tail;
            && Items(b, survivor) == Items(b, buf)[..k]
            && (Clean(b, survivor) || Truncating(Parse(b, survivor).fault.value))
  {
    hide Decode;
    SolidPrefix(b, buf, k);
    var head := buf[..Start(Items(b, buf), k)];
    SolidIsClean(b, head);
    ParseConcat(b, head, tail);
    assert Items(b, head) + [] == Items(b, head);
  }

  /** Every cut of a solid segment, at any byte, is whole records followed by a torn tail. */
  lemma {:induction false} CutIsTorn(b: Build, buf: Bytes, m: nat) returns (k: nat)
    requires Solid(b, buf) && m <= |buf|
    ensures k <= |Items(b, buf)| && Start(Items(b, buf), k) <= m
    ensures k < |Items(b, buf)| ==> m < Start(Items(b, buf), k + 1)
    ensures buf[..m] == buf[..Start(Items(b, buf), k)] + buf[Start(Items(b, buf), k)..m]
    ensures TornTail(b, buf[Start(Items(b, buf), k)..m])
  {
    hide Decode, Parse, Solid;
    var items := Items(b, buf);
    SolidIsClean(b, buf);
    ParseAccounts(b, buf);
    k := |items|;
    assert items[..k] == items;
    while m < Start(items, k)
      invariant k <= |items|
      invariant k < |items| ==> m < Start(items, k + 1)
      decreases k
    {
      k := k - 1;
    }
    if k < |items| {
      ItemDecodes(b, buf, k);
      StartStep(items, k);
      var s := Start(items, k);
      ProperPrefixIsTorn(b, buf[s..], m - s);
      assert buf[s..][..m - s] == buf[s..m];
    }
  }

  // ---------------------------------------------------------------- encoder output

  function EncodeAll(b: Build, c: Compression, rs: seq<Record>): (data: Bytes)
    requires Available(b, c)
  {
    if rs == [] then [] else EncodeAll(b, c, rs[..|rs| - 1]) + Encode(b, c, rs[|rs| - 1]).value
  }

  function FramesOf(b: Build, c: Compression, rs: seq<Record>): (items: seq<Framed>)
    requires Available(b, c)
    ensures |items| == |rs|
  {
    seq(|rs|, i requires 0 <= i < |rs| => Framed(rs[i], |Encode(b, c, rs[i]).value|))
  }

  lemma EncodedFrameIsSolid(b: Build, c: Compression, r: Record)
    requires Lawful(b) && Available(b, c) && Appendable(b, c, r)
    ensures Solid(b, Encode(b, c, r).value)
    ensures Parse(b, Encode(b, c, r).value) == Parsed([Framed(r, |Encode(b, c, r).value|)], None)
  {
    hide Decode;
    var f := Encode(b, c, r).value;
    var payload := Payload(Flag(c), r, Compress(b, c, r.value).value);
    RoundTrip(b, c, r, []);
    FrameHeader(b, payload, []);
    assert f + [] == f;
    assert f[|f|..] == [];
  }

  /** Decoding a run of encoded records yields exactly those records, frame by frame. */
  lemma {:induction false} EncodedRunIsSolid(b: Build, c: Compression, rs: seq<Record>)
    requires Lawful(b) && Available(b, c)
    requires forall i :: 0 <= i < |rs| ==> Appendable(b, c, rs[i])
    ensures Solid(b, EncodeAll(b, c, rs))
    ensures Parse(b, EncodeAll(b, c, rs)) == Parsed(FramesOf(b, c, rs), None)
    ensures Total(FramesOf(b, c, rs)) == |EncodeAll(b, c, rs)|
  {
    hide Encode, EncodeAll, FramesOf, Parse, Solid, Total;
    if rs == [] {
      EncodedNothing(b, c);
    } else {
      var most, last := rs[..|rs| - 1], rs[|rs| - 1];
      EncodedRunIsSolid(b, c, most);
      EncodedFrameIsSolid(b, c, last);
      EncodedRunStep(b, c, most, last);
      assert most + [last] == rs;
    }
  }

  lemma EncodedNothing(b: Build, c: Compression)
    requires Available(b, c)
    ensures Solid(b, EncodeAll(b, c, [])) && Parse(b, EncodeAll(b, c, [])) == Parsed(FramesOf(b, c, []), None)
    ensures Total(FramesOf(b, c, [])) == |EncodeAll(b, c, [])|
  {
  }

  lemma EncodedRunStep(b: Build, c: Compression, most: seq<Record>, r: Record)
    requires Available(b, c)
    requires Solid(b, EncodeAll(b, c, most)) && Solid(b, Encode(b, c, r).value)
    requires Parse(b, EncodeAll(b, c, most)) == Parsed(FramesOf(b, c, most), None)
    requires Total(FramesOf(b, c, most)) == |EncodeAll(b, c, most)|
    requires Parse(b, Encode(b, c, r).value) == Parsed([Framed(r, |Encode(b, c, r).value|)], None)
    ensures Solid(b, EncodeAll(b, c, most + [r]))
    ensures Parse(b, EncodeAll(b, c, most + [r])) == Parsed(FramesOf(b, c, most + [r]), None)
    ensures Total(FramesOf(b, c, most + [r])) == |EncodeAll(b, c, most + [r])|
  {
    hide Decode, Encode, Parse, Solid;
    EncodeAllSnoc(b, c, most, r);
    SolidConcat(b, EncodeAll(b, c, most), Encode(b, c, r).value);
    ParseConcat(b, EncodeAll(b, c, most), Encode(b, c, r).value);
    var last := [Framed(r, |Encode(b, c, r).value|)];
    assert FramesOf(b, c, most + [r]) == FramesOf(b, c, most) + last;
    TotalConcat(FramesOf(b, c, most), last);
    TotalOne(last[0]);
  }

  lemma EncodeAllSnoc(b: Build, c: Compression, most: seq<Record>, r: Record)
    requires Available(b, c)
    ensures EncodeAll(b, c, most + [r]) == EncodeAll(b, c, most) + Encode(b, c, r).value
  {
    hide Encode;
    assert (most + [r])[..|most|] == most;
  }

  /** Under any mix of codecs, a concatenation of encoded records decodes to the records and leaves the rest. */
  lemma {:induction false} MixedCodecRoundTrip(b: Build, cs: seq<Compression>, rs: seq<Record>, rest: Bytes)
    requires Lawful(b) && |cs| == |rs|
    requires forall i :: 0 <= i < |rs| ==> Available(b, cs[i]) && Appendable(b, cs[i], rs[i])
    ensures RecordsOf(Items(b, EncodeMixed(b, cs, rs) + rest)) == rs + RecordsOf(Items(b, rest))
    ensures Parse(b, EncodeMixed(b, cs, rs) + rest).fault == Parse(b, rest).fault
    decreases |rs|
  {
    hide Decode, Encode, EncodeMixed, Parse, Solid, Appendable, RecordsOf;
    if rs == [] {
      EncodedMixOfNothing(b, cs, rest);
    } else {
      var f := Encode(b, cs[0], rs[0]).value;
      var more := EncodeMixed(b, cs[1..], rs[1..]) + rest;
      MixedCodecRoundTrip(b, cs[1..], rs[1..], rest);
      EncodedFrameIsSolid(b, cs[0], rs[0]);
      EncodedMixStep(b, cs, rs, rest);
      FrameThenMore(b, rs[0], f, more);
      assert rs == [rs[0]] + rs[1..];
    }
  }

  lemma EncodedMixOfNothing(b: Build, cs: seq<Compression>, rest: Bytes)
    requires |cs| == 0
    ensures EncodeMixed(b, cs, []) + rest == rest
  {
  }

  lemma EncodedMixStep(b: Build, cs: seq<Compression>, rs: seq<Record>, rest: Bytes)
    requires 0 < |rs| == |cs|
    requires forall i :: 0 <= i < |rs| ==> Available(b, cs[i])
    ensures EncodeMixed(b, cs, rs) + rest
            == Encode(b, cs[0], rs[0]).value + (EncodeMixed(b, cs[1..], rs[1..]) + rest)
  {
    hide Encode;
  }

  lemma FrameThenMore(b: Build, r: Record, f: Bytes, more: Bytes)
    requires Parse(b, f) == Parsed([Framed(r, |f|)], None)
    ensures RecordsOf(Items(b, f + more)) == [r] + RecordsOf(Items(b, more))
    ensures Parse(b, f + more).fault == Parse(b, more).fault
  {
    hide Decode, Parse;
    ParseConcat(b, f, more);
  }

  function EncodeMixed(b: Build, cs: seq<Compression>, rs: seq<Record>): (data: Bytes)
    requires |cs| == |rs|
    requires forall i :: 0 <= i < |rs| ==> Available(b, cs[i])
    decreases |rs|
  {
    if rs == [] then [] else Encode(b, cs[0], rs[0]).value + EncodeMixed(b, cs[1..], rs[1..])
  }

  /** One acknowledged record beyond the cap makes everything behind it unreachable to a scan from in front of it. */
  lemma OversizedRecordHidesTheRest(b: Build, c: Compression, before: Bytes, r: Record, rest: Bytes)
    requires Lawful(b) && Available(b, c) && |r.value| < TWO_32 && FrameFits(Encode(b, c, r).value)
    requires Clean(b, before) && !WithinCap(c, r.value)
    ensures Parse(b, before + (Encode(b, c, r).value + rest)) == Parsed(Items(b, before), Some(DecompressionFailed))
  {
    hide Decode, Encode;
    RoundTrip(b, c, r, rest);
    ParseConcat(b, before, Encode(b, c, r).value + rest);
    assert Items(b, before) + [] == Items(b, before);
  }

  /** Every frame a scan finds, in whatever bytes, carries the checksum of its payload. */
  lemma FoundFramesAreChecksummed(b: Build, buf: Bytes, k: nat)
    requires k < |Items(b, buf)|
    ensures Start(Items(b, buf), k) < |buf| && Checksummed(b, buf[Start(Items(b, buf), k)..])
  {
    hide Decode, Parse, Checksummed;
    ItemDecodes(b, buf, k);
    DecodedIsChecksummed(b, buf[Start(Items(b, buf), k)..]);
  }

  // A scan stops at the first frame that does not decode, with its error.
  lemma ScanStopsAt(b: Build, before: Bytes, tail: Bytes)
    requires Clean(b, before) && tail != [] && Decode(b, tail).Err?
    ensures Parse(b, before + tail) == Parsed(Items(b, before), Some(Decode(b, tail).error))
  {
    hide Decode, Parse;
    ParseConcat(b, before, tail);
    ParseStep(b, tail);
    assert Items(b, before) + [] == Items(b, before);
  }

  /** A scan stops in front of a frame that was tampered with. */
  lemma ScanStopsAtTampering(b: Build, before: Bytes, payload: Bytes, other: Bytes, rest: Bytes)
    requires Lawful(b) && Clean(b, before)
    requires 17 <= |payload| == |other| && 4 + |payload| < TWO_32 && b.crc32(other) != b.crc32(payload)
    ensures Parse(b, before + (Tampered(b, payload, other) + rest))
         == Parsed(Items(b, before), Some(CrcMismatch(b.crc32(payload), b.crc32(other))))
  {
    hide Decode, Parse;
    TamperingIsCaught(b, payload, other, rest);
    ScanStopsAt(b, before, Tampered(b, payload, other) + rest);
  }
}
