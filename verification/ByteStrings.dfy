/**
 Bytes and the fixed-width integers that kafko writes to disk.

 `BigEndian(n, k)` keeps the low `k` bytes of `n`, which is what an `as u32`
 cast followed by `put_u32` does; the round trip therefore asks for `n < Pow256(k)`.
 */
module ByteStrings {

  type Byte = x: int | 0 <= x < 256
  type Bytes = seq<Byte>

  const U32_MAX: nat := 0xFFFF_FFFF
  const TWO_32: nat := 0x1_0000_0000
  const TWO_63: nat := 0x8000_0000_0000_0000
  const TWO_64: nat := 0x1_0000_0000_0000_0000

  datatype Option<+T> = None | Some(value: T)

  function Pow256(k: nat): (p: nat)
    ensures p >= 1
  {
    if k == 0 then 1 else 256 * Pow256(k - 1)
  }

  // The j-th byte of n, counting from the least significant one.
  function Digit(n: nat, j: nat): (d: Byte)
    decreases j
  {
    if j == 0 then n % 256 else Digit(n / 256, j - 1)
  }

  function BigEndian(n: nat, k: nat): (s: Bytes)
    ensures |s| == k
  {
    seq(k, i requires 0 <= i < k => Digit(n, k - 1 - i))
  }

  function FromBigEndian(s: Bytes): (n: nat)
    decreases |s|
  {
    if s == [] then 0 else 256 * FromBigEndian(s[..|s| - 1]) + s[|s| - 1]
  }

  function LittleEndian(n: nat, k: nat): (s: Bytes)
    ensures |s| == k
  {
    seq(k, i requires 0 <= i < k => Digit(n, i))
  }

  function FromLittleEndian(s: Bytes): (n: nat)
    decreases |s|
  {
    if s == [] then 0 else s[0] + 256 * FromLittleEndian(s[1..])
  }

  lemma {:induction false} BigEndianRoundTrip(n: nat, k: nat)
    requires n < Pow256(k)
    ensures FromBigEndian(BigEndian(n, k)) == n
    decreases k
  {
    if k == 0 {
    } else {
      BigEndianRoundTrip(n / 256, k - 1);
      forall i | 0 <= i < k - 1
        ensures BigEndian(n, k)[i] == BigEndian(n / 256, k - 1)[i]
      {
        assert Digit(n, k - 1 - i) == Digit(n / 256, k - 2 - i);
      }
      assert BigEndian(n, k)[..k - 1] == BigEndian(n / 256, k - 1);
      assert BigEndian(n, k)[k - 1] == Digit(n, 0);
    }
  }

  lemma {:induction false} BigEndianBounded(s: Bytes)
    ensures FromBigEndian(s) < Pow256(|s|)
    decreases |s|
  {
    if s == [] {
    } else {
      BigEndianBounded(s[..|s| - 1]);
    }
  }

  lemma {:induction false} LittleEndianRoundTrip(n: nat, k: nat)
    requires n < Pow256(k)
    ensures FromLittleEndian(LittleEndian(n, k)) == n
    decreases k
  {
    if k == 0 {
    } else {
      LittleEndianRoundTrip(n / 256, k - 1);
      assert LittleEndian(n, k)[1..] == LittleEndian(n / 256, k - 1);
    }
  }

  lemma Pow256Values()
    ensures Pow256(4) == TWO_32
    ensures Pow256(8) == TWO_64
  {
    assert Pow256(2) == 65536;
    assert Pow256(4) == 256 * 256 * Pow256(2);
    assert Pow256(6) == 256 * 256 * Pow256(4);
    assert Pow256(8) == 256 * 256 * Pow256(6);
  }

  lemma {:induction false} ZerosAreZero(s: Bytes)
    requires forall i :: 0 <= i < |s| ==> s[i] == 0
    ensures FromBigEndian(s) == 0
    decreases |s|
  {
    if s == [] {
    } else {
      ZerosAreZero(s[..|s| - 1]);
    }
  }

  // The two widths kafko writes big-endian.

  function PutU32(n: nat): (s: Bytes)
    ensures |s| == 4
  {
    BigEndian(n, 4)
  }

  function PutU64(n: nat): (s: Bytes)
    ensures |s| == 8
  {
    BigEndian(n, 8)
  }

  lemma U32RoundTrip(n: nat)
    requires n < TWO_32
    ensures FromBigEndian(PutU32(n)) == n
  {
    Pow256Values();
    BigEndianRoundTrip(n, 4);
  }

  lemma U64RoundTrip(n: nat)
    requires n < TWO_64
    ensures FromBigEndian(PutU64(n)) == n
  {
    Pow256Values();
    BigEndianRoundTrip(n, 8);
  }

  lemma U64Bounded(s: Bytes)
    requires |s| == 8
    ensures FromBigEndian(s) < TWO_64
  {
    Pow256Values();
    BigEndianBounded(s);
  }

  /** Records are big-endian, offset files little-endian. */
  lemma ByteOrder()
    ensures PutU32(0x01020304) == [1, 2, 3, 4]
    ensures LittleEndian(0x01020304, 4) == [4, 3, 2, 1]
  {
    assert BigEndian(0x0102, 2) == [1, 2];
    assert BigEndian(0x010203, 3) == BigEndian(0x0102, 2) + [3];
    assert BigEndian(0x01020304, 4) == BigEndian(0x010203, 3) + [4];
    assert LittleEndian(0x0102, 2) == [2, 1];
    assert LittleEndian(0x01020304, 4) == [4, 3] + LittleEndian(0x0102, 2);
  }
}
