/** The 8-byte frame header that precedes every WAL record: a little-endian
    int64 whose low 56 bits hold the record length and whose sign bit says
    that bits 56-58 hold the padding length. */
module WalFrame {
  import opened Types

  /** Bytes taken by the header itself (`frameSizeBytes`). */
  const FrameSizeBytes: nat := 8

  /** 2^56: the record length lives below this bit. */
  const Pow56: nat := 0x100_0000_0000_0000

  /** `uint64(v)`: the two's-complement bits of an int64 read as unsigned. */
  function AsUint64(v: int64): (u: uint64)
    ensures v >= 0 ==> u == v
    ensures v < 0 ==> u >= 0x8000_0000_0000_0000
  {
    if v < 0 then v + 0x1_0000_0000_0000_0000 else v
  }

  /** `int64(u)`: the bits of a uint64 read as two's complement. */
  function AsInt64(u: uint64): (v: int64)
    ensures AsUint64(v) == u
  {
    if u < 0x8000_0000_0000_0000 then u else u - 0x1_0000_0000_0000_0000
  }

  function Pow256(n: nat): (p: nat)
    ensures p > 0
  {
    if n == 0 then 1 else 0x100 * Pow256(n - 1)
  }

  /** The unsigned value of a little-endian byte string. */
  function LittleEndian(b: seq<byte>): nat
  {
    if |b| == 0 then 0 else b[0] + 0x100 * LittleEndian(b[1..])
  }

  /** The n-byte little-endian encoding of u (high bits dropped). */
  function LittleEndianBytes(u: nat, n: nat): (b: seq<byte>)
    ensures |b| == n
  {
    if n == 0 then [] else [u % 0x100] + LittleEndianBytes(u / 0x100, n - 1)
  }

  lemma {:induction false} LittleEndianBound(b: seq<byte>)
    ensures LittleEndian(b) < Pow256(|b|)
  {
    if |b| > 0 {
      LittleEndianBound(b[1..]);
    }
  }

  /** Encoding a value that fits in n bytes and decoding it gives it back. */
  lemma {:induction false} LittleEndianRoundTrip(u: nat, n: nat)
    requires u < Pow256(n)
    ensures LittleEndian(LittleEndianBytes(u, n)) == u
  {
    if n > 0 {
      LittleEndianRoundTrip(u / 0x100, n - 1);
      var b := LittleEndianBytes(u, n);
      assert b[1..] == LittleEndianBytes(u / 0x100, n - 1);
    }
  }

  /** Decoding n bytes and encoding the value again gives the same bytes. */
  lemma {:induction false} LittleEndianBytesRoundTrip(b: seq<byte>)
    ensures LittleEndianBytes(LittleEndian(b), |b|) == b
  {
    if |b| > 0 {
      LittleEndianBytesRoundTrip(b[1..]);
      var u := LittleEndian(b);
      assert u % 0x100 == b[0] && u / 0x100 == LittleEndian(b[1..]);
    }
  }

  /** `binary.Read(r, binary.LittleEndian, &n)` with n an int64, once the
      eight bytes are in hand. */
  function DecodeInt64(b: seq<byte>): (v: int64)
    requires |b| == 8
  {
    LittleEndianBound(b);
    assert Pow256(8) == 0x1_0000_0000_0000_0000;
    AsInt64(LittleEndian(b))
  }

  /** The writer's side: the eight little-endian bytes of an int64. */
  function EncodeInt64(v: int64): (b: seq<byte>)
    ensures |b| == 8
  {
    LittleEndianBytes(AsUint64(v), 8)
  }

  lemma Int64RoundTrip(v: int64)
    ensures DecodeInt64(EncodeInt64(v)) == v
  {
    assert Pow256(8) == 0x1_0000_0000_0000_0000;
    LittleEndianRoundTrip(AsUint64(v), 8);
  }

  lemma Int64BytesRoundTrip(b: seq<byte>)
    requires |b| == 8
    ensures EncodeInt64(DecodeInt64(b)) == b
  {
    LittleEndianBound(b);
    assert Pow256(8) == 0x1_0000_0000_0000_0000;
    LittleEndianBytesRoundTrip(b);
  }

  /** `decodeFrameSize`: the record length is the low 56 bits of the header
      read as unsigned; the padding length is bits 56-58, and only when the
      sign bit is set. */
  function DecodeFrameSize(lenField: int64): (r: (int64, int64))
    ensures 0 <= r.0 < Pow56
    ensures 0 <= r.1 < 8
    ensures lenField >= 0 ==> r.1 == 0
    ensures 0 <= lenField < Pow56 ==> r.0 == lenField
  {
    var u := AsUint64(lenField);
    var recBytes := u % Pow56;
    var padBytes := if lenField < 0 then (u / Pow56) % 8 else 0;
    (recBytes, padBytes)
  }

  /** The writer's header for a frame: the bare length when no padding is
      needed, otherwise `recBytes | (0x80|pad) << 56`. Because recBytes < 2^56
      and pad < 8 the bitwise ors are additions. */
  function EncodeFrameHeader(recBytes: nat, padBytes: nat): (lenField: int64)
    requires recBytes < Pow56 && padBytes < 8
  {
    if padBytes == 0 then recBytes else AsInt64(recBytes + (0x80 + padBytes) * Pow56)
  }

  /** Frame size invertibility: every (length, padding) pair the format can
      carry comes back exactly; a padded header has the sign bit set, an
      unpadded one is the bare length, and only the empty unpadded frame
      collides with the zero sentinel. */
  lemma FrameSizeRoundTrip(recBytes: nat, padBytes: nat)
    requires recBytes < Pow56 && padBytes < 8
    ensures padBytes > 0 ==> EncodeFrameHeader(recBytes, padBytes) < 0
    ensures padBytes == 0 ==> EncodeFrameHeader(recBytes, padBytes) == recBytes
    ensures EncodeFrameHeader(recBytes, padBytes) == 0 <==> recBytes == 0 && padBytes == 0
    ensures DecodeFrameSize(EncodeFrameHeader(recBytes, padBytes)) == (recBytes, padBytes)
  {
    if padBytes > 0 {
      var u := recBytes + (0x80 + padBytes) * Pow56;
      assert 0x8000_0000_0000_0000 <= u < 0x1_0000_0000_0000_0000;
      assert u / Pow56 == 0x80 + padBytes;
      assert u % Pow56 == recBytes;
    }
  }
}
