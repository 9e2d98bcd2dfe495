/** The running checksum of the decoder: `crc.New(prev, crcTable)` with the
    Castagnoli table, written out bit by bit. Only its chaining behaviour
    matters to the decoder, and that is what the lemmas state. */
module WalCrc {
  import opened Types

  /** The reflected Castagnoli polynomial behind `crcTable`. */
  const Castagnoli: bv32 := 0x82F6_3B78

  /** One shift of the reflected CRC register: the polynomial is xored in
      when the bit shifted out is set. */
  function Shift(c: bv32): bv32
  {
    (c >> 1) ^ (Castagnoli & (0 - (c & 1)))
  }

  function ShiftN(c: bv32, n: nat): bv32
    decreases n
  {
    if n == 0 then c else ShiftN(Shift(c), n - 1)
  }

  const BitsPerByte: nat := 8

  /** Feeds one byte into the (pre-inverted) register. */
  function FeedByte(c: bv32, b: byte): bv32
  {
    ShiftN(c ^ (b as bv32), BitsPerByte)
  }

  /** Feeds a byte string into the (pre-inverted) register, first byte first. */
  function Feed(c: bv32, p: seq<byte>): bv32
    decreases |p|
  {
    if |p| == 0 then c else Feed(FeedByte(c, p[0]), p[1..])
  }

  /** `crc32.Update(crc, tab, p)`: the checksum after appending p to a
      stream whose checksum so far is crc. */
  function Update(crc: bv32, p: seq<byte>): bv32
  {
    !Feed(!crc, p)
  }

  lemma {:induction false} FeedConcat(c: bv32, a: seq<byte>, b: seq<byte>)
    ensures Feed(c, a + b) == Feed(Feed(c, a), b)
    decreases |a|
  {
    if |a| > 0 {
      assert (a + b)[0] == a[0] && (a + b)[1..] == a[1..] + b;
      FeedConcat(FeedByte(c, a[0]), a[1..], b);
    } else {
      assert a + b == b;
    }
  }

  /** Checksum chaining: writing a and then b to a checksum gives the same
      value as writing a + b at once, so a checksum reseeded with the value
      reached at the end of one segment continues the same chain. */
  lemma UpdateConcat(crc: bv32, a: seq<byte>, b: seq<byte>)
    ensures Update(Update(crc, a), b) == Update(crc, a + b)
  {
    UpdateThenUpdate(crc, a, b);
    UpdateOfConcat(crc, a, b);
  }

  lemma UpdateThenUpdate(crc: bv32, a: seq<byte>, b: seq<byte>)
    ensures Update(Update(crc, a), b) == !Feed(Feed(!crc, a), b)
  {
    var x := Feed(!crc, a);
    assert !Update(crc, a) == x by {
      NotNot(x);
    }
  }

  lemma UpdateOfConcat(crc: bv32, a: seq<byte>, b: seq<byte>)
    ensures Update(crc, a + b) == !Feed(Feed(!crc, a), b)
  {
    FeedConcat(!crc, a, b);
  }

  /** One more write continues the chain: a checksum that covers fed
      after seed, fed with p, covers fed + p after seed. */
  lemma ChainStep(seed: bv32, fed: seq<byte>, crc: bv32, p: seq<byte>)
    requires crc == Update(seed, fed)
    ensures Update(crc, p) == Update(seed, fed + p)
  {
    UpdateConcat(seed, fed, p);
  }

  /** Complementing twice is the identity. */
  lemma NotNot(x: bv32)
    ensures !(!x) == x
  {
  }

  /** A freshly seeded checksum reports its seed until data is written. */
  lemma UpdateNothing(crc: bv32)
    ensures Update(crc, []) == crc
  {
  }
}
