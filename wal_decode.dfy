/** What one `decodeRecord` call does to the decoder's state, as a function
    of the state before it: the reader list, the offset following the last
    valid record, and the running checksum. The decoder class is proved
    against these functions; the lemmas state the decoder's rules.

    Each rule is stated once, on `DecodeRecord`, by a `Decode*` lemma. The
    `CheckRecord*`, `ReadFrame*` and `Frame*` lemmas are its stages: the same
    rule for the innermost function, then for each function that calls it,
    kept apart so that every proof stays small. */
module WalDecode {
  import opened Types
  import opened WalFrame
  import opened WalTorn

  /** `crcType`: the control record that carries a checksum seed. */
  const CrcType: int64 := 4

  /** The running checksum's update: the value after writing some bytes to
      a checksum that holds the given value (the decoder uses CRC-32C,
      WalCrc.Update). */
  type Checksum = (bv32, seq<byte>) -> bv32

  /** A WAL record, `walpb.Record`. */
  datatype Record = Record(recType: int64, crc: bv32, data: seq<byte>)

  /** A segment file as the decoder reads it: its bytes (so its size is
      `|data|`) and the read cursor. */
  datatype Segment = Segment(data: seq<byte>, pos: nat) {
    predicate Valid()
    {
      pos <= |data|
    }

    function Size(): nat
    {
      |data|
    }
  }

  predicate AllValid(brs: seq<Segment>)
  {
    forall i :: 0 <= i < |brs| ==> brs[i].Valid()
  }

  /** The errors `decodeRecord` returns. */
  datatype DecodeError =
    | EOF                 // io.EOF: every segment is exhausted
    | UnexpectedEOF       // io.ErrUnexpectedEOF: a short read or a torn write
    | EntrySizeLimitExceeded(recBytes: int, fileSize: int, offset: int, padBytes: int, limit: int)
    | UnmarshalFailed     // the error of rec.Unmarshal
    | CRCMismatch         // the error of rec.Validate

  datatype Outcome = Decoded(rec: Record) | Failed(err: DecodeError)

  /** What `readInt64` reports. */
  datatype HeaderRead = HeaderEOF | HeaderShort | Header(lenField: int64)

  /** `readInt64` on a segment: `binary.Read` fills eight bytes with
      `io.ReadFull`, which reports EOF when no byte is left and
      ErrUnexpectedEOF (after consuming them) when 1 to 7 are. */
  function ReadInt64(s: Segment): (r: (HeaderRead, Segment))
    requires s.Valid()
    ensures r.1.Valid() && r.1.data == s.data
  {
    var left := |s.data| - s.pos;
    if left == 0 then (HeaderEOF, s)
    else if left < 8 then (HeaderShort, s.(pos := |s.data|))
    else (Header(DecodeInt64(s.data[s.pos..s.pos + 8])), s.(pos := s.pos + 8))
  }

  /** The segment has no further record: end of file or a zero header
      (preallocated, unwritten space). */
  predicate Exhausted(s: Segment)
    requires s.Valid()
  {
    var h := ReadInt64(s).0;
    h.HeaderEOF? || (h.Header? && h.lenField == 0)
  }

  /** The (recBytes, padBytes) that the header at the cursor declares. */
  function FrameAt(s: Segment): (int64, int64)
    requires s.Valid() && ReadInt64(s).0.Header?
  {
    DecodeFrameSize(ReadInt64(s).0.lenField)
  }

  /** Bytes a frame occupies in the file: header, record and padding. */
  function FrameBytes(s: Segment): nat
    requires s.Valid() && ReadInt64(s).0.Header?
  {
    FrameSizeBytes + FrameAt(s).0 + FrameAt(s).1
  }

  /** The state after one decode call, and the bytes it wrote to the
      checksum. */
  datatype Step = Step(out: Outcome, brs: seq<Segment>, off: nat, crc: bv32, fed: seq<byte>)

  /** One frame from the front segment, which is not exhausted: its header. */
  function DecodeFrame(brs: seq<Segment>, off: nat, crc: bv32, unmarshal: seq<byte> -> Option<Record>, update: Checksum): (r: Step)
    requires |brs| > 0 && AllValid(brs) && !Exhausted(brs[0])
    ensures |r.brs| == |brs| && AllValid(r.brs)
  {
    var (h, seg) := ReadInt64(brs[0]);
    if h.HeaderShort? then Step(Failed(UnexpectedEOF), brs[0 := seg], off, crc, [])
    else ReadFrame(brs[0 := seg], off, crc, unmarshal, update, DecodeFrameSize(h.lenField))
  }

  /** The frame once its header has been read from the front segment: the
      size check and the payload read. */
  function ReadFrame(brs: seq<Segment>, off: nat, crc: bv32, unmarshal: seq<byte> -> Option<Record>, update: Checksum,
                     size: (int64, int64)): (r: Step)
    requires |brs| > 0 && AllValid(brs) && size.0 >= 0 && size.1 >= 0
    ensures |r.brs| == |brs| && AllValid(r.brs)
  {
    var (recBytes, padBytes) := size;
    var seg := brs[0];
    // the entry must fit in what is left of the file
    var limit := seg.Size() - off - padBytes;
    if recBytes > limit then
      Step(Failed(EntrySizeLimitExceeded(recBytes, seg.Size(), off, padBytes, limit)), brs, off, crc, [])
    else if |seg.data| - seg.pos < recBytes + padBytes then
      // io.ReadFull consumes what is there and fails
      Step(Failed(UnexpectedEOF), brs[0 := seg.(pos := |seg.data|)], off, crc, [])
    else
      var data := seg.data[seg.pos..seg.pos + recBytes + padBytes];
      CheckRecord(brs[0 := seg.(pos := seg.pos + recBytes + padBytes)], off, crc, unmarshal, update, data, recBytes)
  }

  /** The frame once its bytes are read: unmarshal, update, then the checksum for
      every record but a checksum record; a failure is a torn write or an
      error by the torn-write verdict. */
  function CheckRecord(brs: seq<Segment>, off: nat, crc: bv32, unmarshal: seq<byte> -> Option<Record>, update: Checksum,
                       data: seq<byte>, recBytes: nat): (r: Step)
    requires recBytes <= |data|
  {
    var torn := IsTorn(|brs|, off, data);
    match unmarshal(data[..recBytes])
    case None => Step(Failed(if torn then UnexpectedEOF else UnmarshalFailed), brs, off, crc, [])
    case Some(rec) =>
      if rec.recType == CrcType then
        Step(Decoded(rec), brs, off + FrameSizeBytes + |data|, crc, [])
      else
        var crc' := update(crc, rec.data);
        if rec.crc != crc' then
          Step(Failed(if torn then UnexpectedEOF else CRCMismatch), brs, off, crc', rec.data)
        else
          Step(Decoded(rec), brs, off + FrameSizeBytes + |data|, crc', rec.data)
  }

  /** `decodeRecord`: exhausted segments are dropped from the front (the
      offset restarting at 0 whenever another segment follows) until one
      yields a frame or none is left. */
  function DecodeRecord(brs: seq<Segment>, off: nat, crc: bv32, unmarshal: seq<byte> -> Option<Record>, update: Checksum): (r: Step)
    requires AllValid(brs)
    ensures |r.brs| <= |brs| && AllValid(r.brs)
    decreases |brs|
  {
    if |brs| == 0 then Step(Failed(EOF), brs, off, crc, [])
    else if Exhausted(brs[0]) then
      if |brs| == 1 then Step(Failed(EOF), [], off, crc, [])
      else DecodeRecord(brs[1..], 0, crc, unmarshal, update)
    else DecodeFrame(brs, off, crc, unmarshal, update)
  }

  /** The index of the first segment that is not exhausted, or |brs|. */
  function FirstLive(brs: seq<Segment>): (k: nat)
    requires AllValid(brs)
    ensures k <= |brs|
    ensures forall i :: 0 <= i < k ==> Exhausted(brs[i])
    ensures k < |brs| ==> !Exhausted(brs[k])
  {
    if |brs| == 0 || !Exhausted(brs[0]) then 0
    else
      var k := FirstLive(brs[1..]);
      assert forall i :: 1 <= i < k + 1 ==> brs[i] == brs[1..][i - 1];
      k + 1
  }

  /** The offset in force once the exhausted front segments are dropped:
      unchanged when none is dropped or when the last one ran out, 0 after
      moving on to a later segment. */
  function BaseOffset(brs: seq<Segment>, off: nat): nat
    requires AllValid(brs)
  {
    if FirstLive(brs) == 0 || |brs| <= 1 then off else 0
  }

  /** Exhaustion: decoding skips the exhausted front segments and decodes a
      frame from the first live one; with none live it reports EOF and
      leaves no segment. */
  lemma {:induction false} DecodeSkipsExhausted(brs: seq<Segment>, off: nat, crc: bv32, unmarshal: seq<byte> -> Option<Record>, update: Checksum)
    requires AllValid(brs)
    ensures var k := FirstLive(brs);
      DecodeRecord(brs, off, crc, unmarshal, update) ==
        if k == |brs| then Step(Failed(EOF), [], BaseOffset(brs, off), crc, [])
        else DecodeFrame(brs[k..], BaseOffset(brs, off), crc, unmarshal, update)
    decreases |brs|
  {
    if |brs| > 0 && Exhausted(brs[0]) && |brs| > 1 {
      DecodeSkipsExhausted(brs[1..], 0, crc, unmarshal, update);
      assert brs[1..][FirstLive(brs[1..])..] == brs[FirstLive(brs)..];
      if FirstLive(brs[1..]) == 0 {
        assert BaseOffset(brs[1..], 0) == 0;
      }
    }
  }

  /** A frame never yields plain EOF; a frame cut short (a partial header,
      or a record and padding that run past the end of the data) whose
      declared size passes the size check yields UnexpectedEOF. */
  lemma FrameNeverEOF(brs: seq<Segment>, off: nat, crc: bv32, unmarshal: seq<byte> -> Option<Record>, update: Checksum)
    requires |brs| > 0 && AllValid(brs) && !Exhausted(brs[0])
    ensures DecodeFrame(brs, off, crc, unmarshal, update).out != Failed(EOF)
    ensures ShortFrame(brs[0])
      && (ReadInt64(brs[0]).0.Header? ==> FrameAt(brs[0]).0 <= brs[0].Size() - off - FrameAt(brs[0]).1)
      ==> DecodeFrame(brs, off, crc, unmarshal, update).out == Failed(UnexpectedEOF)
  {
    var (h, seg) := ReadInt64(brs[0]);
    if h.Header? {
      var size := DecodeFrameSize(h.lenField);
      assert FrameAt(brs[0]) == size;
      assert seg.data == brs[0].data && seg.Size() == brs[0].Size();
      assert DecodeFrame(brs, off, crc, unmarshal, update) == ReadFrame(brs[0 := seg], off, crc, unmarshal, update, size);
    }
  }

  /** Short reads: when the first live segment's frame is cut short and its
      declared size passes the size check, decoding reports UnexpectedEOF. */
  lemma DecodeShortFrame(brs: seq<Segment>, off: nat, crc: bv32, unmarshal: seq<byte> -> Option<Record>, update: Checksum)
    requires AllValid(brs)
    ensures var k := FirstLive(brs);
      k < |brs| && ShortFrame(brs[k])
      && (ReadInt64(brs[k]).0.Header? ==> FrameAt(brs[k]).0 <= brs[k].Size() - BaseOffset(brs, off) - FrameAt(brs[k]).1)
      ==> DecodeRecord(brs, off, crc, unmarshal, update).out == Failed(UnexpectedEOF)
  {
    DecodeSkipsExhausted(brs, off, crc, unmarshal, update);
    var k := FirstLive(brs);
    if k < |brs| {
      var live := brs[k..];
      assert live[0] == brs[k];
      FrameNeverEOF(live, BaseOffset(brs, off), crc, unmarshal, update);
    }
  }

  /** EOF exactly when every segment is exhausted, and then no segment is
      left; a short read inside a segment is never EOF. */
  lemma DecodeEOFIffExhausted(brs: seq<Segment>, off: nat, crc: bv32, unmarshal: seq<byte> -> Option<Record>, update: Checksum)
    requires AllValid(brs)
    ensures var r := DecodeRecord(brs, off, crc, unmarshal, update);
      (r.out == Failed(EOF) <==> forall i :: 0 <= i < |brs| ==> Exhausted(brs[i]))
      && (r.out == Failed(EOF) ==> r.brs == [] && r.crc == crc && r.fed == [])
  {
    DecodeSkipsExhausted(brs, off, crc, unmarshal, update);
    var k := FirstLive(brs);
    if k < |brs| {
      FrameNeverEOF(brs[k..], BaseOffset(brs, off), crc, unmarshal, update);
    }
  }

  lemma CheckRecordOffset(brs: seq<Segment>, off: nat, crc: bv32, unmarshal: seq<byte> -> Option<Record>, update: Checksum,
                          data: seq<byte>, recBytes: nat)
    requires recBytes <= |data|
    ensures var r := CheckRecord(brs, off, crc, unmarshal, update, data, recBytes);
      && r.brs == brs
      && r.off == if r.out.Decoded? then off + FrameSizeBytes + |data| else off
  {
  }

  lemma ReadFrameOffset(brs: seq<Segment>, off: nat, crc: bv32, unmarshal: seq<byte> -> Option<Record>, update: Checksum,
                        size: (int64, int64))
    requires |brs| > 0 && AllValid(brs) && size.0 >= 0 && size.1 >= 0
    ensures var r := ReadFrame(brs, off, crc, unmarshal, update, size);
      && (r.out.Failed? ==> r.off == off)
      && (r.out.Decoded? ==>
            && r.off == off + FrameSizeBytes + size.0 + size.1
            && r.brs == brs[0 := brs[0].(pos := brs[0].pos + size.0 + size.1)])
  {
    var (recBytes, padBytes) := size;
    var seg := brs[0];
    if recBytes <= seg.Size() - off - padBytes && |seg.data| - seg.pos >= recBytes + padBytes {
      var data := seg.data[seg.pos..seg.pos + recBytes + padBytes];
      var brs' := brs[0 := seg.(pos := seg.pos + recBytes + padBytes)];
      assert ReadFrame(brs, off, crc, unmarshal, update, size) == CheckRecord(brs', off, crc, unmarshal, update, data, recBytes);
      CheckRecordOffset(brs', off, crc, unmarshal, update, data, recBytes);
    }
  }

  lemma FrameOffset(brs: seq<Segment>, off: nat, crc: bv32, unmarshal: seq<byte> -> Option<Record>, update: Checksum)
    requires |brs| > 0 && AllValid(brs) && !Exhausted(brs[0])
    ensures var r := DecodeFrame(brs, off, crc, unmarshal, update);
      && (r.out.Failed? ==> r.off == off)
      && (r.out.Decoded? ==>
            ReadInt64(brs[0]).0.Header?
            && r.off == off + FrameBytes(brs[0])
            && r.brs == [brs[0].(pos := brs[0].pos + FrameBytes(brs[0]))] + brs[1..])
  {
    var (h, seg) := ReadInt64(brs[0]);
    if h.Header? {
      var size := DecodeFrameSize(h.lenField);
      assert FrameAt(brs[0]) == size;
      assert seg.pos == brs[0].pos + FrameSizeBytes;
      assert DecodeFrame(brs, off, crc, unmarshal, update) == ReadFrame(brs[0 := seg], off, crc, unmarshal, update, size);
      ReadFrameOffset(brs[0 := seg], off, crc, unmarshal, update, size);
      assert brs[0 := seg][0 := seg.(pos := seg.pos + size.0 + size.1)] == [brs[0].(pos := brs[0].pos + FrameBytes(brs[0]))] + brs[1..];
    }
  }

  /** The offset: every failure leaves it where the exhausted segments put
      it; a decoded record moves it past exactly that frame's header, record
      and padding bytes. */
  lemma DecodeOffset(brs: seq<Segment>, off: nat, crc: bv32, unmarshal: seq<byte> -> Option<Record>, update: Checksum)
    requires AllValid(brs)
    ensures var r := DecodeRecord(brs, off, crc, unmarshal, update);
      var k := FirstLive(brs);
      && (r.out.Failed? ==> r.off == BaseOffset(brs, off))
      && (r.out.Decoded? ==>
            k < |brs| && ReadInt64(brs[k]).0.Header?
            && r.off == BaseOffset(brs, off) + FrameBytes(brs[k])
            && r.brs == [brs[k].(pos := brs[k].pos + FrameBytes(brs[k]))] + brs[k + 1..])
  {
    DecodeSkipsExhausted(brs, off, crc, unmarshal, update);
    var k := FirstLive(brs);
    if k < |brs| {
      var live := brs[k..];
      assert live[0] == brs[k] && live[1..] == brs[k + 1..];
      FrameOffset(live, BaseOffset(brs, off), crc, unmarshal, update);
    }
  }

  lemma ReadFrameSizeLimit(brs: seq<Segment>, off: nat, crc: bv32, unmarshal: seq<byte> -> Option<Record>, update: Checksum,
                           size: (int64, int64))
    requires |brs| > 0 && AllValid(brs) && size.0 >= 0 && size.1 >= 0
    ensures var r := ReadFrame(brs, off, crc, unmarshal, update, size);
      && (r.out.Failed? && r.out.err.EntrySizeLimitExceeded? <==> size.0 > brs[0].Size() - off - size.1)
      && (size.0 > brs[0].Size() - off - size.1 ==> r.crc == crc && r.fed == [] && r.off == off && r.brs == brs)
  {
    var (recBytes, padBytes) := size;
    var seg := brs[0];
    if recBytes <= seg.Size() - off - padBytes && |seg.data| - seg.pos >= recBytes + padBytes {
      var data := seg.data[seg.pos..seg.pos + recBytes + padBytes];
      var brs' := brs[0 := seg.(pos := seg.pos + recBytes + padBytes)];
      assert ReadFrame(brs, off, crc, unmarshal, update, size) == CheckRecord(brs', off, crc, unmarshal, update, data, recBytes);
    }
  }

  lemma FrameSizeLimit(brs: seq<Segment>, off: nat, crc: bv32, unmarshal: seq<byte> -> Option<Record>, update: Checksum)
    requires |brs| > 0 && AllValid(brs) && !Exhausted(brs[0])
    ensures var r := DecodeFrame(brs, off, crc, unmarshal, update);
      r.out.Failed? && r.out.err.EntrySizeLimitExceeded? <==>
        ReadInt64(brs[0]).0.Header? && FrameAt(brs[0]).0 > brs[0].Size() - off - FrameAt(brs[0]).1
    ensures var r := DecodeFrame(brs, off, crc, unmarshal, update);
      r.out.Failed? && r.out.err.EntrySizeLimitExceeded? ==>
        && r.crc == crc && r.fed == [] && r.off == off
        && r.brs == [brs[0].(pos := brs[0].pos + FrameSizeBytes)] + brs[1..]
  {
    var (h, seg) := ReadInt64(brs[0]);
    if h.Header? {
      var size := DecodeFrameSize(h.lenField);
      assert FrameAt(brs[0]) == size;
      assert DecodeFrame(brs, off, crc, unmarshal, update) == ReadFrame(brs[0 := seg], off, crc, unmarshal, update, size);
      ReadFrameSizeLimit(brs[0 := seg], off, crc, unmarshal, update, size);
      assert brs[0 := seg] == [brs[0].(pos := brs[0].pos + FrameSizeBytes)] + brs[1..];
    }
  }

  lemma DecodeSizeLimitIff(brs: seq<Segment>, off: nat, crc: bv32, unmarshal: seq<byte> -> Option<Record>, update: Checksum)
    requires AllValid(brs)
    ensures var r := DecodeRecord(brs, off, crc, unmarshal, update);
      var k := FirstLive(brs);
      r.out.Failed? && r.out.err.EntrySizeLimitExceeded? <==>
        && k < |brs| && ReadInt64(brs[k]).0.Header?
        && FrameAt(brs[k]).0 > brs[k].Size() - BaseOffset(brs, off) - FrameAt(brs[k]).1
  {
    DecodeSkipsExhausted(brs, off, crc, unmarshal, update);
    var k := FirstLive(brs);
    if k < |brs| {
      var live := brs[k..];
      assert live[0] == brs[k];
      FrameSizeLimit(live, BaseOffset(brs, off), crc, unmarshal, update);
    }
  }

  lemma DecodeSizeLimitState(brs: seq<Segment>, off: nat, crc: bv32, unmarshal: seq<byte> -> Option<Record>, update: Checksum)
    requires AllValid(brs)
    ensures var r := DecodeRecord(brs, off, crc, unmarshal, update);
      var k := FirstLive(brs);
      r.out.Failed? && r.out.err.EntrySizeLimitExceeded? ==>
        && k < |brs|
        && r.crc == crc && r.fed == [] && r.off == BaseOffset(brs, off)
        && r.brs == [brs[k].(pos := brs[k].pos + FrameSizeBytes)] + brs[k + 1..]
  {
    DecodeSkipsExhausted(brs, off, crc, unmarshal, update);
    var k := FirstLive(brs);
    if k < |brs| {
      var live := brs[k..];
      assert live[0] == brs[k] && live[1..] == brs[k + 1..];
      FrameSizeLimit(live, BaseOffset(brs, off), crc, unmarshal, update);
    }
  }

  /** Size limit: a declared length beyond what the file can still hold is
      refused before any payload is read, and the offset and checksum stay
      as they were. */
  lemma DecodeSizeLimit(brs: seq<Segment>, off: nat, crc: bv32, unmarshal: seq<byte> -> Option<Record>, update: Checksum)
    requires AllValid(brs)
    ensures var r := DecodeRecord(brs, off, crc, unmarshal, update);
      var k := FirstLive(brs);
      r.out.Failed? && r.out.err.EntrySizeLimitExceeded? <==>
        && k < |brs| && ReadInt64(brs[k]).0.Header?
        && FrameAt(brs[k]).0 > brs[k].Size() - BaseOffset(brs, off) - FrameAt(brs[k]).1
    ensures var r := DecodeRecord(brs, off, crc, unmarshal, update);
      var k := FirstLive(brs);
      r.out.Failed? && r.out.err.EntrySizeLimitExceeded? ==>
        && r.crc == crc && r.fed == [] && r.off == BaseOffset(brs, off)
        && r.brs == [brs[k].(pos := brs[k].pos + FrameSizeBytes)] + brs[k + 1..]
  {
    DecodeSizeLimitIff(brs, off, crc, unmarshal, update);
    DecodeSizeLimitState(brs, off, crc, unmarshal, update);
  }


  lemma CheckRecordChecksum(brs: seq<Segment>, off: nat, crc: bv32, unmarshal: seq<byte> -> Option<Record>, update: Checksum,
                            data: seq<byte>, recBytes: nat)
    requires recBytes <= |data| && update(crc, []) == crc
    ensures var r := CheckRecord(brs, off, crc, unmarshal, update, data, recBytes);
      && r.crc == update(crc, r.fed)
      && (r.out.Decoded? ==> r.fed == if r.out.rec.recType == CrcType then [] else r.out.rec.data)
      && (r.out.Decoded? && r.out.rec.recType != CrcType ==> r.out.rec.crc == r.crc)
  {
  }

  lemma ReadFrameChecksum(brs: seq<Segment>, off: nat, crc: bv32, unmarshal: seq<byte> -> Option<Record>, update: Checksum,
                          size: (int64, int64))
    requires |brs| > 0 && AllValid(brs) && size.0 >= 0 && size.1 >= 0 && update(crc, []) == crc
    ensures var r := ReadFrame(brs, off, crc, unmarshal, update, size);
      && r.crc == update(crc, r.fed)
      && (r.out.Decoded? ==> r.fed == if r.out.rec.recType == CrcType then [] else r.out.rec.data)
      && (r.out.Decoded? && r.out.rec.recType != CrcType ==> r.out.rec.crc == r.crc)
  {
    var (recBytes, padBytes) := size;
    var seg := brs[0];
    if recBytes <= seg.Size() - off - padBytes && |seg.data| - seg.pos >= recBytes + padBytes {
      var data := seg.data[seg.pos..seg.pos + recBytes + padBytes];
      var brs' := brs[0 := seg.(pos := seg.pos + recBytes + padBytes)];
      assert ReadFrame(brs, off, crc, unmarshal, update, size) == CheckRecord(brs', off, crc, unmarshal, update, data, recBytes);
      CheckRecordChecksum(brs', off, crc, unmarshal, update, data, recBytes);
    }
  }

  lemma FrameChecksum(brs: seq<Segment>, off: nat, crc: bv32, unmarshal: seq<byte> -> Option<Record>, update: Checksum)
    requires |brs| > 0 && AllValid(brs) && !Exhausted(brs[0]) && update(crc, []) == crc
    ensures var r := DecodeFrame(brs, off, crc, unmarshal, update);
      && r.crc == update(crc, r.fed)
      && (r.out.Decoded? ==> r.fed == if r.out.rec.recType == CrcType then [] else r.out.rec.data)
      && (r.out.Decoded? && r.out.rec.recType != CrcType ==> r.out.rec.crc == r.crc)
  {
    var (h, seg) := ReadInt64(brs[0]);
    if h.Header? {
      var size := DecodeFrameSize(h.lenField);
      assert DecodeFrame(brs, off, crc, unmarshal, update) == ReadFrame(brs[0 := seg], off, crc, unmarshal, update, size);
      ReadFrameChecksum(brs[0 := seg], off, crc, unmarshal, update, size);
    }
  }


  /** The checksum: its new value is the old one fed with the bytes this
      call wrote, and those are the data of the record unmarshalled here,
      or nothing for a checksum record. */
  lemma DecodeChecksum(brs: seq<Segment>, off: nat, crc: bv32, unmarshal: seq<byte> -> Option<Record>, update: Checksum)
    requires AllValid(brs) && update(crc, []) == crc
    ensures var r := DecodeRecord(brs, off, crc, unmarshal, update);
      && r.crc == update(crc, r.fed)
      && (r.out.Decoded? ==> r.fed == if r.out.rec.recType == CrcType then [] else r.out.rec.data)
      && (r.out.Decoded? && r.out.rec.recType != CrcType ==> r.out.rec.crc == r.crc)
  {
    var k := FirstLive(brs);
    if k == 0 {
      if |brs| > 0 {
        FrameChecksum(brs, off, crc, unmarshal, update);
      }
    } else {
      DecodeSkipsExhausted(brs, off, crc, unmarshal, update);
      if k < |brs| {
        var live := brs[k..];
        assert live[0] == brs[k] && live[1..] == brs[k + 1..];
        FrameChecksum(live, 0, crc, unmarshal, update);
      }
    }
  }

  /** Whether the frame at the front of a live segment is cut short: a
      partial header, or fewer bytes than its record and padding need. */
  predicate ShortFrame(s: Segment)
    requires s.Valid()
  {
    var (h, seg) := ReadInt64(s);
    h.HeaderShort? || (h.Header? && |seg.data| - seg.pos < FrameAt(s).0 + FrameAt(s).1)
  }

  lemma ReadFrameTornOnlyInLast(brs: seq<Segment>, off: nat, crc: bv32, unmarshal: seq<byte> -> Option<Record>, update: Checksum,
                                size: (int64, int64))
    requires |brs| >= 2 && AllValid(brs) && size.0 >= 0 && size.1 >= 0
    ensures ReadFrame(brs, off, crc, unmarshal, update, size).out == Failed(UnexpectedEOF) ==>
      |brs[0].data| - brs[0].pos < size.0 + size.1
  {
    var (recBytes, padBytes) := size;
    var seg := brs[0];
    if recBytes <= seg.Size() - off - padBytes && |seg.data| - seg.pos >= recBytes + padBytes {
      var data := seg.data[seg.pos..seg.pos + recBytes + padBytes];
      var brs' := brs[0 := seg.(pos := seg.pos + recBytes + padBytes)];
      assert ReadFrame(brs, off, crc, unmarshal, update, size) == CheckRecord(brs', off, crc, unmarshal, update, data, recBytes);
      assert !IsTorn(|brs'|, off, data);
    }
  }

  lemma FrameTornOnlyInLast(brs: seq<Segment>, off: nat, crc: bv32, unmarshal: seq<byte> -> Option<Record>, update: Checksum)
    requires |brs| >= 2 && AllValid(brs) && !Exhausted(brs[0])
    ensures DecodeFrame(brs, off, crc, unmarshal, update).out == Failed(UnexpectedEOF) ==> ShortFrame(brs[0])
  {
    var (h, seg) := ReadInt64(brs[0]);
    if h.Header? {
      var size := DecodeFrameSize(h.lenField);
      assert FrameAt(brs[0]) == size;
      assert DecodeFrame(brs, off, crc, unmarshal, update) == ReadFrame(brs[0 := seg], off, crc, unmarshal, update, size);
      ReadFrameTornOnlyInLast(brs[0 := seg], off, crc, unmarshal, update, size);
    }
  }

  /** Torn writes: with two or more segments still to read, an
      unexpected EOF comes only from a short read, never from the torn-write
      verdict, which always holds corruption there to be corruption. */
  lemma DecodeTornOnlyInLastSegment(brs: seq<Segment>, off: nat, crc: bv32, unmarshal: seq<byte> -> Option<Record>, update: Checksum)
    requires AllValid(brs)
    ensures var r := DecodeRecord(brs, off, crc, unmarshal, update);
      var k := FirstLive(brs);
      r.out == Failed(UnexpectedEOF) && |brs| - k >= 2 ==> ShortFrame(brs[k])
  {
    DecodeSkipsExhausted(brs, off, crc, unmarshal, update);
    var k := FirstLive(brs);
    if |brs| - k >= 2 {
      var live := brs[k..];
      assert live[0] == brs[k];
      FrameTornOnlyInLast(live, BaseOffset(brs, off), crc, unmarshal, update);
    }
  }


  /** The record and padding bytes of a complete frame at the cursor. */
  function FrameData(s: Segment): (data: seq<byte>)
    requires s.Valid() && ReadInt64(s).0.Header? && !ShortFrame(s)
    ensures |data| == FrameAt(s).0 + FrameAt(s).1
  {
    var start := s.pos + FrameSizeBytes;
    s.data[start..start + FrameAt(s).0 + FrameAt(s).1]
  }

  /** The record bytes of a complete frame sit right after its header. */
  lemma FramePayload(s: Segment)
    requires s.Valid() && ReadInt64(s).0.Header? && !ShortFrame(s)
    ensures FrameData(s)[..FrameAt(s).0] == s.data[s.pos + FrameSizeBytes..s.pos + FrameSizeBytes + FrameAt(s).0]
  {
  }

  lemma ReadFrameUnmarshalFailure(brs: seq<Segment>, off: nat, crc: bv32, unmarshal: seq<byte> -> Option<Record>, update: Checksum,
                                  size: (int64, int64))
    requires |brs| > 0 && AllValid(brs) && size.0 >= 0 && size.1 >= 0
    requires size.0 <= brs[0].Size() - off - size.1 && |brs[0].data| - brs[0].pos >= size.0 + size.1
    ensures var data := brs[0].data[brs[0].pos..brs[0].pos + size.0 + size.1];
      unmarshal(data[..size.0]).None? ==>
        ReadFrame(brs, off, crc, unmarshal, update, size).out ==
          Failed(if IsTorn(|brs|, off, data) then UnexpectedEOF else UnmarshalFailed)
  {
    var seg := brs[0];
    var data := seg.data[seg.pos..seg.pos + size.0 + size.1];
    var brs' := brs[0 := seg.(pos := seg.pos + size.0 + size.1)];
    assert ReadFrame(brs, off, crc, unmarshal, update, size) == CheckRecord(brs', off, crc, unmarshal, update, data, size.0);
  }

  lemma FrameUnmarshalFailure(brs: seq<Segment>, off: nat, crc: bv32, unmarshal: seq<byte> -> Option<Record>, update: Checksum)
    requires |brs| > 0 && AllValid(brs) && !Exhausted(brs[0])
    requires ReadInt64(brs[0]).0.Header? && !ShortFrame(brs[0])
    requires FrameAt(brs[0]).0 <= brs[0].Size() - off - FrameAt(brs[0]).1
    ensures unmarshal(FrameData(brs[0])[..FrameAt(brs[0]).0]).None? ==>
      DecodeFrame(brs, off, crc, unmarshal, update).out ==
        Failed(if IsTorn(|brs|, off, FrameData(brs[0])) then UnexpectedEOF else UnmarshalFailed)
  {
    var (h, seg) := ReadInt64(brs[0]);
    var size := DecodeFrameSize(h.lenField);
    assert FrameAt(brs[0]) == size;
    assert seg.pos == brs[0].pos + FrameSizeBytes && seg.data == brs[0].data;
    assert DecodeFrame(brs, off, crc, unmarshal, update) == ReadFrame(brs[0 := seg], off, crc, unmarshal, update, size);
    ReadFrameUnmarshalFailure(brs[0 := seg], off, crc, unmarshal, update, size);
  }

  /** The classification after a full read: when the record does not
      unmarshal, the result is UnexpectedEOF if the frame's bytes look torn
      and the unmarshal error otherwise. */
  lemma DecodeUnmarshalFailure(brs: seq<Segment>, off: nat, crc: bv32, unmarshal: seq<byte> -> Option<Record>, update: Checksum)
    requires AllValid(brs)
    requires var k := FirstLive(brs); k < |brs| && ReadInt64(brs[k]).0.Header? && !ShortFrame(brs[k])
    requires var k := FirstLive(brs); FrameAt(brs[k]).0 <= brs[k].Size() - BaseOffset(brs, off) - FrameAt(brs[k]).1
    ensures var k := FirstLive(brs);
      unmarshal(FrameData(brs[k])[..FrameAt(brs[k]).0]).None? ==>
        DecodeRecord(brs, off, crc, unmarshal, update).out ==
          Failed(if IsTorn(|brs| - k, BaseOffset(brs, off), FrameData(brs[k])) then UnexpectedEOF else UnmarshalFailed)
  {
    DecodeSkipsExhausted(brs, off, crc, unmarshal, update);
    var k := FirstLive(brs);
    var live := brs[k..];
    assert live[0] == brs[k] && |live| == |brs| - k;
    FrameUnmarshalFailure(live, BaseOffset(brs, off), crc, unmarshal, update);
  }

  lemma ReadFrameCRCMismatch(brs: seq<Segment>, off: nat, crc: bv32, unmarshal: seq<byte> -> Option<Record>, update: Checksum,
                             size: (int64, int64), rec: Record)
    requires |brs| > 0 && AllValid(brs) && size.0 >= 0 && size.1 >= 0
    requires size.0 <= brs[0].Size() - off - size.1 && |brs[0].data| - brs[0].pos >= size.0 + size.1
    requires unmarshal(brs[0].data[brs[0].pos..brs[0].pos + size.0]) == Some(rec)
    requires rec.recType != CrcType && rec.crc != update(crc, rec.data)
    ensures var data := brs[0].data[brs[0].pos..brs[0].pos + size.0 + size.1];
      var r := ReadFrame(brs, off, crc, unmarshal, update, size);
      && r.out == Failed(if IsTorn(|brs|, off, data) then UnexpectedEOF else CRCMismatch)
      && r.crc == update(crc, rec.data) && r.fed == rec.data && r.off == off
  {
    var seg := brs[0];
    var data := seg.data[seg.pos..seg.pos + size.0 + size.1];
    assert data[..size.0] == seg.data[seg.pos..seg.pos + size.0];
    var brs' := brs[0 := seg.(pos := seg.pos + size.0 + size.1)];
    assert ReadFrame(brs, off, crc, unmarshal, update, size) == CheckRecord(brs', off, crc, unmarshal, update, data, size.0);
  }

  lemma FrameCRCMismatch(brs: seq<Segment>, off: nat, crc: bv32, unmarshal: seq<byte> -> Option<Record>, update: Checksum, rec: Record)
    requires |brs| > 0 && AllValid(brs) && !Exhausted(brs[0])
    requires ReadInt64(brs[0]).0.Header? && !ShortFrame(brs[0])
    requires FrameAt(brs[0]).0 <= brs[0].Size() - off - FrameAt(brs[0]).1
    requires unmarshal(FrameData(brs[0])[..FrameAt(brs[0]).0]) == Some(rec)
    requires rec.recType != CrcType && rec.crc != update(crc, rec.data)
    ensures var r := DecodeFrame(brs, off, crc, unmarshal, update);
      && r.out == Failed(if IsTorn(|brs|, off, FrameData(brs[0])) then UnexpectedEOF else CRCMismatch)
      && r.crc == update(crc, rec.data) && r.off == off
  {
    var (h, seg) := ReadInt64(brs[0]);
    var size := DecodeFrameSize(h.lenField);
    assert FrameAt(brs[0]) == size;
    assert seg.pos == brs[0].pos + FrameSizeBytes && seg.data == brs[0].data;
    FramePayload(brs[0]);
    assert DecodeFrame(brs, off, crc, unmarshal, update) == ReadFrame(brs[0 := seg], off, crc, unmarshal, update, size);
    ReadFrameCRCMismatch(brs[0 := seg], off, crc, unmarshal, update, size, rec);
  }

  /** The classification after a full read of a record that unmarshals but
      whose checksum does not match the running one: UnexpectedEOF if the
      frame's bytes look torn and a CRC mismatch otherwise. Either way the
      running checksum has already absorbed the record's data and the
      offset stays put. */
  lemma DecodeCRCMismatch(brs: seq<Segment>, off: nat, crc: bv32, unmarshal: seq<byte> -> Option<Record>, update: Checksum, rec: Record)
    requires AllValid(brs)
    requires var k := FirstLive(brs); k < |brs| && ReadInt64(brs[k]).0.Header? && !ShortFrame(brs[k])
    requires var k := FirstLive(brs); FrameAt(brs[k]).0 <= brs[k].Size() - BaseOffset(brs, off) - FrameAt(brs[k]).1
    requires var k := FirstLive(brs); unmarshal(FrameData(brs[k])[..FrameAt(brs[k]).0]) == Some(rec)
    requires rec.recType != CrcType && rec.crc != update(crc, rec.data)
    ensures var k := FirstLive(brs);
      var r := DecodeRecord(brs, off, crc, unmarshal, update);
      && r.out == Failed(if IsTorn(|brs| - k, BaseOffset(brs, off), FrameData(brs[k])) then UnexpectedEOF else CRCMismatch)
      && r.crc == update(crc, rec.data) && r.off == BaseOffset(brs, off)
  {
    DecodeSkipsExhausted(brs, off, crc, unmarshal, update);
    var k := FirstLive(brs);
    var live := brs[k..];
    assert live[0] == brs[k] && |live| == |brs| - k;
    FrameCRCMismatch(live, BaseOffset(brs, off), crc, unmarshal, update, rec);
  }

  /** The decoder's normal state: the front segment's cursor sits at the
      offset following the last valid record and the later segments are
      unread. */
  predicate Synced(brs: seq<Segment>, off: nat)
  {
    |brs| > 0 ==> brs[0].pos == off && forall i :: 1 <= i < |brs| ==> brs[i].pos == 0
  }

  /** A decoded record keeps the decoder in its normal state, so the offset
      is always the cursor position following a whole, valid frame. */
  lemma DecodeKeepsSync(brs: seq<Segment>, off: nat, crc: bv32, unmarshal: seq<byte> -> Option<Record>, update: Checksum)
    requires AllValid(brs) && Synced(brs, off)
    ensures var r := DecodeRecord(brs, off, crc, unmarshal, update);
      r.out.Decoded? ==> |r.brs| > 0 && Synced(r.brs, r.off) && r.off <= r.brs[0].Size()
  {
    DecodeOffset(brs, off, crc, unmarshal, update);
    var r := DecodeRecord(brs, off, crc, unmarshal, update);
    var k := FirstLive(brs);
    if r.out.Decoded? {
      assert forall i :: 1 <= i < |r.brs| ==> r.brs[i] == brs[k + i];
    }
  }

  /** A header written by the encoder is read back as that frame size. */
  lemma WrittenHeader(s: Segment, recBytes: nat, padBytes: nat)
    requires s.Valid() && recBytes < Pow56 && padBytes < 8 && recBytes + padBytes > 0
    requires s.pos + FrameSizeBytes <= |s.data|
    requires s.data[s.pos..s.pos + FrameSizeBytes] == EncodeInt64(EncodeFrameHeader(recBytes, padBytes))
    ensures ReadInt64(s) == (Header(EncodeFrameHeader(recBytes, padBytes)), s.(pos := s.pos + FrameSizeBytes))
    ensures !Exhausted(s) && DecodeFrameSize(EncodeFrameHeader(recBytes, padBytes)) == (recBytes, padBytes)
  {
    FrameSizeRoundTrip(recBytes, padBytes);
    Int64RoundTrip(EncodeFrameHeader(recBytes, padBytes));
  }

  /** A record whose bytes unmarshal and check out is decoded, and the
      offset moves past its frame. */
  lemma CheckRecordDecoded(brs: seq<Segment>, off: nat, crc: bv32, unmarshal: seq<byte> -> Option<Record>, update: Checksum,
                           data: seq<byte>, recBytes: nat, rec: Record)
    requires recBytes <= |data| && unmarshal(data[..recBytes]) == Some(rec)
    requires rec.recType == CrcType || rec.crc == update(crc, rec.data)
    ensures var r := CheckRecord(brs, off, crc, unmarshal, update, data, recBytes);
      r.out == Decoded(rec) && r.off == off + FrameSizeBytes + |data| && r.brs == brs
  {
  }

  lemma ReadFrameDecoded(brs: seq<Segment>, off: nat, crc: bv32, unmarshal: seq<byte> -> Option<Record>, update: Checksum,
                         size: (int64, int64), rec: Record)
    requires |brs| > 0 && AllValid(brs) && size.0 >= 0 && size.1 >= 0
    requires size.0 <= brs[0].Size() - off - size.1 && |brs[0].data| - brs[0].pos >= size.0 + size.1
    requires unmarshal(brs[0].data[brs[0].pos..brs[0].pos + size.0]) == Some(rec)
    requires rec.recType == CrcType || rec.crc == update(crc, rec.data)
    ensures var r := ReadFrame(brs, off, crc, unmarshal, update, size);
      && r.out == Decoded(rec)
      && r.off == off + FrameSizeBytes + size.0 + size.1
      && r.brs == brs[0 := brs[0].(pos := brs[0].pos + size.0 + size.1)]
  {
    var seg := brs[0];
    var data := seg.data[seg.pos..seg.pos + size.0 + size.1];
    assert data[..size.0] == seg.data[seg.pos..seg.pos + size.0];
    var brs' := brs[0 := seg.(pos := seg.pos + size.0 + size.1)];
    assert ReadFrame(brs, off, crc, unmarshal, update, size) == CheckRecord(brs', off, crc, unmarshal, update, data, size.0);
    CheckRecordDecoded(brs', off, crc, unmarshal, update, data, size.0, rec);
  }

  /** A frame whose header, read at the cursor, declares the record and
      padding that follow, within the file, decodes to what its record bytes
      unmarshal to when they check out. */
  lemma FrameDecoded(brs: seq<Segment>, off: nat, crc: bv32, unmarshal: seq<byte> -> Option<Record>, update: Checksum, rec: Record)
    requires |brs| > 0 && AllValid(brs) && !Exhausted(brs[0])
    requires ReadInt64(brs[0]).0.Header? && !ShortFrame(brs[0])
    requires FrameAt(brs[0]).0 <= brs[0].Size() - off - FrameAt(brs[0]).1
    requires unmarshal(FrameData(brs[0])[..FrameAt(brs[0]).0]) == Some(rec)
    requires rec.recType == CrcType || rec.crc == update(crc, rec.data)
    ensures var r := DecodeFrame(brs, off, crc, unmarshal, update);
      && r.out == Decoded(rec)
      && r.off == off + FrameBytes(brs[0])
      && r.brs == [brs[0].(pos := brs[0].pos + FrameBytes(brs[0]))] + brs[1..]
  {
    var (h, seg) := ReadInt64(brs[0]);
    var size := DecodeFrameSize(h.lenField);
    assert FrameAt(brs[0]) == size;
    assert seg.pos == brs[0].pos + FrameSizeBytes && seg.data == brs[0].data;
    FramePayload(brs[0]);
    assert DecodeFrame(brs, off, crc, unmarshal, update) == ReadFrame(brs[0 := seg], off, crc, unmarshal, update, size);
    ReadFrameDecoded(brs[0 := seg], off, crc, unmarshal, update, size, rec);
    assert brs[0 := seg][0 := seg.(pos := seg.pos + size.0 + size.1)] == [brs[0].(pos := brs[0].pos + FrameBytes(brs[0]))] + brs[1..];
  }

  /** Round trip: a frame laid out as the writer lays it (header, record,
      padding; the header flagged only when there is padding) at the cursor
      of a synced segment decodes to the record that its bytes unmarshal to,
      and the offset moves past the frame. A frame with no record bytes and
      no padding would carry the zero header, which reads as the end of the
      segment. */
  lemma DecodeWrittenFrame(s: Segment, rest: seq<Segment>, crc: bv32, unmarshal: seq<byte> -> Option<Record>, update: Checksum,
                           payload: seq<byte>, padBytes: nat, rec: Record)
    requires s.Valid() && AllValid(rest)
    requires |payload| < Pow56 && padBytes < 8 && |payload| + padBytes > 0
    requires s.pos + FrameSizeBytes + |payload| + padBytes <= |s.data|
    requires s.data[s.pos..s.pos + FrameSizeBytes] == EncodeInt64(EncodeFrameHeader(|payload|, padBytes))
    requires s.data[s.pos + FrameSizeBytes..s.pos + FrameSizeBytes + |payload|] == payload
    requires unmarshal(payload) == Some(rec)
    requires rec.recType == CrcType || rec.crc == update(crc, rec.data)
    ensures var r := DecodeRecord([s] + rest, s.pos, crc, unmarshal, update);
      && r.out == Decoded(rec)
      && r.off == s.pos + FrameSizeBytes + |payload| + padBytes
      && r.brs == [s.(pos := r.off)] + rest
  {
    var brs := [s] + rest;
    assert brs[0] == s;
    WrittenHeader(s, |payload|, padBytes);
    assert FrameAt(s) == (|payload|, padBytes);
    FramePayload(s);
    assert DecodeRecord(brs, s.pos, crc, unmarshal, update) == DecodeFrame(brs, s.pos, crc, unmarshal, update);
    FrameDecoded(brs, s.pos, crc, unmarshal, update, rec);
    assert brs[1..] == rest;
  }
}
