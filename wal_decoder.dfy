/** The WAL record decoder object: the list of segment readers it consumes
    from the front, the offset following the last valid record, and the
    running checksum, all updated in place by each decode call. */
module WalDecoder {
  import opened Types
  import opened WalFrame
  import WalCrc
  import opened WalTorn
  import opened WalDecode

  class Decoder {
    /** The segments still to read, front first (`brs`). */
    var brs: seq<Segment>
    /** File offset following the last valid decoded record (`lastValidOff`). */
    var lastValidOff: nat
    /** The running checksum's current value (`crc`). */
    var crc: bv32
    /** The record schema's `Unmarshal`, supplied from outside. */
    const unmarshal: seq<byte> -> Option<Record>

    /** The value the checksum was last seeded with, and every byte written
        to it since. */
    ghost var seed: bv32
    ghost var fed: seq<byte>

    ghost predicate Valid()
      reads this
    {
      AllValid(brs) && Chained()
    }

    /** The checksum covers every byte written since it was last seeded. */
    ghost predicate Chained()
      reads this
    {
      crc == WalCrc.Update(seed, fed)
    }

    /** `newDecoder`: one reader per file, in the order given, and a checksum
        seeded with 0. */
    constructor (files: seq<seq<byte>>, unmarshal: seq<byte> -> Option<Record>)
      ensures Valid() && Synced(brs, lastValidOff)
      ensures |brs| == |files| && forall i :: 0 <= i < |files| ==> brs[i] == Segment(files[i], 0)
      ensures lastValidOff == 0 && crc == 0 && seed == 0 && fed == []
      ensures this.unmarshal == unmarshal
    {
      var readers: seq<Segment> := [];
      var i := 0;
      while i < |files|
        invariant 0 <= i <= |files|
        invariant |readers| == i && forall j :: 0 <= j < i ==> readers[j] == Segment(files[j], 0)
      {
        readers := readers + [Segment(files[i], 0)];
        i := i + 1;
      }
      brs := readers;
      lastValidOff := 0;
      crc := 0;
      this.unmarshal := unmarshal;
      seed := 0;
      fed := [];
      WalCrc.UpdateNothing(0);
    }

    /** `isTornEntry`: cuts data at the file's sector boundaries, counting
        from just after the failed frame's header, and looks for a piece that
        is entirely zero. */
    method IsTornEntry(data: seq<byte>) returns (torn: bool)
      ensures torn == IsTorn(|brs|, lastValidOff, data)
    {
      if |brs| != 1 {
        return false;
      }
      var chunks := SplitOnSectors(lastValidOff + FrameSizeBytes, data);
      // one zero-filled piece is enough to call the entry torn
      var k := 0;
      while k < |chunks|
        invariant 0 <= k <= |chunks|
        invariant forall j :: 0 <= j < k ==> !AllZero(chunks[j])
      {
        var isZero := IsAllZero(chunks[k]);
        if isZero {
          return true;
        }
        k := k + 1;
      }
      return false;
    }

    /** `decodeRecord`: reads the next record, moving on across exhausted
        segments; proved to follow WalDecode.DecodeRecord step for step, so
        every rule proved there holds of the decoder. */
    method DecodeRecord() returns (out: Outcome)
      requires Valid()
      modifies this
      ensures Valid()
      ensures var r := WalDecode.DecodeRecord(old(brs), old(lastValidOff), old(crc), unmarshal, WalCrc.Update);
        && out == r.out && brs == r.brs && lastValidOff == r.off && crc == r.crc
        && seed == old(seed) && fed == old(fed) + r.fed
      decreases |brs|
    {
      if |brs| == 0 {
        return Failed(EOF);
      }
      var (h, seg) := ReadInt64(brs[0]);
      if h.HeaderEOF? || (h.Header? && h.lenField == 0) {
        // nothing more in this segment: move to the next one
        brs := brs[1..];
        if |brs| == 0 {
          assert fed == old(fed) + [];
          return Failed(EOF);
        }
        lastValidOff := 0;
        out := DecodeRecord();
        return;
      }
      assert fed == old(fed) + [];
      if h.HeaderShort? {
        brs := brs[0 := seg];
        return Failed(UnexpectedEOF);
      }
      var (recBytes, padBytes) := DecodeFrameSize(h.lenField);
      brs := brs[0 := seg];
      out := ReadFrame(recBytes, padBytes);
    }

    /** The rest of `decodeRecord` once a non-zero header has been read from
        the front segment: the size check, the payload read, unmarshalling
        and the checksum. */
    method ReadFrame(recBytes: int64, padBytes: int64) returns (out: Outcome)
      requires Valid() && |brs| > 0 && recBytes >= 0 && padBytes >= 0
      modifies this
      ensures Valid()
      ensures var r := WalDecode.ReadFrame(old(brs), old(lastValidOff), old(crc), unmarshal, WalCrc.Update, (recBytes, padBytes));
        && out == r.out && brs == r.brs && lastValidOff == r.off && crc == r.crc
        && seed == old(seed) && fed == old(fed) + r.fed
    {
      var seg := brs[0];
      assert fed == old(fed) + [];
      // a declared size larger than what is left of the file is refused
      var maxEntryLimit := seg.Size() - lastValidOff - padBytes;
      if recBytes > maxEntryLimit {
        return Failed(EntrySizeLimitExceeded(recBytes, seg.Size(), lastValidOff, padBytes, maxEntryLimit));
      }
      if |seg.data| - seg.pos < recBytes + padBytes {
        brs := brs[0 := seg.(pos := |seg.data|)];
        return Failed(UnexpectedEOF);
      }
      var data := seg.data[seg.pos..seg.pos + recBytes + padBytes];
      brs := brs[0 := seg.(pos := seg.pos + recBytes + padBytes)];
      out := CheckRecord(data, recBytes);
    }

    /** The end of `decodeRecord` once the frame's bytes are read:
        unmarshal, feed and validate the checksum unless it is a checksum
        record, and classify a failure with the torn-write verdict. */
    method CheckRecord(data: seq<byte>, recBytes: nat) returns (out: Outcome)
      requires Valid() && recBytes <= |data|
      modifies this
      ensures Valid()
      ensures var r := WalDecode.CheckRecord(old(brs), old(lastValidOff), old(crc), unmarshal, WalCrc.Update, data, recBytes);
        && out == r.out && brs == r.brs && lastValidOff == r.off && crc == r.crc
        && seed == old(seed) && fed == old(fed) + r.fed
    {
      assert fed == old(fed) + [];
      ghost var verdict := IsTorn(|brs|, lastValidOff, data);
      var parsed := unmarshal(data[..recBytes]);
      if parsed.None? {
        assert WalDecode.CheckRecord(brs, lastValidOff, crc, unmarshal, WalCrc.Update, data, recBytes)
          == Step(Failed(if verdict then UnexpectedEOF else UnmarshalFailed), brs, lastValidOff, crc, []);
        var torn := IsTornEntry(data);
        if torn {
          return Failed(UnexpectedEOF);
        }
        return Failed(UnmarshalFailed);
      }
      var rec := parsed.value;
      // a checksum record carries the seed itself and is not checked here
      if rec.recType != CrcType {
        WalCrc.ChainStep(seed, fed, crc, rec.data);
        crc := WalCrc.Update(crc, rec.data);
        fed := fed + rec.data;
        if rec.crc != crc {
          var torn := IsTornEntry(data);
          if torn {
            return Failed(UnexpectedEOF);
          }
          return Failed(CRCMismatch);
        }
      }
      // accepted: the offset moves past header, record and padding
      lastValidOff := lastValidOff + FrameSizeBytes + |data|;
      return Decoded(rec);
    }

    /** `updateCRC`: reseeds the checksum with a value taken from a checksum
        record; the readers and the offset are untouched. */
    method UpdateCRC(prevCrc: bv32)
      requires Valid()
      modifies this
      ensures Valid() && crc == prevCrc && seed == prevCrc && fed == []
      ensures brs == old(brs) && lastValidOff == old(lastValidOff)
    {
      crc := prevCrc;
      seed := prevCrc;
      fed := [];
      WalCrc.UpdateNothing(prevCrc);
    }

    /** `lastCRC`: the checksum of every record payload written since the
        last seed, chained onto that seed. */
    method LastCRC() returns (c: bv32)
      requires Valid()
      ensures c == WalCrc.Update(seed, fed)
    {
      return crc;
    }

    /** `lastOffset`: where the next frame starts in the current segment;
        in the normal state it is the front reader's position. */
    method LastOffset() returns (o: nat)
      ensures o == lastValidOff
      ensures Synced(brs, lastValidOff) && |brs| > 0 ==> o == brs[0].pos
    {
      return lastValidOff;
    }
  }

  /** The sector-splitting loop of `isTornEntry`: the pieces of data when
      its first byte sits at file offset fileOff. */
  method SplitOnSectors(fileOff: nat, data: seq<byte>) returns (chunks: seq<seq<byte>>)
    ensures chunks == Chunks(fileOff, data)
  {
    var off: nat := fileOff;
    var curOff := 0;
    chunks := [];
    assert data[curOff..] == data;
    // cut at each 512-byte boundary of the file
    while curOff < |data|
      invariant 0 <= curOff <= |data| && off == fileOff + curOff
      invariant chunks + Chunks(off, data[curOff..]) == Chunks(fileOff, data)
      decreases |data| - curOff
    {
      var chunkLen := MinSectorSize - off % MinSectorSize;
      if chunkLen > |data| - curOff {
        chunkLen := |data| - curOff;
      }
      ChunksOfSuffix(off, data, curOff, chunkLen);
      ghost var later := Chunks(off + chunkLen, data[curOff + chunkLen..]);
      assert chunks + ([data[curOff..curOff + chunkLen]] + later) == (chunks + [data[curOff..curOff + chunkLen]]) + later;
      chunks := chunks + [data[curOff..curOff + chunkLen]];
      off := off + chunkLen;
      curOff := curOff + chunkLen;
    }
    assert data[curOff..] == [];
    assert chunks + [] == chunks;
  }

  /** The zero scan of `isTornEntry`, stopping at the first non-zero byte. */
  method IsAllZero(sect: seq<byte>) returns (isZero: bool)
    ensures isZero == AllZero(sect)
  {
    var v := 0;
    while v < |sect|
      invariant 0 <= v <= |sect|
      invariant forall w :: 0 <= w < v ==> sect[w] == 0
    {
      if sect[v] != 0 {
        return false;
      }
      v := v + 1;
    }
    return true;
  }
}
