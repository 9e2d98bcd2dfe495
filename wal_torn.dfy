/** The torn-write classifier: the bytes of a failed frame are cut at
    512-byte sector boundaries of the file, and the write counts as torn when
    one of those sector pieces is entirely zero. */
module WalTorn {
  import opened Types
  import WalFrame

  /** `minSectorSize`. */
  const MinSectorSize: nat := 512

  function Min(a: int, b: int): int
  {
    if a < b then a else b
  }

  /** The sector pieces of data when its first byte sits at file offset
      fileOff: each piece runs to the next sector boundary or to the end. */
  function Chunks(fileOff: nat, data: seq<byte>): seq<seq<byte>>
    decreases |data|
  {
    if |data| == 0 then []
    else
      var n := Min(MinSectorSize - fileOff % MinSectorSize, |data|);
      [data[..n]] + Chunks(fileOff + n, data[n..])
  }

  /** The first piece of a suffix of data, and the pieces after it. */
  lemma ChunksOfSuffix(fileOff: nat, data: seq<byte>, from: nat, n: nat)
    requires from < |data| && n == Min(MinSectorSize - fileOff % MinSectorSize, |data| - from)
    ensures Chunks(fileOff, data[from..]) == [data[from..from + n]] + Chunks(fileOff + n, data[from + n..])
  {
    var rest := data[from..];
    assert rest[..n] == data[from..from + n];
    assert rest[n..] == data[from + n..];
  }

  function Flatten(cs: seq<seq<byte>>): seq<byte>
  {
    if |cs| == 0 then [] else cs[0] + Flatten(cs[1..])
  }

  predicate AllZero(s: seq<byte>)
  {
    forall i :: 0 <= i < |s| ==> s[i] == 0
  }

  predicate SomeChunkZero(cs: seq<seq<byte>>)
  {
    exists i :: 0 <= i < |cs| && AllZero(cs[i])
  }

  /** The verdict of `isTornEntry`: only the last remaining segment can hold
      a torn write, and it does when some sector piece of the frame's bytes,
      which start right after the header, is all zero. */
  predicate IsTorn(readers: nat, lastValidOff: nat, data: seq<byte>)
  {
    readers == 1 && SomeChunkZero(Chunks(lastValidOff + WalFrame.FrameSizeBytes, data))
  }

  /** Reference definition: every byte of data that lies in the same file
      sector as byte i is zero. */
  predicate SectorZero(fileOff: nat, data: seq<byte>, i: nat)
  {
    forall j :: 0 <= j < |data| && (fileOff + j) / MinSectorSize == (fileOff + i) / MinSectorSize ==> data[j] == 0
  }

  /** The pieces concatenate back to data, none is empty and none is longer
      than a sector. */
  lemma {:induction false} ChunksPartition(fileOff: nat, data: seq<byte>)
    ensures Flatten(Chunks(fileOff, data)) == data
    ensures forall c :: c in Chunks(fileOff, data) ==> 0 < |c| <= MinSectorSize
    decreases |data|
  {
    if |data| > 0 {
      var n := Min(MinSectorSize - fileOff % MinSectorSize, |data|);
      ChunksPartition(fileOff + n, data[n..]);
      var cs := Chunks(fileOff, data);
      assert cs[1..] == Chunks(fileOff + n, data[n..]);
      assert data[..n] + data[n..] == data;
    }
  }

  /** No piece crosses a sector boundary, and every piece but the first
      starts on one. */
  lemma {:induction false} ChunksAligned(fileOff: nat, data: seq<byte>, i: nat)
    requires i < |Chunks(fileOff, data)|
    ensures var start := fileOff + |Flatten(Chunks(fileOff, data)[..i])|;
      && (i > 0 ==> start % MinSectorSize == 0)
      && start % MinSectorSize + |Chunks(fileOff, data)[i]| <= MinSectorSize
    decreases |data|
  {
    var cs := Chunks(fileOff, data);
    var n := Min(MinSectorSize - fileOff % MinSectorSize, |data|);
    if i > 0 {
      var rest := Chunks(fileOff + n, data[n..]);
      assert cs[1..] == rest;
      assert |data[n..]| > 0;
      assert n == MinSectorSize - fileOff % MinSectorSize;
      ChunksAligned(fileOff + n, data[n..], i - 1);
      assert cs[..i] == [cs[0]] + rest[..i - 1];
      FlattenCons(cs[0], rest[..i - 1]);
      assert |cs[0]| == n;
      EndOfSector(fileOff, n);
    }
  }

  lemma FlattenCons(c: seq<byte>, cs: seq<seq<byte>>)
    ensures Flatten([c] + cs) == c + Flatten(cs)
  {
    assert ([c] + cs)[1..] == cs;
  }

  lemma EndOfSector(fileOff: nat, n: nat)
    requires n == MinSectorSize - fileOff % MinSectorSize
    ensures (fileOff + n) % MinSectorSize == 0
  {
    var q := fileOff / MinSectorSize;
    assert fileOff + n == (q + 1) * MinSectorSize;
  }

  lemma SameSectorInFirstChunk(fileOff: nat, n: nat, j: nat, i: nat)
    requires n <= MinSectorSize - fileOff % MinSectorSize
    requires j < n && i < n
    ensures (fileOff + j) / MinSectorSize == (fileOff + i) / MinSectorSize
  {
    var q, r := fileOff / MinSectorSize, fileOff % MinSectorSize;
    assert fileOff + j == q * MinSectorSize + (r + j);
    assert fileOff + i == q * MinSectorSize + (r + i);
  }

  lemma LaterSectorAfterFirstChunk(fileOff: nat, j: nat, i: nat)
    requires j < MinSectorSize - fileOff % MinSectorSize <= i
    ensures (fileOff + j) / MinSectorSize < (fileOff + i) / MinSectorSize
  {
    var q, r := fileOff / MinSectorSize, fileOff % MinSectorSize;
    assert fileOff + j == q * MinSectorSize + (r + j);
    assert fileOff + i >= (q + 1) * MinSectorSize;
  }

  /** A byte of the first piece sees a zero sector exactly when the whole
      first piece is zero. */
  lemma FirstPieceSector(fileOff: nat, data: seq<byte>, n: nat, i: nat)
    requires n == Min(MinSectorSize - fileOff % MinSectorSize, |data|) && i < n
    ensures SectorZero(fileOff, data, i) <==> AllZero(data[..n])
  {
    var first := data[..n];
    if AllZero(first) {
      forall j | 0 <= j < |data| && (fileOff + j) / MinSectorSize == (fileOff + i) / MinSectorSize
        ensures data[j] == 0
      {
        if j >= n {
          LaterSectorAfterFirstChunk(fileOff, i, j);
        }
        assert first[j] == data[j];
      }
    }
    if SectorZero(fileOff, data, i) {
      forall j | 0 <= j < n ensures first[j] == 0 {
        SameSectorInFirstChunk(fileOff, n, j, i);
      }
    }
  }

  /** A byte past the first piece sees the same sector in the rest. */
  lemma LaterPieceSector(fileOff: nat, data: seq<byte>, n: nat, i: nat)
    requires n == Min(MinSectorSize - fileOff % MinSectorSize, |data|) && n <= i < |data|
    ensures SectorZero(fileOff, data, i) <==> SectorZero(fileOff + n, data[n..], i - n)
  {
    var rest := data[n..];
    if SectorZero(fileOff + n, rest, i - n) {
      forall j | 0 <= j < |data| && (fileOff + j) / MinSectorSize == (fileOff + i) / MinSectorSize
        ensures data[j] == 0
      {
        if j < n {
          LaterSectorAfterFirstChunk(fileOff, j, i);
        } else {
          assert rest[j - n] == data[j];
        }
      }
    }
    if SectorZero(fileOff, data, i) {
      forall j | 0 <= j < |rest| && (fileOff + n + j) / MinSectorSize == (fileOff + n + (i - n)) / MinSectorSize
        ensures rest[j] == 0
      {
        assert rest[j] == data[n + j];
      }
    }
  }

  /** The pieces' verdict agrees with the reference definition: some piece
      is all zero exactly when some byte's whole sector (within data) is. */
  lemma {:induction false} SomeChunkZeroIffSectorZero(fileOff: nat, data: seq<byte>)
    ensures SomeChunkZero(Chunks(fileOff, data)) <==> exists i :: 0 <= i < |data| && SectorZero(fileOff, data, i)
    decreases |data|
  {
    if |data| > 0 {
      var n := Min(MinSectorSize - fileOff % MinSectorSize, |data|);
      var rest := data[n..];
      var cs := Chunks(fileOff, data);
      assert cs[0] == data[..n] && cs[1..] == Chunks(fileOff + n, rest);
      SomeChunkZeroIffSectorZero(fileOff + n, rest);
      if SomeChunkZero(cs) {
        var k :| 0 <= k < |cs| && AllZero(cs[k]);
        if k == 0 {
          FirstPieceSector(fileOff, data, n, 0);
        } else {
          assert cs[1..][k - 1] == cs[k];
          var i' :| 0 <= i' < |rest| && SectorZero(fileOff + n, rest, i');
          LaterPieceSector(fileOff, data, n, n + i');
        }
      }
      if exists i :: 0 <= i < |data| && SectorZero(fileOff, data, i) {
        var i :| 0 <= i < |data| && SectorZero(fileOff, data, i);
        if i < n {
          FirstPieceSector(fileOff, data, n, i);
        } else {
          LaterPieceSector(fileOff, data, n, i);
          var k :| 0 <= k < |cs[1..]| && AllZero(cs[1..][k]);
          assert AllZero(cs[k + 1]);
        }
      }
    }
  }

  /** Nothing to inspect means no torn write, and corruption in a segment
      that is not the last one is never a torn write. */
  lemma TornNeedsOneReaderAndData(readers: nat, lastValidOff: nat, data: seq<byte>)
    ensures IsTorn(readers, lastValidOff, data) ==> readers == 1 && |data| > 0
  {
  }
}
