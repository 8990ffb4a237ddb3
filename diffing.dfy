/**
 * The diff engine's object: the chunk size, the two file sizes it records,
 * and the operations that fingerprint a baseline file, diff a target file
 * against the fingerprints, and fill the gaps of the resulting delta map.
 * Each loop is proved against the specification functions of the modules
 * Fingerprinter, Aligner and Delta. A file is given as its contents, or None
 * when it cannot be opened or read.
 */
module Diffing {
  import opened Delta
  import opened Fingerprinter
  import opened Aligner

  class Common {
    const chunkSize: ChunkSize
    var file1Size: nat
    var file2Size: nat

    constructor (chunkSize: ChunkSize)
      ensures this.chunkSize == chunkSize && file1Size == 0 && file2Size == 0
    {
      this.chunkSize := chunkSize;
      file1Size := 0;
      file2Size := 0;
    }

    /**
     * A file of `fSize` bytes is accepted when cutting it into chunks of
     * `chunkSize` bytes (the last one possibly shorter) gives at least two.
     */
    function HasAtLeast2Chunks(fSize: nat): (r: bool)
      ensures r <==> (fSize + chunkSize - 1) / chunkSize >= 2
    {
      var ok := chunkSize <= fSize - 1;
      CeilAtLeast2(fSize, chunkSize);
      ok
    }

    /**
     * The fingerprint list of the baseline file: None when the file cannot be
     * read or is too small, otherwise one fingerprint per full chunk followed
     * by the fingerprint of the remainder. Records the file's size on success.
     */
    method FileToChunkHashList(file: Option<seq<u8>>, hash: Hasher) returns (r: Option<seq<u128>>)
      modifies this
      ensures r == if file.Some? && HasAtLeast2Chunks(|file.value|)
                   then Some(Fingerprints(file.value, chunkSize, hash)) else None
      ensures file1Size == if r.Some? then |file.value| else old(file1Size)
      ensures file2Size == old(file2Size)
    {
      if file.None? {
        return None;
      }
      var data := file.value;
      if !HasAtLeast2Chunks(|data|) {
        return None;
      }
      file1Size := |data|;
      var hashList: seq<u128> := [];
      var dataBuf: seq<u8> := [];
      var i := 0;
      ghost var start := 0;
      while i < |data|
        invariant start <= i <= |data|
        invariant dataBuf == data[start..i] && |dataBuf| < chunkSize
        invariant hashList + Fingerprints(data[start..], chunkSize, hash) == Fingerprints(data, chunkSize, hash)
        invariant file1Size == |data| && file2Size == old(file2Size)
      {
        assert data[start..i + 1] == dataBuf + [data[i]];
        dataBuf := dataBuf + [data[i]];
        i := i + 1;
        if |dataBuf| == chunkSize {
          ChunkBoundary(data, start, chunkSize, hash, hashList);
          hashList := hashList + [hash(dataBuf)];
          dataBuf := [];
          start := i;
        }
      }
      assert data[start..] == dataBuf;
      hashList := hashList + [hash(dataBuf)];
      return Some(hashList);
    }

    /** The position index of a fingerprint list, built by inserting each fingerprint in order. */
    static method HashListToPositionMap(hashList: seq<u128>) returns (positionMap: map<u128, nat>)
      ensures positionMap == PositionIndex(hashList)
    {
      positionMap := map[];
      var i := 0;
      while i < |hashList|
        invariant i <= |hashList|
        invariant positionMap == PositionIndex(hashList[..i])
      {
        assert hashList[..i + 1][..i] == hashList[..i];
        positionMap := positionMap[hashList[i] := i];
        i := i + 1;
      }
      assert hashList[..i] == hashList;
    }

    /**
     * The delta map completed for a baseline of `|hashList|` chunks: entries
     * already present are kept, every missing index gets an absent entry.
     */
    method TryFillMissingChunks(hashList: seq<u128>, deltas: DeltaMap) returns (filled: DeltaMap)
      ensures filled == FillGaps(deltas, |hashList|, chunkSize)
    {
      filled := deltas;
      for i := 0 to |hashList|
        invariant filled == FillGaps(deltas, i, chunkSize)
      {
        FillGapsStep(deltas, i, chunkSize);
        if i !in filled {
          filled := filled[i := Absent(i, chunkSize)];
        }
      }
    }

    /**
     * The delta of a target file against a baseline's fingerprint list: None
     * when the file cannot be read or is too small; otherwise the delta map the
     * scan builds, completed by the gap filler, whose keys are exactly the
     * baseline's chunk indices. Records the file's size on success.
     */
    method Diff(hashList: seq<u128>, file: Option<seq<u8>>, hash: Hasher) returns (r: Option<DeltaMap>)
      modifies this
      ensures r == if file.Some? && HasAtLeast2Chunks(|file.value|)
                   then Some(FillGaps(Run(file.value, PositionIndex(hashList), chunkSize, hash).delta,
                                      |hashList|, chunkSize))
                   else None
      ensures r.Some? ==> r.value.Keys == Indices(|hashList|)
      ensures file2Size == if r.Some? then |file.value| else old(file2Size)
      ensures file1Size == old(file1Size)
    {
      if file.None? {
        return None;
      }
      var data := file.value;
      if !HasAtLeast2Chunks(|data|) {
        return None;
      }
      file2Size := |data|;
      var deltaMap: DeltaMap := map[];
      var problemBytes: seq<u8> := [];
      var dataBuf: seq<u8> := [];
      var positionMap := HashListToPositionMap(hashList);
      var i := 0;
      while i < |data|
        invariant 0 <= i <= |data|
        invariant ScanState(dataBuf, problemBytes, deltaMap) == Run(data[..i], positionMap, chunkSize, hash)
        invariant file2Size == |data| && file1Size == old(file1Size)
      {
        var b := data[i];
        ghost var before := ScanState(dataBuf, problemBytes, deltaMap);
        assert data[..i + 1] == data[..i] + [b];
        assert Run(data[..i + 1], positionMap, chunkSize, hash) == Step(before, b, positionMap, chunkSize, hash);
        i := i + 1;
        dataBuf := dataBuf + [b];
        if |dataBuf| < chunkSize {
          continue;
        }
        if |dataBuf| == chunkSize + 1 {
          problemBytes := problemBytes + [dataBuf[0]];
          dataBuf := dataBuf[1..];
        }
        var h := hash(dataBuf);
        if h in positionMap {
          var pos := positionMap[h];
          deltaMap := deltaMap[pos := NewChunk(pos, problemBytes, chunkSize, true)];
          dataBuf := [];
          problemBytes := [];
        }
      }
      assert data[..i] == data;
      DeltaKeysBelow(data, hashList, chunkSize, hash);
      var filled := TryFillMissingChunks(hashList, deltaMap);
      FillGapsExactKeys(deltaMap, |hashList|, chunkSize);
      return Some(filled);
    }
  }

  /**
   * A full chunk at `from` contributes its fingerprint, then the
   * fingerprinting goes on after it: appending that fingerprint to the list
   * made so far keeps the byte loop's invariant.
   */
  lemma ChunkBoundary(d: seq<u8>, from: nat, c: ChunkSize, hash: Hasher, made: seq<u128>)
    requires from + c <= |d|
    requires made + Fingerprints(d[from..], c, hash) == Fingerprints(d, c, hash)
    ensures (made + [hash(d[from..from + c])]) + Fingerprints(d[from + c..], c, hash) == Fingerprints(d, c, hash)
  {
    var rest := d[from..];
    assert rest[..c] == d[from..from + c];
    assert rest[c..] == d[from + c..];
    assert Fingerprints(rest, c, hash) == [hash(d[from..from + c])] + Fingerprints(d[from + c..], c, hash);
  }

  /** Ceiling division by `c` gives at least two exactly when `n >= c + 1`. */
  lemma CeilAtLeast2(n: nat, c: ChunkSize)
    ensures (n + c - 1) / c >= 2 <==> n >= c + 1
  {
    var q, r := (n + c - 1) / c, (n + c - 1) % c;
    assert n + c - 1 == q * c + r && 0 <= r < c;
    if n >= c + 1 {
      if q <= 1 {
        MulAtMost(q, c);
      }
    } else if q >= 2 {
      MulAtLeast(q, c);
      assert q * c == (q - 1) * c + c;
      MulAtLeast(q - 1, c);
    }
  }

  lemma MulAtMost(q: int, c: nat)
    requires q <= 1
    ensures q * c <= c
  {
    assert c - q * c == (1 - q) * c;
  }

  /** Every index the scan writes is an index of the fingerprint list. */
  lemma DeltaKeysBelow(d: seq<u8>, hl: seq<u128>, c: ChunkSize, hash: Hasher)
    ensures forall p :: p in Run(d, PositionIndex(hl), c, hash).delta ==> p < |hl|
  {
    var pm := PositionIndex(hl);
    var T := TraceFrom(Start, d, pm, c, hash);
    ScanDelta(Start, d, pm, c, hash);
    ScanHitsMatch(Start, d, pm, c, hash);
    forall p | p in Run(d, pm, c, hash).delta
      ensures p < |hl|
    {
      RecordKeys(map[], T, c, p);
      var k :| 0 <= k < |T| && T[k].pos == p;
      assert T[k] in T;
    }
  }
}
