/**
 * Properties of a whole diff: the fingerprint list of a baseline, the scan of
 * a target against it, and the gap filler, taken together. `DeltaOf` is the
 * delta map `Common.Diff` returns for a target that passes the size check.
 */
module Properties {
  import opened Delta
  import opened Fingerprinter
  import opened Aligner

  /**
   * The delta map of target `d` against fingerprint list `hl`, after gap
   * filling: every index of the list has an entry, and an entry that is not
   * present is the filler's empty one.
   */
  function DeltaOf(hl: seq<u128>, d: seq<u8>, c: ChunkSize, hash: Hasher): (r: DeltaMap)
    ensures Indices(|hl|) <= r.Keys
    ensures forall k :: k in r ==> r[k].isPresent || r[k] == Absent(k, c)
  {
    FillGaps(Run(d, PositionIndex(hl), c, hash).delta, |hl|, c)
  }

  /**
   * The scan of a target from the start: the window never exceeds `c` bytes;
   * the target is, in order, the hits' problem bytes and windows followed by
   * the bytes left in the buffers at the end (which no entry records); and
   * every hit matched a `c`-byte window whose fingerprint is the fingerprint
   * list's entry at the hit's index.
   */
  lemma ScanFromStart(hl: seq<u128>, d: seq<u8>, c: ChunkSize, hash: Hasher)
    ensures |Run(d, PositionIndex(hl), c, hash).window| <= c
    ensures d == Flatten(Trace(d, PositionIndex(hl), c, hash)) +
                 (Run(d, PositionIndex(hl), c, hash).problem + Run(d, PositionIndex(hl), c, hash).window)
    ensures forall h :: h in Trace(d, PositionIndex(hl), c, hash) ==>
              h.pos < |hl| && |h.window| == c && hl[h.pos] == hash(h.window)
  {
    var pm := PositionIndex(hl);
    ScanWindowBound(Start, d, pm, c, hash);
    ScanConservation(Start, d, pm, c, hash);
    assert Start.problem + Start.window + d == d;
    ScanHitsMatch(Start, d, pm, c, hash);
    forall h | h in Trace(d, pm, c, hash)
      ensures h.pos < |hl| && |h.window| == c && hl[h.pos] == hash(h.window)
    {
      PositionIndexLastWins(hl, hash(h.window));
    }
  }

  /**
   * Each entry of the final delta map: for an index some hit found, the
   * present entry written by the last such hit, carrying that hit's problem
   * bytes; for any other index of the fingerprint list, an absent entry
   * without problem bytes.
   */
  lemma DiffEntry(hl: seq<u128>, d: seq<u8>, c: ChunkSize, hash: Hasher, i: nat)
    requires i < |hl|
    ensures i in DeltaOf(hl, d, c, hash)
    ensures forall k :: 0 <= k < |Trace(d, PositionIndex(hl), c, hash)| &&
                        Trace(d, PositionIndex(hl), c, hash)[k].pos == i &&
                        (forall j :: k < j < |Trace(d, PositionIndex(hl), c, hash)| ==>
                                     Trace(d, PositionIndex(hl), c, hash)[j].pos != i) ==>
              DeltaOf(hl, d, c, hash)[i] == NewChunk(i, Trace(d, PositionIndex(hl), c, hash)[k].problem, c, true)
    ensures (forall k :: 0 <= k < |Trace(d, PositionIndex(hl), c, hash)| ==>
                         Trace(d, PositionIndex(hl), c, hash)[k].pos != i) ==>
              DeltaOf(hl, d, c, hash)[i] == Absent(i, c)
  {
    var pm := PositionIndex(hl);
    var T := Trace(d, pm, c, hash);
    ScanDelta(Start, d, pm, c, hash);
    RecordKeys(map[], T, c, i);
    forall k | 0 <= k < |T| && T[k].pos == i && (forall j :: k < j < |T| ==> T[j].pos != i)
      ensures DeltaOf(hl, d, c, hash)[i] == NewChunk(i, T[k].problem, c, true)
    {
      RecordLastHitWins(map[], T, c, k);
    }
  }

  /**
   * When two baseline chunks share a fingerprint, the earlier one is never
   * found: its entry in the final delta map is always absent.
   */
  lemma EarlierDuplicateNeverMatched(hl: seq<u128>, d: seq<u8>, c: ChunkSize, hash: Hasher, i: nat, j: nat)
    requires i < j < |hl| && hl[i] == hl[j]
    ensures DeltaOf(hl, d, c, hash)[i] == Absent(i, c)
  {
    var pm := PositionIndex(hl);
    var T := Trace(d, pm, c, hash);
    ScanHitsMatch(Start, d, pm, c, hash);
    forall k | 0 <= k < |T|
      ensures T[k].pos != i
    {
      assert T[k] in T;
      PositionIndexLastWins(hl, hash(T[k].window));
    }
    DiffEntry(hl, d, c, hash, i);
  }

  /**
   * The last fingerprint of a baseline covers fewer than `c` bytes, while
   * the scan only fingerprints windows of exactly `c` bytes: the last chunk is
   * reported present only when some other byte sequence has the same
   * fingerprint.
   */
  lemma LastChunkOnlyByCollision(base: seq<u8>, d: seq<u8>, c: ChunkSize, hash: Hasher)
    ensures var n := |base| / c;
            n * c <= |base| &&
            (DeltaOf(Fingerprints(base, c, hash), d, c, hash)[n].isPresent ==>
               exists w: seq<u8> :: |w| == c && w != base[n * c..] && hash(w) == hash(base[n * c..]))
  {
    var hl := Fingerprints(base, c, hash);
    var n := |base| / c;
    var pm := PositionIndex(hl);
    var T := Trace(d, pm, c, hash);
    FingerprintAt(base, c, hash, n);
    DiffEntry(hl, d, c, hash, n);
    if DeltaOf(hl, d, c, hash)[n].isPresent {
      var k :| 0 <= k < |T| && T[k].pos == n;
      ScanFromStart(hl, d, c, hash);
      assert T[k] in T;
      var w := T[k].window;
      assert |w| == c && hash(w) == hl[n];
    }
  }

  /** `m` with the `n` entries `a .. a+n-1` marked present, without problem bytes, in increasing order. */
  function MarkPresent(m: DeltaMap, a: nat, n: nat, c: nat): (r: DeltaMap)
    ensures forall i :: i in r <==> i in m || a <= i < a + n
    ensures forall i: nat :: a <= i < a + n ==> r[i] == NewChunk(i, [], c, true)
    ensures forall i :: i in m && !(a <= i < a + n) ==> r[i] == m[i]
    decreases n
  {
    if n == 0 then m else MarkPresent(m[a := NewChunk(a, [], c, true)], a + 1, n - 1, c)
  }

  /** A file made of whole chunks, in order. */
  function Concat(chunks: seq<seq<u8>>): seq<u8>
  {
    if chunks == [] then [] else chunks[0] + Concat(chunks[1..])
  }

  /** Every chunk has exactly `c` bytes. */
  predicate WholeChunks(chunks: seq<seq<u8>>, c: nat)
  {
    forall i :: 0 <= i < |chunks| ==> |chunks[i]| == c
  }

  /**
   * The fingerprint list of a file made of whole chunks: the chunks'
   * fingerprints in order, then the fingerprint of the empty remainder.
   */
  lemma {:induction false} FingerprintsOfWholeChunks(chunks: seq<seq<u8>>, c: ChunkSize, hash: Hasher)
    requires WholeChunks(chunks, c)
    ensures |Fingerprints(Concat(chunks), c, hash)| == |chunks| + 1
    ensures forall i :: 0 <= i < |chunks| ==> Fingerprints(Concat(chunks), c, hash)[i] == hash(chunks[i])
    ensures Fingerprints(Concat(chunks), c, hash)[|chunks|] == hash([])
  {
    if chunks != [] {
      var rest := chunks[1..];
      FingerprintsOfWholeChunks(rest, c, hash);
      var d := Concat(chunks);
      assert d == chunks[0] + Concat(rest);
      assert d[..c] == chunks[0] && d[c..] == Concat(rest);
      assert Fingerprints(d, c, hash) == [hash(chunks[0])] + Fingerprints(Concat(rest), c, hash);
    }
  }

  /** Bytes that leave the window shorter than `c` are only accumulated. */
  lemma {:induction false} Accumulate(s: ScanState, w: seq<u8>, pm: map<u128, nat>, c: ChunkSize, hash: Hasher)
    requires |s.window| + |w| < c
    ensures RunFrom(s, w, pm, c, hash) == ScanState(s.window + w, s.problem, s.delta)
    decreases |w|
  {
    if w == [] {
      assert s.window + w == s.window;
    } else {
      var w' := w[..|w| - 1];
      Accumulate(s, w', pm, c, hash);
      assert s.window + w' + [w[|w| - 1]] == s.window + w;
    }
  }

  /** From an empty window, the first `c` bytes are fingerprinted together, once. */
  lemma FillWindow(s: ScanState, w: seq<u8>, pm: map<u128, nat>, c: ChunkSize, hash: Hasher)
    requires s.window == [] && |w| == c
    ensures RunFrom(s, w, pm, c, hash) ==
            if hash(w) in pm
            then ScanState([], [], s.delta[pm[hash(w)] := NewChunk(pm[hash(w)], s.problem, c, true)])
            else ScanState(w, s.problem, s.delta)
  {
    var w', b := w[..c - 1], w[c - 1];
    assert [] + w' == w';
    assert w[..|w| - 1] == w';
    assert w' + [b] == w;
    Accumulate(s, w', pm, c, hash);
    var s' := ScanState(w', s.problem, s.delta);
    assert RunFrom(s, w, pm, c, hash) == Step(s', b, pm, c, hash);
    assert Slide(s', b, c) == ScanState(w, s.problem, s.delta);
  }

  /**
   * Reading whole chunks from empty buffers, when the position index maps
   * the fingerprint of the `i`-th of them to `a + i`: each chunk is found at
   * once and recorded present without problem bytes.
   */
  lemma {:induction false} AlignedChunks(chunks: seq<seq<u8>>, pm: map<u128, nat>, c: ChunkSize, hash: Hasher,
                                         m: DeltaMap, a: nat)
    requires WholeChunks(chunks, c)
    requires forall i :: 0 <= i < |chunks| ==> hash(chunks[i]) in pm && pm[hash(chunks[i])] == a + i
    ensures RunFrom(ScanState([], [], m), Concat(chunks), pm, c, hash) ==
            ScanState([], [], MarkPresent(m, a, |chunks|, c))
    decreases |chunks|
  {
    if chunks == [] {
      assert Concat(chunks) == [];
    } else {
      IndexedFrom(chunks, pm, c, hash, a);
      AlignedChunks(chunks[1..], pm, c, hash, m[a := NewChunk(a, [], c, true)], a + 1);
      AlignedStep(chunks, pm, c, hash, m, a);
    }
  }

  /**
   * The tail of a list of whole chunks is one too, and when the index maps
   * chunk `i` to `a + i`, it maps chunk `i` of the tail to `a + 1 + i`.
   */
  lemma IndexedFrom(chunks: seq<seq<u8>>, pm: map<u128, nat>, c: nat, hash: Hasher, a: nat)
    requires chunks != [] && WholeChunks(chunks, c)
    requires forall i :: 0 <= i < |chunks| ==> hash(chunks[i]) in pm && pm[hash(chunks[i])] == a + i
    ensures WholeChunks(chunks[1..], c)
    ensures forall i :: 0 <= i < |chunks| - 1 ==> hash(chunks[1..][i]) in pm && pm[hash(chunks[1..][i])] == a + 1 + i
  {
    forall i | 0 <= i < |chunks| - 1
      ensures |chunks[1..][i]| == c && hash(chunks[1..][i]) in pm && pm[hash(chunks[1..][i])] == a + 1 + i
    {
      assert chunks[1..][i] == chunks[i + 1];
    }
  }

  /** One chunk of `AlignedChunks`: once the first chunk is found, the claim for the rest gives the claim for all. */
  lemma AlignedStep(chunks: seq<seq<u8>>, pm: map<u128, nat>, c: ChunkSize, hash: Hasher, m: DeltaMap, a: nat)
    requires WholeChunks(chunks, c) && chunks != []
    requires hash(chunks[0]) in pm && pm[hash(chunks[0])] == a
    requires RunFrom(ScanState([], [], m[a := NewChunk(a, [], c, true)]), Concat(chunks[1..]), pm, c, hash) ==
             ScanState([], [], MarkPresent(m[a := NewChunk(a, [], c, true)], a + 1, |chunks[1..]|, c))
    ensures RunFrom(ScanState([], [], m), Concat(chunks), pm, c, hash) ==
            ScanState([], [], MarkPresent(m, a, |chunks|, c))
  {
    FirstChunkFound(chunks, pm, c, hash, m, a);
  }

  /** The first of the whole chunks is found at once, leaving empty buffers for the rest. */
  lemma FirstChunkFound(chunks: seq<seq<u8>>, pm: map<u128, nat>, c: ChunkSize, hash: Hasher, m: DeltaMap, a: nat)
    requires WholeChunks(chunks, c) && chunks != []
    requires hash(chunks[0]) in pm && pm[hash(chunks[0])] == a
    ensures WholeChunks(chunks[1..], c)
    ensures RunFrom(ScanState([], [], m), Concat(chunks), pm, c, hash) ==
            RunFrom(ScanState([], [], m[a := NewChunk(a, [], c, true)]), Concat(chunks[1..]), pm, c, hash)
  {
    var first, rest := chunks[0], chunks[1..];
    FillWindow(ScanState([], [], m), first, pm, c, hash);
    assert Concat(chunks) == first + Concat(rest);
    RunFromAppend(ScanState([], [], m), first, Concat(rest), pm, c, hash);
  }

  /**
   * Diffing a file made of whole chunks against its own fingerprint list,
   * when its fingerprints are pairwise distinct: every chunk is present
   * without problem bytes, and the last index (the fingerprint of the empty
   * remainder, which no `c`-byte window can hit) is absent.
   */
  lemma IdentityDiff(chunks: seq<seq<u8>>, c: ChunkSize, hash: Hasher)
    requires WholeChunks(chunks, c)
    requires Distinct(Fingerprints(Concat(chunks), c, hash))
    ensures var r := DeltaOf(Fingerprints(Concat(chunks), c, hash), Concat(chunks), c, hash);
            var n := |chunks|;
            r.Keys == Indices(n + 1) &&
            (forall i: nat :: i < n ==> r[i] == NewChunk(i, [], c, true)) &&
            r[n] == Absent(n, c)
  {
    var d := Concat(chunks);
    var hl := Fingerprints(d, c, hash);
    var pm := PositionIndex(hl);
    var n := |chunks|;
    FingerprintsOfWholeChunks(chunks, c, hash);
    OwnIndex(chunks, c, hash);
    AlignedChunks(chunks, pm, c, hash, map[], 0);
    CompleteMarked(Run(d, pm, c, hash).delta, map[], 0, n, n, |hl|, c);
  }

  /**
   * Filling the gaps of `delta`, the map `m` with the `k` entries from `a`
   * marked present, where the keys of `m` are below `a`, for a baseline of
   * `len == n + 1` chunks with `n == a + k`: the keys are all the indices, the
   * marked and earlier entries are kept, and the last index is absent.
   */
  lemma CompleteMarked(delta: DeltaMap, m: DeltaMap, a: nat, k: nat, n: nat, len: nat, c: nat)
    requires delta == MarkPresent(m, a, k, c)
    requires forall i :: i in m ==> i < a
    requires a + k == n && len == n + 1
    ensures var r := FillGaps(delta, len, c);
            r.Keys == Indices(n + 1) &&
            (forall i :: i in m ==> r[i] == m[i]) &&
            (forall i: nat :: a <= i < n ==> r[i] == NewChunk(i, [], c, true)) &&
            r[n] == Absent(n, c)
  {
    FillGapsExactKeys(delta, len, c);
  }

  /**
   * Resynchronisation after one garbage byte: a target made of one byte `x`
   * followed by a file of whole chunks with pairwise distinct fingerprints,
   * where the first window (`x` and the first `c - 1` bytes) matches nothing.
   * The byte `x` is evicted into the problem bytes of chunk 0, every chunk is
   * found, the later ones without problem bytes, and the last index is absent.
   */
  lemma ResyncAfterGarbageByte(x: u8, chunks: seq<seq<u8>>, c: ChunkSize, hash: Hasher)
    requires WholeChunks(chunks, c) && |chunks| >= 1
    requires Distinct(Fingerprints(Concat(chunks), c, hash))
    requires hash([x] + chunks[0][..c - 1]) !in Fingerprints(Concat(chunks), c, hash)
    ensures var r := DeltaOf(Fingerprints(Concat(chunks), c, hash), [x] + Concat(chunks), c, hash);
            var n := |chunks|;
            r.Keys == Indices(n + 1) &&
            r[0] == NewChunk(0, [x], c, true) &&
            (forall i: nat :: 1 <= i < n ==> r[i] == NewChunk(i, [], c, true)) &&
            r[n] == Absent(n, c)
  {
    var d := Concat(chunks);
    var hl := Fingerprints(d, c, hash);
    var pm := PositionIndex(hl);
    var n := |chunks|;
    FingerprintsOfWholeChunks(chunks, c, hash);
    OwnIndex(chunks, c, hash);
    ResyncScan(x, chunks, pm, c, hash);
    var m0 := map[0 := NewChunk(0, [x], c, true)];
    CompleteMarked(Run([x] + d, pm, c, hash).delta, m0, 1, n - 1, n, |hl|, c);
  }

  /** With pairwise distinct fingerprints, the position index of a file of whole chunks maps each chunk to its index. */
  lemma OwnIndex(chunks: seq<seq<u8>>, c: ChunkSize, hash: Hasher)
    requires WholeChunks(chunks, c)
    requires Distinct(Fingerprints(Concat(chunks), c, hash))
    ensures forall i :: 0 <= i < |chunks| ==>
              hash(chunks[i]) in PositionIndex(Fingerprints(Concat(chunks), c, hash)) &&
              PositionIndex(Fingerprints(Concat(chunks), c, hash))[hash(chunks[i])] == i
  {
    var hl := Fingerprints(Concat(chunks), c, hash);
    FingerprintsOfWholeChunks(chunks, c, hash);
    forall i | 0 <= i < |chunks|
      ensures hash(chunks[i]) in PositionIndex(hl) && PositionIndex(hl)[hash(chunks[i])] == i
    {
      PositionOfDistinct(hl, i);
    }
  }

  /**
   * The scan part of the resynchronisation, for an index that maps chunk `i`
   * to `i` and misses the first window: `x` goes to chunk 0 as its problem
   * bytes, the other chunks are found without problem bytes.
   */
  lemma ResyncScan(x: u8, chunks: seq<seq<u8>>, pm: map<u128, nat>, c: ChunkSize, hash: Hasher)
    requires WholeChunks(chunks, c) && |chunks| >= 1
    requires forall i :: 0 <= i < |chunks| ==> hash(chunks[i]) in pm && pm[hash(chunks[i])] == i
    requires hash([x] + chunks[0][..c - 1]) !in pm
    ensures Run([x] + Concat(chunks), pm, c, hash).delta ==
            MarkPresent(map[0 := NewChunk(0, [x], c, true)], 1, |chunks| - 1, c)
  {
    var first, rest := chunks[0], chunks[1..];
    assert Concat(chunks) == first + Concat(rest);
    assert [x] + (first + Concat(rest)) == ([x] + first) + Concat(rest);
    var m0 := map[0 := NewChunk(0, [x], c, true)];
    GarbageThenChunk(x, first, pm, c, hash);
    IndexedFrom(chunks, pm, c, hash, 0);
    AlignedChunks(rest, pm, c, hash, m0, 1);
    RunFromAppend(Start, [x] + first, Concat(rest), pm, c, hash);
  }

  /**
   * A garbage byte `x` before a chunk that the index maps to 0, when the first
   * window misses: `x` is evicted and the chunk is recorded with `x` as its
   * problem bytes.
   */
  lemma GarbageThenChunk(x: u8, first: seq<u8>, pm: map<u128, nat>, c: ChunkSize, hash: Hasher)
    requires |first| == c
    requires hash([x] + first[..c - 1]) !in pm
    requires hash(first) in pm && pm[hash(first)] == 0
    ensures RunFrom(Start, [x] + first, pm, c, hash) == ScanState([], [], map[0 := NewChunk(0, [x], c, true)])
  {
    var w0 := [x] + first[..c - 1];
    var b := first[c - 1];
    var whole := [x] + first;
    assert whole == w0 + [b] by {
      assert first[..c - 1] + [b] == first;
    }
    assert whole[..|whole| - 1] == w0 && whole[|whole| - 1] == b;
    FillWindow(Start, w0, pm, c, hash);
    var s1 := ScanState(w0, [], map[]);
    assert RunFrom(Start, w0, pm, c, hash) == s1;
    assert RunFrom(Start, whole, pm, c, hash) == Step(s1, b, pm, c, hash);
    assert (w0 + [b])[1..] == first && (w0 + [b])[0] == x;
    assert s1.problem + [x] == [x];
    assert Slide(s1, b, c) == ScanState(first, [x], map[]);
    assert Match(s1, b, pm, c, hash) == Some(Hit(0, [x], first));
  }
}
