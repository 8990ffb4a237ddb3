# rdiff chunk-diff engine in Dafny

This project models the chunk-diff engine of `rdiff` (`src/diffing.rs`) and
proves properties of that model. The engine compares a baseline file with a
target file in four steps:

- **Fingerprinting.** The baseline is cut into chunks of `chunk_size` (C)
  bytes and each chunk is hashed. One more fingerprint is always appended,
  over whatever is left after the last full chunk, even when nothing is left.
- **Position index.** Each fingerprint is mapped to its chunk index.
  Insertion is unconditional, so the last index with a given fingerprint wins.
- **Resynchronising scan.** The target is read byte by byte through a window.
  Once the window holds C + 1 bytes, its oldest byte is evicted into the
  "problem bytes". When a C-byte window's fingerprint is in the index, a
  present entry carrying the problem bytes is written at that index, and both
  buffers are cleared.
- **Gap filler.** Every chunk index without an entry gets an absent entry.

The Dafny modules follow that structure:

- **`Delta`**: the data model and the gap filler. This covers bytes (`u8`),
  128-bit fingerprints (`u128`), `Chunk` and `Chunk::new`, and the delta map.
  The gap filler is `FillGaps`.
- **`Fingerprinter`**: the specification of the fingerprint list
  (`Fingerprints`) and of the position index (`PositionIndex`).
- **`Aligner`**: the scan as a state machine over values.
  - `Step` reads one byte; `RunFrom`/`Run` fold it over the input.
  - `TraceFrom`/`Trace` list the hits in order.
  - `Record` replays the hits' writes into a delta map.
  - Lemmas state the window bound, conservation of the bytes read, what each
    hit matched, and what ends up in the delta map.
- **`Diffing`**: the class `Common`, which holds `chunkSize`, `file1Size` and
  `file2Size`. Its methods are the source's loops, written imperatively, and
  each is proved against the specification functions above.
  - `FileToChunkHashList`: the baseline byte loop.
  - `HashListToPositionMap`: the index loop.
  - `TryFillMissingChunks`: the filler loop.
  - `Diff`: the scan loop followed by the filler.
- **`Properties`**: end-to-end properties of a whole diff.
  - Every final entry is described exactly.
  - An earlier duplicate chunk is never found.
  - The last chunk is found only through a hash collision.
  - Diffing a file against its own fingerprints.
  - Resynchronising after a garbage byte.

The hash `xxh3::hash128_with_seed(_, 0)` is a parameter `hash` of every
operation that hashes. Nothing is assumed about it; in particular it is not
assumed to be injective. Lemmas that need lookups to succeed or fail say so in
their own `requires`: pairwise distinct fingerprints, or a window whose
fingerprint is not in the list. A file is given as `Option<seq<u8>>`, where
`None` stands for a file that cannot be opened or read.

Two consequences of the code are worth stating on their own:

- **Duplicate fingerprints.** Insertion into the position index is
  unconditional, so when several chunks share a fingerprint the highest index
  wins (`Fingerprinter.PositionIndexLastWins`), and an earlier duplicate chunk
  is never reported present (`Properties.EarlierDuplicateNeverMatched`).
- **Identity diff.** The fingerprint list has one more entry than there are
  full chunks: the fingerprint of the (possibly empty) remainder. The scan only
  ever fingerprints C-byte windows, so when a file whose length is a multiple
  of C is diffed against its own pairwise distinct fingerprints, every full
  chunk is present and the extra last index stays absent
  (`Properties.IdentityDiff`); that index can only be found through a hash
  collision (`Properties.LastChunkOnlyByCollision`).

## Model

| member | source | states |
|---|---|---|
| Delta.NewChunk | src/diffing.rs:18-30 | the entry spans exactly `c` bytes and carries the given problem bytes and presence flag |
| Delta.NewChunkOnGrid | src/diffing.rs:18-30 | the entry for chunk `idx` starts at a multiple of `c` whose quotient is `idx`, and ends `c` bytes later |
| Delta.FillGaps | src/diffing.rs:176-194 | after filling, the keys are the old keys plus `0..n-1`; old entries are unchanged; each inserted entry is absent with no problem bytes |
| Delta.FillGapsStep | src/diffing.rs:181-193 | one turn of the filler loop inserts an absent entry at `i` exactly when `i` has none |
| Delta.Absent | src/diffing.rs:183-191 | the entry the filler inserts is not present, has no problem bytes and spans C bytes |
| Delta.FillGapsIdempotent | src/diffing.rs:176-194 | running the filler a second time changes nothing |
| Delta.FillGapsExactKeys | src/diffing.rs:176-194 | when every key is below `n`, the filled map has exactly the keys `0..n-1` |
| Fingerprinter.Fingerprints | src/diffing.rs:230-245 | the fingerprint list of `d` has one entry per full C-byte chunk of `d`, plus one (`len(d) / C + 1`) |
| Fingerprinter.FingerprintAt | src/diffing.rs:230-245 | entry `k` below `len(d) / C` is the fingerprint of bytes `k*C .. k*C+C`; the last entry is the fingerprint of the remainder after the last full chunk, which is shorter than C |
| Fingerprinter.PositionIndex | src/diffing.rs:196-204 | a fingerprint is a key exactly when it occurs in the list, and every index it maps to is below the list's length |
| Fingerprinter.PositionIndexLastWins | src/diffing.rs:196-204 | the index a fingerprint maps to holds that fingerprint, and no later index does (last occurrence wins) |
| Fingerprinter.PositionOfDistinct | src/diffing.rs:196-204 | with pairwise distinct fingerprints, each fingerprint maps back to its own index |
| Aligner.Slide | src/diffing.rs:92-105 | pushing a byte then evicting on overflow gives a scan state whose problem bytes followed by window equal the old ones plus the byte; the problem bytes grow only by the window's first byte; the window stays at most C; the delta map is unchanged |
| Aligner.Probed | src/diffing.rs:95 | the window is looked up only once it reaches C bytes, and then it has exactly C bytes |
| Aligner.Match | src/diffing.rs:107-115 | a hit happens exactly when the C-byte window's fingerprint is in the index; the hit's index is the one the index gives for that fingerprint, and its problem bytes followed by its window are all the bytes buffered |
| Aligner.Step | src/diffing.rs:87-131 | after a hit both buffers are empty; on a miss no byte is lost and the delta map is unchanged; the window never exceeds C |
| Aligner.RunFrom | src/diffing.rs:87-132 | the scan loop from a given state: reading never removes an entry of the delta map and keeps every entry present; the state reached is characterised further by `Aligner.RunFromAppend`, `Aligner.ScanWindowBound`, `Aligner.ScanConservation` and `Aligner.ScanDelta` |
| Aligner.Run | src/diffing.rs:87-132 | the scan loop from empty buffers and an empty delta map: every entry it writes is present; the state reached is characterised by `Properties.ScanFromStart` |
| Aligner.TraceFrom | src/diffing.rs:108-131 | the hits the loop makes, in order: at most one per byte read; which windows they matched is stated by `Aligner.ScanHitsMatch` and `Aligner.ScanConservation` |
| Aligner.Trace | src/diffing.rs:108-131 | the hits of a scan from the start: at most one per byte read |
| Aligner.Record | src/diffing.rs:115-127 | the delta map after each hit's insert, in order: no entry is removed and every hit's index holds a present entry; the exact entries are stated by `Aligner.RecordKeys`, `Aligner.RecordLastHitWins` and `Aligner.RecordUntouched` |
| Aligner.RunFromAppend | src/diffing.rs:87-132 | scanning `a + b` is scanning `a` and then `b` from the state reached |
| Aligner.ScanWindowBound | src/diffing.rs:95-105 | the window never holds more than C bytes |
| Aligner.ScanConservation | src/diffing.rs:87-132 | the bytes read are, in order, each hit's problem bytes and matched window, followed by the problem bytes and window still buffered |
| Aligner.StepConserves | src/diffing.rs:92-131 | one byte read moves into the hit it makes or into the buffers |
| Aligner.ScanHitsMatch | src/diffing.rs:108-117 | every hit matched a window of exactly C bytes whose fingerprint the index maps to the hit's index |
| Aligner.ScanDelta | src/diffing.rs:115-127 | the delta map after a scan is the one the hits write in order, each a present entry with the hit's problem bytes |
| Aligner.RecordKeys | src/diffing.rs:115-127 | an index has an entry exactly when it had one before or some hit wrote it |
| Aligner.RecordLastHitWins | src/diffing.rs:115-127 | the entry of an index is the one its last hit wrote, with that hit's problem bytes |
| Aligner.RecordUntouched | src/diffing.rs:115-127 | an index no hit wrote keeps its previous entry |
| Diffing.Common.constructor | src/diffing.rs:47-55 | a new engine has the given chunk size and both recorded sizes zero |
| Diffing.Common.HasAtLeast2Chunks | src/diffing.rs:253-255 | a file is accepted exactly when cutting it into C-byte chunks gives at least two |
| Diffing.CeilAtLeast2 | src/diffing.rs:253-255 | the ceiling of `n / C` is at least two exactly when `n >= C + 1` |
| Diffing.Common.FileToChunkHashList | src/diffing.rs:206-247 | None for an unreadable or too-small file; otherwise exactly the fingerprint list of its bytes, with `file1Size` set to its length and `file2Size` unchanged |
| Diffing.ChunkBoundary | src/diffing.rs:238-244 | pushing the fingerprint of a full chunk and restarting after it keeps the list made so far a prefix of the fingerprint list |
| Diffing.Common.HashListToPositionMap | src/diffing.rs:196-204 | the map built by the insertion loop is the position index of the list |
| Diffing.Common.TryFillMissingChunks | src/diffing.rs:176-194 | the loop's result is the filled delta map for a baseline of as many chunks as `hash_list` has entries |
| Diffing.Common.Diff | src/diffing.rs:58-139 | None for an unreadable or too-small target; otherwise the scan's delta map, filled, whose keys are exactly the indices of `hash_list`, with `file2Size` set to the target's length and `file1Size` unchanged |
| Diffing.DeltaKeysBelow | src/diffing.rs:108-127 | every index the scan writes is an index of the fingerprint list |
| Properties.DeltaOf | src/diffing.rs:133-138 | the map `diff` returns, after the scan and the filler: every index of the fingerprint list has an entry, and every entry that is not present is the filler's empty one; the entry of each index is stated by `Properties.DiffEntry` |
| Properties.ScanFromStart | src/diffing.rs:87-132 | from the start, the window stays at most C; the target equals the hits' problem bytes and windows followed by the leftover buffers; each hit's index is in range and its window's fingerprint is the list's entry there |
| Properties.DiffEntry | src/diffing.rs:108-136 | every index of the list has a final entry: the present entry of its last hit with that hit's problem bytes, or an absent entry when no hit found it |
| Properties.EarlierDuplicateNeverMatched | src/diffing.rs:196-204 | when two chunks share a fingerprint, the earlier one's final entry is absent |
| Properties.LastChunkOnlyByCollision | src/diffing.rs:233-235 | the last fingerprint covers the remainder after the full chunks, and its entry is present only if some different C-byte sequence has the same fingerprint |
| Properties.FingerprintsOfWholeChunks | src/diffing.rs:230-245 | a file made of whole chunks has their fingerprints in order, then the fingerprint of the empty sequence |
| Properties.Accumulate | src/diffing.rs:92-95 | bytes that leave the window shorter than C are only appended to it |
| Properties.FillWindow | src/diffing.rs:92-131 | from an empty window, C bytes are looked up together once: a hit records them, a miss leaves them buffered |
| Properties.AlignedChunks | src/diffing.rs:87-132 | whole chunks that the index maps to consecutive indices are each found at once, without problem bytes |
| Properties.IdentityDiff | src/diffing.rs:58-139 | a file of whole chunks with distinct fingerprints, diffed against itself: every chunk is present without problem bytes, and the extra last index is absent |
| Properties.CompleteMarked | src/diffing.rs:176-194 | filling a map whose chunks were found in order gives all indices, keeps the found entries and leaves the last index absent |
| Properties.ResyncAfterGarbageByte | src/diffing.rs:87-136 | one garbage byte before a file of whole chunks is carried as chunk 0's problem bytes, the other chunks are found without problem bytes, and the last index is absent |
| Properties.ResyncScan | src/diffing.rs:100-131 | after one garbage byte, the scan records chunk 0 with that byte as its problem bytes and every later chunk without problem bytes |
| Properties.GarbageThenChunk | src/diffing.rs:100-131 | a byte before a chunk is evicted into the problem bytes and recorded with that chunk when the first window misses |
| Properties.OwnIndex | src/diffing.rs:196-204 | with distinct fingerprints, the index of a file of whole chunks maps each chunk to its own position |

## Left out

- `src/main.rs` is not part of this model. It parses the command line, sets the default chunk size and prints usage text.
- File I/O is left out: `File::open`, `metadata`, the one-byte `read` loop and the error printing. A file is its contents (`Some(bytes)`) or `None` when it cannot be opened or read. The size check uses the length of the contents, so the metadata size and the bytes read are assumed to agree.
- Diffing.Common.Diff: does not model a read error in the middle of the scan. The source returns `None` with `file2_size` already set; in the model every failing input returns `None` with the sizes unchanged.
- Diffing.Common.FileToChunkHashList: does not model a read error in the middle of the loop, for the same reason.
- The `file1_data`/`file2_data` copies are left out. Only `patch` uses them.
- `patch` and `calculate_num_of_chunks` are left out. They produce console output, and the chunk count is a floating-point `ceil`.
- The call to `patch` at the end of `diff` is left out for the same reason.
- `xxh3::hash128_with_seed` is a foreign library. It is the parameter `hash`, and no property of it is assumed.
- `HashMap` internals and the `&u128` keys of the position map are left out; Dafny maps stand in for them.
- Diffing.Common.HasAtLeast2Chunks: computes `chunk_size <= f_size - 1` in unbounded integers, so an empty file is rejected. In Rust this `usize` subtraction underflows for an empty file: a debug build panics, and a release build wraps to `usize::MAX`, so the empty file is accepted. The fingerprinter then returns the one-entry list `[hash([])]`, and `diff` of an empty target returns the all-absent map over that list's indices. The model rejects the empty file in both places instead.
- A chunk size of 0 is excluded by the type `ChunkSize`, although `main` accepts one.
- Delta.NewChunk: does not model `usize` overflow of `idx * c_size`.
- Diffing.Common.TryFillMissingChunks: returns the completed map as a new value rather than updating the caller's map through `&mut`. Aliasing is not modelled.
