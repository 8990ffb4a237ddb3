/**
 * The data model of the chunk diff: bytes, fingerprints, the delta entries
 * (`Chunk`), the delta map keyed by baseline chunk index, and the gap filler
 * that makes the delta map total over the baseline's chunk indices.
 */
module Delta {

  /** An unsigned byte, Rust's `u8`. */
  newtype u8 = x: int | 0 <= x < 0x100

  /** A 128-bit fingerprint, Rust's `u128`. */
  newtype u128 = x: int | 0 <= x < 0x1_0000_0000_0000_0000_0000_0000_0000_0000

  /**
   * The fingerprint primitive (xxh3's 128-bit hash with seed 0). It is a
   * parameter of every operation that hashes, and nothing is assumed about it:
   * in particular it is not assumed to be injective.
   */
  type Hasher = seq<u8> -> u128

  /** A chunk size of at least one byte. */
  type ChunkSize = c: nat | c >= 1 witness 1

  datatype Option<T> = None | Some(value: T)

  /**
   * One entry of the delta: the byte range of a baseline chunk, whether a
   * matching window was found in the target, and the unmatched target bytes
   * that preceded that match.
   */
  datatype Chunk = Chunk(start: nat, end: nat, isPresent: bool, problemBytes: seq<u8>)

  /** Baseline chunk index to delta entry. */
  type DeltaMap = map<nat, Chunk>

  /**
   * `Chunk::new`: the entry for chunk `idx` of size `c`, carrying the given
   * bytes and presence flag.
   */
  function NewChunk(idx: nat, bytes: seq<u8>, c: nat, isPresent: bool): (r: Chunk)
    ensures r.end - r.start == c
    ensures r.problemBytes == bytes && r.isPresent == isPresent
  {
    Chunk(idx * c, idx * c + c, isPresent, bytes)
  }

  /**
   * The entry for chunk `idx` sits on the chunk grid: its start is a multiple
   * of `c` whose quotient is `idx`, and it spans exactly `c` bytes.
   */
  lemma NewChunkOnGrid(idx: nat, bytes: seq<u8>, c: nat, isPresent: bool)
    requires c > 0
    ensures var r := NewChunk(idx, bytes, c, isPresent);
            r.start % c == 0 && r.start / c == idx && r.end == r.start + c
  {
    DivUnique(idx * c, c, idx, 0);
  }

  /** Quotient and remainder are determined by `n == q * c + r` with `0 <= r < c`. */
  lemma DivUnique(n: int, c: nat, q: int, r: int)
    requires c > 0 && n == q * c + r && 0 <= r < c
    ensures n / c == q && n % c == r
  {
    var q', r' := n / c, n % c;
    assert n == q' * c + r' && 0 <= r' < c;
    var k := q - q';
    assert k * c == q * c - q' * c;
    assert k * c == r' - r;
    if k >= 1 {
      MulAtLeast(k, c);
    } else if k <= -1 {
      MulAtLeast(-k, c);
    }
  }

  lemma MulAtLeast(k: int, c: nat)
    requires k >= 1
    ensures k * c >= c
  {
    assert k * c == (k - 1) * c + c;
    assert (k - 1) * c >= 0;
  }

  /** The chunk indices `0 .. n-1`. */
  function Indices(n: nat): (r: set<nat>)
    ensures forall i: nat :: i in r <==> i < n
  {
    if n == 0 then {} else Indices(n - 1) + {n - 1}
  }

  /** The entry the gap filler inserts for a chunk that was never matched. */
  function Absent(i: nat, c: nat): (r: Chunk)
    ensures !r.isPresent && r.problemBytes == [] && r.end - r.start == c
  {
    NewChunk(i, [], c, false)
  }

  /**
   * What `try_fill_missing_chunks` makes of `m` for a baseline of `n` chunks:
   * every index below `n` gets an entry, existing entries are kept unchanged,
   * and each inserted entry is absent with no problem bytes.
   */
  function FillGaps(m: DeltaMap, n: nat, c: nat): (r: DeltaMap)
    ensures r.Keys == m.Keys + Indices(n)
    ensures forall i :: i in m ==> r[i] == m[i]
    ensures forall i: nat :: i < n && i !in m ==>
              !r[i].isPresent && r[i].problemBytes == [] && r[i] == Absent(i, c)
  {
    map i | i in m.Keys + Indices(n) :: if i in m then m[i] else Absent(i, c)
  }

  /** One more turn of the filler's loop: index `i` is filled when it is missing. */
  lemma FillGapsStep(m: DeltaMap, i: nat, c: nat)
    ensures FillGaps(m, i + 1, c) ==
            if i in FillGaps(m, i, c) then FillGaps(m, i, c)
            else FillGaps(m, i, c)[i := Absent(i, c)]
  {
    var a, b := FillGaps(m, i + 1, c), FillGaps(m, i, c);
    assert i in b <==> i in m;
    if i in m {
      assert a.Keys == b.Keys;
    } else {
      assert a.Keys == b[i := Absent(i, c)].Keys;
    }
  }

  /** Running the filler a second time changes nothing. */
  lemma FillGapsIdempotent(m: DeltaMap, n: nat, c: nat)
    ensures FillGaps(FillGaps(m, n, c), n, c) == FillGaps(m, n, c)
  {
    var once := FillGaps(m, n, c);
    assert FillGaps(once, n, c).Keys == once.Keys;
  }

  /** A map whose keys are all below `n` has exactly the keys `0 .. n-1` once filled. */
  lemma FillGapsExactKeys(m: DeltaMap, n: nat, c: nat)
    requires forall i :: i in m ==> i < n
    ensures FillGaps(m, n, c).Keys == Indices(n)
  {
  }
}
