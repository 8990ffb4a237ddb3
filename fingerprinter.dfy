/**
 * The baseline side of the diff: the fingerprint list of a baseline file and
 * the position index built from it.
 */
module Fingerprinter {
  import opened Delta

  /** Block `i` of `d` on the grid of step `c`. */
  function Block(d: seq<u8>, i: nat, c: nat): (r: seq<u8>)
    requires i * c + c <= |d|
    ensures |r| == c
  {
    d[i * c .. i * c + c]
  }

  /**
   * The fingerprint list of `d`: one fingerprint per full `c`-byte chunk, in
   * file order, followed by one fingerprint of whatever is left after the last
   * full chunk (the empty sequence when `c` divides `|d|`).
   */
  function Fingerprints(d: seq<u8>, c: ChunkSize, hash: Hasher): (r: seq<u128>)
    ensures |r| == |d| / c + 1
    decreases |d|
  {
    if |d| < c then [hash(d)]
    else
      var rest := Fingerprints(d[c..], c, hash);
      assert |d[c..]| / c == |d| / c - 1 by { DivStep(|d|, c); }
      [hash(d[..c])] + rest
  }

  lemma DivStep(n: nat, c: ChunkSize)
    requires n >= c
    ensures (n - c) / c == n / c - 1
  {
    var q, r := (n - c) / c, (n - c) % c;
    assert n - c == q * c + r && 0 <= r < c;
    assert n == (q + 1) * c + r;
    DivUnique(n, c, q + 1, r);
  }

  /**
   * Entry `k` of the fingerprint list: the fingerprint of chunk `k` for every
   * full chunk, and the fingerprint of the remainder for the last entry.
   */
  lemma {:induction false} FingerprintAt(d: seq<u8>, c: ChunkSize, hash: Hasher, k: nat)
    requires k <= |d| / c
    ensures k * c <= |d|
    ensures k < |d| / c ==> k * c + c <= |d| && Fingerprints(d, c, hash)[k] == hash(Block(d, k, c))
    ensures k == |d| / c ==> Fingerprints(d, c, hash)[k] == hash(d[k * c..]) && |d[k * c..]| < c
    decreases k
  {
    var F := Fingerprints(d, c, hash);
    if k == 0 {
      if |d| >= c {
        DivStep(|d|, c);
        assert F[0] == hash(d[..c]);
        assert Block(d, 0, c) == d[..c];
      }
    } else {
      DivStep(|d|, c);
      var tail := d[c..];
      assert F == [hash(d[..c])] + Fingerprints(tail, c, hash);
      FingerprintAt(tail, c, hash, k - 1);
      assert F[k] == Fingerprints(tail, c, hash)[k - 1];
      SlicesAfterFirstChunk(d, c, k);
    }
  }

  /** Slicing after the first chunk shifts every grid position by one chunk. */
  lemma SlicesAfterFirstChunk(d: seq<u8>, c: ChunkSize, k: nat)
    requires 1 <= k && c <= |d| && (k - 1) * c <= |d| - c
    ensures k * c <= |d|
    ensures d[c..][(k - 1) * c..] == d[k * c..]
    ensures (k - 1) * c + c <= |d| - c ==> Block(d[c..], k - 1, c) == Block(d, k, c)
  {
    var s := (k - 1) * c;
    assert s + c == k * c;
  }

  /**
   * The position index of a fingerprint list: each fingerprint maps to the
   * index it was inserted at, and since insertion is unconditional, a later
   * index overwrites an earlier one with the same fingerprint.
   */
  function PositionIndex(hl: seq<u128>): (pm: map<u128, nat>)
    ensures forall h :: h in pm <==> h in hl
    ensures forall h :: h in pm ==> pm[h] < |hl|
  {
    if hl == [] then map[]
    else PositionIndex(hl[..|hl| - 1])[hl[|hl| - 1] := |hl| - 1]
  }

  /**
   * The index a fingerprint maps to holds that fingerprint, and no later
   * index does: when chunks share a fingerprint, the last occurrence wins.
   */
  lemma {:induction false} PositionIndexLastWins(hl: seq<u128>, h: u128)
    requires h in PositionIndex(hl)
    ensures hl[PositionIndex(hl)[h]] == h
    ensures forall j :: PositionIndex(hl)[h] < j < |hl| ==> hl[j] != h
  {
    var init, last := hl[..|hl| - 1], hl[|hl| - 1];
    var pm0 := PositionIndex(init);
    assert PositionIndex(hl) == pm0[last := |hl| - 1];
    if h != last {
      PositionIndexLastWins(init, h);
      var p := pm0[h];
      assert init[p] == h;
      assert forall j :: p < j < |init| ==> init[j] != h;
    }
  }

  /** Pairwise distinct fingerprints. */
  predicate Distinct(hl: seq<u128>)
  {
    forall i, j :: 0 <= i < j < |hl| ==> hl[i] != hl[j]
  }

  /** With pairwise distinct fingerprints, each one leads back to its own index. */
  lemma PositionOfDistinct(hl: seq<u128>, i: nat)
    requires Distinct(hl) && i < |hl|
    ensures hl[i] in PositionIndex(hl) && PositionIndex(hl)[hl[i]] == i
  {
    PositionIndexLastWins(hl, hl[i]);
  }
}
