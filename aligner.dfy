/**
 * The target side of the diff: the byte-at-a-time resynchronisation scan,
 * stated as a state machine. `Step` is one turn of the scan loop, `RunFrom`
 * folds it over the bytes read, `TraceFrom` lists the hits the scan makes, and
 * `Record` is the delta map those hits write.
 */
module Aligner {
  import opened Delta

  /**
   * The scan's state between two bytes: the trailing window, the problem
   * bytes accumulated since the last hit, and the delta map built so far.
   */
  datatype ScanState = ScanState(window: seq<u8>, problem: seq<u8>, delta: DeltaMap)

  /** A hit: the baseline index found, the problem bytes recorded with it, and the matched window. */
  datatype Hit = Hit(pos: nat, problem: seq<u8>, window: seq<u8>)

  /** The state before the first byte is read. */
  const Start := ScanState([], [], map[])

  /**
   * Byte `b` joins the window; a window that has grown to `c + 1` bytes
   * gives its oldest byte to the problem bytes. The delta map is untouched.
   */
  function Slide(s: ScanState, b: u8, c: ChunkSize): (r: ScanState)
    ensures r.problem + r.window == s.problem + s.window + [b]
    ensures r.problem == s.problem || r.problem == s.problem + [(s.window + [b])[0]]
    ensures |s.window| <= c ==> |r.window| <= c
    ensures r.delta == s.delta
  {
    var buf := s.window + [b];
    if |buf| == c + 1 then ScanState(buf[1..], s.problem + [buf[0]], s.delta)
    else ScanState(buf, s.problem, s.delta)
  }

  /**
   * The window that is fingerprinted when `b` is read, if any. Nothing is
   * fingerprinted while the window is shorter than `c`; when the window never
   * exceeded `c` before, the fingerprinted window has exactly `c` bytes.
   */
  function Probed(s: ScanState, b: u8, c: ChunkSize): (r: Option<seq<u8>>)
    ensures r.Some? <==> |s.window| + 1 >= c
    ensures |s.window| <= c && r.Some? ==> |r.value| == c
  {
    var w := Slide(s, b, c).window;
    if |w| < c then None else Some(w)
  }

  /**
   * The hit that reading `b` produces: the probed window's fingerprint is
   * found in the position index `pm`; the hit carries the problem bytes as
   * they stand after the slide.
   */
  function Match(s: ScanState, b: u8, pm: map<u128, nat>, c: ChunkSize, hash: Hasher): (r: Option<Hit>)
    ensures r.Some? <==> Probed(s, b, c).Some? && hash(Probed(s, b, c).value) in pm
    ensures r.Some? ==> hash(r.value.window) in pm && pm[hash(r.value.window)] == r.value.pos
    ensures r.Some? ==> r.value.problem + r.value.window == s.problem + s.window + [b]
    ensures r.Some? && |s.window| <= c ==> |r.value.window| == c
  {
    match Probed(s, b, c)
    case None => None
    case Some(w) =>
      if hash(w) in pm then Some(Hit(pm[hash(w)], Slide(s, b, c).problem, w)) else None
  }

  /**
   * One turn of the scan loop. On a hit the entry for the hit's index is
   * written (overwriting any earlier one) and both buffers are cleared;
   * otherwise the bytes read stay, in order, in problem bytes and window.
   */
  function Step(s: ScanState, b: u8, pm: map<u128, nat>, c: ChunkSize, hash: Hasher): (r: ScanState)
    ensures Match(s, b, pm, c, hash).Some? ==> r.window == [] && r.problem == []
    ensures Match(s, b, pm, c, hash).None? ==>
              r.problem + r.window == s.problem + s.window + [b] && r.delta == s.delta
    ensures |s.window| <= c ==> |r.window| <= c
  {
    match Match(s, b, pm, c, hash)
    case Some(h) => ScanState([], [], s.delta[h.pos := NewChunk(h.pos, h.problem, c, true)])
    case None => Slide(s, b, c)
  }

  /** Every entry of `m` is present: the scan writes no other kind. */
  predicate AllPresent(m: DeltaMap)
  {
    forall k :: k in m ==> m[k].isPresent
  }

  /**
   * The state after the bytes `d` are read from state `s`. Reading never
   * removes an entry, and every entry it writes is present.
   */
  function RunFrom(s: ScanState, d: seq<u8>, pm: map<u128, nat>, c: ChunkSize, hash: Hasher): (r: ScanState)
    ensures s.delta.Keys <= r.delta.Keys
    ensures AllPresent(s.delta) ==> AllPresent(r.delta)
    decreases |d|
  {
    if d == [] then s
    else Step(RunFrom(s, d[..|d| - 1], pm, c, hash), d[|d| - 1], pm, c, hash)
  }

  /** The state after the bytes `d` are read from the start. */
  function Run(d: seq<u8>, pm: map<u128, nat>, c: ChunkSize, hash: Hasher): (r: ScanState)
    ensures AllPresent(r.delta)
  {
    RunFrom(Start, d, pm, c, hash)
  }

  /** The hits made while the bytes `d` are read from state `s`, in order. */
  function TraceFrom(s: ScanState, d: seq<u8>, pm: map<u128, nat>, c: ChunkSize, hash: Hasher): (r: seq<Hit>)
    ensures |r| <= |d|
    decreases |d|
  {
    if d == [] then []
    else
      var before := RunFrom(s, d[..|d| - 1], pm, c, hash);
      TraceFrom(s, d[..|d| - 1], pm, c, hash) + HitOf(before, d[|d| - 1], pm, c, hash)
  }

  /** The hit reading `b` makes, as a sequence of zero or one hits. */
  function HitOf(s: ScanState, b: u8, pm: map<u128, nat>, c: ChunkSize, hash: Hasher): seq<Hit>
  {
    match Match(s, b, pm, c, hash)
    case Some(h) => [h]
    case None => []
  }

  /** The hits made while the bytes `d` are read from the start: at most one per byte. */
  function Trace(d: seq<u8>, pm: map<u128, nat>, c: ChunkSize, hash: Hasher): (r: seq<Hit>)
    ensures |r| <= |d|
  {
    TraceFrom(Start, d, pm, c, hash)
  }

  /** The bytes the hits account for: each hit's problem bytes, then its window. */
  function Flatten(hits: seq<Hit>): seq<u8>
  {
    if hits == [] then []
    else Flatten(hits[..|hits| - 1]) + hits[|hits| - 1].problem + hits[|hits| - 1].window
  }

  /**
   * The delta map `m` after each hit has written its entry, in order: no
   * entry is removed, and every hit's index holds a present entry.
   */
  function Record(m: DeltaMap, hits: seq<Hit>, c: nat): (r: DeltaMap)
    ensures m.Keys <= r.Keys
    ensures forall h :: h in hits ==> h.pos in r && r[h.pos].isPresent
  {
    if hits == [] then m
    else
      var h := hits[|hits| - 1];
      Record(m, hits[..|hits| - 1], c)[h.pos := NewChunk(h.pos, h.problem, c, true)]
  }

  /** Reading `a` then `b` is reading `a + b`. */
  lemma {:induction false} RunFromAppend(s: ScanState, a: seq<u8>, b: seq<u8>, pm: map<u128, nat>, c: ChunkSize, hash: Hasher)
    ensures RunFrom(s, a + b, pm, c, hash) == RunFrom(RunFrom(s, a, pm, c, hash), b, pm, c, hash)
    decreases |b|
  {
    if b == [] {
      assert a + b == a;
    } else {
      var b' := b[..|b| - 1];
      assert (a + b)[..|a + b| - 1] == a + b';
      RunFromAppend(s, a, b', pm, c, hash);
    }
  }

  /** The window never grows beyond `c` bytes. */
  lemma {:induction false} ScanWindowBound(s: ScanState, d: seq<u8>, pm: map<u128, nat>, c: ChunkSize, hash: Hasher)
    requires |s.window| <= c
    ensures |RunFrom(s, d, pm, c, hash).window| <= c
    decreases |d|
  {
    if d != [] {
      ScanWindowBound(s, d[..|d| - 1], pm, c, hash);
    }
  }

  /**
   * Every byte read is accounted for, in order: by the hits (problem bytes
   * then matched window, for each hit) followed by the current problem bytes
   * and window. What remains in the buffers at the end is in no hit.
   */
  lemma {:induction false} ScanConservation(s: ScanState, d: seq<u8>, pm: map<u128, nat>, c: ChunkSize, hash: Hasher)
    ensures s.problem + s.window + d ==
            Flatten(TraceFrom(s, d, pm, c, hash)) +
            (RunFrom(s, d, pm, c, hash).problem + RunFrom(s, d, pm, c, hash).window)
    decreases |d|
  {
    if d == [] {
      assert s.problem + s.window + d == [] + (s.problem + s.window);
    } else {
      var d', b := d[..|d| - 1], d[|d| - 1];
      assert d == d' + [b];
      ScanConservation(s, d', pm, c, hash);
      var before := RunFrom(s, d', pm, c, hash);
      var after := RunFrom(s, d, pm, c, hash);
      var T', H := TraceFrom(s, d', pm, c, hash), HitOf(before, b, pm, c, hash);
      assert after == Step(before, b, pm, c, hash);
      StepConserves(before, b, pm, c, hash);
      FlattenAppend(T', H);
      assert TraceFrom(s, d, pm, c, hash) == T' + H;
      Regroup(s.problem + s.window, d', b, Flatten(T'), before.problem + before.window,
              Flatten(H), after.problem, after.window);
    }
  }

  /** One step moves the byte read into the hit it makes, or into the buffers. */
  lemma StepConserves(s: ScanState, b: u8, pm: map<u128, nat>, c: ChunkSize, hash: Hasher)
    ensures s.problem + s.window + [b] ==
            Flatten(HitOf(s, b, pm, c, hash)) + (Step(s, b, pm, c, hash).problem + Step(s, b, pm, c, hash).window)
  {
    var r := Step(s, b, pm, c, hash);
    match Match(s, b, pm, c, hash)
    case Some(h) =>
      assert HitOf(s, b, pm, c, hash) == [h];
      assert [h][..0] == [];
      assert Flatten([h]) == [] + h.problem + h.window;
    case None =>
      assert Flatten([]) + (r.problem + r.window) == r.problem + r.window;
  }

  lemma Regroup(pre: seq<u8>, d: seq<u8>, b: u8, f: seq<u8>, buffered: seq<u8>, g: seq<u8>, p: seq<u8>, w: seq<u8>)
    requires pre + d == f + buffered
    requires buffered + [b] == g + (p + w)
    ensures pre + (d + [b]) == (f + g) + (p + w)
  {
    calc {
      pre + (d + [b]);
      (pre + d) + [b];
      f + (buffered + [b]);
      f + (g + (p + w));
      (f + g) + (p + w);
    }
  }

  lemma FlattenAppend(a: seq<Hit>, b: seq<Hit>)
    requires |b| <= 1
    ensures Flatten(a + b) == Flatten(a) + Flatten(b)
  {
    if b == [] {
      assert a + b == a;
    } else {
      assert (a + b)[..|a + b| - 1] == a;
      assert b[..0] == [];
    }
  }

  /**
   * Every hit matched a window of exactly `c` bytes whose fingerprint the
   * position index maps to the hit's index.
   */
  lemma {:induction false} ScanHitsMatch(s: ScanState, d: seq<u8>, pm: map<u128, nat>, c: ChunkSize, hash: Hasher)
    requires |s.window| <= c
    ensures forall h :: h in TraceFrom(s, d, pm, c, hash) ==>
              |h.window| == c && hash(h.window) in pm && pm[hash(h.window)] == h.pos
    decreases |d|
  {
    if d != [] {
      var d' := d[..|d| - 1];
      ScanHitsMatch(s, d', pm, c, hash);
      ScanWindowBound(s, d', pm, c, hash);
    }
  }

  /** The delta map is the one the hits wrote, in order, over the initial map. */
  lemma {:induction false} ScanDelta(s: ScanState, d: seq<u8>, pm: map<u128, nat>, c: ChunkSize, hash: Hasher)
    ensures RunFrom(s, d, pm, c, hash).delta == Record(s.delta, TraceFrom(s, d, pm, c, hash), c)
    decreases |d|
  {
    if d != [] {
      var d', b := d[..|d| - 1], d[|d| - 1];
      ScanDelta(s, d', pm, c, hash);
      var before := RunFrom(s, d', pm, c, hash);
      var T' := TraceFrom(s, d', pm, c, hash);
      assert RunFrom(s, d, pm, c, hash) == Step(before, b, pm, c, hash);
      assert TraceFrom(s, d, pm, c, hash) == T' + HitOf(before, b, pm, c, hash);
      match Match(before, b, pm, c, hash)
      case Some(h) =>
        var T := T' + [h];
        assert T[..|T| - 1] == T';
        assert Record(s.delta, T, c) == Record(s.delta, T', c)[h.pos := NewChunk(h.pos, h.problem, c, true)];
      case None =>
        assert T' + [] == T';
    }
  }

  /** An index has an entry after the hits exactly when it had one before or some hit found it. */
  lemma {:induction false} RecordKeys(m: DeltaMap, hits: seq<Hit>, c: nat, p: nat)
    ensures p in Record(m, hits, c) <==> p in m || exists k :: 0 <= k < |hits| && hits[k].pos == p
  {
    if hits != [] {
      var init, h := hits[..|hits| - 1], hits[|hits| - 1];
      RecordKeys(m, init, c, p);
      if p != h.pos && p !in m {
        if exists k :: 0 <= k < |hits| && hits[k].pos == p {
          var k :| 0 <= k < |hits| && hits[k].pos == p;
          assert init[k].pos == p;
        }
        if exists k :: 0 <= k < |init| && init[k].pos == p {
          var k :| 0 <= k < |init| && init[k].pos == p;
          assert hits[k].pos == p;
        }
      } else if p == h.pos {
        assert hits[|hits| - 1].pos == p;
      }
    }
  }

  /** The entry of a hit's index is the one written by the last hit on that index. */
  lemma {:induction false} RecordLastHitWins(m: DeltaMap, hits: seq<Hit>, c: nat, k: nat)
    requires k < |hits|
    requires forall j :: k < j < |hits| ==> hits[j].pos != hits[k].pos
    ensures hits[k].pos in Record(m, hits, c)
    ensures Record(m, hits, c)[hits[k].pos] == NewChunk(hits[k].pos, hits[k].problem, c, true)
  {
    var init, h := hits[..|hits| - 1], hits[|hits| - 1];
    if k < |init| {
      assert hits[k].pos != h.pos;
      assert init[k] == hits[k];
      RecordLastHitWins(m, init, c, k);
    }
  }

  /** An entry no hit touched is unchanged. */
  lemma {:induction false} RecordUntouched(m: DeltaMap, hits: seq<Hit>, c: nat, p: nat)
    requires p in m
    requires forall k :: 0 <= k < |hits| ==> hits[k].pos != p
    ensures p in Record(m, hits, c) && Record(m, hits, c)[p] == m[p]
  {
    if hits != [] {
      var init := hits[..|hits| - 1];
      assert hits[|hits| - 1].pos != p;
      assert forall k :: 0 <= k < |init| ==> init[k].pos == hits[k].pos;
      RecordUntouched(m, init, c, p);
    }
  }
}
