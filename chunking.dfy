/**
 * How the parallel search splits the permutation list into contiguous
 * chunks, and why reducing the chunks' first-wins minima in submission order
 * selects the same tour as one scan over the whole list.
 */
module Chunking {
  import opened Search

  function Min(a: int, b: int): int
  {
    if a <= b then a else b
  }

  /** The chunk length used for a list of `size` paths and `numThreads` workers. */
  function ChunkSize(size: nat, numThreads: nat): nat
    requires numThreads >= 1
  {
    size / numThreads + 1
  }

  /** The half-open index ranges [i, min(i + chunkSize, size)) for i = from, from + chunkSize, ... below size. */
  function Chunks(size: nat, chunkSize: nat, from: nat): seq<(nat, nat)>
    requires chunkSize >= 1
    decreases size - from
  {
    if from >= size then []
    else [(from, Min(from + chunkSize, size))] + Chunks(size, chunkSize, from + chunkSize)
  }

  /** Taking the next chunk off the ones still to submit. */
  lemma ChunksAdvance(size: nat, chunkSize: nat, all: seq<(nat, nat)>, submitted: seq<(nat, nat)>, from: nat, next: seq<(nat, nat)>)
    requires chunkSize >= 1 && from < size
    requires all == submitted + Chunks(size, chunkSize, from)
    requires next == submitted + [(from, Min(from + chunkSize, size))]
    ensures all == next + Chunks(size, chunkSize, from + chunkSize)
  {
  }

  /** The ranges are nonempty, each starts where the previous one ends, and together they run from lo to hi. */
  ghost predicate Tiles(bounds: seq<(nat, nat)>, lo: nat, hi: nat)
  {
    && (|bounds| == 0 ==> lo == hi)
    && (|bounds| > 0 ==> bounds[0].0 == lo && bounds[|bounds| - 1].1 == hi)
    && (forall k :: 0 <= k < |bounds| ==> bounds[k].0 < bounds[k].1)
    && (forall k :: 0 <= k < |bounds| - 1 ==> bounds[k].1 == bounds[k + 1].0)
  }

  /** The chunks tile [from, size), and none is longer than chunkSize. */
  lemma {:induction false} ChunksTile(size: nat, chunkSize: nat, from: nat)
    requires chunkSize >= 1 && from <= size
    ensures Tiles(Chunks(size, chunkSize, from), from, size)
    ensures forall k :: 0 <= k < |Chunks(size, chunkSize, from)| ==>
      Chunks(size, chunkSize, from)[k].1 - Chunks(size, chunkSize, from)[k].0 <= chunkSize
    decreases size - from
  {
    if from < size {
      var next := from + chunkSize;
      var rest := Chunks(size, chunkSize, next);
      var first := (from, Min(next, size));
      assert Chunks(size, chunkSize, from) == [first] + rest;
      if next < size {
        ChunksTile(size, chunkSize, next);
      } else {
        assert rest == [];
      }
    }
  }

  /** Some range of bounds contains index x. */
  ghost predicate Covered(bounds: seq<(nat, nat)>, x: nat)
  {
    exists k :: 0 <= k < |bounds| && bounds[k].0 <= x < bounds[k].1
  }

  /** A tiling covers every index of its range, and its ranges do not overlap. */
  lemma {:induction false} TilesPartition(bounds: seq<(nat, nat)>, lo: nat, hi: nat)
    requires Tiles(bounds, lo, hi)
    ensures forall x: nat :: lo <= x < hi ==> Covered(bounds, x)
    ensures forall k, l :: 0 <= k < l < |bounds| ==> bounds[k].1 <= bounds[l].0
    decreases |bounds|
  {
    if |bounds| > 0 {
      var init := bounds[..|bounds| - 1];
      var last := bounds[|bounds| - 1];
      TilesPartition(init, lo, last.0);
      forall x: nat | lo <= x < hi
        ensures Covered(bounds, x)
      {
        if x < last.0 {
          assert Covered(init, x);
          var k :| 0 <= k < |init| && init[k].0 <= x < init[k].1;
          assert bounds[k] == init[k];
        } else {
          assert bounds[|bounds| - 1].0 <= x < bounds[|bounds| - 1].1;
        }
      }
      forall k, l | 0 <= k < l < |bounds|
        ensures bounds[k].1 <= bounds[l].0
      {
        if l < |bounds| - 1 {
          assert bounds[k] == init[k] && bounds[l] == init[l];
        } else if k < |bounds| - 2 {
          assert bounds[k] == init[k] && init[|init| - 1].1 == last.0;
          assert init[k].1 <= init[|init| - 1].0 < init[|init| - 1].1;
        }
      }
    }
  }

  lemma {:induction false} ChunksAtMost(size: nat, chunkSize: nat, from: nat, k: nat)
    requires chunkSize >= 1 && from + k * chunkSize >= size
    ensures |Chunks(size, chunkSize, from)| <= k
    decreases k
  {
    if from < size {
      assert k >= 1;
      assert from + chunkSize + (k - 1) * chunkSize == from + k * chunkSize;
      ChunksAtMost(size, chunkSize, from + chunkSize, k - 1);
    }
  }

  /** There are never more chunks than workers. */
  lemma ChunkCount(size: nat, numThreads: nat)
    requires numThreads >= 1
    ensures |Chunks(size, ChunkSize(size, numThreads), 0)| <= numThreads
  {
    var q := size / numThreads;
    assert size == numThreads * q + size % numThreads;
    assert numThreads * ChunkSize(size, numThreads) == numThreads * q + numThreads;
    ChunksAtMost(size, ChunkSize(size, numThreads), 0, numThreads);
  }

  ghost predicate InRange(bounds: seq<(nat, nat)>, size: nat)
  {
    forall k :: 0 <= k < |bounds| ==> bounds[k].0 <= bounds[k].1 <= size
  }

  /** The first-wins minimum of each chunk of the scored paths, in chunk order. */
  function ChunkMinima(candidates: seq<ShortestPathResult>, bounds: seq<(nat, nat)>): seq<Option<ShortestPathResult>>
    requires InRange(bounds, |candidates|)
  {
    if |bounds| == 0 then []
    else
      var (lo, hi) := bounds[|bounds| - 1];
      ChunkMinima(candidates, bounds[..|bounds| - 1]) + [Shortest(candidates[lo..hi])]
  }

  /** Submitting one more chunk appends that chunk's minimum. */
  lemma ChunkMinimaSnoc(candidates: seq<ShortestPathResult>, bounds: seq<(nat, nat)>, lo: nat, hi: nat)
    requires InRange(bounds, |candidates|) && lo <= hi <= |candidates|
    ensures InRange(bounds + [(lo, hi)], |candidates|)
    ensures ChunkMinima(candidates, bounds + [(lo, hi)])
      == ChunkMinima(candidates, bounds) + [Shortest(candidates[lo..hi])]
  {
  }

  /** Reducing the minima of a tiling of [0, hi) gives the minimum of candidates[..hi]. */
  lemma {:induction false} ReduceTiling(candidates: seq<ShortestPathResult>, bounds: seq<(nat, nat)>, hi: nat)
    requires InRange(bounds, |candidates|) && Tiles(bounds, 0, hi) && hi <= |candidates|
    ensures Reduce(ChunkMinima(candidates, bounds)) == Shortest(candidates[..hi])
    decreases |bounds|
  {
    if |bounds| > 0 {
      var init := bounds[..|bounds| - 1];
      var (lo, _) := bounds[|bounds| - 1];
      var minima := ChunkMinima(candidates, bounds);
      assert minima[..|minima| - 1] == ChunkMinima(candidates, init);
      ReduceTiling(candidates, init, lo);
      ShortestConcat(candidates[..lo], candidates[lo..hi]);
      assert candidates[..lo] + candidates[lo..hi] == candidates[..hi];
    }
  }

  /**
   * The chunked search selects the same result as a single scan: reducing,
   * in submission order, the first-wins minima of the chunks of size
   * |candidates| / numThreads + 1 equals the first-wins minimum of all
   * candidates.
   */
  lemma ChunkedSearchAgrees(candidates: seq<ShortestPathResult>, numThreads: nat)
    requires numThreads >= 1
    ensures var chunks := Chunks(|candidates|, ChunkSize(|candidates|, numThreads), 0);
      InRange(chunks, |candidates|) && Reduce(ChunkMinima(candidates, chunks)) == Shortest(candidates)
  {
    var size := |candidates|;
    var chunks := Chunks(size, ChunkSize(size, numThreads), 0);
    ChunksTile(size, ChunkSize(size, numThreads), 0);
    TilesPartition(chunks, 0, size);
    assert InRange(chunks, size) by {
      forall k | 0 <= k < |chunks|
        ensures chunks[k].1 <= size
      {
        if k < |chunks| - 1 {
          assert chunks[k].1 <= chunks[|chunks| - 1].0;
        }
      }
    }
    ReduceTiling(candidates, chunks, size);
    assert candidates[..size] == candidates;
  }
}
