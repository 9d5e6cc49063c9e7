/**
 * The work-partitioned search: permutations are generated by swapping in
 * place and snapshotting at each leaf, the list is cut into contiguous
 * chunks, each chunk is scanned by its own task, and the per-task results
 * are reduced in submission order. The tasks run one after the other here;
 * each one only reads the distance map and its own chunk.
 */
module SolucaoThreads {
  import opened Permutation
  import opened Tour
  import opened Search
  import opened Chunking

  /**
   * Emits every arrangement of the first n slots of the array, in generation
   * order, and leaves the array as it found it.
   */
  method AllPermutationsHelper<T>(permutation: array<T>, permutations: PermutationList<T>, n: nat)
    requires n <= permutation.Length
    modifies permutation, permutations
    ensures permutation[..] == old(permutation[..])
    ensures permutations.items == old(permutations.items) + Gen(old(permutation[..]), n)
    decreases n
  {
    if n == 0 {
      permutations.Add(permutation[..]);
      return;
    }
    ghost var p := permutation[..];
    for i := 0 to n
      invariant permutation[..] == p
      invariant permutations.items == old(permutations.items) + Blocks(p, n, i)
    {
      Swap(permutation, i, n - 1);
      AllPermutationsHelper(permutation, permutations, n - 1);
      Swap(permutation, i, n - 1);
      assert permutation[..] == p;
    }
  }

  /** All orderings of original, generated on a copy so original is left untouched. */
  method Permutations<T>(original: array<T>) returns (permutations: PermutationList<T>)
    ensures permutations.items == Orderings(original[..])
  {
    permutations := new PermutationList();
    var copy := CopyOf(original);
    AllPermutationsHelper(copy, permutations, copy.Length);
  }

  /** Sums the edges between consecutive cities; 0 for fewer than two cities. */
  method PathDistance(distances: Distances, path: seq<City>) returns (distance: int)
    requires Walkable(distances, path)
    ensures distance == OpenDistance(distances, path)
  {
    distance := 0;
    var i := 0;
    while i < |path| - 1
      invariant |path| == 0 ==> i == 0 && distance == 0
      invariant |path| > 0 ==> i < |path| && distance == OpenDistance(distances, path[..i + 1])
    {
      var from := path[i];
      var to := path[i + 1];
      assert path[..i + 2][..i + 1] == path[..i + 1];
      distance := distance + distances[from][to];
      i := i + 1;
    }
    assert |path| > 0 ==> path[..i + 1] == path;
  }

  /** One task: the first tour of least closed distance in its chunk, or None for an empty chunk. */
  method ShortestPathTaskCall(distances: Distances, paths: seq<seq<City>>) returns (result: Option<ShortestPathResult>)
    requires AllClosable(distances, paths)
    ensures result == Shortest(Scores(distances, paths))
  {
    ghost var scores := Scores(distances, paths);
    result := None;
    for i := 0 to |paths|
      invariant result == Shortest(scores[..i])
    {
      var path := paths[i];
      var distance := PathDistance(distances, path);
      distance := distance + distances[path[|path| - 1]][path[0]];
      ScoresAt(distances, paths, i);
      assert scores[..i + 1][..i] == scores[..i];
      if result.None? || distance < result.value.distance {
        result := Some(ShortestPathResult(path, distance));
      }
    }
    assert scores[..|paths|] == scores;
  }

  /**
   * Cuts paths into chunks of |paths| / numThreads + 1 consecutive paths
   * and runs one task per chunk, keeping the results in submission order.
   */
  method SubmitTasks(distances: Distances, paths: seq<seq<City>>, numThreads: nat)
    returns (futures: seq<Option<ShortestPathResult>>)
    requires AllClosable(distances, paths) && numThreads >= 1
    ensures var chunks := Chunks(|paths|, ChunkSize(|paths|, numThreads), 0);
      InRange(chunks, |paths|) && futures == ChunkMinima(Scores(distances, paths), chunks)
    ensures |futures| <= numThreads
  {
    var chunkSize := ChunkSize(|paths|, numThreads);
    ghost var scores := Scores(distances, paths);
    assert |scores| == |paths|;
    futures := [];
    ghost var submitted: seq<(nat, nat)> := [];
    var i: nat := 0;
    while i < |paths|
      invariant Chunks(|paths|, chunkSize, 0) == submitted + Chunks(|paths|, chunkSize, i)
      invariant InRange(submitted, |scores|)
      invariant futures == ChunkMinima(scores, submitted)
      invariant |futures| == |submitted|
      decreases |paths| - i
    {
      var fromIndex: nat := i;
      var toIndex: nat := Min(i + chunkSize, |paths|);
      var subList := paths[fromIndex..toIndex];
      ScoresSlice(distances, paths, fromIndex, toIndex);
      ChunkMinimaSnoc(scores, submitted, fromIndex, toIndex);
      var future := ShortestPathTaskCall(distances, subList);
      futures := futures + [future];
      ghost var before := submitted;
      submitted := submitted + [(fromIndex, toIndex)];
      ChunksAdvance(|paths|, chunkSize, Chunks(|paths|, chunkSize, 0), before, i, submitted);
      i := i + chunkSize;
    }
    assert Chunks(|paths|, chunkSize, i) == [];
    assert submitted == Chunks(|paths|, chunkSize, 0);
    ChunkCount(|paths|, numThreads);
  }

  /** Reduces the task results in submission order, a later one winning only when strictly shorter. */
  method CollectResults(futures: seq<Option<ShortestPathResult>>) returns (best: Option<ShortestPathResult>)
    ensures best == Reduce(futures)
    ensures best.Some? ==> best in futures
    ensures best.Some? ==> forall k :: 0 <= k < |futures| && futures[k].Some? ==> best.value.distance <= futures[k].value.distance
  {
    best := None;
    for k := 0 to |futures|
      invariant best == Reduce(futures[..k])
      invariant best.Some? ==> best in futures[..k]
      invariant best.None? ==> forall j :: 0 <= j < k ==> futures[j].None?
      invariant best.Some? ==> forall j :: 0 <= j < k && futures[j].Some? ==> best.value.distance <= futures[j].value.distance
    {
      var result := futures[k];
      assert futures[..k + 1][..k] == futures[..k];
      if result.Some? && (best.None? || result.value.distance < best.value.distance) {
        best := result;
      }
    }
    assert futures[..|futures|] == futures;
  }

  /**
   * The shortest closed tour over the given cities, found by numThreads
   * chunked tasks; the first city is repeated at the end.
   */
  method FindShortestPath(distances: Distances, cities: array<City>, numThreads: nat) returns (shortestPath: array<City>)
    requires numThreads >= 1
    requires cities.Length >= 1 && Distinct(cities[..]) && Complete(distances, cities[..])
    ensures shortestPath[..] == ShortestTour(distances, cities[..]) + [ShortestTour(distances, cities[..])[0]]
    ensures shortestPath.Length == cities.Length + 1 && shortestPath[cities.Length] == shortestPath[0]
    ensures multiset(shortestPath[..cities.Length]) == multiset(cities[..])
    ensures Walkable(distances, shortestPath[..])
    ensures forall q :: multiset(q) == multiset(cities[..]) ==>
      Closable(distances, q) && OpenDistance(distances, shortestPath[..]) <= ClosedDistance(distances, q)
  {
    var list := Permutations(cities);
    var paths := list.items;
    AllOrderingsClosable(distances, cities[..]);
    var futures := SubmitTasks(distances, paths, numThreads);
    var best := CollectResults(futures);
    ghost var scores := Scores(distances, paths);
    ChunkedSearchAgrees(scores, numThreads);
    SelectedTour(distances, cities[..], best);
    var tour := best.value.path;
    shortestPath := CloseTour(tour);
    assert shortestPath[..] == tour + [tour[0]];
    ShortestClosedTour(distances, cities[..], shortestPath[..]);
  }
}
