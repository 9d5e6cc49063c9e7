/**
 * The single-threaded search: permutations are generated with a fresh copy
 * of the array at every level of the recursion, and one loop keeps the
 * first-wins minimum over all of them.
 */
module SolucaoSequencial {
  import opened Permutation
  import opened Tour
  import opened Search

  /**
   * Emits every arrangement of the first n slots of the array, in generation
   * order. The swaps happen on a copy, so the array itself is never written.
   */
  method AllPermutationsHelper<T>(permutation: array<T>, permutations: PermutationList<T>, n: nat)
    requires n <= permutation.Length
    modifies permutations
    ensures permutations.items == old(permutations.items) + Gen(permutation[..], n)
    decreases n
  {
    if n == 0 {
      permutations.Add(permutation[..]);
      return;
    }
    var tempPermutation := CopyOf(permutation);
    ghost var p := permutation[..];
    for i := 0 to n
      invariant tempPermutation[..] == p
      invariant permutations.items == old(permutations.items) + Blocks(p, n, i)
    {
      Swap(tempPermutation, i, n - 1);
      AllPermutationsHelper(tempPermutation, permutations, n - 1);
      Swap(tempPermutation, i, n - 1);
      assert tempPermutation[..] == p;
    }
  }

  /** All orderings of original; original is left untouched. */
  method Permutations<T>(original: array<T>) returns (permutations: PermutationList<T>)
    ensures permutations.items == Orderings(original[..])
  {
    permutations := new PermutationList();
    AllPermutationsHelper(original, permutations, original.Length);
  }

  /** Walks the path from its first city, adding the edge to each next city. */
  method PathDistance(distances: Distances, path: seq<City>) returns (distance: int)
    requires |path| >= 1 && Walkable(distances, path)
    ensures distance == OpenDistance(distances, path)
  {
    var last := path[0];
    distance := 0;
    var rest := path[1..];
    for k := 0 to |rest|
      invariant last == path[k]
      invariant distance == OpenDistance(distances, path[..k + 1])
    {
      var next := rest[k];
      assert path[..k + 2][..k + 1] == path[..k + 1];
      distance := distance + distances[last][next];
      last := next;
    }
    assert path[..|path|] == path;
  }

  /**
   * The shortest closed tour over the given cities, found by one scan over
   * all orderings; the first city is repeated at the end.
   */
  method FindShortestPath(distances: Distances, cities: array<City>) returns (shortestPath: array<City>)
    requires cities.Length >= 1 && Distinct(cities[..]) && Complete(distances, cities[..])
    ensures shortestPath[..] == ShortestTour(distances, cities[..]) + [ShortestTour(distances, cities[..])[0]]
    ensures shortestPath.Length == cities.Length + 1 && shortestPath[cities.Length] == shortestPath[0]
    ensures multiset(shortestPath[..cities.Length]) == multiset(cities[..])
    ensures Walkable(distances, shortestPath[..])
    ensures forall q :: multiset(q) == multiset(cities[..]) ==>
      Closable(distances, q) && OpenDistance(distances, shortestPath[..]) <= ClosedDistance(distances, q)
  {
    var list := Permutations(cities);
    var paths := list.items;
    AllOrderingsClosable(distances, cities[..]);
    ghost var scores := Scores(distances, paths);
    var best: Option<ShortestPathResult> := None;
    for i := 0 to |paths|
      invariant best == Shortest(scores[..i])
    {
      var path := paths[i];
      var distance := PathDistance(distances, path);
      distance := distance + distances[path[|path| - 1]][path[0]];
      ScoresAt(distances, paths, i);
      assert scores[..i + 1][..i] == scores[..i];
      if best.None? || distance < best.value.distance {
        best := Some(ShortestPathResult(path, distance));
      }
    }
    assert scores[..|paths|] == scores;
    SelectedTour(distances, cities[..], best);
    var tour := best.value.path;
    shortestPath := CloseTour(tour);
    assert shortestPath[..] == tour + [tour[0]];
    ShortestClosedTour(distances, cities[..], shortestPath[..]);
  }
}
