/**
 * Tours over a nested distance map: the open distance of a path (the sum
 * of its consecutive edges) and its closed distance (plus the edge from the
 * last city back to the first).
 */
module Tour {
  import opened Permutation

  type City = string

  /** distances[a][b] is the weight of the edge from a to b. */
  type Distances = map<City, map<City, int>>

  predicate HasEdge(distances: Distances, from: City, to: City)
  {
    from in distances && to in distances[from]
  }

  /** Every consecutive pair of the path has an edge (no lookup would fail). */
  predicate Walkable(distances: Distances, path: seq<City>)
  {
    forall i :: 0 <= i < |path| - 1 ==> HasEdge(distances, path[i], path[i + 1])
  }

  /** The sum of distances[path[i]][path[i + 1]] for 0 <= i < |path| - 1. */
  function OpenDistance(distances: Distances, path: seq<City>): int
    requires Walkable(distances, path)
  {
    if |path| <= 1 then 0
    else
      var k := |path| - 2;
      assert HasEdge(distances, path[k], path[k + 1]);
      OpenDistance(distances, path[..k + 1]) + distances[path[k]][path[k + 1]]
  }

  /** The path is nonempty, walkable, and has the edge back to its start. */
  predicate Closable(distances: Distances, path: seq<City>)
  {
    |path| >= 1 && Walkable(distances, path) && HasEdge(distances, path[|path| - 1], path[0])
  }

  function ClosedDistance(distances: Distances, path: seq<City>): int
    requires Closable(distances, path)
  {
    OpenDistance(distances, path) + distances[path[|path| - 1]][path[0]]
  }

  /**
   * The distance map has every edge some ordering of the cities can use:
   * every ordered pair of distinct cities, and the self-edge when there is
   * only one city.
   */
  predicate Complete(distances: Distances, cities: seq<City>)
  {
    forall a, b :: a in cities && b in cities && (a != b || |cities| == 1) ==> HasEdge(distances, a, b)
  }

  /** The open distance of a path closed by repeating its start is its closed distance. */
  lemma ClosingEdge(distances: Distances, path: seq<City>)
    requires Closable(distances, path)
    ensures Walkable(distances, path + [path[0]])
    ensures OpenDistance(distances, path + [path[0]]) == ClosedDistance(distances, path)
  {
  }

  /** Every ordering of distinct cities over a complete map is a closable tour. */
  lemma OrderingClosable(distances: Distances, cities: seq<City>, tour: seq<City>)
    requires |cities| >= 1 && Distinct(cities) && Complete(distances, cities)
    requires multiset(tour) == multiset(cities)
    ensures Closable(distances, tour)
  {
    assert |tour| == |multiset(tour)| == |multiset(cities)| == |cities|;
    DistinctRearranged(cities, tour);
    forall i | 0 <= i < |tour|
      ensures tour[i] in cities
    {
      assert tour[i] in multiset(tour);
    }
    assert tour[|tour| - 1] != tour[0] || |tour| == 1;
  }

  /** A fresh array holding the path followed by its first city. */
  method CloseTour(path: seq<City>) returns (closed: array<City>)
    requires |path| >= 1
    ensures closed.Length == |path| + 1 && closed[..|path|] == path
    ensures closed[|path|] == closed[0]
  {
    closed := new City[|path| + 1](i requires 0 <= i <= |path| => if i < |path| then path[i] else "");
    closed[|path|] := closed[0];
  }
}
