/**
 * The running first-wins minimum both searches keep, and the tour it selects
 * among all orderings of the cities.
 *
 * Each path is scored with its closed distance. Scanning the scored paths in
 * order, a candidate replaces the current best only when its distance is
 * strictly smaller, so among tours of equal distance the earliest one wins.
 * None stands for the state before any tour is seen: a null path with
 * distance Integer.MAX_VALUE in the source.
 */
module Search {
  import opened Permutation
  import opened Tour

  datatype Option<T> = None | Some(value: T)

  /** A tour together with its closed distance. */
  datatype ShortestPathResult = ShortestPathResult(path: seq<City>, distance: int)

  predicate AllClosable(distances: Distances, paths: seq<seq<City>>)
  {
    forall i :: 0 <= i < |paths| ==> Closable(distances, paths[i])
  }

  /** Each path paired with its closed distance, in order. */
  function Scores(distances: Distances, paths: seq<seq<City>>): (scores: seq<ShortestPathResult>)
    requires AllClosable(distances, paths)
    ensures |scores| == |paths|
  {
    if |paths| == 0 then []
    else
      var last := |paths| - 1;
      assert AllClosable(distances, paths[..last]) by {
        assert forall i :: 0 <= i < last ==> paths[..last][i] == paths[i];
      }
      Scores(distances, paths[..last]) + [ShortestPathResult(paths[last], ClosedDistance(distances, paths[last]))]
  }

  /** The score at index i is path i with its closed distance. */
  lemma {:induction false} ScoresAt(distances: Distances, paths: seq<seq<City>>, i: nat)
    requires AllClosable(distances, paths) && i < |paths|
    ensures Scores(distances, paths)[i] == ShortestPathResult(paths[i], ClosedDistance(distances, paths[i]))
    decreases |paths|
  {
    var last := |paths| - 1;
    if i < last {
      assert paths[..last][i] == paths[i];
      assert AllClosable(distances, paths[..last]) by {
        assert forall j :: 0 <= j < last ==> paths[..last][j] == paths[j];
      }
      ScoresAt(distances, paths[..last], i);
    }
  }

  /** Scoring a slice gives the slice of the scores. */
  lemma ScoresSlice(distances: Distances, paths: seq<seq<City>>, lo: nat, hi: nat)
    requires AllClosable(distances, paths) && lo <= hi <= |paths|
    ensures AllClosable(distances, paths[lo..hi])
    ensures Scores(distances, paths[lo..hi]) == Scores(distances, paths)[lo..hi]
  {
    assert forall i :: 0 <= i < hi - lo ==> paths[lo..hi][i] == paths[lo + i];
    forall i | 0 <= i < hi - lo
      ensures Scores(distances, paths[lo..hi])[i] == Scores(distances, paths)[lo + i]
    {
      ScoresAt(distances, paths[lo..hi], i);
      ScoresAt(distances, paths, lo + i);
    }
  }

  /** One step of the scan: the candidate wins only when strictly shorter. */
  function Pick(best: Option<ShortestPathResult>, candidate: Option<ShortestPathResult>): Option<ShortestPathResult>
  {
    if candidate.Some? && (best.None? || candidate.value.distance < best.value.distance) then candidate else best
  }

  /** The result of scanning scored candidates in order with the first-wins minimum. */
  function Shortest(candidates: seq<ShortestPathResult>): Option<ShortestPathResult>
  {
    if |candidates| == 0 then None
    else Pick(Shortest(candidates[..|candidates| - 1]), Some(candidates[|candidates| - 1]))
  }

  /** The result of scanning per-chunk results in order with the same rule. */
  function Reduce(results: seq<Option<ShortestPathResult>>): Option<ShortestPathResult>
  {
    if |results| == 0 then None
    else Pick(Reduce(results[..|results| - 1]), results[|results| - 1])
  }

  /**
   * candidates[k] has the least distance of all candidates, and every
   * candidate before it is strictly longer: the one a strict-less-than scan
   * keeps.
   */
  ghost predicate FirstMinimumAt(candidates: seq<ShortestPathResult>, k: int)
  {
    && 0 <= k < |candidates|
    && (forall j :: 0 <= j < |candidates| ==> candidates[k].distance <= candidates[j].distance)
    && (forall j :: 0 <= j < k ==> candidates[j].distance > candidates[k].distance)
  }

  /** The index the strict-less-than scan ends on. */
  function FirstMinimumIndex(candidates: seq<ShortestPathResult>): (k: nat)
    requires |candidates| > 0
    ensures k < |candidates|
  {
    var last := |candidates| - 1;
    if last == 0 then 0
    else
      var k := FirstMinimumIndex(candidates[..last]);
      if candidates[last].distance < candidates[k].distance then last else k
  }

  /**
   * The scan yields nothing exactly on an empty list; otherwise it yields
   * the candidate at the first index whose distance is minimal.
   */
  lemma {:induction false} ShortestIsFirstMinimum(candidates: seq<ShortestPathResult>)
    ensures Shortest(candidates).None? <==> |candidates| == 0
    ensures |candidates| > 0 ==>
      && FirstMinimumAt(candidates, FirstMinimumIndex(candidates))
      && Shortest(candidates) == Some(candidates[FirstMinimumIndex(candidates)])
  {
    var last := |candidates| - 1;
    if last > 0 {
      var init := candidates[..last];
      ShortestIsFirstMinimum(init);
      var k := FirstMinimumIndex(init);
      assert candidates[k] == init[k];
      if candidates[last].distance < candidates[k].distance {
        assert FirstMinimumAt(candidates, last);
      } else {
        assert FirstMinimumAt(candidates, k);
      }
    }
  }

  /** At most one index is the first minimum. */
  lemma FirstMinimumUnique(candidates: seq<ShortestPathResult>, k: int, l: int)
    requires FirstMinimumAt(candidates, k) && FirstMinimumAt(candidates, l)
    ensures k == l
  {
    var dk, dl := candidates[k].distance, candidates[l].distance;
    assert dk <= dl && dl <= dk;
    assert k < l ==> dk > dl;
    assert l < k ==> dl > dk;
  }

  /**
   * What one scan over a nonempty list of closable paths returns: the path
   * at the first index of least closed distance, paired with that distance.
   */
  lemma ShortestOfScores(distances: Distances, paths: seq<seq<City>>)
    requires AllClosable(distances, paths) && |paths| > 0
    ensures var k := FirstMinimumIndex(Scores(distances, paths));
      && Shortest(Scores(distances, paths)) == Some(ShortestPathResult(paths[k], ClosedDistance(distances, paths[k])))
      && (forall j :: 0 <= j < |paths| ==> ClosedDistance(distances, paths[k]) <= ClosedDistance(distances, paths[j]))
      && (forall j :: 0 <= j < k ==> ClosedDistance(distances, paths[j]) > ClosedDistance(distances, paths[k]))
  {
    var scores := Scores(distances, paths);
    ShortestIsFirstMinimum(scores);
    var k := FirstMinimumIndex(scores);
    ScoresAt(distances, paths, k);
    assert FirstMinimumAt(scores, k);
    forall j | 0 <= j < |paths|
      ensures ClosedDistance(distances, paths[k]) <= ClosedDistance(distances, paths[j])
    {
      ScoresAt(distances, paths, j);
      assert scores[k].distance <= scores[j].distance;
    }
    forall j | 0 <= j < k
      ensures ClosedDistance(distances, paths[j]) > ClosedDistance(distances, paths[k])
    {
      ScoresAt(distances, paths, j);
      assert scores[j].distance > scores[k].distance;
    }
  }

  lemma PickAssociative(a: Option<ShortestPathResult>, b: Option<ShortestPathResult>, c: Option<ShortestPathResult>)
    ensures Pick(Pick(a, b), c) == Pick(a, Pick(b, c))
  {
  }

  /** Scanning a concatenation is picking between the scans of its two parts. */
  lemma {:induction false} ShortestConcat(a: seq<ShortestPathResult>, b: seq<ShortestPathResult>)
    ensures Shortest(a + b) == Pick(Shortest(a), Shortest(b))
    decreases |b|
  {
    if |b| == 0 {
      assert a + b == a;
    } else {
      var init := b[..|b| - 1];
      assert (a + b)[..|a + b| - 1] == a + init;
      ShortestConcat(a, init);
      PickAssociative(Shortest(a), Shortest(init), Some(b[|b| - 1]));
    }
  }

  /** Every ordering of the cities is a closable tour. */
  lemma AllOrderingsClosable(distances: Distances, cities: seq<City>)
    requires |cities| >= 1 && Distinct(cities) && Complete(distances, cities)
    ensures AllClosable(distances, Orderings(cities))
    ensures |Orderings(cities)| >= 1
  {
    OrderingsCharacterised(cities);
    forall i | 0 <= i < |Orderings(cities)|
      ensures Closable(distances, Orderings(cities)[i])
    {
      assert Orderings(cities)[i] in Orderings(cities);
      OrderingClosable(distances, cities, Orderings(cities)[i]);
    }
  }

  /** The tour both searches select: the first shortest ordering, in generation order. */
  function ShortestTour(distances: Distances, cities: seq<City>): (tour: seq<City>)
    requires |cities| >= 1 && Distinct(cities) && Complete(distances, cities)
    ensures |tour| == |cities|
  {
    AllOrderingsClosable(distances, cities);
    var scores := Scores(distances, Orderings(cities));
    ShortestIsFirstMinimum(scores);
    OrderingsCharacterised(cities);
    var tour := Shortest(scores).value.path;
    ScoresAt(distances, Orderings(cities), FirstMinimumIndex(scores));
    assert tour in Orderings(cities);
    assert |tour| == |multiset(tour)| == |multiset(cities)| == |cities|;
    tour
  }

  /**
   * The selected tour visits every city once, no ordering of the cities has
   * a shorter closed distance, and every ordering generated before it is
   * strictly longer.
   */
  lemma ShortestTourIsOptimal(distances: Distances, cities: seq<City>)
    requires |cities| >= 1 && Distinct(cities) && Complete(distances, cities)
    ensures var tour := ShortestTour(distances, cities);
      && multiset(tour) == multiset(cities)
      && Closable(distances, tour)
      && (forall q :: multiset(q) == multiset(cities) ==>
            Closable(distances, q) && ClosedDistance(distances, tour) <= ClosedDistance(distances, q))
      && AllClosable(distances, Orderings(cities))
      && exists k :: 0 <= k < |Orderings(cities)| && Orderings(cities)[k] == tour
           && forall j :: 0 <= j < k ==>
                ClosedDistance(distances, Orderings(cities)[j]) > ClosedDistance(distances, tour)
  {
    var paths := Orderings(cities);
    AllOrderingsClosable(distances, cities);
    OrderingsCharacterised(cities);
    var scores := Scores(distances, paths);
    ShortestIsFirstMinimum(scores);
    var tour := ShortestTour(distances, cities);
    var k := FirstMinimumIndex(scores);
    ScoresAt(distances, paths, k);
    assert tour == paths[k] && tour in paths;
    forall q | multiset(q) == multiset(cities)
      ensures Closable(distances, q) && ClosedDistance(distances, tour) <= ClosedDistance(distances, q)
    {
      assert q in paths;
      var j :| 0 <= j < |paths| && paths[j] == q;
      ScoresAt(distances, paths, j);
      assert scores[k].distance <= scores[j].distance;
    }
    forall j | 0 <= j < k
      ensures ClosedDistance(distances, paths[j]) > ClosedDistance(distances, tour)
    {
      ScoresAt(distances, paths, j);
      assert scores[j].distance > scores[k].distance;
    }
  }

  /** A scan over the scored orderings finds a tour, and it is the selected one. */
  lemma SelectedTour(distances: Distances, cities: seq<City>, best: Option<ShortestPathResult>)
    requires |cities| >= 1 && Distinct(cities) && Complete(distances, cities)
    requires AllClosable(distances, Orderings(cities))
    requires best == Shortest(Scores(distances, Orderings(cities)))
    ensures best.Some? && best.value.path == ShortestTour(distances, cities)
    ensures |best.value.path| == |cities|
  {
    AllOrderingsClosable(distances, cities);
    var scores := Scores(distances, Orderings(cities));
    ShortestIsFirstMinimum(scores);
    assert ShortestTour(distances, cities) == Shortest(scores).value.path;
  }

  /**
   * The selected tour with its first city repeated at the end: one longer
   * than the city list, ending where it starts, visiting every city once
   * before that, and no longer (as an open path) than any closed ordering.
   */
  lemma ShortestClosedTour(distances: Distances, cities: seq<City>, closed: seq<City>)
    requires |cities| >= 1 && Distinct(cities) && Complete(distances, cities)
    requires closed == ShortestTour(distances, cities) + [ShortestTour(distances, cities)[0]]
    ensures |closed| == |cities| + 1 && closed[|cities|] == closed[0]
    ensures multiset(closed[..|cities|]) == multiset(cities)
    ensures Walkable(distances, closed)
    ensures OpenDistance(distances, closed) == ClosedDistance(distances, ShortestTour(distances, cities))
    ensures forall q :: multiset(q) == multiset(cities) ==>
      Closable(distances, q) && OpenDistance(distances, closed) <= ClosedDistance(distances, q)
  {
    var tour := ShortestTour(distances, cities);
    ShortestTourIsOptimal(distances, cities);
    ClosingEdge(distances, tour);
    assert closed[..|cities|] == tour;
  }
}
