# Brute-force travelling salesman search, modelled in Dafny

The Java program finds the shortest closed tour over the cities of a nested
distance map (`Map<String, Map<String, Integer>>`). It tries every ordering of
the cities. Two variants do this:

- `SolucaoSequencial` scans all orderings in one loop.
- `SolucaoThreads` cuts the list of orderings into contiguous chunks of
  `size / numThreads + 1`, scans each chunk in its own task, and reduces the
  task results in submission order.

Both generate the orderings with the same swap-based recursive generator. Both
keep a running minimum with a strict `<`, so among tours of equal length the
first one generated wins. Both return the winning ordering with its first city
appended.

The model has one module per concern:

- `Permutation`: the generator as a specification (`Gen`, `Blocks`, `Orderings`), the
  in-place `Swap`, `CopyOf` (`Arrays.copyOf`), and the list the generator appends to (`PermutationList`).
- `Tour`: open and closed distances over the distance map.
- `Search`: the first-wins scan (`Shortest`, `Reduce`) and the tour it selects (`ShortestTour`). The datatype `ShortestPathResult` stands for the source's immutable (path, distance) pair (`SolucaoThreads.java:55-71`).
- `Chunking`: the chunk bounds and the theorem that the chunked search agrees with the single scan.
- `SolucaoThreads` and `SolucaoSequencial`: the two source files, as imperative methods proved against those specifications.

The central results are these:

- `Chunking.ChunkedSearchAgrees`: reducing the chunk minima in submission order gives exactly the first-wins minimum of the whole list.
- `Search.ShortestTourIsOptimal`: that minimum is a rearrangement of the cities, and no rearrangement is shorter.

It follows that `SolucaoThreads.FindShortestPath` and `SolucaoSequencial.FindShortestPath` return arrays with the
same contents for the same city order, whatever the number of threads.

## Model

| member | source | states |
|---|---|---|
| Permutation.Swap | src/algoritmos/SolucaoThreads.java:20-24 | the array afterwards holds the old elements at `first` and `second` exchanged and every other slot unchanged (`Swapped`); `SolucaoSequencial.java:15-19` is the same code |
| Permutation.SwappedMultiset | src/algoritmos/SolucaoSequencial.java:15-19 | a swap only rearranges: the multiset of elements is unchanged |
| Permutation.CopyOf | src/algoritmos/SolucaoThreads.java:40 | `Arrays.copyOf` with the same length yields a fresh array with the same contents |
| Permutation.PermutationList.constructor | src/algoritmos/SolucaoThreads.java:39 | a new list is empty |
| Permutation.PermutationList.Add | src/algoritmos/SolucaoThreads.java:28 | `add` appends exactly the given element at the end |
| Permutation.GenLength | src/algoritmos/SolucaoThreads.java:26-36 | the generator started with prefix length n emits exactly n! arrangements |
| Permutation.GenSound | src/algoritmos/SolucaoThreads.java:27-34 | every emitted arrangement has the length of the start array, agrees with it on indices ≥ n, and is a rearrangement (multiset-equal) of it |
| Permutation.GenComplete | src/algoritmos/SolucaoThreads.java:27-34 | conversely, every rearrangement that leaves indices ≥ n in place is emitted |
| Permutation.GenDistinct | src/algoritmos/SolucaoThreads.java:27-34 | when the first n elements are pairwise distinct, no arrangement is emitted twice |
| Permutation.OrderingsCharacterised | src/algoritmos/SolucaoThreads.java:38-42 | all orderings of a sequence: there are \|s\|! of them, they are exactly its rearrangements, and they are pairwise distinct when its elements are |
| Permutation.DistinctRearranged | src/algoritmos/SolucaoThreads.java:97 | a rearrangement of distinct cities (the key set) is again duplicate-free |
| SolucaoThreads.AllPermutationsHelper | src/algoritmos/SolucaoThreads.java:26-36 | appends `Gen(p, n)` for the array contents p on entry, and leaves the array exactly as it found it |
| SolucaoThreads.Permutations | src/algoritmos/SolucaoThreads.java:38-42 | returns a list holding `Orderings(original)`; the original is not written (it is not in the frame) |
| SolucaoSequencial.AllPermutationsHelper | src/algoritmos/SolucaoSequencial.java:21-32 | appends `Gen(p, n)` while writing only the list: the swaps happen on `tempPermutation`, a fresh copy |
| SolucaoSequencial.Permutations | src/algoritmos/SolucaoSequencial.java:34-38 | returns `Orderings(original)`, the same list in the same order as the threaded generator |
| SolucaoThreads.PathDistance | src/algoritmos/SolucaoThreads.java:44-52 | returns the sum of `distances[path[i]][path[i+1]]` over consecutive pairs (`OpenDistance`), 0 for fewer than two cities |
| SolucaoSequencial.PathDistance | src/algoritmos/SolucaoSequencial.java:40-48 | on a nonempty path, walking from `path[0]` returns the same `OpenDistance` as the threaded version |
| Tour.ClosingEdge | src/algoritmos/SolucaoSequencial.java:63-64 | the path with its first city appended is walkable, and its open distance is the closed distance of the path |
| Tour.OrderingClosable | src/algoritmos/SolucaoThreads.java:84-86 | over a complete distance map, every ordering of distinct cities has all its edges and the closing edge, so no lookup fails |
| Tour.CloseTour | src/algoritmos/SolucaoThreads.java:128-129 | the result has length n+1, holds the tour in its first n slots, and its last element equals its first |
| Search.ScoresSlice | src/algoritmos/SolucaoThreads.java:109 | scoring a sublist gives the corresponding slice of the scores of the whole list |
| Search.ShortestIsFirstMinimum | src/algoritmos/SolucaoThreads.java:82-91 | the strict-`<` scan yields nothing exactly on an empty list; otherwise it yields the candidate at an index whose distance is ≤ every other, with every earlier candidate strictly longer |
| Search.FirstMinimumUnique | src/algoritmos/SolucaoThreads.java:87 | that index is unique, so the scan's result is fully determined |
| Search.ShortestOfScores | src/algoritmos/SolucaoThreads.java:81-92 | a task on a nonempty chunk returns the first path of least closed distance, paired with that closed distance |
| SolucaoThreads.ShortestPathTaskCall | src/algoritmos/SolucaoThreads.java:81-93 | the task's loop (pathDistance plus the closing edge, strict `<`) returns the first-wins minimum of its chunk's scored paths, None (null, `Integer.MAX_VALUE`) for an empty chunk |
| Search.PickAssociative | src/algoritmos/SolucaoThreads.java:120-123 | the strict-`<` update step is associative, so results can be combined chunk-wise |
| Search.ShortestConcat | src/algoritmos/SolucaoThreads.java:116-124 | scanning a concatenation equals combining the scans of its two parts with the same step |
| Chunking.ChunksAdvance | src/algoritmos/SolucaoThreads.java:106-108 | each iteration takes off the chunk `[i, min(i + chunkSize, size))`, and the rest starts at `i + chunkSize` |
| Chunking.ChunksTile | src/algoritmos/SolucaoThreads.java:105-108 | the chunks are nonempty and contiguous, run from 0 to size, and none is longer than `chunkSize` |
| Chunking.TilesPartition | src/algoritmos/SolucaoThreads.java:106-109 | such a tiling covers every index of `[0, size)` and its chunks do not overlap |
| Chunking.ChunkCount | src/algoritmos/SolucaoThreads.java:100-106 | with `chunkSize = size / numThreads + 1` there are at most `numThreads` chunks |
| Chunking.ChunkMinimaSnoc | src/algoritmos/SolucaoThreads.java:109-113 | submitting one more chunk appends that chunk's minimum to the futures |
| Chunking.ReduceTiling | src/algoritmos/SolucaoThreads.java:116-124 | reducing in order the minima of a tiling of `[0, hi)` gives the minimum of the first `hi` candidates |
| Chunking.ChunkedSearchAgrees | src/algoritmos/SolucaoThreads.java:105-124 | reducing the chunk minima in submission order gives exactly the first-wins minimum of the whole list, for every `numThreads` ≥ 1 |
| SolucaoThreads.SubmitTasks | src/algoritmos/SolucaoThreads.java:103-114 | the futures are the minima of the chunks `Chunks(size, size / numThreads + 1, 0)` in chunk order, and there are at most `numThreads` of them |
| SolucaoThreads.CollectResults | src/algoritmos/SolucaoThreads.java:116-124 | the reduction is `Reduce(futures)`: one of the futures, no longer than any present future, and later ones win only when strictly shorter |
| Search.ShortestTourIsOptimal | src/algoritmos/SolucaoSequencial.java:55-62 | the selected tour is a rearrangement of the cities and closable; no rearrangement has a shorter closed distance; every ordering generated before it is strictly longer |
| Search.SelectedTour | src/algoritmos/SolucaoSequencial.java:53-62 | scanning the scored orderings always finds a tour (never null), and it is `ShortestTour` with \|cities\| elements |
| Search.ShortestClosedTour | src/algoritmos/SolucaoSequencial.java:63-64 | the selected tour with its start appended has length n+1, ends where it starts, holds the cities once each before that, and its open distance is the minimum closed distance |
| SolucaoThreads.FindShortestPath | src/algoritmos/SolucaoThreads.java:96-131 | returns `ShortestTour + [its first city]`: length n+1, last element equal to first, a rearrangement of the cities before that, and no longer than any closed ordering |
| SolucaoSequencial.FindShortestPath | src/algoritmos/SolucaoSequencial.java:50-66 | the single scan returns exactly the same array contents as the threaded search, with the same guarantees |

## Left out

- `main` in both files: the sample map, timing with `System.nanoTime`, and console output are not modelled.
- Concurrency: `ExecutorService`, `Future.get`, `shutdown` and their checked exceptions are not modelled. Each task runs as a sequential call on its chunk. The futures are the task results, in submission order. The tasks share nothing but the read-only distance map and the list, so this loses no behaviour of the result.
- `Runtime.availableProcessors()` is replaced by the parameter `numThreads` ≥ 1.
- `distances.keySet().toArray` has an unspecified order. The cities are an input array of distinct names, and every result is stated for that order.
- Missing edges: `Map.get` returning null and the resulting `NullPointerException` are not modelled. The precondition `Complete` demands every edge between distinct cities, and the self-edge when there is one city.
- Zero cities: the model requires at least one city, because both files throw on the single empty ordering.
  - `SolucaoThreads` throws in the task at `path[path.length - 1]` (line 86). The exception surfaces from `future.get()` at line 119 as an `ExecutionException`, and `executor.shutdown()` at line 126 is never reached.
  - `SolucaoSequencial` throws earlier, at `String last = path[0]` in `pathDistance` (line 41), before line 57 is reached.
- Java `int` arithmetic: distances are unbounded integers, and the sentinel `Integer.MAX_VALUE` with a null path is `None`. The model is exact when every closed distance fits in an `int` and stays below `Integer.MAX_VALUE`. Above that the source would wrap around or keep a null path; the model does not capture this.
- SolucaoThreads.PathDistance: sums in unbounded integers, not with 32-bit wrap-around.
- SolucaoSequencial.PathDistance: sums in unbounded integers, not with 32-bit wrap-around.
- SolucaoSequencial.FindShortestPath: adds the closing edge in unbounded integers and starts from None, not from `Integer.MAX_VALUE`.
- SolucaoSequencial.AllPermutationsHelper: the emitted element is a snapshot of the array contents, not the array reference the source stores. At the leaf the source adds the level-one copy itself. Its only later write is `swap(tempPermutation, 0, 0)`, a no-op, so the contents match, but aliasing is not modelled.
- Both `PathDistance` methods take the path as a sequence value, not as a `String[]`.
- SolucaoThreads.ShortestPathTaskCall: its postcondition is stated through `Shortest(Scores(...))`. The first-minimum property it implies is proved separately in `Search.ShortestOfScores`.
