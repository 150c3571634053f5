# Wikispeedia link graph: construction, degree ranking and degrees of separation

This project is a Dafny model of the analytic core of the Wikispeedia link-graph tool, with proofs about that model. The tool reads a list of directed links between Wikipedia articles. It numbers the articles in order of first appearance and builds the graph and its transpose as sorted adjacency lists. It then does three things:

- tabulates the out-degree distribution;
- reports the largest degrees, highest first;
- runs a breadth-first search from every node and summarises the distances between all pairs `i < j`: mean, lower-middle median, maximum and population variance.

The modules follow the three source files:

- `Reader` (`reader.dfy`) models `reader.rs`: the `Graph` struct, `reverse_edges` and `create_directed`.
  - `Graph` is a class whose methods update `outedges` in place.
  - `Adjacency(n, edges)` is the value the construction must produce: list `u` is the ascending arrangement of the targets of `u`, with duplicates kept.
- `Loader` (`loader.dfy`) models the numbering half of `load_tsv`. It works over rows that are already split into `(from, to)` name pairs.
  - `FirstSeen` is the order in which names first occur. The index a name receives is its position in that order.
- `Distribution` (`distribution.dfy`) models `calculate_degree_distribution` and the returned vector of `print_top_nodes`.
  - `RankedDegrees` is the ascending sequence of all degrees.
- `Paths` (`paths.dfy`) defines walks, the least hop count `Dist` and the vector of shortest distances. These are the specification that `bfs` is proved against.
- `Separation` (`separation.dfy`) models `bfs` and the collection loops of `distance_distribution`.
- `Statistics` (`statistics.dfy`) models the expression-style statistics over the sorted distances.
- `Sorting` (`sorting.dfy`) holds the ascending sort that stands for `Vec::sort` and `sort_unstable`.
  - `SortedUnique` shows that any sort that gives a sorted permutation returns the same sequence.
- `Fixtures` (`fixtures.dfy`) proves the expected results of the repository's tests on the seven-node test graph.
  - The graph is the edge list written in `test_reader`.

Natural numbers stand for `usize`. `None` marks an unreachable node, as in the source. The statistics are exact reals.

## Model

| member | source | states |
|---|---|---|
| Reader.Swapped | wikispeedia_project/src/reader.rs:26-33 | same length, and element k is the k-th input pair with its ends exchanged |
| Reader.ReverseEdges | wikispeedia_project/src/reader.rs:26-33 | the push loop returns the list with every pair swapped, position by position |
| Reader.SwappedInvolutive | wikispeedia_project/src/reader.rs:26-33 | reversing the edge list twice gives back the original list |
| Reader.SwappedInRange | wikispeedia_project/src/reader.rs:116-119 | if every endpoint is below n, the reversed list's endpoints are below n too |
| Reader.SwappedCount | wikispeedia_project/src/reader.rs:26-33 | (u, v) occurs in the reversed list exactly as often as (v, u) occurs in the input |
| Reader.TargetsCount | wikispeedia_project/src/reader.rs:36-41 | the targets pushed for u hold v exactly as often as the edge (u, v) occurs: duplicates kept, nothing dropped |
| Reader.Adjacency | wikispeedia_project/src/reader.rs:47-53 | n lists; list u is sorted and is a permutation of the targets of u |
| Reader.AdjacencyCount | wikispeedia_project/src/reader.rs:36-51 | v occurs in list u of the built graph exactly as often as the edge (u, v) occurs in the input |
| Reader.AdjacencyWellFormed | wikispeedia_project/src/reader.rs:38-40 | when every endpoint is below n, every stored target is a valid node id |
| Reader.TransposeDuality | wikispeedia_project/src/reader.rs:116-119 | v occurs in list u of the graph built from the reversed edges as often as u occurs in list v of the original graph |
| Reader.TargetsTotal | wikispeedia_project/src/reader.rs:36-41 | pushing every edge onto its source's list gives lists whose lengths add up to the number of edges |
| Reader.EdgeConservation | wikispeedia_project/src/reader.rs:47-53 | the built graph's list lengths add up to the number of edges |
| Reader.Graph.Empty | wikispeedia_project/src/reader.rs:49 | a graph with the given n and n empty lists |
| Reader.Graph.AddDirectedEdges | wikispeedia_project/src/reader.rs:36-41 | n and the number of lists are unchanged; each list u gets the targets of u appended, in edge order |
| Reader.Graph.SortGraphLists | wikispeedia_project/src/reader.rs:42-46 | n and the number of lists are unchanged; each list is replaced by its ascending sort |
| Reader.Graph.CreateDirected | wikispeedia_project/src/reader.rs:47-53 | a fresh graph with the given n whose lists are exactly Adjacency(n, edges); it is well formed when all endpoints are below n |
| Sorting.Insert | wikispeedia_project/src/reader.rs:44 | inserting into a sorted sequence keeps it sorted and adds exactly one copy of the element |
| Sorting.Sort | wikispeedia_project/src/reader.rs:44 | the result is sorted, has the input's length and is a permutation of the input |
| Sorting.SortedUnique | wikispeedia_project/src/seperation.rs:51 | two sorted sequences with the same elements are equal, so the tie order of an unstable sort cannot matter |
| Sorting.SortPermutationInvariant | wikispeedia_project/src/seperation.rs:51 | sorting two permutations of each other gives the same sequence |
| Sorting.SortSorted | wikispeedia_project/src/reader.rs:44 | sorting a sorted sequence leaves it unchanged |
| Loader.NamesOf | wikispeedia_project/src/reader.rs:80-92 | both names of every row are in the set of names |
| Loader.NamesOfOnlyRows | wikispeedia_project/src/reader.rs:80-92 | every name in the set comes from some row |
| Loader.FirstSeenDistinct | wikispeedia_project/src/reader.rs:80-92 | the first-seen order has no duplicates and holds exactly the names of the rows |
| Loader.Position | wikispeedia_project/src/reader.rs:110-111 | the position found for a listed name holds that name |
| Loader.PositionUnique | wikispeedia_project/src/reader.rs:110-111 | in a duplicate-free order, a name's position is the one index that holds it |
| Loader.NumberedEdges | wikispeedia_project/src/reader.rs:110-113 | one edge per row, with every endpoint below the number of distinct names |
| Loader.AddName | wikispeedia_project/src/reader.rs:80-91 | a name is in the map exactly when it is in the order; a new name numbered with the current count keeps the numbering exact |
| Loader.FirstSeenStep | wikispeedia_project/src/reader.rs:80-92 | one more row notes its from-name, then its to-name, in that order |
| Loader.NumbersRange | wikispeedia_project/src/reader.rs:80-92 | numbered names are exactly the listed names; each index is below the count and is the name's position; distinct names get distinct indices |
| Loader.NumberingComplete | wikispeedia_project/src/reader.rs:80-92 | after all rows, the map's keys are the names of the rows, and the k-th first-seen name has index k; indices are distinct and below the count |
| Loader.AssignIndices | wikispeedia_project/src/reader.rs:80-92 | the count is the number of distinct names; the k-th new name gets index k; keys are exactly the names in the rows; indices are distinct and below the count |
| Loader.IndexEdges | wikispeedia_project/src/reader.rs:110-113 | one edge per row, made of the indices of the row's two names |
| Loader.IndexedEdgesAreNumbered | wikispeedia_project/src/reader.rs:110-116 | the looked-up edges equal the first-seen numbering of the rows, and every endpoint is below the node count |
| Loader.LoadGraphs | wikispeedia_project/src/reader.rs:116-124 | both graphs have n equal to the number of distinct names; the graph is Adjacency of the numbered edges and the reverse graph is Adjacency of the swapped ones; both are well formed; the reversed name map sends each index below n to the name that received it |
| Distribution.CountDegreeStep | wikispeedia_project/src/distribution.rs:9-13 | one more list adds one to the count of its own length and leaves every other count unchanged |
| Distribution.SumValuesIncrement | wikispeedia_project/src/distribution.rs:12 | incrementing one entry, or creating it at 1, raises the sum of the counts by one |
| Distribution.CalculateDegreeDistribution | wikispeedia_project/src/distribution.rs:6-16 | a key is present exactly when some list has that length; its value is the number of such lists; the values add up to the number of lists; the graph is not modified |
| Distribution.DistributionCountsPositive | wikispeedia_project/src/distribution.rs:12 | every stored count is at least one |
| Distribution.Degrees | wikispeedia_project/src/distribution.rs:85 | the k-th entry is the list length of the k-th id |
| Distribution.AllNodes | wikispeedia_project/src/distribution.rs:84 | the ids 0 to n-1 in order |
| Distribution.InsertByDegreeDegrees | wikispeedia_project/src/distribution.rs:85 | inserting an id by degree inserts its degree into the degree sequence |
| Distribution.SortByDegree | wikispeedia_project/src/distribution.rs:84-85 | a permutation of the ids |
| Distribution.SortByDegreeDegrees | wikispeedia_project/src/distribution.rs:84-85 | the degrees of the ids sorted by degree are the ascending sort of their degrees |
| Distribution.DegreesPermutation | wikispeedia_project/src/distribution.rs:84-85 | permuting the ids permutes their degrees |
| Distribution.TiesDoNotMatter | wikispeedia_project/src/distribution.rs:85 | every permutation of the node ids that is sorted by degree has the same degree sequence, whatever order ties are in |
| Distribution.SortedIdsRanked | wikispeedia_project/src/distribution.rs:84-85 | read in order, the ids sorted by degree give the ascending degree sequence |
| Distribution.FromTheBack | wikispeedia_project/src/distribution.rs:88-93 | degrees read from the back of the sorted ids are the largest degrees, highest first, and never increase |
| Distribution.DegreesFromBack | wikispeedia_project/src/distribution.rs:88-93 | min(top_n, number of ids) values; the k-th is the degree of the k-th id from the back |
| Distribution.TopNodes | wikispeedia_project/src/distribution.rs:78-99 | exactly min(top_n, n) values; the k-th is the k-th largest out-degree over distinct nodes; they never increase; the graph is not modified |
| Paths.LeastSteps | wikispeedia_project/src/seperation.rs:23 | a node reachable in L steps has a least number of steps m ≤ L |
| Paths.Dist | wikispeedia_project/src/seperation.rs:23 | Some(d): x is reachable in d steps and in no fewer; None exactly when x is unreachable |
| Paths.ShortestVector | wikispeedia_project/src/seperation.rs:23 | one entry per node, holding Dist from the start |
| Paths.WalkBound | wikispeedia_project/src/seperation.rs:13-19 | under a vector that is closed under edges, every walk from the start ends at a node whose distance is at most the walk's length |
| Paths.NoShorterWalk | wikispeedia_project/src/seperation.rs:13-19 | if x is reachable in l steps, a closed vector gives x a distance of at most l |
| Paths.SupportedReach | wikispeedia_project/src/seperation.rs:16 | a vector in which each positive distance has a predecessor one less makes every recorded distance reachable |
| Paths.DistanceExactAt | wikispeedia_project/src/seperation.rs:13-23 | a vector that is closed and supported, with 0 at the start, holds exactly Dist at every node |
| Paths.DistanceVectorExact | wikispeedia_project/src/seperation.rs:13-23 | such a vector is the shortest-distance vector |
| Paths.ShortestClosed | wikispeedia_project/src/seperation.rs:14-17 | the shortest-distance vector is closed: an edge v→u with Some(d) at v gives u at most d+1 |
| Paths.ShortestSupported | wikispeedia_project/src/seperation.rs:16 | in the shortest-distance vector, every positive distance has a predecessor one less |
| Paths.Predecessor | wikispeedia_project/src/seperation.rs:16 | a node at distance k > 0 has an in-neighbour at distance k-1 |
| Paths.Reversed | wikispeedia_project/src/reader.rs:116-119 | a walk read backwards: same length, and element k is the element k places from the end; used to relate the walks of the graph and of the transpose built at line 119 |
| Paths.ReverseWalk | wikispeedia_project/src/reader.rs:116-119 | a walk of the graph read backwards is a walk of its transpose |
| Paths.ReachableReversed | wikispeedia_project/src/reader.rs:116-119 | x is reachable from s in L steps exactly when s is reachable from x in L steps of the transpose |
| Paths.DistTransposed | wikispeedia_project/src/seperation.rs:6-24 | the shortest distance from u to v in a transpose equals the shortest distance from v to u in the graph |
| Paths.AdjacencyTransposed | wikispeedia_project/src/reader.rs:116-119 | the graph built from the reversed edges is the transpose of the graph built from the edges |
| Paths.DistReversed | wikispeedia_project/src/reader.rs:116-119 | the breadth-first distance from u to v in the reverse graph equals the one from v to u in the graph, for every edge list |
| Separation.CountNoneSettle | wikispeedia_project/src/seperation.rs:15-16 | settling an unset slot lowers the number of unset slots by one, which bounds the loop |
| Separation.QueuedPush | wikispeedia_project/src/seperation.rs:16-17 | enqueuing a newly settled node keeps every queued node settled, and keeps queue distances in order |
| Separation.ParentPush | wikispeedia_project/src/seperation.rs:16 | the node that settles u is an in-neighbour of u with distance one less |
| Separation.ParentSupported | wikispeedia_project/src/seperation.rs:16 | recorded predecessors make the distance vector supported |
| Separation.StartFrontier | wikispeedia_project/src/seperation.rs:8-11 | the start alone at distance 0 in the queue satisfies the search invariant |
| Separation.PopFrontier | wikispeedia_project/src/seperation.rs:13 | the popped node is settled, and the scan of its neighbours can start |
| Separation.VisitSeen | wikispeedia_project/src/seperation.rs:15 | skipping a neighbour that already has a distance keeps the invariant |
| Separation.VisitNew | wikispeedia_project/src/seperation.rs:15-17 | settling a new neighbour at d+1 and enqueuing it keeps the invariant and lowers the number of unset slots |
| Separation.VisitDone | wikispeedia_project/src/seperation.rs:14-19 | after all neighbours are scanned, every node already popped is closed under its edges |
| Separation.FrontierDone | wikispeedia_project/src/seperation.rs:13-23 | once the queue is empty, the vector is closed and supported |
| Separation.SettleKeeps | wikispeedia_project/src/seperation.rs:15-17 | settling a vertex without a distance changes no distance already given and queues a vertex not queued before |
| Separation.Bfs | wikispeedia_project/src/seperation.rs:6-24 | n entries with Some(0) at the start; entry x is the least hop count from the start, and None exactly when x is unreachable; its loop invariants state that a distance once given never changes and no vertex is queued twice |
| Separation.PresentCount | wikispeedia_project/src/seperation.rs:37-38 | the collected values hold d exactly as often as the row holds Some(d) |
| Separation.RowMembers | wikispeedia_project/src/seperation.rs:35-38 | d is collected from row i exactly when some later node j > i is at distance d from i |
| Separation.PairAtStep | wikispeedia_project/src/seperation.rs:33-35 | a pair among the first m rows is a pair among the first m-1 rows or a pair from row m-1 |
| Separation.PairDistancesMembers | wikispeedia_project/src/seperation.rs:33-42 | d is collected exactly when some pair i < j has shortest distance d |
| Separation.DistanceStatsMeaning | wikispeedia_project/src/seperation.rs:51-57 | the summary is absent exactly when no pair i < j is connected; otherwise its max is a pair distance and bounds every pair distance |
| Separation.PushLaterDistances | wikispeedia_project/src/seperation.rs:35-41 | appends the present distances to nodes after i, in ascending j order |
| Separation.CollectRow | wikispeedia_project/src/seperation.rs:34-41 | appends the shortest distances from i to each reachable j > i, in order |
| Separation.CollectDistances | wikispeedia_project/src/seperation.rs:33-42 | the collected sequence is the i-major, j-ascending list of shortest distances of the connected pairs i < j |
| Separation.DistanceDistribution | wikispeedia_project/src/seperation.rs:26-70 | the statistics of the sorted pair distances, and None where the source panics on an empty collection |
| Statistics.Summarize | wikispeedia_project/src/seperation.rs:53-65 | the summary is None exactly when the sequence is empty |
| Statistics.SumAsTotal | wikispeedia_project/src/seperation.rs:54 | the integer sum, as a real, is the total of the values |
| Statistics.TotalAppend | wikispeedia_project/src/seperation.rs:54-65 | a total over a concatenation is the sum of the two totals |
| Statistics.TotalPermutation | wikispeedia_project/src/seperation.rs:51-65 | totals do not depend on the order of the values |
| Statistics.TotalBounds | wikispeedia_project/src/seperation.rs:54-65 | a total of values between lo and hi lies between len·lo and len·hi |
| Statistics.SumPermutation | wikispeedia_project/src/seperation.rs:51-54 | the sum does not change under sorting or any other permutation |
| Statistics.SquaredDeviationsPermutation | wikispeedia_project/src/seperation.rs:51-65 | the variance numerator does not change under permutation |
| Statistics.MaxIsLargest | wikispeedia_project/src/seperation.rs:56 | the last element of a sorted non-empty sequence is one of its elements and bounds all of them |
| Statistics.MedianIsMiddle | wikispeedia_project/src/seperation.rs:59-63 | the median is the element at (len-1)/2, the lower middle for even lengths; nothing before it is larger and nothing after it is smaller |
| Statistics.MeanBounds | wikispeedia_project/src/seperation.rs:55 | the mean lies between the smallest and the largest value |
| Statistics.SquaredDeviationsNonNegative | wikispeedia_project/src/seperation.rs:65 | the sum of squared deviations is never negative |
| Statistics.VarianceNonNegative | wikispeedia_project/src/seperation.rs:65 | the population variance is never negative |
| Statistics.SummarizeSort | wikispeedia_project/src/seperation.rs:51-65 | after sorting, the mean is sum/len of the unsorted values, the max is one of them and bounds all, and the variance is their squared deviation over len |
| Statistics.SameMembers | wikispeedia_project/src/seperation.rs:51 | a permutation has the same members |
| Fixtures.TestSwapped | wikispeedia_project/src/reader.rs:133-136 | reversing the test edge list gives the reversed list written in the test |
| Fixtures.TestCreateDirected | wikispeedia_project/src/reader.rs:133-137 | the test graph's lists are [1],[2],[0,3],[4],[5],[3],[5], and the reverse graph's are [2],[0],[1],[2,5],[3],[4,6],[] |
| Fixtures.TestRankedOut | wikispeedia_project/src/distribution.rs:84-85 | the ascending out-degrees of the test graph are 1,1,1,1,1,1,2 |
| Fixtures.TestRankedIn | wikispeedia_project/src/distribution.rs:84-85 | the ascending in-degrees of the test graph are 0,1,1,1,1,2,2 |
| Fixtures.TestTopNodes | wikispeedia_project/src/main.rs:44-54 | the top seven out-degrees are [2,1,1,1,1,1,1] and the top seven in-degrees are [2,2,1,1,1,1,0] |
| Fixtures.TestTopNodesRun | wikispeedia_project/src/main.rs:44-54 | building the test graph and its reversal with CreateDirected and calling TopNodes on each with top_n = 7 returns exactly [2,1,1,1,1,1,1] and [2,2,1,1,1,1,0] |
| Fixtures.TestRow0 | wikispeedia_project/src/seperation.rs:6-24 | breadth-first distances from node 0 of the test graph (the same for TestRow1 to TestRow6) |
| Fixtures.TestPairsUpTo7 | wikispeedia_project/src/seperation.rs:33-42 | the collected pair distances of the test graph are 1,2,3,4,5,1,2,3,4,1,2,3,1,2,1 |
| Fixtures.TestSortPairs | wikispeedia_project/src/seperation.rs:51 | sorted, they are 1,1,1,1,1,2,2,2,2,3,3,3,4,4,5 |
| Fixtures.TestSummary | wikispeedia_project/src/seperation.rs:53-65 | their mean is 7/3, median 2, max 5 and variance 14/9 |
| Fixtures.TestDistanceDistribution | wikispeedia_project/src/main.rs:74-81 | the statistics of the test graph have max 5, median 2 and mean 7/3, as the test asserts |

## Left out

- File handling in `load_tsv` is not modelled: opening and reading the file twice, `line.unwrap()`, skipping comments and blank lines, and the tab split. The model starts from the sequence of already-split `(from, to)` name pairs, so `Loader.LoadGraphs` has no I/O error path.
- `testdata.tsv` is not part of this model. The fixtures use the edge list written in `test_reader` (reader.rs:133). That stands for the graph the test expects `load_tsv` to read, so the assertions at reader.rs:130-131 (seven nodes) are not restated.
- `plot_degree_distribution` and `plot_distance_distribution` render images through an external plotting library. They are left out, along with the call at seperation.rs:45-48.
- The `println!` output of `print_top_nodes` and `distance_distribution` is left out. So is the name lookup `nodes.get(&i).unwrap()` that only feeds that output.
- `main` and the test harness in main.rs are left out. Its assertions appear as the `Fixtures` lemmas.
- Separation.DistanceDistribution: returns the variance, not the standard deviation, because `sqrt` has no exact counterpart over the reals used here.
- Separation.DistanceDistribution: its statistics are exact reals. The model does not capture `f64` rounding in the mean and variance, or `usize` overflow of the sum.
- Statistics.Summarize: the median is kept as the selected natural number, not converted to `f64`.
- Separation.DistanceDistribution: when no pair is connected the source panics: first in the plotting call, at `distances.iter().max().unwrap()` (seperation.rs:84), or at `last().unwrap()` (seperation.rs:56) if plotting returned early. The model returns `None` there.
- The tie order of `sort_unstable_by_key` and `sort_unstable` is not modelled. The model fixes one stable insertion sort. `Sorting.SortedUnique` and `Distribution.TiesDoNotMatter` show that the values the source returns do not depend on the tie order.
- `HashMap` iteration order is not modelled. The degree histogram is a `map`, and the reversed name map is a `map`.
- Reader.Graph.AddDirectedEdges: requires every source to be below the number of lists. The source instead panics on an out-of-range index.
- Separation.Bfs: requires a well-formed graph (every stored target below n). The source panics only when it reaches an out-of-range target. Both graphs that `Loader.LoadGraphs` builds are proved well formed, so every call in the source meets this.
- Vertex ids and counters are unbounded naturals, so `usize` overflow is not modelled.
