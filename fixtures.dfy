/** The graph of the unit tests in reader.rs and main.rs, with the values
    those tests expect, derived from the model. */
module Fixtures {
  import opened Wrappers
  import opened Sorting
  import opened Reader
  import opened Distribution
  import opened Paths
  import opened Separation
  import opened Statistics

  /** The edge list `test_reader` compares the loaded graph against. */
  const TestEdges: seq<Edge> := [(0, 1), (1, 2), (2, 0), (3, 4), (4, 5), (5, 3), (2, 3), (6, 5)]

  const TestGraph: AdjacencyLists := [[1], [2], [0, 3], [4], [5], [3], [5]]

  const TestEdgesReverse: seq<Edge> := [(1, 0), (2, 1), (0, 2), (4, 3), (5, 4), (3, 5), (3, 2), (5, 6)]

  const TestGraphReverse: AdjacencyLists := [[2], [0], [1], [2, 5], [3], [4, 6], []]

  /** Adding one edge at the end adds its target to its source's list. */
  lemma TargetsSnoc(edges: seq<Edge>, e: Edge, u: Vertex)
    ensures Targets(edges + [e], u) == Targets(edges, u) + (if e.0 == u then [e.1] else [])
  {
    assert (edges + [e])[..|edges|] == edges;
  }

  /** The lists of the test's edge list before sorting: the targets of
      vertex `u`, in edge-list order. */
  lemma TestTargetsAt(u: Vertex)
    requires u < 7
    ensures Targets(TestEdges, u) == TestGraph[u]
  {
    var p0: seq<Edge> := [];
    var p1 := p0 + [(0, 1)];
    var p2 := p1 + [(1, 2)];
    var p3 := p2 + [(2, 0)];
    var p4 := p3 + [(3, 4)];
    var p5 := p4 + [(4, 5)];
    var p6 := p5 + [(5, 3)];
    var p7 := p6 + [(2, 3)];
    var p8 := p7 + [(6, 5)];
    assert p8 == TestEdges;
    TargetsSnoc(p0, (0, 1), u);
    TargetsSnoc(p1, (1, 2), u);
    TargetsSnoc(p2, (2, 0), u);
    TargetsSnoc(p3, (3, 4), u);
    TargetsSnoc(p4, (4, 5), u);
    TargetsSnoc(p5, (5, 3), u);
    TargetsSnoc(p6, (2, 3), u);
    TargetsSnoc(p7, (6, 5), u);
    if u == 0 {} else if u == 1 {} else if u == 2 {} else if u == 3 {} else if u == 4 {} else if u == 5 {} else {}
  }

  /** The same for the reversed edge list; vertex 3 receives its targets out of order. */
  lemma TestTargetsReverseAt(u: Vertex)
    requires u < 7
    ensures u == 3 ==> Targets(TestEdgesReverse, u) == [5, 2]
    ensures u != 3 ==> Targets(TestEdgesReverse, u) == TestGraphReverse[u]
  {
    var p0: seq<Edge> := [];
    var p1 := p0 + [(1, 0)];
    var p2 := p1 + [(2, 1)];
    var p3 := p2 + [(0, 2)];
    var p4 := p3 + [(4, 3)];
    var p5 := p4 + [(5, 4)];
    var p6 := p5 + [(3, 5)];
    var p7 := p6 + [(3, 2)];
    var p8 := p7 + [(5, 6)];
    assert p8 == TestEdgesReverse;
    TargetsSnoc(p0, (1, 0), u);
    TargetsSnoc(p1, (2, 1), u);
    TargetsSnoc(p2, (0, 2), u);
    TargetsSnoc(p3, (4, 3), u);
    TargetsSnoc(p4, (5, 4), u);
    TargetsSnoc(p5, (3, 5), u);
    TargetsSnoc(p6, (3, 2), u);
    TargetsSnoc(p7, (5, 6), u);
    if u == 0 {} else if u == 1 {} else if u == 2 {} else if u == 3 {} else if u == 4 {} else if u == 5 {} else {}
  }

  lemma TestSwapped()
    ensures Swapped(TestEdges) == TestEdgesReverse
  {
  }

  lemma TestListsSorted(u: Vertex)
    requires u < 7
    ensures Sorted(TestGraph[u]) && Sorted(TestGraphReverse[u])
  {
    if u == 0 {
    } else if u == 1 {
    } else if u == 2 {
    } else if u == 3 {
    } else if u == 4 {
    } else if u == 5 {
    } else {
    }
  }

  /** The sorted list of vertex `u` in the graph of the test's edge list. */
  lemma TestListAt(u: Vertex)
    requires u < 7
    ensures Adjacency(7, TestEdges)[u] == TestGraph[u]
  {
    TestTargetsAt(u);
    TestListsSorted(u);
    SortedUnique(Adjacency(7, TestEdges)[u], TestGraph[u]);
  }

  /** The sorted list of vertex `u` in the graph of the reversed edge list,
      for every vertex but 3. */
  lemma TestListReverseAt(u: Vertex)
    requires u < 7 && u != 3
    ensures Adjacency(7, TestEdgesReverse)[u] == TestGraphReverse[u]
  {
    TestTargetsReverseAt(u);
    TestListsSorted(u);
    SortedUnique(Adjacency(7, TestEdgesReverse)[u], TestGraphReverse[u]);
  }

  /** Vertex 3 of the reversed graph: its targets arrive as 5, 2 and are sorted. */
  lemma TestListReverseThree()
    ensures Adjacency(7, TestEdgesReverse)[3] == [2, 5]
  {
    TestTargetsReverseAt(3);
    PairSorted(Adjacency(7, TestEdgesReverse)[3], 5, 2);
  }

  /** The sorted arrangement of two elements `x > y` is `[y, x]`. */
  lemma PairSorted(list: seq<nat>, x: nat, y: nat)
    requires Sorted(list) && multiset(list) == multiset([x, y]) && y < x
    ensures list == [y, x]
  {
    SwappedPair(list, x, y);
    SortedUnique(list, [y, x]);
  }

  /** A list with the multiset of `[x, y]` is `[x, y]` or `[y, x]`'s permutation. */
  lemma SwappedPair(list: seq<nat>, x: nat, y: nat)
    requires multiset(list) == multiset([x, y])
    ensures multiset(list) == multiset([y, x])
  {
    assert [x, y] == [x] + [y] && [y, x] == [y] + [x];
  }

  /** `test_reader`: the graph built from the test's edge list, and the one
      built from its reversal. */
  lemma TestCreateDirected()
    ensures Adjacency(7, TestEdges) == TestGraph
    ensures Adjacency(7, Swapped(TestEdges)) == TestGraphReverse
  {
    TestSwapped();
    forall u | 0 <= u < 7
      ensures Adjacency(7, TestEdges)[u] == TestGraph[u]
      ensures Adjacency(7, TestEdgesReverse)[u] == TestGraphReverse[u]
    {
      TestListAt(u);
      if u == 3 {
        TestListReverseThree();
      } else {
        TestListReverseAt(u);
      }
    }
  }

  /** The out-degrees of the test graph by node, and ascending. */
  const OutDegrees: seq<nat> := [1, 1, 2, 1, 1, 1, 1]
  const OutRanked: seq<nat> := [1, 1, 1, 1, 1, 1, 2]

  /** The in-degrees of the test graph by node, and ascending. */
  const InDegrees: seq<nat> := [1, 1, 1, 2, 1, 2, 0]
  const InRanked: seq<nat> := [0, 1, 1, 1, 1, 2, 2]

  /** A sequence whose neighbours are in order is sorted. */
  lemma {:induction false} SortedBySteps(s: seq<nat>)
    requires forall i :: 0 < i < |s| ==> s[i - 1] <= s[i]
    ensures Sorted(s)
  {
    if |s| > 1 {
      var init := s[..|s| - 1];
      SortedBySteps(init);
      forall i, j | 0 <= i < j < |s|
        ensures s[i] <= s[j]
      {
        if j < |s| - 1 {
          assert s[i] == init[i] && s[j] == init[j];
        } else if i < j - 1 {
          assert init[i] <= init[j - 1];
        }
      }
    }
  }

  /** Ranking the degrees of `adj` gives the given ascending permutation of them. */
  lemma RankedIs(adj: AdjacencyLists, n: nat, degrees: seq<nat>, ranked: seq<nat>)
    requires n <= |adj| && Degrees(adj, AllNodes(n)) == degrees
    requires Sorted(ranked) && multiset(degrees) == multiset(ranked)
    ensures RankedDegrees(adj, n) == ranked
  {
    SortedUnique(Sort(degrees), ranked);
  }

  lemma TestOutDegrees()
    ensures Degrees(TestGraph, AllNodes(7)) == OutDegrees
  {
  }

  lemma TestOutPermutation()
    ensures multiset(OutDegrees) == multiset(OutRanked)
  {
  }

  lemma TestOutSorted()
    ensures Sorted(OutRanked)
  {
    SortedBySteps(OutRanked);
  }

  lemma TestRankedOut()
    ensures RankedDegrees(TestGraph, 7) == OutRanked
  {
    TestOutDegrees();
    TestOutPermutation();
    TestOutSorted();
    RankedIs(TestGraph, 7, OutDegrees, OutRanked);
  }

  lemma TestInDegrees()
    ensures Degrees(TestGraphReverse, AllNodes(7)) == InDegrees
  {
  }

  lemma TestInPermutation()
    ensures multiset(InDegrees) == multiset(InRanked)
  {
  }

  lemma TestInSorted()
    ensures Sorted(InRanked)
  {
    SortedBySteps(InRanked);
  }

  lemma TestRankedIn()
    ensures RankedDegrees(TestGraphReverse, 7) == InRanked
  {
    TestInDegrees();
    TestInPermutation();
    TestInSorted();
    RankedIs(TestGraphReverse, 7, InDegrees, InRanked);
  }

  /** The lists `test_top_nodes_outedge` expects from `print_top_nodes` with
      `top_n = 7`, for the graph and for the reversed graph. */
  const CorrectOut: seq<nat> := [2, 1, 1, 1, 1, 1, 1]
  const CorrectIn: seq<nat> := [2, 2, 1, 1, 1, 1, 0]

  /** Read from the back, the ranked degrees are the expected lists. */
  lemma TestBackwards()
    ensures forall k :: 0 <= k < 7 ==> OutRanked[6 - k] == CorrectOut[k]
    ensures forall k :: 0 <= k < 7 ==> InRanked[6 - k] == CorrectIn[k]
  {
  }

  /** `test_top_nodes_outedge`: what `TopNodes` returns for the test graph
      and for its reversal, with `top_n = 7`. */
  lemma TestTopNodes()
    ensures forall k :: 0 <= k < 7 ==> RankedDegrees(TestGraph, 7)[6 - k] == CorrectOut[k]
    ensures forall k :: 0 <= k < 7 ==> RankedDegrees(TestGraphReverse, 7)[6 - k] == CorrectIn[k]
  {
    TestRankedOut();
    TestRankedIn();
    TestBackwards();
  }

  lemma TestSourcesInRange()
    ensures SourcesInRange(7, TestEdges) && SourcesInRange(7, TestEdgesReverse)
  {
  }

  /** A sequence that reads the ranking of `adj` from the back, position
      by position, is that ranking in the opposite order. */
  lemma TopIsReversedRanking(adj: AdjacencyLists, n: nat, r: seq<nat>)
    requires n <= |adj| && |r| == n
    requires forall k :: 0 <= k < |r| ==> r[k] == RankedDegrees(adj, n)[n - 1 - k]
    ensures r == Reversed(RankedDegrees(adj, n))
  {
  }

  lemma TestReversedRankings()
    ensures Reversed(OutRanked) == CorrectOut && Reversed(InRanked) == CorrectIn
  {
  }

  /** `test_top_nodes_outedge` as a run: build the test graph and its
      reversal, then ask each for its seven largest degrees. */
  method TestTopNodesRun() returns (resultOut: seq<nat>, resultIn: seq<nat>)
    ensures resultOut == CorrectOut
    ensures resultIn == CorrectIn
  {
    var n := 7;
    TestSourcesInRange();
    TestSwapped();
    var graph := Graph.CreateDirected(n, TestEdges);
    var graphReverse := Graph.CreateDirected(n, Swapped(TestEdges));
    resultOut := TopNodes(graph, n);
    resultIn := TopNodes(graphReverse, n);
    TopIsReversedRanking(graph.outedges, graph.n, resultOut);
    TopIsReversedRanking(graphReverse.outedges, graphReverse.n, resultIn);
    TestCreateDirected();
    TestRankedOut();
    TestRankedIn();
    TestReversedRankings();
  }

  /** The shortest hop counts from each node of the test graph: row `i` is
      what `bfs(graph, i)` returns. */
  const Row0: seq<Option<nat>> := [Some(0), Some(1), Some(2), Some(3), Some(4), Some(5), None]
  const Row1: seq<Option<nat>> := [Some(2), Some(0), Some(1), Some(2), Some(3), Some(4), None]
  const Row2: seq<Option<nat>> := [Some(1), Some(2), Some(0), Some(1), Some(2), Some(3), None]
  const Row3: seq<Option<nat>> := [None, None, None, Some(0), Some(1), Some(2), None]
  const Row4: seq<Option<nat>> := [None, None, None, Some(2), Some(0), Some(1), None]
  const Row5: seq<Option<nat>> := [None, None, None, Some(1), Some(2), Some(0), None]
  const Row6: seq<Option<nat>> := [None, None, None, Some(2), Some(3), Some(1), Some(0)]

  lemma Row0Closed()
    ensures Closed(TestGraph, Row0)
  {
    var adj, dv := TestGraph, Row0;
    forall v | 0 <= v < |dv| && dv[v].Some?
      ensures ClosedAt(adj, dv, v)
    {
      if v == 0 {} else if v == 1 {} else if v == 2 {} else if v == 3 {} else if v == 4 {} else {}
    }
  }

  lemma Row0Supported()
    ensures Supported(TestGraph, Row0, 0)
  {
    var adj, dv := TestGraph, Row0;
    forall x | 0 <= x < |dv| && dv[x].Some? && dv[x].value > 0
      ensures exists v :: 0 <= v < |dv| && v < |adj| && x in adj[v] && dv[v] == Some(dv[x].value - 1)
    {
      if x == 1 {
        assert x in adj[0] && dv[0] == Some(0);
      } else if x == 2 {
        assert x in adj[1] && dv[1] == Some(1);
      } else if x == 3 {
        assert x in adj[2] && dv[2] == Some(2);
      } else if x == 4 {
        assert x in adj[3] && dv[3] == Some(3);
      } else {
        assert x in adj[4] && dv[4] == Some(4);
      }
    }
  }

  lemma TestRow0()
    ensures ShortestVector(TestGraph, 0) == Row0
  {
    Row0Closed();
    Row0Supported();
    DistanceVectorExact(TestGraph, Row0, 0);
  }

  lemma Row1Closed()
    ensures Closed(TestGraph, Row1)
  {
    var adj, dv := TestGraph, Row1;
    forall v | 0 <= v < |dv| && dv[v].Some?
      ensures ClosedAt(adj, dv, v)
    {
      if v == 0 {} else if v == 1 {} else if v == 2 {} else if v == 3 {} else if v == 4 {} else {}
    }
  }

  lemma Row1Supported()
    ensures Supported(TestGraph, Row1, 1)
  {
    var adj, dv := TestGraph, Row1;
    forall x | 0 <= x < |dv| && dv[x].Some? && dv[x].value > 0
      ensures exists v :: 0 <= v < |dv| && v < |adj| && x in adj[v] && dv[v] == Some(dv[x].value - 1)
    {
      if x == 0 {
        assert x in adj[2] && dv[2] == Some(1);
      } else if x == 2 {
        assert x in adj[1] && dv[1] == Some(0);
      } else if x == 3 {
        assert x in adj[2] && dv[2] == Some(1);
      } else if x == 4 {
        assert x in adj[3] && dv[3] == Some(2);
      } else {
        assert x in adj[4] && dv[4] == Some(3);
      }
    }
  }

  lemma TestRow1()
    ensures ShortestVector(TestGraph, 1) == Row1
  {
    Row1Closed();
    Row1Supported();
    DistanceVectorExact(TestGraph, Row1, 1);
  }

  lemma Row2Closed()
    ensures Closed(TestGraph, Row2)
  {
    var adj, dv := TestGraph, Row2;
    forall v | 0 <= v < |dv| && dv[v].Some?
      ensures ClosedAt(adj, dv, v)
    {
      if v == 0 {} else if v == 1 {} else if v == 2 {} else if v == 3 {} else if v == 4 {} else {}
    }
  }

  lemma Row2Supported()
    ensures Supported(TestGraph, Row2, 2)
  {
    var adj, dv := TestGraph, Row2;
    forall x | 0 <= x < |dv| && dv[x].Some? && dv[x].value > 0
      ensures exists v :: 0 <= v < |dv| && v < |adj| && x in adj[v] && dv[v] == Some(dv[x].value - 1)
    {
      if x == 0 {
        assert x in adj[2] && dv[2] == Some(0);
      } else if x == 1 {
        assert x in adj[0] && dv[0] == Some(1);
      } else if x == 3 {
        assert x in adj[2] && dv[2] == Some(0);
      } else if x == 4 {
        assert x in adj[3] && dv[3] == Some(1);
      } else {
        assert x in adj[4] && dv[4] == Some(2);
      }
    }
  }

  lemma TestRow2()
    ensures ShortestVector(TestGraph, 2) == Row2
  {
    Row2Closed();
    Row2Supported();
    DistanceVectorExact(TestGraph, Row2, 2);
  }

  lemma Row3Closed()
    ensures Closed(TestGraph, Row3)
  {
    var adj, dv := TestGraph, Row3;
    forall v | 0 <= v < |dv| && dv[v].Some?
      ensures ClosedAt(adj, dv, v)
    {
      if v == 3 {} else if v == 4 {} else {}
    }
  }

  lemma Row3Supported()
    ensures Supported(TestGraph, Row3, 3)
  {
    var adj, dv := TestGraph, Row3;
    forall x | 0 <= x < |dv| && dv[x].Some? && dv[x].value > 0
      ensures exists v :: 0 <= v < |dv| && v < |adj| && x in adj[v] && dv[v] == Some(dv[x].value - 1)
    {
      if x == 4 {
        assert x in adj[3] && dv[3] == Some(0);
      } else {
        assert x in adj[4] && dv[4] == Some(1);
      }
    }
  }

  lemma TestRow3()
    ensures ShortestVector(TestGraph, 3) == Row3
  {
    Row3Closed();
    Row3Supported();
    DistanceVectorExact(TestGraph, Row3, 3);
  }

  lemma Row4Closed()
    ensures Closed(TestGraph, Row4)
  {
    var adj, dv := TestGraph, Row4;
    forall v | 0 <= v < |dv| && dv[v].Some?
      ensures ClosedAt(adj, dv, v)
    {
      if v == 3 {} else if v == 4 {} else {}
    }
  }

  lemma Row4Supported()
    ensures Supported(TestGraph, Row4, 4)
  {
    var adj, dv := TestGraph, Row4;
    forall x | 0 <= x < |dv| && dv[x].Some? && dv[x].value > 0
      ensures exists v :: 0 <= v < |dv| && v < |adj| && x in adj[v] && dv[v] == Some(dv[x].value - 1)
    {
      if x == 3 {
        assert x in adj[5] && dv[5] == Some(1);
      } else {
        assert x in adj[4] && dv[4] == Some(0);
      }
    }
  }

  lemma TestRow4()
    ensures ShortestVector(TestGraph, 4) == Row4
  {
    Row4Closed();
    Row4Supported();
    DistanceVectorExact(TestGraph, Row4, 4);
  }

  lemma Row5Closed()
    ensures Closed(TestGraph, Row5)
  {
    var adj, dv := TestGraph, Row5;
    forall v | 0 <= v < |dv| && dv[v].Some?
      ensures ClosedAt(adj, dv, v)
    {
      if v == 3 {} else if v == 4 {} else {}
    }
  }

  lemma Row5Supported()
    ensures Supported(TestGraph, Row5, 5)
  {
    var adj, dv := TestGraph, Row5;
    forall x | 0 <= x < |dv| && dv[x].Some? && dv[x].value > 0
      ensures exists v :: 0 <= v < |dv| && v < |adj| && x in adj[v] && dv[v] == Some(dv[x].value - 1)
    {
      if x == 3 {
        assert x in adj[5] && dv[5] == Some(0);
      } else {
        assert x in adj[3] && dv[3] == Some(1);
      }
    }
  }

  lemma TestRow5()
    ensures ShortestVector(TestGraph, 5) == Row5
  {
    Row5Closed();
    Row5Supported();
    DistanceVectorExact(TestGraph, Row5, 5);
  }

  lemma Row6Closed()
    ensures Closed(TestGraph, Row6)
  {
    var adj, dv := TestGraph, Row6;
    forall v | 0 <= v < |dv| && dv[v].Some?
      ensures ClosedAt(adj, dv, v)
    {
      if v == 3 {} else if v == 4 {} else if v == 5 {} else {}
    }
  }

  lemma Row6Supported()
    ensures Supported(TestGraph, Row6, 6)
  {
    var adj, dv := TestGraph, Row6;
    forall x | 0 <= x < |dv| && dv[x].Some? && dv[x].value > 0
      ensures exists v :: 0 <= v < |dv| && v < |adj| && x in adj[v] && dv[v] == Some(dv[x].value - 1)
    {
      if x == 3 {
        assert x in adj[5] && dv[5] == Some(1);
      } else if x == 4 {
        assert x in adj[3] && dv[3] == Some(2);
      } else {
        assert x in adj[6] && dv[6] == Some(0);
      }
    }
  }

  lemma TestRow6()
    ensures ShortestVector(TestGraph, 6) == Row6
  {
    Row6Closed();
    Row6Supported();
    DistanceVectorExact(TestGraph, Row6, 6);
  }

  /** Collecting one more row of distances appends its entries after the diagonal. */
  lemma PairStep(adj: AdjacencyLists, m: nat, row: seq<Option<nat>>)
    requires 0 < m <= |adj| && ShortestVector(adj, m - 1) == row
    ensures PairDistances(adj, m) == PairDistances(adj, m - 1) + Present(row[m..])
  {
  }

  /** Adding one entry to a distance vector adds its value, if present. */
  lemma PresentSnoc(dv: seq<Option<nat>>, x: Option<nat>)
    ensures Present(dv + [x]) == Present(dv) + (if x.Some? then [x.value] else [])
  {
    assert (dv + [x])[..|dv|] == dv;
  }

  /** A sequence that agrees with `row` from `k` on, element by element, is
      the slice of `row` from `k`. */
  lemma SliceIs(row: seq<Option<nat>>, k: nat, q: seq<Option<nat>>)
    requires |row| == k + |q|
    requires forall j :: 0 <= j < |q| ==> row[k + j] == q[j]
    ensures row[k..] == q
  {
  }

  /** The distances `xs`, each present. */
  function Somes(xs: seq<nat>): (r: seq<Option<nat>>)
    ensures |r| == |xs|
    ensures forall i :: 0 <= i < |xs| ==> r[i] == Some(xs[i])
  {
    seq(|xs|, i requires 0 <= i < |xs| => Some(xs[i]))
  }

  /** Present distances followed by an absent one collect back to the distances. */
  lemma {:induction false} PresentSomes(xs: seq<nat>)
    ensures Present(Somes(xs)) == xs
    ensures Present(Somes(xs) + [None]) == xs
  {
    if xs != [] {
      var init := xs[..|xs| - 1];
      PresentSomes(init);
      assert Somes(xs) == Somes(init) + [Some(xs[|xs| - 1])];
      PresentSnoc(Somes(init), Some(xs[|xs| - 1]));
      assert xs == init + [xs[|xs| - 1]];
    }
    PresentSnoc(Somes(xs), None);
  }

  lemma TestPresent0()
    ensures Present(Row0[1..]) == [1, 2, 3, 4, 5]
  {
    var xs: seq<nat> := [1, 2, 3, 4, 5];
    SliceIs(Row0, 1, Somes(xs) + [None]);
    PresentSomes(xs);
  }

  lemma TestPresent1()
    ensures Present(Row1[2..]) == [1, 2, 3, 4]
  {
    var xs: seq<nat> := [1, 2, 3, 4];
    SliceIs(Row1, 2, Somes(xs) + [None]);
    PresentSomes(xs);
  }

  lemma TestPresent2()
    ensures Present(Row2[3..]) == [1, 2, 3]
  {
    var xs: seq<nat> := [1, 2, 3];
    SliceIs(Row2, 3, Somes(xs) + [None]);
    PresentSomes(xs);
  }

  lemma TestPresent3()
    ensures Present(Row3[4..]) == [1, 2]
  {
    var xs: seq<nat> := [1, 2];
    SliceIs(Row3, 4, Somes(xs) + [None]);
    PresentSomes(xs);
  }

  lemma TestPresent4()
    ensures Present(Row4[5..]) == [1]
  {
    var xs: seq<nat> := [1];
    SliceIs(Row4, 5, Somes(xs) + [None]);
    PresentSomes(xs);
  }

  lemma TestPresent5()
    ensures Present(Row5[6..]) == []
  {
    var xs: seq<nat> := [];
    SliceIs(Row5, 6, Somes(xs) + [None]);
    PresentSomes(xs);
  }

  lemma TestPresent6()
    ensures Present(Row6[7..]) == []
  {
    assert Row6[7..] == [];
  }

  /** The distances `distance_distribution` collects for the test graph, row by row. */
  const Pairs: seq<nat> := [1, 2, 3, 4, 5, 1, 2, 3, 4, 1, 2, 3, 1, 2, 1]

  /** Collecting row `m - 1` of the test graph. */
  lemma TestPairStep(m: nat, row: seq<Option<nat>>, later: seq<nat>)
    requires 0 < m <= 7 && ShortestVector(TestGraph, m - 1) == row && Present(row[m..]) == later
    ensures PairDistances(TestGraph, m) == PairDistances(TestGraph, m - 1) + later
  {
    PairStep(TestGraph, m, row);
  }

  const PairsUpTo1: seq<nat> := [1, 2, 3, 4, 5]

  lemma TestPairsUpTo1()
    ensures PairDistances(TestGraph, 1) == PairsUpTo1
  {
    assert PairDistances(TestGraph, 0) == [];
    TestRow0();
    TestPresent0();
    TestPairStep(1, Row0, [1, 2, 3, 4, 5]);
    assert [] + [1, 2, 3, 4, 5] == PairsUpTo1;
  }

  const PairsUpTo2: seq<nat> := [1, 2, 3, 4, 5, 1, 2, 3, 4]

  lemma TestPairsUpTo2()
    ensures PairDistances(TestGraph, 2) == PairsUpTo2
  {
    TestPairsUpTo1();
    TestRow1();
    TestPresent1();
    TestPairStep(2, Row1, [1, 2, 3, 4]);
    assert PairsUpTo1 + [1, 2, 3, 4] == PairsUpTo2;
  }

  const PairsUpTo3: seq<nat> := [1, 2, 3, 4, 5, 1, 2, 3, 4, 1, 2, 3]

  lemma TestPairsUpTo3()
    ensures PairDistances(TestGraph, 3) == PairsUpTo3
  {
    TestPairsUpTo2();
    TestRow2();
    TestPresent2();
    TestPairStep(3, Row2, [1, 2, 3]);
    assert PairsUpTo2 + [1, 2, 3] == PairsUpTo3;
  }

  const PairsUpTo4: seq<nat> := [1, 2, 3, 4, 5, 1, 2, 3, 4, 1, 2, 3, 1, 2]

  lemma TestPairsUpTo4()
    ensures PairDistances(TestGraph, 4) == PairsUpTo4
  {
    TestPairsUpTo3();
    TestRow3();
    TestPresent3();
    TestPairStep(4, Row3, [1, 2]);
    assert PairsUpTo3 + [1, 2] == PairsUpTo4;
  }

  const PairsUpTo5: seq<nat> := [1, 2, 3, 4, 5, 1, 2, 3, 4, 1, 2, 3, 1, 2, 1]

  lemma TestPairsUpTo5()
    ensures PairDistances(TestGraph, 5) == PairsUpTo5
  {
    TestPairsUpTo4();
    TestRow4();
    TestPresent4();
    TestPairStep(5, Row4, [1]);
    assert PairsUpTo4 + [1] == PairsUpTo5;
  }

  const PairsUpTo6: seq<nat> := [1, 2, 3, 4, 5, 1, 2, 3, 4, 1, 2, 3, 1, 2, 1]

  lemma TestPairsUpTo6()
    ensures PairDistances(TestGraph, 6) == PairsUpTo6
  {
    TestPairsUpTo5();
    TestRow5();
    TestPresent5();
    TestPairStep(6, Row5, []);
    assert PairsUpTo5 + [] == PairsUpTo6;
  }

  lemma TestPairsUpTo7()
    ensures PairDistances(TestGraph, 7) == Pairs
  {
    TestPairsUpTo6();
    TestRow6();
    TestPresent6();
    TestPairStep(7, Row6, []);
    assert PairsUpTo6 + [] == Pairs;
  }

  const SortedPairs: seq<nat> := [1, 1, 1, 1, 1, 2, 2, 2, 2, 3, 3, 3, 4, 4, 5]

  /** Two sequences of values between `lo` and `hi` that hold each of them
      equally often are permutations of each other. */
  lemma SameCounts(a: seq<nat>, b: seq<nat>, lo: nat, hi: nat)
    requires forall k :: 0 <= k < |a| ==> lo <= a[k] <= hi
    requires forall k :: 0 <= k < |b| ==> lo <= b[k] <= hi
    requires forall v :: lo <= v <= hi ==> multiset(a)[v] == multiset(b)[v]
    ensures multiset(a) == multiset(b)
  {
    forall x
      ensures multiset(a)[x] == multiset(b)[x]
    {
      if x < lo || x > hi {
        assert x !in a && x !in b;
      }
    }
  }

  lemma PairsBounded()
    ensures forall k :: 0 <= k < |Pairs| ==> 1 <= Pairs[k] <= 5
  {
  }

  lemma SortedPairsBounded()
    ensures forall k :: 0 <= k < |SortedPairs| ==> 1 <= SortedPairs[k] <= 5
  {
  }

  lemma PairsCount1()
    ensures multiset(Pairs)[1] == 5
  {
  }

  lemma SortedPairsCount1()
    ensures multiset(SortedPairs)[1] == 5
  {
  }

  lemma PairsCount2()
    ensures multiset(Pairs)[2] == 4
  {
  }

  lemma SortedPairsCount2()
    ensures multiset(SortedPairs)[2] == 4
  {
  }

  lemma PairsCount3()
    ensures multiset(Pairs)[3] == 3
  {
  }

  lemma SortedPairsCount3()
    ensures multiset(SortedPairs)[3] == 3
  {
  }

  lemma PairsCount4()
    ensures multiset(Pairs)[4] == 2
  {
  }

  lemma SortedPairsCount4()
    ensures multiset(SortedPairs)[4] == 2
  {
  }

  lemma PairsCount5()
    ensures multiset(Pairs)[5] == 1
  {
  }

  lemma SortedPairsCount5()
    ensures multiset(SortedPairs)[5] == 1
  {
  }

  /** Two sequences holding 1 to 5 equally often, five times down to once. */
  lemma CountsAgree(a: seq<nat>, b: seq<nat>)
    requires multiset(a)[1] == 5 && multiset(a)[2] == 4 && multiset(a)[3] == 3
    requires multiset(a)[4] == 2 && multiset(a)[5] == 1
    requires multiset(b)[1] == 5 && multiset(b)[2] == 4 && multiset(b)[3] == 3
    requires multiset(b)[4] == 2 && multiset(b)[5] == 1
    ensures forall v :: 1 <= v <= 5 ==> multiset(a)[v] == multiset(b)[v]
  {
  }

  lemma PairCountsAgree()
    ensures forall v :: 1 <= v <= 5 ==> multiset(Pairs)[v] == multiset(SortedPairs)[v]
  {
    PairsCount1(); PairsCount2(); PairsCount3(); PairsCount4(); PairsCount5();
    SortedPairsCount1(); SortedPairsCount2(); SortedPairsCount3(); SortedPairsCount4(); SortedPairsCount5();
    CountsAgree(Pairs, SortedPairs);
  }

  lemma TestPairsPermutation()
    ensures multiset(Pairs) == multiset(SortedPairs)
  {
    PairsBounded();
    SortedPairsBounded();
    PairCountsAgree();
    SameCounts(Pairs, SortedPairs, 1, 5);
  }

  lemma SortedPairsSorted()
    ensures Sorted(SortedPairs)
  {
    SortedBySteps(SortedPairs);
  }

  /** Sorting gives the one ascending permutation of its input. */
  lemma SortIs(s: seq<nat>, t: seq<nat>)
    requires multiset(s) == multiset(t) && Sorted(t)
    ensures Sort(s) == t
  {
    SortPermutationInvariant(s, t);
    SortSorted(t);
  }

  lemma TestSortPairs()
    ensures Sort(Pairs) == SortedPairs
  {
    TestPairsPermutation();
    SortedPairsSorted();
    SortIs(Pairs, SortedPairs);
  }

  /** `k` copies of `c` add up to `k` times `f(c)`. */
  lemma TotalRepeat(c: nat, k: nat, f: nat -> real)
    ensures Total(seq(k, _ => c), f) == k as real * f(c)
  {
    TotalBounds(seq(k, _ => c), f, f(c), f(c));
  }

  lemma SortedPairsBlocks()
    ensures SortedPairs
         == seq(5, _ => 1) + seq(4, _ => 2) + seq(3, _ => 3) + seq(2, _ => 4) + seq(1, _ => 5)
  {
  }

  /** Any total over the sorted pair distances, by runs of equal values. */
  lemma TotalSortedPairs(f: nat -> real)
    ensures Total(SortedPairs, f) == 5.0 * f(1) + 4.0 * f(2) + 3.0 * f(3) + 2.0 * f(4) + f(5)
  {
    var b1, b2, b3, b4, b5 := seq(5, _ => 1), seq(4, _ => 2), seq(3, _ => 3), seq(2, _ => 4), seq(1, _ => 5);
    SortedPairsBlocks();
    TotalAppend(b1 + b2 + b3 + b4, b5, f);
    TotalAppend(b1 + b2 + b3, b4, f);
    TotalAppend(b1 + b2, b3, f);
    TotalAppend(b1, b2, f);
    TotalRepeat(1, 5, f);
    TotalRepeat(2, 4, f);
    TotalRepeat(3, 3, f);
    TotalRepeat(4, 2, f);
    TotalRepeat(5, 1, f);
  }

  lemma TestSum()
    ensures Sum(SortedPairs) == 35
  {
    SumAsTotal(SortedPairs);
    TotalSortedPairs(AsReal);
  }

  lemma TestSquaredDeviations()
    ensures SquaredDeviations(SortedPairs, 7.0 / 3.0) == 70.0 / 3.0
  {
    var mean := 7.0 / 3.0;
    TotalSortedPairs(x => (x as real - mean) * (x as real - mean));
  }

  lemma TestSummary()
    ensures Summarize(SortedPairs) == Some(Stats(7.0 / 3.0, 2, 5, 14.0 / 9.0))
  {
    TestSum();
    TestSquaredDeviations();
  }

  /** `test_distance_distribution_and_plotting_distance_distribution`: the
      statistics of the test graph's pair distances, with maximum 5, median 2
      and mean 7/3. */
  lemma TestDistanceDistribution()
    ensures Summarize(Sort(PairDistances(TestGraph, 7))) == Some(Stats(7.0 / 3.0, 2, 5, 14.0 / 9.0))
  {
    TestPairsUpTo7();
    TestSortPairs();
    TestSummary();
  }
}
