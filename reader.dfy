/** The directed graph of the link tool, stored as one adjacency list per
    node, and its construction from an edge list (reader.rs). */
module Reader {
  import opened Sorting

  /** A node identifier: a dense, zero-based index. */
  type Vertex = nat
  /** A directed edge (from, to). */
  type Edge = (Vertex, Vertex)
  type AdjacencyLists = seq<seq<Vertex>>

  /** Every edge starts at an existing node: the source indexes
      `outedges[u]` without a check and panics otherwise. */
  predicate SourcesInRange(n: nat, edges: seq<Edge>) {
    forall k :: 0 <= k < |edges| ==> edges[k].0 < n
  }

  /** Both endpoints of every edge are existing nodes. */
  predicate EdgesInRange(n: nat, edges: seq<Edge>) {
    forall k :: 0 <= k < |edges| ==> edges[k].0 < n && edges[k].1 < n
  }

  /** One list per node, and every destination is a node. */
  predicate WellFormed(n: nat, adj: AdjacencyLists) {
    && |adj| == n
    && forall u, v :: 0 <= u < n && v in adj[u] ==> v < n
  }

  // ---------------------------------------------------------------------
  // reverse_edges

  /** The edge list with every pair turned around. */
  function Swapped(edges: seq<Edge>): (r: seq<Edge>)
    ensures |r| == |edges|
    ensures forall k :: 0 <= k < |edges| ==> r[k] == (edges[k].1, edges[k].0)
  {
    if edges == [] then []
    else
      var e := edges[|edges| - 1];
      Swapped(edges[..|edges| - 1]) + [(e.1, e.0)]
  }

  /** `reverse_edges`: builds the reversed list by pushing one swapped pair per edge. */
  method ReverseEdges(list: seq<Edge>) returns (newList: seq<Edge>)
    ensures |newList| == |list|
    ensures forall k :: 0 <= k < |list| ==> newList[k] == (list[k].1, list[k].0)
    ensures newList == Swapped(list)
  {
    newList := [];
    for i := 0 to |list|
      invariant newList == Swapped(list[..i])
    {
      assert list[..i + 1][..i] == list[..i];
      newList := newList + [(list[i].1, list[i].0)];
    }
    assert list[..|list|] == list;
  }

  /** Reversing twice gives back the original list. */
  lemma SwappedInvolutive(edges: seq<Edge>)
    ensures Swapped(Swapped(edges)) == edges
  {
  }

  /** Reversal keeps endpoints in range. */
  lemma SwappedInRange(n: nat, edges: seq<Edge>)
    requires EdgesInRange(n, edges)
    ensures EdgesInRange(n, Swapped(edges))
  {
  }

  /** The reversed list holds the pair (u, v) exactly as often as the
      original holds (v, u). */
  lemma {:induction false} SwappedCount(edges: seq<Edge>, u: Vertex, v: Vertex)
    ensures multiset(Swapped(edges))[(u, v)] == multiset(edges)[(v, u)]
  {
    if edges != [] {
      var init := edges[..|edges| - 1];
      var e := edges[|edges| - 1];
      assert edges == init + [e];
      SwappedCount(init, u, v);
    }
  }

  // ---------------------------------------------------------------------
  // add_directed_edges, sort_graph_lists, create_directed

  /** The destinations of the edges leaving `u`, in edge-list order,
      duplicates kept. */
  function Targets(edges: seq<Edge>, u: Vertex): seq<Vertex> {
    if edges == [] then []
    else
      var e := edges[|edges| - 1];
      Targets(edges[..|edges| - 1], u) + (if e.0 == u then [e.1] else [])
  }

  /** `v` occurs in the targets of `u` as often as the edge (u, v) occurs
      in the edge list: nothing dropped, nothing added. */
  lemma {:induction false} TargetsCount(edges: seq<Edge>, u: Vertex, v: Vertex)
    ensures multiset(Targets(edges, u))[v] == multiset(edges)[(u, v)]
  {
    if edges != [] {
      var init := edges[..|edges| - 1];
      var e := edges[|edges| - 1];
      assert edges == init + [e];
      TargetsCount(init, u, v);
    }
  }

  /** The lists after `add_directed_edges` on `n` empty lists, before sorting. */
  function TargetLists(n: nat, edges: seq<Edge>): (adj: AdjacencyLists)
    ensures |adj| == n
    ensures forall u :: 0 <= u < n ==> adj[u] == Targets(edges, u)
  {
    seq(n, u requires 0 <= u => Targets(edges, u))
  }

  /** The adjacency lists `create_directed(n, edges)` produces. */
  function Adjacency(n: nat, edges: seq<Edge>): (adj: AdjacencyLists)
    ensures |adj| == n
    ensures forall u :: 0 <= u < n ==> Sorted(adj[u])
    ensures forall u :: 0 <= u < n ==> multiset(adj[u]) == multiset(Targets(edges, u))
  {
    seq(n, u requires 0 <= u => Sort(Targets(edges, u)))
  }

  /** Every list of the built graph is a permutation of the targets of its
      node's edges: `v` occurs in `adj[u]` once per copy of (u, v). */
  lemma AdjacencyCount(n: nat, edges: seq<Edge>, u: Vertex, v: Vertex)
    requires u < n
    ensures multiset(Adjacency(n, edges)[u])[v] == multiset(edges)[(u, v)]
  {
    TargetsCount(edges, u, v);
  }

  /** With both endpoints in range the built graph is well formed. */
  lemma AdjacencyWellFormed(n: nat, edges: seq<Edge>)
    requires EdgesInRange(n, edges)
    ensures WellFormed(n, Adjacency(n, edges))
  {
    var adj := Adjacency(n, edges);
    forall u, v | 0 <= u < n && v in adj[u]
      ensures v < n
    {
      assert v in multiset(adj[u]);
      AdjacencyCount(n, edges, u, v);
      var k :| 0 <= k < |edges| && edges[k] == (u, v);
    }
  }

  /** Transpose duality: `v` occurs in list `u` of the graph built from the
      reversed edges as often as `u` occurs in list `v` of the original. */
  lemma TransposeDuality(n: nat, edges: seq<Edge>, u: Vertex, v: Vertex)
    requires u < n && v < n
    ensures multiset(Adjacency(n, Swapped(edges))[u])[v] == multiset(Adjacency(n, edges)[v])[u]
  {
    AdjacencyCount(n, Swapped(edges), u, v);
    AdjacencyCount(n, edges, v, u);
    SwappedCount(edges, u, v);
  }

  /** The number of edges stored in a graph: the sum of the list lengths. */
  function TotalLength(adj: AdjacencyLists): nat {
    if adj == [] then 0 else TotalLength(adj[..|adj| - 1]) + |adj[|adj| - 1]|
  }

  lemma {:induction false} TotalLengthOfLengths(a: AdjacencyLists, b: AdjacencyLists)
    requires |a| == |b|
    requires forall i :: 0 <= i < |a| ==> |a[i]| == |b[i]|
    ensures TotalLength(a) == TotalLength(b)
  {
    if a != [] {
      TotalLengthOfLengths(a[..|a| - 1], b[..|b| - 1]);
    }
  }

  lemma {:induction false} TotalLengthBump(a: AdjacencyLists, b: AdjacencyLists, k: nat)
    requires |a| == |b| && k < |a|
    requires forall i :: 0 <= i < |a| && i != k ==> |a[i]| == |b[i]|
    requires |b[k]| == |a[k]| + 1
    ensures TotalLength(b) == TotalLength(a) + 1
  {
    var m := |a| - 1;
    if k == m {
      TotalLengthOfLengths(a[..m], b[..m]);
    } else {
      TotalLengthBump(a[..m], b[..m], k);
    }
  }

  lemma {:induction false} TargetsTotal(n: nat, edges: seq<Edge>)
    requires SourcesInRange(n, edges)
    ensures TotalLength(TargetLists(n, edges)) == |edges|
  {
    if edges == [] {
      var a := TargetLists(n, edges);
      TotalLengthOfLengths(a, EmptyLists(n));
      ZeroLengths(n);
    } else {
      var init := edges[..|edges| - 1];
      var e := edges[|edges| - 1];
      TargetsTotal(n, init);
      TotalLengthBump(TargetLists(n, init), TargetLists(n, edges), e.0);
    }
  }

  /** `n` empty lists: `vec![vec![]; n]`. */
  function EmptyLists(n: nat): AdjacencyLists {
    seq(n, u => [])
  }

  lemma {:induction false} ZeroLengths(n: nat)
    ensures TotalLength(EmptyLists(n)) == 0
  {
    if n > 0 {
      assert EmptyLists(n)[..n - 1] == EmptyLists(n - 1);
      ZeroLengths(n - 1);
    }
  }

  /** Nothing is dropped or duplicated: the graph stores exactly one list
      entry per edge of the input. */
  lemma EdgeConservation(n: nat, edges: seq<Edge>)
    requires SourcesInRange(n, edges)
    ensures TotalLength(Adjacency(n, edges)) == |edges|
  {
    var adj := Adjacency(n, edges);
    var t := TargetLists(n, edges);
    forall i | 0 <= i < n
      ensures |adj[i]| == |t[i]|
    {
      assert |adj[i]| == |multiset(adj[i])| == |multiset(t[i])| == |t[i]|;
    }
    TotalLengthOfLengths(adj, t);
    TargetsTotal(n, edges);
  }

  /** The graph: a node count and one adjacency list per node. */
  class Graph {
    var n: nat
    var outedges: AdjacencyLists

    predicate Valid()
      reads this
    {
      WellFormed(n, outedges)
    }

    /** The struct literal `Graph { n, outedges: vec![vec![]; n] }`. */
    constructor Empty(n: nat)
      ensures this.n == n
      ensures outedges == EmptyLists(n)
    {
      this.n := n;
      outedges := EmptyLists(n);
    }

    /** `add_directed_edges`: appends each edge's target to its source's list. */
    method AddDirectedEdges(edges: seq<Edge>)
      requires SourcesInRange(|outedges|, edges)
      modifies this
      ensures n == old(n)
      ensures |outedges| == old(|outedges|)
      ensures forall u :: 0 <= u < |outedges| ==> outedges[u] == old(outedges[u]) + Targets(edges, u)
    {
      for i := 0 to |edges|
        invariant n == old(n)
        invariant |outedges| == old(|outedges|)
        invariant forall u :: 0 <= u < |outedges| ==> outedges[u] == old(outedges[u]) + Targets(edges[..i], u)
      {
        assert edges[..i + 1][..i] == edges[..i];
        var (u, v) := edges[i];
        outedges := outedges[u := outedges[u] + [v]];
      }
      assert edges[..|edges|] == edges;
    }

    /** `sort_graph_lists`: sorts every list ascending. */
    method SortGraphLists()
      modifies this
      ensures n == old(n)
      ensures |outedges| == old(|outedges|)
      ensures forall u :: 0 <= u < |outedges| ==> outedges[u] == Sort(old(outedges[u]))
    {
      for i := 0 to |outedges|
        invariant n == old(n)
        invariant |outedges| == old(|outedges|)
        invariant forall u :: 0 <= u < i ==> outedges[u] == Sort(old(outedges[u]))
        invariant forall u :: i <= u < |outedges| ==> outedges[u] == old(outedges[u])
      {
        outedges := outedges[i := Sort(outedges[i])];
      }
    }

    /** `create_directed`: empty lists, then every edge, then sorted lists. */
    static method CreateDirected(n: nat, edges: seq<Edge>) returns (g: Graph)
      requires SourcesInRange(n, edges)
      ensures fresh(g)
      ensures g.n == n
      ensures g.outedges == Adjacency(n, edges)
      ensures EdgesInRange(n, edges) ==> g.Valid()
    {
      g := new Graph.Empty(n);
      g.AddDirectedEdges(edges);
      forall u | 0 <= u < n
        ensures g.outedges[u] == TargetLists(n, edges)[u]
      {
        assert EmptyLists(n)[u] == [];
      }
      assert g.outedges == TargetLists(n, edges);
      g.SortGraphLists();
      assert g.outedges == Adjacency(n, edges);
      if EdgesInRange(n, edges) {
        AdjacencyWellFormed(n, edges);
      }
    }
  }
}
