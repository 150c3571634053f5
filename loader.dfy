/** First-seen numbering of page names, the part of `load_tsv` in reader.rs
    that turns rows of (from, to) names into node indices and edges. The
    file handling around it (opening, reading lines, skipping comments,
    splitting on tabs) is not modelled: the rows arrive already split. */
module Loader {
  import opened Reader

  type Name = string

  /** The names that occur in the rows, as source or as target. */
  function NamesOf(pairs: seq<(Name, Name)>): (names: set<Name>)
    ensures forall k :: 0 <= k < |pairs| ==> pairs[k].0 in names && pairs[k].1 in names
  {
    if pairs == [] then {}
    else
      var last := pairs[|pairs| - 1];
      NamesOf(pairs[..|pairs| - 1]) + {last.0, last.1}
  }

  /** Every name of `NamesOf` comes from some row. */
  lemma {:induction false} NamesOfOnlyRows(pairs: seq<(Name, Name)>, s: Name)
    requires s in NamesOf(pairs)
    ensures exists k :: 0 <= k < |pairs| && (pairs[k].0 == s || pairs[k].1 == s)
  {
    var init := pairs[..|pairs| - 1];
    if s in NamesOf(init) {
      NamesOfOnlyRows(init, s);
      var k :| 0 <= k < |init| && (init[k].0 == s || init[k].1 == s);
      assert pairs[k] == init[k];
    }
  }

  predicate NoDuplicates(order: seq<Name>) {
    forall i, j :: 0 <= i < j < |order| ==> order[i] != order[j]
  }

  /** One step of the numbering: an unseen name is appended, a seen one ignored. */
  function Note(order: seq<Name>, s: Name): seq<Name> {
    if s in order then order else order + [s]
  }

  /** The distinct names of the rows in order of first appearance; a name's
      position here is the index `load_tsv` gives it. */
  function FirstSeen(pairs: seq<(Name, Name)>): (order: seq<Name>) {
    if pairs == [] then []
    else
      var last := pairs[|pairs| - 1];
      Note(Note(FirstSeen(pairs[..|pairs| - 1]), last.0), last.1)
  }

  /** The first-seen order lists every name of the rows exactly once. */
  lemma {:induction false} FirstSeenDistinct(pairs: seq<(Name, Name)>)
    ensures NoDuplicates(FirstSeen(pairs))
    ensures forall s :: s in FirstSeen(pairs) <==> s in NamesOf(pairs)
  {
    if pairs != [] {
      FirstSeenDistinct(pairs[..|pairs| - 1]);
    }
  }

  /** The position of a name in a sequence that holds it. */
  function Position(order: seq<Name>, s: Name): (i: nat)
    requires s in order
    ensures i < |order| && order[i] == s
  {
    if order[0] == s then 0 else 1 + Position(order[1..], s)
  }

  lemma PositionUnique(order: seq<Name>, s: Name, i: nat)
    requires NoDuplicates(order)
    requires i < |order| && order[i] == s
    ensures Position(order, s) == i
  {
  }

  /** The edge list `load_tsv` builds: each row's names replaced by their indices. */
  function NumberedEdges(pairs: seq<(Name, Name)>): (edges: seq<Edge>)
    ensures |edges| == |pairs|
    ensures EdgesInRange(|FirstSeen(pairs)|, edges)
  {
    var order := FirstSeen(pairs);
    FirstSeenDistinct(pairs);
    seq(|pairs|, k requires 0 <= k < |pairs| =>
      (Position(order, pairs[k].0), Position(order, pairs[k].1)))
  }

  /** `nodes` gives every name of `order` its position and holds no other name. */
  ghost predicate Numbers(nodes: map<Name, Vertex>, order: seq<Name>) {
    && (forall k :: 0 <= k < |order| ==> order[k] in nodes && nodes[order[k]] == k)
    && (forall s :: s in nodes ==> nodes[s] < |order| && order[nodes[s]] == s)
  }

  /** A name gets the next index exactly when it is not numbered yet. */
  lemma AddName(nodes: map<Name, Vertex>, order: seq<Name>, s: Name)
    requires Numbers(nodes, order)
    ensures s in nodes <==> s in order
    ensures s !in nodes ==> Numbers(nodes[s := |order|], order + [s])
  {
  }

  /** The first-seen order after row `i` notes its source name, then its target name. */
  lemma FirstSeenStep(pairs: seq<(Name, Name)>, i: nat)
    requires i < |pairs|
    ensures FirstSeen(pairs[..i + 1]) == Note(Note(FirstSeen(pairs[..i]), pairs[i].0), pairs[i].1)
  {
    assert pairs[..i + 1][..i] == pairs[..i];
  }

  /** A numbering of a duplicate-free order is injective and below its length. */
  lemma NumbersRange(nodes: map<Name, Vertex>, order: seq<Name>)
    requires Numbers(nodes, order) && NoDuplicates(order)
    ensures forall s :: s in nodes <==> s in order
    ensures forall s :: s in nodes ==> nodes[s] < |order| && nodes[s] == Position(order, s)
    ensures forall s, t :: s in nodes && t in nodes && s != t ==> nodes[s] != nodes[t]
  {
    forall s | s in nodes
      ensures nodes[s] == Position(order, s)
    {
      PositionUnique(order, s, nodes[s]);
    }
  }

  /** A numbering of the whole first-seen order covers exactly the names of
      the rows, one distinct index each. */
  lemma NumberingComplete(nodes: map<Name, Vertex>, pairs: seq<(Name, Name)>)
    requires Numbers(nodes, FirstSeen(pairs))
    ensures forall k :: 0 <= k < |FirstSeen(pairs)| ==> FirstSeen(pairs)[k] in nodes && nodes[FirstSeen(pairs)[k]] == k
    ensures nodes.Keys == NamesOf(pairs)
    ensures forall s :: s in nodes ==> nodes[s] < |FirstSeen(pairs)| && FirstSeen(pairs)[nodes[s]] == s && nodes[s] == Position(FirstSeen(pairs), s)
    ensures forall s, t :: s in nodes && t in nodes && s != t ==> nodes[s] != nodes[t]
  {
    FirstSeenDistinct(pairs);
    NumbersRange(nodes, FirstSeen(pairs));
  }

  /** The first loop of `load_tsv`: every name not seen before gets the
      current count as its index, and the count goes up by one. */
  method AssignIndices(pairs: seq<(Name, Name)>) returns (nodes: map<Name, Vertex>, numNodes: nat)
    ensures numNodes == |FirstSeen(pairs)|
    ensures forall k :: 0 <= k < numNodes ==> FirstSeen(pairs)[k] in nodes && nodes[FirstSeen(pairs)[k]] == k
    ensures nodes.Keys == NamesOf(pairs)
    ensures forall s :: s in nodes ==> nodes[s] < numNodes && FirstSeen(pairs)[nodes[s]] == s && nodes[s] == Position(FirstSeen(pairs), s)
    ensures forall s, t :: s in nodes && t in nodes && s != t ==> nodes[s] != nodes[t]
  {
    nodes := map[];
    var nodeSet: set<Name> := {};
    numNodes := 0;
    ghost var order: seq<Name> := [];
    for i := 0 to |pairs|
      invariant nodeSet == nodes.Keys
      invariant order == FirstSeen(pairs[..i])
      invariant numNodes == |order|
      invariant Numbers(nodes, order)
    {
      var (from, to) := pairs[i];
      FirstSeenStep(pairs, i);
      if from !in nodeSet {
        AddName(nodes, order, from);
        nodes := nodes[from := numNodes];
        nodeSet := nodeSet + {from};
        numNodes := numNodes + 1;
        order := order + [from];
      }
      if to !in nodeSet {
        AddName(nodes, order, to);
        nodes := nodes[to := numNodes];
        nodeSet := nodeSet + {to};
        numNodes := numNodes + 1;
        order := order + [to];
      }
    }
    assert pairs[..|pairs|] == pairs;
    NumberingComplete(nodes, pairs);
  }

  /** The second loop of `load_tsv`: every row becomes the pair of its
      names' indices; the lookups cannot fail because every name of the
      rows has an index. */
  method IndexEdges(nodes: map<Name, Vertex>, pairs: seq<(Name, Name)>) returns (edges: seq<Edge>)
    requires NamesOf(pairs) <= nodes.Keys
    ensures |edges| == |pairs|
    ensures forall k :: 0 <= k < |pairs| ==> edges[k] == (nodes[pairs[k].0], nodes[pairs[k].1])
  {
    edges := [];
    for i := 0 to |pairs|
      invariant |edges| == i
      invariant forall k :: 0 <= k < i ==> edges[k] == (nodes[pairs[k].0], nodes[pairs[k].1])
    {
      var (from, to) := pairs[i];
      edges := edges + [(nodes[from], nodes[to])];
    }
  }

  /** Both loops together produce the numbered edge list, in range of the node count. */
  lemma IndexedEdgesAreNumbered(nodes: map<Name, Vertex>, pairs: seq<(Name, Name)>, edges: seq<Edge>)
    requires nodes.Keys == NamesOf(pairs)
    requires forall s :: s in nodes ==> s in FirstSeen(pairs) && nodes[s] == Position(FirstSeen(pairs), s)
    requires |edges| == |pairs|
    requires forall k :: 0 <= k < |pairs| ==> edges[k] == (nodes[pairs[k].0], nodes[pairs[k].1])
    ensures edges == NumberedEdges(pairs)
    ensures EdgesInRange(|FirstSeen(pairs)|, edges)
  {
  }

  /** `load_tsv` without the file: numbering, the graph, the graph built
      from the reversed edges, and the index-to-name lookup. */
  method LoadGraphs(pairs: seq<(Name, Name)>) returns (nodesReverse: map<Vertex, Name>, graph: Graph, graphReverse: Graph)
    ensures fresh(graph) && fresh(graphReverse)
    ensures graph.n == graphReverse.n == |FirstSeen(pairs)|
    ensures graph.Valid() && graphReverse.Valid()
    ensures graph.outedges == Adjacency(graph.n, NumberedEdges(pairs))
    ensures graphReverse.outedges == Adjacency(graph.n, Swapped(NumberedEdges(pairs)))
    ensures forall k: Vertex :: k in nodesReverse <==> k < graph.n
    ensures forall k :: 0 <= k < graph.n ==> nodesReverse[k] == FirstSeen(pairs)[k]
  {
    var nodes, numNodes := AssignIndices(pairs);
    var edges := IndexEdges(nodes, pairs);
    IndexedEdgesAreNumbered(nodes, pairs, edges);
    graph := Graph.CreateDirected(numNodes, edges);
    var reversed := ReverseEdges(edges);
    SwappedInRange(numNodes, edges);
    graphReverse := Graph.CreateDirected(numNodes, reversed);
    nodesReverse := map s | s in nodes :: nodes[s] := s;
    ghost var order := FirstSeen(pairs);
    forall k | 0 <= k < numNodes
      ensures k in nodesReverse && nodesReverse[k] == order[k]
    {
      assert order[k] in nodes && nodes[order[k]] == k;
    }
    forall k: Vertex
      ensures k in nodesReverse <==> k < numNodes
    {
      if k in nodesReverse {
        var s :| s in nodes && nodes[s] == k;
      }
    }
  }
}
