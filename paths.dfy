/** Walks and shortest hop counts in a graph given by adjacency lists: the
    meaning of the distance vector that `bfs` in seperation.rs computes. */
module Paths {
  import opened Wrappers
  import opened Reader

  /** `p` is a walk of the graph: each vertex after the first is on the
      adjacency list of the one before it. */
  ghost predicate IsWalk(adj: AdjacencyLists, p: seq<Vertex>) {
    && |p| >= 1
    && (forall k :: 0 <= k < |p| ==> p[k] < |adj|)
    && (forall k :: 0 <= k < |p| - 1 ==> p[k + 1] in adj[p[k]])
  }

  /** Some walk of exactly `L` steps leads from `s` to `x`. */
  ghost predicate ReachableIn(adj: AdjacencyLists, s: Vertex, x: Vertex, L: nat) {
    exists p :: IsWalk(adj, p) && |p| == L + 1 && p[0] == s && p[L] == x
  }

  /** A walk of some length has a shortest one. */
  lemma {:induction false} LeastSteps(adj: AdjacencyLists, s: Vertex, x: Vertex, L: nat)
    requires ReachableIn(adj, s, x, L)
    ensures exists m: nat :: m <= L && ReachableIn(adj, s, x, m) && forall l: nat :: l < m ==> !ReachableIn(adj, s, x, l)
    decreases L
  {
    if exists l: nat :: l < L && ReachableIn(adj, s, x, l) {
      var l: nat :| l < L && ReachableIn(adj, s, x, l);
      LeastSteps(adj, s, x, l);
    }
  }

  /** The number of steps of a shortest walk from `s` to `x`, or `None` when
      no walk leads there. */
  ghost function Dist(adj: AdjacencyLists, s: Vertex, x: Vertex): (d: Option<nat>)
    ensures d.Some? ==> ReachableIn(adj, s, x, d.value)
    ensures d.Some? ==> forall l: nat :: l < d.value ==> !ReachableIn(adj, s, x, l)
    ensures d.None? <==> forall l: nat :: !ReachableIn(adj, s, x, l)
  {
    if exists L: nat :: ReachableIn(adj, s, x, L) then
      var L: nat :| ReachableIn(adj, s, x, L);
      LeastSteps(adj, s, x, L);
      var m: nat :| ReachableIn(adj, s, x, m) && forall l: nat :: l < m ==> !ReachableIn(adj, s, x, l);
      Some(m)
    else
      None
  }

  /** The shortest hop count from `s` to every vertex. */
  ghost function ShortestVector(adj: AdjacencyLists, s: Vertex): (dv: seq<Option<nat>>)
    ensures |dv| == |adj|
    ensures forall x :: 0 <= x < |adj| ==> dv[x] == Dist(adj, s, x)
  {
    seq(|adj|, x requires 0 <= x => Dist(adj, s, x))
  }

  /** Every edge leaving `v` leads to a vertex whose distance is at most one more. */
  ghost predicate ClosedAt(adj: AdjacencyLists, dv: seq<Option<nat>>, v: Vertex) {
    && v < |adj| && v < |dv| && dv[v].Some?
    && forall u :: u in adj[v] ==> u < |dv| && dv[u].Some? && dv[u].value <= dv[v].value + 1
  }

  /** No edge out of a vertex with a distance can shorten another distance. */
  ghost predicate Closed(adj: AdjacencyLists, dv: seq<Option<nat>>) {
    forall v :: 0 <= v < |dv| && dv[v].Some? ==> ClosedAt(adj, dv, v)
  }

  /** Only `s` has distance 0, and every vertex at distance `k > 0` has a
      predecessor at distance `k - 1`. */
  ghost predicate Supported(adj: AdjacencyLists, dv: seq<Option<nat>>, s: Vertex) {
    && (forall x :: 0 <= x < |dv| && dv[x] == Some(0) ==> x == s)
    && (forall x :: 0 <= x < |dv| && dv[x].Some? && dv[x].value > 0 ==>
          exists v :: 0 <= v < |dv| && v < |adj| && x in adj[v] && dv[v] == Some(dv[x].value - 1))
  }

  /** In a closed vector with 0 at `s`, the end of every walk from `s` has a
      distance no larger than the walk's length. */
  lemma {:induction false} WalkBound(adj: AdjacencyLists, dv: seq<Option<nat>>, s: Vertex, p: seq<Vertex>)
    requires Closed(adj, dv) && s < |dv| && dv[s] == Some(0)
    requires IsWalk(adj, p) && p[0] == s
    ensures p[|p| - 1] < |dv| && dv[p[|p| - 1]].Some? && dv[p[|p| - 1]].value <= |p| - 1
    decreases |p|
  {
    if |p| > 1 {
      var q := p[..|p| - 1];
      assert IsWalk(adj, q);
      WalkBound(adj, dv, s, q);
      assert p[|p| - 1] in adj[q[|q| - 1]];
    }
  }

  /** A walk of `l` steps from `s` to `x` bounds the distance of `x` by `l`. */
  lemma NoShorterWalk(adj: AdjacencyLists, dv: seq<Option<nat>>, s: Vertex, x: Vertex, l: nat)
    requires Closed(adj, dv) && s < |dv| && dv[s] == Some(0)
    ensures ReachableIn(adj, s, x, l) ==> x < |dv| && dv[x].Some? && dv[x].value <= l
  {
    if ReachableIn(adj, s, x, l) {
      var p :| IsWalk(adj, p) && |p| == l + 1 && p[0] == s && p[l] == x;
      WalkBound(adj, dv, s, p);
    }
  }

  /** A walk followed by one more edge is a walk. */
  lemma ExtendWalk(adj: AdjacencyLists, p: seq<Vertex>, x: Vertex)
    requires IsWalk(adj, p) && x < |adj| && x in adj[p[|p| - 1]]
    ensures IsWalk(adj, p + [x])
  {
    var q := p + [x];
    forall k | 0 <= k < |q| - 1
      ensures q[k + 1] in adj[q[k]]
    {
      if k < |p| - 1 {
        assert q[k] == p[k] && q[k + 1] == p[k + 1];
      }
    }
  }

  /** In a supported vector, a vertex at distance `k > 0` has a predecessor at `k - 1`. */
  lemma SupportedStep(adj: AdjacencyLists, dv: seq<Option<nat>>, s: Vertex, x: Vertex) returns (v: Vertex)
    requires Supported(adj, dv, s) && x < |dv| && dv[x].Some? && dv[x].value > 0
    ensures v < |dv| && v < |adj| && x in adj[v] && dv[v] == Some(dv[x].value - 1)
  {
    v :| 0 <= v < |dv| && v < |adj| && x in adj[v] && dv[v] == Some(dv[x].value - 1);
  }

  /** In a supported vector, every vertex with a distance is reached by a
      walk of exactly that many steps. */
  lemma {:induction false} SupportedReach(adj: AdjacencyLists, dv: seq<Option<nat>>, s: Vertex, x: Vertex)
    requires |dv| == |adj| && Supported(adj, dv, s) && s < |adj|
    requires x < |dv| && dv[x].Some?
    ensures ReachableIn(adj, s, x, dv[x].value)
    decreases dv[x].value
  {
    var k := dv[x].value;
    if k == 0 {
      var p := [s];
      assert IsWalk(adj, p) && |p| == k + 1 && p[0] == s && p[k] == x;
    } else {
      var v := SupportedStep(adj, dv, s, x);
      SupportedReach(adj, dv, s, v);
      var p :| IsWalk(adj, p) && |p| == k && p[0] == s && p[k - 1] == v;
      ExtendWalk(adj, p, x);
      var q := p + [x];
      assert IsWalk(adj, q) && |q| == k + 1 && q[0] == s && q[k] == x;
    }
  }

  /** One entry of a closed, supported vector with 0 at `s` is the shortest
      hop count. */
  lemma DistanceExactAt(adj: AdjacencyLists, dv: seq<Option<nat>>, s: Vertex, x: Vertex)
    requires |dv| == |adj| && s < |dv| && dv[s] == Some(0)
    requires Closed(adj, dv) && Supported(adj, dv, s)
    requires x < |dv|
    ensures dv[x] == Dist(adj, s, x)
  {
    var d := Dist(adj, s, x);
    if dv[x].Some? {
      var k := dv[x].value;
      SupportedReach(adj, dv, s, x);
      assert d.Some? && d.value <= k;
      assert ReachableIn(adj, s, x, d.value);
      NoShorterWalk(adj, dv, s, x, d.value);
      assert k <= d.value;
    } else {
      forall l: nat
        ensures !ReachableIn(adj, s, x, l)
      {
        NoShorterWalk(adj, dv, s, x, l);
      }
      assert d.None?;
    }
  }

  /** A distance vector that is closed, supported and 0 at `s` holds exactly
      the shortest hop counts from `s`, and `None` exactly at the vertices no
      walk from `s` reaches. */
  lemma DistanceVectorExact(adj: AdjacencyLists, dv: seq<Option<nat>>, s: Vertex)
    requires |dv| == |adj| && s < |dv| && dv[s] == Some(0)
    requires Closed(adj, dv) && Supported(adj, dv, s)
    ensures dv == ShortestVector(adj, s)
  {
    forall x | 0 <= x < |dv|
      ensures dv[x] == Dist(adj, s, x)
    {
      DistanceExactAt(adj, dv, s, x);
    }
  }

  /** The shortest hop counts are closed: an edge out of a reached vertex
      leads to a vertex at most one step further. */
  lemma ShortestClosed(adj: AdjacencyLists, s: Vertex)
    requires WellFormed(|adj|, adj)
    ensures Closed(adj, ShortestVector(adj, s))
  {
    var sv := ShortestVector(adj, s);
    forall v | 0 <= v < |sv| && sv[v].Some?
      ensures ClosedAt(adj, sv, v)
    {
      forall u | u in adj[v]
        ensures u < |sv| && sv[u].Some? && sv[u].value <= sv[v].value + 1
      {
        var d := sv[v].value;
        var p: seq<Vertex> :| IsWalk(adj, p) && |p| == d + 1 && p[0] == s && p[d] == v;
        ExtendWalk(adj, p, u);
        var q := p + [u];
        assert IsWalk(adj, q) && |q| == d + 2 && q[0] == s && q[d + 1] == u;
        assert ReachableIn(adj, s, u, d + 1);
      }
    }
  }

  /** The shortest hop counts are supported: 0 only at `s`, and a vertex at
      distance `k > 0` has a predecessor at distance `k - 1`. */
  lemma ShortestSupported(adj: AdjacencyLists, s: Vertex)
    requires WellFormed(|adj|, adj)
    ensures Supported(adj, ShortestVector(adj, s), s)
  {
    var sv := ShortestVector(adj, s);
    forall x | 0 <= x < |sv| && sv[x] == Some(0)
      ensures x == s
    {
      var p :| IsWalk(adj, p) && |p| == 1 && p[0] == s && p[0] == x;
    }
    forall x | 0 <= x < |sv| && sv[x].Some? && sv[x].value > 0
      ensures exists v :: 0 <= v < |sv| && v < |adj| && x in adj[v] && sv[v] == Some(sv[x].value - 1)
    {
      var v := Predecessor(adj, s, x, sv[x].value);
    }
  }

  /** A vertex at shortest distance `k > 0` has a predecessor at shortest distance `k - 1`. */
  lemma Predecessor(adj: AdjacencyLists, s: Vertex, x: Vertex, k: nat) returns (v: Vertex)
    requires WellFormed(|adj|, adj) && x < |adj|
    requires Dist(adj, s, x) == Some(k) && k > 0
    ensures v < |adj| && x in adj[v] && Dist(adj, s, v) == Some(k - 1)
  {
    var p: seq<Vertex> :| IsWalk(adj, p) && |p| == k + 1 && p[0] == s && p[k] == x;
    v := p[k - 1];
    var q := p[..k];
    assert IsWalk(adj, q) && |q| == k && q[0] == s && q[k - 1] == v;
    assert ReachableIn(adj, s, v, k - 1);
    var e := Dist(adj, s, v).value;
    assert e <= k - 1;
    var r: seq<Vertex> :| IsWalk(adj, r) && |r| == e + 1 && r[0] == s && r[e] == v;
    ExtendWalk(adj, r, x);
    var r' := r + [x];
    assert IsWalk(adj, r') && |r'| == e + 2 && r'[0] == s && r'[e + 1] == x;
    assert ReachableIn(adj, s, x, e + 1);
  }

  /** `adjR` is the transpose of `adj`: `v` is on list `u` of `adjR` exactly
      when `u` is on list `v` of `adj`. */
  ghost predicate Transposed(adj: AdjacencyLists, adjR: AdjacencyLists) {
    && |adj| == |adjR|
    && forall u, v :: 0 <= u < |adj| && 0 <= v < |adj| ==> (v in adjR[u] <==> u in adj[v])
  }

  /** The vertices of `p` in the opposite order. */
  function Reversed(p: seq<Vertex>): (r: seq<Vertex>)
    ensures |r| == |p|
    ensures forall k :: 0 <= k < |p| ==> r[k] == p[|p| - 1 - k]
  {
    seq(|p|, k requires 0 <= k < |p| => p[|p| - 1 - k])
  }

  /** A walk of a graph, read backwards, is a walk of its transpose. */
  lemma ReverseWalk(adj: AdjacencyLists, adjR: AdjacencyLists, p: seq<Vertex>)
    requires Transposed(adj, adjR) && IsWalk(adj, p)
    ensures IsWalk(adjR, Reversed(p))
  {
    var r := Reversed(p);
    forall k | 0 <= k < |r| - 1
      ensures r[k + 1] in adjR[r[k]]
    {
      var j := |p| - 2 - k;
      assert r[k] == p[j + 1] && r[k + 1] == p[j];
      assert p[j + 1] in adj[p[j]];
    }
  }

  /** `x` is reachable from `s` in `L` steps exactly when `s` is reachable
      from `x` in `L` steps of the transpose. */
  lemma ReachableReversed(adj: AdjacencyLists, adjR: AdjacencyLists, s: Vertex, x: Vertex, L: nat)
    requires Transposed(adj, adjR)
    ensures ReachableIn(adj, s, x, L) <==> ReachableIn(adjR, x, s, L)
  {
    if ReachableIn(adj, s, x, L) {
      var p :| IsWalk(adj, p) && |p| == L + 1 && p[0] == s && p[L] == x;
      ReverseWalk(adj, adjR, p);
      var r := Reversed(p);
      assert r[0] == x && r[L] == s;
    }
    if ReachableIn(adjR, x, s, L) {
      var p :| IsWalk(adjR, p) && |p| == L + 1 && p[0] == x && p[L] == s;
      assert Transposed(adjR, adj);
      ReverseWalk(adjR, adj, p);
      var r := Reversed(p);
      assert r[0] == s && r[L] == x;
    }
  }

  /** The shortest distance from `u` to `v` in the transpose is the shortest
      distance from `v` to `u` in the graph. */
  lemma DistTransposed(adj: AdjacencyLists, adjR: AdjacencyLists, u: Vertex, v: Vertex)
    requires Transposed(adj, adjR)
    ensures Dist(adjR, u, v) == Dist(adj, v, u)
  {
    forall L: nat
      ensures ReachableIn(adjR, u, v, L) <==> ReachableIn(adj, v, u, L)
    {
      ReachableReversed(adj, adjR, v, u, L);
    }
  }

  /** The graph built from the reversed edge list is the transpose of the
      graph built from the edge list. */
  lemma AdjacencyTransposed(n: nat, edges: seq<Edge>)
    ensures Transposed(Adjacency(n, edges), Adjacency(n, Swapped(edges)))
  {
    forall u, v | 0 <= u < n && 0 <= v < n
      ensures v in Adjacency(n, Swapped(edges))[u] <==> u in Adjacency(n, edges)[v]
    {
      TransposeDuality(n, edges, u, v);
    }
  }

  /** Breadth-first distances in the reverse graph are the distances into a
      node of the graph: the shortest distance from `u` to `v` after
      `reverse_edges` is the shortest distance from `v` to `u` before. */
  lemma DistReversed(n: nat, edges: seq<Edge>, u: Vertex, v: Vertex)
    ensures Dist(Adjacency(n, Swapped(edges)), u, v) == Dist(Adjacency(n, edges), v, u)
    ensures u < n && v < n ==>
              ShortestVector(Adjacency(n, Swapped(edges)), u)[v] == ShortestVector(Adjacency(n, edges), v)[u]
  {
    AdjacencyTransposed(n, edges);
    DistTransposed(Adjacency(n, edges), Adjacency(n, Swapped(edges)), u, v);
  }
}

