/** Breadth-first search and the separation statistics (seperation.rs). */
module Separation {
  import opened Wrappers
  import opened Sorting
  import opened Reader
  import opened Paths
  import opened Statistics

  // ---------------------------------------------------------------------
  // bfs

  /** The number of vertices that have no distance yet. */
  function CountNone(dv: seq<Option<nat>>): nat {
    |set i | 0 <= i < |dv| && dv[i].None?|
  }

  /** Giving a distance to a vertex that had none lowers the count by one. */
  lemma CountNoneSettle(dv: seq<Option<nat>>, x: nat, d: nat)
    requires x < |dv| && dv[x].None?
    ensures CountNone(dv[x := Some(d)]) == CountNone(dv) - 1
  {
    var after := dv[x := Some(d)];
    var before := set i | 0 <= i < |dv| && dv[i].None?;
    assert (set i | 0 <= i < |after| && after[i].None?) == before - {x};
  }

  /** The bookkeeping of the search: `order` lists every vertex that has a
      distance, in the order they were queued, with non-decreasing
      distances, and `index` finds each such vertex in it. */
  ghost predicate Queued(n: nat, distance: seq<Option<nat>>, order: seq<Vertex>, index: map<Vertex, nat>) {
    && |distance| == n
    && (forall k :: 0 <= k < |order| ==> order[k] < n && distance[order[k]].Some?)
    && (forall x :: 0 <= x < n && distance[x].Some? ==> x in index && index[x] < |order| && order[index[x]] == x)
    && (forall i, j :: 0 <= i < j < |order| ==> distance[order[i]].value <= distance[order[j]].value)
  }

  /** `parent[x]` is a predecessor of `x` one step closer to `start`. */
  ghost predicate ParentOk(adj: AdjacencyLists, distance: seq<Option<nat>>, parent: seq<Vertex>, start: Vertex) {
    && |parent| == |distance|
    && (forall x :: 0 <= x < |distance| && distance[x] == Some(0) ==> x == start)
    && (forall x :: 0 <= x < |distance| && distance[x].Some? && distance[x].value > 0 ==>
          parent[x] < |distance| && parent[x] < |adj| && x in adj[parent[x]] &&
          distance[parent[x]] == Some(distance[x].value - 1))
  }

  /** Queueing a vertex without a distance, at a distance no smaller than
      any queued so far, keeps the bookkeeping and no other distance changes. */
  lemma QueuedPush(n: nat, distance: seq<Option<nat>>, order: seq<Vertex>, index: map<Vertex, nat>, u: Vertex, d: nat)
    requires Queued(n, distance, order, index)
    requires u < n && distance[u].None?
    requires forall k :: 0 <= k < |order| ==> distance[order[k]].value <= d
    ensures Queued(n, distance[u := Some(d)], order + [u], index[u := |order|])
    ensures forall k :: 0 <= k < |order| ==> distance[u := Some(d)][order[k]] == distance[order[k]]
  {
    var distance', order' := distance[u := Some(d)], order + [u];
    forall k | 0 <= k < |order|
      ensures order'[k] == order[k] != u
    {
    }
  }

  /** Giving a distance to another vertex keeps a vertex's edges closed. */
  lemma ClosedAtSettle(adj: AdjacencyLists, distance: seq<Option<nat>>, x: Vertex, d: nat, v: Vertex)
    requires x < |distance| && distance[x].None?
    requires ClosedAt(adj, distance, v)
    ensures ClosedAt(adj, distance[x := Some(d)], v)
  {
  }

  /** Giving `u` the distance one more than its predecessor `v`'s keeps the
      parent links. */
  lemma ParentPush(adj: AdjacencyLists, distance: seq<Option<nat>>, parent: seq<Vertex>, start: Vertex, u: Vertex, v: Vertex, d: nat)
    requires ParentOk(adj, distance, parent, start)
    requires u < |distance| && distance[u].None?
    requires v < |distance| && v < |adj| && u in adj[v] && distance[v] == Some(d)
    ensures ParentOk(adj, distance[u := Some(d + 1)], parent[u := v], start)
  {
  }

  /** Parent links make a distance vector supported. */
  lemma ParentSupported(adj: AdjacencyLists, distance: seq<Option<nat>>, parent: seq<Vertex>, start: Vertex)
    requires ParentOk(adj, distance, parent, start)
    ensures Supported(adj, distance, start)
  {
    forall x | 0 <= x < |distance| && distance[x].Some? && distance[x].value > 0
      ensures exists v :: 0 <= v < |distance| && v < |adj| && x in adj[v] && distance[v] == Some(distance[x].value - 1)
    {
      var v := parent[x];
      assert 0 <= v < |distance| && v < |adj| && x in adj[v] && distance[v] == Some(distance[x].value - 1);
    }
  }

  /** Every vertex that had a distance in `before` keeps it in `after`. */
  ghost predicate Keeps(before: seq<Option<nat>>, after: seq<Option<nat>>) {
    && |after| == |before|
    && forall x :: 0 <= x < |before| && before[x].Some? ==> after[x] == before[x]
  }

  /** No vertex is queued twice. */
  ghost predicate Distinct(order: seq<Vertex>) {
    forall i, j :: 0 <= i < j < |order| ==> order[i] != order[j]
  }

  /** Settling a vertex that had no distance changes no distance already
      given, and queues a vertex that was not queued before. */
  lemma SettleKeeps(before: seq<Option<nat>>, distance: seq<Option<nat>>, order: seq<Vertex>, u: Vertex, d: nat)
    requires Keeps(before, distance) && Distinct(order)
    requires u < |distance| && distance[u].None?
    requires forall k :: 0 <= k < |order| ==> order[k] < |distance| && distance[order[k]].Some?
    ensures Keeps(before, distance[u := Some(d)]) && Distinct(order + [u])
  {
  }

  /** The state between two turns of the outer loop of `bfs`: the queue is
      the unprocessed tail of `order`, its distances span at most two
      consecutive values, and every vertex already taken off the queue has
      all its edges closed. */
  ghost predicate Frontier(adj: AdjacencyLists, n: nat, start: Vertex, distance: seq<Option<nat>>, queue: seq<Vertex>,
                           order: seq<Vertex>, head: nat, index: map<Vertex, nat>, parent: seq<Vertex>)
  {
    && WellFormed(n, adj)
    && Queued(n, distance, order, index)
    && ParentOk(adj, distance, parent, start)
    && start < n && distance[start] == Some(0)
    && head <= |order| && queue == order[head..]
    && (forall j :: head <= j < |order| ==> distance[order[j]].value <= distance[order[head]].value + 1)
    && (forall j :: 0 <= j < head ==> ClosedAt(adj, distance, order[j]))
  }

  /** The state inside the inner loop of `bfs`, while the edges of `v`, which
      was taken off the queue at distance `dv`, are visited: the first `k`
      of them already lead to vertices with a distance at most `dv + 1`. */
  ghost predicate Visiting(adj: AdjacencyLists, n: nat, start: Vertex, distance: seq<Option<nat>>, queue: seq<Vertex>,
                           order: seq<Vertex>, head: nat, index: map<Vertex, nat>, parent: seq<Vertex>,
                           v: Vertex, dv: nat, k: nat)
  {
    && WellFormed(n, adj)
    && Queued(n, distance, order, index)
    && ParentOk(adj, distance, parent, start)
    && start < n && distance[start] == Some(0)
    && 1 <= head <= |order| && queue == order[head..] && order[head - 1] == v
    && v < n && distance[v] == Some(dv) && k <= |adj[v]|
    && (forall j :: head <= j < |order| ==> distance[order[j]].value <= dv + 1)
    && (forall j :: 0 <= j < head - 1 ==> ClosedAt(adj, distance, order[j]))
    && (forall i :: 0 <= i < k ==> adj[v][i] < n && distance[adj[v][i]].Some? && distance[adj[v][i]].value <= dv + 1)
  }

  lemma StartFrontier(adj: AdjacencyLists, n: nat, start: Vertex)
    requires WellFormed(n, adj) && start < n
    ensures var distance: seq<Option<nat>> := seq(n, x => None)[start := Some(0)];
            var parent: seq<Vertex> := seq(n, x => 0);
            Frontier(adj, n, start, distance, [start], [start], 0, map[start := 0], parent)
  {
    var distance: seq<Option<nat>> := seq(n, x => None)[start := Some(0)];
    assert forall x :: 0 <= x < n && distance[x].Some? ==> x == start;
  }

  lemma PopFrontier(adj: AdjacencyLists, n: nat, start: Vertex, distance: seq<Option<nat>>, queue: seq<Vertex>,
                    order: seq<Vertex>, head: nat, index: map<Vertex, nat>, parent: seq<Vertex>)
    requires Frontier(adj, n, start, distance, queue, order, head, index, parent)
    requires queue != []
    ensures queue[0] < n && distance[queue[0]].Some?
    ensures Visiting(adj, n, start, distance, queue[1..], order, head + 1, index, parent, queue[0], distance[queue[0]].value, 0)
  {
    assert queue[0] == order[head];
    assert queue[1..] == order[head + 1..];
  }

  /** An edge to a vertex that already has a distance changes nothing. */
  lemma VisitSeen(adj: AdjacencyLists, n: nat, start: Vertex, distance: seq<Option<nat>>, queue: seq<Vertex>,
                  order: seq<Vertex>, head: nat, index: map<Vertex, nat>, parent: seq<Vertex>,
                  v: Vertex, dv: nat, k: nat)
    requires Visiting(adj, n, start, distance, queue, order, head, index, parent, v, dv, k)
    requires k < |adj[v]| && adj[v][k] < n && distance[adj[v][k]].Some?
    ensures Visiting(adj, n, start, distance, queue, order, head, index, parent, v, dv, k + 1)
  {
    var u := adj[v][k];
    var j := index[u];
    if j < head - 1 {
      assert distance[order[j]].value <= distance[order[head - 1]].value;
    }
  }

  /** The parts of the inner loop's state, put together. */
  lemma VisitingIntro(adj: AdjacencyLists, n: nat, start: Vertex, distance: seq<Option<nat>>, queue: seq<Vertex>,
                      order: seq<Vertex>, head: nat, index: map<Vertex, nat>, parent: seq<Vertex>,
                      v: Vertex, dv: nat, k: nat)
    requires WellFormed(n, adj)
    requires Queued(n, distance, order, index)
    requires ParentOk(adj, distance, parent, start)
    requires start < n && distance[start] == Some(0)
    requires 1 <= head <= |order| && queue == order[head..] && order[head - 1] == v
    requires v < n && distance[v] == Some(dv) && k <= |adj[v]|
    requires forall j :: head <= j < |order| ==> distance[order[j]].value <= dv + 1
    requires forall j :: 0 <= j < head - 1 ==> ClosedAt(adj, distance, order[j])
    requires forall i :: 0 <= i < k ==> adj[v][i] < n && distance[adj[v][i]].Some? && distance[adj[v][i]].value <= dv + 1
    ensures Visiting(adj, n, start, distance, queue, order, head, index, parent, v, dv, k)
  {
  }

  /** Appending a vertex to `order` extends the queue and keeps the vertex
      being visited in place. */
  lemma PushShape(order: seq<Vertex>, queue: seq<Vertex>, head: nat, v: Vertex, u: Vertex)
    requires 1 <= head <= |order| && queue == order[head..] && order[head - 1] == v
    ensures 1 <= head <= |order + [u]| && queue + [u] == (order + [u])[head..] && (order + [u])[head - 1] == v
  {
  }

  /** Queued vertices at most one step beyond `dv` stay so when `u` joins
      them at `dv + 1`. */
  lemma PushBelow(distance: seq<Option<nat>>, order: seq<Vertex>, head: nat, u: Vertex, dv: nat)
    requires u < |distance| && distance[u].None?
    requires forall j :: 0 <= j < |order| ==> order[j] < |distance| && distance[order[j]].Some?
    requires forall j :: head <= j < |order| ==> distance[order[j]].value <= dv + 1
    ensures forall j :: head <= j < |order + [u]| ==>
              distance[u := Some(dv + 1)][(order + [u])[j]].value <= dv + 1
  {
    forall j | head <= j < |order + [u]|
      ensures distance[u := Some(dv + 1)][(order + [u])[j]].value <= dv + 1
    {
      if j < |order| {
        assert (order + [u])[j] == order[j] != u;
      }
    }
  }

  /** Vertices already closed stay closed when `u` is settled. */
  lemma PushClosed(adj: AdjacencyLists, distance: seq<Option<nat>>, order: seq<Vertex>, head: nat, u: Vertex, d: nat)
    requires u < |distance| && distance[u].None? && 1 <= head <= |order|
    requires forall j :: 0 <= j < head - 1 ==> ClosedAt(adj, distance, order[j])
    ensures forall j :: 0 <= j < head - 1 ==> ClosedAt(adj, distance[u := Some(d)], (order + [u])[j])
  {
    forall j | 0 <= j < head - 1
      ensures ClosedAt(adj, distance[u := Some(d)], (order + [u])[j])
    {
      assert (order + [u])[j] == order[j];
      ClosedAtSettle(adj, distance, u, d, order[j]);
    }
  }

  /** The edges of `v` scanned so far, with the `k`-th one now settled at `dv + 1`. */
  lemma PushEdges(adj: AdjacencyLists, n: nat, distance: seq<Option<nat>>, v: Vertex, dv: nat, k: nat)
    requires |distance| == n && v < |adj| && k < |adj[v]| && adj[v][k] < n && distance[adj[v][k]].None?
    requires forall i :: 0 <= i < k ==> adj[v][i] < n && distance[adj[v][i]].Some? && distance[adj[v][i]].value <= dv + 1
    ensures forall i :: 0 <= i < k + 1 ==>
              adj[v][i] < n && distance[adj[v][k] := Some(dv + 1)][adj[v][i]].Some? &&
              distance[adj[v][k] := Some(dv + 1)][adj[v][i]].value <= dv + 1
  {
  }

  /** An edge to a vertex without a distance gives it `dv + 1` and queues it. */
  lemma VisitNew(adj: AdjacencyLists, n: nat, start: Vertex, distance: seq<Option<nat>>, queue: seq<Vertex>,
                 order: seq<Vertex>, head: nat, index: map<Vertex, nat>, parent: seq<Vertex>,
                 v: Vertex, dv: nat, k: nat)
    requires Visiting(adj, n, start, distance, queue, order, head, index, parent, v, dv, k)
    requires k < |adj[v]| && adj[v][k] < n && distance[adj[v][k]].None?
    ensures var u := adj[v][k];
            Visiting(adj, n, start, distance[u := Some(distance[v].value + 1)], queue + [u], order + [u], head,
                     index[u := |order|], parent[u := v], v, dv, k + 1)
    ensures CountNone(distance[adj[v][k] := Some(distance[v].value + 1)]) == CountNone(distance) - 1
  {
    var u := adj[v][k];
    assert distance[v].value == dv && u in adj[v];
    assert forall j :: 0 <= j < |order| ==> distance[order[j]].value <= dv + 1 by {
      forall j | 0 <= j < |order|
        ensures distance[order[j]].value <= dv + 1
      {
        if j < head - 1 {
          assert distance[order[j]].value <= distance[order[head - 1]].value;
        }
      }
    }
    QueuedPush(n, distance, order, index, u, dv + 1);
    ParentPush(adj, distance, parent, start, u, v, dv);
    PushShape(order, queue, head, v, u);
    PushBelow(distance, order, head, u, dv);
    PushClosed(adj, distance, order, head, u, dv + 1);
    PushEdges(adj, n, distance, v, dv, k);
    VisitingIntro(adj, n, start, distance[u := Some(dv + 1)], queue + [u], order + [u], head,
                  index[u := |order|], parent[u := v], v, dv, k + 1);
    CountNoneSettle(distance, u, dv + 1);
  }

  /** Once all edges of `v` are visited, `v` is closed and the outer loop's
      state holds again. */
  lemma VisitDone(adj: AdjacencyLists, n: nat, start: Vertex, distance: seq<Option<nat>>, queue: seq<Vertex>,
                  order: seq<Vertex>, head: nat, index: map<Vertex, nat>, parent: seq<Vertex>,
                  v: Vertex, dv: nat)
    requires v < |adj|
    requires Visiting(adj, n, start, distance, queue, order, head, index, parent, v, dv, |adj[v]|)
    ensures Frontier(adj, n, start, distance, queue, order, head, index, parent)
  {
    assert ClosedAt(adj, distance, v) by {
      forall w | w in adj[v]
        ensures w < |distance| && distance[w].Some? && distance[w].value <= dv + 1
      {
        var i :| 0 <= i < |adj[v]| && adj[v][i] == w;
      }
    }
    forall j | 0 <= j < head
      ensures ClosedAt(adj, distance, order[j])
    {
      if j == head - 1 {
        assert order[j] == v;
      }
    }
    if head < |order| {
      var dh := distance[order[head]].value;
      assert dv <= dh;
      forall j | head <= j < |order|
        ensures distance[order[j]].value <= dh + 1
      {
      }
    }
  }

  /** With the queue empty every vertex with a distance is closed. */
  lemma FrontierDone(adj: AdjacencyLists, n: nat, start: Vertex, distance: seq<Option<nat>>,
                     order: seq<Vertex>, head: nat, index: map<Vertex, nat>, parent: seq<Vertex>)
    requires Frontier(adj, n, start, distance, [], order, head, index, parent)
    ensures |distance| == n && Closed(adj, distance) && Supported(adj, distance, start)
  {
    forall x | 0 <= x < n && distance[x].Some?
      ensures ClosedAt(adj, distance, x)
    {
      assert ClosedAt(adj, distance, order[index[x]]);
    }
    ParentSupported(adj, distance, parent, start);
  }

  /** `bfs`: breadth-first search from `start` over the adjacency lists.
      The result is the shortest hop count to every vertex, `None` for the
      vertices no walk from `start` reaches. */
  method Bfs(g: Graph, start: Vertex) returns (distance: seq<Option<nat>>)
    requires g.Valid() && start < g.n
    ensures |distance| == g.n && distance[start] == Some(0)
    ensures distance == ShortestVector(g.outedges, start)
  {
    var adj := g.outedges;
    var n := g.n;
    distance := seq(n, x => None);
    distance := distance[start := Some(0)];
    var queue := [start];
    ghost var order := [start];
    ghost var head := 0;
    ghost var index: map<Vertex, nat> := map[start := 0];
    ghost var parent: seq<Vertex> := seq(n, x => 0);
    StartFrontier(adj, n, start);
    while queue != []
      invariant Frontier(adj, n, start, distance, queue, order, head, index, parent)
      invariant Distinct(order)
      decreases 2 * CountNone(distance) + |queue|
    {
      PopFrontier(adj, n, start, distance, queue, order, head, index, parent);
      var v := queue[0];
      queue := queue[1..];
      head := head + 1;
      ghost var dv := distance[v].value;
      ghost var bound := 2 * CountNone(distance) + |queue|;
      ghost var before := distance;
      for k := 0 to |adj[v]|
        invariant Visiting(adj, n, start, distance, queue, order, head, index, parent, v, dv, k)
        invariant 2 * CountNone(distance) + |queue| <= bound
        invariant Keeps(before, distance) && Distinct(order)
      {
        var u := adj[v][k];
        assert u in adj[v];
        if distance[u].None? {
          VisitNew(adj, n, start, distance, queue, order, head, index, parent, v, dv, k);
          SettleKeeps(before, distance, order, u, distance[v].value + 1);
          parent := parent[u := v];
          index := index[u := |order|];
          order := order + [u];
          distance := distance[u := Some(distance[v].value + 1)];
          queue := queue + [u];
        } else {
          VisitSeen(adj, n, start, distance, queue, order, head, index, parent, v, dv, k);
        }
      }
      VisitDone(adj, n, start, distance, queue, order, head, index, parent, v, dv);
    }
    FrontierDone(adj, n, start, distance, order, head, index, parent);
    DistanceVectorExact(adj, distance, start);
  }

  // ---------------------------------------------------------------------
  // distance_distribution

  /** The present entries of a distance vector, in order. */
  function Present(dv: seq<Option<nat>>): seq<nat> {
    if dv == [] then []
    else
      var last := dv[|dv| - 1];
      Present(dv[..|dv| - 1]) + (if last.Some? then [last.value] else [])
  }

  /** `Present` keeps every present value as often as it occurs and nothing else. */
  lemma {:induction false} PresentCount(dv: seq<Option<nat>>, d: nat)
    ensures multiset(Present(dv))[d] == multiset(dv)[Some(d)]
  {
    if dv != [] {
      var init := dv[..|dv| - 1];
      var last := dv[|dv| - 1];
      var tail: seq<nat> := if last.Some? then [last.value] else [];
      PresentCount(init, d);
      assert Present(dv) == Present(init) + tail;
      assert multiset(Present(dv))[d] == multiset(Present(init))[d] + multiset(tail)[d];
      assert dv == init + [last];
      assert multiset(dv)[Some(d)] == multiset(init)[Some(d)] + multiset([last])[Some(d)];
    }
  }

  /** The shortest distances `bfs(graph, i)[j]` for all `i < j < m` that
      exist, row by row: what `distance_distribution` collects. */
  ghost function PairDistances(adj: AdjacencyLists, m: nat): seq<nat>
    requires m <= |adj|
  {
    if m == 0 then []
    else PairDistances(adj, m - 1) + Present(ShortestVector(adj, m - 1)[m..])
  }

  /** `d` is the shortest distance from `i` to some later node. */
  ghost predicate LaterAt(adj: AdjacencyLists, i: nat, d: nat) {
    exists j :: i < j < |adj| && Dist(adj, i, j) == Some(d)
  }

  /** `d` is the shortest distance of some pair `i < j` with `i < m`. */
  ghost predicate PairAt(adj: AdjacencyLists, m: nat, d: nat) {
    exists i, j :: 0 <= i < m && i < j < |adj| && Dist(adj, i, j) == Some(d)
  }

  /** Row `i` collects a value exactly when it is the shortest distance
      from `i` to some later node. */
  lemma RowMembers(adj: AdjacencyLists, i: nat, d: nat)
    requires i < |adj|
    ensures d in Present(ShortestVector(adj, i)[i + 1..]) <==> LaterAt(adj, i, d)
  {
    var row := ShortestVector(adj, i)[i + 1..];
    PresentCount(row, d);
    assert d in Present(row) <==> Some(d) in row;
    LaterRow(adj, i, row, d);
  }

  /** The entries after `i` of row `i` are the later nodes' distances. */
  lemma LaterRow(adj: AdjacencyLists, i: nat, row: seq<Option<nat>>, d: nat)
    requires i < |adj| && |row| == |adj| - i - 1
    requires forall k :: 0 <= k < |row| ==> row[k] == Dist(adj, i, i + 1 + k)
    ensures Some(d) in row <==> LaterAt(adj, i, d)
  {
    if Some(d) in row {
      var k :| 0 <= k < |row| && row[k] == Some(d);
      assert Dist(adj, i, i + 1 + k) == Some(d);
    }
    if LaterAt(adj, i, d) {
      var j :| i < j < |adj| && Dist(adj, i, j) == Some(d);
      assert row[j - i - 1] == Some(d);
    }
  }

  /** Pairs from the first `m` rows are those from the first `m - 1` and those from row `m - 1`. */
  lemma PairAtStep(adj: AdjacencyLists, m: nat, d: nat)
    requires 0 < m
    ensures PairAt(adj, m, d) <==> PairAt(adj, m - 1, d) || LaterAt(adj, m - 1, d)
  {
    if PairAt(adj, m, d) {
      var i, j :| 0 <= i < m && i < j < |adj| && Dist(adj, i, j) == Some(d);
      if i == m - 1 {
        assert LaterAt(adj, m - 1, d);
      } else {
        assert PairAt(adj, m - 1, d);
      }
    }
    if LaterAt(adj, m - 1, d) {
      var j :| m - 1 < j < |adj| && Dist(adj, m - 1, j) == Some(d);
      assert 0 <= m - 1 < m && m - 1 < j < |adj| && Dist(adj, m - 1, j) == Some(d);
    }
  }

  /** A value is collected exactly when it is the shortest distance of some
      pair `i < j` from `i` to `j`, over rows `i < m`. */
  lemma {:induction false} PairDistancesMembers(adj: AdjacencyLists, m: nat, d: nat)
    requires m <= |adj|
    ensures d in PairDistances(adj, m) <==> PairAt(adj, m, d)
  {
    if m > 0 {
      PairDistancesMembers(adj, m - 1, d);
      RowMembers(adj, m - 1, d);
      PairAtStep(adj, m, d);
      var prev, row := PairDistances(adj, m - 1), Present(ShortestVector(adj, m - 1)[m..]);
      assert PairDistances(adj, m) == prev + row;
      assert d in prev + row <==> d in prev || d in row;
    }
  }

  /** The statistics `distance_distribution` reports: `None` exactly when
      no pair `i < j` of nodes is connected by a walk from `i` to `j`;
      otherwise the maximum is the shortest distance of some such pair and
      no pair's shortest distance exceeds it. */
  lemma DistanceStatsMeaning(adj: AdjacencyLists)
    ensures Summarize(Sort(PairDistances(adj, |adj|))).None? <==> forall d: nat :: !PairAt(adj, |adj|, d)
    ensures Summarize(Sort(PairDistances(adj, |adj|))).Some? ==>
              var r := Summarize(Sort(PairDistances(adj, |adj|))).value;
              PairAt(adj, |adj|, r.max) && forall d: nat :: PairAt(adj, |adj|, d) ==> d <= r.max
  {
    var all := PairDistances(adj, |adj|);
    forall d: nat
      ensures d in all <==> PairAt(adj, |adj|, d)
    {
      PairDistancesMembers(adj, |adj|, d);
    }
    if all != [] {
      SummarizeSort(all);
    } else {
      assert Sort(all) == [];
    }
  }

  /** The inner loop of `distance_distribution`: push the distances from
      node `i` to every later node that has one. */
  method PushLaterDistances(distances: seq<nat>, distFromI: seq<Option<nat>>, i: nat) returns (pushed: seq<nat>)
    requires i < |distFromI|
    ensures pushed == distances + Present(distFromI[i + 1..])
  {
    pushed := distances;
    for j := i + 1 to |distFromI|
      invariant pushed == distances + Present(distFromI[i + 1..j])
    {
      assert distFromI[i + 1..j + 1][..j - i - 1] == distFromI[i + 1..j];
      if distFromI[j].Some? {
        pushed := pushed + [distFromI[j].value];
      }
    }
    assert distFromI[i + 1..|distFromI|] == distFromI[i + 1..];
  }

  /** The collection loops of `distance_distribution`: a BFS from every node,
      keeping the distances to the later nodes it reaches. */
  method CollectDistances(g: Graph) returns (distances: seq<nat>)
    requires g.Valid()
    ensures distances == PairDistances(g.outedges, g.n)
  {
    var n := g.n;
    distances := [];
    for i := 0 to n
      invariant distances == PairDistances(g.outedges, i)
    {
      distances := CollectRow(g, i, distances);
    }
  }

  /** One round of the outer collection loop: a BFS from node `i`, then the
      distances to the later nodes it reaches. */
  method CollectRow(g: Graph, i: nat, distances: seq<nat>) returns (pushed: seq<nat>)
    requires g.Valid() && i < g.n
    ensures pushed == distances + Present(ShortestVector(g.outedges, i)[i + 1..])
  {
    var distFromI := Bfs(g, i);
    pushed := PushLaterDistances(distances, distFromI, i);
  }

  /** `distance_distribution`: the collected distances, sorted, then summarized. */
  method DistanceDistribution(g: Graph) returns (stats: Option<Stats>)
    requires g.Valid()
    ensures stats == Summarize(Sort(PairDistances(g.outedges, g.n)))
  {
    var distances := CollectDistances(g);
    distances := Sort(distances);
    stats := Summarize(distances);
  }
}
