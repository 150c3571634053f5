/** Degree tabulation and degree ranking (distribution.rs). A graph built
    from the reversed edge list gives in-degrees through the same code. */
module Distribution {
  import opened Sorting
  import opened Reader

  // ---------------------------------------------------------------------
  // calculate_degree_distribution

  /** The number of nodes whose adjacency list has exactly `d` entries. */
  function CountDegree(adj: AdjacencyLists, d: nat): nat {
    |set i | 0 <= i < |adj| && |adj[i]| == d|
  }

  /** Adding one more list adds one to the count of its own length only. */
  lemma CountDegreeStep(adj: AdjacencyLists, i: nat, d: nat)
    requires i < |adj|
    ensures CountDegree(adj[..i + 1], d) == CountDegree(adj[..i], d) + (if |adj[i]| == d then 1 else 0)
  {
    var pre, post := adj[..i], adj[..i + 1];
    var before := set j | 0 <= j < |pre| && |pre[j]| == d;
    var after := set j | 0 <= j < |post| && |post[j]| == d;
    if |adj[i]| == d {
      assert after == before + {i};
    } else {
      assert after == before;
    }
  }

  /** The sum of all values of a map. */
  ghost function SumValues(m: map<nat, nat>): nat
    decreases |m|
  {
    if m == map[] then 0
    else
      var k :| k in m;
      m[k] + SumValues(m - {k})
  }

  /** The sum can be taken by removing any key first. */
  lemma {:induction false} SumValuesRemove(m: map<nat, nat>, k: nat)
    requires k in m
    ensures SumValues(m) == m[k] + SumValues(m - {k})
    decreases |m|
  {
    var j :| j in m && SumValues(m) == m[j] + SumValues(m - {j});
    if j != k {
      assert |m - {j}| < |m| by { assert (m - {j}).Keys < m.Keys; }
      assert |m - {k}| < |m| by { assert (m - {k}).Keys < m.Keys; }
      SumValuesRemove(m - {j}, k);
      SumValuesRemove(m - {k}, j);
      assert m - {j} - {k} == m - {k} - {j};
    }
  }

  /** Incrementing one bucket (creating it at 1 if absent) adds one to the total. */
  lemma SumValuesIncrement(m: map<nat, nat>, d: nat)
    ensures SumValues(m[d := (if d in m then m[d] else 0) + 1]) == SumValues(m) + 1
  {
    var m' := m[d := (if d in m then m[d] else 0) + 1];
    SumValuesRemove(m', d);
    assert m' - {d} == m - {d};
    if d in m {
      SumValuesRemove(m, d);
    } else {
      assert m - {d} == m;
    }
  }

  /** `calculate_degree_distribution`: a map from list length to the number
      of nodes with that length. Only lengths that occur are keys. */
  method CalculateDegreeDistribution(g: Graph) returns (degreeDistribution: map<nat, nat>)
    ensures forall d :: d in degreeDistribution <==> CountDegree(g.outedges, d) > 0
    ensures forall d :: d in degreeDistribution ==> degreeDistribution[d] == CountDegree(g.outedges, d)
    ensures SumValues(degreeDistribution) == |g.outedges|
  {
    degreeDistribution := map[];
    var adj := g.outedges;
    for i := 0 to |adj|
      invariant forall d :: d in degreeDistribution <==> CountDegree(adj[..i], d) > 0
      invariant forall d :: d in degreeDistribution ==> degreeDistribution[d] == CountDegree(adj[..i], d)
      invariant SumValues(degreeDistribution) == i
    {
      var degree := |adj[i]|;
      forall d: nat
        ensures CountDegree(adj[..i + 1], d) == CountDegree(adj[..i], d) + (if degree == d then 1 else 0)
      {
        CountDegreeStep(adj, i, d);
      }
      SumValuesIncrement(degreeDistribution, degree);
      degreeDistribution := degreeDistribution[degree := (if degree in degreeDistribution then degreeDistribution[degree] else 0) + 1];
    }
    assert adj[..|adj|] == adj;
  }

  /** Every bucket of the distribution is non-empty. */
  lemma DistributionCountsPositive(adj: AdjacencyLists, m: map<nat, nat>)
    requires forall d :: d in m <==> CountDegree(adj, d) > 0
    requires forall d :: d in m ==> m[d] == CountDegree(adj, d)
    ensures forall d :: d in m ==> m[d] >= 1
  {
  }

  // ---------------------------------------------------------------------
  // print_top_nodes (its returned vector)

  /** Every id indexes an adjacency list. */
  predicate IdsInRange(adj: AdjacencyLists, ids: seq<Vertex>) {
    forall k :: 0 <= k < |ids| ==> ids[k] < |adj|
  }

  /** The out-degrees of the given nodes, in the given order. */
  function Degrees(adj: AdjacencyLists, ids: seq<Vertex>): (r: seq<nat>)
    requires IdsInRange(adj, ids)
    ensures |r| == |ids|
    ensures forall k :: 0 <= k < |ids| ==> r[k] == |adj[ids[k]]|
  {
    seq(|ids|, k requires 0 <= k < |ids| => |adj[ids[k]]|)
  }

  /** `(0..n).collect()`. */
  function AllNodes(n: nat): (ids: seq<Vertex>)
    ensures |ids| == n
    ensures forall k :: 0 <= k < n ==> ids[k] == k
  {
    seq(n, k requires 0 <= k => k)
  }

  /** The out-degrees of nodes 0..n-1, ascending: what any sort of the node
      ids by degree reads off. */
  function RankedDegrees(adj: AdjacencyLists, n: nat): seq<nat>
    requires n <= |adj|
  {
    Sort(Degrees(adj, AllNodes(n)))
  }

  /** Insert node `x` before the first node of `s` whose degree is not smaller. */
  function InsertByDegree(adj: AdjacencyLists, x: Vertex, s: seq<Vertex>): (r: seq<Vertex>)
    requires x < |adj| && IdsInRange(adj, s)
    ensures IdsInRange(adj, r)
    ensures multiset(r) == multiset(s) + multiset{x}
  {
    if s == [] then [x]
    else if |adj[x]| <= |adj[s[0]]| then [x] + s
    else
      assert s == [s[0]] + s[1..];
      [s[0]] + InsertByDegree(adj, x, s[1..])
  }

  /** The degrees of `[y] + t` are the degree of `y` followed by those of `t`. */
  lemma DegreesCons(adj: AdjacencyLists, y: Vertex, t: seq<Vertex>)
    requires y < |adj| && IdsInRange(adj, t)
    ensures IdsInRange(adj, [y] + t)
    ensures Degrees(adj, [y] + t) == [|adj[y]| as nat] + Degrees(adj, t)
  {
  }

  /** Inserting a node by degree inserts its degree into the degree sequence. */
  lemma {:induction false} InsertByDegreeDegrees(adj: AdjacencyLists, x: Vertex, s: seq<Vertex>)
    requires x < |adj| && IdsInRange(adj, s)
    requires Sorted(Degrees(adj, s))
    ensures Degrees(adj, InsertByDegree(adj, x, s)) == Insert(|adj[x]|, Degrees(adj, s))
  {
    if s != [] {
      var ds := Degrees(adj, s);
      if |adj[x]| <= |adj[s[0]]| {
        DegreesCons(adj, x, s);
      } else {
        var tail := Degrees(adj, s[1..]);
        assert ds[1..] == tail;
        InsertByDegreeDegrees(adj, x, s[1..]);
        var rest := InsertByDegree(adj, x, s[1..]);
        DegreesCons(adj, s[0], rest);
        assert Insert(|adj[x]|, ds) == [ds[0]] + Insert(|adj[x]|, tail);
      }
    }
  }

  /** `sort_unstable_by_key(|&i| graph.outedges[i].len())`, with one
      particular tie order; `TiesDoNotMatter` shows the degrees read off do
      not depend on it. */
  function SortByDegree(adj: AdjacencyLists, ids: seq<Vertex>): (r: seq<Vertex>)
    requires IdsInRange(adj, ids)
    ensures IdsInRange(adj, r)
    ensures multiset(r) == multiset(ids)
  {
    if ids == [] then []
    else
      assert ids == [ids[0]] + ids[1..];
      InsertByDegree(adj, ids[0], SortByDegree(adj, ids[1..]))
  }

  /** Sorting node ids by degree sorts their degrees. */
  lemma {:induction false} SortByDegreeDegrees(adj: AdjacencyLists, ids: seq<Vertex>)
    requires IdsInRange(adj, ids)
    ensures Degrees(adj, SortByDegree(adj, ids)) == Sort(Degrees(adj, ids))
  {
    if ids != [] {
      SortByDegreeDegrees(adj, ids[1..]);
      InsertByDegreeDegrees(adj, ids[0], SortByDegree(adj, ids[1..]));
      assert Degrees(adj, ids)[1..] == Degrees(adj, ids[1..]);
    }
  }

  lemma DegreesAppend(adj: AdjacencyLists, u: seq<Vertex>, v: seq<Vertex>)
    requires IdsInRange(adj, u) && IdsInRange(adj, v)
    ensures IdsInRange(adj, u + v)
    ensures Degrees(adj, u + v) == Degrees(adj, u) + Degrees(adj, v)
  {
    assert forall k :: 0 <= k < |u + v| ==> (u + v)[k] == if k < |u| then u[k] else v[k - |u|];
  }

  /** Removing the id at position `j` removes its degree. */
  lemma DegreesRemoveAt(adj: AdjacencyLists, b: seq<Vertex>, j: nat)
    requires IdsInRange(adj, b) && j < |b|
    ensures IdsInRange(adj, b[..j] + b[j + 1..])
    ensures multiset(b[..j] + b[j + 1..]) == multiset(b) - multiset{b[j]}
    ensures multiset(Degrees(adj, b)) == multiset(Degrees(adj, b[..j] + b[j + 1..])) + multiset{|adj[b[j]]| as nat}
  {
    var left, x, right := b[..j], b[j], b[j + 1..];
    assert multiset(b) == multiset(left) + multiset{x} + multiset(right) by {
      assert b == left + [x] + right;
    }
    var d := |adj[x]| as nat;
    var dl, dr := Degrees(adj, left), Degrees(adj, right);
    assert multiset(Degrees(adj, b)) == multiset(dl) + multiset{d} + multiset(dr) by {
      assert Degrees(adj, b) == dl + [d] + dr;
    }
    DegreesAppend(adj, left, right);
  }

  /** Taking off the first id takes off its degree. */
  lemma DegreesRemoveFirst(adj: AdjacencyLists, a: seq<Vertex>)
    requires IdsInRange(adj, a) && a != []
    ensures IdsInRange(adj, a[1..])
    ensures multiset(a) == multiset(a[1..]) + multiset{a[0]}
    ensures multiset(Degrees(adj, a)) == multiset(Degrees(adj, a[1..])) + multiset{|adj[a[0]]| as nat}
  {
    assert a == [a[0]] + a[1..];
    assert Degrees(adj, a) == [|adj[a[0]]| as nat] + Degrees(adj, a[1..]);
  }

  /** Taking the first id off `a` and the same id off a permutation `b` of
      `a` leaves permutations, and removes the same degree from both. */
  lemma RemoveMatching(adj: AdjacencyLists, a: seq<Vertex>, b: seq<Vertex>, j: nat)
    requires IdsInRange(adj, a) && IdsInRange(adj, b)
    requires multiset(a) == multiset(b) && a != [] && j < |b| && b[j] == a[0]
    ensures IdsInRange(adj, a[1..]) && IdsInRange(adj, b[..j] + b[j + 1..])
    ensures multiset(a[1..]) == multiset(b[..j] + b[j + 1..])
    ensures multiset(Degrees(adj, a)) == multiset(Degrees(adj, a[1..])) + multiset{|adj[a[0]]| as nat}
    ensures multiset(Degrees(adj, b)) == multiset(Degrees(adj, b[..j] + b[j + 1..])) + multiset{|adj[a[0]]| as nat}
  {
    DegreesRemoveAt(adj, b, j);
    DegreesRemoveFirst(adj, a);
  }

  /** Permuting node ids permutes their degrees. */
  lemma {:induction false} DegreesPermutation(adj: AdjacencyLists, a: seq<Vertex>, b: seq<Vertex>)
    requires IdsInRange(adj, a) && IdsInRange(adj, b)
    requires multiset(a) == multiset(b)
    ensures multiset(Degrees(adj, a)) == multiset(Degrees(adj, b))
    decreases |a|
  {
    if a == [] {
      assert |b| == |multiset(b)| == 0;
    } else {
      assert a[0] in multiset(b);
      var j :| 0 <= j < |b| && b[j] == a[0];
      RemoveMatching(adj, a, b, j);
      DegreesPermutation(adj, a[1..], b[..j] + b[j + 1..]);
    }
  }

  /** Whatever order an unstable sort leaves equal-degree nodes in, the
      degrees read off the sorted ids are the same ascending sequence. */
  lemma TiesDoNotMatter(adj: AdjacencyLists, n: nat, p: seq<Vertex>)
    requires n <= |adj|
    requires multiset(p) == multiset(AllNodes(n))
    requires IdsInRange(adj, p) && Sorted(Degrees(adj, p))
    ensures Degrees(adj, p) == RankedDegrees(adj, n)
  {
    DegreesPermutation(adj, p, AllNodes(n));
    SortedUnique(Degrees(adj, p), RankedDegrees(adj, n));
  }

  function Min(a: nat, b: nat): nat {
    if a <= b then a else b
  }

  /** The node ids sorted by degree, read position by position, give the
      ascending degree sequence. */
  lemma SortedIdsRanked(adj: AdjacencyLists, n: nat)
    requires n <= |adj|
    ensures |SortByDegree(adj, AllNodes(n))| == |RankedDegrees(adj, n)| == n
    ensures IdsInRange(adj, SortByDegree(adj, AllNodes(n)))
    ensures forall k :: 0 <= k < n ==> |adj[SortByDegree(adj, AllNodes(n))[k]]| == RankedDegrees(adj, n)[k]
  {
    var ids := SortByDegree(adj, AllNodes(n));
    SortByDegreeDegrees(adj, AllNodes(n));
    assert |ids| == |multiset(ids)| == |multiset(AllNodes(n))| == n;
    assert Degrees(adj, ids) == RankedDegrees(adj, n);
  }

  /** Degrees read from the back of the degree-sorted ids are the ranked
      degrees from the largest down, and so never increase. */
  lemma FromTheBack(adj: AdjacencyLists, n: nat, ids: seq<Vertex>, counts: seq<nat>)
    requires n <= |adj| && ids == SortByDegree(adj, AllNodes(n))
    requires |counts| <= |ids|
    requires forall k :: 0 <= k < |counts| ==> counts[k] == |adj[ids[|ids| - 1 - k]]|
    ensures |ids| == n
    ensures forall k :: 0 <= k < |counts| ==> counts[k] == RankedDegrees(adj, n)[n - 1 - k]
    ensures forall i, j :: 0 <= i < j < |counts| ==> counts[i] >= counts[j]
  {
    SortedIdsRanked(adj, n);
    ReadFromTheBack(adj, ids, RankedDegrees(adj, n), counts);
  }

  /** Reading ids from the back, when their degrees in order form an
      ascending sequence, gives that sequence from its end. */
  lemma ReadFromTheBack(adj: AdjacencyLists, ids: seq<Vertex>, ranked: seq<nat>, counts: seq<nat>)
    requires IdsInRange(adj, ids) && |ranked| == |ids| && Sorted(ranked)
    requires forall k :: 0 <= k < |ids| ==> |adj[ids[k]]| == ranked[k]
    requires |counts| <= |ids|
    requires forall k :: 0 <= k < |counts| ==> counts[k] == |adj[ids[|ids| - 1 - k]]|
    ensures forall k :: 0 <= k < |counts| ==> counts[k] == ranked[|ranked| - 1 - k]
    ensures forall i, j :: 0 <= i < j < |counts| ==> counts[i] >= counts[j]
  {
    var n := |ranked|;
    forall i, j | 0 <= i < j < |counts|
      ensures counts[i] >= counts[j]
    {
      assert ranked[n - 1 - j] <= ranked[n - 1 - i];
    }
  }

  /** The loop of `print_top_nodes`: walk the sorted ids from the back and
      record the degree of each of the first `topN`. */
  method DegreesFromBack(adj: AdjacencyLists, ids: seq<Vertex>, topN: nat) returns (counts: seq<nat>)
    requires IdsInRange(adj, ids)
    ensures |counts| == Min(topN, |ids|)
    ensures forall k :: 0 <= k < |counts| ==> counts[k] == |adj[ids[|ids| - 1 - k]]|
  {
    counts := [];
    var i := 0;
    while i < topN && i < |ids|
      invariant i <= |ids| && i <= topN
      invariant |counts| == i
      invariant forall k :: 0 <= k < i ==> counts[k] == |adj[ids[|ids| - 1 - k]]|
    {
      counts := counts + [|adj[ids[|ids| - 1 - i]]|];
      i := i + 1;
    }
  }

  /** The vector `print_top_nodes` returns: node ids sorted by out-degree,
      walked from the back, the first `topN` of their degrees. */
  method TopNodes(g: Graph, topN: nat) returns (topEdgeCounts: seq<nat>)
    requires g.n <= |g.outedges|
    ensures |topEdgeCounts| == Min(topN, g.n)
    ensures forall k :: 0 <= k < |topEdgeCounts| ==> topEdgeCounts[k] == RankedDegrees(g.outedges, g.n)[g.n - 1 - k]
    ensures forall i, j :: 0 <= i < j < |topEdgeCounts| ==> topEdgeCounts[i] >= topEdgeCounts[j]
  {
    var nodeIndices := SortByDegree(g.outedges, AllNodes(g.n));
    topEdgeCounts := DegreesFromBack(g.outedges, nodeIndices, topN);
    FromTheBack(g.outedges, g.n, nodeIndices, topEdgeCounts);
  }
}
