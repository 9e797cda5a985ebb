/** Kruskal's algorithm: every directed edge of every adjacency list is
    collected, the collection is sorted by cost, and the edges are then
    taken in that order whenever their end points lie in different sets. */
module Kruskal {
  import opened Common
  import opened Graphs
  import opened DisjointSets

  // ---------------------------------------------------------------------
  // The sort. Collections.sort is a stable sort by Edge.compareTo; the
  // comparison is taken to be by cost.

  ghost predicate SortedByCost(s: seq<Edge>)
  {
    forall i, j :: 0 <= i < j < |s| ==> s[i].cost <= s[j].cost
  }

  /** Puts e in front of the first element that does not cost less. */
  function InsertByCost(e: Edge, t: seq<Edge>): (r: seq<Edge>)
    ensures multiset(r) == multiset(t) + multiset{e}
  {
    if t == [] || e.cost <= t[0].cost then [e] + t
    else
      assert t == [t[0]] + t[1..];
      [t[0]] + InsertByCost(e, t[1..])
  }

  /** Stable insertion sort by cost. */
  function SortByCost(s: seq<Edge>): (r: seq<Edge>)
    ensures multiset(r) == multiset(s)
  {
    if s == [] then []
    else
      assert s == [s[0]] + s[1..];
      InsertByCost(s[0], SortByCost(s[1..]))
  }

  lemma ConsSorted(x: Edge, s: seq<Edge>)
    requires SortedByCost(s) && forall y :: y in s ==> x.cost <= y.cost
    ensures SortedByCost([x] + s)
  {
    var r := [x] + s;
    forall i, j | 0 <= i < j < |r| ensures r[i].cost <= r[j].cost {
      assert r[j] == s[j - 1];
      if i > 0 {
        assert r[i] == s[i - 1];
      }
    }
  }

  lemma {:induction false} InsertSorted(e: Edge, t: seq<Edge>)
    requires SortedByCost(t)
    ensures SortedByCost(InsertByCost(e, t))
  {
    if t == [] || e.cost <= t[0].cost {
      ConsSorted(e, t);
    } else {
      var rest := InsertByCost(e, t[1..]);
      InsertSorted(e, t[1..]);
      forall x | x in rest ensures t[0].cost <= x.cost {
        assert x in multiset(rest);
        if x != e {
          assert x in multiset(t[1..]);
          var j :| 0 <= j < |t[1..]| && t[1..][j] == x;
          assert t[j + 1] == x;
        }
      }
      ConsSorted(t[0], rest);
    }
  }

  /** The sorted list is in non-decreasing cost order. */
  lemma {:induction false} SortSorted(s: seq<Edge>)
    ensures SortedByCost(SortByCost(s))
  {
    if s != [] {
      SortSorted(s[1..]);
      InsertSorted(s[0], SortByCost(s[1..]));
    }
  }

  /** The elements of cost c, in their order in s. */
  function CostClass(s: seq<Edge>, c: int): seq<Edge>
  {
    if s == [] then [] else (if s[0].cost == c then [s[0]] else []) + CostClass(s[1..], c)
  }

  lemma {:induction false} InsertClass(e: Edge, t: seq<Edge>, c: int)
    ensures CostClass(InsertByCost(e, t), c) == (if e.cost == c then [e] else []) + CostClass(t, c)
  {
    if t == [] || e.cost <= t[0].cost {
      assert ([e] + t)[1..] == t;
    } else {
      var rest := InsertByCost(e, t[1..]);
      InsertClass(e, t[1..], c);
      assert ([t[0]] + rest)[1..] == rest;
    }
  }

  /** The sort is stable: edges of equal cost keep their relative order. */
  lemma {:induction false} SortStable(s: seq<Edge>, c: int)
    ensures CostClass(SortByCost(s), c) == CostClass(s, c)
  {
    if s != [] {
      SortStable(s[1..], c);
      InsertClass(s[0], SortByCost(s[1..]), c);
    }
  }

  // ---------------------------------------------------------------------
  // The forest. Replaying a sequence of edges through the disjoint sets
  // unites the end points of each in turn; the sequence is a forest when
  // every edge joins two sets that the edges before it left apart.

  ghost predicate EdgeWithin(edges: seq<Edge>, k: int, n: int)
    requires 0 <= k < |edges|
  {
    0 <= edges[k].id1 < n && 0 <= edges[k].id2 < n
  }

  ghost predicate EdgesWithin(edges: seq<Edge>, n: int)
  {
    forall k :: 0 <= k < |edges| ==> EdgeWithin(edges, k, n)
  }

  function Replay(rep: seq<int>, edges: seq<Edge>): (r: seq<int>)
    requires Partition(rep) && EdgesWithin(edges, |rep|)
    ensures |r| == |rep| && Partition(r)
    decreases |edges|
  {
    if edges == [] then rep
    else
      var n := |edges| - 1;
      assert EdgeWithin(edges, n, |rep|);
      assert EdgesWithin(edges[..n], |rep|) by {
        forall k | 0 <= k < n ensures EdgeWithin(edges[..n], k, |rep|) {
          assert EdgeWithin(edges, k, |rep|);
        }
      }
      Merge(Replay(rep, edges[..n]), edges[n].id1, edges[n].id2)
  }

  ghost predicate Forest(rep: seq<int>, edges: seq<Edge>)
    requires Partition(rep) && EdgesWithin(edges, |rep|)
    decreases |edges|
  {
    if edges == [] then true
    else
      var n := |edges| - 1;
      assert EdgeWithin(edges, n, |rep|);
      assert EdgesWithin(edges[..n], |rep|) by {
        forall k | 0 <= k < n ensures EdgeWithin(edges[..n], k, |rep|) {
          assert EdgeWithin(edges, k, |rep|);
        }
      }
      && Forest(rep, edges[..n])
      && Replay(rep, edges[..n])[edges[n].id1] != Replay(rep, edges[..n])[edges[n].id2]
  }

  /** Each edge of a forest removes exactly one set: a forest of k edges
      over the singletons of n leaves n - k sets. */
  lemma {:induction false} ForestCount(rep: seq<int>, edges: seq<Edge>)
    requires Partition(rep) && EdgesWithin(edges, |rep|) && Forest(rep, edges)
    ensures RootCount(Replay(rep, edges), |rep|) + |edges| == RootCount(rep, |rep|)
    decreases |edges|
  {
    if edges != [] {
      var n := |edges| - 1;
      assert EdgeWithin(edges, n, |rep|);
      assert EdgesWithin(edges[..n], |rep|) by {
        forall k | 0 <= k < n ensures EdgeWithin(edges[..n], k, |rep|) {
          assert EdgeWithin(edges, k, |rep|);
        }
      }
      ForestCount(rep, edges[..n]);
      MergeCount(Replay(rep, edges[..n]), edges[n].id1, edges[n].id2);
    }
  }

  /** Appending one edge: the replay merges its end points, and the result
      is a forest exactly when the end points were apart. */
  lemma ReplaySnoc(rep: seq<int>, edges: seq<Edge>, e: Edge)
    requires Partition(rep) && EdgesWithin(edges, |rep|)
    requires 0 <= e.id1 < |rep| && 0 <= e.id2 < |rep|
    ensures EdgesWithin(edges + [e], |rep|)
    ensures Replay(rep, edges + [e]) == Merge(Replay(rep, edges), e.id1, e.id2)
    ensures Forest(rep, edges + [e]) <==>
      Forest(rep, edges) && Replay(rep, edges)[e.id1] != Replay(rep, edges)[e.id2]
  {
    var s := edges + [e];
    assert s[..|edges|] == edges;
    forall k | 0 <= k < |s| ensures EdgeWithin(s, k, |rep|) {
      if k < |edges| {
        assert EdgeWithin(edges, k, |rep|);
      }
    }
  }

  /** Every collected edge leaves a vertex of the graph towards a vertex of
      the graph. */
  lemma FlattenWithin(lists: seq<seq<Edge>>)
    requires Linked(lists)
    ensures forall e :: e in Flatten(lists) ==> 0 <= e.id1 < |lists| && 0 <= e.id2 < |lists|
  {
    forall e | e in Flatten(lists) ensures 0 <= e.id1 < |lists| && 0 <= e.id2 < |lists| {
      FlattenMember(lists, e);
      var v :| 0 <= v < |lists| && e in lists[v];
      EdgeOf(lists, v, e);
    }
  }

  // ---------------------------------------------------------------------

  /** The end points of e are vertices in one set of rep. */
  ghost predicate Joins(rep: seq<int>, e: Edge)
  {
    0 <= e.id1 < |rep| && 0 <= e.id2 < |rep| && rep[e.id1] == rep[e.id2]
  }

  ghost predicate JoinedAt(rep: seq<int>, edges: seq<Edge>, k: int)
    requires 0 <= k < |edges|
  {
    Joins(rep, edges[k])
  }

  /** The state of the selection after the first k sorted edges: the taken
      edges are a forest, in cost order, drawn from those k; rep is its
      partition, with one set fewer per edge; and all k edges are inside
      a set. */
  ghost predicate Selected(n: nat, sorted: seq<Edge>, k: int, mst: seq<Edge>, rep: seq<int>)
  {
    && 0 <= k <= |sorted|
    && EdgesWithin(mst, n)
    && Partition(Singletons(n))
    && Forest(Singletons(n), mst)
    && rep == Replay(Singletons(n), mst)
    && RootCount(rep, n) + |mst| == n
    && (forall i :: 0 <= i < k ==> JoinedAt(rep, sorted, i))
    && (forall e :: e in mst ==> e in sorted[..k])
    && SortedByCost(mst)
  }

  lemma SelectStart(n: nat, sorted: seq<Edge>)
    ensures Selected(n, sorted, 0, [], Singletons(n))
  {
    SingletonsPartition(n);
    SingletonsCount(n, n);
  }

  /** Taking edge k, whose end points are in different sets. */
  lemma TakeEdge(n: nat, sorted: seq<Edge>, k: int, mst: seq<Edge>, rep: seq<int>)
    requires Selected(n, sorted, k, mst, rep) && k < |sorted| && SortedByCost(sorted)
    requires 0 <= sorted[k].id1 < n && 0 <= sorted[k].id2 < n
    requires rep[sorted[k].id1] != rep[sorted[k].id2]
    ensures Selected(n, sorted, k + 1, mst + [sorted[k]], Merge(rep, sorted[k].id1, sorted[k].id2))
  {
    var e := sorted[k];
    var rep' := Merge(rep, e.id1, e.id2);
    ReplaySnoc(Singletons(n), mst, e);
    MergeCount(rep, e.id1, e.id2);
    forall i | 0 <= i < k + 1 ensures JoinedAt(rep', sorted, i) {
      if i < k {
        assert JoinedAt(rep, sorted, i);
      }
      MergeSame(rep, e.id1, e.id2, e.id1, e.id2);
      if i < k {
        MergeSame(rep, e.id1, e.id2, sorted[i].id1, sorted[i].id2);
      }
    }
    forall x | x in mst ensures x.cost <= e.cost {
      assert x in sorted[..k];
    }
    ConcatSorted(mst, e);
    assert sorted[..k + 1] == sorted[..k] + [e];
  }

  /** Skipping edge k, whose end points are already in one set. */
  lemma SkipEdge(n: nat, sorted: seq<Edge>, k: int, mst: seq<Edge>, rep: seq<int>)
    requires Selected(n, sorted, k, mst, rep) && k < |sorted|
    requires 0 <= sorted[k].id1 < n && 0 <= sorted[k].id2 < n
    requires rep[sorted[k].id1] == rep[sorted[k].id2]
    ensures Selected(n, sorted, k + 1, mst, rep)
  {
    assert sorted[..k + 1] == sorted[..k] + [sorted[k]];
    assert JoinedAt(rep, sorted, k);
  }

  lemma ConcatSorted(s: seq<Edge>, e: Edge)
    requires SortedByCost(s) && forall x :: x in s ==> x.cost <= e.cost
    ensures SortedByCost(s + [e])
  {
    var r := s + [e];
    forall i, j | 0 <= i < j < |r| ensures r[i].cost <= r[j].cost {
      assert r[i] == s[i];
      if j < |s| {
        assert r[j] == s[j];
      }
    }
  }

  /** Every sorted edge lies between two vertices of the graph. */
  lemma SortedWithin(lists: seq<seq<Edge>>, sorted: seq<Edge>)
    requires Linked(lists) && multiset(sorted) == multiset(Flatten(lists))
    ensures forall k :: 0 <= k < |sorted| ==> EdgeWithin(sorted, k, |lists|)
  {
    FlattenWithin(lists);
    forall k | 0 <= k < |sorted| ensures EdgeWithin(sorted, k, |lists|) {
      assert sorted[k] in multiset(Flatten(lists));
    }
  }

  class KruskalAlgorithm {
    const graph: Graph

    constructor (graph: Graph)
      ensures this.graph == graph
    {
      this.graph := graph;
    }

    /** The collection step of computeMST: every edge of every list, vertex 0
        first, each list head to tail; one per directed edge, two per arc. */
    method CollectEdges() returns (sortedEdge: seq<Edge>)
      requires graph.Valid()
      ensures sortedEdge == Flatten(graph.adjacencyList[..])
      ensures |sortedEdge| == graph.numEdges == 2 * graph.numArcs
    {
      ghost var lists := graph.adjacencyList[..];
      sortedEdge := [];
      var i := 0;
      while i < graph.NumNodes()
        invariant 0 <= i <= graph.NumNodes()
        invariant sortedEdge == Flatten(lists[..i])
      {
        var temp := graph.adjacencyList[i];
        var j := 0;
        while j < |temp|
          invariant 0 <= j <= |temp|
          invariant sortedEdge == Flatten(lists[..i]) + temp[..j]
        {
          sortedEdge := sortedEdge + [temp[j]];
          j := j + 1;
        }
        assert lists[..i + 1][..i] == lists[..i];
        assert temp[..j] == temp;
        i := i + 1;
      }
      assert lists[..i] == lists;
      FlattenLength(lists);
    }

    /** Collects and sorts the edges, then takes each edge whose end points
        are still in different sets. The result is a forest of graph edges
        in non-decreasing cost order, and its sets join the end points of
        every graph edge: a spanning forest, with one edge fewer than
        vertices in each component. */
    method ComputeMST() returns (edgesMST: seq<Edge>)
      requires graph.Valid()
      ensures forall e :: e in edgesMST ==> e in Flatten(graph.adjacencyList[..])
      ensures SortedByCost(edgesMST)
      ensures EdgesWithin(edgesMST, graph.NumNodes())
      ensures Partition(Singletons(graph.NumNodes()))
      ensures Forest(Singletons(graph.NumNodes()), edgesMST)
      ensures forall e :: e in Flatten(graph.adjacencyList[..]) ==>
                Joins(Replay(Singletons(graph.NumNodes()), edgesMST), e)
      ensures |edgesMST| + RootCount(Replay(Singletons(graph.NumNodes()), edgesMST), graph.NumNodes())
                == graph.NumNodes()
    {
      ghost var lists := graph.adjacencyList[..];
      var n := graph.NumNodes();
      var nSet := new DisjointSets();
      nSet.CreateSets(n);
      var collected := CollectEdges();
      // Collections.sort
      var sortedEdge := SortByCost(collected);
      SortSorted(collected);
      SortedWithin(lists, sortedEdge);
      SelectStart(n, sortedEdge);

      // The selection the algorithm calls for, which the code leaves out.
      edgesMST := [];
      var k := 0;
      while k < |sortedEdge|
        invariant nSet.Valid() && Selected(n, sortedEdge, k, edgesMST, nSet.rep)
      {
        var e := sortedEdge[k];
        assert EdgeWithin(sortedEdge, k, n);
        if nSet.Find(e.id1) != nSet.Find(e.id2) {
          TakeEdge(n, sortedEdge, k, edgesMST, nSet.rep);
          nSet.Union(e.id1, e.id2);
          edgesMST := edgesMST + [e];
        } else {
          SkipEdge(n, sortedEdge, k, edgesMST, nSet.rep);
        }
        k := k + 1;
      }
      forall e | e in Flatten(lists) ensures Joins(nSet.rep, e) {
        assert e in multiset(sortedEdge);
        var i :| 0 <= i < |sortedEdge| && sortedEdge[i] == e;
        assert JoinedAt(nSet.rep, sortedEdge, i);
      }
      forall e | e in edgesMST ensures e in Flatten(lists) {
        assert e in sortedEdge[..k];
        assert e in multiset(collected);
      }
    }
  }
}
