/** Prim's algorithm over the adjacency-list graph, driven by the indexed
    min-heap. The per-vertex table holds, for every vertex, whether it has
    been added to the tree, the cheapest known connecting cost and the
    vertex that cost comes from. */
module Prim {
  import opened Common
  import opened Graphs
  import opened PriorityQueue

  /** One row of the table: the added flag, the best cost and the
      predecessor (`path`). The original stores the flag as 0/1. */
  datatype Row = Row(visited: bool, cost: int, path: int)

  /** What updateCostAndPath does to one row: the cost and the predecessor
      change together, and only for an unvisited vertex offered a strictly
      smaller cost. */
  function Relax(r: Row, cost: int, path: int): (r': Row)
    ensures r'.visited == r.visited
    ensures r'.cost <= r.cost
    ensures r' != r <==> !r.visited && cost < r.cost
    ensures r' != r ==> r'.cost == cost && r'.path == path
    ensures r' == r ==> r.visited || r.cost <= cost
  {
    if !r.visited && r.cost > cost then r.(cost := cost, path := path) else r
  }

  /** A vertex's best cost never grows and its flag never changes, however
      many offers it receives. */
  lemma {:induction false} RelaxMonotone(r: Row, offers: seq<(int, int)>)
    ensures RelaxAll(r, offers).cost <= r.cost
    ensures RelaxAll(r, offers).visited == r.visited
    ensures r.visited ==> RelaxAll(r, offers) == r
    decreases |offers|
  {
    if offers != [] {
      RelaxMonotone(Relax(r, offers[0].0, offers[0].1), offers[1..]);
    }
  }

  /** The row after a sequence of (cost, path) offers. */
  function RelaxAll(r: Row, offers: seq<(int, int)>): Row
    decreases |offers|
  {
    if offers == [] then r else RelaxAll(Relax(r, offers[0].0, offers[0].1), offers[1..])
  }

  /** One more offer at the end is one more relaxation of the result. */
  lemma {:induction false} RelaxAllSnoc(r: Row, offers: seq<(int, int)>, o: (int, int))
    ensures RelaxAll(r, offers + [o]) == Relax(RelaxAll(r, offers), o.0, o.1)
    decreases |offers|
  {
    if offers == [] {
      assert ([] + [o])[1..] == [];
    } else {
      assert (offers + [o])[1..] == offers[1..] + [o];
      RelaxAllSnoc(Relax(r, offers[0].0, offers[0].1), offers[1..], o);
    }
  }

  /** The (cost, path) offers the edges `adj` of vertex `path` make to
      vertex v, in list order. */
  function Offers(adj: seq<Edge>, v: int, path: int): seq<(int, int)>
  {
    if adj == [] then []
    else
      var e := adj[|adj| - 1];
      Offers(adj[..|adj| - 1], v, path) + (if e.id2 == v then [(e.cost, path)] else [])
  }

  /** Every row other than `index` is its row in `rows0` after the offers of
      the first j edges of `adj`. */
  ghost predicate OfferedRows(rows0: seq<Row>, rows: seq<Row>, adj: seq<Edge>, j: int, index: int)
    requires 0 <= j <= |adj|
  {
    |rows| == |rows0| &&
    forall v :: 0 <= v < |rows| && v != index ==> rows[v] == RelaxAll(rows0[v], Offers(adj[..j], v, index))
  }

  /** Every row other than `index` is its row in `rows0` after all the
      offers of the edges `adj` of `index`. */
  ghost predicate RelaxedBy(rows0: seq<Row>, rows: seq<Row>, adj: seq<Edge>, index: int)
  {
    |rows| == |rows0| &&
    forall v :: 0 <= v < |rows| && v != index ==> rows[v] == RelaxAll(rows0[v], Offers(adj, v, index))
  }

  lemma OfferedRowsStart(rows0: seq<Row>, rows: seq<Row>, adj: seq<Edge>, index: int)
    requires |rows| == |rows0| && forall v :: 0 <= v < |rows| && v != index ==> rows[v] == rows0[v]
    ensures OfferedRows(rows0, rows, adj, 0, index)
  {
    assert adj[..0] == [];
  }

  lemma OfferedRowsEnd(rows0: seq<Row>, rows: seq<Row>, adj: seq<Edge>, index: int)
    requires OfferedRows(rows0, rows, adj, |adj|, index)
    ensures RelaxedBy(rows0, rows, adj, index)
  {
    assert adj[..|adj|] == adj;
  }

  /** Offering edge j relaxes its target's row and no other. */
  lemma OfferedRowsStep(rows0: seq<Row>, rows: seq<Row>, adj: seq<Edge>, j: int, index: int)
    requires 0 <= j < |adj| && 0 <= adj[j].id2 < |rows|
    requires OfferedRows(rows0, rows, adj, j, index)
    ensures OfferedRows(rows0, rows[adj[j].id2 := Relax(rows[adj[j].id2], adj[j].cost, index)], adj, j + 1, index)
  {
    var e := adj[j];
    var rows' := rows[e.id2 := Relax(rows[e.id2], e.cost, index)];
    assert adj[..j + 1][..j] == adj[..j];
    assert adj[..j + 1][j] == e;
    forall v | 0 <= v < |rows'| && v != index
      ensures rows'[v] == RelaxAll(rows0[v], Offers(adj[..j + 1], v, index))
    {
      assert Offers(adj[..j + 1], v, index)
          == Offers(adj[..j], v, index) + (if e.id2 == v then [(e.cost, index)] else []);
      if e.id2 == v {
        RelaxAllSnoc(rows0[v], Offers(adj[..j], v, index), (e.cost, index));
      } else {
        assert Offers(adj[..j], v, index) + [] == Offers(adj[..j], v, index);
      }
    }
  }

  /** The set of vertices extracted so far: the targets of the tree edges. */
  ghost function Extracted(mst: seq<Edge>): set<int>
  {
    set j | 0 <= j < |mst| :: mst[j].id2
  }

  lemma ExtractedSnoc(mst: seq<Edge>, e: Edge)
    ensures Extracted(mst + [e]) == Extracted(mst) + {e.id2}
  {
    var m := mst + [e];
    assert m[|mst|].id2 == e.id2;
    forall x | x in Extracted(mst) ensures x in Extracted(m) {
      var j :| 0 <= j < |mst| && mst[j].id2 == x;
      assert m[j] == mst[j];
    }
  }

  /** An edge a run can emit: the "unreachable" marker (-1, v, MAX_VALUE),
      the source's self-edge, or an edge stored in the graph. */
  ghost predicate TreeEdge(lists: seq<seq<Edge>>, s: int, e: Edge)
  {
    || (e.id1 == -1 && e.cost == MAX_VALUE)
    || e == Edge(s, s, 0)
    || (0 <= e.id1 < |lists| && e in lists[e.id1])
  }

  // ---------------------------------------------------------------------
  // Properties of the emitted edge sequence, one position at a time.

  /** The vertex emitted at step j is new. */
  ghost predicate FreshAt(mst: seq<Edge>, j: int)
    requires 0 <= j < |mst|
  {
    mst[j].id2 !in Extracted(mst[..j])
  }

  /** The predecessor of the vertex emitted at step j is the source, -1, or a
      vertex emitted earlier. */
  ghost predicate ParentEarlierAt(s: int, mst: seq<Edge>, j: int)
    requires 0 <= j < |mst|
  {
    mst[j].id1 == -1 || mst[j].id1 == s || mst[j].id1 in Extracted(mst[..j])
  }

  /** The cut property: the cost emitted at step j is at most the cost of
      every edge from the source or an already emitted vertex to a vertex
      that is neither. */
  ghost predicate CutAt(lists: seq<seq<Edge>>, s: int, mst: seq<Edge>, j: int)
    requires 0 <= j < |mst|
  {
    forall u, k ::
      0 <= u < |lists| && (u == s || u in Extracted(mst[..j])) && 0 <= k < |lists[u]| &&
      lists[u][k].id2 != s && lists[u][k].id2 !in Extracted(mst[..j])
      ==> mst[j].cost <= lists[u][k].cost
  }

  ghost predicate EmittedAt(lists: seq<seq<Edge>>, s: int, mst: seq<Edge>, j: int)
    requires 0 <= j < |mst|
  {
    && 0 <= mst[j].id2 < |lists|
    && TreeEdge(lists, s, mst[j])
    && FreshAt(mst, j)
    && ParentEarlierAt(s, mst, j)
    && CutAt(lists, s, mst, j)
  }

  ghost predicate Emitted(lists: seq<seq<Edge>>, s: int, mst: seq<Edge>)
  {
    forall j :: 0 <= j < |mst| ==> EmittedAt(lists, s, mst, j)
  }

  /** Appending keeps what was said about the earlier positions. */
  lemma EmittedAtSnoc(lists: seq<seq<Edge>>, s: int, mst: seq<Edge>, e: Edge, j: int)
    requires 0 <= j < |mst| && EmittedAt(lists, s, mst, j)
    ensures EmittedAt(lists, s, mst + [e], j)
  {
    var m := mst + [e];
    assert m[..j] == mst[..j];
    assert m[j] == mst[j];
  }

  // ---------------------------------------------------------------------
  // The loop invariant, one vertex at a time. `rows` is the table, `p` the
  // heap's priorities, `mst` the edges emitted so far, `index` the current
  // vertex, `done` the vertices whose edges were all offered, `jj` how many
  // edges of `index` were offered.

  ghost predicate PendingAt(p: map<int, int>, mst: seq<Edge>, v: int)
  {
    v in p <==> v !in Extracted(mst)
  }

  ghost predicate CostAt(p: map<int, int>, rows: seq<Row>, v: int)
    requires 0 <= v < |rows|
  {
    v in p ==> p[v] == rows[v].cost
  }

  ghost predicate QueuedAt(p: map<int, int>, rows: seq<Row>, index: int, v: int)
    requires 0 <= v < |rows|
  {
    !rows[v].visited && v != index ==> v in p
  }

  ghost predicate VisitedAt(rows: seq<Row>, s: int, mst: seq<Edge>, v: int)
    requires 0 <= v < |rows|
  {
    rows[v].visited ==> v == s || v in Extracted(mst)
  }

  ghost predicate ParentAt(p: map<int, int>, rows: seq<Row>, s: int, mst: seq<Edge>, v: int)
    requires 0 <= v < |rows|
  {
    v in p ==> rows[v].path == -1 || rows[v].path == s || rows[v].path in Extracted(mst)
  }

  ghost predicate RowOkAt(lists: seq<seq<Edge>>, s: int, rows: seq<Row>, v: int)
    requires 0 <= v < |rows|
  {
    TreeEdge(lists, s, Edge(rows[v].path, v, rows[v].cost))
  }

  /** Edge k of vertex u has been offered: if its target is still queued
      and unvisited, the target's best cost is at most the edge's cost. */
  ghost predicate OfferedAt(lists: seq<seq<Edge>>, rows: seq<Row>, p: map<int, int>, u: int, k: int)
  {
    0 <= u < |lists| && 0 <= k < |lists[u]| &&
    lists[u][k].id2 in p && 0 <= lists[u][k].id2 < |rows| && !rows[lists[u][k].id2].visited
    ==> rows[lists[u][k].id2].cost <= lists[u][k].cost
  }

  ghost predicate Shape(lists: seq<seq<Edge>>, s: int, rows: seq<Row>, p: map<int, int>,
                        index: int, done: set<int>, jj: int)
  {
    && |rows| == |lists| && 0 <= s < |rows| && 0 <= index < |rows|
    && 0 <= jj <= |lists[index]|
    && (forall v :: v in p ==> 0 <= v < |rows|)
    && (forall u :: u in done ==> 0 <= u < |rows|)
  }

  /** Everything the invariant says about vertex v. */
  ghost predicate VertexAt(lists: seq<seq<Edge>>, s: int, rows: seq<Row>, p: map<int, int>,
                           mst: seq<Edge>, index: int, v: int)
    requires 0 <= v < |rows|
  {
    && PendingAt(p, mst, v) && CostAt(p, rows, v) && QueuedAt(p, rows, index, v)
    && VisitedAt(rows, s, mst, v) && ParentAt(p, rows, s, mst, v) && RowOkAt(lists, s, rows, v)
  }

  ghost predicate Tracked(lists: seq<seq<Edge>>, s: int, rows: seq<Row>, p: map<int, int>,
                          mst: seq<Edge>, index: int)
  {
    forall v :: 0 <= v < |rows| ==> VertexAt(lists, s, rows, p, mst, index, v)
  }

  ghost predicate Offered(lists: seq<seq<Edge>>, rows: seq<Row>, p: map<int, int>,
                          index: int, done: set<int>, jj: int)
  {
    && (forall u, k :: u in done ==> OfferedAt(lists, rows, p, u, k))
    && (forall k :: 0 <= k < jj ==> OfferedAt(lists, rows, p, index, k))
  }

  ghost predicate PrimInv(lists: seq<seq<Edge>>, s: int, rows: seq<Row>, p: map<int, int>,
                          mst: seq<Edge>, index: int, done: set<int>, jj: int)
  {
    && Shape(lists, s, rows, p, index, done, jj)
    && Tracked(lists, s, rows, p, mst, index)
    && (index == s || index in Extracted(mst))
    && done + {index} == {s} + Extracted(mst)
    && Offered(lists, rows, p, index, done, jj)
    && Emitted(lists, s, mst)
  }

  // ---------------------------------------------------------------------
  // The steps of the run.

  /** The table exactly as initiateTable leaves it. */
  ghost predicate Initial(rows: seq<Row>, s: int)
  {
    forall v :: 0 <= v < |rows| ==>
      rows[v] == (if v == s then Row(true, 0, s) else Row(false, MAX_VALUE, -1))
  }

  /** The freshly initialised table and the freshly seeded heap satisfy the
      invariant before the first iteration. */
  lemma InitialInv(lists: seq<seq<Edge>>, s: int, rows: seq<Row>)
    requires |rows| == |lists| && 0 <= s < |rows| && Initial(rows, s)
    ensures PrimInv(lists, s, rows, Seeds(|rows|, s), [], s, {}, 0)
  {
    var p := Seeds(|rows|, s);
    assert Extracted([]) == {};
    forall v | 0 <= v < |rows|
      ensures PendingAt(p, [], v) && CostAt(p, rows, v) && QueuedAt(p, rows, s, v)
      ensures VisitedAt(rows, s, [], v) && ParentAt(p, rows, s, [], v) && RowOkAt(lists, s, rows, v)
    {
      assert rows[v] == (if v == s then Row(true, 0, s) else Row(false, MAX_VALUE, -1));
    }
  }

  /** updateAdded(index) at the head of an iteration keeps the invariant. */
  lemma MarkStep(lists: seq<seq<Edge>>, s: int, rows: seq<Row>, p: map<int, int>,
                 mst: seq<Edge>, index: int, done: set<int>)
    requires PrimInv(lists, s, rows, p, mst, index, done, 0)
    ensures PrimInv(lists, s, rows[index := rows[index].(visited := true)], p, mst, index, done, 0)
  {
    var rows' := rows[index := rows[index].(visited := true)];
    forall v | 0 <= v < |rows|
      ensures PendingAt(p, mst, v) && CostAt(p, rows', v) && QueuedAt(p, rows', index, v)
      ensures VisitedAt(rows', s, mst, v) && ParentAt(p, rows', s, mst, v) && RowOkAt(lists, s, rows', v)
    {
      assert VertexAt(lists, s, rows, p, mst, index, v);
    }
    forall u, k | u in done ensures OfferedAt(lists, rows', p, u, k) {
      assert OfferedAt(lists, rows, p, u, k);
    }
  }

  /** Offering an edge whose target was already added changes nothing. */
  lemma SkipStep(lists: seq<seq<Edge>>, s: int, rows: seq<Row>, p: map<int, int>,
                 mst: seq<Edge>, index: int, done: set<int>, jj: int)
    requires PrimInv(lists, s, rows, p, mst, index, done, jj)
    requires jj < |lists[index]| && 0 <= lists[index][jj].id2 < |rows|
    requires rows[lists[index][jj].id2].visited
    ensures PrimInv(lists, s, rows, p, mst, index, done, jj + 1)
  {
    assert OfferedAt(lists, rows, p, index, jj);
  }

  /** Offering the edge `e` = edge jj of `index` to its unvisited target:
      the heap priority drops to e.cost when that is strictly smaller, and
      the row is relaxed. */
  lemma OfferStep(lists: seq<seq<Edge>>, s: int, rows: seq<Row>, p: map<int, int>,
                  mst: seq<Edge>, index: int, done: set<int>, jj: int)
    requires PrimInv(lists, s, rows, p, mst, index, done, jj)
    requires rows[index].visited
    requires jj < |lists[index]| && lists[index][jj].id1 == index && 0 <= lists[index][jj].id2 < |rows|
    requires !rows[lists[index][jj].id2].visited
    ensures lists[index][jj].id2 in p && p[lists[index][jj].id2] == rows[lists[index][jj].id2].cost
    ensures
      var e := lists[index][jj];
      var p' := if e.cost < rows[e.id2].cost then p[e.id2 := e.cost] else p;
      PrimInv(lists, s, rows[e.id2 := Relax(rows[e.id2], e.cost, index)], p', mst, index, done, jj + 1)
  {
    var e := lists[index][jj];
    var w := e.id2;
    assert VertexAt(lists, s, rows, p, mst, index, w);
    var p' := if e.cost < rows[w].cost then p[w := e.cost] else p;
    var rows' := rows[w := Relax(rows[w], e.cost, index)];
    assert p'.Keys == p.Keys;
    assert e == Edge(index, w, e.cost);
    forall v | 0 <= v < |rows|
      ensures PendingAt(p', mst, v) && CostAt(p', rows', v) && QueuedAt(p', rows', index, v)
      ensures VisitedAt(rows', s, mst, v) && ParentAt(p', rows', s, mst, v) && RowOkAt(lists, s, rows', v)
    {
      assert VertexAt(lists, s, rows, p, mst, index, v);
    }
    forall u, k | u in done ensures OfferedAt(lists, rows', p', u, k) {
      assert OfferedAt(lists, rows, p, u, k);
    }
    forall k | 0 <= k < jj + 1 ensures OfferedAt(lists, rows', p', index, k) {
      if k < jj {
        assert OfferedAt(lists, rows, p, index, k);
      }
    }
  }

  /** removeMin hands out a queued vertex of least priority; emitting its
      row as an edge and moving to it keeps the invariant. */
  lemma ExtractStep(lists: seq<seq<Edge>>, s: int, rows: seq<Row>, p: map<int, int>,
                    mst: seq<Edge>, index: int, done: set<int>, v: int)
    requires Linked(lists) && 0 <= index < |lists|
    requires PrimInv(lists, s, rows, p, mst, index, done, |lists[index]|)
    requires rows[index].visited
    requires v in p && forall w :: w in p ==> p[v] <= p[w]
    ensures 0 <= v < |rows|
    ensures PrimInv(lists, s, rows, p - {v}, mst + [Edge(rows[v].path, v, rows[v].cost)],
                    v, done + {index}, 0)
  {
    var e := Edge(rows[v].path, v, rows[v].cost);
    var mst', p', done' := mst + [e], p - {v}, done + {index};
    ExtractedSnoc(mst, e);
    assert mst'[..|mst|] == mst;
    forall w | 0 <= w < |rows|
      ensures PendingAt(p', mst', w) && CostAt(p', rows, w) && QueuedAt(p', rows, v, w)
      ensures VisitedAt(rows, s, mst', w) && ParentAt(p', rows, s, mst', w) && RowOkAt(lists, s, rows, w)
    {
      assert VertexAt(lists, s, rows, p, mst, index, w);
    }
    forall u, k | u in done' ensures OfferedAt(lists, rows, p', u, k) {
      if u in done {
        assert OfferedAt(lists, rows, p, u, k);
      } else if 0 <= k < |lists[index]| {
        assert OfferedAt(lists, rows, p, index, k);
      }
    }
    assert EmittedAt(lists, s, mst', |mst|) by {
      assert VertexAt(lists, s, rows, p, mst, index, v);
      CutStep(lists, s, rows, p, mst, index, done, v);
    }
    forall j | 0 <= j < |mst'| ensures EmittedAt(lists, s, mst', j) {
      if j < |mst| {
        EmittedAtSnoc(lists, s, mst, e, j);
      }
    }
  }

  /** The cut property for the vertex removeMin hands out. */
  lemma CutStep(lists: seq<seq<Edge>>, s: int, rows: seq<Row>, p: map<int, int>,
                mst: seq<Edge>, index: int, done: set<int>, v: int)
    requires Linked(lists) && 0 <= index < |lists|
    requires PrimInv(lists, s, rows, p, mst, index, done, |lists[index]|)
    requires v in p && forall w :: w in p ==> p[v] <= p[w]
    ensures CutAt(lists, s, mst + [Edge(rows[v].path, v, rows[v].cost)], |mst|)
  {
    var mst' := mst + [Edge(rows[v].path, v, rows[v].cost)];
    assert mst'[..|mst|] == mst;
    assert VertexAt(lists, s, rows, p, mst, index, v);
    forall u, k |
      0 <= u < |lists| && (u == s || u in Extracted(mst)) && 0 <= k < |lists[u]| &&
      lists[u][k].id2 != s && lists[u][k].id2 !in Extracted(mst)
      ensures rows[v].cost <= lists[u][k].cost
    {
      var t := lists[u][k].id2;
      EdgeOf(lists, u, lists[u][k]);
      assert VertexAt(lists, s, rows, p, mst, index, t);
      assert u in done + {index};
      assert OfferedAt(lists, rows, p, u, k);
    }
  }

  /** Once the heap is empty, every vertex has been emitted. */
  lemma AllExtracted(lists: seq<seq<Edge>>, s: int, rows: seq<Row>, mst: seq<Edge>, index: int)
    requires |rows| == |lists| && Tracked(lists, s, rows, map[], mst, index)
    ensures forall v :: 0 <= v < |lists| ==> v in Extracted(mst)
  {
    forall v | 0 <= v < |lists| ensures v in Extracted(mst) {
      assert VertexAt(lists, s, rows, map[], mst, index, v);
    }
  }

  /** No vertex is emitted twice. */
  lemma {:induction false} DistinctTargets(lists: seq<seq<Edge>>, s: int, mst: seq<Edge>)
    requires Emitted(lists, s, mst)
    ensures |Extracted(mst)| == |mst|
    decreases |mst|
  {
    if mst == [] {
      assert Extracted(mst) == {};
    } else {
      var n := |mst| - 1;
      var init := mst[..n];
      assert init + [mst[n]] == mst;
      assert EmittedAt(lists, s, mst, n);
      forall j | 0 <= j < |init| ensures EmittedAt(lists, s, init, j) {
        assert EmittedAt(lists, s, mst, j);
        assert init[..j] == mst[..j];
        assert init[j] == mst[j];
      }
      DistinctTargets(lists, s, init);
      ExtractedSnoc(init, mst[n]);
    }
  }

  // ---------------------------------------------------------------------

  class PrimAlgorithm {
    const graph: Graph
    const sourceVertex: int
    var table: array<Row>

    constructor (graph: Graph, sourceVertex: int)
      ensures this.graph == graph && this.sourceVertex == sourceVertex
    {
      this.graph := graph;
      this.sourceVertex := sourceVertex;
      table := new Row[0];
    }

    /** Every vertex unvisited at cost MAX_VALUE with no predecessor, except
        the source: visited, cost 0, its own predecessor. */
    method InitiateTable()
      requires 0 <= sourceVertex < table.Length
      modifies table
      ensures Initial(table[..], sourceVertex)
    {
      var i := 0;
      while i < table.Length
        invariant 0 <= i <= table.Length
        invariant forall v :: 0 <= v < i ==> table[v] == Row(false, MAX_VALUE, -1)
      {
        table[i] := Row(false, MAX_VALUE, -1);
        i := i + 1;
      }
      table[sourceVertex] := Row(true, 0, sourceVertex);
    }

    /** Sets the added flag of `vertex`; nothing else changes. */
    method UpdateAdded(vertex: int)
      requires 0 <= vertex < table.Length
      modifies table
      ensures HasBeenAdded(vertex)
      ensures table[..] == old(table[..])[vertex := old(table[vertex]).(visited := true)]
    {
      table[vertex] := table[vertex].(visited := true);
    }

    /** The added flag of `vertex`: set by UpdateAdded, kept by every
        relaxation. */
    predicate HasBeenAdded(vertex: int): (r: bool)
      reads this, table
      requires 0 <= vertex < table.Length
      ensures r <==> table[vertex].visited
      ensures r ==> forall c, q :: Relax(table[vertex], c, q) == table[vertex]
    {
      table[vertex].visited
    }

    /** Relaxes the row of `vertex` with the offer (cost, path). */
    method UpdateCostAndPath(vertex: int, cost: int, path: int)
      requires 0 <= vertex < table.Length
      modifies table
      ensures table[..] == old(table[..])[vertex := Relax(old(table[vertex]), cost, path)]
    {
      if !table[vertex].visited && table[vertex].cost > cost {
        table[vertex] := table[vertex].(cost := cost, path := path);
      }
    }

    /** The best known cost of connecting `vertex`, the cost of the edge
        emitted for it. */
    function GetCost(vertex: int): (r: int)
      reads this, table
      requires 0 <= vertex < table.Length
      ensures r == table[vertex].cost
      ensures forall c, q :: Relax(table[vertex], c, q).cost <= r
    {
      table[vertex].cost
    }

    /** The vertex the best cost of `vertex` comes from, the other end of
        the edge emitted for it. */
    function GetPath(vertex: int): (r: int)
      reads this, table
      requires 0 <= vertex < table.Length
      ensures r == table[vertex].path
      ensures forall c, q :: Relax(table[vertex], c, q).path == r || Relax(table[vertex], c, q).path == q
    {
      table[vertex].path
    }

    /** The first half of an iteration of computeMST: marks `index` as
        added, then walks its list and offers every edge to its target. */
    method Visit(pQueue: MinHeap, index: int, ghost lists: seq<seq<Edge>>, ghost rows: seq<Row>,
                 ghost p: map<int, int>, ghost edgesMST: seq<Edge>, ghost done: set<int>)
      requires graph.Valid() && pQueue.Valid()
      requires table.Length == graph.NumNodes() == pQueue.maxsize
      requires lists == graph.adjacencyList[..] && rows == table[..] && p == pQueue.Priorities()
      requires 0 <= index < table.Length
      requires PrimInv(lists, sourceVertex, rows, p, edgesMST, index, done, 0)
      modifies table, pQueue.heap, pQueue.positionArr
      ensures pQueue.Valid() && pQueue.size == old(pQueue.size)
      ensures graph.adjacencyList[..] == old(graph.adjacencyList[..]) && graph.Valid()
      ensures table[index] == rows[index].(visited := true)
      ensures RelaxedBy(rows, table[..], lists[index], index)
      ensures pQueue.Priorities().Keys == p.Keys
      ensures PrimInv(lists, sourceVertex, table[..], pQueue.Priorities(), edgesMST, index, done, |lists[index]|)
    {
      UpdateAdded(index);
      MarkStep(lists, sourceVertex, rows, p, edgesMST, index, done);
      var adj := graph.adjacencyList[index];
      OfferedRowsStart(rows, table[..], adj, index);
      var j := 0;
      while j < |adj|
        invariant 0 <= j <= |adj| && table.Length == graph.NumNodes()
        invariant pQueue.Valid() && table[index] == rows[index].(visited := true)
        invariant pQueue.Priorities().Keys == p.Keys
        invariant OfferedRows(rows, table[..], adj, j, index)
        invariant PrimInv(lists, sourceVertex, table[..], pQueue.Priorities(), edgesMST, index, done, j)
      {
        ghost var before := table[..];
        OfferEdge(pQueue, index, j, lists, edgesMST, done);
        OfferedRowsStep(rows, before, adj, j, index);
        j := j + 1;
      }
      OfferedRowsEnd(rows, table[..], adj, index);
    }

    /** The body of the inner loop: edge j of `index` is offered to the heap
        and the table when its target has not been added yet. */
    method OfferEdge(pQueue: MinHeap, index: int, j: int, ghost lists: seq<seq<Edge>>,
                     ghost edgesMST: seq<Edge>, ghost done: set<int>)
      requires graph.Valid() && pQueue.Valid()
      requires table.Length == graph.NumNodes() == pQueue.maxsize
      requires lists == graph.adjacencyList[..]
      requires 0 <= index < table.Length && table[index].visited
      requires 0 <= j < |lists[index]|
      requires PrimInv(lists, sourceVertex, table[..], pQueue.Priorities(), edgesMST, index, done, j)
      modifies table, pQueue.heap, pQueue.positionArr
      ensures pQueue.Valid()
      ensures
        var e := lists[index][j];
        && 0 <= e.id2 < table.Length
        && table[..] == old(table[..])[e.id2 := Relax(old(table[e.id2]), e.cost, index)]
        && (!old(table[e.id2].visited) ==> e.id2 in old(pQueue.Priorities()))
        && pQueue.Priorities() ==
             if !old(table[e.id2].visited) && e.cost < old(table[e.id2].cost)
             then old(pQueue.Priorities())[e.id2 := e.cost]
             else old(pQueue.Priorities())
      ensures table[index] == old(table[index]) && pQueue.Priorities().Keys == old(pQueue.Priorities()).Keys
      ensures PrimInv(lists, sourceVertex, table[..], pQueue.Priorities(), edgesMST, index, done, j + 1)
    {
      var temp := graph.adjacencyList[index][j];
      assert temp.id1 == index && 0 <= temp.id2 < table.Length && Int32(temp.cost) by {
        EdgeOf(lists, index, temp);
      }
      if !HasBeenAdded(temp.id2) {
        OfferStep(lists, sourceVertex, table[..], pQueue.Priorities(), edgesMST, index, done, j);
        // The original calls reduceKey for every unvisited neighbour; the
        // model makes the offer only when the cost is strictly smaller,
        // the same guard updateCostAndPath applies to the table.
        if temp.cost < table[temp.id2].cost {
          pQueue.ReduceKey(temp.id2, temp.cost);
        }
        UpdateCostAndPath(temp.id2, temp.cost, index);
      } else {
        SkipStep(lists, sourceVertex, table[..], pQueue.Priorities(), edgesMST, index, done, j);
      }
    }

    /** removeMin takes out exactly one pending vertex of least priority;
        the edge is built from that vertex's table row. */
    method ExtractMin(pQueue: MinHeap, index: int, ghost lists: seq<seq<Edge>>, ghost rows: seq<Row>,
                      ghost edgesMST: seq<Edge>, ghost done: set<int>)
      returns (minIndex: int, newEdge: Edge)
      requires graph.Valid() && pQueue.Valid() && pQueue.size > 0
      requires table.Length == graph.NumNodes()
      requires lists == graph.adjacencyList[..] && rows == table[..]
      requires 0 <= index < table.Length && table[index].visited
      requires PrimInv(lists, sourceVertex, rows, pQueue.Priorities(), edgesMST, index, done, |lists[index]|)
      modifies pQueue, pQueue.heap, pQueue.positionArr
      ensures pQueue.Valid() && pQueue.size == old(pQueue.size) - 1
      ensures minIndex in old(pQueue.Priorities())
      ensures forall v :: v in old(pQueue.Priorities()) ==> old(pQueue.Priorities())[minIndex] <= old(pQueue.Priorities())[v]
      ensures pQueue.Priorities() == old(pQueue.Priorities()) - {minIndex}
      ensures table[..] == old(table[..]) && graph.adjacencyList[..] == old(graph.adjacencyList[..]) && graph.Valid()
      ensures 0 <= minIndex < |rows| && newEdge == Edge(rows[minIndex].path, minIndex, rows[minIndex].cost)
      ensures PrimInv(lists, sourceVertex, rows, pQueue.Priorities(), edgesMST + [newEdge], minIndex,
                      done + {index}, 0)
    {
      ghost var p := pQueue.Priorities();
      minIndex := pQueue.RemoveMin();
      ExtractStep(lists, sourceVertex, rows, p, edgesMST, index, done, minIndex);
      newEdge := Edge(GetPath(minIndex), minIndex, GetCost(minIndex));
    }

    /** Runs Prim's algorithm from the source vertex and returns the edges
        in the order they are added: one per vertex, each vertex once, each
        a graph edge from the tree built so far (or the source's self-edge,
        or the unreachable marker), each at most the cost of any edge
        leaving the tree built so far. */
    method ComputeMST() returns (edgesMST: seq<Edge>)
      requires graph.Valid()
      requires 0 <= sourceVertex < graph.NumNodes()
      modifies this
      ensures |edgesMST| == graph.NumNodes()
      ensures forall v :: 0 <= v < graph.NumNodes() ==> v in Extracted(edgesMST)
      ensures |Extracted(edgesMST)| == graph.NumNodes()
      ensures Emitted(graph.adjacencyList[..], sourceVertex, edgesMST)
    {
      var numNd := graph.NumNodes();
      var pQueue := new MinHeap(numNd, sourceVertex);
      table := new Row[numNd](_ => Row(false, 0, 0));
      InitiateTable();
      ghost var lists := graph.adjacencyList[..];
      ghost var rows, p := table[..], pQueue.Priorities();
      ghost var done: set<int> := {};
      InitialInv(lists, sourceVertex, rows);

      edgesMST := [];
      var ct := 0;
      var index := sourceVertex;
      while ct < numNd
        invariant 0 <= ct <= numNd && |edgesMST| == ct
        invariant table.Length == numNd && fresh(table)
        invariant pQueue.Valid() && pQueue.maxsize == numNd && pQueue.size == numNd - ct
        invariant rows == table[..] && p == pQueue.Priorities()
        invariant PrimInv(lists, sourceVertex, rows, p, edgesMST, index, done, 0)
      {
        Visit(pQueue, index, lists, rows, p, edgesMST, done);
        rows := table[..];
        var minIndex, newEdge := ExtractMin(pQueue, index, lists, rows, edgesMST, done);
        // addMSTEdge
        edgesMST := edgesMST + [newEdge];
        p := pQueue.Priorities();
        done := done + {index};
        index := minIndex;
        ct := ct + 1;
      }
      assert p == map[];
      AllExtracted(lists, sourceVertex, rows, edgesMST, index);
      DistinctTargets(lists, sourceVertex, edgesMST);
    }
  }
}
