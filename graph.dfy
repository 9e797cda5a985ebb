/** The in-memory graph: one node record per declared city, one adjacency
    list per vertex (head = most recently added edge), the total number of
    directed edges, and the name -> id map filled while loading. */
module Graphs {
  import opened Common

  /** A declared city. The coordinates of the original record are display
      data and are not modelled. */
  datatype CityNode = CityNode(city: string)

  /** All edges of all lists: list 0 first, each list head to tail. */
  function Flatten(lists: seq<seq<Edge>>): seq<Edge>
  {
    if |lists| == 0 then [] else Flatten(lists[..|lists| - 1]) + lists[|lists| - 1]
  }

  /** The sum of the list lengths. */
  function Count(lists: seq<seq<Edge>>): nat
  {
    if |lists| == 0 then 0 else Count(lists[..|lists| - 1]) + |lists[|lists| - 1]|
  }

  lemma {:induction false} FlattenLength(lists: seq<seq<Edge>>)
    ensures |Flatten(lists)| == Count(lists)
  {
    if |lists| > 0 {
      FlattenLength(lists[..|lists| - 1]);
    }
  }

  lemma {:induction false} FlattenMember(lists: seq<seq<Edge>>, e: Edge)
    ensures e in Flatten(lists) <==> exists v :: 0 <= v < |lists| && e in lists[v]
  {
    if |lists| > 0 {
      var n := |lists|;
      FlattenMember(lists[..n - 1], e);
      if e in Flatten(lists) && e !in lists[n - 1] {
        var v :| 0 <= v < n - 1 && e in lists[..n - 1][v];
        assert e in lists[v];
      }
      if e !in Flatten(lists) {
        forall v | 0 <= v < n ensures e !in lists[v] {
          if v < n - 1 {
            assert lists[..n - 1][v] == lists[v];
          }
        }
      }
    }
  }

  lemma {:induction false} CountAllEmpty(lists: seq<seq<Edge>>)
    requires forall v :: 0 <= v < |lists| ==> lists[v] == []
    ensures Count(lists) == 0
  {
    if |lists| > 0 {
      CountAllEmpty(lists[..|lists| - 1]);
    }
  }

  lemma {:induction false} CountPrefix(lists: seq<seq<Edge>>, i: nat)
    requires i <= |lists|
    ensures Count(lists[..i]) <= Count(lists)
  {
    if i < |lists| {
      var n := |lists|;
      CountPrefix(lists[..n - 1], i);
      assert lists[..n - 1][..i] == lists[..i];
    } else {
      assert lists[..i] == lists;
    }
  }

  /** Prepending one edge to one list adds exactly one to the total. */
  lemma {:induction false} CountPrepend(lists: seq<seq<Edge>>, v: nat, e: Edge)
    requires v < |lists|
    ensures Count(lists[v := [e] + lists[v]]) == Count(lists) + 1
  {
    var n := |lists|;
    var updated := lists[v := [e] + lists[v]];
    if v == n - 1 {
      assert updated[..n - 1] == lists[..n - 1];
    } else {
      CountPrepend(lists[..n - 1], v, e);
      assert updated[..n - 1] == lists[..n - 1][v := [e] + lists[v]];
    }
  }

  /** The name -> id map after putting `names[i] -> i` for i = 0, 1, ...
      in order: a later declaration of the same name overwrites the id. */
  function IdMap(names: seq<string>): (m: map<string, int>)
    ensures forall c :: c in m <==> c in names
    ensures forall c :: c in m ==> 0 <= m[c] < |names| && names[m[c]] == c
    ensures forall c :: c in m ==> forall j :: m[c] < j < |names| ==> names[j] != c
  {
    if |names| == 0 then map[] else IdMap(names[..|names| - 1])[names[|names| - 1] := |names| - 1]
  }

  /** Declaring one more city puts it, with the next id, over the map so far. */
  lemma IdMapSnoc(names: seq<string>, i: int)
    requires 0 <= i < |names|
    ensures IdMap(names[..i + 1]) == IdMap(names[..i])[names[i] := i]
  {
    assert names[..i + 1][..i] == names[..i];
  }

  /** With distinct names, the ids are dense: the i-th declared city gets id i. */
  lemma DenseIds(names: seq<string>)
    requires forall i, j :: 0 <= i < j < |names| ==> names[i] != names[j]
    ensures forall i :: 0 <= i < |names| ==> names[i] in IdMap(names) && IdMap(names)[names[i]] == i
  {
    forall i | 0 <= i < |names|
      ensures names[i] in IdMap(names) && IdMap(names)[names[i]] == i
    {
      var m := IdMap(names);
      assert names[m[names[i]]] == names[i];
    }
  }

  /** The end points of each edge, in the order given. */
  function Endpoints(edges: seq<Edge>): (r: seq<(int, int)>)
    ensures |r| == |edges|
    ensures forall k :: 0 <= k < |edges| ==> r[k] == (edges[k].id1, edges[k].id2)
  {
    seq(|edges|, k requires 0 <= k < |edges| => (edges[k].id1, edges[k].id2))
  }

  /** Edge `e`, if it is in list `v`, leaves `v` towards a vertex of the
      graph with an int cost, and its reverse copy is in the target's list. */
  ghost predicate LinkedAt(lists: seq<seq<Edge>>, v: int, e: Edge)
    requires 0 <= v < |lists|
  {
    e in lists[v] ==>
      && e.id1 == v && 0 <= e.id2 < |lists| && Int32(e.cost)
      && Reverse(e) in lists[e.id2]
  }

  /** Every list is linked in the sense of LinkedAt. */
  ghost predicate Linked(lists: seq<seq<Edge>>)
  {
    forall v, e :: 0 <= v < |lists| ==> LinkedAt(lists, v, e)
  }

  /** What Linked says about one edge of one list. */
  lemma EdgeOf(lists: seq<seq<Edge>>, v: int, e: Edge)
    requires Linked(lists) && 0 <= v < |lists| && e in lists[v]
    ensures e.id1 == v && 0 <= e.id2 < |lists| && Int32(e.cost)
    ensures Reverse(e) in lists[e.id2]
  {
    assert LinkedAt(lists, v, e);
  }

  /** Lists that are all empty are linked and hold no edge. */
  lemma EmptyLinked(lists: seq<seq<Edge>>)
    requires forall v :: 0 <= v < |lists| ==> lists[v] == []
    ensures Linked(lists) && Count(lists) == 0
  {
    forall v, e | 0 <= v < |lists| ensures LinkedAt(lists, v, e) {
    }
    CountAllEmpty(lists);
  }

  /** The lists after one arc line: `Edge(id1, id2, cost)` at the head of
      list id1, then `Edge(id2, id1, cost)` at the head of list id2. */
  function WithArc(lists: seq<seq<Edge>>, id1: int, id2: int, cost: int): (r: seq<seq<Edge>>)
    requires 0 <= id1 < |lists| && 0 <= id2 < |lists|
    ensures |r| == |lists|
  {
    var mid := lists[id1 := [Edge(id1, id2, cost)] + lists[id1]];
    mid[id2 := [Edge(id2, id1, cost)] + mid[id2]]
  }

  /** The edges of a list after an arc line: those it had, plus the new
      edge that leaves its own vertex. */
  lemma WithArcMember(lists: seq<seq<Edge>>, id1: int, id2: int, cost: int, v: int, e: Edge)
    requires 0 <= id1 < |lists| && 0 <= id2 < |lists| && 0 <= v < |lists|
    ensures e in WithArc(lists, id1, id2, cost)[v] <==>
      || e in lists[v]
      || (v == id1 && e == Edge(id1, id2, cost))
      || (v == id2 && e == Edge(id2, id1, cost))
  {
    var mid := lists[id1 := [Edge(id1, id2, cost)] + lists[id1]];
    assert e in mid[v] <==> e in lists[v] || (v == id1 && e == Edge(id1, id2, cost));
  }

  /** An arc line keeps the lists linked and adds two to the total. */
  lemma WithArcLinked(lists: seq<seq<Edge>>, id1: int, id2: int, cost: int)
    requires Linked(lists) && 0 <= id1 < |lists| && 0 <= id2 < |lists| && Int32(cost)
    ensures Linked(WithArc(lists, id1, id2, cost))
    ensures Count(WithArc(lists, id1, id2, cost)) == Count(lists) + 2
  {
    var e1, e2 := Edge(id1, id2, cost), Edge(id2, id1, cost);
    var mid := lists[id1 := [e1] + lists[id1]];
    var r := WithArc(lists, id1, id2, cost);
    CountPrepend(lists, id1, e1);
    CountPrepend(mid, id2, e2);
    forall v, e | 0 <= v < |r| ensures LinkedAt(r, v, e) {
      WithArcMember(lists, id1, id2, cost, v, e);
      if e in r[v] {
        if e in lists[v] {
          EdgeOf(lists, v, e);
          WithArcMember(lists, id1, id2, cost, e.id2, Reverse(e));
        } else if v == id1 && e == e1 {
          WithArcMember(lists, id1, id2, cost, id2, e2);
        } else {
          WithArcMember(lists, id1, id2, cost, id1, e1);
        }
      }
    }
  }

  /** Every mapped name refers to the node declared with that name. */
  ghost predicate NameAt(m: map<string, int>, nodes: seq<CityNode>, c: string)
  {
    c in m ==> 0 <= m[c] < |nodes| && nodes[m[c]].city == c
  }

  ghost predicate Named(m: map<string, int>, nodes: seq<CityNode>)
  {
    forall c :: NameAt(m, nodes, c)
  }

  /** The map built while declaring the cities names their nodes. */
  lemma IdMapNamed(cities: seq<string>, nodes: seq<CityNode>)
    requires |nodes| == |cities|
    requires forall i :: 0 <= i < |cities| ==> nodes[i] == CityNode(cities[i])
    ensures Named(IdMap(cities), nodes)
  {
    var m := IdMap(cities);
    forall c ensures NameAt(m, nodes, c) {
      if c in m {
        assert cities[m[c]] == c;
      }
    }
  }

  class Graph {
    const nodes: array<CityNode>
    const adjacencyList: array<seq<Edge>>
    var numEdges: nat
    var cityIdAndName: map<string, int>
    /** The number of arc lines loaded so far. */
    ghost var numArcs: nat

    /** Every list holds only edges leaving its own vertex towards a valid
        vertex, each with its reverse copy at the other end point; the edge
        counter is the total length of the lists, two per arc; every mapped
        name refers to the node declared with that name. */
    ghost predicate Valid()
      reads this, nodes, adjacencyList
    {
      && nodes.Length == adjacencyList.Length
      && Linked(adjacencyList[..])
      && numEdges == Count(adjacencyList[..])
      && numEdges == 2 * numArcs
      && Named(cityIdAndName, nodes[..])
    }

    /** Loads the NODES section: city i gets id i, in declaration order. */
    constructor (cities: seq<string>)
      ensures Valid()
      ensures NumNodes() == |cities|
      ensures forall i :: 0 <= i < |cities| ==> nodes[i] == CityNode(cities[i])
      ensures cityIdAndName == IdMap(cities)
      ensures forall v :: 0 <= v < adjacencyList.Length ==> adjacencyList[v] == []
      ensures numEdges == 0
    {
      nodes := new CityNode[|cities|](_ => CityNode(""));
      adjacencyList := new seq<Edge>[|cities|](_ => []);
      numEdges := 0;
      numArcs := 0;
      cityIdAndName := map[];
      new;
      var i := 0;
      while i < |cities|
        modifies this, nodes
        invariant 0 <= i <= |cities|
        invariant forall k :: 0 <= k < i ==> nodes[k] == CityNode(cities[k])
        invariant cityIdAndName == IdMap(cities[..i])
        invariant numEdges == 0 && numArcs == 0
        invariant forall v :: 0 <= v < adjacencyList.Length ==> adjacencyList[v] == []
      {
        nodes[i] := CityNode(cities[i]);
        cityIdAndName := cityIdAndName[cities[i] := i];
        assert cityIdAndName == IdMap(cities[..i + 1]) by {
          IdMapSnoc(cities, i);
        }
        i := i + 1;
      }
      assert cities[..i] == cities;
      assert Linked(adjacencyList[..]) && Count(adjacencyList[..]) == 0 by {
        EmptyLinked(adjacencyList[..]);
      }
      assert Named(cityIdAndName, nodes[..]) by {
        IdMapNamed(cities, nodes[..]);
      }
    }

    /** The number of cities, which is also the number of adjacency lists. */
    function NumNodes(): (n: nat)
      reads this, nodes, adjacencyList
      ensures n == nodes.Length
      ensures Valid() ==> n == adjacencyList.Length
    {
      nodes.Length
    }

    /** The head of `nodeId`'s list, or None for a vertex without edges. */
    function FirstEdge(nodeId: int): (r: Option<Edge>)
      requires 0 <= nodeId < adjacencyList.Length
      reads this, adjacencyList
      ensures r == None <==> adjacencyList[nodeId] == []
      ensures r != None ==> r.value == adjacencyList[nodeId][0]
    {
      if adjacencyList[nodeId] == [] then None else Some(adjacencyList[nodeId][0])
    }

    /** Makes `e` the head of `sourceId`'s list; the previous list follows
        it and every other list is left alone. */
    method AddEdge(e: Edge, sourceId: int)
      requires 0 <= sourceId < adjacencyList.Length
      modifies adjacencyList
      ensures adjacencyList[..] == old(adjacencyList[..])[sourceId := [e] + old(adjacencyList[sourceId])]
      ensures FirstEdge(sourceId) == Some(e)
      ensures adjacencyList[sourceId][1..] == old(adjacencyList[sourceId])
    {
      if adjacencyList[sourceId] == [] {
        adjacencyList[sourceId] := [e];
        assert [e] == [e] + old(adjacencyList[sourceId]);
      } else {
        adjacencyList[sourceId] := [e] + adjacencyList[sourceId];
      }
    }

    /** Loads one line of the ARCS section: two directed edges of the same
        cost, one at each end point, and two more in the edge counter. A
        name that was never declared is reported and changes nothing. */
    method AddArc(name1: string, name2: string, cost: int) returns (ok: bool)
      requires Valid()
      requires Int32(cost)
      modifies this, adjacencyList
      ensures Valid()
      ensures ok == (name1 in old(cityIdAndName) && name2 in old(cityIdAndName))
      ensures cityIdAndName == old(cityIdAndName)
      ensures !ok ==> adjacencyList[..] == old(adjacencyList[..]) && numEdges == old(numEdges)
      ensures ok ==>
        && 0 <= cityIdAndName[name1] < adjacencyList.Length
        && 0 <= cityIdAndName[name2] < adjacencyList.Length
        && adjacencyList[..] == WithArc(old(adjacencyList[..]), cityIdAndName[name1], cityIdAndName[name2], cost)
        && numEdges == old(numEdges) + 2
    {
      if name1 !in cityIdAndName || name2 !in cityIdAndName {
        return false;
      }
      var id1 := cityIdAndName[name1];
      var id2 := cityIdAndName[name2];
      assert NameAt(cityIdAndName, nodes[..], name1) && NameAt(cityIdAndName, nodes[..], name2);
      var newEdge1 := Edge(id1, id2, cost);
      var newEdge2 := Edge(id2, id1, cost);
      ghost var before := adjacencyList[..];
      assert Linked(WithArc(before, id1, id2, cost)) && Count(WithArc(before, id1, id2, cost)) == Count(before) + 2 by {
        WithArcLinked(before, id1, id2, cost);
      }
      AddEdge(newEdge1, id1);
      AddEdge(newEdge2, id2);
      assert adjacencyList[..] == WithArc(before, id1, id2, cost);
      numEdges := numEdges + 2;
      numArcs := numArcs + 1;
      ok := true;
    }

    /** The end points of every directed edge, vertex 0's list first and
        each list head to tail; None when there are no vertices. */
    method GetEdges() returns (r: Option<array<(int, int)>>)
      requires Valid()
      ensures adjacencyList.Length == 0 ==> r == None
      ensures adjacencyList.Length != 0 ==>
        r != None && r.value.Length == numEdges && r.value[..] == Endpoints(Flatten(adjacencyList[..]))
    {
      if adjacencyList.Length == 0 {
        return None;
      }
      var edges2D := new (int, int)[numEdges];
      var idx := 0;
      var i := 0;
      ghost var seen: seq<Edge> := [];
      while i < adjacencyList.Length
        invariant 0 <= i <= adjacencyList.Length
        invariant seen == Flatten(adjacencyList[..i])
        invariant idx == |seen| <= edges2D.Length
        invariant forall k :: 0 <= k < idx ==> edges2D[k] == (seen[k].id1, seen[k].id2)
      {
        var list: seq<Edge> := adjacencyList[i];
        assert Flatten(adjacencyList[..i + 1]) == seen + list && |seen| + |list| <= edges2D.Length by {
          assert adjacencyList[..i + 1][..i] == adjacencyList[..i];
          FlattenLength(adjacencyList[..i + 1]);
          CountPrefix(adjacencyList[..], i + 1);
        }
        var j := 0;
        while j < |list|
          invariant 0 <= j <= |list|
          invariant idx == |seen| && |seen| + |list| - j <= edges2D.Length
          invariant seen + list[j..] == Flatten(adjacencyList[..i + 1])
          invariant forall k :: 0 <= k < idx ==> edges2D[k] == (seen[k].id1, seen[k].id2)
        {
          var tmp := list[j];
          edges2D[idx] := (tmp.id1, tmp.id2);
          assert list[j..] == [tmp] + list[j + 1..];
          seen := seen + [tmp];
          j := j + 1;
          idx := idx + 1;
        }
        i := i + 1;
      }
      assert seen == Flatten(adjacencyList[..]) && |seen| == numEdges by {
        assert adjacencyList[..i] == adjacencyList[..];
        FlattenLength(adjacencyList[..]);
      }
      assert edges2D[..] == Endpoints(seen);
      r := Some(edges2D);
    }
  }
}
