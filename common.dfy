/** Shared vocabulary of the minimum-spanning-tree model: optional values,
    the bounds of a Java `int`, and the directed edge record. */
module Common {

  datatype Option<T> = None | Some(value: T)

  /** Integer.MIN_VALUE and Integer.MAX_VALUE of Java. */
  const MIN_VALUE: int := -0x8000_0000
  const MAX_VALUE: int := 0x7fff_ffff

  /** The values a Java `int` can hold. */
  predicate Int32(x: int) {
    MIN_VALUE <= x <= MAX_VALUE
  }

  /** A directed edge `id1 -> id2` with its cost. The `next` link of the
      original record is represented by the edge's position in its
      vertex's adjacency sequence. */
  datatype Edge = Edge(id1: int, id2: int, cost: int)

  /** The reverse copy stored for the other endpoint of an undirected arc. */
  function Reverse(e: Edge): (r: Edge)
    ensures r.id1 == e.id2 && r.id2 == e.id1 && r.cost == e.cost
  {
    Edge(e.id2, e.id1, e.cost)
  }
}
