# Minimum spanning trees over an adjacency-list graph

This project models the in-memory core of a small Java program that
computes minimum spanning trees of a road map. The cities are vertices and
the roads are undirected arcs with integer costs. It has four parts:

- **Graph** (`graph.dfy`, module `Graphs`). One node record per declared
  city and one adjacency list per vertex. Every arc is stored as two
  directed edges of equal cost, one at the head of the list of each end
  point. The graph also keeps a counter of directed edges and the name to
  id map used while loading.
- **MinHeap** (`min_heap.dfy`, module `PriorityQueue`). An indexed binary
  min-heap, 1-indexed, with a `MIN_VALUE` sentinel in slot 0. It keeps a
  position index `positionArr` from vertex id to heap slot, which makes
  decrease-key possible.
- **Prim's algorithm** (`prim.dfy`, module `Prim`). A per-vertex table
  holds the added flag, the best known cost and the predecessor. The table
  is driven by the heap, and each extracted vertex's row is emitted as a
  tree edge.
- **Kruskal's algorithm** (`kruskal.dfy`, module `Kruskal`). It collects
  every directed edge, sorts the collection stably by cost, and then runs
  the union-find selection that the algorithm calls for. That selection is
  written in the class's doc comment but missing from its code. The
  disjoint sets it uses (`disjoint_sets.dfy`, module `DisjointSets`) are a
  stand-in that models only the contract of find and union.

`common.dfy` (module `Common`) holds the shared edge record, the bounds of
a Java `int`, and an `Option` type.

Each mutable object of the original is a Dafny class with the same fields,
and each method changes what its `modifies` clause names:

| Original | Dafny class | State |
|---|---|---|
| `Graph` | `Graphs.Graph` | `array<seq<Edge>>` of adjacency lists |
| `MinHeap` | `PriorityQueue.MinHeap` | `heap` and `positionArr` arrays |
| `PrimAlgorithm` | `Prim.PrimAlgorithm` | `table` array |
| `KruskalAlgorithm` | `Kruskal.KruskalAlgorithm` | `DisjointSets.DisjointSets`, whose state is a `seq` |

Every loop of the original is a `while` loop with its invariants. Each
method is proved against a specification function on values:

- `Graphs.Flatten`, the walk over all lists;
- `PriorityQueue.PrioritiesOf`, the map from id to priority;
- `Prim.Relax` and the invariant `Prim.PrimInv`;
- `DisjointSets.Merge`;
- `Kruskal.SortByCost`, `Kruskal.Replay` and `Kruskal.Forest`.

The properties of those functions are then proved as lemmas.

What each algorithm is shown to produce:

- **Prim** emits one edge per vertex, and each vertex is emitted exactly
  once.
  - Each emitted edge is one of three things: an edge of the graph leaving
    a vertex already in the tree, the source's self-edge `(s, s, 0)`, or
    the marker `(-1, v, MAX_VALUE)` for a vertex that cannot be reached.
  - Each emitted edge costs no more than any graph edge that leaves the
    tree built so far. This is the cut property.
- **Kruskal** produces a forest made of graph edges, in non-decreasing
  cost order.
  - Each of its edges joins two sets that the edges before it had left
    apart.
  - Its sets join the end points of every graph edge.
  - It has exactly as many edges as it removes sets: one edge fewer than
    vertices in each connected component.

## Model

| member | source | states |
|---|---|---|
| Graphs.FlattenLength | src/main/java/graph/Graph.java:126-133 | walking the lists vertex by vertex visits exactly as many edges as the lists hold in total |
| Graphs.FlattenMember | src/main/java/graph/Graph.java:128-129 | an edge is visited by the walk exactly when it is in the list of some vertex |
| Graphs.CountAllEmpty | src/main/java/graph/Graph.java:50-51 | freshly allocated empty lists hold no edge |
| Graphs.CountPrefix | src/main/java/graph/Graph.java:126-133 | the edges of the first i lists are never more than the total, so the fill index stays inside the array |
| Graphs.CountPrepend | src/main/java/graph/Graph.java:84-93 | prepending one edge to one list adds exactly one to the total |
| Graphs.IdMap | src/main/java/graph/Graph.java:54-61 | the map's keys are exactly the declared names; each name maps to an id whose node carries that name, and no later declaration repeats it |
| Graphs.IdMapSnoc | src/main/java/graph/Graph.java:59-61 | declaring one more city puts it, with the next id, over the map so far |
| Graphs.DenseIds | src/main/java/graph/Graph.java:54-61 | with distinct names, the i-th declared city gets id i |
| Graphs.IdMapNamed | src/main/java/graph/Graph.java:54-61 | every mapped name refers to the node declared with that name |
| Graphs.EdgeOf | src/main/java/graph/Graph.java:62-71 | an edge in list v leaves v towards a vertex of the graph, with an int cost, and its reverse copy is in the target's list |
| Graphs.EmptyLinked | src/main/java/graph/Graph.java:50-51 | empty lists satisfy the linking invariant and hold no edge |
| Graphs.WithArcMember | src/main/java/graph/Graph.java:62-71 | after an arc line, a list holds its old edges plus exactly the new edge that leaves its own vertex |
| Graphs.WithArcLinked | src/main/java/graph/Graph.java:62-71 | an arc line keeps every list linked to its reverse copies and adds exactly two directed edges |
| Graphs.Graph.constructor | src/main/java/graph/Graph.java:46-61 | one node per declared city, in order; the name to id map of the declarations; all lists empty; no edges |
| Graphs.Graph.FirstEdge | src/main/java/graph/Graph.java:108-110 | None exactly when the vertex has no edge, otherwise the head of its list |
| Graphs.Graph.AddEdge | src/main/java/graph/Graph.java:84-93 | the edge becomes the head of the vertex's list, the old list follows it unchanged, and every other list is unchanged |
| Graphs.Graph.AddArc | src/main/java/graph/Graph.java:62-71 | two directed edges of equal cost, id1 to id2 at the head of id1's list and id2 to id1 at the head of id2's list; the counter grows by two; the invariant holds |
| Graphs.Graph.GetEdges | src/main/java/graph/Graph.java:121-136 | None without vertices; otherwise an array of exactly numEdges entries, holding the end points of every edge in walk order |
| PriorityQueue.Parent | src/main/java/priorityQueue/MinHeap.java:58-60 | a slot lies in one of the two child slots of its parent |
| PriorityQueue.LeftChild | src/main/java/priorityQueue/MinHeap.java:40-42 | the parent of the left child is the slot itself |
| PriorityQueue.RightChild | src/main/java/priorityQueue/MinHeap.java:49-51 | the parent of the right child is the slot itself, and the right child follows the left one |
| PriorityQueue.IsLeaf | src/main/java/priorityQueue/MinHeap.java:67-69 | a slot is a leaf exactly when it is inside the heap and its left child is not |
| PriorityQueue.RootIsMin | src/main/java/priorityQueue/MinHeap.java:113-120 | in a heap-ordered array no slot is smaller than slot 1 |
| PriorityQueue.SwapSeq | src/main/java/priorityQueue/MinHeap.java:76-81 | the two slots are exchanged and every other slot is unchanged |
| PriorityQueue.UpStep | src/main/java/priorityQueue/MinHeap.java:155-171 | one bubble-up swap moves the single order fault from a slot to its parent |
| PriorityQueue.UpDone | src/main/java/priorityQueue/MinHeap.java:155 | the bubble-up ends with a heap-ordered array once the slot is no smaller than its parent |
| PriorityQueue.DownStep | src/main/java/priorityQueue/MinHeap.java:137-142 | one push-down swap with the smaller child moves the single order fault down to that child |
| PriorityQueue.DownDone | src/main/java/priorityQueue/MinHeap.java:128-136 | the push-down ends with a heap-ordered array at a leaf or once the slot is no larger than its children |
| PriorityQueue.SmallerChild | src/main/java/priorityQueue/MinHeap.java:129-131 | the child chosen (the right one only when it is strictly smaller) is a child no larger than the other |
| PriorityQueue.DecreaseUpOrdered | src/main/java/priorityQueue/MinHeap.java:147-150 | lowering one priority leaves only that slot out of order with its parent |
| PriorityQueue.AppendUpOrdered | src/main/java/priorityQueue/MinHeap.java:89-92 | a new last element is out of order at most with its parent |
| PriorityQueue.ShrinkDownOrdered | src/main/java/priorityQueue/MinHeap.java:114-118 | moving the last element to the root and dropping the last slot leaves only the root out of order |
| PriorityQueue.SlotPresent | src/main/java/priorityQueue/MinHeap.java:29-32 | a filled slot's id is present with that slot's priority |
| PriorityQueue.SwapIndexed | src/main/java/priorityQueue/MinHeap.java:137-141 | swapping two slots while recording both ids' new slots keeps the index consistent and every priority |
| PriorityQueue.SetPriorityIndexed | src/main/java/priorityQueue/MinHeap.java:147-150 | setting the priority at an id's slot keeps the index and changes only that id's priority |
| PriorityQueue.AppendIndexed | src/main/java/priorityQueue/MinHeap.java:89-92 | filling the next slot with an absent id adds exactly that id with its priority |
| PriorityQueue.ShrinkPriorities | src/main/java/priorityQueue/MinHeap.java:115 | dropping the last slot removes exactly the id it holds |
| PriorityQueue.RemoveRoot | src/main/java/priorityQueue/MinHeap.java:113-120 | the root id is present with a least priority; after the swap with the last slot and shrinking, only that id is gone and only the root is out of order |
| PriorityQueue.ReduceKeyAsWritten | src/main/java/priorityQueue/MinHeap.java:147-150 | setting the priority in place keeps the index and gives the id its new priority |
| PriorityQueue.ReduceKeyWithoutPushUp | src/main/java/priorityQueue/MinHeap.java:147-150 | a concrete indexed heap where lowering a key without pushUp breaks heap order and leaves a root that is not the minimum |
| PriorityQueue.SeedsStep | src/main/java/priorityQueue/MinHeap.java:24-27 | seeding one more id adds it with its seed priority |
| PriorityQueue.MinHeap.constructor | src/main/java/priorityQueue/MinHeap.java:15-33 | a valid heap holding every id 0..max-1, the chosen first id at 0 and the others at MAX_VALUE |
| PriorityQueue.MinHeap.Swap | src/main/java/priorityQueue/MinHeap.java:76-81 | the two slots are exchanged, both moved ids' positions are recorded, and the priorities are unchanged |
| PriorityQueue.MinHeap.Insert | src/main/java/priorityQueue/MinHeap.java:89-99 | size grows by one, heap order and the index hold, and the id is added with its priority |
| PriorityQueue.MinHeap.RemoveMin | src/main/java/priorityQueue/MinHeap.java:113-120 | size shrinks by one; the returned id was present with a least priority; exactly that id is removed; heap order and the index hold |
| Graphs.Graph.NumNodes | src/main/java/graph/Graph.java:99-101 | the number of cities, which in a well-formed graph is also the number of adjacency lists |
| PriorityQueue.MinHeap.SmallestChild | src/main/java/priorityQueue/MinHeap.java:129-131 | a child of the slot no larger than the other; the right one exactly when it exists and is strictly smaller |
| PriorityQueue.MinHeap.PushDown | src/main/java/priorityQueue/MinHeap.java:126-145 | restores heap order from a fault at one slot, keeping the index and every priority |
| PriorityQueue.MinHeap.ReduceKey | src/main/java/priorityQueue/MinHeap.java:147-173 | the id's priority becomes the new one, every other priority is unchanged, and heap order and the index hold |
| PriorityQueue.MinHeap.PushUp | src/main/java/priorityQueue/MinHeap.java:152-173 | restores heap order from a fault below one slot; slot 0's sentinel stops the loop at the root |
| Prim.Relax | src/main/java/algo/PrimAlgorithm.java:89-94 | a row changes exactly when it is unvisited and the cost is strictly smaller; then cost and predecessor change together; the flag never changes and the cost never grows |
| Prim.RelaxMonotone | src/main/java/algo/PrimAlgorithm.java:89-94 | over any sequence of offers the cost never grows, the flag never changes, and an added vertex's row never changes; Visit leaves every other row as such a sequence of offers |
| Prim.RelaxAllSnoc | src/main/java/algo/PrimAlgorithm.java:41-46 | one more offer at the end of the list is one more relaxation of the row |
| Prim.OfferedRowsStep | src/main/java/algo/PrimAlgorithm.java:41-46 | offering the next edge of the list relaxes its target's row, so every other row is still its starting row after the offers made so far |
| Prim.ExtractedSnoc | src/main/java/algo/PrimAlgorithm.java:51-52 | appending an edge adds exactly its target to the extracted vertices |
| Prim.EmittedAtSnoc | src/main/java/algo/PrimAlgorithm.java:51-52 | appending an edge keeps every earlier edge's tree-edge facts |
| Prim.InitialInv | src/main/java/algo/PrimAlgorithm.java:30-37 | the initial table and the freshly seeded heap satisfy the loop invariant |
| Prim.MarkStep | src/main/java/algo/PrimAlgorithm.java:40 | marking the current vertex added keeps the invariant |
| Prim.SkipStep | src/main/java/algo/PrimAlgorithm.java:42 | an edge whose target was already added changes nothing and keeps the invariant |
| Prim.OfferStep | src/main/java/algo/PrimAlgorithm.java:42-45 | offering an edge to an unvisited target keeps the invariant; heap and table agree on the target's cost |
| Prim.ExtractStep | src/main/java/algo/PrimAlgorithm.java:49-53 | extracting a least pending vertex and emitting its row keeps the invariant with that vertex as the new cursor |
| Prim.CutStep | src/main/java/algo/PrimAlgorithm.java:49-51 | the extracted vertex's cost is at most that of every edge leaving the tree built so far |
| Prim.AllExtracted | src/main/java/algo/PrimAlgorithm.java:38-55 | once the heap is empty, every vertex has been emitted |
| Prim.DistinctTargets | src/main/java/algo/PrimAlgorithm.java:38-55 | no vertex is emitted twice |
| Prim.PrimAlgorithm.constructor | src/main/java/algo/PrimAlgorithm.java:17-20 | keeps the graph and the source vertex |
| Prim.PrimAlgorithm.InitiateTable | src/main/java/algo/PrimAlgorithm.java:65-75 | the source is added with cost 0 and itself as predecessor; every other vertex is unvisited with cost MAX_VALUE and predecessor -1 |
| Prim.PrimAlgorithm.UpdateAdded | src/main/java/algo/PrimAlgorithm.java:77-87 | the vertex is added afterwards, and nothing else in the table changes |
| Prim.PrimAlgorithm.HasBeenAdded | src/main/java/algo/PrimAlgorithm.java:81-87 | true exactly when the vertex's added flag is set; an added vertex's row is left unchanged by every relaxation |
| Prim.PrimAlgorithm.GetCost | src/main/java/algo/PrimAlgorithm.java:96-98 | the best known cost of the vertex's row; no relaxation raises it |
| Prim.PrimAlgorithm.GetPath | src/main/java/algo/PrimAlgorithm.java:100-102 | the predecessor in the vertex's row; a relaxation keeps it or replaces it by the offering vertex |
| Prim.PrimAlgorithm.UpdateCostAndPath | src/main/java/algo/PrimAlgorithm.java:89-94 | the vertex's row is relaxed as Relax states, and every other row is unchanged |
| Prim.PrimAlgorithm.Visit | src/main/java/algo/PrimAlgorithm.java:39-47 | the vertex's row becomes its old row marked added; every other row becomes its old row relaxed, in list order, by the offers of the vertex's edges to it; the heap keeps its ids and size; the graph is unchanged; the invariant holds with the list fully offered |
| Prim.PrimAlgorithm.OfferEdge | src/main/java/algo/PrimAlgorithm.java:41-46 | only the target's row changes, to its old row relaxed by the edge; only the target's priority changes, to the edge's cost, and only when the target is unvisited and the cost strictly smaller; an added target is skipped; the invariant advances by one edge |
| Prim.PrimAlgorithm.ExtractMin | src/main/java/algo/PrimAlgorithm.java:49-51 | removes exactly one pending vertex, of least priority, from the heap's priorities; the new edge is its row (predecessor, vertex, cost); the table and graph are unchanged; the invariant holds for the appended edge |
| Prim.PrimAlgorithm.ComputeMST | src/main/java/algo/PrimAlgorithm.java:27-57 | exactly numNodes edges, every vertex emitted exactly once, each edge a tree edge satisfying the cut property |
| DisjointSets.Singletons | src/main/java/algo/KruskalAlgorithm.java:26 | n elements, each its own representative |
| DisjointSets.SingletonsPartition | src/main/java/algo/KruskalAlgorithm.java:26 | the singletons are a partition |
| DisjointSets.SingletonsCount | src/main/java/algo/KruskalAlgorithm.java:26 | n singletons are n sets |
| DisjointSets.Merge | src/main/java/algo/KruskalAlgorithm.java:19-20 | merging keeps a partition of the same elements |
| DisjointSets.MergeSame | src/main/java/algo/KruskalAlgorithm.java:19-20 | after a merge two elements share a set exactly when they did before, or one was with x and the other with y |
| DisjointSets.MergeCount | src/main/java/algo/KruskalAlgorithm.java:19-20 | merging two different sets leaves exactly one set fewer |
| DisjointSets.MergeCountUpTo | src/main/java/algo/KruskalAlgorithm.java:19-20 | among the first k elements, a merge removes a set exactly when y's representative is among them |
| DisjointSets.DisjointSets.constructor | src/main/java/algo/KruskalAlgorithm.java:24 | no elements yet |
| DisjointSets.DisjointSets.CreateSets | src/main/java/algo/KruskalAlgorithm.java:26 | the sets are exactly the n singletons |
| DisjointSets.DisjointSets.Find | src/main/java/algo/KruskalAlgorithm.java:19-20 | the representative of x's set: it represents itself, and an element has it as representative exactly when it is in x's set |
| DisjointSets.DisjointSets.Union | src/main/java/algo/KruskalAlgorithm.java:19-20 | the partition becomes the merge of the two elements' sets: afterwards x and y share a representative, and two elements do exactly when they shared one before or one was with x and the other with y |
| Kruskal.InsertByCost | src/main/java/algo/KruskalAlgorithm.java:37 | the result holds exactly the old elements and the new one |
| Kruskal.SortByCost | src/main/java/algo/KruskalAlgorithm.java:37 | the result is a permutation of the input |
| Kruskal.ConsSorted | src/main/java/algo/KruskalAlgorithm.java:37 | an edge no costlier than a sorted list keeps it sorted in front |
| Kruskal.InsertSorted | src/main/java/algo/KruskalAlgorithm.java:37 | inserting into a sorted list keeps it sorted |
| Kruskal.SortSorted | src/main/java/algo/KruskalAlgorithm.java:37 | the sorted list is in non-decreasing cost order |
| Kruskal.InsertClass | src/main/java/algo/KruskalAlgorithm.java:37 | inserting puts the new edge first among the edges of its cost and leaves the others' order |
| Kruskal.SortStable | src/main/java/algo/KruskalAlgorithm.java:37 | edges of equal cost keep their relative order |
| Kruskal.Replay | src/main/java/algo/KruskalAlgorithm.java:19-20 | replaying edges through the sets keeps a partition of the same elements |
| Kruskal.ForestCount | src/main/java/algo/KruskalAlgorithm.java:19-20 | a forest of k edges removes exactly k sets |
| Kruskal.ReplaySnoc | src/main/java/algo/KruskalAlgorithm.java:19-20 | one more edge merges its end points, and the result is a forest exactly when they were apart |
| Kruskal.FlattenWithin | src/main/java/algo/KruskalAlgorithm.java:28-35 | every collected edge lies between two vertices of the graph |
| Kruskal.SortedWithin | src/main/java/algo/KruskalAlgorithm.java:28-37 | every sorted edge lies between two vertices of the graph |
| Kruskal.ConcatSorted | src/main/java/algo/KruskalAlgorithm.java:19-20 | appending an edge no cheaper than any taken edge keeps the taken edges sorted |
| Kruskal.SelectStart | src/main/java/algo/KruskalAlgorithm.java:24-26 | before any edge, the selection state is the singletons with no edge taken |
| Kruskal.TakeEdge | src/main/java/algo/KruskalAlgorithm.java:19-20 | taking an edge whose end points are apart keeps a sorted forest and removes one set |
| Kruskal.SkipEdge | src/main/java/algo/KruskalAlgorithm.java:19-20 | skipping an edge whose end points share a set keeps the selection state |
| Kruskal.KruskalAlgorithm.constructor | src/main/java/algo/KruskalAlgorithm.java:16 | keeps the graph |
| Kruskal.KruskalAlgorithm.CollectEdges | src/main/java/algo/KruskalAlgorithm.java:28-35 | every edge of every list, vertex 0 first, each list head to tail; twice the number of arcs |
| Kruskal.KruskalAlgorithm.ComputeMST | src/main/java/algo/KruskalAlgorithm.java:23-40 | graph edges in non-decreasing cost order forming a forest; its sets join the end points of every graph edge; edges plus remaining sets equal the vertex count |

## Left out

- File reading and parsing in the Graph constructor. This is I/O. The constructor takes the declared city names, and each ARCS line becomes an `AddArc` call.
- City coordinates, `getNodes`, `getCities` and `getNode`, and the `Point` arrays of `getEdges`. These are display data. `GetEdges` returns the end point ids instead.
- The `next` links of `Edge`. Each adjacency list is a sequence whose order is the link order. Sharing of edge objects between lists is not modelled.
- Graphs.Graph.AddArc: a city name that was never declared makes the original fail with a null unboxing. The model returns false and changes nothing.
- The null `heap[0]` that the original dereferences at construction. The model stores a sentinel node of priority `MIN_VALUE` there.
- PriorityQueue.MinHeap.constructor: the original must be seeded with ids 1..max and always gives id 1 priority 0, while its position index assumes ids 0..max-1.
  - The model seeds ids 0..max-1.
  - The id at priority 0 is a parameter. Prim passes its source vertex.
- The original's `insert` and the swap in `removeMin` do not update `positionArr`. In the model every swap records both moved ids.
- `removeMin` returns the node record in the original, while Prim reads an int from it. The model returns the id.
- `MinHeap.print` is output only and is not modelled.
- PriorityQueue.MinHeap.Insert: requires the id to be absent and is used only while seeding (before any removal). The original does not check either condition.
- PriorityQueue.MinHeap.ReduceKey: requires the new priority to be no larger than the old one. A bubble-up restores order only then, and Prim never needs more.
- Prim.PrimAlgorithm.OfferEdge: calls reduceKey only when the cost is strictly smaller. The original calls it for every unvisited neighbour, which can raise a key and make the heap disagree with the table.
- Prim.PrimAlgorithm.ComputeMST: states the cut property for every emitted edge, not that the total cost is minimal.
  - It keeps the source's self-edge and the unreachable markers, because the original emits them.
  - It does not state that the source comes out first, which needs non-negative costs.
- The inner and outer loop bodies of Prim's `computeMST` are split into the methods `Visit`, `OfferEdge` and `ExtractMin`.
- The `int[][3]` table of Prim becomes an array of rows, with the added flag as a boolean.
- `MSTAlgorithm` is not part of this model. Its `numNodes` and `getFirstEdge` are read from the graph. The MST edge list `addMSTEdge` appends to is returned as a sequence.
- `DisjointSets` is not part of this model. The stand-in keeps one representative per element. It has no path compression, no union by rank and no error for ids out of range; those ids are excluded by preconditions.
- `Edge.compareTo` is not part of this model. The sort is taken to compare costs.
  - `Collections.sort` is modelled by a stable insertion sort on a sequence.
  - It returns a new sequence instead of sorting in place.
- Kruskal.KruskalAlgorithm.ComputeMST: states a spanning forest (every graph edge inside one set, one set removed per edge), not the minimality of its total cost.
- Integer overflow: costs are Java ints by the graph invariant and no arithmetic is done on them. Counters are unbounded.

## Findings

| source | as written | input that shows it | evidently intended | confidence | as-written member | corrected member |
|---|---|---|---|---|---|---|
| src/main/java/priorityQueue/MinHeap.java:147-150 | reduceKey stores the new priority in the id's slot and does not call pushUp | an ordered two-element heap, slots [sentinel, (0, MAX_VALUE), (1, MAX_VALUE)]; reduceKey(1, 5) leaves id 0 at the root, so removeMin returns it at MAX_VALUE instead of id 1 at 5. In a run of Prim (heap seeded with ids 0..4, source 0, arcs 0–3 at cost 5 and 3–4 at cost 1), after the first removal the root holds vertex 4 at MAX_VALUE while vertex 3 waits at 5, so (-1, 4, MAX_VALUE) is emitted before vertex 3 | store the priority, then pushUp from that slot | not executed | PriorityQueue.ReduceKeyWithoutPushUp | PriorityQueue.MinHeap.ReduceKey |
