/** The indexed binary min-heap used by Prim's algorithm, 1-indexed with a
    sentinel of minimal priority in slot 0, and a position index from
    vertex id to heap slot for decrease-key. */
module PriorityQueue {
  import opened Common

  datatype HeapNode = HeapNode(nodeId: int, priority: int)

  /** The slot of the parent: the slot whose two children include `pos`. */
  function Parent(pos: int): (p: int)
    ensures pos >= 0 ==> 2 * p <= pos <= 2 * p + 1
  {
    pos / 2
  }

  function LeftChild(pos: int): (c: int)
    ensures Parent(c) == pos
  {
    2 * pos
  }

  function RightChild(pos: int): (c: int)
    ensures Parent(c) == pos && c == LeftChild(pos) + 1
  {
    2 * pos + 1
  }

  /** A slot of the heap is a leaf exactly when it has no left child (and so
      no child at all) inside the first `size` slots. */
  function IsLeaf(pos: int, size: int): (b: bool)
    ensures pos >= 1 && size >= 0 ==> (b <==> pos <= size && LeftChild(pos) > size)
  {
    (pos > size / 2) && (pos <= size)
  }

  // The ordering facts below are stated through small named predicates, so
  // that their quantifiers are instantiated only where a proof names them.

  /** Slot `k` is no smaller than its parent. */
  ghost predicate OrderedAt(s: seq<HeapNode>, k: int)
    requires 1 <= k < |s|
  {
    s[Parent(k)].priority <= s[k].priority
  }

  /** Slot `k` is no smaller than its parent, unless it is a child of `c`. */
  ghost predicate OrderedUnlessChildOf(s: seq<HeapNode>, c: int, k: int)
    requires 1 <= k < |s|
  {
    Parent(k) != c ==> OrderedAt(s, k)
  }

  /** Slot `k`, if it is a child of `c`, is no smaller than slot `i`. */
  ghost predicate BoundsChild(s: seq<HeapNode>, i: int, c: int, k: int)
    requires 0 <= i < |s| && 0 <= k < |s|
  {
    Parent(k) == c ==> s[i].priority <= s[k].priority
  }

  /** Heap order over slots 1..size: no slot has a smaller priority than its parent. */
  ghost predicate HeapOrdered(s: seq<HeapNode>, size: int)
  {
    && size < |s|
    && forall k :: 2 <= k <= size ==> OrderedAt(s, k)
  }

  /** Heap order except between slot `c` and its parent; the parent of `c`
      is also no larger than the children of `c` (the state of a bubble-up). */
  ghost predicate UpOrdered(s: seq<HeapNode>, size: int, c: int)
  {
    && size < |s|
    && (forall k :: 2 <= k <= size && k != c ==> OrderedAt(s, k))
    && (2 <= c <= size ==> forall k :: 2 <= k <= size ==> BoundsChild(s, Parent(c), c, k))
  }

  /** Heap order except between slot `c` and its children; the parent of `c`
      is also no larger than the children of `c` (the state of a push-down). */
  ghost predicate DownOrdered(s: seq<HeapNode>, size: int, c: int)
  {
    && size < |s|
    && (forall k :: 2 <= k <= size ==> OrderedUnlessChildOf(s, c, k))
    && (2 <= c <= size ==> forall k :: 2 <= k <= size ==> BoundsChild(s, Parent(c), c, k))
  }

  /** In a heap-ordered array the root holds a smallest priority. */
  lemma {:induction false} RootIsMin(s: seq<HeapNode>, size: int, k: int)
    requires HeapOrdered(s, size)
    requires 1 <= k <= size
    ensures s[1].priority <= s[k].priority
  {
    if k > 1 {
      assert OrderedAt(s, k);
      RootIsMin(s, size, Parent(k));
    }
  }

  /** `s` with slots i and j exchanged. */
  function SwapSeq<T>(s: seq<T>, i: int, j: int): (r: seq<T>)
    requires 0 <= i < |s| && 0 <= j < |s|
    ensures |r| == |s| && r[i] == s[j] && r[j] == s[i]
    ensures forall k :: 0 <= k < |s| && k != i && k != j ==> r[k] == s[k]
  {
    s[i := s[j]][j := s[i]]
  }

  /** One bubble-up swap moves the hole of UpOrdered from `c` to its parent. */
  lemma UpStep(s: seq<HeapNode>, size: int, c: int)
    requires UpOrdered(s, size, c)
    requires 2 <= c <= size
    requires s[c].priority < s[Parent(c)].priority
    ensures UpOrdered(SwapSeq(s, c, Parent(c)), size, Parent(c))
  {
    var p := Parent(c);
    var t := SwapSeq(s, c, p);
    forall k | 2 <= k <= size && k != p
      ensures OrderedAt(t, k)
    {
      if k == c {
      } else if Parent(k) == c {
        assert BoundsChild(s, p, c, k);
      } else if Parent(k) == p {
        assert OrderedAt(s, k);
      } else {
        assert OrderedAt(s, k);
      }
    }
    if 2 <= p {
      forall k | 2 <= k <= size
        ensures BoundsChild(t, Parent(p), p, k)
      {
        assert OrderedAt(s, p);
        if Parent(k) == p && k != c {
          assert OrderedAt(s, k);
        }
      }
    }
  }

  /** A bubble-up stops with a heap-ordered array once the element at `c`
      is no smaller than its parent. */
  lemma UpDone(s: seq<HeapNode>, size: int, c: int)
    requires UpOrdered(s, size, c) && 1 <= c <= size
    requires c >= 2 ==> s[Parent(c)].priority <= s[c].priority
    ensures HeapOrdered(s, size)
  {
    forall k | 2 <= k <= size ensures OrderedAt(s, k) {
    }
  }

  /** One push-down swap with the smaller child `m` of `c` moves the hole of
      DownOrdered from `c` to `m`. */
  lemma DownStep(s: seq<HeapNode>, size: int, c: int, m: int)
    requires DownOrdered(s, size, c)
    requires 1 <= c && 2 <= m <= size && Parent(m) == c
    requires forall k :: 2 <= k <= size && Parent(k) == c ==> s[m].priority <= s[k].priority
    requires s[m].priority < s[c].priority
    ensures DownOrdered(SwapSeq(s, c, m), size, m)
  {
    var t := SwapSeq(s, c, m);
    forall k | 2 <= k <= size
      ensures OrderedUnlessChildOf(t, m, k)
    {
      if k == m {
      } else if Parent(k) == c {
      } else if k == c {
        assert BoundsChild(s, Parent(c), c, m);
      } else if Parent(k) != m {
        assert OrderedUnlessChildOf(s, c, k);
      }
    }
    forall k | 2 <= k <= size
      ensures BoundsChild(t, Parent(m), m, k)
    {
      if Parent(k) == m {
        assert OrderedUnlessChildOf(s, c, k);
      }
    }
  }

  /** A push-down stops with a heap-ordered array once the element at `c`
      is no larger than any of its children. */
  lemma DownDone(s: seq<HeapNode>, size: int, c: int)
    requires DownOrdered(s, size, c) && 1 <= c
    requires forall k :: 2 <= k <= size && Parent(k) == c ==> s[c].priority <= s[k].priority
    ensures HeapOrdered(s, size)
  {
    forall k | 2 <= k <= size ensures OrderedAt(s, k) {
      assert OrderedUnlessChildOf(s, c, k);
    }
  }

  /** The child the push-down picks (the right one only when it exists and
      is strictly smaller) is a child of `c` no larger than any other. */
  lemma SmallerChild(s: seq<HeapNode>, size: int, c: int, m: int)
    requires 1 <= c && LeftChild(c) <= size < |s|
    requires || (m == LeftChild(c) && !(m < size && s[m].priority > s[m + 1].priority))
             || (m == RightChild(c) && m - 1 < size && s[m - 1].priority > s[m].priority)
    ensures 2 <= m <= size && Parent(m) == c
    ensures forall k :: 2 <= k <= size && Parent(k) == c ==> s[m].priority <= s[k].priority
  {
    forall k | 2 <= k <= size && Parent(k) == c
      ensures s[m].priority <= s[k].priority
    {
      assert k == LeftChild(c) || k == RightChild(c);
    }
  }

  /** Lowering one priority of a heap-ordered array leaves only that slot
      out of order with its parent. */
  lemma DecreaseUpOrdered(s: seq<HeapNode>, size: int, i: int, p: int)
    requires HeapOrdered(s, size)
    requires 1 <= i <= size && p <= s[i].priority
    ensures UpOrdered(s[i := s[i].(priority := p)], size, i)
  {
    var t := s[i := s[i].(priority := p)];
    forall k | 2 <= k <= size && k != i
      ensures OrderedAt(t, k)
    {
      assert OrderedAt(s, k);
    }
    if 2 <= i {
      forall k | 2 <= k <= size
        ensures BoundsChild(t, Parent(i), i, k)
      {
        assert OrderedAt(s, i);
        if Parent(k) == i {
          assert OrderedAt(s, k);
        }
      }
    }
  }

  /** A new last element of a heap-ordered array is out of order at most
      with its parent. */
  lemma AppendUpOrdered(s: seq<HeapNode>, n: int, x: HeapNode)
    requires HeapOrdered(s, n) && 0 <= n && n + 1 < |s|
    ensures UpOrdered(s[n + 1 := x], n + 1, n + 1)
  {
    var t, last := s[n + 1 := x], n + 1;
    forall k | 2 <= k <= last && k != last
      ensures OrderedAt(t, k)
    {
      assert OrderedAt(s, k);
    }
    if 2 <= last {
      var p := Parent(last);
      forall k | 2 <= k <= last
        ensures BoundsChild(t, p, last, k)
      {
      }
    }
  }

  /** Moving the last element of a heap-ordered array to the root and
      dropping the last slot leaves only the root out of order. */
  lemma ShrinkDownOrdered(s: seq<HeapNode>, n: int)
    requires HeapOrdered(s, n) && 1 <= n
    ensures DownOrdered(SwapSeq(s, 1, n), n - 1, 1)
  {
    var t := SwapSeq(s, 1, n);
    forall k | 2 <= k <= n - 1
      ensures OrderedUnlessChildOf(t, 1, k)
    {
      if Parent(k) != 1 {
        assert OrderedAt(s, k);
      }
    }
  }

  /** Slot `k` holds an int priority and an id whose entry points back to `k`. */
  ghost predicate SlotIndexed(h: seq<HeapNode>, pa: seq<int>, k: int)
    requires 0 <= k < |h|
  {
    && Int32(h[k].priority)
    && 0 <= h[k].nodeId < |pa|
    && pa[h[k].nodeId] == k
  }

  /** The entry of id `v` is a filled slot holding `v`, or 0 (never inserted). */
  ghost predicate IdIndexed(h: seq<HeapNode>, pa: seq<int>, seeded: int, v: int)
    requires 0 <= v < |pa| && 0 <= seeded < |h|
  {
    && 0 <= pa[v] <= seeded
    && (pa[v] >= 1 ==> h[pa[v]].nodeId == v)
  }

  /** The position index of the heap slots `h`, as a predicate on values:
      the slots 1..seeded are filled and every id's entry is consistent. */
  ghost predicate Indexed(h: seq<HeapNode>, pa: seq<int>, seeded: int)
  {
    && |h| == |pa| + 1
    && 0 <= seeded < |h|
    && (forall k :: 1 <= k <= seeded ==> SlotIndexed(h, pa, k))
    && (forall v :: 0 <= v < |pa| ==> IdIndexed(h, pa, seeded, v))
  }

  /** The ids held in slots 1..size, with their priorities. */
  ghost function PrioritiesOf(h: seq<HeapNode>, pa: seq<int>, size: int): map<int, int>
  {
    map v | 0 <= v < |pa| && 1 <= pa[v] <= size && pa[v] < |h| :: h[pa[v]].priority
  }

  /** A filled slot inside the first `size` holds an int priority, and its id
      is present with that priority. */
  lemma SlotPresent(h: seq<HeapNode>, pa: seq<int>, seeded: int, size: int, k: int)
    requires Indexed(h, pa, seeded) && 1 <= k <= size <= seeded
    ensures Int32(h[k].priority)
    ensures h[k].nodeId in PrioritiesOf(h, pa, size)
    ensures PrioritiesOf(h, pa, size)[h[k].nodeId] == h[k].priority
  {
    assert SlotIndexed(h, pa, k);
  }

  /** Exchanging two present slots while recording both moved ids' new
      slots keeps the index consistent and every id's priority. */
  lemma SwapIndexed(h: seq<HeapNode>, pa: seq<int>, size: int, seeded: int, i: int, j: int)
    requires Indexed(h, pa, seeded)
    requires 1 <= i <= size && 1 <= j <= size && size <= seeded
    ensures 0 <= h[i].nodeId < |pa| && 0 <= h[j].nodeId < |pa|
    ensures Indexed(SwapSeq(h, i, j), pa[h[i].nodeId := j][h[j].nodeId := i], seeded)
    ensures PrioritiesOf(SwapSeq(h, i, j), pa[h[i].nodeId := j][h[j].nodeId := i], size)
         == PrioritiesOf(h, pa, size)
  {
    assert SlotIndexed(h, pa, i) && SlotIndexed(h, pa, j);
    var h' := SwapSeq(h, i, j);
    var pa' := pa[h[i].nodeId := j][h[j].nodeId := i];
    forall k | 1 <= k <= seeded ensures SlotIndexed(h', pa', k) {
      assert SlotIndexed(h, pa, k);
    }
    forall v | 0 <= v < |pa| ensures IdIndexed(h', pa', seeded, v) {
      assert IdIndexed(h, pa, seeded, v);
    }
    var p', p := PrioritiesOf(h', pa', size), PrioritiesOf(h, pa, size);
    forall v | v in p ensures v in p' && p'[v] == p[v] {
      assert IdIndexed(h, pa, seeded, v);
    }
    forall v | v in p' ensures v in p {
      assert IdIndexed(h, pa, seeded, v);
    }
    assert p' == p;
  }

  /** Changing the priority of a present id keeps the index and changes
      only that id's priority. */
  lemma SetPriorityIndexed(h: seq<HeapNode>, pa: seq<int>, size: int, seeded: int, v: int, p: int)
    requires Indexed(h, pa, seeded) && size <= seeded
    requires v in PrioritiesOf(h, pa, size) && Int32(p)
    ensures 1 <= pa[v] <= size && h[pa[v]].nodeId == v
    ensures PrioritiesOf(h, pa, size)[v] == h[pa[v]].priority
    ensures Indexed(h[pa[v] := h[pa[v]].(priority := p)], pa, seeded)
    ensures PrioritiesOf(h[pa[v] := h[pa[v]].(priority := p)], pa, size) == PrioritiesOf(h, pa, size)[v := p]
  {
    assert IdIndexed(h, pa, seeded, v);
    var i := pa[v];
    var h' := h[i := h[i].(priority := p)];
    forall k | 1 <= k <= seeded ensures SlotIndexed(h', pa, k) {
      assert SlotIndexed(h, pa, k);
    }
    forall w | 0 <= w < |pa| ensures IdIndexed(h', pa, seeded, w) {
      assert IdIndexed(h, pa, seeded, w);
    }
    var p', p0 := PrioritiesOf(h', pa, size), PrioritiesOf(h, pa, size);
    assert p'.Keys == p0.Keys;
    forall w | w in p' ensures p'[w] == p0[v := p][w] {
      assert IdIndexed(h, pa, seeded, w);
    }
    assert p' == p0[v := p];
  }

  /** Filling the next free slot with an id not present extends the index
      and adds exactly that id. */
  lemma AppendIndexed(h: seq<HeapNode>, pa: seq<int>, n: int, v: int, p: int)
    requires Indexed(h, pa, n) && n + 1 < |h|
    requires 0 <= v < |pa| && v !in PrioritiesOf(h, pa, n) && Int32(p)
    ensures Indexed(h[n + 1 := HeapNode(v, p)], pa[v := n + 1], n + 1)
    ensures PrioritiesOf(h[n + 1 := HeapNode(v, p)], pa[v := n + 1], n + 1) == PrioritiesOf(h, pa, n)[v := p]
  {
    assert IdIndexed(h, pa, n, v);
    var last := n + 1;
    var h', pa' := h[last := HeapNode(v, p)], pa[v := last];
    forall k | 1 <= k <= last ensures SlotIndexed(h', pa', k) {
      if k <= n {
        assert SlotIndexed(h, pa, k);
      }
    }
    forall w | 0 <= w < |pa| ensures IdIndexed(h', pa', last, w) {
      assert IdIndexed(h, pa, n, w);
    }
    var q', q := PrioritiesOf(h', pa', last), PrioritiesOf(h, pa, n);
    forall w | w in q' ensures w in q[v := p] && q'[w] == q[v := p][w] {
      assert IdIndexed(h, pa, n, w);
    }
    forall w | w in q ensures w in q' {
      assert IdIndexed(h, pa, n, w);
    }
    assert q'.Keys == q.Keys + {v};
    assert q' == q[v := p];
  }

  /** Dropping the last slot removes exactly the id it holds. */
  lemma ShrinkPriorities(h: seq<HeapNode>, pa: seq<int>, seeded: int, n: int)
    requires Indexed(h, pa, seeded) && 1 <= n <= seeded
    ensures PrioritiesOf(h, pa, n - 1) == PrioritiesOf(h, pa, n) - {h[n].nodeId}
  {
    assert SlotIndexed(h, pa, n);
    var q', q := PrioritiesOf(h, pa, n - 1), PrioritiesOf(h, pa, n);
    forall w | w in q ensures w in q' <==> w != h[n].nodeId {
      assert IdIndexed(h, pa, seeded, w);
    }
    assert q'.Keys == q.Keys - {h[n].nodeId};
  }

  /** Removing the root of a heap-ordered, indexed array (exchanging it
      with the last slot, then dropping that slot) takes out a present id of
      smallest priority, and only that id. */
  lemma RemoveRoot(h: seq<HeapNode>, pa: seq<int>, seeded: int, n: int)
    requires Indexed(h, pa, seeded) && HeapOrdered(h, n) && 1 <= n <= seeded
    ensures h[1].nodeId in PrioritiesOf(h, pa, n)
    ensures forall v :: v in PrioritiesOf(h, pa, n) ==> PrioritiesOf(h, pa, n)[h[1].nodeId] <= PrioritiesOf(h, pa, n)[v]
    ensures 0 <= h[1].nodeId < |pa| && 0 <= h[n].nodeId < |pa|
    ensures DownOrdered(SwapSeq(h, 1, n), n - 1, 1)
    ensures PrioritiesOf(SwapSeq(h, 1, n), pa[h[1].nodeId := n][h[n].nodeId := 1], n - 1)
         == PrioritiesOf(h, pa, n) - {h[1].nodeId}
  {
    var q := PrioritiesOf(h, pa, n);
    SlotPresent(h, pa, seeded, n, 1);
    forall v | v in q ensures h[1].priority <= q[v] {
      RootIsMin(h, n, pa[v]);
    }
    ShrinkDownOrdered(h, n);
    SwapIndexed(h, pa, n, seeded, 1, n);
    var h', pa' := SwapSeq(h, 1, n), pa[h[1].nodeId := n][h[n].nodeId := 1];
    ShrinkPriorities(h', pa', seeded, n);
  }

  /** reduceKey as the original writes it: the id's slot gets the new
      priority, and nothing moves. The priorities change as they should;
      the order of the heap is what it loses. */
  function ReduceKeyAsWritten(h: seq<HeapNode>, pa: seq<int>, seeded: int, size: int,
                              nodeId: int, newPriority: int): (r: seq<HeapNode>)
    requires Indexed(h, pa, seeded) && size <= seeded
    requires nodeId in PrioritiesOf(h, pa, size) && Int32(newPriority)
    ensures Indexed(r, pa, seeded)
    ensures PrioritiesOf(r, pa, size) == PrioritiesOf(h, pa, size)[nodeId := newPriority]
  {
    SetPriorityIndexed(h, pa, size, seeded, nodeId, newPriority);
    h[pa[nodeId] := h[pa[nodeId]].(priority := newPriority)]
  }

  /** Without the bubble-up, lowering a key below its parent's leaves a heap
      whose root is no longer a smallest priority: in an ordered two-element
      heap holding ids 0 and 1, both at MAX_VALUE, lowering id 1 (slot 2) to
      5 keeps id 0 at the root, so the next removeMin would return id 0 at
      MAX_VALUE instead of id 1 at 5. */
  lemma ReduceKeyWithoutPushUp()
    ensures var h := [HeapNode(-1, MIN_VALUE), HeapNode(0, MAX_VALUE), HeapNode(1, MAX_VALUE)];
            var pa := [1, 2];
            && Indexed(h, pa, 2) && HeapOrdered(h, 2) && 1 in PrioritiesOf(h, pa, 2)
            && var r := ReduceKeyAsWritten(h, pa, 2, 2, 1, 5);
            && PrioritiesOf(r, pa, 2) == map[0 := MAX_VALUE, 1 := 5]
            && !HeapOrdered(r, 2)
            && PrioritiesOf(r, pa, 2)[r[1].nodeId] > PrioritiesOf(r, pa, 2)[1]
  {
    var h := [HeapNode(-1, MIN_VALUE), HeapNode(0, MAX_VALUE), HeapNode(1, MAX_VALUE)];
    var pa := [1, 2];
    assert SlotIndexed(h, pa, 1) && SlotIndexed(h, pa, 2);
    assert IdIndexed(h, pa, 2, 0) && IdIndexed(h, pa, 2, 1);
    assert Indexed(h, pa, 2);
    assert OrderedAt(h, 2);
    assert pa[1] == 2 && 1 in PrioritiesOf(h, pa, 2);
    var r := ReduceKeyAsWritten(h, pa, 2, 2, 1, 5);
    assert r == [HeapNode(-1, MIN_VALUE), HeapNode(0, MAX_VALUE), HeapNode(1, 5)];
    var q := PrioritiesOf(r, pa, 2);
    assert q.Keys == {0, 1};
    assert q == map[0 := MAX_VALUE, 1 := 5];
    assert !OrderedAt(r, 2);
  }

  /** The priorities the heap is seeded with: `first` at 0, all others at
      MAX_VALUE. */
  function SeedPriority(v: int, first: int): int
  {
    if v == first then 0 else MAX_VALUE
  }

  ghost function Seeds(count: int, first: int): map<int, int>
  {
    map v | 0 <= v < count :: SeedPriority(v, first)
  }

  lemma SeedsStep(i: int, first: int)
    requires 0 <= i
    ensures Seeds(i + 1, first) == Seeds(i, first)[i := SeedPriority(i, first)]
  {
    var a, b := Seeds(i + 1, first), Seeds(i, first)[i := SeedPriority(i, first)];
    assert a.Keys == b.Keys;
  }

  class MinHeap {
    const heap: array<HeapNode>
    const positionArr: array<int>
    const maxsize: nat
    var size: nat
    /** Slots 1..seeded have been filled by insert; slots size+1..seeded
        hold the elements already removed. */
    ghost var seeded: nat

    /** The array shapes, the sentinel in slot 0 and the position index. */
    ghost predicate Consistent()
      reads this, heap, positionArr
    {
      && heap.Length == maxsize + 1
      && positionArr.Length == maxsize
      && heap[0].priority == MIN_VALUE
      && size <= seeded <= maxsize
      && Indexed(heap[..], positionArr[..], seeded)
    }

    ghost predicate Valid()
      reads this, heap, positionArr
    {
      Consistent() && HeapOrdered(heap[..], size)
    }

    /** The ids currently in the heap (slots 1..size), with their priorities. */
    ghost function Priorities(): map<int, int>
      reads this, heap, positionArr
    {
      PrioritiesOf(heap[..], positionArr[..], size)
    }

    /** Seeds the heap with every id 0..max-1: `first` at priority 0, the
        others at MAX_VALUE. */
    constructor (max: nat, first: int)
      ensures Valid()
      ensures maxsize == max && size == max
      ensures Priorities() == Seeds(max, first)
      ensures fresh(heap) && fresh(positionArr)
    {
      maxsize := max;
      heap := new HeapNode[max + 1](_ => HeapNode(-1, MIN_VALUE));
      positionArr := new int[max](_ => 0);
      size := 0;
      seeded := 0;
      new;
      assert forall v :: 0 <= v < max ==> IdIndexed(heap[..], positionArr[..], 0, v);
      assert Priorities() == map[];
      var i := 0;
      while i < max
        invariant 0 <= i <= max
        invariant Valid()
        invariant size == seeded == i
        invariant Priorities() == Seeds(i, first)
      {
        Insert(i, SeedPriority(i, first));
        assert Seeds(i + 1, first) == Seeds(i, first)[i := SeedPriority(i, first)] by {
          SeedsStep(i, first);
        }
        i := i + 1;
      }
    }

    /** Exchanges two slots and records the new slot of both moved ids; no
        other slot and no other id's position changes. */
    method Swap(pos1: int, pos2: int)
      requires Consistent()
      requires 1 <= pos1 <= size && 1 <= pos2 <= size
      modifies heap, positionArr
      ensures Consistent()
      ensures heap[..] == SwapSeq(old(heap[..]), pos1, pos2)
      ensures 0 <= old(heap[pos1].nodeId) < positionArr.Length && 0 <= old(heap[pos2].nodeId) < positionArr.Length
      ensures positionArr[..] ==
        old(positionArr[..])[old(heap[pos1].nodeId) := pos2][old(heap[pos2].nodeId) := pos1]
      ensures Priorities() == old(Priorities())
    {
      SwapIndexed(heap[..], positionArr[..], size, seeded, pos1, pos2);
      var id1 := heap[pos1].nodeId;
      var id2 := heap[pos2].nodeId;
      positionArr[id1] := pos2;
      positionArr[id2] := pos1;
      var tmp := heap[pos1];
      heap[pos1] := heap[pos2];
      heap[pos2] := tmp;
      assert heap[..] == SwapSeq(old(heap[..]), pos1, pos2);
    }

    /** Adds an id that is not in the heap. Used only while seeding, when
        no element has been removed yet. */
    method Insert(nodeId: int, priority: int)
      requires Valid()
      requires size == seeded < maxsize
      requires 0 <= nodeId < maxsize && nodeId !in Priorities()
      requires Int32(priority)
      modifies this, heap, positionArr
      ensures Valid()
      ensures size == old(size) + 1 && seeded == old(seeded) + 1
      ensures Priorities() == old(Priorities())[nodeId := priority]
    {
      assert
        && Indexed(heap[..][size + 1 := HeapNode(nodeId, priority)], positionArr[..][nodeId := size + 1], size + 1)
        && PrioritiesOf(heap[..][size + 1 := HeapNode(nodeId, priority)], positionArr[..][nodeId := size + 1], size + 1)
           == Priorities()[nodeId := priority]
        && UpOrdered(heap[..][size + 1 := HeapNode(nodeId, priority)], size + 1, size + 1)
      by {
        AppendIndexed(heap[..], positionArr[..], size, nodeId, priority);
        AppendUpOrdered(heap[..], size, HeapNode(nodeId, priority));
      }
      size := size + 1;
      seeded := seeded + 1;
      heap[size] := HeapNode(nodeId, priority);
      positionArr[nodeId] := size;
      assert heap[..] == old(heap[..])[size := HeapNode(nodeId, priority)];
      assert positionArr[..] == old(positionArr[..])[nodeId := size];
      PushUp(size);
    }

    /** Removes and returns the id at the root, which has the smallest
        priority present; the last element takes its place and is pushed
        down. */
    method RemoveMin() returns (minId: int)
      requires Valid()
      requires size > 0
      modifies this, heap, positionArr
      ensures Valid()
      ensures size == old(size) - 1 && seeded == old(seeded)
      ensures minId in old(Priorities())
      ensures forall v :: v in old(Priorities()) ==> old(Priorities())[minId] <= old(Priorities())[v]
      ensures Priorities() == old(Priorities()) - {minId}
    {
      ghost var p0, root := Priorities(), heap[1];
      assert
        && root.nodeId in p0
        && (forall v :: v in p0 ==> p0[root.nodeId] <= p0[v])
        && DownOrdered(SwapSeq(heap[..], 1, size), size - 1, 1)
        && PrioritiesOf(SwapSeq(heap[..], 1, size), positionArr[..][root.nodeId := size][heap[size].nodeId := 1], size - 1)
           == p0 - {root.nodeId}
      by {
        RemoveRoot(heap[..], positionArr[..], seeded, size);
      }
      Swap(1, size);
      size := size - 1;
      if size != 0 {
        PushDown(1);
      }
      assert heap[size + 1] == root;
      minId := heap[size + 1].nodeId;
    }

    /** The child of an inner slot that a push-down compares against: the
        left child, unless the right child exists and is strictly smaller. */
    function SmallestChild(pos: int): (m: int)
      reads this, heap
      requires 1 <= pos && LeftChild(pos) <= size < heap.Length
      ensures 2 <= m <= size && Parent(m) == pos
      ensures forall k :: 2 <= k <= size && Parent(k) == pos ==> heap[m].priority <= heap[k].priority
      ensures m == RightChild(pos) <==>
        LeftChild(pos) < size && heap[LeftChild(pos)].priority > heap[RightChild(pos)].priority
    {
      var l := LeftChild(pos);
      if l < size && heap[l].priority > heap[l + 1].priority then
        SmallerChild(heap[..], size, pos, l + 1);
        l + 1
      else
        SmallerChild(heap[..], size, pos, l);
        l
    }

    /** Moves the element at `position` down, each time swapping it with the
        smaller child (the left one on a tie), until it is no larger than
        that child or is a leaf. */
    method PushDown(position: int)
      requires Consistent()
      requires 1 <= position <= size
      requires DownOrdered(heap[..], size, position)
      modifies heap, positionArr
      ensures Valid()
      ensures Priorities() == old(Priorities())
      ensures size < maxsize ==> heap[size + 1] == old(heap[size + 1])
    {
      var pos := position;
      while !IsLeaf(pos, size)
        invariant 1 <= pos <= size
        invariant Consistent()
        invariant DownOrdered(heap[..], size, pos)
        invariant Priorities() == old(Priorities())
        invariant size < maxsize ==> heap[size + 1] == old(heap[size + 1])
        decreases size - pos
      {
        var smallestChild := SmallestChild(pos);
        if heap[pos].priority <= heap[smallestChild].priority {
          assert HeapOrdered(heap[..], size) by { DownDone(heap[..], size, pos); }
          return;
        }
        assert DownOrdered(SwapSeq(heap[..], pos, smallestChild), size, smallestChild) by {
          DownStep(heap[..], size, pos, smallestChild);
        }
        Swap(pos, smallestChild);
        pos := smallestChild;
      }
      assert HeapOrdered(heap[..], size) by { DownDone(heap[..], size, pos); }
    }

    /** Lowers the priority of a present id and bubbles it up. */
    method ReduceKey(nodeId: int, newPriority: int)
      requires Valid()
      requires nodeId in Priorities()
      requires Int32(newPriority) && newPriority <= Priorities()[nodeId]
      modifies heap, positionArr
      ensures Valid()
      ensures Priorities() == old(Priorities())[nodeId := newPriority]
    {
      var indexInHeap := positionArr[nodeId];
      assert
        && 1 <= indexInHeap <= size
        && newPriority <= heap[indexInHeap].priority
        && Indexed(heap[..][indexInHeap := heap[indexInHeap].(priority := newPriority)], positionArr[..], seeded)
        && PrioritiesOf(heap[..][indexInHeap := heap[indexInHeap].(priority := newPriority)], positionArr[..], size)
           == Priorities()[nodeId := newPriority]
      by {
        SetPriorityIndexed(heap[..], positionArr[..], size, seeded, nodeId, newPriority);
      }
      assert UpOrdered(heap[..][indexInHeap := heap[indexInHeap].(priority := newPriority)], size, indexInHeap) by {
        DecreaseUpOrdered(heap[..], size, indexInHeap, newPriority);
      }
      heap[indexInHeap] := heap[indexInHeap].(priority := newPriority);
      assert heap[..] == old(heap[..])[indexInHeap := old(heap[indexInHeap]).(priority := newPriority)];
      PushUp(indexInHeap);
    }

    /** Moves the element at `position` up while it is smaller than its
        parent. The sentinel in slot 0 stops the loop at the root. */
    method PushUp(position: int)
      requires Consistent()
      requires 1 <= position <= size
      requires UpOrdered(heap[..], size, position)
      modifies heap, positionArr
      ensures Valid()
      ensures Priorities() == old(Priorities())
    {
      var smallestChildIdx := position;
      var parentIdx := Parent(position);
      while heap[smallestChildIdx].priority < heap[parentIdx].priority
        invariant 1 <= smallestChildIdx <= size
        invariant parentIdx == Parent(smallestChildIdx)
        invariant Consistent()
        invariant UpOrdered(heap[..], size, smallestChildIdx)
        invariant Priorities() == old(Priorities())
        decreases smallestChildIdx
      {
        assert Int32(heap[smallestChildIdx].priority) by {
          SlotPresent(heap[..], positionArr[..], seeded, size, smallestChildIdx);
        }
        assert UpOrdered(SwapSeq(heap[..], smallestChildIdx, parentIdx), size, parentIdx) by {
          UpStep(heap[..], size, smallestChildIdx);
        }
        Swap(smallestChildIdx, parentIdx);
        smallestChildIdx := parentIdx;
        parentIdx := Parent(smallestChildIdx);
      }
      assert HeapOrdered(heap[..], size) by { UpDone(heap[..], size, smallestChildIdx); }
    }
  }
}
