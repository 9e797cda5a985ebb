/** A stand-in for the disjoint-set structure Kruskal's algorithm uses. Only
    its contract is modelled: every element 0..n-1 belongs to exactly one
    set, named by a representative element; find returns that
    representative, and union merges two sets into one. The representation
    (one representative per element) is the model's, not the original's. */
module DisjointSets {

  /** Element i's representative is in range and represents itself. */
  ghost predicate RootAt(rep: seq<int>, i: int)
    requires 0 <= i < |rep|
  {
    0 <= rep[i] < |rep| && rep[rep[i]] == rep[i]
  }

  ghost predicate Partition(rep: seq<int>)
  {
    forall i :: 0 <= i < |rep| ==> RootAt(rep, i)
  }

  /** The partition into n singletons. */
  function Singletons(n: nat): (r: seq<int>)
    ensures |r| == n && forall i :: 0 <= i < n ==> r[i] == i
  {
    seq(n, i => i)
  }

  lemma SingletonsPartition(n: nat)
    ensures Partition(Singletons(n))
  {
    var r := Singletons(n);
    forall i | 0 <= i < n ensures RootAt(r, i) {
    }
  }

  /** The partition after merging the set of y into the set of x: every
      element of y's set takes x's representative. */
  function Merge(rep: seq<int>, x: int, y: int): (r: seq<int>)
    requires Partition(rep) && 0 <= x < |rep| && 0 <= y < |rep|
    ensures |r| == |rep|
    ensures Partition(r)
  {
    var r := seq(|rep|, i requires 0 <= i < |rep| => if rep[i] == rep[y] then rep[x] else rep[i]);
    assert Partition(r) by {
      forall i | 0 <= i < |rep| ensures RootAt(r, i) {
        assert RootAt(rep, i) && RootAt(rep, x);
      }
    }
    r
  }

  /** After a merge, two elements share a set exactly when they did before,
      or one was with x and the other with y. */
  lemma MergeSame(rep: seq<int>, x: int, y: int, a: int, b: int)
    requires Partition(rep) && 0 <= x < |rep| && 0 <= y < |rep|
    requires 0 <= a < |rep| && 0 <= b < |rep|
    ensures Merge(rep, x, y)[a] == Merge(rep, x, y)[b] <==>
      || rep[a] == rep[b]
      || (rep[a] == rep[x] && rep[b] == rep[y])
      || (rep[a] == rep[y] && rep[b] == rep[x])
  {
    assert RootAt(rep, a) && RootAt(rep, b) && RootAt(rep, x) && RootAt(rep, y);
  }

  /** The number of sets among the elements 0..k-1: the elements that
      represent themselves. */
  function RootCount(rep: seq<int>, k: nat): nat
    requires k <= |rep|
  {
    if k == 0 then 0 else RootCount(rep, k - 1) + (if rep[k - 1] == k - 1 then 1 else 0)
  }

  /** n singletons are n sets. */
  lemma {:induction false} SingletonsCount(n: nat, k: nat)
    requires k <= n
    ensures RootCount(Singletons(n), k) == k
  {
    if k > 0 {
      SingletonsCount(n, k - 1);
    }
  }

  /** Merging two different sets leaves exactly one set fewer. */
  lemma MergeCount(rep: seq<int>, x: int, y: int)
    requires Partition(rep) && 0 <= x < |rep| && 0 <= y < |rep| && rep[x] != rep[y]
    ensures RootCount(Merge(rep, x, y), |rep|) == RootCount(rep, |rep|) - 1
  {
    assert RootAt(rep, y);
    MergeCountUpTo(rep, x, y, |rep|);
  }

  lemma {:induction false} MergeCountUpTo(rep: seq<int>, x: int, y: int, k: nat)
    requires Partition(rep) && 0 <= x < |rep| && 0 <= y < |rep| && rep[x] != rep[y]
    requires k <= |rep|
    ensures RootCount(Merge(rep, x, y), k) == RootCount(rep, k) - (if rep[y] < k then 1 else 0)
  {
    assert RootAt(rep, y);
    if k > 0 {
      MergeCountUpTo(rep, x, y, k - 1);
      var i := k - 1;
      var m := Merge(rep, x, y);
      assert RootAt(rep, i) && RootAt(rep, x) && RootAt(rep, y);
      assert m[i] == (if rep[i] == rep[y] then rep[x] else rep[i]);
      assert RootCount(m, k) == RootCount(m, i) + (if m[i] == i then 1 else 0);
      assert RootCount(rep, k) == RootCount(rep, i) + (if rep[i] == i then 1 else 0);
      if i == rep[y] {
        assert rep[i] == i && m[i] != i;
      } else {
        assert (m[i] == i) == (rep[i] == i);
      }
    }
  }

  class DisjointSets {
    /** The representative of every element. */
    var rep: seq<int>

    ghost predicate Valid()
      reads this
    {
      Partition(rep)
    }

    /** No elements yet. */
    constructor ()
      ensures Valid() && rep == []
    {
      rep := [];
    }

    /** Makes the elements 0..n-1, each in a set of its own. */
    method CreateSets(n: nat)
      modifies this
      ensures Valid() && rep == Singletons(n)
    {
      rep := [];
      var i := 0;
      while i < n
        invariant 0 <= i <= n && rep == Singletons(i)
      {
        rep := rep + [i];
        i := i + 1;
      }
      SingletonsPartition(n);
    }

    /** The representative of x's set: an element of that set which
        represents itself, and shared by exactly the elements of the set. */
    function Find(x: int): (r: int)
      reads this
      requires Valid() && 0 <= x < |rep|
      ensures 0 <= r < |rep| && rep[r] == r
      ensures forall y :: 0 <= y < |rep| ==> (rep[y] == r <==> rep[y] == rep[x])
    {
      assert RootAt(rep, x);
      rep[x]
    }

    /** Merges the sets of x and y: afterwards x and y have one
        representative, and two elements share a set exactly when they did
        before or one was with x and the other with y. */
    method Union(x: int, y: int)
      requires Valid() && 0 <= x < |rep| && 0 <= y < |rep|
      modifies this
      ensures Valid() && rep == Merge(old(rep), x, y)
      ensures |rep| == |old(rep)| && Find(x) == Find(y)
      ensures forall a, b :: 0 <= a < |rep| && 0 <= b < |rep| ==>
        (Find(a) == Find(b) <==>
          || old(rep)[a] == old(rep)[b]
          || (old(rep)[a] == old(rep)[x] && old(rep)[b] == old(rep)[y])
          || (old(rep)[a] == old(rep)[y] && old(rep)[b] == old(rep)[x]))
    {
      ghost var before := rep;
      rep := Merge(rep, x, y);
      forall a, b | 0 <= a < |rep| && 0 <= b < |rep|
        ensures Find(a) == Find(b) <==>
          || before[a] == before[b]
          || (before[a] == before[x] && before[b] == before[y])
          || (before[a] == before[y] && before[b] == before[x])
      {
        MergeSame(before, x, y, a, b);
      }
      MergeSame(before, x, y, x, y);
    }
  }
}
