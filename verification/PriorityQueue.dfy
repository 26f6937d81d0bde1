/**
The binary min-heap behind the TTL map. The queue is an array of shared items, each of which
records its own position, so that an item can be removed or re-prioritised in place.
The sifting procedures are those of Go's container/heap, driven by this queue's own
Less, Swap, Push and Pop.
*/
module PriorityQueues {

  class PQItem<V> {
    var Value: V
    var Priority: int
    var index: int

    constructor (value: V, priority: int)
      ensures Value == value && Priority == priority
    {
      Value, Priority, index := value, priority, 0;
    }
  }

  /** The heap parent. Go's division truncates, so the root is its own parent. */
  function Parent(k: nat): (p: nat)
    ensures p <= k && (k > 0 ==> p < k)
  {
    if k == 0 then 0 else (k - 1) / 2
  }

  lemma Children(k: nat, j: nat)
    ensures j > 0 && Parent(j) == k <==> j == 2 * k + 1 || j == 2 * k + 2
  {}

  ghost predicate Ordered(p: seq<int>, k: nat)
    requires k < |p|
  {
    p[Parent(k)] <= p[k]
  }

  /** The first `n` priorities are in min-heap order. */
  ghost predicate IsHeap(p: seq<int>, n: nat)
    requires n <= |p|
  {
    forall k: nat :: k < n ==> Ordered(p, k)
  }

  /** Heap order, but the item at `j` may be smaller than its parent. */
  ghost predicate HeapAbove(p: seq<int>, n: nat, j: nat)
    requires j < n <= |p|
  {
    && (forall k: nat :: k < n && k != j ==> Ordered(p, k))
    && (j > 0 ==> forall k: nat :: k < n && Parent(k) == j ==> p[Parent(j)] <= p[k])
  }

  /** Heap order, but the item at `i` may be larger than its children, and the item at `i0` smaller than its parent. */
  ghost predicate HeapBelow(p: seq<int>, n: nat, i: nat, i0: nat)
    requires i < n <= |p|
  {
    && (forall k: nat :: k < n && k != i0 && Parent(k) != i ==> Ordered(p, k))
    && (i > 0 ==> forall k: nat :: k < n && Parent(k) == i ==> p[Parent(i)] <= p[k])
  }

  lemma {:induction false} RootIsMinimum(p: seq<int>, n: nat, k: nat)
    requires k < n <= |p| && IsHeap(p, n)
    ensures p[0] <= p[k]
  {
    if k > 0 {
      assert Ordered(p, k);
      RootIsMinimum(p, n, Parent(k));
    }
  }

  function Swapped<T>(s: seq<T>, i: nat, j: nat): seq<T>
    requires i < |s| && j < |s|
  {
    s[i := s[j]][j := s[i]]
  }

  /** One turn of the sift-up loop. */
  lemma UpTurn(p: seq<int>, n: nat, j: nat)
    requires 0 < j < n <= |p| && HeapAbove(p, n, j) && p[j] < p[Parent(j)]
    ensures HeapAbove(Swapped(p, Parent(j), j), n, Parent(j))
  {
    var i := Parent(j);
    var q := Swapped(p, i, j);
    assert Ordered(p, i);
    forall k: nat | k < n && k != i ensures Ordered(q, k) {
      assert k != j ==> Ordered(p, k);
    }
    forall k: nat | i > 0 && k < n && Parent(k) == i ensures q[Parent(i)] <= q[k] {
      assert k != j ==> Ordered(p, k);
    }
  }

  /** `j` is the child of `i` that the sift-down loop compares with `i`. */
  ghost predicate SmallerChild(p: seq<int>, n: nat, i: nat, j: nat)
    requires n <= |p|
  {
    && j < n && (j == 2 * i + 1 || j == 2 * i + 2)
    && (2 * i + 2 < n ==> p[j] <= p[2 * i + 1] && p[j] <= p[2 * i + 2])
  }

  /** One turn of the sift-down loop. */
  lemma DownTurn(p: seq<int>, n: nat, i: nat, j: nat, i0: nat)
    requires n <= |p| && i0 <= i && SmallerChild(p, n, i, j)
    requires HeapBelow(p, n, i, i0) && p[j] < p[i]
    requires i > i0 ==> Ordered(p, i0)
    ensures HeapBelow(Swapped(p, i, j), n, j, i0)
    ensures Ordered(Swapped(p, i, j), i0)
  {
    var q := Swapped(p, i, j);
    forall k: nat | k < n && k != i0 && Parent(k) != j ensures Ordered(q, k) {
      Children(i, k);
      if Parent(k) != i {
        assert Ordered(p, k);
      }
    }
    forall k: nat | k < n && Parent(k) == j ensures q[Parent(j)] <= q[k] {
      assert Ordered(p, k);
    }
    Children(i, i0);
  }

  /** The sift-down loop stops where the hole is no larger than its children. */
  lemma DownDone(p: seq<int>, n: nat, i: nat, j: nat, i0: nat)
    requires i0 <= i < n <= |p| && HeapBelow(p, n, i, i0)
    requires 2 * i + 1 < n ==> SmallerChild(p, n, i, j) && p[i] <= p[j]
    requires i > i0 ==> Ordered(p, i0)
    ensures if i > i0 then IsHeap(p, n) else HeapAbove(p, n, i0)
  {
    forall k: nat | k < n && k != i0 ensures Ordered(p, k) {
      Children(i, k);
    }
  }

  /** Appending leaves only the new leaf to sift up. */
  lemma Appended(p: seq<int>, x: int)
    requires IsHeap(p, |p|)
    ensures HeapAbove(p + [x], |p| + 1, |p|)
  {
    forall k: nat | k < |p| ensures Ordered(p + [x], k) {
      assert Ordered(p, k);
    }
  }

  /** Moving the last item into slot `i` leaves only slot `i` out of order. */
  lemma LastMovedIn(p: seq<int>, n: nat, i: nat)
    requires i < n < |p| && IsHeap(p, n + 1)
    ensures HeapBelow(Swapped(p, i, n), n, i, i)
  {
    var q := Swapped(p, i, n);
    assert Ordered(p, i);
    forall k: nat | k < n && k != i && Parent(k) != i ensures Ordered(q, k) {
      assert Ordered(p, k);
    }
    forall k: nat | i > 0 && k < n && Parent(k) == i ensures q[Parent(i)] <= q[k] {
      assert Ordered(p, k);
    }
  }

  lemma Shortened(p: seq<int>, n: nat)
    requires n <= |p| && IsHeap(p, n)
    ensures IsHeap(p[..n], n)
  {
    forall k: nat | k < n ensures Ordered(p[..n], k) {
      assert Ordered(p, k);
    }
  }

  class PriorityQueue<V> {
    var impl: seq<PQItem<V>>

    constructor ()
      ensures Valid() && impl == []
    {
      impl := [];
    }

    /** Every item sits where it says it sits; in particular no item occurs twice. */
    ghost predicate Indexed()
      reads this, impl
    {
      forall i :: 0 <= i < |impl| ==> impl[i].index == i
    }

    ghost function Priorities(): (p: seq<int>)
      reads this, impl
      ensures |p| == |impl| && forall i :: 0 <= i < |p| ==> p[i] == impl[i].Priority
    {
      seq(|impl|, i requires 0 <= i < |impl| reads this, impl => impl[i].Priority)
    }

    ghost predicate Valid()
      reads this, impl
    {
      Indexed() && IsHeap(Priorities(), |impl|)
    }

    ghost function Items(): set<PQItem<V>>
      reads this
    {
      set e | e in impl
    }

    function Less(i: nat, j: nat): bool
      requires i < |impl| && j < |impl|
      reads this, impl
    {
      impl[i].Priority < impl[j].Priority
    }

    /** The left child, unless there is a right child of smaller priority. */
    function ChildToCompare(i: nat, n: nat): (j: nat)
      requires 2 * i + 1 < n <= |impl|
      reads this, impl
      ensures SmallerChild(Priorities(), n, i, j)
    {
      var j1, j2 := 2 * i + 1, 2 * i + 2;
      if j2 < n && Less(j2, j1) then j2 else j1
    }

    method Swap(i: nat, j: nat)
      requires Indexed() && i < |impl| && j < |impl|
      modifies this`impl, Items()`index
      ensures Indexed() && impl == Swapped(old(impl), i, j)
      ensures Items() == old(Items()) && Priorities() == Swapped(old(Priorities()), i, j)
    {
      ghost var was := impl;
      impl := Swapped(impl, i, j);
      impl[i].index := i;
      impl[j].index := j;
      forall e | e in was ensures e in impl {
        var k :| 0 <= k < |was| && was[k] == e;
        assert impl[if k == i then j else if k == j then i else k] == e;
      }
    }

    /** Sift up among the first `n` slots, when only the item at `start` may be below its parent. */
    method Up(start: nat, ghost n: nat)
      requires Indexed() && start < n <= |impl| && HeapAbove(Priorities(), n, start)
      modifies this`impl, Items()`index
      ensures Indexed() && Items() == old(Items()) && |impl| == old(|impl|)
      ensures impl[n..] == old(impl[n..]) && IsHeap(Priorities(), n)
    {
      var j: nat := start;
      while true
        invariant Indexed() && j < n <= |impl| == old(|impl|) && Items() == old(Items())
        invariant impl[n..] == old(impl[n..]) && HeapAbove(Priorities(), n, j)
        decreases j
      {
        var i := Parent(j);
        if i == j || !Less(j, i) { break; }
        UpTurn(Priorities(), n, j);
        Swap(i, j);
        j := i;
      }
    }

    /** Sift down within the first `n` slots; reports whether anything moved. */
    method Down(i0: nat, n: nat) returns (moved: bool)
      requires Indexed() && i0 < n <= |impl| && HeapBelow(Priorities(), n, i0, i0)
      modifies this`impl, Items()`index
      ensures Indexed() && Items() == old(Items()) && |impl| == old(|impl|)
      ensures impl[n..] == old(impl[n..])
      ensures if moved then IsHeap(Priorities(), n) else HeapAbove(Priorities(), n, i0)
    {
      var i: nat := i0;
      while true
        invariant Indexed() && i0 <= i < n <= |impl| == old(|impl|) && Items() == old(Items())
        invariant impl[n..] == old(impl[n..]) && HeapBelow(Priorities(), n, i, i0)
        invariant i > i0 ==> Ordered(Priorities(), i0)
        decreases n - i
      {
        var j1 := 2 * i + 1;
        if j1 >= n {
          DownDone(Priorities(), n, i, 0, i0);
          break;
        }
        var j := ChildToCompare(i, n);
        if !Less(j, i) {
          DownDone(Priorities(), n, i, j, i0);
          break;
        }
        DownTurn(Priorities(), n, i, j, i0);
        Swap(i, j);
        i := j;
      }
      moved := i > i0;
    }

    /** pqImpl.Pop: drops the last slot and marks its item as being in no heap. */
    method PopLast() returns (item: PQItem<V>)
      requires Indexed() && |impl| > 0 && IsHeap(Priorities(), |impl| - 1)
      modifies this`impl, Items()`index
      ensures Valid() && item == old(impl[|impl| - 1]) && item.index == -1
      ensures impl == old(impl[..|impl| - 1]) && Items() == old(Items()) - {item}
    {
      var n := |impl|;
      item := impl[n - 1];
      Shortened(Priorities(), n - 1);
      assert impl == impl[..n - 1] + [item];
      item.index := -1;
      impl := impl[..n - 1];
      assert Priorities() == old(Priorities())[..n - 1];
    }

    method Push(el: PQItem<V>)
      requires Valid() && el !in impl
      modifies this`impl, Items()`index, el`index
      ensures Valid()
      ensures Items() == old(Items()) + {el} && |impl| == old(|impl|) + 1
    {
      Appended(Priorities(), el.Priority);
      el.index := |impl|;
      impl := impl + [el];
      assert Priorities() == old(Priorities()) + [el.Priority];
      Up(|impl| - 1, |impl|);
    }

    /** Takes out an item of least priority. */
    method Pop() returns (el: PQItem<V>)
      requires Valid() && |impl| > 0
      modifies this`impl, Items()`index
      ensures Valid() && el == old(impl[0]) && el.index == -1
      ensures Items() == old(Items()) - {el} && |impl| == old(|impl|) - 1
      ensures forall e :: e in old(Items()) ==> el.Priority <= e.Priority
    {
      forall k: nat | k < |impl| ensures impl[0].Priority <= impl[k].Priority {
        RootIsMinimum(Priorities(), |impl|, k);
      }
      var n := |impl| - 1;
      if 0 < n { LastMovedIn(Priorities(), n, 0); }
      Swap(0, n);
      if 0 < n {
        var _ := Down(0, n);
      }
      assert impl[n..][0] == old(impl[0]);
      el := PopLast();
    }

    function Peek(): (el: PQItem<V>)
      requires |impl| > 0
      reads this
    {
      impl[0]
    }

    /** Takes a given item out, wherever it is. */
    method Remove(el: PQItem<V>)
      requires Valid() && el in impl
      modifies this`impl, Items()`index
      ensures Valid() && el.index == -1
      ensures Items() == old(Items()) - {el} && |impl| == old(|impl|) - 1
    {
      var i, n := el.index, |impl| - 1;
      if n != i {
        LastMovedIn(Priorities(), n, i);
        Swap(i, n);
        var moved := Down(i, n);
        if !moved {
          Up(i, n);
        }
        assert impl[n..][0] == el;
      }
      var _ := PopLast();
    }

    /** Re-prioritises an item in place. */
    method Update(el: PQItem<V>, priority: int)
      requires Valid() && el in impl
      modifies this`impl, Items()`index, el`Priority
      ensures Valid() && el.Priority == priority
      ensures Items() == old(Items()) && |impl| == old(|impl|)
    {
      Remove(el);
      assert el !in Items();
      el.Priority := priority;
      Push(el);
    }
  }
}
