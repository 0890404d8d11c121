/** PriorityQueue.h: a vector kept as a binary heap under std::greater, so that the
    smallest element is in front.  The standard heap algorithms are modelled by the usual
    sifting; the contracts say only what the standard promises of them, a heap with the
    same elements.
 */
module PriorityQueues {

  /** EventQueue::Timer, ordered by the time that remains. */
  datatype Timer = Timer(timer: nat, timeout: real, target: nat, oneShot: bool, time: real)

  function Parent(i: nat): nat
    requires i > 0
  {
    (i - 1) / 2
  }

  /** The heap order holds between each element from `lo` on and its children. */
  ghost predicate HeapFrom(c: seq<Timer>, lo: nat) {
    forall j | 0 < j < |c| && lo <= Parent(j) :: c[Parent(j)].time <= c[j].time
  }

  ghost predicate Heap(c: seq<Timer>) {
    HeapFrom(c, 0)
  }

  /** The front of a heap is its smallest element. */
  lemma {:induction false} FrontIsLeast(c: seq<Timer>, i: nat)
    requires Heap(c) && i < |c|
    ensures c[0].time <= c[i].time
  {
    if i > 0 {
      FrontIsLeast(c, Parent(i));
    }
  }

  function Swapped(c: seq<Timer>, i: nat, j: nat): (r: seq<Timer>)
    requires i < |c| && j < |c|
    ensures |r| == |c|
  {
    c[i := c[j]][j := c[i]]
  }

  lemma SwapKeepsElements(c: seq<Timer>, i: nat, j: nat)
    requires i < |c| && j < |c|
    ensures multiset(Swapped(c, i, j)) == multiset(c)
  {}

  // ---- sifting ----

  /** All pairs are in order but that of `i` and its parent. */
  ghost predicate HeapButAbove(c: seq<Timer>, i: nat) {
    && (forall j | 0 < j < |c| && j != i :: c[Parent(j)].time <= c[j].time)
    && (forall j | 0 < j < |c| && Parent(j) == i && i > 0 :: c[Parent(i)].time <= c[j].time)
  }

  lemma SiftUpStep(c: seq<Timer>, i: nat)
    requires 0 < i < |c| && HeapButAbove(c, i) && c[i].time < c[Parent(i)].time
    ensures HeapButAbove(Swapped(c, i, Parent(i)), Parent(i))
  {
    var p := Parent(i);
    var d := Swapped(c, i, p);
    forall j | 0 < j < |d| && j != p ensures d[Parent(j)].time <= d[j].time {
      assert c[Parent(j)].time <= c[j].time || j == i;
      if j != i && Parent(j) == i { assert c[p].time <= c[j].time; }
    }
    forall j | 0 < j < |d| && Parent(j) == p && p > 0 ensures d[Parent(p)].time <= d[j].time {
      assert c[Parent(p)].time <= c[p].time;
      assert j != i ==> c[p].time <= c[j].time;
    }
  }

  /** push_heap: the last element is sifted into a heap of the others. */
  method PushHeap(c: seq<Timer>) returns (d: seq<Timer>)
    requires c != [] && Heap(c[..|c| - 1])
    ensures Heap(d) && multiset(d) == multiset(c)
  {
    d := c;
    var i := |c| - 1;
    assert HeapButAbove(d, i) by {
      forall j | 0 < j < |c| && j != i ensures c[Parent(j)].time <= c[j].time {
        assert c[..i][Parent(j)].time <= c[..i][j].time;
      }
    }
    while i > 0 && d[i].time < d[(i - 1) / 2].time
      invariant 0 <= i < |d| == |c| && HeapButAbove(d, i) && multiset(d) == multiset(c)
    {
      SiftUpStep(d, i);
      SwapKeepsElements(d, i, Parent(i));
      d := Swapped(d, i, (i - 1) / 2);
      i := (i - 1) / 2;
    }
  }

  /** From `lo` on, all pairs are in order but those of `i` and its children. */
  ghost predicate HeapButBelow(c: seq<Timer>, lo: nat, i: nat) {
    && (forall j | 0 < j < |c| && lo <= Parent(j) != i :: c[Parent(j)].time <= c[j].time)
    && (forall j | 0 < j < |c| && Parent(j) == i && i > lo && lo <= Parent(i) :: c[Parent(i)].time <= c[j].time)
  }

  lemma SiftDownStep(c: seq<Timer>, lo: nat, i: nat, child: nat)
    requires lo <= i && 0 < child < |c| && Parent(child) == i && HeapButBelow(c, lo, i)
    requires c[child].time < c[i].time
    requires forall j | 0 < j < |c| && Parent(j) == i :: c[child].time <= c[j].time
    ensures HeapButBelow(Swapped(c, i, child), lo, child)
  {
    var d := Swapped(c, i, child);
    forall j | 0 < j < |d| && lo <= Parent(j) != child ensures d[Parent(j)].time <= d[j].time {
      if Parent(j) != i && j == i {
        assert Parent(child) == i && lo <= Parent(i) && i > lo;
        assert c[Parent(i)].time <= c[child].time;
      }
    }
    forall j | 0 < j < |d| && Parent(j) == child ensures d[i].time <= d[j].time {
      assert c[child].time <= c[j].time;
    }
  }

  lemma ChildrenOf(j: nat, i: nat)
    requires j > 0 && Parent(j) == i
    ensures j == 2 * i + 1 || j == 2 * i + 2
  {
  }

  lemma SiftedDown(c: seq<Timer>, lo: nat, i: nat)
    requires HeapButBelow(c, lo, i)
    requires forall j | 0 < j < |c| && Parent(j) == i :: c[i].time <= c[j].time
    ensures HeapFrom(c, lo)
  {
  }

  lemma LeastChild(c: seq<Timer>, i: nat, child: nat)
    requires child < |c| && (child == 2 * i + 1 || child == 2 * i + 2)
    requires 2 * i + 1 < |c| ==> c[child].time <= c[2 * i + 1].time
    requires 2 * i + 2 < |c| ==> c[child].time <= c[2 * i + 2].time
    ensures Parent(child) == i
    ensures forall j | 0 < j < |c| && Parent(j) == i :: c[child].time <= c[j].time
  {
    forall j | 0 < j < |c| && Parent(j) == i ensures c[child].time <= c[j].time {
      ChildrenOf(j, i);
    }
  }

  /** Sifts the element at `lo` into the heaps below it. */
  method SiftDown(c: seq<Timer>, lo: nat) returns (d: seq<Timer>)
    requires lo < |c| && HeapFrom(c, lo + 1)
    ensures HeapFrom(d, lo) && multiset(d) == multiset(c) && |d| == |c|
  {
    d := c;
    var i := lo;
    while 2 * i + 1 < |d|
      invariant lo <= i < |d| == |c| && HeapButBelow(d, lo, i) && multiset(d) == multiset(c)
      decreases |d| - i
    {
      var child := 2 * i + 1;
      if child + 1 < |d| && d[child + 1].time < d[child].time {
        child := child + 1;
      }
      LeastChild(d, i, child);
      if d[i].time <= d[child].time {
        SiftedDown(d, lo, i);
        return;
      }
      SiftDownStep(d, lo, i, child);
      SwapKeepsElements(d, i, child);
      d := Swapped(d, i, child);
      i := child;
    }
    SiftedDown(d, lo, i);
  }

  /** pop_heap and pop_back: the front is taken off and the rest made a heap again. */
  method PopHeap(c: seq<Timer>) returns (d: seq<Timer>)
    requires c != [] && Heap(c)
    ensures Heap(d) && multiset(d) + multiset{c[0]} == multiset(c)
  {
    var n := |c| - 1;
    var s := Swapped(c, 0, n);
    SwapKeepsElements(c, 0, n);
    d := s[..n];
    assert s == d + [c[0]];
    if n > 0 {
      forall j | 0 < j < |d| && 1 <= Parent(j) ensures d[Parent(j)].time <= d[j].time {
        assert c[Parent(j)].time <= c[j].time;
      }
      d := SiftDown(d, 0);
    }
  }

  /** make_heap */
  method MakeHeap(c: seq<Timer>) returns (d: seq<Timer>)
    ensures Heap(d) && multiset(d) == multiset(c)
  {
    d := c;
    var lo := |c|;
    while lo > 0
      invariant 0 <= lo <= |d| == |c| && HeapFrom(d, lo) && multiset(d) == multiset(c)
    {
      lo := lo - 1;
      d := SiftDown(d, lo);
    }
  }

  class PriorityQueue {
    var c: seq<Timer>

    ghost predicate Valid()
      reads this
    {
      Heap(c)
    }

    constructor ()
      ensures Valid() && c == []
    {
      c := [];
    }

    method Push(v: Timer)
      requires Valid()
      modifies this
      ensures Valid() && multiset(c) == multiset(old(c)) + multiset{v}
    {
      var d := c + [v];
      assert d[..|d| - 1] == c;
      c := PushHeap(d);
    }

    method Pop()
      requires Valid() && c != []
      modifies this
      ensures Valid() && multiset(c) + multiset{old(c)[0]} == multiset(old(c))
    {
      c := PopHeap(c);
    }

    method Erase(i: nat)
      requires Valid() && i < |c|
      modifies this
      ensures Valid() && multiset(c) + multiset{old(c)[i]} == multiset(old(c))
    {
      assert c == c[..i] + [c[i]] + c[i + 1..];
      c := MakeHeap(c[..i] + c[i + 1..]);
    }

    method Top() returns (v: Timer)
      requires Valid() && c != []
      ensures v == c[0] && v in c && forall t | t in c :: v.time <= t.time
    {
      forall t | t in c ensures c[0].time <= t.time {
        var i :| 0 <= i < |c| && c[i] == t;
        FrontIsLeast(c, i);
      }
      v := c[0];
    }

    /** The loop that takes the same time off every element, in place. */
    method SubtractAll(dt: real)
      requires Valid()
      modifies this
      ensures Valid() && |c| == |old(c)|
      ensures forall i | 0 <= i < |c| :: c[i] == old(c)[i].(time := old(c)[i].time - dt)
    {
      ghost var was := c;
      var i := 0;
      while i < |c|
        invariant 0 <= i <= |c| == |was|
        invariant forall j | 0 <= j < |c| :: c[j] == if j < i then was[j].(time := was[j].time - dt) else was[j]
      {
        c := c[i := c[i].(time := c[i].time - dt)];
        i := i + 1;
      }
    }
  }
}
