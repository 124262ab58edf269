/** ecore_sheap_change, whose own source says that it is not the correct procedure: it overwrites
    an element and then heapifies from the root only. This module says when that is enough. */
module EcoreSheapChange {
  import opened Payloads
  import opened Sequences
  import opened Sorting
  import opened EcoreSheap
  import A = EcoreSheapArray

  /** The element that is changed: the first that the comparator calls equal to `item`. */
  function Match(compare: Compare, s: seq<Ptr>, item: Ptr): (k: nat)
    ensures k <= |s|
    ensures k < |s| ==> Cmp(compare, s[k], item) == 0
    ensures forall i :: 0 <= i < k ==> Cmp(compare, s[i], item) != 0
  {
    FirstWhere(s, x => Cmp(compare, x, item) == 0)
  }

  function Changed(f: Compare, s: seq<Ptr>, i: nat, x: Ptr): seq<Ptr>
    requires i < |s|
  {
    SiftDown(f, s[i := x], 0)
  }

  /** The new element is neither too small for its parent nor too large for its children. */
  ghost predicate InPlace(f: Compare, s: seq<Ptr>, i: nat, x: Ptr)
    requires i < |s|
  {
    && (i > 0 ==> Cmp(f, s[Parent(i)], x) <= 0)
    && (2 * i + 1 < |s| ==> Cmp(f, x, s[2 * i + 1]) <= 0)
    && (2 * i + 2 < |s| ==> Cmp(f, x, s[2 * i + 2]) <= 0)
  }

  /** The new element is at a child of the root and less than the root, so that the two change
      places. */
  ghost predicate Overtakes(f: Compare, s: seq<Ptr>, i: nat, x: Ptr)
    requires i < |s|
  {
    i > 0 && Parent(i) == 0 && Cmp(f, x, s[0]) < 0
  }

  /** The changes after which the heap order holds. */
  ghost predicate KeepsHeap(f: Compare, s: seq<Ptr>, i: nat, x: Ptr)
    requires i < |s|
  {
    i == 0 || Overtakes(f, s, i, x) || InPlace(f, s, i, x)
  }

  /** A change leaves a heap exactly if it is at the root, or at a child of the root with
      something less than the root, or if the new element happens to be in place. */
  lemma ChangeKeepsHeapIff(f: Compare, s: seq<Ptr>, i: nat, x: Ptr)
    requires IsComparator(f) && IsHeap(f, s) && i < |s|
    ensures multiset(Changed(f, s, i, x)) == multiset(s[i := x])
    ensures IsHeap(f, Changed(f, s, i, x)) <==> KeepsHeap(f, s, i, x)
  {
    hide IsComparator, IsHeap, SiftDown;
    SiftDownPermutes(f, s[i := x], 0);
    if i == 0 {
      ChangedRoot(f, s, x);
    } else if Parent(i) == 0 && Cmp(f, x, s[0]) < 0 {
      ChangedChild(f, s, i, x);
    } else {
      NothingSinks(f, s, i, x);
      HeapIffInPlace(f, s, i, x);
    }
  }

  lemma ChangedRoot(f: Compare, s: seq<Ptr>, x: Ptr)
    requires IsComparator(f) && IsHeap(f, s) && s != []
    ensures IsHeap(f, Changed(f, s, 0, x))
  {
    hide IsComparator;
    var t := s[0 := x];
    forall j | Parent(j) != 0
      ensures Ordered(f, t, j)
    {
      assert Ordered(f, s, j);
    }
    SiftDownRestores(f, t, 0);
  }

  /** The new root and the old one change places, and nothing else has to move. */
  lemma ChangedChild(f: Compare, s: seq<Ptr>, i: nat, x: Ptr)
    requires IsComparator(f) && IsHeap(f, s) && 0 < i < |s| && Parent(i) == 0 && Cmp(f, x, s[0]) < 0
    ensures IsHeap(f, Changed(f, s, i, x))
  {
    hide IsComparator, IsHeap;
    var t := s[i := x];
    var u := Swapped(t, i, 0);
    SmallestChild(f, s, i, x);
    assert Changed(f, s, i, x) == SiftDown(f, u, i);
    forall j | Parent(j) != i
      ensures Ordered(f, u, j)
    {
      if 0 < j < |s| {
        TopIsLeast(f, s, j);
        if Parent(j) == 0 {
          AtMostChain(f, x, s[0], s[j]);
        } else {
          ParentFirst(f, s, j);
        }
      }
    }
    forall j
      ensures Bridged(f, u, i, j)
    {
      if 0 < j < |s| && Parent(j) == i {
        TopIsLeast(f, s, j);
        AtMostChain(f, x, s[0], s[j]);
      }
    }
    SiftDownRestores(f, u, i);
  }

  lemma ParentFirst(f: Compare, s: seq<Ptr>, j: int)
    requires IsHeap(f, s) && 0 < j < |s|
    ensures Cmp(f, s[Parent(j)], s[j]) <= 0
  {
    assert Ordered(f, s, j);
  }

  lemma SmallestChild(f: Compare, s: seq<Ptr>, i: nat, x: Ptr)
    requires IsComparator(f) && IsHeap(f, s) && 0 < i < |s| && Parent(i) == 0 && Cmp(f, x, s[0]) < 0
    ensures Extreme(f, s[i := x], 0) == i
  {
    hide IsComparator, IsHeap;
    assert i == 1 || i == 2;
    forall j | 1 <= j <= 2 && j < |s|
      ensures Cmp(f, s[j], s[0]) >= 0 && Cmp(f, x, s[j]) < 0
    {
      ParentFirst(f, s, j);
      LessThan(f, s[j], s[0]);
      Strictly(f, x, s[0], s[j]);
    }
    LessThan(f, s[if |s| > 2 then 3 - i else 0], x);
    if |s| > 2 { LessThan(f, x, s[3 - i]); }
  }

  lemma Strictly(f: Compare, x: Ptr, y: Ptr, z: Ptr)
    requires IsComparator(f) && Cmp(f, x, y) < 0 && Cmp(f, y, z) <= 0
    ensures Cmp(f, x, z) < 0
  {
    LessThan(f, x, y);
    LessThan(f, z, x);
    if Cmp(f, z, x) <= 0 {
      AtMostChain(f, y, z, x);
    }
    LessThan(f, x, z);
  }

  lemma NothingSinks(f: Compare, s: seq<Ptr>, i: nat, x: Ptr)
    requires IsComparator(f) && IsHeap(f, s) && 0 < i < |s| && !Overtakes(f, s, i, x)
    ensures Changed(f, s, i, x) == s[i := x]
  {
    hide IsComparator, IsHeap;
    forall j | 1 <= j <= 2 && j < |s|
      ensures Cmp(f, s[j], s[0]) >= 0
    {
      ParentFirst(f, s, j);
      LessThan(f, s[j], s[0]);
    }
    assert Extreme(f, s[i := x], 0) == 0;
  }

  lemma HeapIffInPlace(f: Compare, s: seq<Ptr>, i: nat, x: Ptr)
    requires IsHeap(f, s) && 0 < i < |s|
    ensures IsHeap(f, s[i := x]) <==> InPlace(f, s, i, x)
  {
    var t := s[i := x];
    if IsHeap(f, t) {
      assert Ordered(f, t, i) && Ordered(f, t, 2 * i + 1) && Ordered(f, t, 2 * i + 2);
    }
    if InPlace(f, s, i, x) {
      forall j
        ensures Ordered(f, t, j)
      {
        assert Ordered(f, s, j);
        assert 0 < j && Parent(j) == i ==> j == 2 * i + 1 || j == 2 * i + 2;
      }
    }
  }

  // ----- Sorted heaps -----

  /** In a sorted heap `x` sinks from position p along the left children. The elements it passes
      move up, where below the root they must not exceed the one behind their new place; and
      where it stops it must not exceed the one behind. */
  ghost predicate SinksInOrder(f: Compare, s: seq<Ptr>, p: nat, x: Ptr)
    requires p < |s|
    decreases |s| - p
  {
    var left := 2 * p + 1;
    if left < |s| && Cmp(f, s[left], x) < 0 then
      (p > 0 ==> Cmp(f, s[left], s[p + 1]) <= 0) && SinksInOrder(f, s, left, x)
    else
      p + 1 < |s| ==> Cmp(f, x, s[p + 1]) <= 0
  }

  /** The changes of a sorted heap that leave it sorted. */
  ghost predicate KeepsSorted(f: Compare, s: seq<Ptr>, i: nat, x: Ptr)
    requires i < |s|
  {
    if i == 0 then SinksInOrder(f, s, 0, x)
    else if Overtakes(f, s, i, x) then i == 1 || Cmp(f, s[1], s[0]) <= 0
    else Cmp(f, s[i - 1], x) <= 0 && (i + 1 < |s| ==> Cmp(f, x, s[i + 1]) <= 0)
  }

  /** A change leaves a sorted heap sorted, and so its flag honest, exactly under that
      condition. */
  lemma ChangeKeepsSortedIff(f: Compare, s: seq<Ptr>, i: nat, x: Ptr)
    requires IsComparator(f) && Sorted(f, s) && i < |s|
    ensures Sorted(f, Changed(f, s, i, x)) <==> KeepsSorted(f, s, i, x)
  {
    hide IsComparator, Sorted, SiftDown, IsHeap, SinksInOrder;
    if i == 0 {
      SortedButRoot(f, s, x);
      SinkSorted(f, s, s[0 := x], 0, x);
    } else {
      SortedIsHeap(f, s);
      if Overtakes(f, s, i, x) {
        OvertakingStops(f, s, i, x);
        OvertakenSorted(f, s, i, x);
      } else {
        NothingSinks(f, s, i, x);
        ReplacedSorted(f, s, i, x);
      }
    }
  }

  /** Sorted apart from position p, where there is nothing too small for what is in front. */
  ghost predicate SortedBut(f: Compare, s: seq<Ptr>, p: int) {
    && (forall i, j :: 0 <= i < j < |s| && i != p && j != p ==> Cmp(f, s[i], s[j]) <= 0)
    && (0 < p < |s| ==> Cmp(f, s[p - 1], s[p]) <= 0)
  }

  lemma SortedButRoot(f: Compare, s: seq<Ptr>, x: Ptr)
    requires s != [] && Sorted(f, s)
    ensures SortedBut(f, s[0 := x], 0)
  {
  }

  lemma {:induction false} SinkSorted(f: Compare, s: seq<Ptr>, u: seq<Ptr>, p: nat, x: Ptr)
    requires IsComparator(f) && p < |u| == |s| && u[p] == x && SortedBut(f, u, p)
    requires forall k :: p < k < |s| ==> u[k] == s[k]
    ensures Sorted(f, SiftDown(f, u, p)) <==> SinksInOrder(f, s, p, x)
    decreases |u| - p
  {
    hide IsComparator, Sorted, SortedBut, Extreme;
    var left := 2 * p + 1;
    LeftIsExtreme(f, u, p);
    if left < |u| && Cmp(f, u[left], x) < 0 {
      var v := Swapped(u, left, p);
      if p > 0 && Cmp(f, s[left], s[p + 1]) > 0 {
        assert v[p] == s[left] && v[p + 1] == s[p + 1];
        SinkLeavesUnsorted(f, v, left, p);
      } else {
        SwapSortedBut(f, u, p);
        SinkSorted(f, s, v, left, x);
      }
    } else {
      StopSorted(f, u, p);
    }
  }

  lemma LeftIsExtreme(f: Compare, u: seq<Ptr>, p: nat)
    requires IsComparator(f) && p < |u| && SortedBut(f, u, p)
    ensures var left := 2 * p + 1;
            Extreme(f, u, p) == if left < |u| && Cmp(f, u[left], u[p]) < 0 then left else p
  {
    hide IsComparator;
    var left, right := 2 * p + 1, 2 * p + 2;
    if right < |u| {
      LessThan(f, u[right], u[left]);
      LessThan(f, u[left], u[p]);
      LessThan(f, u[right], u[p]);
      if Cmp(f, u[left], u[p]) >= 0 {
        AtMostChain(f, u[p], u[left], u[right]);
      }
    }
  }

  lemma SwapSortedBut(f: Compare, u: seq<Ptr>, p: nat)
    requires IsComparator(f) && 2 * p + 1 < |u| && SortedBut(f, u, p) && Cmp(f, u[2 * p + 1], u[p]) < 0
    requires p > 0 ==> Cmp(f, u[2 * p + 1], u[p + 1]) <= 0
    ensures SortedBut(f, Swapped(u, 2 * p + 1, p), 2 * p + 1)
  {
    hide IsComparator;
    var left := 2 * p + 1;
    var v := Swapped(u, left, p);
    forall i, j | 0 <= i < j < |v| && i != left && j != left
      ensures Cmp(f, v[i], v[j]) <= 0
    {
      if i == p && j < left {
        if j > p + 1 { AtMostChain(f, u[left], u[p + 1], u[j]); }
      }
    }
    if p > 0 {
      AtMostChain(f, u[left - 1], u[left], u[p]);
    }
  }

  lemma StopSorted(f: Compare, u: seq<Ptr>, p: nat)
    requires IsComparator(f) && p < |u| && SortedBut(f, u, p)
    ensures Sorted(f, u) <==> (p + 1 < |u| ==> Cmp(f, u[p], u[p + 1]) <= 0)
  {
    hide IsComparator;
    if p + 1 < |u| ==> Cmp(f, u[p], u[p + 1]) <= 0 {
      forall i, j | 0 <= i < j < |u|
        ensures Cmp(f, u[i], u[j]) <= 0
      {
        if i == p && j > p + 1 { AtMostChain(f, u[p], u[p + 1], u[j]); }
        if j == p && i < p - 1 { AtMostChain(f, u[i], u[p - 1], u[p]); }
      }
    }
  }

  lemma {:induction false} SinkLeavesAbove(f: Compare, v: seq<Ptr>, p: nat, k: nat)
    requires k < p < |v|
    ensures |SiftDown(f, v, p)| == |v| && SiftDown(f, v, p)[k] == v[k]
    decreases |v| - p
  {
    hide Extreme;
    var e := Extreme(f, v, p);
    if e != p {
      SinkLeavesAbove(f, Swapped(v, e, p), e, k);
    }
  }

  lemma SinkLeavesUnsorted(f: Compare, v: seq<Ptr>, left: nat, p: nat)
    requires p + 1 < left < |v| && Cmp(f, v[p], v[p + 1]) > 0
    ensures !Sorted(f, SiftDown(f, v, left))
  {
    hide SiftDown;
    SinkLeavesAbove(f, v, left, p);
    SinkLeavesAbove(f, v, left, p + 1);
  }

  lemma ReplacedSorted(f: Compare, s: seq<Ptr>, i: nat, x: Ptr)
    requires IsComparator(f) && Sorted(f, s) && 0 < i < |s|
    ensures Sorted(f, s[i := x]) <==> Cmp(f, s[i - 1], x) <= 0 && (i + 1 < |s| ==> Cmp(f, x, s[i + 1]) <= 0)
  {
    hide IsComparator;
    var t := s[i := x];
    if Cmp(f, s[i - 1], x) <= 0 {
      StopSorted(f, t, i);
    } else {
      assert t[i - 1] == s[i - 1] && t[i] == x;
    }
  }

  /** The old root stops where the new element was. */
  lemma OvertakingStops(f: Compare, s: seq<Ptr>, i: nat, x: Ptr)
    requires IsComparator(f) && Sorted(f, s) && i < |s| && Overtakes(f, s, i, x)
    ensures Changed(f, s, i, x) == Swapped(s[i := x], i, 0)
  {
    hide IsComparator, IsHeap;
    SortedIsHeap(f, s);
    SmallestChild(f, s, i, x);
    var u := Swapped(s[i := x], i, 0);
    forall c | i < c < |s|
      ensures Cmp(f, u[c], u[i]) >= 0
    {
      LessThan(f, s[0], s[c]);
      LessThan(f, s[c], s[0]);
    }
    assert Extreme(f, u, i) == i;
    assert Changed(f, s, i, x) == SiftDown(f, u, i) == u;
  }

  lemma OvertakenSorted(f: Compare, s: seq<Ptr>, i: nat, x: Ptr)
    requires IsComparator(f) && Sorted(f, s) && i < |s| && Overtakes(f, s, i, x)
    ensures Sorted(f, Swapped(s[i := x], i, 0)) <==> i == 1 || Cmp(f, s[1], s[0]) <= 0
  {
    hide IsComparator;
    var u := Swapped(s[i := x], i, 0);
    assert i == 1 || i == 2;
    if i == 1 || Cmp(f, s[1], s[0]) <= 0 {
      forall k, j | 0 <= k < j < |u|
        ensures Cmp(f, u[k], u[j]) <= 0
      {
        if k == 0 {
          var y := if j == i then s[0] else s[j];
          LessThan(f, s[0], s[0]);
          assert Cmp(f, s[0], y) <= 0;
          AtMostChain(f, x, s[0], y);
        }
      }
    } else {
      assert u[1] == s[1] && u[2] == s[0];
    }
  }

  /** The change keeps what the heap promises: its order, and the flag if that is set. */
  ghost predicate KeepsGood(h: Heap, i: nat, x: Ptr)
    requires i < |h.elems|
  {
    KeepsHeap(h.Less(), h.elems, i, x) && (h.sorted ==> KeepsSorted(h.Less(), h.elems, i, x))
  }

  lemma ChangeKeepsGoodIff(h: Heap, i: nat, x: Ptr)
    requires Good(h) && i < |h.elems|
    ensures Good(h.(elems := Changed(h.Less(), h.elems, i, x))) <==> KeepsGood(h, i, x)
    ensures |Changed(h.Less(), h.elems, i, x)| == |h.elems|
  {
    hide Directed, IsHeap, Sorted, IsComparator, Changed, KeepsHeap, KeepsSorted;
    var f, s := h.Less(), h.elems;
    DirectedIsComparator(h.compare, h.order);
    ChangeKeepsHeapIff(f, s, i, x);
    ChangedLength(f, s, i, x);
    if h.sorted { ChangeKeepsSortedIff(f, s, i, x); }
  }

  lemma ChangedLength(f: Compare, s: seq<Ptr>, i: nat, x: Ptr)
    requires i < |s|
    ensures |Changed(f, s, i, x)| == |s|
  {
    SiftDownPermutes(f, s[i := x], 0);
  }

  /** Making the last leaf of [1, 5, 2, 7] the least element leaves it where it is. */
  lemma ChangeBreaksHeap()
    ensures IsHeap(DirectCompare, [1, 5, 2, 7]) && !IsHeap(DirectCompare, Changed(DirectCompare, [1, 5, 2, 7], 3, 0))
  {
    var s := [1, 5, 2, 7];
    DirectCompareIsComparator();
    assert IsHeap(DirectCompare, s);
    ChangeKeepsHeapIff(DirectCompare, s, 3, 0);
  }

  /** The sorted flag is left alone, so after a sort it can be wrong even where the heap order
      is kept: changing 1 into 9 in the sorted heap [1, 2, 3]. */
  lemma ChangeUnsorts()
    ensures var s := [1, 2, 3];
            && Sorted(DirectCompare, s) && KeepsHeap(DirectCompare, s, 0, 9)
            && IsHeap(DirectCompare, Changed(DirectCompare, s, 0, 9)) && !Sorted(DirectCompare, Changed(DirectCompare, s, 0, 9))
  {
    var s := [1, 2, 3];
    DirectCompareIsComparator();
    SortedIsHeap(DirectCompare, s);
    ChangeKeepsHeapIff(DirectCompare, s, 0, 9);
    ChangeKeepsSortedIff(DirectCompare, s, 0, 9);
    assert SinksInOrder(DirectCompare, s, 0, 9) == SinksInOrder(DirectCompare, s, 1, 9) == false;
  }

  /** ecore_sheap_change; the flag and the fields other than the array stay as they were. */
  method Change(heap: A.Sheap, item: Ptr, newval: Ptr) returns (ok: bool)
    requires heap.Valid()
    modifies heap.data
    ensures 0 <= heap.size <= heap.data.Length
    ensures var h := old(heap.State());
            var i := Match(h.compare, h.elems, item);
            && (ok <==> i < |h.elems|)
            && (heap.Valid() <==> !ok || KeepsGood(h, i, newval))
            && heap.State() == if ok then h.(elems := Changed(h.Less(), h.elems, i, newval)) else h
  {
    hide Directed, SiftDown, IsHeap, Sorted, IsComparator, FirstWhere;
    ghost var h := heap.State();
    var i := 0;
    while i < heap.size && heap.compare(heap.data[i], item) != 0
      invariant 0 <= i <= heap.size
      invariant forall j :: 0 <= j < i ==> Cmp(heap.compare, h.elems[j], item) != 0
    {
      i := i + 1;
    }
    if i >= heap.size {
      return false;
    }
    heap.data[i] := newval;
    assert heap.data[..heap.size] == h.elems[i := newval];
    A.Heapify(heap.data, heap.size, 1, heap.compare, heap.order);
    ChangeKeepsGoodIff(h, i, newval);
    ok := true;
  }
}
