/** Ecore_Sheap: a binary heap in an array. This module holds the heap as a plain sequence, root
    first, and what holds of every run; EcoreSheapArray refines it. */
module EcoreSheap {
  import opened Payloads
  import opened Sorting

  function Swapped(s: seq<Ptr>, i: nat, j: nat): (r: seq<Ptr>)
    requires i < |s| && j < |s|
    ensures |r| == |s|
    ensures forall k {:trigger r[k]} :: 0 <= k < |s| ==> r[k] == if k == i then s[j] else if k == j then s[i] else s[k]
  {
    s[i := s[j]][j := s[i]]
  }

  lemma SwapPermutes(s: seq<Ptr>, i: nat, j: nat)
    requires i < |s| && j < |s|
    ensures multiset(Swapped(s, i, j)) == multiset(s)
  {
  }

  /** PARENT, counting positions from 0. */
  function Parent(i: int): int {
    (i + 1) / 2 - 1
  }

  ghost predicate Ordered(f: Compare, s: seq<Ptr>, i: int) {
    0 < i < |s| ==> Cmp(f, s[Parent(i)], s[i]) <= 0
  }

  ghost predicate IsHeap(f: Compare, s: seq<Ptr>) {
    forall i :: Ordered(f, s, i)
  }

  /** ecore_direct_compare, which stands in for a NULL comparator. */
  function DirectCompare(x: Ptr, y: Ptr): (r: int)
    ensures (r < 0 <==> x < y) && (r == 0 <==> x == y)
  {
    if x > y then 1 else if x < y then -1 else 0
  }

  lemma DirectCompareIsComparator()
    ensures IsComparator(DirectCompare)
  {
    forall x, y, z
      ensures Transitive(DirectCompare, x, y, z)
    {
    }
  }

  // ----- Moving one element up -----

  /** The loop of ecore_sheap_insert. */
  function SiftUp(f: Compare, s: seq<Ptr>, p: nat): seq<Ptr>
    requires p < |s|
    decreases p
  {
    if p > 0 && Cmp(f, s[Parent(p)], s[p]) > 0 then SiftUp(f, Swapped(s, p, Parent(p)), Parent(p)) else s
  }

  /** Only the element at p may be too small for its parent. */
  ghost predicate RisingAt(f: Compare, s: seq<Ptr>, p: int) {
    && (forall i :: i != p ==> Ordered(f, s, i))
    && (forall i :: Bridged(f, s, p, i))
  }

  /** A child at i of p is ordered with the parent of p. */
  ghost predicate Bridged(f: Compare, s: seq<Ptr>, p: int, i: int) {
    0 < p && 0 < i < |s| && Parent(i) == p ==> Cmp(f, s[Parent(p)], s[i]) <= 0
  }

  lemma RiseOnce(f: Compare, s: seq<Ptr>, p: int)
    requires IsComparator(f) && 0 < p < |s| && RisingAt(f, s, p) && Cmp(f, s[Parent(p)], s[p]) > 0
    ensures RisingAt(f, Swapped(s, p, Parent(p)), Parent(p))
  {
    hide IsComparator;
    var q := Parent(p);
    var t := Swapped(s, p, q);
    forall i | i != q
      ensures Ordered(f, t, i)
    {
      assert Ordered(f, s, i) || i == p;
      assert Bridged(f, s, p, i);
      LessThan(f, s[q], s[p]);
      if 0 < i < |s| && Parent(i) == q && i != p {
        AtMostChain(f, s[p], s[q], s[i]);
      }
    }
    forall i
      ensures Bridged(f, t, q, i)
    {
      if 0 < q && 0 < i < |s| && Parent(i) == q {
        assert Ordered(f, s, q) && (i != p ==> Ordered(f, s, i));
        if i != p { AtMostChain(f, s[Parent(q)], s[q], s[i]); }
      }
    }
  }

  lemma LessThan(f: Compare, x: Ptr, y: Ptr)
    requires IsComparator(f)
    ensures Cmp(f, x, y) > 0 ==> Cmp(f, y, x) <= 0
    ensures Cmp(f, x, y) < 0 ==> Cmp(f, y, x) > 0
    ensures Cmp(f, x, x) == 0
    ensures Cmp(f, x, y) >= 0 <==> Cmp(f, y, x) <= 0
  {
    assert Cmp(f, x, y) < 0 <==> Cmp(f, y, x) > 0;
    assert Cmp(f, y, x) < 0 <==> Cmp(f, x, y) > 0;
  }

  lemma AtMostChain(f: Compare, x: Ptr, y: Ptr, z: Ptr)
    requires IsComparator(f) && Cmp(f, x, y) <= 0 && Cmp(f, y, z) <= 0
    ensures Cmp(f, x, z) <= 0
  {
    assert Transitive(f, x, y, z);
  }

  lemma {:induction false} SiftUpRestores(f: Compare, s: seq<Ptr>, p: nat)
    requires IsComparator(f) && p < |s| && RisingAt(f, s, p)
    ensures IsHeap(f, SiftUp(f, s, p))
    decreases p
  {
    hide IsComparator;
    if p > 0 && Cmp(f, s[Parent(p)], s[p]) > 0 {
      RiseOnce(f, s, p);
      SiftUpRestores(f, Swapped(s, p, Parent(p)), Parent(p));
    }
  }

  lemma {:induction false} SiftUpPermutes(f: Compare, s: seq<Ptr>, p: nat)
    requires p < |s|
    ensures multiset(SiftUp(f, s, p)) == multiset(s) && |SiftUp(f, s, p)| == |s|
    decreases p
  {
    if p > 0 && Cmp(f, s[Parent(p)], s[p]) > 0 {
      SwapPermutes(s, p, Parent(p));
      SiftUpPermutes(f, Swapped(s, p, Parent(p)), Parent(p));
    }
  }

  function Inserted(f: Compare, s: seq<Ptr>, x: Ptr): seq<Ptr> {
    SiftUp(f, s + [x], |s|)
  }

  lemma InsertKeepsHeap(f: Compare, s: seq<Ptr>, x: Ptr)
    requires IsComparator(f) && IsHeap(f, s)
    ensures IsHeap(f, Inserted(f, s, x))
    ensures multiset(Inserted(f, s, x)) == multiset(s) + multiset{x}
    ensures |Inserted(f, s, x)| == |s| + 1
  {
    hide IsComparator, SiftUp;
    var t := s + [x];
    forall i | i != |s|
      ensures Ordered(f, t, i)
    {
      assert Ordered(f, s, i);
    }
    SiftUpRestores(f, t, |s|);
    SiftUpPermutes(f, t, |s|);
  }

  /** A rising element stops below an ancestor that is at most equal to it; the ancestors it passes
      are all greater and move down one level, and nothing else moves. */
  lemma {:induction false} RisesPastGreater(f: Compare, s: seq<Ptr>, p: nat) returns (q: nat)
    requires p < |s|
    ensures var r := SiftUp(f, s, p);
            && |r| == |s| && q <= p && r[q] == s[p]
            && (q > 0 ==> r[Parent(q)] == s[Parent(q)] && Cmp(f, s[Parent(q)], s[p]) <= 0)
            && (q < p ==> r[p] == s[Parent(p)] && Cmp(f, r[p], s[p]) > 0)
            && forall i {:trigger r[i]} :: 0 <= i < |s| && i != q ==>
                 r[i] == s[i] || (q < i <= p && r[i] == s[Parent(i)] && Cmp(f, r[i], s[p]) > 0)
    decreases p
  {
    q := p;
    if p > 0 && Cmp(f, s[Parent(p)], s[p]) > 0 {
      q := RisesPastGreater(f, Swapped(s, p, Parent(p)), Parent(p));
    }
  }

  // ----- Moving one element down -----

  /** The position that _ecore_sheap_heapify calls `extreme`. */
  function Extreme(f: Compare, s: seq<Ptr>, i: nat): (e: nat)
    requires i < |s|
    ensures e < |s| && (e == i || e == 2 * i + 1 || e == 2 * i + 2)
  {
    var left, right := 2 * i + 1, 2 * i + 2;
    var e := if left < |s| && Cmp(f, s[left], s[i]) < 0 then left else i;
    if right < |s| && Cmp(f, s[right], s[e]) < 0 then right else e
  }

  /** _ecore_sheap_heapify. */
  function SiftDown(f: Compare, s: seq<Ptr>, i: nat): seq<Ptr>
    requires i < |s|
    decreases |s| - i
  {
    var e := Extreme(f, s, i);
    if e == i then s else SiftDown(f, Swapped(s, e, i), e)
  }

  /** Only the element at p may be too large for its children. */
  ghost predicate SinkingAt(f: Compare, s: seq<Ptr>, p: int) {
    && (forall i :: Parent(i) != p ==> Ordered(f, s, i))
    && (forall i :: Bridged(f, s, p, i))
  }

  lemma ExtremeIsLeast(f: Compare, s: seq<Ptr>, i: nat, c: nat)
    requires IsComparator(f) && i < |s| && c < |s| && (c == i || Parent(c) == i)
    ensures Cmp(f, s[Extreme(f, s, i)], s[c]) <= 0
  {
    hide IsComparator;
    var left, right := 2 * i + 1, 2 * i + 2;
    assert c == i || c == left || c == right;
    var e := if left < |s| && Cmp(f, s[left], s[i]) < 0 then left else i;
    LessThan(f, s[i], s[i]);
    if left < |s| {
      LessThan(f, s[left], s[i]);
      LessThan(f, s[left], s[left]);
    }
    if right < |s| {
      LessThan(f, s[right], s[e]);
      LessThan(f, s[right], s[right]);
      if Cmp(f, s[right], s[e]) < 0 && c < right {
        assert Cmp(f, s[e], s[c]) <= 0;
        AtMostChain(f, s[right], s[e], s[c]);
      }
    }
  }

  /** On ties a node stays above its children, and the left child wins against the right one. */
  lemma TiesStay(f: Compare, s: seq<Ptr>, i: nat)
    requires IsComparator(f) && i < |s|
    ensures var left, right, e := 2 * i + 1, 2 * i + 2, Extreme(f, s, i);
            && (e == i <==> (left < |s| ==> Cmp(f, s[i], s[left]) <= 0) && (right < |s| ==> Cmp(f, s[i], s[right]) <= 0))
            && (e == left ==> right < |s| ==> Cmp(f, s[left], s[right]) <= 0)
            && (e == right ==> Cmp(f, s[right], s[left]) < 0)
  {
    hide IsComparator;
    var left, right := 2 * i + 1, 2 * i + 2;
    if left < |s| {
      LessThan(f, s[left], s[i]);
    }
    if right < |s| {
      LessThan(f, s[right], s[i]);
      LessThan(f, s[right], s[left]);
      if Cmp(f, s[right], s[i]) < 0 && Cmp(f, s[i], s[left]) <= 0 {
        LessChain(f, s[right], s[i], s[left]);
      }
      if Cmp(f, s[left], s[i]) < 0 && Cmp(f, s[left], s[right]) <= 0 && Cmp(f, s[i], s[right]) <= 0 {
        LessThan(f, s[i], s[left]);
      }
    }
  }

  lemma LessChain(f: Compare, x: Ptr, y: Ptr, z: Ptr)
    requires IsComparator(f) && Cmp(f, x, y) < 0 && Cmp(f, y, z) <= 0
    ensures Cmp(f, x, z) < 0
  {
    LessThan(f, x, z);
    LessThan(f, x, y);
    if Cmp(f, z, x) <= 0 {
      AtMostChain(f, y, z, x);
    }
  }

  lemma SinkOnce(f: Compare, s: seq<Ptr>, p: nat)
    requires IsComparator(f) && p < |s| && SinkingAt(f, s, p) && Extreme(f, s, p) != p
    ensures SinkingAt(f, Swapped(s, Extreme(f, s, p), p), Extreme(f, s, p))
  {
    hide IsComparator, Extreme;
    var e := Extreme(f, s, p);
    var t := Swapped(s, e, p);
    assert Parent(e) == p;
    forall i | Parent(i) != e
      ensures Ordered(f, t, i)
    {
      if 0 < i < |s| {
        if Parent(i) == p {
          ExtremeIsLeast(f, s, p, i);
          ExtremeIsLeast(f, s, p, p);
        } else {
          assert Ordered(f, s, i);
          assert Bridged(f, s, p, e);
        }
      }
    }
    forall i
      ensures Bridged(f, t, e, i)
    {
      if 0 < i < |s| && Parent(i) == e {
        assert Ordered(f, s, i);
      }
    }
  }

  lemma {:induction false} SiftDownRestores(f: Compare, s: seq<Ptr>, p: nat)
    requires IsComparator(f) && p < |s| && SinkingAt(f, s, p)
    ensures IsHeap(f, SiftDown(f, s, p))
    decreases |s| - p
  {
    hide IsComparator, Extreme;
    var e := Extreme(f, s, p);
    if e != p {
      SinkOnce(f, s, p);
      SiftDownRestores(f, Swapped(s, e, p), e);
    } else {
      forall i
        ensures Ordered(f, s, i)
      {
        if 0 < i < |s| && Parent(i) == p { ExtremeIsLeast(f, s, p, i); }
      }
    }
  }

  lemma {:induction false} SiftDownPermutes(f: Compare, s: seq<Ptr>, p: nat)
    requires p < |s|
    ensures multiset(SiftDown(f, s, p)) == multiset(s) && |SiftDown(f, s, p)| == |s|
    decreases |s| - p
  {
    hide Extreme;
    var e := Extreme(f, s, p);
    if e != p {
      SwapPermutes(s, e, p);
      SiftDownPermutes(f, Swapped(s, e, p), e);
    }
  }

  /** What ecore_sheap_extract leaves. */
  function Rest(f: Compare, s: seq<Ptr>): seq<Ptr>
    requires s != []
  {
    var n := |s| - 1;
    var t := s[0 := s[n]][..n];
    if t == [] then t else SiftDown(f, t, 0)
  }

  lemma ExtractKeepsHeap(f: Compare, s: seq<Ptr>)
    requires IsComparator(f) && IsHeap(f, s) && s != []
    ensures IsHeap(f, Rest(f, s)) && |Rest(f, s)| == |s| - 1
    ensures multiset(s) == multiset{s[0]} + multiset(Rest(f, s))
  {
    hide IsComparator, SiftDown;
    var n := |s| - 1;
    var t := s[0 := s[n]][..n];
    LastToFront(s);
    if t != [] {
      forall i | Parent(i) != 0
        ensures Ordered(f, t, i)
      {
        assert Ordered(f, s, i);
      }
      SiftDownRestores(f, t, 0);
      SiftDownPermutes(f, t, 0);
    }
  }

  lemma LastToFront(s: seq<Ptr>)
    requires s != []
    ensures var n := |s| - 1; multiset(s) == multiset{s[0]} + multiset(s[0 := s[n]][..n])
  {
    var n := |s| - 1;
    if n > 0 {
      assert s == [s[0]] + s[1..n] + [s[n]];
      assert s[0 := s[n]][..n] == [s[n]] + s[1..n];
    } else {
      assert s == [s[0]];
    }
  }

  lemma {:induction false} TopIsLeast(f: Compare, s: seq<Ptr>, i: nat)
    requires IsComparator(f) && IsHeap(f, s) && i < |s|
    ensures Cmp(f, s[0], s[i]) <= 0
    decreases i
  {
    hide IsComparator;
    if i == 0 {
      LessThan(f, s[0], s[0]);
    } else {
      TopIsLeast(f, s, Parent(i));
      assert Ordered(f, s, i);
      AtMostChain(f, s[0], s[Parent(i)], s[i]);
    }
  }

  // ----- Sorting with a heap -----

  /** Everything extracted, in order. */
  function Drain(f: Compare, s: seq<Ptr>, n: nat): seq<Ptr>
    requires |s| == n
    decreases n
  {
    if n == 0 then []
    else
      RestLength(f, s);
      [s[0]] + Drain(f, Rest(f, s), n - 1)
  }

  lemma RestLength(f: Compare, s: seq<Ptr>)
    requires s != []
    ensures |Rest(f, s)| == |s| - 1
  {
    var n := |s| - 1;
    var t := s[0 := s[n]][..n];
    if t != [] { SiftDownPermutes(f, t, 0); }
  }

  /** Draining a heap yields its elements sorted. */
  lemma {:induction false} DrainSorts(f: Compare, s: seq<Ptr>, n: nat)
    requires IsComparator(f) && IsHeap(f, s) && |s| == n
    ensures Sorted(f, Drain(f, s, n)) && multiset(Drain(f, s, n)) == multiset(s) && |Drain(f, s, n)| == n
    decreases n
  {
    hide IsComparator, Rest, IsHeap;
    if n > 0 {
      RestLength(f, s);
      ExtractKeepsHeap(f, s);
      DrainSorts(f, Rest(f, s), n - 1);
      var d := Drain(f, Rest(f, s), n - 1);
      forall y | y in multiset(d)
        ensures Cmp(f, s[0], y) <= 0
      {
        assert y in multiset(s);
        var i :| 0 <= i < |s| && s[i] == y;
        TopIsLeast(f, s, i);
      }
      SortedCons(f, s[0], d);
    }
  }

  /** Inserting all of `s` one by one into an empty heap. */
  function Build(f: Compare, s: seq<Ptr>): seq<Ptr> {
    if s == [] then [] else Inserted(f, Build(f, s[..|s| - 1]), s[|s| - 1])
  }

  lemma {:induction false} BuildMakesHeap(f: Compare, s: seq<Ptr>)
    requires IsComparator(f)
    ensures IsHeap(f, Build(f, s)) && multiset(Build(f, s)) == multiset(s) && |Build(f, s)| == |s|
  {
    hide IsComparator, Inserted;
    if s != [] {
      var n := |s| - 1;
      BuildMakesHeap(f, s[..n]);
      InsertKeepsHeap(f, Build(f, s[..n]), s[n]);
      assert s == s[..n] + [s[n]];
    }
  }

  lemma BuildPrefix(f: Compare, s: seq<Ptr>, i: nat)
    requires i <= |s|
    ensures i < |s| ==> Build(f, s[..i + 1]) == Inserted(f, Build(f, s[..i]), s[i])
    ensures i == |s| ==> s[..i] == s
  {
    assert i < |s| ==> s[..i + 1][..i] == s[..i];
  }

  /** A sorted array is a heap, so sorting in place loses nothing. */
  lemma SortedIsHeap(f: Compare, s: seq<Ptr>)
    requires Sorted(f, s)
    ensures IsHeap(f, s)
  {
  }

  function HeapSort(f: Compare, s: seq<Ptr>): seq<Ptr>
    requires |Build(f, s)| == |s|
  {
    Drain(f, Build(f, s), |s|)
  }

  lemma HeapSortSorts(f: Compare, s: seq<Ptr>)
    requires IsComparator(f)
    ensures |Build(f, s)| == |s|
    ensures Sorted(f, HeapSort(f, s)) && multiset(HeapSort(f, s)) == multiset(s) && |HeapSort(f, s)| == |s|
  {
    BuildMakesHeap(f, s);
    DrainSorts(f, Build(f, s), |s|);
  }

  // ----- The heap as a state machine -----

  /** `slots` is the length of the array that really backs the heap: sorting replaces it by one
      of exactly the current size, while `space` stays what it was. */
  datatype Heap = Heap(elems: seq<Ptr>, slots: nat, space: nat, sorted: bool, order: Direction, compare: Compare)
  {
    function Less(): Compare {
      Directed(compare, order)
    }
  }

  ghost predicate Good(h: Heap) {
    && IsComparator(h.compare)
    && |h.elems| <= h.slots && |h.elems| <= h.space
    && IsHeap(h.Less(), h.elems)
    && (h.sorted ==> Sorted(h.Less(), h.elems))
  }

  function DoInsert(h: Heap, x: Ptr): Heap {
    if |h.elems| >= h.space then h else h.(elems := Inserted(h.Less(), h.elems, x), sorted := false)
  }

  function DoExtract(h: Heap): Heap {
    if h.elems == [] then h else h.(elems := Rest(h.Less(), h.elems), sorted := false)
  }

  /** _ecore_sheap_update_data; an empty heap keeps its sorted flag. */
  function Rebuilt(h: Heap): Heap {
    h.(elems := Build(h.Less(), h.elems), slots := h.space, sorted := h.sorted && h.elems == [])
  }

  function DoSort(h: Heap): Heap {
    h.(elems := Drain(h.Less(), h.elems, |h.elems|), slots := |h.elems|, sorted := true)
  }

  /** What ecore_sheap_item leaves; a heap that is known to be sorted is not sorted again. */
  function DoItem(h: Heap, i: int): Heap {
    if i >= |h.elems| || h.sorted then h else DoSort(h)
  }

  datatype Op =
    | Insert(x: Ptr)
    | Extract
    | OrderSet(order: Direction)
    | CompareSet(compare: Compare)
    | Sort
    | Item(i: nat)

  function Apply(op: Op, h: Heap): Heap {
    match op
    case Insert(x) => DoInsert(h, x)
    case Extract => DoExtract(h)
    case OrderSet(order) => Rebuilt(h.(order := order))
    case CompareSet(compare) => Rebuilt(h.(compare := compare))
    case Sort => DoSort(h)
    case Item(i) => DoItem(h, i)
  }

  /** What goes in and what comes out of the heap in one step. */
  function In(op: Op, h: Heap): multiset<Ptr> {
    if op.Insert? && |h.elems| < h.space then multiset{op.x} else multiset{}
  }

  function Out(op: Op, h: Heap): multiset<Ptr> {
    if op.Extract? && h.elems != [] then multiset{h.elems[0]} else multiset{}
  }

  /** What an operation returns; insert returns only whether it succeeded. */
  function Result(op: Op, h: Heap): Ptr {
    match op
    case Extract => if h.elems == [] then NULL else h.elems[0]
    case Item(i) => if i < |DoItem(h, i).elems| then DoItem(h, i).elems[i] else NULL
    case _ => NULL
  }

  /** The array has a slot for the element that an insert is about to write. */
  ghost predicate Fits(op: Op, h: Heap) {
    op.Insert? && |h.elems| < h.space ==> |h.elems| < h.slots
  }

  ghost predicate Allowed(op: Op, h: Heap) {
    Fits(op, h) && (op.CompareSet? ==> IsComparator(op.compare))
  }

  lemma SortStep(h: Heap)
    requires Good(h)
    ensures Good(DoSort(h)) && multiset(DoSort(h).elems) == multiset(h.elems) && |DoSort(h).elems| == |h.elems|
  {
    hide IsHeap, Sorted, Drain, IsComparator, Directed;
    DirectedIsComparator(h.compare, h.order);
    DrainSorts(h.Less(), h.elems, |h.elems|);
    SortedIsHeap(h.Less(), DoSort(h).elems);
  }

  lemma RebuildStep(h: Heap)
    requires IsComparator(h.compare) && |h.elems| <= h.space
    ensures Good(Rebuilt(h)) && multiset(Rebuilt(h).elems) == multiset(h.elems)
  {
    hide IsHeap, Build, IsComparator, Directed;
    DirectedIsComparator(h.compare, h.order);
    BuildMakesHeap(h.Less(), h.elems);
  }

  /** Setting the comparator or the direction puts just that in force; nothing else changes
      either. */
  lemma InForce(op: Op, h: Heap)
    ensures Apply(op, h).compare == if op.CompareSet? then op.compare else h.compare
    ensures Apply(op, h).order == if op.OrderSet? then op.order else h.order
  {
  }

  /** Every operation keeps the heap order for the comparator and direction then in force,
      keeps the sorted flag honest, and conserves the elements. */
  lemma Step(op: Op, h: Heap)
    requires Good(h) && Allowed(op, h)
    ensures Good(Apply(op, h))
    ensures multiset(Apply(op, h).elems) + Out(op, h) == multiset(h.elems) + In(op, h)
    ensures Apply(op, h).space == h.space
    ensures Apply(op, h).compare == if op.CompareSet? then op.compare else h.compare
    ensures Apply(op, h).order == if op.OrderSet? then op.order else h.order
  {
    InForce(op, h);
    hide IsHeap, Sorted, IsComparator, Inserted, Rest, DoSort, Rebuilt, Directed;
    DirectedIsComparator(h.compare, h.order);
    match op {
      case Insert(x) => if |h.elems| < h.space { InsertKeepsHeap(h.Less(), h.elems, x); }
      case Extract => if h.elems != [] { ExtractKeepsHeap(h.Less(), h.elems); }
      case OrderSet(order) => RebuildStep(h.(order := order)); SpaceKept(h.(order := order));
      case CompareSet(compare) => RebuildStep(h.(compare := compare)); SpaceKept(h.(compare := compare));
      case Sort => SortStep(h); SpaceKept(h);
      case Item(i) => SortStep(h); SpaceKept(h);
    }
  }

  lemma SpaceKept(h: Heap)
    ensures DoSort(h).space == h.space && Rebuilt(h).space == h.space
  {
  }

  /** ecore_sheap_item returns the i-th element in order: in a sorted arrangement of exactly the
      heap's elements it is the one at position i. */
  lemma ItemInOrder(h: Heap, i: nat)
    requires Good(h) && i < |h.elems|
    ensures var r := DoItem(h, i);
            Sorted(h.Less(), r.elems) && multiset(r.elems) == multiset(h.elems) && |r.elems| == |h.elems|
  {
    SortStep(h);
  }

  /** Right after a sort an insert fits exactly when the heap is full, that is, when it fails. */
  lemma InsertAfterSort(h: Heap, x: Ptr)
    requires Good(h)
    ensures Fits(Insert(x), DoSort(h)) <==> |h.elems| == h.space
    ensures Fits(Insert(x), Rebuilt(h))
  {
    SortStep(h);
    BuildLength(h);
  }

  lemma BuildLength(h: Heap)
    requires Good(h)
    ensures |Rebuilt(h).elems| == |h.elems|
  {
    DirectedIsComparator(h.compare, h.order);
    BuildMakesHeap(h.Less(), h.elems);
  }

  function Run(ops: seq<Op>, h: Heap): Heap {
    if ops == [] then h else Run(ops[1..], Apply(ops[0], h))
  }

  function AllIn(ops: seq<Op>, h: Heap): multiset<Ptr> {
    if ops == [] then multiset{} else In(ops[0], h) + AllIn(ops[1..], Apply(ops[0], h))
  }

  function AllOut(ops: seq<Op>, h: Heap): multiset<Ptr> {
    if ops == [] then multiset{} else Out(ops[0], h) + AllOut(ops[1..], Apply(ops[0], h))
  }

  function Results(ops: seq<Op>, h: Heap): seq<Ptr> {
    if ops == [] then [] else [Result(ops[0], h)] + Results(ops[1..], Apply(ops[0], h))
  }

  ghost predicate AllowedRun(ops: seq<Op>, h: Heap) {
    ops == [] || (Allowed(ops[0], h) && AllowedRun(ops[1..], Apply(ops[0], h)))
  }

  /** Over every run the heap stays good, and what is in it and what came out of it is what was
      in it and what went in. */
  lemma {:induction false} EveryRun(ops: seq<Op>, h: Heap)
    requires Good(h) && AllowedRun(ops, h)
    ensures Good(Run(ops, h))
    ensures multiset(Run(ops, h).elems) + AllOut(ops, h) == multiset(h.elems) + AllIn(ops, h)
  {
    hide Good, Allowed, Apply, In, Out;
    if ops != [] {
      Step(ops[0], h);
      var next := Apply(ops[0], h);
      EveryRun(ops[1..], next);
      Balance(multiset(h.elems), In(ops[0], h), Out(ops[0], h), multiset(next.elems),
              AllIn(ops[1..], next), AllOut(ops[1..], next), multiset(Run(ops, h).elems));
    }
  }

  /** Two balanced accounts in a row balance together. */
  lemma Balance(a: multiset<Ptr>, aIn: multiset<Ptr>, aOut: multiset<Ptr>, b: multiset<Ptr>,
                bIn: multiset<Ptr>, bOut: multiset<Ptr>, c: multiset<Ptr>)
    requires b + aOut == a + aIn && c + bOut == b + bIn
    ensures c + (aOut + bOut) == a + (aIn + bIn)
  {
    assert c + (aOut + bOut) == (c + bOut) + aOut;
    assert (b + bIn) + aOut == (b + aOut) + bIn;
  }

  /** Step k of the run sets the comparator and no later one does, or k is -1 and none does. */
  predicate LastCompareSet(ops: seq<Op>, k: int) {
    -1 <= k < |ops| && (k >= 0 ==> ops[k].CompareSet?) && forall i :: k < i < |ops| ==> !ops[i].CompareSet?
  }

  predicate LastOrderSet(ops: seq<Op>, k: int) {
    -1 <= k < |ops| && (k >= 0 ==> ops[k].OrderSet?) && forall i :: k < i < |ops| ==> !ops[i].OrderSet?
  }

  /** Over every run the comparator in force is the last one set, or the initial one. */
  lemma {:induction false} ComparatorInForce(ops: seq<Op>, k: int, h: Heap)
    requires LastCompareSet(ops, k)
    ensures Run(ops, h).compare == if k < 0 then h.compare else ops[k].compare
    decreases ops
  {
    hide Apply;
    if ops != [] {
      InForce(ops[0], h);
      ComparatorInForce(ops[1..], if k < 0 then -1 else k - 1, Apply(ops[0], h));
    }
  }

  /** The same for the direction. */
  lemma {:induction false} DirectionInForce(ops: seq<Op>, k: int, h: Heap)
    requires LastOrderSet(ops, k)
    ensures Run(ops, h).order == if k < 0 then h.order else ops[k].order
    decreases ops
  {
    hide Apply;
    if ops != [] {
      InForce(ops[0], h);
      DirectionInForce(ops[1..], if k < 0 then -1 else k - 1, Apply(ops[0], h));
    }
  }

  /** So after a new comparator or direction, whatever the heap holds, extract returns what is
      least by it. */
  lemma ExtractAfterSetting(op: Op, h: Heap, i: nat)
    requires Good(h) && Allowed(op, h) && (op.CompareSet? || op.OrderSet?) && i < |h.elems|
    ensures var f := Directed(if op.CompareSet? then op.compare else h.compare, if op.OrderSet? then op.order else h.order);
            Apply(op, h).elems != [] && Cmp(f, Result(Extract, Apply(op, h)), h.elems[i]) <= 0
  {
    hide IsHeap, Sorted, IsComparator, Directed, Apply;
    Step(op, h);
    InForce(op, h);
    var r := Apply(op, h);
    SameElems(op, h);
    assert h.elems[i] in multiset(r.elems);
    var j :| 0 <= j < |r.elems| && r.elems[j] == h.elems[i];
    DirectedIsComparator(r.compare, r.order);
    TopIsLeast(r.Less(), r.elems, j);
  }

  lemma SameElems(op: Op, h: Heap)
    requires Good(h) && Allowed(op, h) && (op.CompareSet? || op.OrderSet?)
    ensures multiset(Apply(op, h).elems) == multiset(h.elems)
  {
    hide Apply, Good;
    Step(op, h);
    assert Out(op, h) == multiset{} == In(op, h);
    assert multiset(Apply(op, h).elems) + multiset{} == multiset(Apply(op, h).elems);
  }

  // ----- How many slots a run leaves -----

  /** The operations that replace the array by one of exactly the current size: a sort, and an
      item that has to sort first. */
  predicate Shrinks(op: Op, h: Heap) {
    op.Sort? || (op.Item? && op.i < |h.elems| && !h.sorted)
  }

  /** The operations that bring back the full array. */
  predicate Rebuilds(op: Op) {
    op.OrderSet? || op.CompareSet?
  }

  /** Step k of the run shrinks the array, and no later step changes its length again. */
  ghost predicate LastShrink(ops: seq<Op>, h: Heap, k: int) {
    && 0 <= k < |ops| && Shrinks(ops[k], Run(ops[..k], h))
    && forall i :: k < i < |ops| ==> !Shrinks(ops[i], Run(ops[..i], h)) && !Rebuilds(ops[i])
  }

  lemma {:induction false} RunSplit(ops: seq<Op>, k: nat, h: Heap)
    requires k < |ops|
    ensures Run(ops[..k + 1], h) == Apply(ops[k], Run(ops[..k], h))
    decreases |ops|
  {
    if k == 0 {
      assert ops[..1][1..] == [];
    } else {
      assert ops[..k + 1][1..] == ops[1..][..k] && ops[..k][1..] == ops[1..][..k - 1];
      RunSplit(ops[1..], k - 1, Apply(ops[0], h));
    }
  }

  lemma {:induction false} SpaceOverRun(ops: seq<Op>, h: Heap)
    ensures Run(ops, h).space == h.space
  {
    if ops != [] {
      SpaceOverRun(ops[1..], Apply(ops[0], h));
    }
  }

  /** The array has all its slots until a sort, and from then on as many as the heap held at the
      last sort, until the order or the comparator is set. Whether an insert overran before makes
      no difference to the lengths, so nothing is asked of the run. */
  lemma {:induction false} SlotsOverRun(ops: seq<Op>, h: Heap)
    requires h.slots == h.space
    ensures forall k :: LastShrink(ops, h, k) ==> Run(ops, h).slots == |Run(ops[..k], h).elems|
    ensures (forall k :: !LastShrink(ops, h, k)) ==> Run(ops, h).slots == h.space
    decreases |ops|
  {
    hide Run, Apply, Shrinks, Rebuilds;
    if ops == [] {
      RunNone(h);
    } else {
      var n := |ops| - 1;
      var prefix, op := ops[..n], ops[n];
      SlotsOverRun(prefix, h);
      RunSplit(ops, n, h);
      assert ops[..n + 1] == ops;
      SpaceOverRun(prefix, h);
      SlotsAfterStep(op, Run(prefix, h));
      forall k | 0 <= k <= n
        ensures ops[..k] == prefix[..k]
      {
      }
      forall k | LastShrink(ops, h, k)
        ensures Run(ops, h).slots == |Run(ops[..k], h).elems|
      {
        if k < n { assert LastShrink(prefix, h, k); }
      }
      if Shrinks(op, Run(prefix, h)) {
        assert LastShrink(ops, h, n);
      } else if !Rebuilds(op) {
        forall k | LastShrink(prefix, h, k)
          ensures LastShrink(ops, h, k)
        {
        }
      }
    }
  }

  lemma RunNone(h: Heap)
    ensures Run([], h) == h
  {
  }

  lemma SlotsAfterStep(op: Op, h: Heap)
    ensures Apply(op, h).slots == if Shrinks(op, h) then |h.elems| else if Rebuilds(op) then h.space else h.slots
  {
  }

  /** After every run that has stayed inside the array, the next insert overruns it exactly when
      there is space left and the heap holds as many elements as at the last sort since the array
      was last made whole. */
  lemma InsertOverRun(ops: seq<Op>, h: Heap, x: Ptr)
    requires Good(h) && h.slots == h.space && AllowedRun(ops, h)
    ensures var r := Run(ops, h);
            !Fits(Insert(x), r) <==> |r.elems| < h.space && exists k :: LastShrink(ops, h, k) && |r.elems| == |Run(ops[..k], h).elems|
  {
    hide Run, AllowedRun, LastShrink;
    EveryRun(ops, h);
    SlotsOverRun(ops, h);
    SpaceOverRun(ops, h);
  }

  /** The overrun on concrete input: two slots, one insert, one sort, and the next insert has
      nowhere to go. */
  lemma InsertAfterSortOverruns()
    ensures var h := Heap([], 2, 2, false, Min, DirectCompare);
            && Good(h) && AllowedRun([Insert(1), Sort], h)
            && Run([Insert(1), Sort], h) == Heap([1], 1, 2, true, Min, DirectCompare)
            && !Fits(Insert(7), Run([Insert(1), Sort], h))
  {
    var h := Heap([], 2, 2, false, Min, DirectCompare);
    var one := Heap([1], 2, 2, false, Min, DirectCompare);
    DirectCompareIsComparator();
    var ops: seq<Op> := [Insert(1), Sort];
    assert [] + [1] == [1];
    assert Apply(Insert(1), h) == one;
    assert Rest(DirectCompare, [1]) == [] && Drain(DirectCompare, [], 0) == [];
    assert Drain(DirectCompare, [1], 1) == [1];
    assert ops[1..] == [Sort] && ops[1..][1..] == [];
    assert Run(ops, h) == Run([Sort], one) == Run([], Apply(Sort, one));
  }
}
