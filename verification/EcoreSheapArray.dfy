/** Ecore_Sheap in its array. Every operation refines EcoreSheap; allocation is taken to succeed
    except in ecore_sheap_new. */
module EcoreSheapArray {
  import opened Payloads
  import opened Sorting
  import opened EcoreSheap

  /** The tests of the two copies of each loop, one copy a direction. */
  function Beyond(compare: Compare, order: Direction, x: Ptr, y: Ptr): (r: bool)
    ensures r <==> Cmp(Directed(compare, order), x, y) > 0
  {
    match order
    case Min => compare(x, y) > 0
    case Max => compare(x, y) < 0
  }

  function Before(compare: Compare, order: Direction, x: Ptr, y: Ptr): (r: bool)
    ensures r <==> Cmp(Directed(compare, order), x, y) < 0
  {
    match order
    case Min => compare(x, y) < 0
    case Max => compare(x, y) > 0
  }

  lemma SwappedSlice(data: array<Ptr>, size: nat, was: seq<Ptr>, i: nat, j: nat)
    requires size <= data.Length && |was| == size && i < size && j < size
    requires forall k :: 0 <= k < size ==> data[k] == if k == i then was[j] else if k == j then was[i] else was[k]
    ensures data[..size] == Swapped(was, i, j)
  {
  }

  /** Lines 150-204: the last element rises to its place. */
  method Rise(data: array<Ptr>, size: nat, compare: Compare, order: Direction)
    requires 0 < size <= data.Length
    modifies data
    ensures data[..size] == SiftUp(Directed(compare, order), old(data[..size]), size - 1)
    ensures forall k :: size <= k < data.Length ==> data[k] == old(data[k])
  {
    hide Directed, Swapped;
    var i: int, position: int, parent: int := size, size - 1, size / 2 - 1;
    ghost var f, goal := Directed(compare, order), SiftUp(Directed(compare, order), data[..size], size - 1);
    while position > 0 && Beyond(compare, order, data[parent], data[position])
      invariant 0 <= position < size && i == position + 1 && parent == i / 2 - 1
      invariant SiftUp(f, data[..size], position) == goal
      invariant forall k :: size <= k < data.Length ==> data[k] == old(data[k])
      decreases position
    {
      ghost var was := data[..size];
      var temp := data[position];
      data[position] := data[parent];
      data[parent] := temp;
      SwappedSlice(data, size, was, position, parent);
      i := i / 2;
      position := i - 1;
      parent := i / 2 - 1;
    }
  }

  /** The position to swap with, counted from 1 as in the original. */
  method FindExtreme(data: array<Ptr>, size: nat, i: nat, compare: Compare, order: Direction) returns (extreme: nat)
    requires size <= data.Length && 0 < i
    ensures i <= size ==> extreme == Extreme(Directed(compare, order), data[..size], i - 1) + 1
    ensures i > size ==> extreme == i
  {
    hide Directed;
    var left, right := 2 * i, 2 * i + 1;
    if left <= size && Before(compare, order, data[left - 1], data[i - 1]) {
      extreme := left;
    } else {
      extreme := i;
    }
    if right <= size && Before(compare, order, data[right - 1], data[extreme - 1]) {
      extreme := right;
    }
  }

  /** _ecore_sheap_heapify; on an emptied heap it does nothing. */
  method Heapify(data: array<Ptr>, size: nat, i: nat, compare: Compare, order: Direction)
    requires size <= data.Length && 0 < i
    modifies data
    ensures i <= size ==> data[..size] == SiftDown(Directed(compare, order), old(data[..size]), i - 1)
    ensures i > size ==> data[..size] == old(data[..size])
    ensures forall k :: size <= k < data.Length ==> data[k] == old(data[k])
    decreases size - i
  {
    hide Directed, Swapped, Extreme;
    var extreme := FindExtreme(data, size, i, compare, order);
    if extreme != i {
      ghost var was := data[..size];
      var temp := data[extreme - 1];
      data[extreme - 1] := data[i - 1];
      data[i - 1] := temp;
      SwappedSlice(data, size, was, extreme - 1, i - 1);
      Heapify(data, size, extreme, compare, order);
    }
  }

  class Sheap {
    var data: array<Ptr>
    var size: int
    var space: int
    var sorted: bool
    var order: Direction
    var compare: Compare

    ghost function State(): Heap
      requires 0 <= size <= data.Length && 0 <= space
      reads this, data
    {
      Heap(data[..size], data.Length, space, sorted, order, compare)
    }

    ghost predicate Valid()
      reads this, data
    {
      0 <= size <= data.Length && 0 <= space && Good(State())
    }

    /** ecore_sheap_new once its allocations have succeeded. */
    constructor (compare: Compare, size: nat)
      requires IsComparator(compare)
      ensures Valid() && fresh(data) && State() == Heap([], size, size, false, Min, compare)
    {
      this.compare := compare;
      this.size, space, sorted, order := 0, size, false, Min;
      data := new Ptr[size](_ => NULL);
    }

    /** ecore_sheap_insert. Where the original would write behind its array the model stops and
        says so. */
    method Insert(x: Ptr) returns (ok: bool, overrun: bool)
      requires Valid()
      modifies this`size, this`sorted, data
      ensures Valid() && overrun == !Fits(Op.Insert(x), old(State()))
      ensures if overrun then State() == old(State()) && !ok
              else State() == DoInsert(old(State()), x) && ok == (old(size) < space)
      ensures size == if ok then old(size) + 1 else old(size)
    {
      hide Directed, Inserted, IsHeap, Sorted, IsComparator;
      ghost var was := State();
      if size >= space {
        return false, false;
      }
      if size >= data.Length {
        return false, true;
      }
      StaysGood(Op.Insert(x), was);
      sorted := false;
      data[size] := x;
      size := size + 1;
      assert data[..size] == was.elems + [x];
      Rise(data, size, compare, order);
      InsertedIs(was.Less(), was.elems, x);
      ok, overrun := true, false;
    }

    method Extract() returns (extreme: Ptr)
      requires Valid()
      modifies this`size, this`sorted, data
      ensures Valid() && State() == DoExtract(old(State()))
      ensures extreme == if old(State().elems) == [] then NULL else old(State().elems)[0]
      ensures size == if old(size) < 1 then old(size) else old(size) - 1
    {
      hide Directed, SiftDown, Rest, IsHeap, Sorted, IsComparator;
      ghost var was := State();
      StaysGood(Op.Extract, was);
      if size < 1 {
        return NULL;
      }
      sorted := false;
      extreme := data[0];
      size := size - 1;
      data[0] := data[size];
      ghost var t := was.elems[0 := was.elems[size]][..size];
      assert data[..size] == t;
      Heapify(data, size, 1, compare, order);
      RestIs(was.Less(), was.elems, t);
    }

    /** _ecore_sheap_update_data: a fresh array, filled by inserting the old elements in turn. */
    method UpdateData()
      requires 0 <= size <= data.Length && size <= space && IsComparator(compare)
      modifies this`size, this`data, this`sorted
      ensures Valid() && fresh(data) && State() == Rebuilt(old(State()))
    {
      hide Directed, Inserted, IsHeap, Sorted, IsComparator;
      ghost var was, f := State(), State().Less();
      var oldSize, oldData := size, data;
      size := 0;
      data := new Ptr[space](_ => NULL);
      EmptyIsGood(State());
      var i := 0;
      while i < oldSize
        invariant 0 <= i <= oldSize && Valid() && fresh(data) && data != oldData && oldData[..oldSize] == was.elems
        invariant State() == was.(elems := Build(f, was.elems[..i]), slots := was.space, sorted := was.sorted && i == 0)
        invariant size == i
      {
        BuildPrefix(f, was.elems, i);
        var ok, overrun := Insert(oldData[i]);
        i := i + 1;
      }
      assert was.elems[..i] == was.elems;
    }

    method OrderSet(newOrder: Direction)
      requires Valid()
      modifies this
      ensures Valid() && fresh(data) && State() == Apply(Op.OrderSet(newOrder), old(State()))
      ensures order == newOrder && compare == old(compare)
    {
      order := newOrder;
      UpdateData();
    }

    method CompareSet(newCompare: Compare)
      requires Valid() && IsComparator(newCompare)
      modifies this
      ensures Valid() && fresh(data) && State() == Apply(Op.CompareSet(newCompare), old(State()))
      ensures compare == newCompare && order == old(order)
    {
      compare := newCompare;
      UpdateData();
    }

    method Sort()
      requires Valid()
      modifies this, data
      ensures Valid() && fresh(data) && State() == DoSort(old(State()))
      ensures sorted && data.Length == size == old(size) && compare == old(compare) && order == old(order)
    {
      hide Directed, Rest, IsHeap, Sorted, IsComparator, Drain;
      ghost var was, f := State(), State().Less();
      ghost var goal := Drain(f, was.elems, |was.elems|);
      StaysGood(Op.Sort, was);
      var newData := new Ptr[size](_ => NULL);
      var i := 0;
      while size > 0
        invariant 0 <= i && Valid() && data == old(data) && i + size == newData.Length == |was.elems|
        invariant State() == was.(elems := State().elems, sorted := State().sorted)
        invariant newData[..i] + Drain(f, State().elems, size) == goal
        decreases size
      {
        DrainNext(f, State().elems, newData[..i]);
        ghost var done := newData[..i];
        var x := Extract();
        newData[i] := x;
        i := i + 1;
        assert newData[..i] == done + [x];
      }
      DrainNone(f, State().elems, newData[..i]);
      data := newData;
      size := i;
      sorted := true;
    }

    /** ecore_sheap_item, which sorts first unless the heap is known to be sorted. */
    method Item(i: nat) returns (x: Ptr)
      requires Valid()
      modifies this, data
      ensures Valid() && State() == DoItem(old(State()), i)
      ensures var after := DoItem(old(State()), i); x == if i < |after.elems| then after.elems[i] else NULL
      ensures data == old(data) || fresh(data)
      ensures compare == old(compare) && order == old(order)
    {
      if i >= size {
        return NULL;
      }
      if !sorted {
        ItemInOrder(State(), i);
        Sort();
      }
      x := data[i];
    }
  }

  lemma EmptyIsGood(h: Heap)
    requires h.elems == [] && IsComparator(h.compare)
    ensures Good(h)
  {
  }

  lemma DrainNext(f: Compare, s: seq<Ptr>, done: seq<Ptr>)
    requires s != []
    ensures |Rest(f, s)| == |s| - 1
    ensures done + Drain(f, s, |s|) == done + [s[0]] + Drain(f, Rest(f, s), |s| - 1)
  {
    RestLength(f, s);
  }

  lemma DrainNone(f: Compare, s: seq<Ptr>, done: seq<Ptr>)
    requires s == []
    ensures done + Drain(f, s, 0) == done
  {
  }

  lemma StaysGood(op: Op, h: Heap)
    requires Good(h) && Allowed(op, h)
    ensures Good(Apply(op, h)) && |h.elems| <= h.slots && |h.elems| <= h.space
  {
    Step(op, h);
  }

  lemma RestIs(f: Compare, s: seq<Ptr>, t: seq<Ptr>)
    requires s != [] && t == s[0 := s[|s| - 1]][..|s| - 1]
    ensures Rest(f, s) == if t == [] then t else SiftDown(f, t, 0)
  {
  }

  lemma InsertedIs(f: Compare, s: seq<Ptr>, x: Ptr)
    ensures Inserted(f, s, x) == SiftUp(f, s + [x], |s|)
  {
  }

  // ----- Runs -----

  /** Every comparator that a script sets is one. */
  ghost predicate AllComparators(ops: seq<Op>) {
    forall i :: 0 <= i < |ops| && ops[i].CompareSet? ==> IsComparator(ops[i].compare)
  }

  method Dispatch(heap: Sheap, op: Op) returns (r: Ptr, overrun: bool)
    requires heap.Valid() && (op.CompareSet? ==> IsComparator(op.compare))
    modifies heap, heap.data
    ensures heap.Valid() && overrun == !Fits(op, old(heap.State()))
    ensures if overrun then heap.State() == old(heap.State())
            else heap.State() == Apply(op, old(heap.State())) && r == Result(op, old(heap.State()))
    ensures heap.data == old(heap.data) || fresh(heap.data)
  {
    hide Good, Rebuilt, DoSort, Inserted, Rest;
    r, overrun := NULL, false;
    match op {
      case Insert(x) =>
        var ok;
        ok, overrun := heap.Insert(x);
      case Extract => r := heap.Extract();
      case OrderSet(order) => heap.OrderSet(order);
      case CompareSet(compare) => heap.CompareSet(compare);
      case Sort => heap.Sort();
      case Item(i) => r := heap.Item(i);
    }
  }

  /** Every script on a heap, up to the first insert that would write past the array: state and
      results are those of the plain heap, whose order, flag and elements are right. */
  method RunScript(heap: Sheap, ops: seq<Op>) returns (results: seq<Ptr>)
    requires heap.Valid() && AllComparators(ops)
    modifies heap, heap.data
    ensures heap.Valid() && |results| <= |ops|
    ensures var done, h := ops[..|results|], old(heap.State());
            && AllowedRun(done, h) && heap.State() == Run(done, h) && results == Results(done, h)
            && multiset(heap.State().elems) + AllOut(done, h) == multiset(h.elems) + AllIn(done, h)
            && (|results| < |ops| ==> !Fits(ops[|results|], heap.State()))
    decreases |ops|
  {
    hide Good, Apply, Result, Fits, Run, Results, AllowedRun, AllIn, AllOut, Sheap.State;
    results := [];
    ghost var h := heap.State();
    NothingRun(ops, h);
    if ops == [] {
      return;
    }
    var r, overrun := Dispatch(heap, ops[0]);
    if overrun {
      return;
    }
    var rest := RunScript(heap, ops[1..]);
    results := [r] + rest;
    FirstThenRest(ops, |rest|, h);
  }

  lemma NothingRun(ops: seq<Op>, h: Heap)
    ensures var none := ops[..0];
            && AllowedRun(none, h) && Run(none, h) == h && Results(none, h) == []
            && AllIn(none, h) == multiset{} && AllOut(none, h) == multiset{}
  {
  }

  lemma FirstThenRest(ops: seq<Op>, k: nat, h: Heap)
    requires ops != [] && k < |ops| && Good(h) && Allowed(ops[0], h)
    requires AllowedRun(ops[1..][..k], Apply(ops[0], h))
    ensures var done, rest, next := ops[..k + 1], ops[1..][..k], Apply(ops[0], h);
            && AllowedRun(done, h) && Run(done, h) == Run(rest, next) && Results(done, h) == [Result(ops[0], h)] + Results(rest, next)
            && multiset(Run(done, h).elems) + AllOut(done, h) == multiset(h.elems) + AllIn(done, h)
  {
    hide Good, Apply, Result, Allowed;
    assert ops[..k + 1][1..] == ops[1..][..k];
    EveryRun(ops[..k + 1], h);
  }
}
