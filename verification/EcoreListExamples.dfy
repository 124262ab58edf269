/** The smallest lists on which an operation of Ecore_List leaves `current`, `index` or the items
    wrong, one for each condition of EcoreListJoins and for the removal of an inner item. */
module EcoreListExamples {
  import opened Payloads
  import opened Sorting
  import opened EcoreSheap
  import opened EcoreNodes
  import C = EcoreCursor
  import L = EcoreList
  import J = EcoreListJoins

  method ListOf(items: seq<Ptr>) returns (l: L.EcoreList)
    ensures fresh(l) && l.Valid() && Data(l.s) == items && l.index == |items|
    ensures forall i {:trigger l.s[i]} :: 0 <= i < |l.s| ==> fresh(l.s[i])
  {
    hide Data, IsChain;
    l := new L.EcoreList();
    var i := 0;
    while i < |items|
      invariant 0 <= i <= |items| && l.Valid() && Data(l.s) == items[..i] && l.index == i
      invariant forall i {:trigger l.s[i]} :: 0 <= i < |l.s| ==> fresh(l.s[i])
    {
      l.Append(items[i]);
      assert forall i {:trigger l.s[i]} :: 0 <= i < |l.s| ==> l.s[i] in l.s;
      i := i + 1;
    }
  }

  /** A list whose cursor has been moved with next. */
  method ListAt(items: seq<Ptr>, k: nat) returns (l: L.EcoreList)
    requires k < |items|
    ensures fresh(l) && l.Valid() && l.State() == C.Cursor(items, k)
    ensures forall i {:trigger l.s[i]} :: 0 <= i < |l.s| ==> fresh(l.s[i])
  {
    hide Data, IsChain;
    l := ListOf(items);
    var x := l.FirstGoto();
    var i := 0;
    while i < k
      invariant 0 <= i <= k && l.Valid() && l.State() == C.Cursor(items, i)
      invariant forall i {:trigger l.s[i]} :: 0 <= i < |l.s| ==> fresh(l.s[i])
    {
      x := l.Next();
      i := i + 1;
    }
  }

  /** ecore_list_prepend_list onto a new list: the index is 0, but nothing is current. */
  method PrependToNew() returns (l: L.EcoreList)
    ensures AtOdds(l, [5], 0) && l.current == null
  {
    hide Data, IsChain;
    l := new L.EcoreList();
    var other := ListOf([5]);
    J.PrependList(l, other);
  }

  /** The list is well formed, and the cursor is not where the index says. */
  ghost predicate AtOdds(l: L.EcoreList, items: seq<Ptr>, index: int)
    reads l, l.s
  {
    J.AllButCursor(l, items) && l.index == index && !l.Valid()
  }

  /** ecore_list_append_list onto a list that has lost its only item: the first node is current,
      but the index is 1. */
  method AppendToEmptied() returns (l: L.EcoreList)
    ensures AtOdds(l, [6], 1) && l.current == l.first
  {
    hide Data, IsChain;
    l := ListOf([5]);
    var x := l.LastRemove();
    var other := ListOf([6]);
    J.AppendList(l, other);
  }

  /** ecore_list_insert with the cursor on the second item: the new item is current at position
      1, but the index is 0. */
  method InsertAtSecond() returns (l: L.EcoreList)
    ensures AtOdds(l, [5, 7, 6], 0) && l.current == At(l.s, 1)
  {
    hide Data, IsChain;
    l := ListAt([5, 6], 1);
    J.Insert(l, 7);
  }

  lemma MergeFacts()
    ensures IsComparator(DirectCompare) && Directed(DirectCompare, Min) == DirectCompare
    ensures Sorted(DirectCompare, [5]) && Sorted(DirectCompare, [3]) && Cmp(DirectCompare, 5, 3) != 0
    ensures Merge(DirectCompare, false, [5], [3]) == [3, 5] && !J.CursorKept(DirectCompare, C.Cursor([5], 0), [3])
  {
    DirectCompareIsComparator();
    var b: seq<Ptr> := [3];
    assert b[1..] == [];
  }

  /** ecore_list_merge with the cursor on an item greater than the other list's first: it is now
      at position 1, but the index is 0. */
  method MergeBelowCurrent() returns (l: L.EcoreList)
    ensures AtOdds(l, [3, 5], 0) && l.current != null && l.current.data == 5
  {
    hide Data, IsChain, IsComparator, Directed, Sorted, Merge, J.CursorKept;
    l := ListAt([5], 0);
    var other := ListOf([3]);
    MergeFacts();
    assert l.current.data == 5 by { assert l.current.data == Data(l.s)[0]; }
    J.MergeLists(l, other, DirectCompare, Min);
  }

  /** ecore_list_remove of the item 7 behind a NULL and two others: the item 6 in front of it is
      lost as well, while the length still counts it. */
  method RemoveLosesItem() returns (l: L.EcoreList, x: Ptr)
    ensures x == 7 && l.Shape() && Data(l.s) == [NULL, 5, 8] && l.nodes == 4 && l.index == 1 && l.current == At(l.s, 2)
  {
    hide Data, IsChain, C.Walkable, C.Obstacle;
    l := ListAt([NULL, 5, 6, 7, 8], 3);
    ghost var c := l.State();
    C.WalkEnds(c, 2, 0);
    x := l.Remove();
    assert c.items[..2] + c.items[4..] == [NULL, 5, 8];
  }
}
