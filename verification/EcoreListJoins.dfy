/** The operations of Ecore_List that insert at the cursor or join two lists. They always leave
    the right payloads, but `last`, `current` and `index` agree with them only in some cases, and
    this module says exactly in which. */
module EcoreListJoins {
  import opened Payloads
  import opened Sequences
  import opened Sorting
  import opened EcoreSheap
  import opened EcoreNodes
  import C = EcoreCursor
  import L = EcoreList

  // ----- Merging two sorted lists -----

  lemma SortedRest(f: Compare, s: seq<Node>)
    requires s != [] && Sorted(f, Data(s))
    ensures Sorted(f, Data(s[1..])) && Data(s[1..]) == Data(s)[1..]
  {
    hide Sorted;
    DataHalves(s, 1);
    SortedTail(f, Data(s));
  }

  lemma SortedTail(f: Compare, d: seq<Ptr>)
    requires d != [] && Sorted(f, d)
    ensures Sorted(f, d[1..])
  {
    forall i, j | 0 <= i < j < |d| - 1
      ensures Cmp(f, d[1..][i], d[1..][j]) <= 0
    {
      assert d[1..][i] == d[i + 1] && d[1..][j] == d[j + 1];
    }
  }

  lemma FirstIsLeast(f: Compare, s: seq<Node>)
    requires IsComparator(f) && s != [] && Sorted(f, Data(s))
    ensures Cmp(f, s[0].data, s[|s| - 1].data) <= 0
  {
    var d := Data(s);
    LessThan(f, d[0], d[0]);
  }

  /** The merge of two sorted lists ends with the last node of the second one, unless that of
      the first one is greater. */
  lemma {:induction false} MergedTail(f: Compare, a: seq<Node>, b: seq<Node>)
    requires IsComparator(f) && a != [] && b != [] && Sorted(f, Data(a)) && Sorted(f, Data(b))
    ensures var m, x, y := MergedNodes(f, a, b), a[|a| - 1], b[|b| - 1];
            m != [] && m[|m| - 1] == if Cmp(f, x.data, y.data) > 0 then x else y
    decreases |a| + |b|
  {
    hide IsComparator, Sorted, Data;
    FirstIsLeast(f, a);
    FirstIsLeast(f, b);
    if Cmp(f, a[0].data, b[0].data) <= 0 {
      if |a| == 1 {
        AtMostChain(f, a[0].data, b[0].data, b[|b| - 1].data);
      } else {
        SortedRest(f, a);
        MergedTail(f, a[1..], b);
      }
    } else {
      if |b| == 1 {
        Above(f, a[0].data, a[|a| - 1].data, b[0].data);
      } else {
        SortedRest(f, b);
        MergedTail(f, a, b[1..]);
      }
    }
  }

  lemma Above(f: Compare, x: Ptr, y: Ptr, z: Ptr)
    requires IsComparator(f) && Cmp(f, x, y) <= 0 && Cmp(f, x, z) > 0
    ensures Cmp(f, y, z) > 0
  {
    if Cmp(f, y, z) <= 0 {
      AtMostChain(f, x, y, z);
    }
  }

  /** No node of the first list comes earlier than it was. */
  lemma {:induction false} NotEarlier(f: Compare, a: seq<Node>, b: seq<Node>, p: nat, k: nat)
    requires Distinct(a) && Apart(b, a) && p < k < |a|
    ensures p < |MergedNodes(f, a, b)| && MergedNodes(f, a, b)[p] != a[k]
    decreases |a| + |b|
  {
    assert Differ(a, p, k) && a[k] in a;
    if b != [] {
      assert b[0] in b;
      if Cmp(f, a[0].data, b[0].data) <= 0 {
        RestApart(a, b);
        assert Differ(a, 0, k);
        if p > 0 { NotEarlier(f, a[1..], b, p - 1, k - 1); }
      } else {
        if p > 0 { NotEarlier(f, a, b[1..], p - 1, k); }
      }
    }
  }

  lemma RestApart(a: seq<Node>, b: seq<Node>)
    requires Distinct(a) && Apart(b, a) && a != []
    ensures Distinct(a[1..]) && Apart(b, a[1..])
  {
    var r := a[1..];
    forall i, j
      ensures Differ(r, i, j)
    {
      assert Differ(a, i + 1, j + 1);
    }
  }

  /** A node of the first list keeps its position exactly if nothing in the second list is less
      than its payload. */
  lemma {:induction false} KeepsPosition(f: Compare, a: seq<Node>, b: seq<Node>, k: nat)
    requires IsComparator(f) && Distinct(a) && Apart(b, a) && Sorted(f, Data(a)) && k < |a| && b != []
    ensures k < |MergedNodes(f, a, b)|
    ensures MergedNodes(f, a, b)[k] == a[k] <==> Cmp(f, a[k].data, b[0].data) <= 0
    decreases |a| + |b|
  {
    hide IsComparator, Sorted, Data, Distinct;
    HeadLeast(f, a, k);
    if Cmp(f, a[0].data, b[0].data) <= 0 {
      if k > 0 {
        SortedRest(f, a);
        RestApart(a, b);
        if |a| > 1 { KeepsPosition(f, a[1..], b, k - 1); }
      }
    } else {
      Above(f, a[0].data, a[k].data, b[0].data);
      assert b[0] in b && a[k] in a;
      if k > 0 { NotEarlier(f, a, b[1..], k - 1, k); }
    }
  }

  lemma HeadLeast(f: Compare, a: seq<Node>, k: nat)
    requires IsComparator(f) && Sorted(f, Data(a)) && k < |a|
    ensures Cmp(f, a[0].data, a[k].data) <= 0
  {
    var d := Data(a);
    LessThan(f, d[0], d[0]);
  }

  /** With tied tails the merge ends with the second one. */
  lemma TiedTails(f: Compare, x: Node, y: Node)
    requires Cmp(f, x.data, y.data) == 0
    ensures MergedNodes(f, [x], [y]) == [x, y]
  {
    var a := [x];
    assert a[1..] == [];
  }

  /** Lines 1088-1091 and 2000-2003, for singly and doubly linked lists: the nodes are merged,
      and the new `last` is the true tail exactly if the two old ones do not compare equal. */
  method MergeNodes(double: bool, first1: Node, last1: Node, first2: Node, last2: Node, compare: Compare, order: Direction,
                    ghost a: seq<Node>, ghost b: seq<Node>)
    returns (first: Node, last: Node, ghost s: seq<Node>)
    requires IsComparator(compare) && IsChain(double, a) && IsChain(double, b) && Apart(a, b) && a != [] && b != []
    requires first1 == a[0] && last1 == a[|a| - 1] && first2 == b[0] && last2 == b[|b| - 1]
    requires Sorted(Directed(compare, order), Data(a)) && Sorted(Directed(compare, order), Data(b))
    modifies a`next, a`previous, b`next, b`previous
    ensures IsChain(double, s) && first == At(s, 0) && s == MergedNodes(Directed(compare, order), a, b)
    ensures Data(s) == Merge(Directed(compare, order), false, old(Data(a)), old(Data(b)))
    ensures last == if Cmp(Directed(compare, order), last1.data, last2.data) < 0 then last2 else last1
    ensures last == At(s, |s| - 1) <==> Cmp(Directed(compare, order), last1.data, last2.data) != 0
  {
    hide IsChain, Data, Directed, Sorted, IsComparator, MergedNodes;
    ghost var f := Directed(compare, order);
    ghost var all := set n | n in a + b;
    DirectedIsComparator(compare, order);
    MergedTail(f, a, b);
    assert a[|a| - 1] in a && b[|b| - 1] in b;
    first, s := NodeMerge(double, first1, first2, compare, order, a, b, all);
    last := last1;
    if compare(last1.data, last2.data) * (if order == Min then 1 else -1) < 0 {
      last := last2;
    }
    Below(compare, order, last1.data, last2.data);
  }

  lemma Below(compare: Compare, order: Direction, x: Ptr, y: Ptr)
    ensures compare(x, y) * (if order == Min then 1 else -1) < 0 <==> Cmp(Directed(compare, order), x, y) < 0
  {
  }

  // ----- Lists -----

  /** ecore_list_init. */
  method Init(l: L.EcoreList)
    modifies l
    ensures l.Valid() && l.State() == C.Cursor([], 0) && l.s == []
  {
    l.first, l.last, l.current := null, null, null;
    l.nodes, l.index, l.s := 0, 0, [];
  }

  lemma Joined(a: seq<Node>, b: seq<Node>)
    requires Distinct(a) && Distinct(b) && Apart(b, a)
    ensures Distinct(a + b) && Data(a + b) == Data(a) + Data(b)
  {
    hide Data;
    DataConcat(a, b);
    var t := a + b;
    forall i, j
      ensures Differ(t, i, j)
    {
      assert Differ(a, i, j) && Differ(b, i - |a|, j - |a|);
      assert 0 <= i < |a| ==> t[i] in a;
      assert |a| <= i < |t| ==> t[i] in b;
      assert 0 <= j < |a| ==> t[j] in a;
      assert |a| <= j < |t| ==> t[j] in b;
    }
  }

  /** Lines 384 and 418: one chain is linked behind another. */
  method LinkBehind(last: Node, first: Node, ghost a: seq<Node>, ghost b: seq<Node>)
    requires IsChain(false, a) && IsChain(false, b) && Apart(b, a) && a != [] && b != []
    requires last == a[|a| - 1] && first == b[0]
    modifies last`next
    ensures IsChain(false, a + b) && Data(a + b) == old(Data(a)) + old(Data(b))
  {
    hide Data;
    ChainFacts(false, a);
    Joined(a, b);
    assert last in a;
    last.next := first;
    ghost var t := a + b;
    assert forall i {:trigger t[i]} :: 0 <= i < |t| ==> t[i] == if i < |a| then a[i] else b[i - |a|];
  }

  /** The fields agree on everything but the cursor. */
  ghost predicate AllButCursor(l: L.EcoreList, items: seq<Ptr>)
    reads l, l.s
  {
    l.Shape() && l.nodes == |l.s| && Data(l.s) == items
  }

  /** ecore_list_append_list: the cursor stays right unless it is past the end and the index is
      not past the new end, or the list was empty and the index is not 0. */
  method AppendList(l: L.EcoreList, append: L.EcoreList)
    requires l != append && l.Valid() && append.Valid() && Apart(append.s, l.s)
    modifies l, append, l.s`next
    ensures append.Valid() && append.State() == if old(append.s) == [] then old(append.State()) else C.Cursor([], 0)
    ensures AllButCursor(l, old(Data(l.s)) + old(Data(append.s))) && l.index == old(l.index)
    ensures var n, m := |old(l.s)|, |old(append.s)|;
            && l.current == (if n == 0 && m > 0 then l.first else old(l.current))
            && (l.Valid() <==> m == 0 || (if n == 0 then l.index == 0 else l.index < n || l.index >= n + m))
  {
    hide Data, IsChain;
    if append.nodes == 0 {
      NoData(append.s);
      return;
    }
    ghost var a, b := l.s, append.s;
    if l.nodes == 0 {
      l.first, l.current, l.last, l.nodes := append.first, append.first, append.last, append.nodes;
      l.s := b;
      NoData(a);
      assert Data(a) + Data(b) == Data(b);
    } else {
      LinkBehind(l.last, append.first, a, b);
      l.last := append.last;
      l.nodes := l.nodes + append.nodes;
      l.s := a + b;
    }
    ChainFacts(false, l.s);
    Init(append);
  }

  /** Lines 411-414: an empty list takes the other one over, without a current node. */
  method TakeOver(l: L.EcoreList, prepend: L.EcoreList)
    requires l != prepend && l.Valid() && prepend.Valid() && l.s == []
    modifies l
    ensures AllButCursor(l, Data(prepend.s)) && l.index == old(l.index) && l.s == prepend.s
    ensures l.current == null && (l.Valid() <==> l.index >= |prepend.s|)
  {
    hide Data, IsChain;
    l.first, l.current, l.last, l.nodes := prepend.first, null, prepend.last, prepend.nodes;
    l.s := prepend.s;
  }

  /** Lines 418-421: the other list goes in front, and the index follows. */
  method LinkInFront(l: L.EcoreList, prepend: L.EcoreList)
    requires l != prepend && l.Valid() && prepend.Valid() && Apart(l.s, prepend.s) && l.s != [] && prepend.s != []
    modifies l, prepend.s`next
    ensures l.current == old(l.current)
    ensures l.Valid() && l.State() == C.Cursor(old(Data(prepend.s)) + old(Data(l.s)), old(l.index) + |prepend.s|)
  {
    hide Data, IsChain;
    ghost var a, b := l.s, prepend.s;
    LinkBehind(prepend.last, l.first, b, a);
    l.first := prepend.first;
    l.nodes := l.nodes + prepend.nodes;
    l.index := l.index + prepend.nodes;
    l.s := b + a;
  }

  /** ecore_list_prepend_list: the cursor stays right unless the list was empty and the index is
      not past the new end. */
  method PrependList(l: L.EcoreList, prepend: L.EcoreList)
    requires l != prepend && l.Valid() && prepend.Valid() && Apart(l.s, prepend.s)
    modifies l, prepend, prepend.s`next
    ensures prepend.Valid() && prepend.State() == if old(prepend.s) == [] then old(prepend.State()) else C.Cursor([], 0)
    ensures AllButCursor(l, old(Data(prepend.s)) + old(Data(l.s)))
    ensures var n, m := |old(l.s)|, |old(prepend.s)|;
            && l.index == (if n == 0 then old(l.index) else old(l.index) + m)
            && l.current == (if n == 0 && m > 0 then null else old(l.current))
            && (l.Valid() <==> n > 0 || m == 0 || l.index >= m)
  {
    hide Data, IsChain;
    NoData(l.s);
    NoData(prepend.s);
    if prepend.nodes == 0 {
      assert Data(prepend.s) + Data(l.s) == Data(l.s);
      return;
    }
    if l.nodes == 0 {
      TakeOver(l, prepend);
    } else {
      LinkInFront(l, prepend);
    }
    Init(prepend);
  }

  /** Where a merge of two lists leaves the cursor of the first one right: its payload must not
      be greater than the first one of the other list, or it must be past both. */
  ghost predicate CursorKept(f: Compare, c: C.Cursor, b: seq<Ptr>)
    requires b != []
  {
    if c.items == [] then c.index == 0
    else if c.index < |c.items| then Cmp(f, c.items[c.index], b[0]) <= 0
    else c.index >= |c.items| + |b|
  }

  lemma {:induction false} MergedLength(f: Compare, a: seq<Node>, b: seq<Node>)
    ensures |MergedNodes(f, a, b)| == |a| + |b|
    decreases |a| + |b|
  {
    if a != [] && b != [] {
      if Cmp(f, a[0].data, b[0].data) <= 0 {
        MergedLength(f, a[1..], b);
      } else {
        MergedLength(f, a, b[1..]);
      }
    }
  }

  /** The node at the index is still there after the merge exactly as CursorKept says. */
  lemma MergedCursor(f: Compare, a: seq<Node>, b: seq<Node>, c: C.Cursor)
    requires IsComparator(f) && Distinct(a) && Apart(b, a) && Sorted(f, Data(a)) && a != [] && b != [] && c.items == Data(a)
    ensures At(MergedNodes(f, a, b), c.index) == At(a, c.index) <==> CursorKept(f, c, Data(b))
  {
    hide IsComparator, Distinct, Apart, Sorted, MergedNodes;
    MergedLength(f, a, b);
    if c.index < |a| {
      KeepsPosition(f, a, b, c.index);
    }
  }

  lemma ChainDistinct(s: seq<Node>)
    requires IsChain(false, s)
    ensures Distinct(s)
  {
  }

  /** ecore_list_merge on sorted lists: the payloads are merged and the second list is emptied;
      `last` is right exactly if the two tails are not tied, and the cursor as CursorKept says. */
  method MergeLists(l: L.EcoreList, l2: L.EcoreList, compare: Compare, order: Direction)
    requires l != l2 && l.Valid() && l2.Valid() && Apart(l2.s, l.s) && IsComparator(compare)
    requires Sorted(Directed(compare, order), Data(l.s)) && Sorted(Directed(compare, order), Data(l2.s))
    modifies l, l2, l.s`next, l.s`previous, l2.s`next, l2.s`previous
    ensures l2.Valid() && l2.State() == if old(l2.s) == [] then old(l2.State()) else C.Cursor([], 0)
    ensures Data(l.s) == Merge(Directed(compare, order), false, old(Data(l.s)), old(Data(l2.s)))
    ensures IsChain(false, l.s) && l.first == At(l.s, 0) && l.nodes == |l.s| && l.index == old(l.index)
    ensures var f, a, b := Directed(compare, order), old(Data(l.s)), old(Data(l2.s));
            && (l.Shape() <==> a == [] || b == [] || Cmp(f, a[|a| - 1], b[|b| - 1]) != 0)
            && l.current == (if a == [] && b != [] then l.first else old(l.current))
            && (l.Valid() <==> b == [] || (l.Shape() && CursorKept(f, old(l.State()), b)))
  {
    hide Data, IsChain, Directed, Sorted, IsComparator, MergedNodes;
    ghost var f, a, b := Directed(compare, order), l.s, l2.s;
    if l2.nodes == 0 {
      return;
    }
    if l.nodes == 0 {
      AppendList(l, l2);
      return;
    }
    MergeBoth(l, l2, compare, order);
  }

  /** Lines 1088-1094, for two lists that are not empty. */
  method MergeBoth(l: L.EcoreList, l2: L.EcoreList, compare: Compare, order: Direction)
    requires l != l2 && l.Valid() && l2.Valid() && Apart(l2.s, l.s) && IsComparator(compare) && l.s != [] && l2.s != []
    requires Sorted(Directed(compare, order), Data(l.s)) && Sorted(Directed(compare, order), Data(l2.s))
    modifies l, l2, l.s`next, l.s`previous, l2.s`next, l2.s`previous
    ensures l2.Valid() && l2.State() == C.Cursor([], 0)
    ensures Data(l.s) == Merge(Directed(compare, order), false, old(Data(l.s)), old(Data(l2.s)))
    ensures IsChain(false, l.s) && l.first == At(l.s, 0) && l.nodes == |l.s| && l.index == old(l.index)
    ensures var f, a, b := Directed(compare, order), old(Data(l.s)), old(Data(l2.s));
            && (l.Shape() <==> Cmp(f, a[|a| - 1], b[|b| - 1]) != 0)
            && l.current == old(l.current)
            && (l.Valid() <==> l.Shape() && CursorKept(f, old(l.State()), b))
  {
    hide Data, IsChain, Directed, Sorted, IsComparator, MergedNodes, Merge, CursorKept;
    ghost var f, a, b := Directed(compare, order), l.s, l2.s;
    DirectedIsComparator(compare, order);
    ChainDistinct(a);
    MergedLength(f, a, b);
    MergedCursor(f, a, b, l.State());
    ghost var s;
    l.first, l.last, s := MergeNodes(false, l.first, l.last, l2.first, l2.last, compare, order, a, b);
    l.nodes := l.nodes + l2.nodes;
    l.s := s;
    Init(l2);
  }

  lemma Spliced(s: seq<Node>, p: nat, k: nat, node: Node)
    requires Distinct(s) && p < k <= |s| && node !in s
    ensures var t := s[..p + 1] + [node] + s[k..];
            Distinct(t) && Data(t) == Data(s)[..p + 1] + [node.data] + Data(s)[k..]
  {
    var t := s[..p + 1] + [node] + s[k..];
    forall i, j
      ensures Differ(t, i, j)
    {
      assert Differ(s, if i <= p then i else i + k - p - 2, if j <= p then j else j + k - p - 2);
    }
  }

  /** Lines 350-354: the new node goes between the current one and the one at position k. */
  method Hook(l: L.EcoreList, node: Node, ghost p: nat, ghost k: nat)
    requires l.Shape() && p < k < |l.s| && l.current == l.s[p] && node !in l.s && node.next == l.s[k]
    modifies l, l.s
    ensures l.Shape() && l.current == At(l.s, p + 1) && l.nodes == old(l.nodes) + 1 && l.index == old(l.index)
    ensures Data(l.s) == old(Data(l.s))[..p + 1] + [node.data] + old(Data(l.s))[k..]
  {
    hide Data;
    ghost var s := l.s;
    ChainFacts(false, s);
    Spliced(s, p, k, node);
    l.current.next := node;
    l.current := node;
    l.nodes := l.nodes + 1;
    l.s := s[..p + 1] + [node] + s[k..];
    ghost var t := l.s;
    assert forall i {:trigger t[i]} :: 0 <= i < |t| ==> t[i] == if i <= p then s[i] else if i == p + 1 then node else s[i + k - p - 2];
  }

  /** Lines 344-354, for a current node that is not the first. */
  method InsertInside(l: L.EcoreList, x: Ptr)
    requires l.Valid() && 0 < l.index < l.nodes
    modifies l, l.s
    ensures var c := old(l.State());
            var k := c.index;
            var p := if C.Walkable(c, k - 1) then k - 1 else C.Obstacle(c, k - 1) + 1;
            && l.Shape() && !l.Valid() && l.nodes == old(l.nodes) + 1
            && Data(l.s) == c.items[..p + 1] + [x] + c.items[k..] && l.current == At(l.s, p + 1)
            && l.index == if C.Walkable(c, k - 1) then p else p - 1
  {
    hide Data, IsChain, C.Walkable, C.Obstacle, C.Apply, C.Result, C.Reaches;
    ghost var c := l.State();
    L.WalkBack(c);
    var node := new Node(x);
    node.next := l.current;
    var r, crashed := l.IndexGoto(l.index - 1);
    ghost var p := if C.Walkable(c, c.index - 1) then c.index - 1 else C.Obstacle(c, c.index - 1) + 1;
    Hook(l, node, p, c.index);
    ChainFacts(false, l.s);
  }

  /** _ecore_list_insert. In front of the first item it is a prepend; anywhere else the payload
      goes where it should, but the cursor is on the new node with an index that is not its. */
  method Insert(l: L.EcoreList, x: Ptr)
    requires l.Valid()
    modifies l, l.s
    ensures var c := old(l.State());
            var n, k := |c.items|, c.index;
            && l.Shape() && l.nodes == n + 1
            && (l.Valid() <==> n == 0 || k == 0)
            && (l.Valid() ==> l.State() == C.Apply(C.Prepend(x), c))
            && (!l.Valid() && k >= n ==> Data(l.s) == c.items + [x] && l.current == l.s[n] && l.index == k + 1)
            && (!l.Valid() && k < n && C.Walkable(c, k - 1) ==>
                  Data(l.s) == InsertAt(c.items, k, x) && l.current == l.s[k] && l.index == k - 1)
            && (!l.Valid() && k < n && !C.Walkable(c, k - 1) ==>
                  var j := C.Obstacle(c, k - 1);
                  Data(l.s) == c.items[..j + 2] + [x] + c.items[k..] && l.current == At(l.s, j + 2) && l.index == j)
  {
    hide Data, IsChain, C.Walkable, C.Obstacle, InsertAt;
    ghost var c := l.State();
    if l.s != [] {
      L.CurrentIsFirst(l.s, l.index);
    }
    if l.current == l.first {
      l.Prepend(x);
      return;
    }
    if l.current == null {
      l.Append(x);
      l.current := l.last;
      return;
    }
    InsertInside(l, x);
  }
}
