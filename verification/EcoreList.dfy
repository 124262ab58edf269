/** Ecore_List: a singly linked list with a cursor. Every operation refines EcoreCursor. */
module EcoreList {
  import opened Payloads
  import opened Sequences
  import opened Sorting
  import opened EcoreSort
  import opened EcoreNodes
  import opened EcoreCursor
  import H = EcoreSheap
  import A = EcoreSheapArray

  lemma Appended(s: seq<Node>, n: Node)
    requires Distinct(s) && n !in s
    ensures Distinct(s + [n]) && Data(s + [n]) == Data(s) + [n.data]
  {
    var t := s + [n];
    forall i, j
      ensures Differ(t, i, j)
    {
      assert Differ(s, i, j);
      assert 0 <= i < |s| ==> s[i] in s;
      assert 0 <= j < |s| ==> s[j] in s;
    }
  }

  /** Lines 238-239: a new node behind the last one. */
  method HangEnd(last: Node?, end: Node, ghost s: seq<Node>)
    requires IsChain(false, s) && last == At(s, |s| - 1) && end !in s && end.next == null
    modifies (if last == null then {} else {last})`next
    ensures IsChain(false, s + [end]) && Data(s + [end]) == old(Data(s)) + [end.data]
  {
    hide Data;
    ChainFacts(false, s);
    Appended(s, end);
    if last != null {
      last.next := end;
    }
    ghost var t := s + [end];
    assert forall i {:trigger t[i]} :: 0 <= i < |s| ==> t[i] == s[i];
  }

  lemma Prepended(s: seq<Node>, n: Node)
    requires Distinct(s) && n !in s
    ensures Distinct([n] + s) && Data([n] + s) == [n.data] + Data(s)
  {
    var t := [n] + s;
    forall i, j
      ensures Differ(t, i, j)
    {
      assert Differ(s, i - 1, j - 1);
      assert 0 < i < |t| ==> t[i] in s;
      assert 0 < j < |t| ==> t[j] in s;
    }
  }

  lemma Removed(s: seq<Node>, k: nat)
    requires Distinct(s) && k < |s|
    ensures Distinct(RemoveAt(s, k)) && Data(RemoveAt(s, k)) == RemoveAt(Data(s), k)
    ensures forall n :: n in RemoveAt(s, k) ==> n in s && n != s[k]
  {
    var t := RemoveAt(s, k);
    forall i, j
      ensures Differ(t, i, j)
    {
      assert Differ(s, if i < k then i else i + 1, if j < k then j else j + 1);
    }
    forall n | n in t
      ensures n in s && n != s[k]
    {
      var i :| 0 <= i < |t| && t[i] == n;
      assert Differ(s, if i < k then i else i + 1, k);
    }
  }

  lemma FirstRemoved(s: seq<Node>)
    requires IsChain(false, s) && s != []
    ensures IsChain(false, s[1..]) && Data(s[1..]) == Data(s)[1..]
    ensures s[0].next == At(s, 1) && s[0] !in s[1..] && forall n :: n in s[1..] ==> n in s
    ensures s[0] == s[|s| - 1] <==> |s| == 1
  {
    ChainFacts(false, s);
    Removed(s, 0);
    assert RemoveAt(s, 0) == s[1..] && RemoveAt(Data(s), 0) == Data(s)[1..];
  }

  twostate lemma DataKept(t: seq<Node>)
    requires forall n :: n in t ==> n.data == old(n.data)
    ensures Data(t) == old(Data(t))
  {
    forall i | 0 <= i < |t|
      ensures Data(t)[i] == old(Data(t))[i]
    {
      assert t[i] in t;
    }
  }

  lemma CurrentIsFirst(s: seq<Node>, index: int)
    requires IsChain(false, s) && s != [] && 0 <= index
    ensures At(s, index) == s[0] <==> index == 0
  {
    ChainFacts(false, s);
  }

  /** Line 602: the node before the last one. */
  method FindPrevious(first: Node?, oldNode: Node, ghost s: seq<Node>) returns (prev: Node?)
    requires IsChain(false, s) && s != [] && oldNode == s[|s| - 1]
    requires first == if |s| == 1 then null else s[0]
    ensures prev == At(s, |s| - 2)
  {
    hide IsChain;
    ChainFacts(false, s);
    prev := first;
    ghost var i := 0;
    while prev != null && prev.next != oldNode
      invariant if |s| == 1 then prev == null else 0 <= i <= |s| - 2 && prev == s[i]
      decreases |s| - i
    {
      prev := prev.next;
      i := i + 1;
    }
  }

  /** Lines 603-609: the last node is cut off and emptied. */
  method CutLast(prev: Node?, oldNode: Node, ghost s: seq<Node>) returns (r: Ptr)
    requires IsChain(false, s) && s != [] && oldNode == s[|s| - 1] && prev == At(s, |s| - 2)
    modifies (if prev == null then {} else {prev})`next, oldNode`next, oldNode`data
    ensures IsChain(false, s[..|s| - 1]) && (forall n :: n in s[..|s| - 1] ==> n in s)
    ensures Data(s[..|s| - 1]) == old(Data(s))[..|s| - 1] && r == old(Data(s))[|s| - 1]
  {
    hide Data;
    ghost var n := |s| - 1;
    Halves(false, s, n);
    DataHalves(s, n);
    ChainFacts(false, s);
    assert s[n..] == [oldNode];
    if prev != null {
      prev.next := null;
    }
    oldNode.next := null;
    r := oldNode.data;
    oldNode.data := NULL;
    DataKept(s[..n]);
  }

  lemma CutOut(s: seq<Node>, p: nat, k: nat)
    requires Distinct(s) && p < k < |s|
    ensures var t := s[..p + 1] + s[k + 1..];
            && Distinct(t) && Data(t) == Data(s)[..p + 1] + Data(s)[k + 1..]
            && (forall n :: n in t ==> n in s && n != s[k]) && (forall i :: p < i <= k ==> s[i] !in t)
  {
    var t := s[..p + 1] + s[k + 1..];
    forall i, j
      ensures Differ(t, i, j)
    {
      assert Differ(s, if i <= p then i else i + k - p, if j <= p then j else j + k - p);
    }
    forall n, i | n in t && p < i <= k
      ensures n in s && n != s[i]
    {
      var q :| 0 <= q < |t| && t[q] == n;
      assert Differ(s, if q <= p then q else q + k - p, i);
    }
  }

  /** Lines 478-481: the link of `prev` skips to behind the old node, which is emptied. */
  method Bypass(prev: Node, oldNode: Node, ghost p: nat, ghost k: nat, ghost s: seq<Node>) returns (r: Ptr)
    requires IsChain(false, s) && p < k < |s| - 1 && oldNode == s[k] && prev == s[p]
    modifies prev`next, oldNode`next, oldNode`data
    ensures var t := s[..p + 1] + s[k + 1..];
            && IsChain(false, t) && (forall n :: n in t ==> n in s)
            && Data(t) == old(Data(s))[..p + 1] + old(Data(s))[k + 1..]
    ensures r == old(Data(s))[k] && prev.next == s[k + 1]
  {
    hide Data;
    ChainFacts(false, s);
    CutOut(s, p, k);
    ghost var t := s[..p + 1] + s[k + 1..];
    prev.next := oldNode.next;
    oldNode.next := null;
    r := oldNode.data;
    oldNode.data := NULL;
    DataKept(t);
  }

  lemma LastRemoveIs(c: Cursor)
    ensures c.items == [] ==> Apply(Op.LastRemove, c) == c && Result(Op.LastRemove, c) == NULL
    ensures var n := |c.items| - 1;
            n >= 0 ==> Apply(Op.LastRemove, c) == Cursor(c.items[..n], c.index) && Result(Op.LastRemove, c) == c.items[n]
  {
  }

  lemma CurrentIsLast(s: seq<Node>, index: int)
    requires IsChain(false, s) && s != [] && 0 <= index
    ensures At(s, index) == s[|s| - 1] <==> index == |s| - 1
    ensures s[0] == s[|s| - 1] <==> |s| == 1
  {
    ChainFacts(false, s);
  }

  class EcoreList {
    var first: Node?
    var last: Node?
    var current: Node?
    var nodes: int
    var index: int
    ghost var s: seq<Node>

    /** A well-formed list whose `last` is the true tail. */
    ghost predicate Shape()
      reads this, s
    {
      IsChain(false, s) && first == At(s, 0) && last == At(s, |s| - 1)
    }

    /** `nodes` is the true length, `last` the true tail, and `current` exactly the node at
        `index`, so that it is NULL just when the index is past the end. */
    ghost predicate Valid()
      reads this, s
    {
      Shape() && nodes == |s| && 0 <= index && current == At(s, index)
    }

    ghost function State(): Cursor
      requires 0 <= index
      reads this, s
    {
      Cursor(Data(s), index)
    }

    constructor ()
      ensures Valid() && State() == Cursor([], 0) && s == []
    {
      first, last, current := null, null, null;
      nodes, index, s := 0, 0, [];
    }

    method Append(x: Ptr)
      requires Valid()
      modifies this, s
      ensures Valid() && State() == Apply(Op.Append(x), old(State()))
      ensures Data(s) == old(Data(s)) + [x] && current == old(current) && nodes == old(nodes) + 1
      ensures index == if old(current) != null then old(index) else if old(s) == [] then 1 else old(index) + 1
      ensures forall n :: n in s ==> n in old(s) || fresh(n)
    {
      hide Data, IsChain, RemoveAt, IndexOf, ListSort;
      var end := new Node(x);
      HangEnd(last, end, s);
      last := end;
      if first == null {
        first := end;
        index := 0;
        current := null;
      }
      if index >= nodes {
        index := index + 1;
      }
      nodes := nodes + 1;
      s := s + [end];
    }

    method Prepend(x: Ptr)
      requires Valid()
      modifies this
      ensures Valid() && State() == Apply(Op.Prepend(x), old(State()))
      ensures Data(s) == [x] + old(Data(s)) && current == old(current) && index == old(index) + 1 && nodes == old(nodes) + 1
      ensures forall n :: n in s ==> n in old(s) || fresh(n)
    {
      hide Data, RemoveAt, IndexOf, ListSort;
      ChainFacts(false, s);
      var start := new Node(x);
      Prepended(s, start);
      start.next := first;
      first := start;
      if last == null {
        last := first;
      }
      nodes := nodes + 1;
      index := index + 1;
      ghost var t := [start] + s;
      assert forall i {:trigger t[i]} :: 0 < i < |t| ==> t[i] == s[i - 1];
      s := t;
    }

    method FirstRemove() returns (r: Ptr)
      requires Valid()
      modifies this, s
      ensures Valid() && State() == Apply(Op.FirstRemove, old(State())) && r == Result(Op.FirstRemove, old(State()))
      ensures if old(s) == [] then r == NULL && s == [] else r == old(Data(s)[0]) && Data(s) == old(Data(s))[1..] && nodes == old(nodes) - 1
      ensures index == (if old(s) == [] || old(index) == 0 then old(index) else old(index) - 1)
      ensures current == (if old(s) != [] && old(current) == old(first) then first else old(current))
      ensures forall n :: n in s ==> n in old(s)
    {
      hide Data, IsChain, RemoveAt, IndexOf, ListSort;
      if nodes == 0 {
        return NULL;
      }
      FirstRemoved(s);
      CurrentIsFirst(s, index);
      var oldNode := first;
      first := first.next;
      if current == oldNode {
        current := first;
      } else if index != 0 {
        index := index - 1;
      }
      if last == oldNode {
        last := first;
      }
      r := oldNode.data;
      s := s[1..];
      oldNode.data := NULL;
      DataKept(s);
      nodes := nodes - 1;
    }

    /** Lines 602-609: the last node is cut off, and the one before it is last. */
    method DropLast(oldNode: Node) returns (r: Ptr)
      requires IsChain(false, s) && s != [] && oldNode == s[|s| - 1] && first == if |s| == 1 then null else s[0]
      modifies this`last, this`s, s
      ensures Shape() && s == old(s[..|s| - 1]) && Data(s) == old(Data(s)[..|s| - 1]) && r == old(Data(s)[|s| - 1])
    {
      hide Data, IsChain;
      var prev := FindPrevious(first, oldNode, s);
      last := prev;
      r := CutLast(prev, oldNode, s);
      s := s[..|s| - 1];
    }

    method LastRemove() returns (r: Ptr)
      requires Valid()
      modifies this, s
      ensures Valid() && State() == Apply(Op.LastRemove, old(State())) && r == Result(Op.LastRemove, old(State()))
      ensures index == old(index)
      ensures if old(s) == [] then r == NULL && s == []
              else r == old(Data(s)[|s| - 1]) && Data(s) == old(Data(s)[..|s| - 1]) && nodes == old(nodes) - 1
      ensures current == if old(s) != [] && old(current) == old(last) then null else old(current)
      ensures forall n :: n in s ==> n in old(s)
    {
      hide Data, IsChain, ListSort, Apply, Result;
      LastRemoveIs(State());
      if nodes == 0 {
        return NULL;
      }
      CurrentIsLast(s, index);
      var oldNode := last;
      if current == oldNode {
        current := null;
      }
      if first == oldNode {
        first := null;
      }
      r := DropLast(oldNode);
      nodes := nodes - 1;
    }

    /** _ecore_list_next on a list that has a current node. */
    method Advance() returns (data: Ptr)
      requires current != null
      modifies this`current, this`index
      ensures current == old(current.next) && index == old(index) + 1 && data == old(current.data)
    {
      var node := current;
      var next := current.next;
      current := next;
      index := index + 1;
      data := node.data;
    }

    method Next() returns (r: Ptr)
      requires Valid()
      modifies this`current, this`index
      ensures Valid() && State() == Apply(Op.Next, old(State())) && r == Result(Op.Next, old(State()))
      ensures if old(current) == null then r == NULL && current == null && index == old(index)
              else r == old(current.data) && current == old(current.next) && index == old(index) + 1
    {
      ChainFacts(false, s);
      if current == null {
        return NULL;
      }
      r := Advance();
    }

    method FirstGoto() returns (r: Ptr)
      requires Valid()
      modifies this`current, this`index
      ensures Valid() && State() == Apply(Op.FirstGoto, old(State())) && r == Result(Op.FirstGoto, old(State()))
      ensures if s == [] then r == NULL && index == old(index)
              else r == Data(s)[0] && index == 0 && current == first
    {
      hide IsChain, Data, RemoveAt, IndexOf, ListSort;
      if first == null {
        return NULL;
      }
      current := first;
      index := 0;
      r := current.data;
    }

    method LastGoto() returns (r: Ptr)
      requires Valid()
      modifies this`current, this`index
      ensures Valid() && State() == Apply(Op.LastGoto, old(State())) && r == Result(Op.LastGoto, old(State()))
      ensures if s == [] then r == NULL && index == old(index)
              else r == Data(s)[|s| - 1] && index == |s| - 1 && current == last
    {
      hide IsChain, Data, RemoveAt, IndexOf, ListSort;
      if last == null {
        return NULL;
      }
      current := last;
      index := nodes - 1;
      r := current.data;
    }

    /** _ecore_list_goto, which a NULL payload stops. */
    method Goto(data: Ptr) returns (r: Ptr)
      requires Valid()
      modifies this`current, this`index
      ensures Valid() && State() == Apply(Op.Goto(data), old(State())) && r == Result(Op.Goto(data), old(State()))
      ensures if r != NULL then r == data && current != null && current.data == data && index == IndexOf(Data(s), data)
              else data == NULL || data !in Data(s)[..IndexOf(Data(s), NULL)]
      ensures NULL !in Data(s) && data !in Data(s) ==> current == old(current) && index == old(index)
    {
      hide IsChain, Data, RemoveAt, ListSort;
      ChainFacts(false, s);
      var idx := 0;
      var node := first;
      while node != null && node.data != NULL
        invariant 0 <= idx <= |s| && node == At(s, idx)
        invariant forall i :: 0 <= i < idx ==> Data(s)[i] != data && Data(s)[i] != NULL
        decreases |s| - idx
      {
        if node.data == data {
          break;
        }
        node := node.next;
        idx := idx + 1;
      }
      if node == null {
        return NULL;
      }
      assert Data(s)[idx] == data || Data(s)[idx] == NULL;
      current := node;
      index := idx;
      r := current.data;
    }

    /** The walk to index `i` stopped at a NULL payload: the index is that of the payload, and
        the node behind it is current. */
    ghost predicate Strayed(c: Cursor, i: int)
      requires 0 <= i <= |c.items| && !Walkable(c, i)
      reads this
    {
      index == Obstacle(c, i) && current == At(s, index + 1)
    }

    lemma StrayedIsInvalid(c: Cursor, i: int)
      requires 0 <= i <= |c.items| && !Walkable(c, i) && Shape() && Strayed(c, i) && Data(s) == c.items
      ensures !Valid()
    {
      ChainFacts(false, s);
    }

    /** _ecore_list_index_goto, which walks from the cursor or from the front. Past a NULL payload
        at the end of the list there is no node to look at, and the program crashes. */
    method IndexGoto(idx: int) returns (r: Ptr, crashed: bool)
      requires Valid()
      modifies this`current, this`index
      ensures Shape() && Data(s) == old(Data(s)) && nodes == |s|
      ensures Valid() <==> Reaches(Op.IndexGoto(idx), old(State()))
      ensures Valid() ==> State() == Apply(Op.IndexGoto(idx), old(State())) && r == Result(Op.IndexGoto(idx), old(State())) && !crashed
      ensures Valid() && 0 <= idx <= |s| && s != [] ==> index == idx && r == if idx < |s| then Data(s)[idx] else NULL
      ensures idx < 0 || idx > |s| || s == [] ==> r == NULL && current == old(current) && index == old(index)
      ensures !Valid() ==> Strayed(old(State()), idx) && (crashed <==> current == null) && (!crashed ==> r == Data(s)[index + 1])
    {
      hide IsChain, Data, RemoveAt, ListSort, Walkable, Obstacle;
      if nodes == 0 || idx > nodes || idx < 0 {
        AtEnd(State(), idx);
        return NULL, false;
      }
      ghost var c := State();
      var i;
      if idx < index {
        var x := FirstGoto();
        i := 0;
      } else {
        i := index;
      }
      i := WalkTo(i, idx);
      WalkEnds(c, idx, i);
      if i >= nodes {
        return NULL, false;
      }
      index := i;
      if i < idx {
        StrayedIsInvalid(c, idx);
      }
      if current == null {
        return NULL, true;
      }
      r, crashed := current.data, false;
    }

    /** Line 666: call next until the index is reached or it returns NULL. */
    method WalkTo(from: int, idx: int) returns (i: int)
      requires Valid() && from == index <= idx <= nodes
      modifies this`current, this`index
      ensures Valid() && Data(s) == old(Data(s))
      ensures from <= i <= idx && NULL !in Data(s)[from..i]
      ensures if i < idx then Data(s)[i] == NULL && index == i + 1 else index == i
    {
      hide IsChain, Data, RemoveAt, IndexOf, ListSort;
      i := from;
      while i < idx
        invariant Valid() && Data(s) == old(Data(s)) && from <= i == index <= idx
        invariant NULL !in Data(s)[from..i]
      {
        var data := Next();
        if data == NULL {
          return;
        }
        assert Data(s)[from..i + 1] == Data(s)[from..i] + [data];
        i := i + 1;
      }
    }

    /** _ecore_list_remove_0: the next node becomes current at the same index. */
    method Remove() returns (r: Ptr)
      requires Valid()
      modifies this, s
      ensures Shape() && r == Result(Op.Remove, old(State()))
      ensures Valid() <==> Reaches(Op.Remove, old(State()))
      ensures Valid() ==> State() == Apply(Op.Remove, old(State()))
      ensures if old(current) == null then r == NULL && current == null && Data(s) == old(Data(s)) && index == old(index)
              else r == old(current.data) && (Valid() ==> Data(s) == RemoveAt(old(Data(s)), old(index)) && index == old(index))
      ensures !Valid() ==> Misremoved(old(State()))
      ensures forall n :: n in s ==> n in old(s)
    {
      hide Data, IsChain, RemoveAt, IndexOf, ListSort;
      if nodes == 0 {
        return NULL;
      }
      if current == null {
        return NULL;
      }
      RemoveCases(State());
      CurrentIsFirst(s, index);
      if current == first {
        r := FirstRemove();
        return;
      }
      CurrentIsLast(s, index);
      if current == last {
        r := LastRemove();
        return;
      }
      r := RemoveInside();
    }

    /** What removing an inner item leaves if the walk back to its predecessor stopped at a NULL
        payload: everything between that and the removed item is lost as well, the index is one
        too low, and the length counts only the one item less. */
    ghost predicate Misremoved(c: Cursor)
      requires 0 < c.index < |c.items| - 1 && !Walkable(c, c.index - 1)
      reads this, s
    {
      var j := Obstacle(c, c.index - 1);
      && Data(s) == c.items[..j + 2] + c.items[c.index + 1..]
      && index == j + 1 && current == At(s, j + 2) && nodes == |c.items| - 1
    }

    lemma MisremovedIsInvalid(c: Cursor)
      requires 0 < c.index < |c.items| - 1 && !Walkable(c, c.index - 1) && Shape() && Misremoved(c)
      ensures !Valid()
    {
      ChainFacts(false, s);
    }

    /** Lines 478-486: the current node is linked to the one behind the old node, which becomes
        current. */
    method Unhook(oldNode: Node, ghost p: nat, ghost k: nat) returns (r: Ptr)
      requires Shape() && p < k < |s| - 1 && oldNode == s[k] && current == s[p]
      modifies this, s
      ensures Shape() && Data(s) == old(Data(s))[..p + 1] + old(Data(s))[k + 1..] && r == old(Data(s))[k]
      ensures current == At(s, p + 1) && index == old(index) + 1 && nodes == old(nodes) - 1
      ensures forall n :: n in s ==> n in old(s)
    {
      hide Data, IsChain, ListSort, RemoveAt;
      r := Bypass(current, oldNode, p, k, s);
      s := s[..p + 1] + s[k + 1..];
      var y := Advance();
      nodes := nodes - 1;
    }

    /** Lines 474-486, for a current node that is neither first nor last. */
    method RemoveInside() returns (r: Ptr)
      requires Valid() && 0 < index < nodes - 1
      modifies this, s
      ensures Shape() && r == Result(Op.Remove, old(State()))
      ensures Valid() <==> Reaches(Op.Remove, old(State()))
      ensures Valid() ==> State() == Apply(Op.Remove, old(State()))
      ensures !Valid() ==> Misremoved(old(State()))
      ensures forall n :: n in s ==> n in old(s)
    {
      hide Data, IsChain, IndexOf, ListSort, Walkable, Obstacle, RemoveAt, Apply, Result, Reaches;
      ghost var c := State();
      RemoveInner(c);
      WalkBack(c);
      var oldNode := current;
      var x, crashed := IndexGoto(index - 1);
      ghost var p := if Walkable(c, c.index - 1) then c.index - 1 else Obstacle(c, c.index - 1) + 1;
      r := Unhook(oldNode, p, c.index);
      if !Walkable(c, c.index - 1) {
        MisremovedIsInvalid(c);
      }
    }

    /** ecore_list_mergesort, whose result is stable; `last` is found by walking. */
    method MergeSortList(compare: Compare, order: Direction)
      requires Valid() && IsComparator(compare)
      modifies this, s
      ensures Valid() && multiset(s) == multiset(old(s))
      ensures State() == if nodes < 2 then old(State()) else Cursor(MergeSort(Directed(compare, order), old(State()).items), 0)
    {
      hide Data, IsChain, MergeSort;
      if nodes < 2 {
        return;
      }
      ghost var f, items := Directed(compare, order), Data(s);
      DirectedIsComparator(compare, order);
      MergeSortLength(f, items);
      var node;
      ghost var t;
      node, t := NodeMergeSort(false, first, nodes, compare, order, s);
      SameNodes(t, s);
      first := node;
      last := LastOf(false, node, t);
      s := t;
      current, index := first, 0;
    }

    /** The cursor has just passed the k-th payload, which is `data`; past the end that is NULL. */
    ghost predicate Passed(items: seq<Ptr>, k: int, data: Ptr)
      reads this, s
    {
      && Valid() && Data(s) == items && 0 <= k <= |items|
      && if k < |items| then data == items[k] && index == k + 1 else data == NULL
    }

    method FirstData(ghost items: seq<Ptr>) returns (data: Ptr)
      requires Valid() && Data(s) == items
      modifies this`current, this`index
      ensures Passed(items, 0, data)
    {
      hide IsChain, Data, ListSort, RemoveAt, IndexOf;
      var x := FirstGoto();
      data := Next();
    }

    method NextData(ghost items: seq<Ptr>, ghost k: int, data0: Ptr) returns (data: Ptr)
      requires Passed(items, k, data0) && data0 != NULL
      modifies this`current, this`index
      ensures k < |items| && Passed(items, k + 1, data)
    {
      hide IsChain, Data, ListSort, RemoveAt, IndexOf;
      data := Next();
    }

    lemma PassedEnds(items: seq<Ptr>, k: int, data: Ptr)
      requires Passed(items, k, data)
      ensures Valid() && 0 <= k <= |items| && (k == |items| ==> data == NULL) && (k < |items| ==> data == items[k])
      ensures nodes == |items| && Data(s) == items
    {
    }

    /** Lines 1209-1218: the payloads up to the first NULL go into a heap. */
    method FillHeap(compare: Compare, order: Direction) returns (heap: A.Sheap)
      requires Valid() && IsComparator(compare)
      modifies this`current, this`index
      ensures Valid() && fresh(heap) && fresh(heap.data) && Data(s) == old(Data(s))
      ensures HeapHolds(heap, compare, order, Data(s), IndexOf(Data(s), NULL))
    {
      hide HeapHolds, Passed, Data, A.Sheap.Valid, A.Sheap.State, IsChain, IndexOf, Directed, IsComparator;
      ghost var items, k := Data(s), 0;
      heap := NewHeap(compare, order, nodes, items);
      var data := FirstData(items);
      PassedEnds(items, 0, data);
      while data != NULL
        invariant Passed(items, k, data) && fresh(heap) && fresh(heap.data)
        invariant 0 <= k <= |items| && (k == |items| ==> data == NULL) && (k < |items| ==> data == items[k])
        invariant forall i :: 0 <= i < k ==> items[i] != NULL
        invariant HeapHolds(heap, compare, order, items, k)
        decreases |items| - k
      {
        InsertNext(heap, data, compare, order, items, k);
        data := NextData(items, k, data);
        k := k + 1;
        PassedEnds(items, k, data);
      }
      PassedEnds(items, k, data);
    }

    /** ecore_list_heapsort; `memory` tells whether ecore_sheap_new gets its memory. */
    method HeapSortList(compare: Compare, order: Direction, memory: bool) returns (ok: bool)
      requires Valid() && IsComparator(compare)
      modifies this`current, this`index, s`data
      ensures Valid() && ok == memory
      ensures ok ==> Data(s) == HeapSorted(compare, order, old(Data(s))) && (s != [] ==> index == 0)
      ensures !ok ==> State() == old(State())
    {
      hide IsChain, HeapHolds, Data, HeapSorted, IsComparator, ListSort, RemoveAt, IndexOf;
      ghost var items := Data(s);
      if !memory {
        return false;
      }
      var heap := FillHeap(compare, order);
      DrainHeap(first, heap, compare, order, items, s);
      var x := FirstGoto();
      ok := true;
    }

    /** ecore_list_sort: merge sort for short lists, heap sort for long ones, and merge sort
        again when the heap cannot be had. */
    method Sort(compare: Compare, order: Direction, memory: bool)
      requires Valid() && IsComparator(compare)
      modifies this, s
      ensures Valid() && State() == Apply(Op.Sort(compare, order, memory), old(State()))
      ensures multiset(s) == multiset(old(s)) && (nodes >= 2 ==> current == first && index == 0)
      ensures |s| < 40000 || !memory ==> StableSortOf(Directed(compare, order), old(Data(s)), Data(s))
      ensures NULL !in old(Data(s)) ==> Sorted(Directed(compare, order), Data(s)) && multiset(Data(s)) == multiset(old(Data(s)))
    {
      hide IsChain, Data, Directed, HeapSorted, IsComparator, MergeSort, RemoveAt, IndexOf;
      ghost var items := Data(s);
      SortFacts(compare, order, memory, items);
      if nodes < 2 {
        return;
      }
      if nodes < MERGESORT_LIMIT {
        MergeSortList(compare, order);
        return;
      }
      var ok := HeapSortList(compare, order, memory);
      if !ok {
        MergeSortList(compare, order);
      }
    }
  }

  /** The heap has taken in the first k payloads. */
  ghost predicate HeapHolds(heap: A.Sheap, compare: Compare, order: Direction, items: seq<Ptr>, k: int)
    reads heap, heap.data
  {
    && heap.Valid() && 0 <= k <= |items|
    && heap.State() == H.Heap(H.Build(Directed(compare, order), items[..k]), |items|, |items|, false, order, compare)
  }

  method NewHeap(compare: Compare, order: Direction, nodes: nat, ghost items: seq<Ptr>) returns (heap: A.Sheap)
    requires IsComparator(compare) && nodes == |items|
    ensures fresh(heap) && fresh(heap.data) && HeapHolds(heap, compare, order, items, 0)
  {
    heap := new A.Sheap(compare, nodes);
    heap.OrderSet(order);
  }

  method InsertNext(heap: A.Sheap, data: Ptr, ghost compare: Compare, ghost order: Direction, ghost items: seq<Ptr>, ghost k: nat)
    requires k < |items| && HeapHolds(heap, compare, order, items, k) && data == items[k]
    modifies heap`size, heap`sorted, heap.data
    ensures HeapHolds(heap, compare, order, items, k + 1)
  {
    hide H.Inserted, H.IsHeap, Sorted, IsComparator, Directed;
    DirectedIsComparator(compare, order);
    H.BuildMakesHeap(Directed(compare, order), items[..k]);
    H.BuildPrefix(Directed(compare, order), items, k);
    var ok, overrun := heap.Insert(data);
  }

  /** The nodes below k hold what came out of the heap, which still holds the rest; once it is
      empty, NULL comes out. */
  ghost predicate Draining(heap: A.Sheap, f: Compare, s: seq<Node>, k: int, goal: seq<Ptr>)
    reads heap, heap.data, s`data
  {
    && heap.Valid() && heap.State().Less() == f && 0 <= k <= |s| && heap.size <= |s| - k
    && Data(s)[..k] + (H.Drain(f, heap.State().elems, heap.size) + Nulls(|s| - k - heap.size)) == goal
  }

  lemma StartDraining(heap: A.Sheap, compare: Compare, order: Direction, items: seq<Ptr>, s: seq<Node>)
    requires IsComparator(compare) && HeapHolds(heap, compare, order, items, IndexOf(items, NULL)) && |s| == |items|
    ensures Draining(heap, Directed(compare, order), s, 0, HeapSorted(compare, order, items))
  {
    hide IsComparator;
    var f, k := Directed(compare, order), IndexOf(items, NULL);
    DirectedIsComparator(compare, order);
    H.BuildMakesHeap(f, items[..k]);
    assert Data(s)[..0] == [];
  }

  lemma DrainEmpty(done: seq<Ptr>, n: nat)
    requires n > 0
    ensures done + ([] + Nulls(n)) == done + [NULL] + ([] + Nulls(n - 1))
  {
  }

  lemma Regroup(a: seq<Ptr>, b: seq<Ptr>, c: seq<Ptr>)
    ensures a + (b + c) == a + b + c
  {
  }

  lemma DrainFull(f: Compare, elems: seq<Ptr>, done: seq<Ptr>, pad: seq<Ptr>)
    requires elems != []
    ensures |H.Rest(f, elems)| == |elems| - 1
    ensures done + (H.Drain(f, elems, |elems|) + pad) == done + [elems[0]] + (H.Drain(f, H.Rest(f, elems), |elems| - 1) + pad)
  {
    hide H.Drain, H.Rest;
    A.DrainNext(f, elems, done);
    Regroup(done, H.Drain(f, elems, |elems|), pad);
    Regroup(done + [elems[0]], H.Drain(f, H.Rest(f, elems), |elems| - 1), pad);
  }

  /** Line 1226. */
  method FillNode(heap: A.Sheap, node: Node, ghost f: Compare, ghost s: seq<Node>, ghost k: nat, ghost goal: seq<Ptr>)
    requires Draining(heap, f, s, k, goal) && k < |s| && node == s[k] && Distinct(s)
    modifies node`data, heap`size, heap`sorted, heap.data
    ensures Draining(heap, f, s, k + 1, goal)
  {
    hide H.Rest, H.IsHeap, Sorted, IsComparator, Directed, H.Good, Data, Nulls;
    ghost var elems, done := heap.State().elems, Data(s)[..k];
    if elems == [] {
      DrainEmpty(done, |s| - k);
    } else {
      DrainFull(f, elems, done, Nulls(|s| - k - |elems|));
    }
    var x := heap.Extract();
    node.data := x;
    forall i | 0 <= i < |s| && i != k
      ensures Data(s)[i] == old(Data(s))[i]
    {
      assert Differ(s, i, k);
    }
    assert Data(s)[..k + 1] == done + [x];
  }

  /** Lines 1223-1228: the nodes take the payloads back in sorted order. */
  method DrainHeap(first: Node?, heap: A.Sheap, ghost compare: Compare, ghost order: Direction, ghost items: seq<Ptr>, ghost s: seq<Node>)
    requires IsChain(false, s) && first == At(s, 0) && |s| == |items|
    requires IsComparator(compare) && HeapHolds(heap, compare, order, items, IndexOf(items, NULL))
    modifies s`data, heap`size, heap`sorted, heap.data
    ensures IsChain(false, s) && Data(s) == HeapSorted(compare, order, items)
  {
    hide Draining, HeapHolds, Data, HeapSorted, Directed, IsComparator, IndexOf;
    ghost var f, goal := Directed(compare, order), HeapSorted(compare, order, items);
    StartDraining(heap, compare, order, items, s);
    ChainFacts(false, s);
    var node := first;
    ghost var k := 0;
    while node != null
      invariant 0 <= k <= |s| && node == At(s, k) && Draining(heap, f, s, k, goal)
      decreases |s| - k
    {
      FillNode(heap, node, f, s, k, goal);
      node := node.next;
      k := k + 1;
    }
    DoneDraining(heap, f, s, goal);
  }

  lemma DoneDraining(heap: A.Sheap, f: Compare, s: seq<Node>, goal: seq<Ptr>)
    requires Draining(heap, f, s, |s|, goal)
    ensures Data(s) == goal
  {
    assert Data(s)[..|s|] == Data(s);
  }

  lemma RemoveInner(c: Cursor)
    requires 0 < c.index < |c.items| - 1
    ensures Apply(Op.Remove, c) == Cursor(c.items[..c.index] + c.items[c.index + 1..], c.index)
    ensures Result(Op.Remove, c) == c.items[c.index]
    ensures Reaches(Op.Remove, c) <==> Walkable(c, c.index - 1)
  {
  }

  /** The step back from an item to the one in front of it. */
  lemma WalkBack(c: Cursor)
    requires 0 < c.index < |c.items|
    ensures Reaches(Op.IndexGoto(c.index - 1), c) <==> Walkable(c, c.index - 1)
    ensures Apply(Op.IndexGoto(c.index - 1), c) == c.(index := c.index - 1)
    ensures !Walkable(c, c.index - 1) ==> Obstacle(c, c.index - 1) < c.index - 1
  {
  }

  lemma SortFacts(compare: Compare, order: Direction, memory: bool, items: seq<Ptr>)
    requires IsComparator(compare)
    ensures var f, r := Directed(compare, order), if |items| < 2 then items else ListSort(compare, order, memory, items);
            && (|items| < 40000 || !memory ==> StableSortOf(f, items, r))
            && (NULL !in items ==> Sorted(f, r) && multiset(r) == multiset(items))
  {
    if |items| < 40000 || !memory {
      ListSortIsStable(compare, order, memory, items);
    }
    if NULL !in items {
      ListSortSorts(compare, order, memory, items);
    }
  }

  lemma RemoveCases(c: Cursor)
    requires c.index < |c.items|
    ensures c.index == 0 ==> Apply(Op.FirstRemove, c) == Apply(Op.Remove, c) && Result(Op.FirstRemove, c) == Result(Op.Remove, c)
    ensures c.index == |c.items| - 1 ==> Apply(Op.LastRemove, c) == Apply(Op.Remove, c) && Result(Op.LastRemove, c) == Result(Op.Remove, c)
  {
    hide ListSort, Stop, IndexOf;
    if c.index == 0 { assert RemoveAt(c.items, 0) == c.items[1..]; }
    if c.index == |c.items| - 1 { assert RemoveAt(c.items, c.index) == c.items[..c.index]; }
  }

  // ----- Runs -----

  method Dispatch(l: EcoreList, op: Op) returns (r: Ptr)
    requires l.Valid() && Allowed(op) && Reaches(op, l.State())
    modifies l, l.s
    ensures l.Valid() && l.State() == Apply(op, old(l.State())) && r == Result(op, old(l.State()))
    ensures forall n :: n in l.s ==> n in old(l.s) || fresh(n)
  {
    hide IsChain, Data, ListSort, RemoveAt, IndexOf, Reaches;
    r := NULL;
    match op {
      case Append(x) => l.Append(x);
      case Prepend(x) => l.Prepend(x);
      case FirstRemove => r := l.FirstRemove();
      case LastRemove => r := l.LastRemove();
      case Remove => r := l.Remove();
      case Next => r := l.Next();
      case Goto(x) => r := l.Goto(x);
      case IndexGoto(i) =>
        var crashed;
        r, crashed := l.IndexGoto(i);
      case FirstGoto => r := l.FirstGoto();
      case LastGoto => r := l.LastGoto();
      case Sort(compare, order, memory) =>
        ghost var was := l.s;
        l.Sort(compare, order, memory);
        SameNodes(l.s, was);
    }
  }

  /** What a step leaves whose walk meets a NULL payload. */
  ghost predicate Astray(l: EcoreList, op: Op, c: Cursor)
    requires !Reaches(op, c)
    reads l, l.s
  {
    && l.Shape() && !l.Valid()
    && match op
       case IndexGoto(i) => Data(l.s) == c.items && l.nodes == |l.s| && 0 <= i <= |c.items| && l.Strayed(c, i)
       case Remove => l.Misremoved(c)
       case _ => false
  }

  method GoAstray(l: EcoreList, op: Op) returns (crashed: bool)
    requires l.Valid() && !Reaches(op, l.State())
    modifies l, l.s
    ensures Astray(l, op, old(l.State())) && (crashed <==> op.IndexGoto? && l.current == null)
  {
    hide IsChain, Data, ListSort, RemoveAt, IndexOf, Obstacle;
    match op {
      case Remove =>
        var r := l.Remove();
        crashed := false;
      case IndexGoto(i) =>
        var r;
        r, crashed := l.IndexGoto(i);
    }
  }

  /** Every script, up to the first step whose walk meets a NULL payload. Up to there length,
      tail, current node and index are those of the plain model, and so is every result; what
      that step leaves is said by Astray. A script that stores no NULL payload in a list without
      one runs to its end. `c0` is what the list holds before. */
  method RunScript(l: EcoreList, c0: Cursor, ops: seq<Op>) returns (results: seq<Ptr>, crashed: bool)
    requires l.Valid() && l.State() == c0 && AllAllowed(ops)
    modifies l, l.s
    ensures |results| <= |ops|
    ensures AllReach(ops[..|results|], c0) && results == Results(ops[..|results|], c0)
    ensures |results| == |ops| ==> l.Valid() && l.State() == Run(ops, c0) && !crashed
    ensures |results| < |ops| ==>
              var op, c := ops[|results|], Run(ops[..|results|], c0);
              !Reaches(op, c) && Astray(l, op, c) && (crashed <==> op.IndexGoto? && l.current == null)
    ensures NoNull(c0.items) && (forall k :: 0 <= k < |ops| ==> !BringsNull(ops[k])) ==> |results| == |ops|
  {
    hide EcoreList.Valid, Apply, Result, Data, Run, Results, Reaches, Astray, AllReach, NoNull;
    IndexIsNat(l);
    results, crashed := [], false;
    var c, k := c0, 0;
    RunNone(c);
    ReachNone(c);
    assert ops[..0] == [];
    while k < |ops|
      invariant 0 <= k <= |ops| && l.Valid() && 0 <= l.index && l.State() == c == Run(ops[..k], c0) && !crashed
      invariant |results| == k && results == Results(ops[..k], c0) && AllReach(ops[..k], c0)
      invariant forall n :: n in l.s ==> n in old(l.s) || fresh(n)
    {
      assert forall i {:trigger l.s[i]} :: 0 <= i < |l.s| ==> l.s[i] in l.s;
      if !Reaches(ops[k], c) {
        MeetsNull(ops, k, c0);
        crashed := GoAstray(l, ops[k]);
        return;
      }
      RunNext(ops, k, c0);
      ReachNext(ops, k, c0);
      var r := Dispatch(l, ops[k]);
      results, c := results + [r], Apply(ops[k], c);
      IndexIsNat(l);
      k := k + 1;
    }
    assert ops[..k] == ops;
  }

  lemma WithoutNullReaches(ops: seq<Op>, k: nat, c: Cursor)
    requires AllAllowed(ops) && k < |ops| && NoNull(c.items) && forall i :: 0 <= i < |ops| ==> !BringsNull(ops[i])
    ensures Reaches(ops[k], Run(ops[..k], c))
  {
    hide Run, Reaches, NoNull, BringsNull;
    WithoutNullAllReach(ops, c);
    assert ReachesAt(ops, k, c);
  }

  /** A step that goes astray shows that there is, or was brought in, a NULL payload. */
  lemma MeetsNull(ops: seq<Op>, k: nat, c: Cursor)
    requires AllAllowed(ops) && k < |ops| && !Reaches(ops[k], Run(ops[..k], c))
    ensures !(NoNull(c.items) && forall i :: 0 <= i < |ops| ==> !BringsNull(ops[i]))
  {
    hide Run, Reaches, NoNull, BringsNull;
    if NoNull(c.items) && forall i :: 0 <= i < |ops| ==> !BringsNull(ops[i]) {
      WithoutNullReaches(ops, k, c);
    }
  }

  lemma IndexIsNat(l: EcoreList)
    requires l.Valid()
    ensures 0 <= l.index
  {
  }

  lemma RunNone(c: Cursor)
    ensures Run([], c) == c && Results([], c) == []
  {
  }
}
