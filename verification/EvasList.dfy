/** Evas_List: a doubly linked list all of whose nodes share one accounting record.
    An `EvasList` object is a caller's `Evas_List *` variable, together with the ghost
    sequence of nodes reachable from it. Whether a pool allocation succeeds is a parameter. */
module EvasList {
  import opened Payloads
  import opened Sequences
  import opened Sorting

  class Node {
    var data: Ptr
    var next: Node?
    var prev: Node?
    var accounting: Accounting?
  }

  class Accounting {
    var last: Node?
    var count: int
  }

  /** The static state of evas_list.c: the usage counters of its two memory pools and the
      allocation error flag. */
  class Library {
    var nodeUsage: int
    var accountingUsage: int
    var allocError: bool

    constructor ()
      ensures nodeUsage == accountingUsage == 0
    {
      nodeUsage, accountingUsage, allocError := 0, 0, false;
    }
  }

  // ----- Plain sequences -----

  lemma {:induction false} ReversedAt(s: seq<Ptr>)
    ensures |Reversed(s)| == |s|
    ensures forall k :: 0 <= k < |s| ==> Reversed(s)[k] == s[|s| - 1 - k]
  {
    if s != [] {
      ReversedAt(s[1..]);
    }
  }

  /** `s` once its i outermost pairs have been exchanged. */
  ghost function HalfReversed(s: seq<Ptr>, i: int): (r: seq<Ptr>)
    ensures |r| == |s|
    ensures forall k {:trigger r[k]} :: 0 <= k < |s| ==> r[k] == if k < i || k >= |s| - i then s[|s| - 1 - k] else s[k]
  {
    seq(|s|, k requires 0 <= k < |s| => if k < i || k >= |s| - i then s[|s| - 1 - k] else s[k])
  }

  lemma HalfReversedStep(s: seq<Ptr>, i: nat)
    requires 0 < i <= |s| - i
    ensures var h := HalfReversed(s, i - 1);
            h[i - 1 := h[|s| - i]][|s| - i := h[i - 1]] == HalfReversed(s, i)
  {
    var h := HalfReversed(s, i - 1);
    assert forall k :: 0 <= k < |s| ==> h[i - 1 := h[|s| - i]][|s| - i := h[i - 1]][k] == HalfReversed(s, i)[k];
  }

  lemma HalfReversedAll(s: seq<Ptr>, i: nat)
    requires |s| - 1 <= 2 * i <= |s|
    ensures HalfReversed(s, i) == Reversed(s)
  {
    hide Reversed, HalfReversed;
    ReversedAt(s);
    var h := HalfReversed(s, i);
    forall k | 0 <= k < |s|
      ensures h[k] == Reversed(s)[k]
    {
      if 2 * k == |s| - 1 { assert |s| - 1 - k == k; }
    }
  }

  // ----- Chains of nodes -----

  ghost function At(s: seq<Node>, i: int): Node? {
    if 0 <= i < |s| then s[i] else null
  }

  /** `prev` and `next` mirror each other along the whole chain and end in NULL. */
  ghost predicate Linked(s: seq<Node>)
    reads s
  {
    && (forall i {:trigger s[i].prev} :: 0 <= i < |s| ==> s[i].prev == At(s, i - 1))
    && (forall i {:trigger s[i].next} :: 0 <= i < |s| ==> s[i].next == At(s, i + 1))
  }

  ghost predicate SharedAccounting(s: seq<Node>, a: Accounting?)
    reads s, a
  {
    && (forall i {:trigger s[i].accounting} :: 0 <= i < |s| ==> s[i].accounting == a)
    && (s != [] ==> a != null && a.count == |s| && a.last == s[|s| - 1])
  }

  ghost predicate IsList(list: Node?, s: seq<Node>, a: Accounting?)
    reads s, a
  {
    list == At(s, 0) && Distinct(s) && Linked(s) && SharedAccounting(s, a)
  }

  ghost function Data(s: seq<Node>): (d: seq<Ptr>)
    reads s
    ensures |d| == |s|
    ensures forall i {:trigger d[i]} {:trigger s[i].data} :: 0 <= i < |s| ==> d[i] == s[i].data
  {
    seq(|s|, i requires 0 <= i < |s| reads s => s[i].data)
  }

  /** Number of accounting records owned by a list of these nodes. */
  ghost function Records(s: seq<Node>): int {
    if s == [] then 0 else 1
  }

  /** The nodes of a non-empty list and the record they share. */
  datatype Chain = Chain(nodes: seq<Node>, record: Accounting)

  lemma InsertMembers(s: seq<Node>, k: nat, n: Node)
    requires k <= |s|
    ensures forall m :: m in InsertAt(s, k, n) ==> m in s || m == n
  {
  }

  /** Every payload and every accounting pointer is as it was. */
  twostate predicate SamePayload(s: seq<Node>)
    reads s
  {
    forall i {:trigger s[i].data} {:trigger s[i].accounting} :: 0 <= i < |s| ==>
      s[i].data == old(s[i].data) && s[i].accounting == old(s[i].accounting)
  }

  /** `n` has been linked in at position k. */
  twostate predicate Spliced(s: seq<Node>, k: nat, new n: Node, a: Accounting)
    reads s, n, a
  {
    && (forall i {:trigger s[i].next} :: 0 <= i < |s| ==> s[i].next == if i == k - 1 then n else old(s[i].next))
    && (forall i {:trigger s[i].prev} :: 0 <= i < |s| ==> s[i].prev == if i == k then n else old(s[i].prev))
    && SamePayload(s)
    && n.prev == At(s, k - 1) && n.next == At(s, k) && n.accounting == a
    && a.count == |s| + 1 && a.last == if k == |s| then n else old(a.last)
  }

  /** The node at position k has been bypassed. */
  twostate predicate Bypassed(s: seq<Node>, k: nat, a: Accounting)
    reads s, a
  {
    && (forall i {:trigger s[i].next} :: 0 <= i < |s| ==> s[i].next == if i == k - 1 then At(s, k + 1) else old(s[i].next))
    && (forall i {:trigger s[i].prev} :: 0 <= i < |s| ==> s[i].prev == if i == k + 1 then At(s, k - 1) else old(s[i].prev))
    && SamePayload(s)
    && a.count == |s| - 1 && a.last == if k == |s| - 1 then At(s, k - 1) else old(a.last)
  }

  /** The node at position j has been moved in front of the node at position i. */
  twostate predicate Moved(s: seq<Node>, i: nat, j: nat)
    reads s
  {
    && (forall k {:trigger s[k].next} :: 0 <= k < |s| ==>
          s[k].next == if k == i - 1 then At(s, j) else if k == j then At(s, i)
                       else if k == j - 1 then At(s, j + 1) else old(s[k].next))
    && (forall k {:trigger s[k].prev} :: 0 <= k < |s| ==>
          s[k].prev == if k == i then At(s, j) else if k == j then At(s, i - 1)
                       else if k == j + 1 then At(s, j - 1) else old(s[k].prev))
  }

  twostate lemma SplicedLinks(c: Chain, new k: int, new n: Node)
    requires 0 <= k <= |c.nodes| && old(Linked(c.nodes)) && Spliced(c.nodes, k, n, c.record)
    ensures Linked(InsertAt(c.nodes, k, n))
  {
    var s := c.nodes;
    var t := InsertAt(s, k, n);
    forall i | 0 <= i < |t|
      ensures t[i].prev == At(t, i - 1) && t[i].next == At(t, i + 1)
    {
      if i < k {
        assert s[i].next == if i == k - 1 then n else old(s[i].next);
        assert s[i].prev == old(s[i].prev) == At(s, i - 1);
      } else if i > k {
        assert s[i - 1].next == old(s[i - 1].next) == At(s, i);
        assert s[i - 1].prev == if i - 1 == k then n else old(s[i - 1].prev);
      }
    }
  }

  twostate lemma SplicedAccounting(c: Chain, new k: int, new n: Node)
    requires 0 <= k <= |c.nodes| && c.nodes != [] && Spliced(c.nodes, k, n, c.record)
    requires old(SharedAccounting(c.nodes, c.record))
    ensures SharedAccounting(InsertAt(c.nodes, k, n), c.record)
    ensures Data(InsertAt(c.nodes, k, n)) == InsertAt(old(Data(c.nodes)), k, n.data)
  {
    var s, a := c.nodes, c.record;
    var t, d := InsertAt(s, k, n), InsertAt(old(Data(s)), k, n.data);
    forall i | 0 <= i < |t|
      ensures t[i].accounting == a && Data(t)[i] == d[i]
    {
      if i < k {
        assert s[i].accounting == a && s[i].data == old(s[i].data);
      } else if i > k {
        assert s[i - 1].accounting == a && s[i - 1].data == old(s[i - 1].data);
      }
    }
  }

  /** Splicing keeps a well-formed list well-formed, with the payload in the right place. */
  twostate lemma SplicedIsList(c: Chain, new k: int, new n: Node)
    requires 0 <= k <= |c.nodes| && c.nodes != [] && n !in c.nodes && Spliced(c.nodes, k, n, c.record)
    requires old(IsList(c.nodes[0], c.nodes, c.record))
    ensures IsList(if k == 0 then n else c.nodes[0], InsertAt(c.nodes, k, n), c.record)
    ensures Data(InsertAt(c.nodes, k, n)) == InsertAt(old(Data(c.nodes)), k, n.data)
  {
    SplicedLinks(c, k, n);
    InsertDistinct(c.nodes, k, n);
    SplicedAccounting(c, k, n);
  }

  twostate lemma BypassedLinks(c: Chain, new k: int)
    requires 0 <= k < |c.nodes| && old(Linked(c.nodes)) && Bypassed(c.nodes, k, c.record)
    ensures Linked(RemoveAt(c.nodes, k))
  {
    var s := c.nodes;
    var t := RemoveAt(s, k);
    forall i | 0 <= i < |t|
      ensures t[i].prev == At(t, i - 1) && t[i].next == At(t, i + 1)
    {
      if i < k {
        assert s[i].next == if i == k - 1 then At(s, k + 1) else old(s[i].next);
        assert s[i].prev == old(s[i].prev) == At(s, i - 1);
      } else {
        assert s[i + 1].next == old(s[i + 1].next) == At(s, i + 2);
        assert s[i + 1].prev == if i == k then At(s, k - 1) else old(s[i + 1].prev);
      }
    }
  }

  twostate lemma BypassedIsList(c: Chain, new k: int)
    requires 0 <= k < |c.nodes| && Bypassed(c.nodes, k, c.record)
    requires old(IsList(c.nodes[0], c.nodes, c.record))
    ensures IsList(if k == 0 then At(c.nodes, 1) else c.nodes[0], RemoveAt(c.nodes, k), c.record)
    ensures Data(RemoveAt(c.nodes, k)) == RemoveAt(old(Data(c.nodes)), k)
  {
    var s, a := c.nodes, c.record;
    BypassedLinks(c, k);
    RemoveDistinct(s, k);
    var t, d := RemoveAt(s, k), RemoveAt(old(Data(s)), k);
    forall i | 0 <= i < |t|
      ensures t[i].accounting == a && Data(t)[i] == d[i]
    {
      var p := if i < k then i else i + 1;
      assert s[p].accounting == a && s[p].data == old(s[p].data);
    }
  }

  twostate lemma MovedLinks(s: seq<Node>, new i: int, new j: int)
    requires 0 <= i < j < |s| && old(Linked(s)) && Moved(s, i, j)
    ensures Linked(MoveTo(s, i, j))
  {
    var t := MoveTo(s, i, j);
    forall k | 0 <= k < |t|
      ensures t[k].prev == At(t, k - 1) && t[k].next == At(t, k + 1)
    {
      var p := if k < i || k > j then k else if k == i then j else k - 1;
      assert t[k] == s[p];
      assert old(s[p].next) == At(s, p + 1) && old(s[p].prev) == At(s, p - 1);
      assert s[p].next == if p == i - 1 then At(s, j) else if p == j then At(s, i)
                          else if p == j - 1 then At(s, j + 1) else old(s[p].next);
      assert s[p].prev == if p == i then At(s, j) else if p == j then At(s, i - 1)
                          else if p == j + 1 then At(s, j - 1) else old(s[p].prev);
    }
  }

  twostate lemma MovedData(s: seq<Node>, new i: int, new j: int)
    requires 0 <= i < j < |s| && SamePayload(s)
    ensures Data(MoveTo(s, i, j)) == MoveTo(old(Data(s)), i, j)
  {
    var t, d := MoveTo(s, i, j), MoveTo(old(Data(s)), i, j);
    forall k | 0 <= k < |t|
      ensures Data(t)[k] == d[k]
    {
      var p := if k < i || k > j then k else if k == i then j else k - 1;
      assert s[p].data == old(s[p].data);
    }
  }

  twostate lemma MovedIsList(c: Chain, new k: int)
    requires 0 < k < |c.nodes| && Moved(c.nodes, 0, k) && SamePayload(c.nodes)
    requires old(IsList(c.nodes[0], c.nodes, c.record))
    requires c.record.count == |c.nodes|
    requires c.record.last == if k == |c.nodes| - 1 then At(c.nodes, k - 1) else old(c.record.last)
    ensures IsList(c.nodes[k], MoveTo(c.nodes, 0, k), c.record)
    ensures Data(MoveTo(c.nodes, 0, k)) == MoveTo(old(Data(c.nodes)), 0, k)
  {
    var s := c.nodes;
    MovedLinks(s, 0, k);
    MovedData(s, 0, k);
    MoveDistinct(s, 0, k);
  }

  /** The links of the node at position i, which occurs nowhere else. */
  lemma Neighbours(list: Node?, s: seq<Node>, a: Accounting?, i: int)
    requires IsList(list, s, a)
    ensures 0 <= i < |s| ==> s[i].next == At(s, i + 1) && s[i].prev == At(s, i - 1)
    ensures forall j {:trigger s[j]} :: 0 <= j < |s| && 0 <= i < |s| && s[j] == s[i] ==> i == j
  {
    forall j | 0 <= j < |s| && 0 <= i < |s| && s[j] == s[i]
      ensures i == j
    {
      assert Differ(s, i, j);
    }
  }

  lemma Head(list: Node?, s: seq<Node>, a: Accounting?)
    requires IsList(list, s, a)
    ensures list == At(s, 0) && (s != [] ==> a != null)
  {
  }

  lemma Ends(list: Node, s: seq<Node>, a: Accounting?)
    requires IsList(list, s, a)
    ensures s != [] && list == s[0] && a != null && list.accounting == a
    ensures a.last == s[|s| - 1] && a.count == |s|
  {
  }

  // ----- The pointer updates of the individual operations -----

  method SwapData(l1: Node, l2: Node, ghost i: nat, ghost j: nat, ghost list: Node, ghost s: seq<Node>, ghost a: Accounting)
    requires IsList(list, s, a) && i < j && l1 == At(s, i) && l2 == At(s, j)
    modifies s`data
    ensures IsList(list, s, a)
    ensures Data(s) == old(Data(s))[i := old(Data(s))[j]][j := old(Data(s))[i]]
  {
    ghost var d := Data(s);
    l1.data, l2.data := l2.data, l1.data;
    forall k | 0 <= k < |s|
      ensures Data(s)[k] == d[i := d[j]][j := d[i]][k]
    {
      assert Differ(s, k, i) && Differ(s, k, j);
    }
  }

  method LinkLast(list: Node, n: Node, ghost s: seq<Node>, ghost a: Accounting)
    requires IsList(list, s, a) && n !in s && n.next == null
    modifies s, a, n
    ensures IsList(list, InsertAt(s, |s|, n), a)
    ensures Data(InsertAt(s, |s|, n)) == InsertAt(old(Data(s)), |s|, old(n.data))
  {
    hide IsList;
    Ends(list, s, a);
    Neighbours(list, s, a, |s| - 1);
    var l := list.accounting.last;
    l.next := n;
    n.prev := l;
    n.accounting := list.accounting;
    list.accounting.last := n;
    list.accounting.count := list.accounting.count + 1;
    assert SamePayload(s);
    forall i | 0 <= i < |s|
      ensures s[i].next == if i == |s| - 1 then n else old(s[i].next)
    {
      assert s[i] in s;
    }
    SplicedIsList(Chain(s, a), |s|, n);
  }

  method LinkFirst(list: Node, n: Node, ghost s: seq<Node>, ghost a: Accounting)
    requires IsList(list, s, a) && n !in s && n.prev == null
    modifies s, a, n
    ensures IsList(n, InsertAt(s, 0, n), a)
    ensures Data(InsertAt(s, 0, n)) == InsertAt(old(Data(s)), 0, old(n.data))
  {
    hide IsList;
    Ends(list, s, a);
    Neighbours(list, s, a, 0);
    n.next := list;
    list.prev := n;
    n.accounting := list.accounting;
    list.accounting.count := list.accounting.count + 1;
    assert SamePayload(s);
    forall i | 0 <= i < |s|
      ensures s[i].prev == if i == 0 then n else old(s[i].prev)
    {
      assert s[i] in s;
    }
    SplicedIsList(Chain(s, a), 0, n);
  }

  method LinkAfter(list: Node, n: Node, relative: Node, ghost k: nat, ghost s: seq<Node>, ghost a: Accounting)
    requires IsList(list, s, a) && relative == At(s, k) && n !in s
    modifies s, a, n
    ensures IsList(list, InsertAt(s, k + 1, n), a)
    ensures Data(InsertAt(s, k + 1, n)) == InsertAt(old(Data(s)), k + 1, old(n.data))
  {
    hide IsList;
    Ends(list, s, a);
    Neighbours(list, s, a, k);
    Neighbours(list, s, a, k + 1);
    if relative.next != null {
      n.next := relative.next;
      relative.next.prev := n;
    } else {
      n.next := null;
    }
    relative.next := n;
    n.prev := relative;
    n.accounting := list.accounting;
    list.accounting.count := list.accounting.count + 1;
    if n.next == null {
      n.accounting.last := n;
    }
    assert SamePayload(s);
    forall i | 0 <= i < |s|
      ensures s[i].next == if i == k then n else old(s[i].next)
      ensures s[i].prev == if i == k + 1 then n else old(s[i].prev)
    {
      assert s[i] in s;
    }
    SplicedIsList(Chain(s, a), k + 1, n);
  }

  method LinkBefore(list: Node, n: Node, relative: Node, ghost k: nat, ghost s: seq<Node>, ghost a: Accounting)
    requires IsList(list, s, a) && relative == At(s, k) && n !in s
    modifies s, a, n
    ensures n.prev == At(s, k - 1)
    ensures IsList(if k == 0 then n else list, InsertAt(s, k, n), a)
    ensures Data(InsertAt(s, k, n)) == InsertAt(old(Data(s)), k, old(n.data))
  {
    hide IsList;
    Ends(list, s, a);
    Neighbours(list, s, a, k);
    Neighbours(list, s, a, k - 1);
    n.prev := relative.prev;
    n.next := relative;
    if relative.prev != null {
      relative.prev.next := n;
    }
    relative.prev := n;
    n.accounting := list.accounting;
    list.accounting.count := list.accounting.count + 1;
    assert SamePayload(s);
    forall i | 0 <= i < |s|
      ensures s[i].next == if i == k - 1 then n else old(s[i].next)
      ensures s[i].prev == if i == k then n else old(s[i].prev)
    {
      assert s[i] in s;
    }
    SplicedIsList(Chain(s, a), k, n);
  }

  method Unlink(list: Node, node: Node, ghost k: nat, ghost s: seq<Node>, ghost a: Accounting) returns (head: Node?)
    requires IsList(list, s, a) && node == At(s, k)
    modifies s, a
    ensures IsList(head, RemoveAt(s, k), a) && a.count == |s| - 1
    ensures Data(RemoveAt(s, k)) == RemoveAt(old(Data(s)), k)
  {
    hide IsList;
    Ends(list, s, a);
    Neighbours(list, s, a, k - 1);
    Neighbours(list, s, a, k);
    Neighbours(list, s, a, k + 1);
    if node.next != null {
      node.next.prev := node.prev;
    }
    if node.prev != null {
      node.prev.next := node.next;
      head := list;
    } else {
      head := node.next;
    }
    if node == list.accounting.last {
      list.accounting.last := node.prev;
    }
    list.accounting.count := list.accounting.count - 1;
    assert SamePayload(s);
    forall i | 0 <= i < |s|
      ensures s[i].next == if i == k - 1 then At(s, k + 1) else old(s[i].next)
      ensures s[i].prev == if i == k + 1 then At(s, k - 1) else old(s[i].prev)
    {
    }
    BypassedIsList(Chain(s, a), k);
  }

  /** The node move of evas_list_promote_list. */
  method Promote(list: Node, node: Node, ghost k: nat, ghost s: seq<Node>, ghost a: Accounting)
    requires IsList(list, s, a) && node == At(s, k) && k > 0
    modifies s, a
    ensures IsList(node, MoveTo(s, 0, k), a)
    ensures Data(MoveTo(s, 0, k)) == MoveTo(old(Data(s)), 0, k)
  {
    hide IsList;
    Ends(list, s, a);
    Neighbours(list, s, a, 0);
    Neighbours(list, s, a, k - 1);
    Neighbours(list, s, a, k);
    Neighbours(list, s, a, k + 1);
    if node.next != null {
      node.next.prev := node.prev;
    }
    node.prev.next := node.next;
    if node == list.accounting.last {
      list.accounting.last := node.prev;
    }
    node.prev := list.prev;
    list.prev := node;
    node.next := list;
    assert SamePayload(s);
    forall i | 0 <= i < |s|
      ensures s[i].next == if i == k then At(s, 0) else if i == k - 1 then At(s, k + 1) else old(s[i].next)
      ensures s[i].prev == if i == 0 then At(s, k) else if i == k then null
                           else if i == k + 1 then At(s, k - 1) else old(s[i].prev)
    {
    }
    MovedIsList(Chain(s, a), k);
  }

  /** The exchange that completes the outermost i + 1 pairs. */
  method SwapPair(l1: Node, l2: Node, ghost i: nat, ghost was: seq<Ptr>, ghost list: Node, ghost s: seq<Node>, ghost a: Accounting)
    requires IsList(list, s, a) && i < |s| - 1 - i && l1 == At(s, i) && l2 == At(s, |s| - 1 - i)
    requires Data(s) == HalfReversed(was, i)
    modifies s`data
    ensures IsList(list, s, a) && Data(s) == HalfReversed(was, i + 1)
  {
    hide IsList, HalfReversed, Data;
    SwapData(l1, l2, i, |s| - 1 - i, list, s, a);
    HalfReversedStep(was, i + 1);
  }

  /** The loop of evas_list_reverse. */
  method ReverseData(list: Node, ghost s: seq<Node>, ghost a: Accounting)
    requires IsList(list, s, a)
    modifies s`data
    ensures IsList(list, s, a)
    ensures Data(s) == Reversed(old(Data(s)))
  {
    hide IsList, HalfReversed, Reversed, Data;
    Ends(list, s, a);
    var l1, l2 := list, list.accounting.last;
    ghost var was, i, j := Data(s), 0, |s| - 1;
    while l1 != l2
      invariant IsList(list, s, a)
      invariant 0 <= i <= j == |s| - 1 - i && l1 == s[i] && l2 == s[j]
      invariant Data(s) == HalfReversed(was, i)
      decreases j - i
    {
      SwapPair(l1, l2, i, was, list, s, a);
      i := i + 1;
      Neighbours(list, s, a, i - 1);
      Neighbours(list, s, a, j);
      l1 := l1.next;
      if l1 == l2 {
        break;
      }
      l2 := l2.prev;
      j := j - 1;
    }
    Neighbours(list, s, a, i);
    HalfReversedAll(was, i);
  }

  // ----- The public operations -----

  class EvasList {
    const lib: Library
    var list: Node?
    ghost var nodes: seq<Node>
    ghost var accounting: Accounting?

    ghost predicate Valid()
      reads this, nodes, accounting
    {
      IsList(list, nodes, accounting)
    }

    ghost function Contents(): seq<Ptr>
      reads this, nodes
    {
      Data(nodes)
    }

    constructor (lib: Library)
      ensures Valid() && this.lib == lib && nodes == [] && accounting == null
    {
      this.lib := lib;
      list, nodes, accounting := null, [], null;
    }

    /** What every operation promises besides its effect on the payloads: the list stays
        well-formed, no node comes from elsewhere, and the two pools are charged exactly for
        what the list holds. */
    twostate predicate Kept()
      reads this, nodes, accounting, lib
    {
      && Valid()
      && (forall n :: n in nodes ==> n in old(nodes) || fresh(n))
      && (accounting == old(accounting) || accounting == null || fresh(accounting))
      && lib.nodeUsage - |nodes| == old(lib.nodeUsage - |nodes|)
      && lib.accountingUsage - Records(nodes) == old(lib.accountingUsage - Records(nodes))
    }

    /** The nodes are the old ones with a fresh node at position k, or just the old ones if the
        allocation failed. */
    twostate predicate NodeInserted(k: int)
      reads this, lib
    {
      if lib.allocError then nodes == old(nodes)
      else 0 <= k <= |old(nodes)| && k < |nodes| && fresh(nodes[k]) && nodes == InsertAt(old(nodes), k, nodes[k])
    }

    /** The branch of append and prepend that starts a new list. */
    method StartList(n: Node, accountingOk: bool)
      requires Valid() && list == null
      modifies this, lib, n
      ensures Valid() && old(nodes) == []
      ensures lib.nodeUsage == old(lib.nodeUsage) - (if accountingOk then 0 else 1)
      ensures lib.accountingUsage == old(lib.accountingUsage) + (if accountingOk then 1 else 0)
      ensures lib.allocError == if accountingOk then old(lib.allocError) else true
      ensures accountingOk ==> nodes == [n] && fresh(accounting) && Contents() == [old(n.data)]
      ensures !accountingOk ==> nodes == [] && accounting == old(accounting) && Contents() == []
    {
      n.prev, n.next := null, null;
      if !accountingOk {
        lib.allocError := true;
        lib.nodeUsage := lib.nodeUsage - 1;
        return;
      }
      lib.accountingUsage := lib.accountingUsage + 1;
      var a := new Accounting;
      n.accounting := a;
      n.accounting.last := n;
      n.accounting.count := 1;
      list, nodes, accounting := n, [n], a;
    }

    method Append(data: Ptr, nodeOk: bool, accountingOk: bool)
      requires Valid()
      modifies this, nodes, accounting, lib
      ensures Kept()
      ensures lib.allocError == !(nodeOk && (accountingOk || old(nodes) != []))
      ensures Contents() == if lib.allocError then old(Contents()) else InsertAt(old(Contents()), |old(Contents())|, data)
      ensures NodeInserted(|old(nodes)|)
    {
      hide IsList, Data;
      lib.allocError := false;
      if !nodeOk {
        lib.allocError := true;
        return;
      }
      lib.nodeUsage := lib.nodeUsage + 1;
      var n := new Node;
      n.next := null;
      n.data := data;
      if list == null {
        StartList(n, accountingOk);
        return;
      }
      Ends(list, nodes, accounting);
      assert Data(nodes) == old(Data(nodes));
      LinkLast(list, n, nodes, accounting);
      InsertMembers(nodes, |nodes|, n);
      nodes := InsertAt(nodes, |nodes|, n);
    }

    method Prepend(data: Ptr, nodeOk: bool, accountingOk: bool)
      requires Valid()
      modifies this, nodes, accounting, lib
      ensures Kept()
      ensures lib.allocError == !(nodeOk && (accountingOk || old(nodes) != []))
      ensures Contents() == if lib.allocError then old(Contents()) else InsertAt(old(Contents()), 0, data)
      ensures NodeInserted(0)
    {
      hide IsList, Data;
      lib.allocError := false;
      if !nodeOk {
        lib.allocError := true;
        return;
      }
      lib.nodeUsage := lib.nodeUsage + 1;
      var n := new Node;
      n.prev := null;
      n.data := data;
      if list == null {
        StartList(n, accountingOk);
        return;
      }
      Ends(list, nodes, accounting);
      assert Data(nodes) == old(Data(nodes));
      LinkFirst(list, n, nodes, accounting);
      InsertMembers(nodes, 0, n);
      list, nodes := n, InsertAt(nodes, 0, n);
    }

    /** evas_list_append_relative_list, `relative` being the node at position k or NULL. */
    method AppendRelativeList(data: Ptr, relative: Node?, ghost k: nat, nodeOk: bool, accountingOk: bool)
      requires Valid() && relative == At(nodes, k)
      modifies this, nodes, accounting, lib
      ensures Kept()
      ensures lib.allocError == !(nodeOk && (accountingOk || old(nodes) != []))
      ensures Contents() == if lib.allocError then old(Contents())
                            else InsertAt(old(Contents()), if k < |old(Contents())| then k + 1 else |old(Contents())|, data)
      ensures NodeInserted(if k < |old(nodes)| then k + 1 else |old(nodes)|)
    {
      hide IsList, Data, InsertAt;
      Head(list, nodes, accounting);
      if list == null || relative == null {
        Append(data, nodeOk, accountingOk);
        return;
      }
      lib.allocError := false;
      if !nodeOk {
        lib.allocError := true;
        return;
      }
      lib.nodeUsage := lib.nodeUsage + 1;
      var n := new Node;
      n.data := data;
      assert Data(nodes) == old(Data(nodes));
      LinkAfter(list, n, relative, k, nodes, accounting);
      InsertMembers(nodes, k + 1, n);
      nodes := InsertAt(nodes, k + 1, n);
    }

    method PrependRelativeList(data: Ptr, relative: Node?, ghost k: nat, nodeOk: bool, accountingOk: bool)
      requires Valid() && relative == At(nodes, k)
      modifies this, nodes, accounting, lib
      ensures Kept()
      ensures lib.allocError == !(nodeOk && (accountingOk || old(nodes) != []))
      ensures Contents() == if lib.allocError then old(Contents())
                            else InsertAt(old(Contents()), if k < |old(Contents())| then k else 0, data)
      ensures NodeInserted(if k < |old(nodes)| then k else 0)
    {
      hide IsList, Data, InsertAt;
      Head(list, nodes, accounting);
      if list == null || relative == null {
        Prepend(data, nodeOk, accountingOk);
        return;
      }
      lib.allocError := false;
      if !nodeOk {
        lib.allocError := true;
        return;
      }
      lib.nodeUsage := lib.nodeUsage + 1;
      var n := new Node;
      n.data := data;
      assert Data(nodes) == old(Data(nodes));
      LinkBefore(list, n, relative, k, nodes, accounting);
      InsertMembers(nodes, k, n);
      if n.prev == null {
        list := n;
      }
      nodes := InsertAt(nodes, k, n);
    }

    /** evas_list_find_list: the first node holding `data`. */
    method FindList(data: Ptr) returns (l: Node?)
      requires Valid()
      ensures l == At(nodes, IndexOf(Contents(), data))
    {
      l := list;
      ghost var i := 0;
      while l != null
        invariant 0 <= i <= |nodes| && l == At(nodes, i)
        invariant forall j :: 0 <= j < i ==> nodes[j].data != data
        decreases |nodes| - i
      {
        if l.data == data {
          return;
        }
        l := l.next;
        i := i + 1;
      }
    }

    method AppendRelative(data: Ptr, relative: Ptr, nodeOk: bool, accountingOk: bool)
      requires Valid()
      modifies this, nodes, accounting, lib
      ensures Kept()
      ensures lib.allocError == !(nodeOk && (accountingOk || old(nodes) != []))
      ensures var c := old(Contents());
              var k := IndexOf(c, relative);
              && Contents() == (if lib.allocError then c else InsertAt(c, if k < |c| then k + 1 else |c|, data))
              && NodeInserted(if k < |c| then k + 1 else |c|)
    {
      hide IsList, Data, InsertAt, RemoveAt, IndexOf;
      var l := FindList(relative);
      AppendRelativeList(data, l, IndexOf(Contents(), relative), nodeOk, accountingOk);
    }

    method PrependRelative(data: Ptr, relative: Ptr, nodeOk: bool, accountingOk: bool)
      requires Valid()
      modifies this, nodes, accounting, lib
      ensures Kept()
      ensures lib.allocError == !(nodeOk && (accountingOk || old(nodes) != []))
      ensures var c := old(Contents());
              var k := IndexOf(c, relative);
              && Contents() == (if lib.allocError then c else InsertAt(c, if k < |c| then k else 0, data))
              && NodeInserted(if k < |c| then k else 0)
    {
      hide IsList, Data, InsertAt, RemoveAt, IndexOf;
      var l := FindList(relative);
      PrependRelativeList(data, l, IndexOf(Contents(), relative), nodeOk, accountingOk);
    }

    /** evas_list_remove_list; the accounting record goes back to its pool with the last node. */
    method RemoveList(remove: Node?, ghost k: nat)
      requires Valid() && remove == At(nodes, k)
      modifies this, nodes, accounting, lib
      ensures Kept() && lib.allocError == old(lib.allocError)
      ensures nodes == if k < |old(nodes)| then RemoveAt(old(nodes), k) else old(nodes)
      ensures Contents() == if k < |old(Contents())| then RemoveAt(old(Contents()), k) else old(Contents())
    {
      if list == null || remove == null {
        return;
      }
      var record := list.accounting;
      var head := Unlink(list, remove, k, nodes, accounting);
      if record.count == 0 {
        lib.accountingUsage := lib.accountingUsage - 1;
      }
      lib.nodeUsage := lib.nodeUsage - 1;
      list, nodes := head, RemoveAt(nodes, k);
    }

    method Remove(data: Ptr)
      requires Valid()
      modifies this, nodes, accounting, lib
      ensures Kept() && lib.allocError == old(lib.allocError)
      ensures var c := old(Contents());
              var k := IndexOf(c, data);
              && nodes == (if k < |c| then RemoveAt(old(nodes), k) else old(nodes))
              && Contents() == if k < |c| then RemoveAt(c, k) else c
    {
      hide IsList, Data, InsertAt, RemoveAt, IndexOf;
      var l := FindList(data);
      RemoveList(l, IndexOf(Contents(), data));
    }

    /** evas_list_promote_list: the node at position k moves to the front. */
    method PromoteList(move: Node?, ghost k: nat)
      requires Valid() && move == At(nodes, k)
      modifies this, nodes, accounting
      ensures Kept()
      ensures nodes == if k < |old(nodes)| then MoveTo(old(nodes), 0, k) else old(nodes)
      ensures Contents() == if k < |old(Contents())| then MoveTo(old(Contents()), 0, k) else old(Contents())
    {
      if list == null || move == null || move == list {
        assert Differ(nodes, 0, k);
        return;
      }
      Promote(list, move, k, nodes, accounting);
      list, nodes := move, MoveTo(nodes, 0, k);
    }

    /** evas_list_nth_list walks from whichever end is closer. */
    method NthList(n: int) returns (l: Node?)
      requires Valid()
      ensures l == At(nodes, n)
    {
      if list == null || n < 0 || n > list.accounting.count - 1 {
        return null;
      }
      if n > list.accounting.count / 2 {
        var i := list.accounting.count - 1;
        l := list.accounting.last;
        while l != null && i != n
          invariant n <= i < |nodes| && l == At(nodes, i)
          decreases i
        {
          l, i := l.prev, i - 1;
        }
      } else {
        var i := 0;
        l := list;
        while l != null && i != n
          invariant 0 <= i <= n && l == At(nodes, i)
          decreases n - i
        {
          l, i := l.next, i + 1;
        }
      }
    }

    /** evas_list_reverse swaps payloads from both ends and moves no node. */
    method Reverse()
      requires Valid()
      modifies nodes`data
      ensures Valid() && nodes == old(nodes)
      ensures Contents() == Reversed(old(Contents()))
    {
      if list == null {
        return;
      }
      ReverseData(list, nodes, accounting);
    }

    method Free()
      requires Valid()
      modifies this, lib
      ensures Kept() && lib.allocError == old(lib.allocError)
      ensures nodes == []
    {
      if list == null {
        return;
      }
      lib.accountingUsage := lib.accountingUsage - 1;
      var l := list;
      ghost var i := 0;
      while l != null
        invariant 0 <= i <= |nodes| && l == At(nodes, i)
        invariant lib.nodeUsage == old(lib.nodeUsage) - i
        decreases |nodes| - i
        modifies lib`nodeUsage
      {
        l := l.next;
        lib.nodeUsage := lib.nodeUsage - 1;
        i := i + 1;
      }
      list, nodes, accounting := null, [], null;
    }
  }
}
