/** Evas_Object_List: an intrusive doubly linked list whose head caches the tail. The cache of
    any other node is stale, and even the head's may be missing. */
module EvasObjectList {
  import opened Payloads
  import opened CStrings
  import opened Sequences

  /** A list item together with the payload of the Evas_Hash_El it starts. */
  class Item {
    var next: Item?
    var prev: Item?
    var last: Item?
    var key: CString
    var data: Ptr

    constructor (key: CString, data: Ptr)
      ensures this.key == key && this.data == data
    {
      this.key, this.data := key, data;
    }
  }

  ghost function At(s: seq<Item>, i: int): Item? {
    if 0 <= i < |s| then s[i] else null
  }

  ghost predicate Linked(s: seq<Item>)
    reads s
  {
    && (forall i {:trigger s[i].prev} :: 0 <= i < |s| ==> s[i].prev == At(s, i - 1))
    && (forall i {:trigger s[i].next} :: 0 <= i < |s| ==> s[i].next == At(s, i + 1))
  }

  /** A well-formed list; the head's cache names the tail or nothing. */
  ghost predicate IsList(list: Item?, s: seq<Item>)
    reads s
  {
    && list == At(s, 0) && Distinct(s) && Linked(s)
    && (s != [] ==> s[0].last == null || s[0].last == s[|s| - 1])
  }

  /** The head knows its tail. */
  ghost predicate Cached(s: seq<Item>)
    reads s
  {
    s != [] ==> s[0].last == s[|s| - 1]
  }

  lemma Neighbours(list: Item?, s: seq<Item>, i: int)
    requires IsList(list, s)
    ensures list == At(s, 0)
    ensures 0 <= i < |s| ==> s[i].next == At(s, i + 1) && s[i].prev == At(s, i - 1)
    ensures forall j {:trigger s[j]} :: 0 <= j < |s| && 0 <= i < |s| && s[j] == s[i] ==> i == j
    ensures s != [] ==> s[0].last == null || s[0].last == s[|s| - 1]
  {
    forall j | 0 <= j < |s| && 0 <= i < |s| && s[j] == s[i]
      ensures i == j
    {
      assert Differ(s, i, j);
    }
  }

  /** `n` has been linked in at position k. */
  twostate predicate Spliced(s: seq<Item>, k: nat, new n: Item)
    reads s, n
  {
    && (forall i {:trigger s[i].next} :: 0 <= i < |s| ==> s[i].next == if i == k - 1 then n else old(s[i].next))
    && (forall i {:trigger s[i].prev} :: 0 <= i < |s| ==> s[i].prev == if i == k then n else old(s[i].prev))
    && n.prev == At(s, k - 1) && n.next == At(s, k)
  }

  twostate lemma SplicedLinks(s: seq<Item>, new k: int, new n: Item)
    requires 0 <= k <= |s| && old(Linked(s)) && Spliced(s, k, n)
    ensures Linked(InsertAt(s, k, n))
  {
    var t := InsertAt(s, k, n);
    forall i | 0 <= i < |t|
      ensures t[i].prev == At(t, i - 1) && t[i].next == At(t, i + 1)
    {
      if i < k {
        assert s[i].next == if i == k - 1 then n else old(s[i].next);
        assert s[i].prev == old(s[i].prev) == At(s, i - 1);
      } else if i > k {
        assert s[i - 1].next == old(s[i - 1].next) == At(s, i);
        assert s[i - 1].prev == if i - 1 == k then n else old(s[i - 1].prev);
      }
    }
  }

  /** Splicing keeps the list well-formed, given a cache on its new head. */
  twostate lemma SplicedIsList(s: seq<Item>, new k: int, new n: Item)
    requires 0 <= k <= |s| && n !in s && Spliced(s, k, n) && old(IsList(At(s, 0), s))
    requires var t := InsertAt(s, k, n); t[0].last == null || t[0].last == t[|s|]
    ensures IsList(if k == 0 then n else s[0], InsertAt(s, k, n))
  {
    SplicedLinks(s, k, n);
    InsertDistinct(s, k, n);
  }

  /** The node at position k has been bypassed. */
  twostate predicate Bypassed(s: seq<Item>, k: nat)
    requires k < |s|
    reads s
  {
    && (forall i {:trigger s[i].next} :: 0 <= i < |s| && i != k ==> s[i].next == if i == k - 1 then At(s, k + 1) else old(s[i].next))
    && (forall i {:trigger s[i].prev} :: 0 <= i < |s| && i != k ==> s[i].prev == if i == k + 1 then At(s, k - 1) else old(s[i].prev))
  }

  twostate lemma BypassedIsList(s: seq<Item>, new k: int)
    requires 0 <= k
    requires k < |s| && old(IsList(s[0], s)) && Bypassed(s, k)
    requires var t := RemoveAt(s, k); t != [] ==> t[0].last == null || t[0].last == t[|t| - 1]
    ensures IsList(At(RemoveAt(s, k), 0), RemoveAt(s, k))
  {
    var t := RemoveAt(s, k);
    RemoveDistinct(s, k);
    forall i | 0 <= i < |t|
      ensures t[i].prev == At(t, i - 1) && t[i].next == At(t, i + 1)
    {
      if i < k {
        assert s[i].next == if i == k - 1 then At(s, k + 1) else old(s[i].next);
        assert s[i].prev == old(s[i].prev) == At(s, i - 1);
      } else {
        assert s[i + 1].next == old(s[i + 1].next) == At(s, i + 2);
        assert s[i + 1].prev == if i == k then At(s, k - 1) else old(s[i + 1].prev);
      }
    }
  }

  /** Line 29: without a cached tail the list is walked. */
  method FindTail(list: Item, ghost s: seq<Item>) returns (l: Item)
    requires IsList(list, s)
    ensures l == At(s, |s| - 1)
  {
    l := list;
    ghost var i := 0;
    while l.next != null
      invariant 0 <= i < |s| && l == s[i]
      decreases |s| - i
    {
      l := l.next;
      i := i + 1;
    }
  }

  /** evas_object_list_append leaves the tail cached whatever the cache was. */
  method Append(list: Item?, n: Item, ghost s: seq<Item>) returns (r: Item)
    requires IsList(list, s) && n !in s
    modifies s`next, s`last, n`next, n`prev, n`last
    ensures IsList(r, InsertAt(s, |s|, n)) && Cached(InsertAt(s, |s|, n))
  {
    hide IsList, Linked, Distinct;
    Neighbours(list, s, |s| - 1);
    n.next := null;
    if list == null {
      n.prev := null;
      n.last := n;
      SplicedIsList(s, 0, n);
      return n;
    }
    var l;
    if list.last != null {
      l := list.last;
    } else {
      l := FindTail(list, s);
    }
    l.next := n;
    n.prev := l;
    list.last := n;
    SplicedIsList(s, |s|, n);
    r := list;
  }

  /** evas_object_list_prepend moves the cache over to the new head. */
  method Prepend(list: Item?, n: Item, ghost s: seq<Item>) returns (r: Item)
    requires IsList(list, s) && n !in s
    modifies s`prev, s`last, n`next, n`prev, n`last
    ensures r == n && IsList(n, InsertAt(s, 0, n))
    ensures old(Cached(s)) ==> Cached(InsertAt(s, 0, n))
  {
    hide IsList, Linked, Distinct;
    Neighbours(list, s, 0);
    n.prev := null;
    if list == null {
      n.next := null;
      n.last := n;
      SplicedIsList(s, 0, n);
      return n;
    }
    n.next := list;
    list.prev := n;
    n.last := list.last;
    list.last := null;
    SplicedIsList(s, 0, n);
    r := n;
  }

  method AppendRelative(list: Item?, n: Item, relative: Item?, ghost k: nat, ghost s: seq<Item>) returns (r: Item)
    requires IsList(list, s) && n !in s && relative == At(s, k)
    modifies s`next, s`prev, s`last, n`next, n`prev, n`last
    ensures var t := InsertAt(s, if k < |s| then k + 1 else |s|, n);
            IsList(r, t) && (old(Cached(s)) ==> Cached(t))
  {
    hide IsList, Linked, Distinct;
    if relative == null {
      r := Append(list, n, s);
      return;
    }
    Neighbours(list, s, k);
    Neighbours(list, s, k + 1);
    if relative.next != null {
      n.next := relative.next;
      relative.next.prev := n;
    } else {
      n.next := null;
    }
    relative.next := n;
    n.prev := relative;
    if n.next == null {
      list.last := n;
    }
    SplicedIsList(s, k + 1, n);
    r := list;
  }

  method PrependRelative(list: Item?, n: Item, relative: Item?, ghost k: nat, ghost s: seq<Item>) returns (r: Item)
    requires IsList(list, s) && n !in s && relative == At(s, k)
    modifies s`next, s`prev, s`last, n`next, n`prev, n`last
    ensures var t := InsertAt(s, if k < |s| then k else 0, n);
            IsList(r, t) && (old(Cached(s)) ==> Cached(t))
  {
    hide IsList, Linked, Distinct;
    if relative == null {
      r := Prepend(list, n, s);
      return;
    }
    Neighbours(list, s, k - 1);
    Neighbours(list, s, k);
    n.prev := relative.prev;
    n.next := relative;
    relative.prev := n;
    assert n.next != null;  // so the tests of lines 109 and 116 never hold
    if n.prev != null {
      n.prev.next := n;
      SplicedIsList(s, k, n);
      return list;
    }
    n.last := list.last;
    list.last := null;
    SplicedIsList(s, k, n);
    r := n;
  }

  /** evas_object_list_remove hands the cache to the new head, or shortens it. */
  method Remove(list: Item?, item: Item?, ghost k: nat, ghost s: seq<Item>) returns (r: Item?)
    requires IsList(list, s) && item == At(s, k)
    modifies s`next, s`prev, s`last
    ensures var t := if k < |s| then RemoveAt(s, k) else s;
            IsList(r, t) && (old(Cached(s)) ==> Cached(t))
  {
    hide IsList, Linked, Distinct;
    Neighbours(list, s, k - 1);
    Neighbours(list, s, k);
    Neighbours(list, s, k + 1);
    if list == null {
      return list;
    }
    if item == null {
      return list;
    }
    if item.next != null {
      item.next.prev := item.prev;
    }
    if item.prev != null {
      item.prev.next := item.next;
      r := list;
    } else {
      r := item.next;
      if r != null {
        r.last := list.last;
      }
    }
    if item == list.last {
      list.last := item.prev;
    }
    item.next := null;
    item.prev := null;
    BypassedIsList(s, k);
  }

  /** A lookup hit further down its bucket: the item is taken out and put in front. */
  method MoveToFront(list: Item, item: Item, ghost k: nat, ghost s: seq<Item>) returns (r: Item)
    requires IsList(list, s) && item == At(s, k)
    modifies s`next, s`prev, s`last
    ensures r == item && IsList(item, MoveTo(s, 0, k))
    ensures old(Cached(s)) ==> Cached(MoveTo(s, 0, k))
  {
    hide IsList, Linked, Distinct, Cached;
    Neighbours(list, s, k);
    ghost var t := RemoveAt(s, k);
    assert InsertAt(t, 0, item) == MoveTo(s, 0, k);
    assert forall n :: n in t ==> n in s;
    var rest := Remove(list, item, k, s);
    r := Prepend(rest, item, t);
  }
}
