/** The linked nodes of ecore_list.c and their recursive merge sort. The sort exists twice, for
    singly and for doubly linked nodes; `double` says which copy runs. */
module EcoreNodes {
  import opened Payloads
  import opened Sequences
  import opened Sorting
  import opened EcoreSort

  class Node {
    var data: Ptr
    var next: Node?
    var previous: Node?

    constructor (data: Ptr)
      ensures this.data == data && next == null && previous == null
    {
      this.data, next, previous := data, null, null;
    }
  }

  ghost function At(s: seq<Node>, i: int): Node? {
    if 0 <= i < |s| then s[i] else null
  }

  ghost predicate Apart(s: seq<Node>, t: seq<Node>) {
    forall n :: n in s ==> n !in t
  }

  ghost function Data(s: seq<Node>): (d: seq<Ptr>)
    reads s`data
    ensures |d| == |s|
    ensures forall i {:trigger d[i]} {:trigger s[i].data} :: 0 <= i < |s| ==> d[i] == s[i].data
  {
    if s == [] then [] else [s[0].data] + Data(s[1..])
  }

  /** Neighbours are linked, in both directions if the list is doubly linked. */
  ghost predicate Tied(double: bool, s: seq<Node>)
    reads s`next, s`previous
  {
    && (forall i {:trigger s[i].next} :: 0 <= i < |s| - 1 ==> s[i].next == s[i + 1])
    && (double ==> forall i {:trigger s[i].previous} :: 0 < i < |s| ==> s[i].previous == s[i - 1])
  }

  ghost predicate EndsInNull(s: seq<Node>)
    reads s`next
  {
    s != [] ==> s[|s| - 1].next == null
  }

  ghost predicate IsChain(double: bool, s: seq<Node>)
    reads s`next, s`previous
  {
    Distinct(s) && Tied(double, s) && EndsInNull(s) && (double && s != [] ==> s[0].previous == null)
  }

  // ----- Merging -----

  /** What has been merged so far and what is left of the two lists do not overlap. */
  ghost predicate Separate(done: seq<Node>, a: seq<Node>, b: seq<Node>) {
    Distinct(done) && Distinct(a) && Distinct(b) && Apart(done, a) && Apart(done, b) && Apart(a, b)
  }

  lemma SeparateNext(done: seq<Node>, a: seq<Node>, b: seq<Node>)
    requires Separate(done, a, b) && b != []
    ensures Separate(done + [b[0]], a, b[1..])
    ensures multiset(done + [b[0]]) + multiset(a) + multiset(b[1..]) == multiset(done) + multiset(a) + multiset(b)
  {
    var d, r := done + [b[0]], b[1..];
    forall i, j
      ensures Differ(d, i, j)
    {
      assert Differ(done, i, j);
      assert 0 <= i < |done| ==> done[i] in done;
      assert 0 <= j < |done| ==> done[j] in done;
    }
    forall i, j
      ensures Differ(r, i, j)
    {
      assert Differ(b, i + 1, j + 1);
    }
    forall n | n in r
      ensures n in b && n !in d && n !in a
    {
      var i :| 0 <= i < |r| && r[i] == n;
      assert Differ(b, 0, i + 1) && b[i + 1] in b;
    }
    assert b == [b[0]] + r;
  }

  /** The state of the merge loop: a finished part that starts in NULL backwards, and two rests
      that end in NULL. */
  ghost predicate Merging(double: bool, done: seq<Node>, a: seq<Node>, b: seq<Node>)
    reads done`next, done`previous, a`next, a`previous, b`next, b`previous
  {
    && Separate(done, a, b)
    && done != [] && Tied(double, done) && (double ==> done[0].previous == null)
    && Tied(double, a) && EndsInNull(a) && Tied(double, b) && EndsInNull(b)
  }

  lemma MergingSwap(double: bool, done: seq<Node>, a: seq<Node>, b: seq<Node>)
    requires Merging(double, done, a, b)
    ensures Merging(double, done, b, a)
  {
  }

  /** The tail of what is done and the head of a rest occur nowhere else. */
  lemma EndsUnique(done: seq<Node>, a: seq<Node>, b: seq<Node>, l: Node, n: Node)
    requires Separate(done, a, b) && done != [] && b != [] && l == done[|done| - 1] && n == b[0]
    ensures forall i {:trigger done[i]} :: 0 <= i < |done| ==> done[i] != n && (done[i] == l ==> i == |done| - 1)
    ensures forall i {:trigger a[i]} :: 0 <= i < |a| ==> a[i] != n && a[i] != l
    ensures forall i {:trigger b[i]} :: 0 <= i < |b| ==> b[i] != l && (b[i] == n ==> i == 0)
  {
    forall i | 0 <= i < |done|
      ensures done[i] != n && (done[i] == l ==> i == |done| - 1)
    {
      assert done[i] in done && Differ(done, i, |done| - 1);
    }
    forall i | 0 <= i < |a|
      ensures a[i] != n && a[i] != l
    {
      assert a[i] in a && l in done;
    }
    forall i | 0 <= i < |b|
      ensures b[i] != l && (b[i] == n ==> i == 0)
    {
      assert b[i] in b && l in done && Differ(b, i, 0);
    }
  }

  /** Lines 1166-1167, and 2079-2081: the head of the second rest becomes the new tail. */
  method LinkOn(double: bool, l: Node, n: Node, ghost done: seq<Node>, ghost a: seq<Node>, ghost b: seq<Node>) returns (rest: Node?)
    requires Merging(double, done, a, b) && l == done[|done| - 1] && n == At(b, 0)
    modifies l`next, n`previous
    ensures Merging(double, done + [n], a, b[1..]) && rest == At(b, 1)
  {
    hide Separate;
    EndsUnique(done, a, b, l, n);
    SeparateNext(done, a, b);
    if double {
      n.previous := l;
    }
    l.next := n;
    rest := n.next;
    ghost var r := b[1..];
    assert forall i {:trigger r[i]} :: 0 <= i < |r| ==> r[i] == b[i + 1];
  }

  /** The nodes of a merge in order; the payloads decide, and the first list wins ties. */
  ghost function MergedNodes(f: Compare, a: seq<Node>, b: seq<Node>): seq<Node>
    reads a`data, b`data
    decreases |a| + |b|
  {
    if a == [] then b
    else if b == [] then a
    else if Cmp(f, a[0].data, b[0].data) <= 0 then [a[0]] + MergedNodes(f, a[1..], b)
    else [b[0]] + MergedNodes(f, a, b[1..])
  }

  /** The result of a merge whose finished part is `done`. */
  ghost function MergedFrom(f: Compare, done: seq<Node>, a: seq<Node>, b: seq<Node>): seq<Node>
    reads a`data, b`data
  {
    done + MergedNodes(f, a, b)
  }

  lemma MergeFirst(f: Compare, done: seq<Node>, a: seq<Node>, b: seq<Node>)
    requires a != [] && b != [] && Cmp(f, a[0].data, b[0].data) <= 0
    ensures MergedFrom(f, done + [a[0]], a[1..], b) == MergedFrom(f, done, a, b)
  {
  }

  lemma MergeSecond(f: Compare, done: seq<Node>, a: seq<Node>, b: seq<Node>)
    requires a != [] && b != [] && Cmp(f, a[0].data, b[0].data) > 0
    ensures MergedFrom(f, done + [b[0]], a, b[1..]) == MergedFrom(f, done, a, b)
  {
  }

  lemma MergeOneLeft(f: Compare, done: seq<Node>, a: seq<Node>, b: seq<Node>)
    requires a == [] || b == []
    ensures MergedFrom(f, done, a, b) == done + a + b
  {
  }

  lemma MergeNone(f: Compare, a: seq<Node>, b: seq<Node>)
    ensures MergedFrom(f, [], a, b) == MergedNodes(f, a, b)
  {
  }

  lemma {:induction false} MergedData(f: Compare, a: seq<Node>, b: seq<Node>)
    ensures Data(MergedNodes(f, a, b)) == Merge(f, false, Data(a), Data(b))
    decreases |a| + |b|
  {
    hide Data;
    if a == [] || b == [] {
      NoData(a);
      NoData(b);
    } else if Cmp(f, a[0].data, b[0].data) <= 0 {
      MergedData(f, a[1..], b);
      DataNext([], a);
      DataConcat([a[0]], MergedNodes(f, a[1..], b));
    } else {
      MergedData(f, a, b[1..]);
      DataNext([], b);
      DataConcat([b[0]], MergedNodes(f, a, b[1..]));
    }
  }

  lemma DataNext(done: seq<Node>, b: seq<Node>)
    requires b != []
    ensures Data(done + [b[0]]) == Data(done) + [Data(b)[0]] && Data(b[1..]) == Data(b)[1..]
  {
  }

  lemma DataConcat(a: seq<Node>, b: seq<Node>)
    ensures Data(a + b) == Data(a) + Data(b)
  {
  }

  ghost predicate AllIn(s: seq<Node>, all: set<Node>) {
    forall i :: 0 <= i < |s| ==> s[i] in all
  }

  /** All nodes of the three parts. */
  ghost function Nodes3(done: seq<Node>, a: seq<Node>, b: seq<Node>): multiset<Node> {
    multiset(done) + multiset(a) + multiset(b)
  }

  lemma Nodes3Done(done: seq<Node>, a: seq<Node>, b: seq<Node>)
    ensures Nodes3(done, a, b) == multiset(done) + multiset(a) + multiset(b)
    ensures b == [] ==> Nodes3(done, a, b) == multiset(done + a)
    ensures a == [] ==> Nodes3(done, a, b) == multiset(done + b)
    ensures done == [] ==> Nodes3(done, a, b) == multiset(a) + multiset(b)
  {
  }

  lemma MergingNext(double: bool, done: seq<Node>, a: seq<Node>, b: seq<Node>)
    requires Merging(double, done, a, b) && b != []
    ensures Nodes3(done + [b[0]], a, b[1..]) == Nodes3(done, a, b)
    ensures Nodes3(done + [b[0]], b[1..], a) == Nodes3(done, b, a)
  {
    SeparateNext(done, a, b);
    assert Nodes3(done + [b[0]], b[1..], a) == Nodes3(done + [b[0]], a, b[1..]);
    assert Nodes3(done, b, a) == Nodes3(done, a, b);
  }

  lemma HeadLinks(double: bool, s: seq<Node>)
    requires IsChain(double, s) && s != []
    ensures s[0].next == At(s, 1)
  {
  }

  /** Lines 1148-1159: the first node, chosen outside the loop. */
  lemma StartMerging(double: bool, a: seq<Node>, b: seq<Node>)
    requires IsChain(double, a) && IsChain(double, b) && Apart(a, b) && b != []
    ensures Merging(double, [b[0]], a, b[1..])
    ensures Nodes3([b[0]], a, b[1..]) == Nodes3([], a, b)
  {
    var none: seq<Node> := [];
    SeparateNext(none, a, b);
    assert none + [b[0]] == [b[0]];
  }

  /** Lines 1176-1182: the rest that is left is hung on whole. */
  method HangOn(double: bool, l: Node, rest: Node?, ghost done: seq<Node>, ghost b: seq<Node>)
    requires Merging(double, done, [], b) && l == done[|done| - 1] && rest == At(b, 0)
    modifies l`next, (if rest == null then {} else {rest})`previous
    ensures IsChain(double, done + b)
  {
    hide Separate;
    AllDistinct(done, b);
    if rest != null {
      EndsUnique(done, [], b, l, rest);
      if double {
        rest.previous := l;
      }
      l.next := rest;
    } else {
      l.next := null;
    }
    ghost var s := done + b;
    assert forall i {:trigger s[i]} :: 0 <= i < |s| ==> s[i] == if i < |done| then done[i] else b[i - |done|];
  }

  lemma AllDistinct(done: seq<Node>, b: seq<Node>)
    requires Separate(done, [], b)
    ensures Distinct(done + b)
    ensures forall i {:trigger done[i]} :: 0 <= i < |done| - 1 ==> done[i] != done[|done| - 1]
  {
    var s := done + b;
    forall i, j
      ensures Differ(s, i, j)
    {
      assert Differ(done, i, j) && Differ(b, i - |done|, j - |done|);
      assert 0 <= i < |done| ==> done[i] in done;
      assert 0 <= j < |done| ==> done[j] in done;
    }
    forall i | 0 <= i < |done| - 1
      ensures done[i] != done[|done| - 1]
    {
      assert Differ(done, i, |done| - 1);
    }
  }

  /** _ecore_list_node_merge and _ecore_dlist_node_merge. */
  method NodeMerge(double: bool, first0: Node, second0: Node, compare: Compare, order: Direction,
                   ghost a0: seq<Node>, ghost b0: seq<Node>, ghost all: set<Node>)
    returns (list: Node, ghost s: seq<Node>)
    requires AllIn(a0, all) && AllIn(b0, all)
    requires IsChain(double, a0) && IsChain(double, b0) && Apart(a0, b0) && first0 == At(a0, 0) && second0 == At(b0, 0)
    modifies all`next, all`previous
    ensures IsChain(double, s) && list == At(s, 0) && multiset(s) == multiset(a0) + multiset(b0)
    ensures s == MergedNodes(Directed(compare, order), a0, b0)
    ensures Data(s) == Merge(Directed(compare, order), false, old(Data(a0)), old(Data(b0)))
  {
    hide IsChain, Merging, Merge, MergedFrom, MergedNodes, Data, Directed, Nodes3;
    ghost var f := Directed(compare, order);
    var first: Node?, second: Node?, l := first0, second0, first0;
    ghost var done: seq<Node>, a, b;
    ghost var goal := MergedFrom(f, [], a0, b0);
    if Above(compare, order, first.data, second.data) {
      l := second;
      MergeSecond(f, [], a0, b0);
      StartMerging(double, a0, b0);
      HeadLinks(double, b0);
      second := second.next;
      done, a, b := [b0[0]], a0, b0[1..];
      assert [] + [b0[0]] == [b0[0]];
    } else {
      MergeFirst(f, [], a0, b0);
      StartMergingFirst(double, a0, b0);
      HeadLinks(double, a0);
      first := first.next;
      done, a, b := [a0[0]], a0[1..], b0;
      assert [] + [a0[0]] == [a0[0]];
    }
    list := l;
    while first != null && second != null
      invariant Merging(double, done, a, b) && first == At(a, 0) && second == At(b, 0)
      invariant done != [] && l == done[|done| - 1] && list == done[0]
      invariant l in all && AllIn(a, all) && AllIn(b, all)
      invariant Nodes3(done, a, b) == Nodes3([], a0, b0)
      invariant MergedFrom(f, done, a, b) == goal
      decreases |a| + |b|
    {
      if Above(compare, order, first.data, second.data) {
        MergeSecond(f, done, a, b);
        MergingNext(double, done, a, b);
        var rest := LinkOn(double, l, second, done, a, b);
        l, second := second, rest;
        done, b := done + [b[0]], b[1..];
      } else {
        MergeFirst(f, done, a, b);
        MergingSwap(double, done, a, b);
        MergingNext(double, done, b, a);
        var rest := LinkOn(double, l, first, done, b, a);
        MergingSwap(double, done + [first], b, a[1..]);
        l, first := first, rest;
        done, a := done + [a[0]], a[1..];
      }
    }
    s := FinishMerge(double, l, first, second, f, done, a, b, all);
    Nodes3Done([], a0, b0);
    MergeNone(f, a0, b0);
    MergedData(f, a0, b0);
  }

  /** Lines 1176-1184: one of the two lists is used up. */
  method FinishMerge(double: bool, l: Node, first: Node?, second: Node?, ghost f: Compare,
                     ghost done: seq<Node>, ghost a: seq<Node>, ghost b: seq<Node>, ghost all: set<Node>)
    returns (ghost s: seq<Node>)
    requires Merging(double, done, a, b) && first == At(a, 0) && second == At(b, 0) && (a == [] || b == [])
    requires done != [] && l == done[|done| - 1] && l in all && AllIn(a, all) && AllIn(b, all)
    modifies all`next, all`previous
    ensures IsChain(double, s) && At(s, 0) == done[0] && multiset(s) == Nodes3(done, a, b)
    ensures s == MergedFrom(f, done, a, b)
  {
    hide IsChain, Merging, MergedFrom, Nodes3;
    MergeOneLeft(f, done, a, b);
    Nodes3Done(done, a, b);
    if first != null {
      MergingSwap(double, done, a, b);
      HangOn(double, l, first, done, a);
      s := done + a;
    } else {
      HangOn(double, l, second, done, b);
      s := done + b;
    }
  }

  lemma NoData(s: seq<Node>)
    ensures s == [] ==> forall d :: d + Data(s) == d
  {
  }

  /** `compare(x, y) * order > 0`. */
  function Above(compare: Compare, order: Direction, x: Ptr, y: Ptr): (r: bool)
    ensures r <==> Cmp(Directed(compare, order), x, y) > 0
  {
    compare(x, y) * (if order == Min then 1 else -1) > 0
  }

  lemma StartMergingFirst(double: bool, a: seq<Node>, b: seq<Node>)
    requires IsChain(double, a) && IsChain(double, b) && Apart(a, b) && a != []
    ensures Merging(double, [a[0]], a[1..], b)
    ensures Nodes3([a[0]], a[1..], b) == Nodes3([], a, b)
  {
    assert Apart(b, a);
    StartMerging(double, b, a);
    MergingSwap(double, [a[0]], b, a[1..]);
    assert multiset([a[0]]) + multiset(a[1..]) + multiset(b) == multiset([a[0]]) + multiset(b) + multiset(a[1..]);
  }

  // ----- Sorting -----

  lemma ChainFacts(double: bool, s: seq<Node>)
    requires IsChain(double, s)
    ensures forall i {:trigger s[i].next} :: 0 <= i < |s| ==> s[i].next == At(s, i + 1)
    ensures forall i, j {:trigger s[i], s[j]} :: 0 <= i < j < |s| ==> s[i] != s[j]
  {
    forall i, j | 0 <= i < j < |s|
      ensures s[i] != s[j]
    {
      assert Differ(s, i, j);
    }
  }

  /** Lines 1125-1127: the last node of the first half. */
  method FindPremid(double: bool, first: Node, mid: nat, ghost s: seq<Node>) returns (premid: Node)
    requires IsChain(double, s) && first == At(s, 0) && 0 < mid <= |s|
    ensures premid == At(s, mid - 1)
  {
    hide IsChain;
    ChainFacts(double, s);
    premid := first;
    var i := 0;
    while i < mid - 1
      invariant 0 <= i <= mid - 1 && premid == s[i]
    {
      premid := premid.next;
      i := i + 1;
    }
  }

  lemma Halves(double: bool, s: seq<Node>, mid: nat)
    requires IsChain(double, s) && mid <= |s|
    ensures Distinct(s[..mid]) && Distinct(s[mid..]) && Apart(s[..mid], s[mid..])
    ensures multiset(s[..mid]) + multiset(s[mid..]) == multiset(s)
  {
    hide IsChain;
    var a, b := s[..mid], s[mid..];
    ChainFacts(double, s);
    assert forall i :: 0 <= i < |a| ==> a[i] == s[i];
    assert forall i :: 0 <= i < |b| ==> b[i] == s[mid + i];
    forall n | n in a
      ensures n !in b
    {
      var i :| 0 <= i < |a| && a[i] == n;
      assert s[i] == n;
    }
    assert s == a + b;
  }

  lemma DataHalves(s: seq<Node>, mid: nat)
    requires mid <= |s|
    ensures Data(s[..mid]) == Data(s)[..mid] && Data(s[mid..]) == Data(s)[mid..]
  {
    hide Data;
    assert s == s[..mid] + s[mid..];
    DataConcat(s[..mid], s[mid..]);
  }

  /** Lines 1130-1131 and 2042-2044: the list is cut in two. */
  method Split(double: bool, premid: Node, mid: nat, ghost s: seq<Node>) returns (middle: Node)
    requires IsChain(double, s) && 0 < mid < |s| && premid == s[mid - 1]
    modifies s`next, s`previous
    ensures middle == s[mid] && IsChain(double, s[..mid]) && IsChain(double, s[mid..])
    ensures Apart(s[..mid], s[mid..]) && multiset(s[..mid]) + multiset(s[mid..]) == multiset(s)
    ensures Data(s[..mid]) == old(Data(s))[..mid] && Data(s[mid..]) == old(Data(s))[mid..]
  {
    hide Data;
    Halves(double, s, mid);
    DataHalves(s, mid);
    ChainFacts(double, s);
    middle := premid.next;
    premid.next := null;
    if double {
      middle.previous := null;
    }
  }

  /** Lines 1111-1123: two nodes exchange their payloads. */
  method SortTwo(double: bool, first: Node, compare: Compare, order: Direction, ghost s: seq<Node>)
    requires IsChain(double, s) && |s| == 2 && first == s[0]
    modifies s`data
    ensures IsChain(double, s) && Data(s) == MergeSort(Directed(compare, order), old(Data(s)))
  {
    hide MergeSort, Directed;
    ChainFacts(double, s);
    ghost var d := Data(s);
    MergeSortTwo(Directed(compare, order), d);
    if Above(compare, order, first.data, first.next.data) {
      var data := first.next.data;
      first.next.data := first.data;
      first.data := data;
    }
    assert Data(s)[0] == s[0].data && Data(s)[1] == s[1].data;
  }

  /** _ecore_list_node_mergesort and _ecore_dlist_node_mergesort. */
  method NodeMergeSort(double: bool, first0: Node, n: nat, compare: Compare, order: Direction, ghost s: seq<Node>)
    returns (first: Node, ghost t: seq<Node>)
    requires IsChain(double, s) && first0 == At(s, 0) && n == |s|
    modifies s
    ensures IsChain(double, t) && first == At(t, 0) && multiset(t) == multiset(s)
    ensures Data(t) == MergeSort(Directed(compare, order), old(Data(s)))
    decreases n
  {
    hide IsChain, MergeSort, Data, Directed, Merge, Apart, AllIn;
    ghost var f := Directed(compare, order);
    var mid := n / 2;
    if n < 2 {
      MergeSortOne(f, Data(s));
      return first0, s;
    }
    if n == 2 {
      SortTwo(double, first0, compare, order, s);
      return first0, s;
    }
    var premid := FindPremid(double, first0, mid, s);
    MergeSortHalves(f, Data(s));
    ghost var left, right := s[..mid], s[mid..];
    ghost var a, b;
    var middle := Split(double, premid, mid, s);
    label Cut:
    first, a := NodeMergeSort(double, first0, mid, compare, order, left);
    ApartNodes(left, right);
    ChainKept@Cut(right, double);
    SameNodes(a, left);
    label Half:
    middle, b := NodeMergeSort(double, middle, n - mid, compare, order, right);
    ChainKept@Half(a, double);
    SameNodes(b, right);
    SortedHalves(s, mid, a, b);
    first, t := NodeMerge(double, first, middle, compare, order, a, b, set x | x in s);
  }

  lemma ApartNodes(a: seq<Node>, b: seq<Node>)
    requires Apart(a, b)
    ensures forall n :: n in a ==> n !in b
    ensures forall n :: n in b ==> n !in a
  {
  }

  lemma SortedHalves(s: seq<Node>, mid: nat, a: seq<Node>, b: seq<Node>)
    requires mid <= |s| && multiset(a) == multiset(s[..mid]) && multiset(b) == multiset(s[mid..]) && Apart(s[..mid], s[mid..])
    ensures Apart(a, b) && AllIn(a, set x | x in s) && AllIn(b, set x | x in s)
  {
    SameNodes(a, s[..mid]);
    SameNodes(b, s[mid..]);
    forall i | 0 <= i < |a|
      ensures a[i] in s
    {
      assert a[i] in s[..mid];
    }
    forall i | 0 <= i < |b|
      ensures b[i] in s
    {
      assert b[i] in s[mid..];
    }
  }

  /** Sorting one half leaves the other alone. */
  twostate lemma ChainKept(s: seq<Node>, new double: bool)
    requires old(IsChain(double, s)) && forall n :: n in s ==> unchanged(n)
    ensures IsChain(double, s) && Data(s) == old(Data(s))
  {
    forall i | 0 <= i < |s|
      ensures unchanged(s[i]) && Data(s)[i] == old(Data(s))[i]
    {
      assert s[i] in s;
    }
  }

  lemma SameNodes(a: seq<Node>, b: seq<Node>)
    requires multiset(a) == multiset(b)
    ensures forall n :: n in a <==> n in b
    ensures |a| == |b|
  {
    assert forall n :: n in a <==> n in multiset(a);
    assert |multiset(a)| == |a| && |multiset(b)| == |b|;
  }

  lemma MergeSortOne(f: Compare, d: seq<Ptr>)
    ensures |d| < 2 ==> MergeSort(f, d) == d
  {
  }

  lemma MergeSortHalves(f: Compare, d: seq<Ptr>)
    requires |d| >= 2
    ensures MergeSort(f, d) == Merge(f, false, MergeSort(f, d[..|d| / 2]), MergeSort(f, d[|d| / 2..]))
  {
  }

  /** Lines 1047-1049 and 1959-1961: the tail is found again by walking. */
  method LastOf(double: bool, first: Node, ghost s: seq<Node>) returns (node: Node)
    requires IsChain(double, s) && first == At(s, 0)
    ensures node == At(s, |s| - 1)
  {
    hide IsChain;
    ChainFacts(double, s);
    node := first;
    ghost var i := 0;
    while node.next != null
      invariant 0 <= i < |s| && node == s[i]
      decreases |s| - i
    {
      node := node.next;
      i := i + 1;
    }
  }

  /** ecore_dlist_mergesort on the fields of a doubly linked list: the same nodes, again mirrored
      by `previous`, with the payloads in their one stable order and the cursor on the first. */
  method DListMergeSort(first0: Node?, last0: Node?, current0: Node?, index0: int, nodes: nat, compare: Compare, order: Direction,
                        ghost s: seq<Node>)
    returns (first: Node?, last: Node?, current: Node?, index: int, ghost t: seq<Node>)
    requires IsChain(true, s) && nodes == |s| && first0 == At(s, 0) && last0 == At(s, |s| - 1)
    modifies s
    ensures IsChain(true, t) && first == At(t, 0) && last == At(t, |t| - 1) && multiset(t) == multiset(s)
    ensures Data(t) == MergeSort(Directed(compare, order), old(Data(s)))
    ensures if nodes < 2 then current == current0 && index == index0 else current == first && index == 0
  {
    hide IsChain, MergeSort, Data, Directed;
    if nodes < 2 {
      MergeSortOne(Directed(compare, order), Data(s));
      return first0, last0, current0, index0, s;
    }
    first, t := NodeMergeSort(true, first0, nodes, compare, order, s);
    SameNodes(t, s);
    last := LastOf(true, first, t);
    current, index := first, 0;
  }
}
