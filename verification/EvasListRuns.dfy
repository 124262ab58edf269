/** Whole runs of Evas_List operations over any number of lists that share the two pools. */
module EvasListRuns {
  import opened Payloads
  import opened Sequences
  import opened Sorting
  import opened EvasList
  import opened EvasListSort

  datatype Op =
    | Append(data: Ptr, nodeOk: bool, accountingOk: bool)
    | Prepend(data: Ptr, nodeOk: bool, accountingOk: bool)
    | AppendRelative(data: Ptr, relative: Ptr, nodeOk: bool, accountingOk: bool)
    | PrependRelative(data: Ptr, relative: Ptr, nodeOk: bool, accountingOk: bool)
    | Remove(data: Ptr)
    | AppendAt(position: nat, data: Ptr, nodeOk: bool, accountingOk: bool)
    | PrependAt(position: nat, data: Ptr, nodeOk: bool, accountingOk: bool)
    | RemoveNode(position: nat)
    | Promote(position: nat)
    | Reverse
    | Sort(size: int, f: Compare)
    | Free

  /** An allocation of a node, and of an accounting record when the list is empty. */
  function Allocates(c: seq<Ptr>, nodeOk: bool, accountingOk: bool): bool {
    nodeOk && (accountingOk || c != [])
  }

  /** The operations on plain sequences. */
  function Apply(op: Op, c: seq<Ptr>): seq<Ptr> {
    match op
    case Append(d, n, a) => if Allocates(c, n, a) then InsertAt(c, |c|, d) else c
    case Prepend(d, n, a) => if Allocates(c, n, a) then InsertAt(c, 0, d) else c
    case AppendRelative(d, r, n, a) =>
      var k := IndexOf(c, r);
      if Allocates(c, n, a) then InsertAt(c, if k < |c| then k + 1 else |c|, d) else c
    case PrependRelative(d, r, n, a) =>
      var k := IndexOf(c, r);
      if Allocates(c, n, a) then InsertAt(c, if k < |c| then k else 0, d) else c
    case Remove(d) => var k := IndexOf(c, d); if k < |c| then RemoveAt(c, k) else c
    case AppendAt(k, d, n, a) =>
      if Allocates(c, n, a) then InsertAt(c, if k < |c| then k + 1 else |c|, d) else c
    case PrependAt(k, d, n, a) =>
      if Allocates(c, n, a) then InsertAt(c, if k < |c| then k else 0, d) else c
    case RemoveNode(k) => if k < |c| then RemoveAt(c, k) else c
    case Promote(k) => if k < |c| then MoveTo(c, 0, k) else c
    case Reverse => Reversed(c)
    case Sort(size, f) => SortedPrefix(f, size, c)
    case Free => []
  }

  /** What every operation on one list does to it and to the shared pools. */
  twostate predicate Stepped(l: EvasList, op: Op)
    reads l, l.nodes, l.accounting, l.lib
  {
    && l.Kept()
    && l.Contents() == Apply(op, old(l.Contents()))
  }

  method PromoteNth(l: EvasList, k: nat)
    requires l.Valid()
    modifies l, l.nodes, l.accounting
    ensures Stepped(l, Op.Promote(k))
  {
    hide IsList, Data;
    var m := l.NthList(k);
    l.PromoteList(m, k);
  }

  /** evas_list_append_relative_list on the node at a position; past the end that is NULL. */
  method AppendAtNth(l: EvasList, k: nat, data: Ptr, nodeOk: bool, accountingOk: bool)
    requires l.Valid()
    modifies l, l.nodes, l.accounting, l.lib
    ensures Stepped(l, Op.AppendAt(k, data, nodeOk, accountingOk))
  {
    hide IsList, Data, InsertAt;
    var n := l.NthList(k);
    l.AppendRelativeList(data, n, k, nodeOk, accountingOk);
  }

  method PrependAtNth(l: EvasList, k: nat, data: Ptr, nodeOk: bool, accountingOk: bool)
    requires l.Valid()
    modifies l, l.nodes, l.accounting, l.lib
    ensures Stepped(l, Op.PrependAt(k, data, nodeOk, accountingOk))
  {
    hide IsList, Data, InsertAt;
    var n := l.NthList(k);
    l.PrependRelativeList(data, n, k, nodeOk, accountingOk);
  }

  method RemoveNth(l: EvasList, k: nat)
    requires l.Valid()
    modifies l, l.nodes, l.accounting, l.lib
    ensures Stepped(l, Op.RemoveNode(k))
  {
    hide IsList, Data, RemoveAt;
    var n := l.NthList(k);
    l.RemoveList(n, k);
  }

  method SortList(l: EvasList, size: int, f: Compare)
    requires l.Valid()
    modifies l, l.nodes, l.accounting
    ensures Stepped(l, Op.Sort(size, f))
  {
    hide IsList, Data, SortedPrefix;
    ghost var was := l.nodes;
    EvasListSort.Sort(l, size, f);
    assert forall n :: n in l.nodes ==> n in multiset(was);
  }

  method Dispatch(l: EvasList, op: Op)
    requires l.Valid()
    modifies l, l.nodes, l.accounting, l.lib
    ensures Stepped(l, op)
  {
    hide IsList, Data, Distinct, Linked, SharedAccounting, InsertAt, RemoveAt, MoveTo, IndexOf, SortedPrefix, Reversed;
    match op {
      case Append(d, n, a) => l.Append(d, n, a);
      case Prepend(d, n, a) => l.Prepend(d, n, a);
      case AppendRelative(d, r, n, a) => l.AppendRelative(d, r, n, a);
      case PrependRelative(d, r, n, a) => l.PrependRelative(d, r, n, a);
      case Remove(d) => l.Remove(d);
      case AppendAt(k, d, n, a) => AppendAtNth(l, k, d, n, a);
      case PrependAt(k, d, n, a) => PrependAtNth(l, k, d, n, a);
      case RemoveNode(k) => RemoveNth(l, k);
      case Promote(k) => PromoteNth(l, k);
      case Reverse => l.Reverse();
      case Sort(size, f) =>
        SortList(l, size, f);
      case Free => l.Free();
    }
  }

  // ----- Several lists -----

  ghost function TotalLength(w: seq<seq<Ptr>>): nat {
    if w == [] then 0 else |w[0]| + TotalLength(w[1..])
  }

  ghost function NonEmptyLists(w: seq<seq<Ptr>>): nat {
    if w == [] then 0 else (if w[0] == [] then 0 else 1) + NonEmptyLists(w[1..])
  }

  lemma {:induction false} TotalsAfterUpdate(w: seq<seq<Ptr>>, i: nat, c: seq<Ptr>)
    requires i < |w|
    ensures TotalLength(w[i := c]) == TotalLength(w) - |w[i]| + |c|
    ensures NonEmptyLists(w[i := c]) ==
            NonEmptyLists(w) - (if w[i] == [] then 0 else 1) + (if c == [] then 0 else 1)
  {
    var w' := w[i := c];
    if i == 0 {
      assert w'[1..] == w[1..];
    } else {
      assert w'[1..] == w[1..][i - 1 := c];
      TotalsAfterUpdate(w[1..], i - 1, c);
    }
  }

  /** No node and no accounting record belongs to two lists. */
  ghost predicate Apart(lists: seq<EvasList>, i: int, j: int)
    reads lists
  {
    0 <= i < |lists| && 0 <= j < |lists| && i != j ==>
      && lists[i] != lists[j]
      && (forall n :: n in lists[i].nodes ==> n !in lists[j].nodes)
      && (lists[i].accounting != null ==> lists[i].accounting != lists[j].accounting)
  }

  ghost predicate Holds(lib: Library, l: EvasList, c: seq<Ptr>)
    reads l, l.nodes, l.accounting
  {
    l.lib == lib && l.Valid() && l.Contents() == c
  }

  /** The lists hold exactly the sequences `w`, and the pools have handed out exactly what
      the lists hold: one node an element and one accounting record a non-empty list. */
  ghost predicate System(lib: Library, lists: seq<EvasList>, w: seq<seq<Ptr>>)
    reads *
  {
    && |w| == |lists|
    && (forall i :: 0 <= i < |lists| ==> Holds(lib, lists[i], w[i]))
    && (forall i, j :: Apart(lists, i, j))
    && lib.nodeUsage == TotalLength(w)
    && lib.accountingUsage == NonEmptyLists(w)
  }

  ghost function NodesOf(lists: seq<EvasList>): set<Node>
    reads lists
  {
    set l, n | l in lists && n in l.nodes :: n
  }

  ghost function AccountingsOf(lists: seq<EvasList>): set<Accounting?>
    reads lists
  {
    set l | l in lists :: l.accounting
  }

  method Step(lib: Library, lists: seq<EvasList>, i: nat, op: Op, ghost w: seq<seq<Ptr>>)
    requires System(lib, lists, w) && i < |lists|
    modifies lists[i], lists[i].nodes, lists[i].accounting, lib
    ensures System(lib, lists, w[i := Apply(op, w[i])])
    ensures forall j :: 0 <= j < |lists| && j != i ==> unchanged(lists[j])
    ensures forall n :: n in NodesOf(lists) ==> n in old(NodesOf(lists)) || fresh(n)
    ensures forall a :: a in AccountingsOf(lists) ==> a in old(AccountingsOf(lists)) || a == null || fresh(a)
  {
    hide Apply;
    var l := lists[i];
    assert Holds(lib, l, w[i]);
    Dispatch(l, op);
    ghost var w' := w[i := Apply(op, w[i])];
    TotalsAfterUpdate(w, i, Apply(op, w[i]));
    forall j | 0 <= j < |lists|
      ensures Holds(lib, lists[j], w'[j])
    {
      if j != i {
        assert old(Apart(lists, i, j)) && old(Holds(lib, lists[j], w[j]));
        assert unchanged(lists[j]);
        forall n | n in lists[j].nodes
          ensures unchanged(n)
        {
          assert n !in old(l.nodes);
        }
        Untouched(lists[j], w[j]);
      }
    }
    forall j | 0 <= j < |lists| && j != i
      ensures unchanged(lists[j])
    {
      assert old(Apart(lists, i, j));
    }
    NothingForeign(lists, i);
    forall p, q
      ensures Apart(lists, p, q)
    {
      assert old(Apart(lists, p, q));
      if 0 <= p < |lists| && p != i { assert old(Apart(lists, i, p)) && old(Holds(lib, lists[p], w[p])); }
      if 0 <= q < |lists| && q != i { assert old(Apart(lists, i, q)) && old(Holds(lib, lists[q], w[q])); }
    }
  }

  twostate lemma NothingForeign(lists: seq<EvasList>, new i: int)
    requires 0 <= i
    requires i < |lists|
    requires forall j :: 0 <= j < |lists| && j != i ==> unchanged(lists[j])
    requires forall n :: n in lists[i].nodes ==> n in old(lists[i].nodes) || fresh(n)
    requires lists[i].accounting == old(lists[i].accounting) || lists[i].accounting == null || fresh(lists[i].accounting)
    ensures forall n :: n in NodesOf(lists) ==> n in old(NodesOf(lists)) || fresh(n)
    ensures forall a :: a in AccountingsOf(lists) ==> a in old(AccountingsOf(lists)) || a == null || fresh(a)
  {
    forall n | n in NodesOf(lists)
      ensures n in old(NodesOf(lists)) || fresh(n)
    {
      var j :| 0 <= j < |lists| && n in lists[j].nodes;
      assert j != i ==> n in old(lists[j].nodes);
    }
    forall a | a in AccountingsOf(lists)
      ensures a in old(AccountingsOf(lists)) || a == null || fresh(a)
    {
      var j :| 0 <= j < |lists| && a == lists[j].accounting;
      assert j != i ==> a == old(lists[j].accounting);
      assert old(lists[j].accounting) in old(AccountingsOf(lists));
    }
  }

  twostate lemma Untouched(l: EvasList, new c: seq<Ptr>)
    requires old(l.Valid() && l.Contents() == c) && unchanged(l)
    requires forall n :: n in l.nodes ==> unchanged(n)
    requires l.accounting != null ==> unchanged(l.accounting)
    ensures l.Valid() && l.Contents() == c
  {
    var s := l.nodes;
    forall k | 0 <= k < |s|
      ensures unchanged(s[k])
    {
      assert s[k] in s;
    }
    assert Data(s) == old(Data(s));
  }

  /** Runs start from any number of NULL lists over pools that have handed out nothing. */
  method NewSystem(n: nat) returns (lib: Library, lists: seq<EvasList>)
    ensures fresh(lib) && |lists| == n && (forall l :: l in lists ==> fresh(l))
    ensures System(lib, lists, seq(n, _ => []))
  {
    lib := new Library();
    lists := [];
    while |lists| < n
      invariant |lists| <= n && fresh(lib) && lib.nodeUsage == lib.accountingUsage == 0
      invariant forall i {:trigger lists[i]} :: 0 <= i < |lists| ==>
        fresh(lists[i]) && lists[i].lib == lib && lists[i].Valid() && lists[i].nodes == [] && lists[i].accounting == null
      invariant forall i, j {:trigger lists[i], lists[j]} :: 0 <= i < j < |lists| ==> lists[i] != lists[j]
    {
      var l := new EvasList(lib);
      lists := lists + [l];
    }
    NoLists(n);
  }

  lemma NoLists(n: nat)
    ensures TotalLength(seq(n, _ => [])) == 0 && NonEmptyLists(seq(n, _ => [])) == 0
  {
    var w: seq<seq<Ptr>> := seq(n, _ => []);
    if n > 0 {
      assert w[1..] == seq(n - 1, _ => []);
      NoLists(n - 1);
    }
  }

  /** The plain sequences after a script of (list, operation) pairs. */
  ghost function RunPlain(script: seq<(nat, Op)>, w: seq<seq<Ptr>>): seq<seq<Ptr>>
    requires forall k :: 0 <= k < |script| ==> script[k].0 < |w|
  {
    if script == [] then w
    else RunPlain(script[1..], w[script[0].0 := Apply(script[0].1, w[script[0].0])])
  }

  lemma RunPlainNext(script: seq<(nat, Op)>, k: nat, v: seq<seq<Ptr>>)
    requires forall j :: 0 <= j < |script| ==> script[j].0 < |v|
    requires k < |script|
    ensures RunPlain(script[k..], v) == RunPlain(script[k + 1..], v[script[k].0 := Apply(script[k].1, v[script[k].0])])
  {
    assert script[k..][1..] == script[k + 1..];
  }

  lemma RunPlainEnd(v: seq<seq<Ptr>>)
    ensures RunPlain([], v) == v
  {
  }

  lemma OneSequenceEach(lib: Library, lists: seq<EvasList>, w: seq<seq<Ptr>>)
    requires System(lib, lists, w)
    ensures |w| == |lists|
  {
  }

  /** Every script, over any lists, leaves the heap holding what the plain sequences hold. */
  method Run(lib: Library, lists: seq<EvasList>, script: seq<(nat, Op)>, ghost w: seq<seq<Ptr>>)
    requires System(lib, lists, w)
    requires forall k :: 0 <= k < |script| ==> script[k].0 < |lists|
    modifies lists, NodesOf(lists), AccountingsOf(lists), lib
    ensures System(lib, lists, RunPlain(script, w))
  {
    hide System, Apply, RunPlain;
    OneSequenceEach(lib, lists, w);
    ghost var v := w;
    var k := 0;
    while k < |script|
      invariant 0 <= k <= |script| && |v| == |lists| && System(lib, lists, v)
      invariant RunPlain(script[k..], v) == RunPlain(script, w)
      invariant forall n :: n in NodesOf(lists) ==> n in old(NodesOf(lists)) || fresh(n)
      invariant forall a :: a in AccountingsOf(lists) ==> a in old(AccountingsOf(lists)) || a == null || fresh(a)
    {
      RunPlainNext(script, k, v);
      ghost var l := lists[script[k].0];
      assert l in lists && l.accounting in AccountingsOf(lists);
      assert forall n :: n in l.nodes ==> n in NodesOf(lists);
      Step(lib, lists, script[k].0, script[k].1, v);
      v := v[script[k].0 := Apply(script[k].1, v[script[k].0])];
      k := k + 1;
    }
    RunPlainEnd(v);
  }
}
