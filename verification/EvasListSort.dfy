/** evas_list_sort: a bottom-up merge sort that relinks the nodes in place. */
module EvasListSort {
  import opened Payloads
  import opened Sequences
  import opened Sorting
  import opened EvasList

  // ----- The schedule on plain sequences -----

  /** One pass: adjacent runs of width w are merged pairwise, the second run winning ties. */
  function Pass(f: Compare, w: nat, s: seq<Ptr>): (r: seq<Ptr>)
    requires w > 0
    decreases |s|
  {
    if |s| <= w then s
    else if |s| <= 2 * w then Merge(f, true, s[..w], s[w..])
    else Merge(f, true, s[..w], s[w..2 * w]) + Pass(f, w, s[2 * w..])
  }

  function Passes(f: Compare, w: nat, bound: nat, s: seq<Ptr>): seq<Ptr>
    requires w > 0
    decreases bound - w
  {
    if w >= bound then s else Passes(f, 2 * w, bound, Pass(f, w, s))
  }

  function EvasSort(f: Compare, s: seq<Ptr>): seq<Ptr> {
    Passes(f, 1, (|s| - |s| / 2) * 2, s)
  }

  /** `s` consists of sorted runs of width w of the corresponding pieces of `was`. */
  ghost predicate Runs(f: Compare, w: nat, was: seq<Ptr>, s: seq<Ptr>)
    requires w > 0
    decreases |s|
  {
    && |was| == |s|
    && if |s| <= w then ReverseStableSortOf(f, was, s)
       else ReverseStableSortOf(f, was[..w], s[..w]) && Runs(f, w, was[w..], s[w..])
  }

  lemma {:induction false} SingletonRuns(f: Compare, s: seq<Ptr>)
    ensures Runs(f, 1, s, s)
  {
    if |s| > 1 {
      Singleton(f, s[..1]);
      SingletonRuns(f, s[1..]);
    } else {
      Singleton(f, s);
    }
  }

  lemma Singleton(f: Compare, s: seq<Ptr>)
    requires |s| <= 1
    ensures ReverseStableSortOf(f, s, s)
  {
    forall x
      ensures Ties(f, x, s) == Reversed(Ties(f, x, s))
    {
      if |s| == 1 {
        assert s[1..] == [];
      }
    }
  }

  /** Merging two neighbouring runs gives a run, with ties reversed across both. */
  lemma MergeRuns(f: Compare, was: seq<Ptr>, k: nat, a: seq<Ptr>, b: seq<Ptr>)
    requires IsComparator(f) && k <= |was|
    requires ReverseStableSortOf(f, was[..k], a) && ReverseStableSortOf(f, was[k..], b)
    ensures ReverseStableSortOf(f, was, Merge(f, true, a, b))
  {
    hide Merge, Ties, Reversed, Sorted;
    MergeSorted(f, true, a, b);
    forall x
      ensures Ties(f, x, Merge(f, true, a, b)) == Reversed(Ties(f, x, was))
    {
      MergeTies(f, true, x, a, b);
      assert was == was[..k] + was[k..];
      TiesConcat(f, x, was[..k], was[k..]);
      ReversedConcat(Ties(f, x, was[..k]), Ties(f, x, was[k..]));
    }
  }

  /** A pass doubles the width of the runs. */
  lemma {:induction false} PassDoublesRuns(f: Compare, w: nat, was: seq<Ptr>, s: seq<Ptr>)
    requires IsComparator(f) && w > 0 && Runs(f, w, was, s)
    ensures Runs(f, 2 * w, was, Pass(f, w, s))
    decreases |s|
  {
    if |s| <= w {
    } else if |s| <= 2 * w {
      MergePermutes(f, true, s[..w], s[w..]);
      MergeRuns(f, was, w, s[..w], s[w..]);
    } else {
      var head := Merge(f, true, s[..w], s[w..2 * w]);
      var rest := Pass(f, w, s[2 * w..]);
      MergePermutes(f, true, s[..w], s[w..2 * w]);
      assert s[w..][..w] == s[w..2 * w] && was[w..][..w] == was[w..2 * w];
      assert s[w..][w..] == s[2 * w..] && was[w..][w..] == was[2 * w..];
      assert was[..2 * w][..w] == was[..w] && was[..2 * w][w..] == was[w..2 * w];
      assert Runs(f, w, was[w..], s[w..]);
      SecondRun(f, w, was[w..], s[w..]);
      MergeRuns(f, was[..2 * w], w, s[..w], s[w..2 * w]);
      PassDoublesRuns(f, w, was[2 * w..], s[2 * w..]);
      PassLength(f, w, s[2 * w..]);
      assert (head + rest)[..2 * w] == head && (head + rest)[2 * w..] == rest;
    }
  }

  lemma SecondRun(f: Compare, w: nat, was: seq<Ptr>, s: seq<Ptr>)
    requires w > 0 && Runs(f, w, was, s) && |s| > w
    ensures ReverseStableSortOf(f, was[..w], s[..w]) && Runs(f, w, was[w..], s[w..])
  {
  }

  lemma {:induction false} PassLength(f: Compare, w: nat, s: seq<Ptr>)
    requires w > 0
    ensures |Pass(f, w, s)| == |s|
    decreases |s|
  {
    if |s| > 2 * w {
      MergePermutes(f, true, s[..w], s[w..2 * w]);
      PassLength(f, w, s[2 * w..]);
    } else if |s| > w {
      MergePermutes(f, true, s[..w], s[w..]);
    }
  }

  lemma {:induction false} PassesSort(f: Compare, w: nat, bound: nat, was: seq<Ptr>, s: seq<Ptr>)
    requires IsComparator(f) && w > 0 && Runs(f, w, was, s) && |s| <= bound
    ensures ReverseStableSortOf(f, was, Passes(f, w, bound, s))
    decreases bound - w
  {
    if w < bound {
      PassDoublesRuns(f, w, was, s);
      PassLength(f, w, s);
      PassesSort(f, 2 * w, bound, was, Pass(f, w, s));
    }
  }

  /** The schedule sorts every input, and equal elements come out in exactly the reverse of
      their original order. */
  lemma EvasSortIsReverseStable(f: Compare, s: seq<Ptr>)
    requires IsComparator(f)
    ensures ReverseStableSortOf(f, s, EvasSort(f, s))
    ensures multiset(EvasSort(f, s)) == multiset(s)
  {
    SingletonRuns(f, s);
    PassesSort(f, 1, (|s| - |s| / 2) * 2, s, s);
    StableSortPermutes(f, s, EvasSort(f, s));
  }

  // ----- The same schedule on linked nodes -----

  ghost predicate AllIn(s: seq<Node>, all: set<Node>) {
    forall i :: 0 <= i < |s| ==> s[i] in all
  }

  /** What every relinking step keeps: a well-formed chain of the same nodes between the two
      pointers the sort carries. */
  ghost predicate IsChain(list: Node?, last: Node?, s: seq<Node>, all: set<Node>)
    reads s
  {
    Linked(s) && Distinct(s) && AllIn(s, all) && list == At(s, 0) && last == At(s, |s| - 1)
  }

  lemma MoveKeepsRest<T>(s: seq<T>, i: nat, j: nat, hi: nat)
    requires i <= j < hi <= |s|
    ensures MoveTo(s, i, j)[hi..] == s[hi..]
  {
  }

  lemma MovePermutes<T>(s: seq<T>, i: nat, j: nat)
    requires i <= j < |s|
    ensures multiset(MoveTo(s, i, j)) == multiset(s)
  {
    assert s == s[..i] + s[i..j] + [s[j]] + s[j + 1..];
    assert MoveTo(s, i, j) == s[..i] + [s[j]] + s[i..j] + s[j + 1..];
  }

  /** The pointer updates that put head2 in front of head1. */
  method Relink(head1: Node, head2: Node, ghost i: nat, ghost j: nat, ghost s: seq<Node>, ghost all: set<Node>)
    returns (prev2: Node?, next: Node?)
    requires Linked(s) && Distinct(s) && AllIn(s, all) && i < j && head1 == At(s, i) && head2 == At(s, j)
    modifies all`next, all`prev
    ensures Moved(s, i, j) && prev2 == At(s, j - 1) && next == At(s, j + 1)
  {
    next := head2.next;
    var prev1 := head1.prev;
    prev2 := head2.prev;
    assert next == At(s, j + 1) && prev1 == At(s, i - 1) && prev2 == At(s, j - 1);
    if next != null {
      next.prev := prev2;
    }
    if prev1 != null {
      prev1.next := head2;
    }
    if prev2 != null {
      prev2.next := next;
    }
    head2.prev := prev1;
    head2.next := head1;
    head1.prev := head2;
    forall k | 0 <= k < |s|
      ensures s[k].next == if k == i - 1 then At(s, j) else if k == j then At(s, i)
                           else if k == j - 1 then At(s, j + 1) else old(s[k].next)
      ensures s[k].prev == if k == i then At(s, j) else if k == j then At(s, i - 1)
                           else if k == j + 1 then At(s, j - 1) else old(s[k].prev)
    {
      if k != i - 1 { assert Differ(s, k, i - 1); }
      if k != j { assert Differ(s, k, j); }
      if k != j - 1 { assert Differ(s, k, j - 1); }
      if k != i { assert Differ(s, k, i); }
      if k != j + 1 { assert Differ(s, k, j + 1); }
    }
  }

  method MoveNode(list0: Node, last0: Node, head1: Node, head2: Node, ghost i: nat, ghost j: nat, ghost s: seq<Node>, ghost all: set<Node>)
    returns (list: Node, last: Node, next: Node?, ghost s': seq<Node>)
    requires IsChain(list0, last0, s, all) && i < j && head1 == At(s, i) && head2 == At(s, j)
    modifies all`next, all`prev
    ensures s' == MoveTo(s, i, j) && IsChain(list, last, s', all)
    ensures multiset(s') == multiset(s) && |s'| == |s|
    ensures Data(s') == MoveTo(old(Data(s)), i, j)
    ensures next == At(s, j + 1)
  {
    var prev2;
    prev2, next := Relink(head1, head2, i, j, s, all);
    list, last := list0, last0;
    assert Differ(s, 0, i) && Differ(s, j, |s| - 1);
    if head1 == list0 {
      list := head2;
    }
    if head2 == last0 {
      last := prev2;
    }
    assert SamePayload(s);
    s' := MoveTo(s, i, j);
    MovedLinks(s, i, j);
    MovedData(s, i, j);
    MoveDistinct(s, i, j);
    MovePermutes(s, i, j);
  }

  /** `d` with its neighbouring pieces [c, m) and [m, hi) merged. */
  ghost function MergedAt(f: Compare, d: seq<Ptr>, c: nat, m: nat, hi: nat): seq<Ptr>
    requires c <= m <= hi <= |d|
  {
    d[..c] + Merge(f, true, d[c..m], d[m..hi]) + d[hi..]
  }

  lemma TakeFirst(f: Compare, d: seq<Ptr>, c: nat, m: nat, hi: nat)
    requires c < m < hi <= |d| && Cmp(f, d[c], d[m]) < 0
    ensures MergedAt(f, d, c + 1, m, hi) == MergedAt(f, d, c, m, hi)
  {
    assert d[c..m][1..] == d[c + 1..m];
    assert d[..c + 1] == d[..c] + [d[c]];
  }

  lemma TakeSecond(f: Compare, d: seq<Ptr>, c: nat, m: nat, hi: nat)
    requires c < m < hi <= |d| && Cmp(f, d[c], d[m]) >= 0
    ensures MergedAt(f, MoveTo(d, c, m), c + 1, m + 1, hi) == MergedAt(f, d, c, m, hi)
  {
    var d' := MoveTo(d, c, m);
    assert d[m..hi][1..] == d[m + 1..hi];
    assert d'[..c + 1] == d[..c] + [d[m]] && d'[hi..] == d[hi..];
    assert d'[c + 1..m + 1] == d[c..m] && d'[m + 1..hi] == d[m + 1..hi];
  }

  lemma MergeDone(f: Compare, d: seq<Ptr>, c: nat, m: nat, hi: nat)
    requires c <= m <= hi <= |d| && (c == m || m == hi)
    ensures MergedAt(f, d, c, m, hi) == d
  {
    assert d[..c] + d[c..hi] + d[hi..] == d;
  }

  lemma ChainLinks(list: Node?, last: Node?, s: seq<Node>, all: set<Node>, i: int)
    requires IsChain(list, last, s, all)
    ensures Linked(s) && list == At(s, 0) && last == At(s, |s| - 1)
    ensures 0 <= i < |s| ==> s[i].next == At(s, i + 1)
  {
  }

  /** The loop that merges one pair of runs. */
  method MergePair(f: Compare, list0: Node, last0: Node, first: Node?, second: Node?, n1: nat, n2: nat,
                   ghost lo: nat, ghost mid: nat, ghost hi: nat, ghost s: seq<Node>, ghost all: set<Node>)
    returns (list: Node, last: Node, head2: Node?, ghost s': seq<Node>)
    requires IsChain(list0, last0, s, all) && mid == lo + n1 && hi == mid + n2 && hi <= |s|
    requires first == At(s, lo) && second == At(s, mid)
    modifies all`next, all`prev
    ensures IsChain(list, last, s', all) && multiset(s') == multiset(s) && |s'| == |s|
    ensures Data(s') == MergedAt(f, old(Data(s)), lo, mid, hi)
    ensures head2 == At(s', hi) && s'[hi..] == s[hi..]
  {
    hide MergedAt, Merge, IsChain, Linked, Data, MoveTo;
    list, last, head2, s' := list0, last0, second, s;
    var head1 := first;
    var size1, size2, sizeSum, passNumber := n1, n2, n1 + n2, 0;
    ghost var d0, d, c, m := Data(s), Data(s), lo, mid;
    while passNumber < sizeSum
      invariant IsChain(list, last, s', all) && multiset(s') == multiset(s) && |s'| == |s|
      invariant c == lo + passNumber && m == c + size1 && hi == m + size2 && 0 <= size1 && 0 <= size2
      invariant passNumber + size1 + size2 == sizeSum
      invariant Data(s') == d && MergedAt(f, d, c, m, hi) == MergedAt(f, d0, lo, mid, hi)
      invariant head1 == At(s', c) && head2 == At(s', m) && s'[hi..] == s[hi..]
      decreases sizeSum - passNumber
    {
      ChainLinks(list, last, s', all, c);
      if size1 == 0 || head1 == null {
        MergeDone(f, d, c, m, hi);
        head2 := SkipRun(head2, passNumber, sizeSum, hi, s');
        return;
      } else if size2 == 0 || head2 == null {
        MergeDone(f, d, c, m, hi);
        return;
      } else if Cmp(f, head1.data, head2.data) < 0 {
        TakeFirst(f, d, c, m, hi);
        head1 := head1.next;
        size1 := size1 - 1;
      } else {
        TakeSecond(f, d, c, m, hi);
        MoveKeepsRest(s', c, m, hi);
        list, last, head2, s' := MoveNode(list, last, head1, head2, c, m, s', all);
        d, m := MoveTo(d, c, m), m + 1;
        size2 := size2 - 1;
      }
      passNumber, c := passNumber + 1, c + 1;
    }
    MergeDone(f, d, c, m, hi);
  }

  /** The first run is used up: skip what is left of the second. */
  method SkipRun(from: Node?, passNumber0: nat, sizeSum: nat, ghost hi: nat, ghost s: seq<Node>) returns (head2: Node?)
    requires Linked(s) && passNumber0 <= sizeSum <= hi <= |s|
    requires from == At(s, hi - (sizeSum - passNumber0))
    ensures head2 == At(s, hi)
  {
    head2 := from;
    var passNumber := passNumber0;
    while passNumber < sizeSum
      invariant passNumber <= sizeSum && head2 == At(s, hi - (sizeSum - passNumber))
    {
      head2 := if head2 == null then null else head2.next;
      passNumber := passNumber + 1;
    }
  }

  /** The result of a pass, of which the pairs below p are already done in `d`. */
  ghost function PassedAt(f: Compare, w: nat, d: seq<Ptr>, p: nat, size: nat): seq<Ptr>
    requires w > 0 && p <= size <= |d|
  {
    d[..p] + Pass(f, w, d[p..size]) + d[size..]
  }

  /** A pass merges its first two runs and goes on with the rest. */
  lemma PassFirstPair(f: Compare, w: nat, a: seq<Ptr>, b: seq<Ptr>, rest: seq<Ptr>)
    requires w > 0 && |a| <= w && |b| <= w
    requires (|a| < w ==> b == []) && (|b| < w ==> rest == [])
    ensures Pass(f, w, a + b + rest) == Merge(f, true, a, b) + Pass(f, w, rest)
  {
    var e, merged := a + b + rest, Merge(f, true, a, b);
    if |e| <= w {
      assert e == a && merged + [] == merged;
    } else {
      assert e[..w] == a && e[w..] == b + rest;
      if |e| > 2 * w {
        assert e[w..2 * w] == b && e[2 * w..] == rest;
      } else {
        assert rest == [] && b + rest == b && merged + [] == merged;
      }
    }
  }

  lemma PassDone(f: Compare, w: nat, d: seq<Ptr>, size: nat)
    requires w > 0 && size <= |d|
    ensures PassedAt(f, w, d, size, size) == d
  {
    assert d[size..size] == [];
    assert d[..size] + d[size..] == d;
  }

  lemma PassPair(f: Compare, w: nat, d: seq<Ptr>, p: nat, m: nat, hi: nat, size: nat)
    requires w > 0 && p <= size <= |d|
    requires m == p + (if size - p < w then size - p else w)
    requires hi == m + (if size - m < w then size - m else w)
    ensures |MergedAt(f, d, p, m, hi)| == |d|
    ensures PassedAt(f, w, MergedAt(f, d, p, m, hi), hi, size) == PassedAt(f, w, d, p, size)
  {
    var merged := Merge(f, true, d[p..m], d[m..hi]);
    MergePermutes(f, true, d[p..m], d[m..hi]);
    ReplacePiece(d, p, hi, size, merged);
    PassRest(f, w, d, p, m, hi, size);
    Regroup(d[..p], merged, Pass(f, w, d[hi..size]), d[size..]);
  }

  lemma PassRest(f: Compare, w: nat, d: seq<Ptr>, p: nat, m: nat, hi: nat, size: nat)
    requires w > 0 && p <= size <= |d|
    requires m == p + (if size - p < w then size - p else w)
    requires hi == m + (if size - m < w then size - m else w)
    ensures Pass(f, w, d[p..size]) == Merge(f, true, d[p..m], d[m..hi]) + Pass(f, w, d[hi..size])
  {
    hide Pass, Merge;
    PassFirstPair(f, w, d[p..m], d[m..hi], d[hi..size]);
    assert d[p..size] == d[p..m] + d[m..hi] + d[hi..size];
  }

  lemma Regroup(a: seq<Ptr>, b: seq<Ptr>, c: seq<Ptr>, e: seq<Ptr>)
    ensures a + b + c + e == a + (b + c) + e
  {
  }

  lemma ReplacePiece(d: seq<Ptr>, p: nat, hi: nat, size: nat, merged: seq<Ptr>)
    requires p <= hi <= size <= |d| && |merged| == hi - p
    ensures var d' := d[..p] + merged + d[hi..];
            |d'| == |d| && d'[..hi] == d[..p] + merged && d'[hi..size] == d[hi..size] && d'[size..] == d[size..]
  {
  }

  lemma PassedPrefix(f: Compare, w: nat, d: seq<Ptr>, size: nat)
    requires w > 0 && size <= |d|
    ensures var d' := PassedAt(f, w, d, 0, size);
            |d'| == |d| && d'[..size] == Pass(f, w, d[..size]) && d'[size..] == d[size..]
  {
    PassLength(f, w, d[..size]);
    assert d[0..size] == d[..size];
  }

  /** How many nodes this many pairs of runs of width w take up. */
  ghost function Span(pairs: nat, w: nat): nat {
    if pairs == 0 then 0 else 2 * w + Span(pairs - 1, w)
  }

  lemma {:induction false} SpanIsProduct(pairs: nat, w: nat)
    ensures Span(pairs, w) == 2 * (pairs * w)
  {
    if pairs > 0 {
      SpanIsProduct(pairs - 1, w);
      assert pairs * w == (pairs - 1) * w + w;
    }
  }

  /** One iteration of the loop below: cut off the next two runs and merge them. */
  method SortPair(f: Compare, list0: Node, last0: Node, head1: Node?, limit0: nat, listSize: nat,
                  ghost size: nat, ghost p: nat, ghost d0: seq<Ptr>, ghost s: seq<Node>, ghost all: set<Node>)
    returns (list: Node, last: Node, head: Node?, limit: nat, ghost s': seq<Node>, ghost d: seq<Ptr>)
    requires IsChain(list0, last0, s, all) && listSize > 0 && p + limit0 == size <= |s|
    requires head1 == At(s, p) && Data(s) == d0
    modifies all`next, all`prev
    ensures IsChain(list, last, s', all) && multiset(s') == multiset(s) && |s'| == |s|
    ensures limit == if limit0 < 2 * listSize then 0 else limit0 - 2 * listSize
    ensures head == At(s', size - limit) && s'[size..] == s[size..]
    ensures Data(s') == d && PassedAt(f, listSize, d, size - limit, size) == PassedAt(f, listSize, d0, p, size)
  {
    hide MergedAt, PassedAt, Merge, Pass;
    var size1 := if limit0 < listSize then limit0 else listSize;
    limit := limit0 - size1;
    var size2 := if limit < listSize then limit else listSize;
    limit := limit - size2;
    ghost var m, hi := p + size1, p + size1 + size2;
    PassPair(f, listSize, d0, p, m, hi, size);
    var head2 := Advance(head1, size1, p, s);
    list, last, head, s' := MergePair(f, list0, last0, head1, head2, size1, size2, p, m, hi, s, all);
    d := MergedAt(f, d0, p, m, hi);
    assert s'[size..] == s'[hi..][size - hi..] && s[size..] == s[hi..][size - hi..];
  }

  /** The loop over the pairs of one pass; the pairs left when the nodes run out are empty. */
  method SortPass(f: Compare, list0: Node, last0: Node, size: nat, listNumber: nat, listSize: nat, ghost s: seq<Node>, ghost all: set<Node>)
    returns (list: Node, last: Node, ghost s': seq<Node>)
    requires IsChain(list0, last0, s, all) && size <= |s|
    requires listSize > 0 && Span(listNumber + 1, listSize) >= size
    modifies all`next, all`prev
    ensures IsChain(list, last, s', all) && multiset(s') == multiset(s) && |s'| == |s|
    ensures Data(s') == PassedAt(f, listSize, old(Data(s)), 0, size) && s'[size..] == s[size..]
  {
    hide PassedAt, Pass;
    list, last, s' := list0, last0, s;
    var head1: Node? := list;
    var limit, processList := size, 0;
    ghost var d0, d, p := Data(s), Data(s), 0;
    while processList < listNumber + 1
      invariant IsChain(list, last, s', all) && multiset(s') == multiset(s) && |s'| == |s|
      invariant processList <= listNumber + 1 && 0 <= limit && p == size - limit && 0 <= p
      invariant Span(listNumber + 1 - processList, listSize) >= limit
      invariant Data(s') == d && PassedAt(f, listSize, d, p, size) == PassedAt(f, listSize, d0, 0, size)
      invariant head1 == At(s', p) && s'[size..] == s[size..]
    {
      ghost var was := limit;
      list, last, head1, limit, s', d := SortPair(f, list, last, head1, limit, listSize, size, p, d, s', all);
      p := p + (was - limit);
      processList := processList + 1;
    }
    PassDone(f, listSize, d, size);
  }

  method Advance(from: Node?, count: nat, ghost p: nat, ghost s: seq<Node>) returns (l: Node?)
    requires Linked(s) && from == At(s, p) && p + count <= |s|
    ensures l == At(s, p + count)
  {
    l := from;
    var i := 0;
    while i < count
      invariant i <= count && l == At(s, p + i)
    {
      l := if l == null then null else l.next;
      i := i + 1;
    }
  }

  /** Halving the number of pairs and doubling their width keeps the whole prefix covered. */
  lemma StillCovers(listNumber: nat, listSize: nat, middle: nat)
    requires Span(listNumber + 1, listSize) > 2 * middle
    ensures Span(listNumber / 2 + 1, 2 * listSize) > 2 * middle
  {
    SpanIsProduct(listNumber + 1, listSize);
    SpanIsProduct(listNumber / 2 + 1, 2 * listSize);
    HalvedProduct(listNumber, listNumber / 2, listSize);
  }

  lemma HalvedProduct(n: nat, half: nat, w: nat)
    requires n <= 2 * half + 1
    ensures (half + 1) * (2 * w) >= (n + 1) * w
  {
    assert (half + 1) * (2 * w) == (2 * half + 2) * w;
    assert (2 * half + 2 - (n + 1)) * w >= 0;
  }

  /** The passes of evas_list_sort over the first `size` nodes. */
  method SortPasses(f: Compare, list0: Node, last0: Node, size: nat, ghost s: seq<Node>, ghost all: set<Node>)
    returns (list: Node, last: Node, ghost s': seq<Node>)
    requires IsChain(list0, last0, s, all) && 0 < size <= |s|
    modifies all`next, all`prev
    ensures IsChain(list, last, s', all) && multiset(s') == multiset(s) && |s'| == |s|
    ensures s'[size..] == s[size..] && multiset(s'[..size]) == multiset(s[..size])
    ensures Data(s') == EvasSort(f, old(Data(s))[..size]) + old(Data(s))[size..]
  {
    hide PassedAt, Pass, Merge;
    list, last, s' := list0, last0, s;
    var middle := size - size / 2;
    var listNumber, listSize := middle, 1;
    SpanIsProduct(middle + 1, 1);
    ghost var d0, d := Data(s), Data(s);
    while listSize < middle * 2
      invariant IsChain(list, last, s', all) && multiset(s') == multiset(s) && |s'| == |s|
      invariant 0 <= listNumber && 0 < listSize && Span(listNumber + 1, listSize) > 2 * middle
      invariant Data(s') == d && |d| == |d0| && d[size..] == d0[size..] && s'[size..] == s[size..]
      invariant Passes(f, listSize, middle * 2, d[..size]) == EvasSort(f, d0[..size])
      decreases middle * 2 - listSize
    {
      list, last, s' := SortPass(f, list, last, size, listNumber, listSize, s', all);
      PassedPrefix(f, listSize, d, size);
      d := PassedAt(f, listSize, d, 0, size);
      StillCovers(listNumber, listSize, middle);
      listNumber, listSize := listNumber / 2, listSize * 2;
    }
    assert d == d[..size] + d[size..];
    PrefixPermutes(s', s, size);
  }

  lemma PrefixPermutes<T>(t: seq<T>, s: seq<T>, n: nat)
    requires multiset(t) == multiset(s) && n <= |t| == |s| && t[n..] == s[n..]
    ensures multiset(t[..n]) == multiset(s[..n])
  {
    assert t == t[..n] + t[n..] && s == s[..n] + s[n..];
    assert multiset(t[..n]) == multiset(t) - multiset(t[n..]);
  }

  /** How much of a list of `count` is sorted: a size that is out of range means all of it. */
  function SortedCount(size: int, count: nat): (n: nat)
    ensures n <= count
  {
    if size <= 0 || size > count then count else size
  }

  /** The payloads evas_list_sort leaves. */
  function SortedPrefix(f: Compare, size: int, c: seq<Ptr>): seq<Ptr> {
    var n := SortedCount(size, |c|);
    EvasSort(f, c[..n]) + c[n..]
  }

  /** evas_list_sort on a whole list: the first `size` nodes are sorted by relinking them among
      themselves, and every node behind them stays where it is. */
  method Sort(l: EvasList, size0: int, f: Compare)
    requires l.Valid()
    modifies l`list, l`nodes, l.nodes`next, l.nodes`prev, l.accounting
    ensures l.Valid() && l.accounting == old(l.accounting)
    ensures multiset(l.nodes) == multiset(old(l.nodes)) && |l.nodes| == |old(l.nodes)|
    ensures var n := SortedCount(size0, |old(l.nodes)|);
            l.nodes[n..] == old(l.nodes)[n..] && multiset(l.nodes[..n]) == multiset(old(l.nodes)[..n])
    ensures l.Contents() == SortedPrefix(f, size0, old(l.Contents()))
    ensures 0 < size0 <= |old(l.nodes)| ==>
              && l.nodes[size0..] == old(l.nodes)[size0..] && multiset(l.nodes[..size0]) == multiset(old(l.nodes)[..size0])
              && l.Contents()[size0..] == old(l.Contents())[size0..]
              && (IsComparator(f) ==> ReverseStableSortOf(f, old(l.Contents())[..size0], l.Contents()[..size0]))
    ensures size0 <= 0 || size0 > |old(l.nodes)| ==> IsComparator(f) ==> ReverseStableSortOf(f, old(l.Contents()), l.Contents())
  {
    if IsComparator(f) {
      SortedPrefixIsSorted(f, size0, l.Contents());
    }
    if l.list == null {
      return;
    }
    hide EvasSort, Data;
    var size := size0;
    if size <= 0 || size > l.list.accounting.count {
      size := l.list.accounting.count;
    }
    var list, last;
    var first := l.list;
    ghost var s, all := l.nodes, (set n | n in l.nodes);
    list, last, s := SortPasses(f, first, first.accounting.last, size, s, all);
    list.accounting.last := last;
    l.list := list;
    l.nodes := s;
  }

  /** The first `size` payloads end up sorted, ties in reverse order, and nothing else moves; a
      size that is out of range means all of them. */
  lemma SortedPrefixIsSorted(f: Compare, size: int, c: seq<Ptr>)
    requires IsComparator(f)
    ensures var r := SortedPrefix(f, size, c);
            && |r| == |c| && multiset(r) == multiset(c)
            && (0 < size <= |c| ==>
                  r[size..] == c[size..] && ReverseStableSortOf(f, c[..size], r[..size]) && multiset(r[..size]) == multiset(c[..size]))
            && (size <= 0 || size > |c| ==> ReverseStableSortOf(f, c, r))
  {
    var n := SortedCount(size, |c|);
    var sorted := EvasSort(f, c[..n]);
    EvasSortIsReverseStable(f, c[..n]);
    assert |multiset(sorted)| == |sorted| && |multiset(c[..n])| == n;
    assert SortedPrefix(f, size, c) == sorted + c[n..];
    assert (sorted + c[n..])[..n] == sorted && (sorted + c[n..])[n..] == c[n..];
    assert c == c[..n] + c[n..] && (n == |c| ==> c[..n] == c && sorted + c[n..] == sorted);
  }

  lemma {:induction false} TiesReversed(f: Compare, x: Ptr, s: seq<Ptr>)
    ensures Ties(f, x, Reversed(s)) == Reversed(Ties(f, x, s))
  {
    if s != [] {
      TiesReversed(f, x, s[1..]);
      TiesConcat(f, x, Reversed(s[1..]), [s[0]]);
      assert [s[0]][1..] == [];
      var head := if Cmp(f, x, s[0]) == 0 then [s[0]] else [];
      assert Ties(f, x, [s[0]]) == head && Reversed(head) == head;
      ReversedConcat(head, Ties(f, x, s[1..]));
    }
  }

  /** The pointers that compare equal to x read the same in both directions. */
  ghost predicate Palindrome(f: Compare, x: Ptr, s: seq<Ptr>) {
    Ties(f, x, s) == Reversed(Ties(f, x, s))
  }

  /** evas_list_sort is the stable sort of the reversed input. */
  lemma SortsTheReverseStably(f: Compare, s: seq<Ptr>)
    requires IsComparator(f)
    ensures StableSortOf(f, Reversed(s), EvasSort(f, s))
  {
    EvasSortIsReverseStable(f, s);
    forall x
      ensures Ties(f, x, EvasSort(f, s)) == Ties(f, x, Reversed(s))
    {
      TiesReversed(f, x, s);
    }
  }

  /** So it is stable exactly when every class of equal elements is a palindrome of pointers. */
  lemma StableIffTiesArePalindromes(f: Compare, s: seq<Ptr>)
    requires IsComparator(f)
    ensures StableSortOf(f, s, EvasSort(f, s)) <==> forall x :: Palindrome(f, x, s)
  {
    EvasSortIsReverseStable(f, s);
    var r := EvasSort(f, s);
    if StableSortOf(f, s, r) {
      forall x
        ensures Palindrome(f, x, s)
      {
        assert Ties(f, x, r) == Ties(f, x, s);
      }
    }
    if forall x :: Palindrome(f, x, s) {
      forall x
        ensures Ties(f, x, r) == Ties(f, x, s)
      {
        assert Palindrome(f, x, s);
        assert Ties(f, x, r) == Reversed(Ties(f, x, s));
      }
      assert StableSortOf(f, s, r);
    }
  }

  /** The sort is unstable on the smallest input it can be: two pointers that compare equal. */
  lemma TwoEqualSwap()
    ensures var f: Compare := (x, y) => 0;
            IsComparator(f) && EvasSort(f, [1, 2]) == [2, 1] && !StableSortOf(f, [1, 2], [2, 1])
  {
    var f: Compare := (x, y) => 0;
    var s: seq<Ptr> := [1, 2];
    assert forall x, y, z :: Transitive(f, x, y, z);
    assert s[..1] == [1] && s[1..] == [2];
    assert Pass(f, 1, s) == Merge(f, true, [1], [2]) == [2] + Merge(f, true, [1], []) == [2, 1];
    assert Passes(f, 1, 2, s) == Passes(f, 2, 2, [2, 1]) == [2, 1];
    assert Ties(f, 0, [2]) == [2] && [2, 1][1..] == [1];
    assert Ties(f, 0, [2, 1])[0] == 2 && Ties(f, 0, s)[0] == 1;
  }
}
