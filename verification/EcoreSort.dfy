/** The two sorts of ecore_list.c on plain sequences, and how they compare. */
module EcoreSort {
  import opened Payloads
  import opened Sequences
  import opened Sorting
  import opened EcoreSheap

  const MERGESORT_LIMIT := 40000

  /** The recursion of _ecore_list_node_mergesort; on a tie the first half supplies the next
      element. */
  function MergeSort(f: Compare, s: seq<Ptr>): seq<Ptr>
    decreases |s|
  {
    if |s| < 2 then s
    else Merge(f, false, MergeSort(f, s[..|s| / 2]), MergeSort(f, s[|s| / 2..]))
  }

  /** The case of two nodes, which exchanges payloads instead. */
  lemma MergeSortTwo(f: Compare, s: seq<Ptr>)
    requires |s| == 2
    ensures MergeSort(f, s) == if Cmp(f, s[0], s[1]) > 0 then [s[1], s[0]] else s
  {
    var a, b := s[..1], s[1..];
    assert a == [s[0]] && b == [s[1]] && s == [s[0], s[1]];
    assert MergeSort(f, a) == a && MergeSort(f, b) == b;
    assert a[1..] == [] && b[1..] == [];
    assert Merge(f, false, a[1..], b) == b && Merge(f, false, a, b[1..]) == a;
    assert MergeSort(f, s) == Merge(f, false, a, b);
  }

  lemma {:induction false} MergeSortLength(f: Compare, s: seq<Ptr>)
    ensures |MergeSort(f, s)| == |s|
    decreases |s|
  {
    if |s| >= 2 {
      MergeSortLength(f, s[..|s| / 2]);
      MergeSortLength(f, s[|s| / 2..]);
      MergePermutes(f, false, MergeSort(f, s[..|s| / 2]), MergeSort(f, s[|s| / 2..]));
    }
  }

  /** The merge sort is stable. */
  lemma {:induction false} MergeSortIsStable(f: Compare, s: seq<Ptr>)
    requires IsComparator(f)
    ensures StableSortOf(f, s, MergeSort(f, s)) && multiset(MergeSort(f, s)) == multiset(s)
    decreases |s|
  {
    hide IsComparator, Sorted, Ties, Merge;
    if |s| < 2 {
      OneSorted(f, s);
    } else {
      var a, b := s[..|s| / 2], s[|s| / 2..];
      MergeSortIsStable(f, a);
      MergeSortIsStable(f, b);
      assert s == a + b;
      MergeStable(f, a, b, MergeSort(f, a), MergeSort(f, b));
    }
    StableSortPermutes(f, s, MergeSort(f, s));
  }

  lemma OneSorted(f: Compare, s: seq<Ptr>)
    requires |s| < 2
    ensures Sorted(f, s)
  {
  }

  lemma MergeStable(f: Compare, a: seq<Ptr>, b: seq<Ptr>, x: seq<Ptr>, y: seq<Ptr>)
    requires IsComparator(f) && StableSortOf(f, a, x) && StableSortOf(f, b, y)
    ensures StableSortOf(f, a + b, Merge(f, false, x, y))
  {
    hide IsComparator, Sorted, Ties, Merge;
    MergeSorted(f, false, x, y);
    forall p
      ensures Ties(f, p, Merge(f, false, x, y)) == Ties(f, p, a + b)
    {
      MergeTies(f, false, p, x, y);
      TiesConcat(f, p, a, b);
    }
  }

  /** The merge sort is the only stable sort: any other stable algorithm gives the same list. */
  lemma OnlyStableSort(f: Compare, s: seq<Ptr>, r: seq<Ptr>)
    requires IsComparator(f) && StableSortOf(f, s, r)
    ensures r == MergeSort(f, s)
  {
    MergeSortIsStable(f, s);
    forall x
      ensures Ties(f, x, r) == Ties(f, x, MergeSort(f, s))
    {
    }
    StableSortUnique(f, r, MergeSort(f, s));
  }

  /** Heapsort and mergesort agree position by position up to comparator equality. */
  lemma SortsAgree(f: Compare, s: seq<Ptr>)
    requires IsComparator(f)
    ensures |Build(f, s)| == |s|
    ensures var a, b := HeapSort(f, s), MergeSort(f, s);
            && multiset(a) == multiset(b) && |a| == |b|
            && forall i :: 0 <= i < |a| ==> Cmp(f, a[i], b[i]) == 0
  {
    hide IsComparator, Sorted, Ties, SameClassSizes;
    HeapSortSorts(f, s);
    MergeSortIsStable(f, s);
    PermutationHasSameClassSizes(f, HeapSort(f, s), MergeSort(f, s));
    SortedSequencesAgree(f, HeapSort(f, s), MergeSort(f, s));
  }

  function Nulls(n: nat): seq<Ptr> {
    seq(n, _ => NULL)
  }

  /** What ecore_list_heapsort leaves. Filling the heap ends at the first NULL payload, and an
      empty heap extracts as NULL, so that payload and all behind it are overwritten with NULL. */
  function HeapSortToNull(f: Compare, s: seq<Ptr>): (r: seq<Ptr>)
    requires IsComparator(f)
    ensures |r| == |s|
  {
    var k := IndexOf(s, NULL);
    HeapSortSorts(f, s[..k]);
    HeapSort(f, s[..k]) + Nulls(|s| - k)
  }

  /** Nothing in `s` compares greater than NULL. */
  ghost predicate BelowNull(f: Compare, s: seq<Ptr>) {
    forall i :: 0 <= i < |s| ==> Cmp(f, s[i], NULL) <= 0
  }

  /** ecore_list_heapsort sorts exactly those lists whose NULL payloads, if any, all come last
      and compare no less than the others. */
  lemma HeapSortsIff(f: Compare, s: seq<Ptr>)
    requires IsComparator(f)
    ensures var r, k := HeapSortToNull(f, s), IndexOf(s, NULL);
            Sorted(f, r) && multiset(r) == multiset(s) <==>
            s[k..] == Nulls(|s| - k) && (k < |s| ==> BelowNull(f, s[..k]))
  {
    hide Sorted, IsComparator, HeapSort, HeapSortToNull, BelowNull;
    var k := IndexOf(s, NULL);
    var a, pad := s[..k], Nulls(|s| - k);
    var h := HeapPart(f, s, k);
    SamePadding(h, pad, a, s[k..]);
    assert s == a + s[k..];
    if k < |s| {
      SortedBefore(f, h, pad);
      BelowPermutes(f, h, a);
    } else {
      assert h + pad == h;
    }
  }

  lemma HeapPart(f: Compare, s: seq<Ptr>, k: nat) returns (h: seq<Ptr>)
    requires IsComparator(f) && k == IndexOf(s, NULL)
    ensures HeapSortToNull(f, s) == h + Nulls(|s| - k) && Sorted(f, h) && multiset(h) == multiset(s[..k])
  {
    HeapSortSorts(f, s[..k]);
    h := HeapSort(f, s[..k]);
  }

  lemma SamePadding(h: seq<Ptr>, pad: seq<Ptr>, a: seq<Ptr>, b: seq<Ptr>)
    requires multiset(h) == multiset(a) && pad == Nulls(|b|)
    ensures multiset(h + pad) == multiset(a + b) <==> b == pad
  {
    SameNulls(b);
    assert multiset(h + pad) == multiset(a) + multiset(pad);
    assert multiset(a + b) == multiset(a) + multiset(b);
    if multiset(h + pad) == multiset(a + b) {
      assert multiset(pad) == multiset(a + b) - multiset(a);
      assert multiset(b) == multiset(a + b) - multiset(a);
    }
  }

  lemma SameNulls(s: seq<Ptr>)
    ensures multiset(s) == multiset(Nulls(|s|)) ==> s == Nulls(|s|)
  {
    if multiset(s) == multiset(Nulls(|s|)) {
      forall i | 0 <= i < |s|
        ensures s[i] == NULL
      {
        assert s[i] in multiset(s);
      }
    }
  }

  lemma SortedBefore(f: Compare, a: seq<Ptr>, pad: seq<Ptr>)
    requires IsComparator(f) && Sorted(f, a) && pad != [] && pad == Nulls(|pad|)
    ensures Sorted(f, a + pad) <==> BelowNull(f, a)
  {
    var t := a + pad;
    SelfTies(f, pad);
    if Sorted(f, t) {
      forall i | 0 <= i < |a|
        ensures Cmp(f, a[i], NULL) <= 0
      {
        assert t[i] == a[i] && t[|a|] == NULL;
      }
    }
  }

  lemma BelowPermutes(f: Compare, h: seq<Ptr>, a: seq<Ptr>)
    requires multiset(h) == multiset(a)
    ensures BelowNull(f, h) <==> BelowNull(f, a)
  {
    if BelowNull(f, h) {
      BelowPermuted(f, h, a);
    }
    if BelowNull(f, a) {
      BelowPermuted(f, a, h);
    }
  }

  lemma BelowPermuted(f: Compare, h: seq<Ptr>, a: seq<Ptr>)
    requires multiset(h) == multiset(a) && BelowNull(f, h)
    ensures BelowNull(f, a)
  {
    forall i | 0 <= i < |a|
      ensures Cmp(f, a[i], NULL) <= 0
    {
      assert a[i] in multiset(h);
      var j :| 0 <= j < |h| && h[j] == a[i];
    }
  }

  /** A NULL payload in front of another one makes ecore_list_heapsort lose the other one. */
  lemma HeapSortLosesPayload(f: Compare)
    requires IsComparator(f)
    ensures HeapSortToNull(f, [NULL, 5]) == [NULL, NULL]
  {
    var s := [NULL, 5];
    var k := IndexOf(s, NULL);
    assert k == 0;
    HeapSortSorts(f, s[..k]);
    assert HeapSort(f, s[..k]) == [] && Nulls(2) == [NULL, NULL];
  }

  /** Without NULL payloads it is the heap sort of the whole list. */
  lemma HeapSortWithoutNull(f: Compare, s: seq<Ptr>)
    requires IsComparator(f) && NULL !in s
    ensures |Build(f, s)| == |s| && HeapSortToNull(f, s) == HeapSort(f, s)
  {
    hide HeapSort, Build;
    HeapSortSorts(f, s);
    assert s[..|s|] == s;
  }

  function HeapSorted(compare: Compare, order: Direction, s: seq<Ptr>): (r: seq<Ptr>)
    requires IsComparator(compare)
    ensures |r| == |s|
  {
    DirectedIsComparator(compare, order);
    HeapSortToNull(Directed(compare, order), s)
  }

  /** What ecore_list_sort leaves; `memory` tells whether the heap can be allocated. */
  function ListSort(compare: Compare, order: Direction, memory: bool, s: seq<Ptr>): seq<Ptr>
    requires IsComparator(compare)
  {
    var f := Directed(compare, order);
    if |s| < 2 then s
    else if |s| < MERGESORT_LIMIT || !memory then MergeSort(f, s)
    else HeapSorted(compare, order, s)
  }

  /** ecore_list_sort sorts, permutes, and is independent of the algorithm it picks up to
      comparator equality, in both directions; only the heap sort minds NULL payloads. */
  lemma ListSortSorts(compare: Compare, order: Direction, memory: bool, s: seq<Ptr>)
    requires IsComparator(compare)
    requires |s| >= MERGESORT_LIMIT && memory ==> NULL !in s
    ensures var f := Directed(compare, order);
            SameAsMergeSort(f, s, ListSort(compare, order, memory, s)) && Sorted(f, ListSort(compare, order, memory, s))
  {
    hide Directed, IsComparator, Sorted, SameAsMergeSort, MergeSort, Drain, Build;
    var f := Directed(compare, order);
    DirectedIsComparator(compare, order);
    if |s| < 2 {
      ShortIsSorted(f, s);
    } else if |s| < MERGESORT_LIMIT || !memory {
      MergeSortIsItself(f, s);
    } else {
      HeapSortWithoutNull(f, s);
      HeapSortIsSame(f, s);
    }
  }

  /** Lists of less than 40000 nodes, and any list when there is no memory for a heap, are sorted
      stably. */
  lemma ListSortIsStable(compare: Compare, order: Direction, memory: bool, s: seq<Ptr>)
    requires IsComparator(compare) && (|s| < 40000 || !memory)
    ensures StableSortOf(Directed(compare, order), s, ListSort(compare, order, memory, s))
  {
    hide IsComparator, Directed;
    DirectedIsComparator(compare, order);
    MergeSortIsStable(Directed(compare, order), s);
  }

  /** The heap sort on any list: the payloads in front of the first NULL, sorted, and NULL from
      there on. */
  lemma HeapSortKeepsFront(f: Compare, s: seq<Ptr>)
    requires IsComparator(f)
    ensures var r, k := HeapSortToNull(f, s), IndexOf(s, NULL);
            && |r| == |s| && Sorted(f, r[..k]) && multiset(r[..k]) == multiset(s[..k])
            && forall i :: k <= i < |r| ==> r[i] == NULL
  {
    hide Sorted, IsComparator, HeapSortToNull;
    var k := IndexOf(s, NULL);
    var h := HeapPart(f, s, k);
    assert |multiset(h)| == |h| && |multiset(s[..k])| == k;
    assert HeapSortToNull(f, s)[..k] == h;
  }

  /** `r` is a permutation of `s` that agrees with the merge sort position by position up to
      comparator equality. */
  ghost predicate SameAsMergeSort(f: Compare, s: seq<Ptr>, r: seq<Ptr>) {
    && multiset(r) == multiset(s) && |r| == |s| == |MergeSort(f, s)|
    && forall i :: 0 <= i < |s| ==> Cmp(f, r[i], MergeSort(f, s)[i]) == 0
  }

  lemma ShortIsSorted(f: Compare, s: seq<Ptr>)
    requires IsComparator(f) && |s| < 2
    ensures SameAsMergeSort(f, s, s) && Sorted(f, s)
  {
    SelfTies(f, s);
  }

  lemma MergeSortIsItself(f: Compare, s: seq<Ptr>)
    requires IsComparator(f)
    ensures SameAsMergeSort(f, s, MergeSort(f, s)) && Sorted(f, MergeSort(f, s))
  {
    MergeSortIsStable(f, s);
    MergeSortLength(f, s);
    SelfTies(f, MergeSort(f, s));
  }

  lemma HeapSortIsSame(f: Compare, s: seq<Ptr>)
    requires IsComparator(f)
    ensures |Build(f, s)| == |s| && SameAsMergeSort(f, s, HeapSort(f, s)) && Sorted(f, HeapSort(f, s))
  {
    hide MergeSort, Drain, Build;
    HeapSortSorts(f, s);
    SortsAgree(f, s);
    MergeSortLength(f, s);
  }

  lemma SelfTies(f: Compare, s: seq<Ptr>)
    requires IsComparator(f)
    ensures forall i :: 0 <= i < |s| ==> Cmp(f, s[i], s[i]) == 0
  {
    forall i | 0 <= i < |s|
      ensures Cmp(f, s[i], s[i]) == 0
    {
      LessThan(f, s[i], s[i]);
    }
  }
}
