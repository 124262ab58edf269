/** Vocabulary shared by the three sorts of the repository. A comparator is an arbitrary
    int-valued callback that induces a total preorder. */
module Sorting {
  import opened Payloads

  type Compare = (Ptr, Ptr) -> int

  /** One call of the callback. */
  function Cmp(f: Compare, x: Ptr, y: Ptr): int {
    f(x, y)
  }

  datatype Direction = Min | Max

  ghost predicate IsComparator(f: Compare) {
    && (forall x, y :: Cmp(f, x, y) < 0 <==> Cmp(f, y, x) > 0)
    && (forall x, y, z :: Transitive(f, x, y, z))
  }

  ghost predicate Transitive(f: Compare, x: Ptr, y: Ptr, z: Ptr) {
    Cmp(f, x, y) <= 0 && Cmp(f, y, z) <= 0 ==> Cmp(f, x, z) <= 0
  }

  /** The comparator multiplied by +1 or -1, as the Ecore sorts use it. */
  function Directed(f: Compare, dir: Direction): Compare {
    match dir
    case Min => f
    case Max => (x, y) => -f(x, y)
  }

  lemma DirectedIsComparator(f: Compare, dir: Direction)
    requires IsComparator(f)
    ensures IsComparator(Directed(f, dir))
  {
    var g := Directed(f, dir);
    forall x, y
      ensures Cmp(g, x, y) < 0 <==> Cmp(g, y, x) > 0
    {
      assert Cmp(f, x, y) < 0 <==> Cmp(f, y, x) > 0;
      assert Cmp(f, y, x) < 0 <==> Cmp(f, x, y) > 0;
    }
    forall x, y, z
      ensures Transitive(g, x, y, z)
    {
      assert Transitive(f, x, y, z) && Transitive(f, z, y, x);
      assert Cmp(f, x, y) < 0 <==> Cmp(f, y, x) > 0;
      assert Cmp(f, y, z) < 0 <==> Cmp(f, z, y) > 0;
      assert Cmp(f, x, z) < 0 <==> Cmp(f, z, x) > 0;
    }
  }

  ghost predicate Sorted(f: Compare, s: seq<Ptr>) {
    forall i, j :: 0 <= i < j < |s| ==> Cmp(f, s[i], s[j]) <= 0
  }

  /** The elements of `s` that compare equal to `x`, in their order of occurrence. */
  function Ties(f: Compare, x: Ptr, s: seq<Ptr>): seq<Ptr> {
    if s == [] then [] else (if Cmp(f, x, s[0]) == 0 then [s[0]] else []) + Ties(f, x, s[1..])
  }

  function Reversed(s: seq<Ptr>): seq<Ptr> {
    if s == [] then [] else Reversed(s[1..]) + [s[0]]
  }

  /** `r` is `s` sorted with equal elements kept in their original order. */
  ghost predicate StableSortOf(f: Compare, s: seq<Ptr>, r: seq<Ptr>) {
    Sorted(f, r) && forall x :: Ties(f, x, r) == Ties(f, x, s)
  }

  /** `r` is `s` sorted with equal elements in exactly the opposite of their original order. */
  ghost predicate ReverseStableSortOf(f: Compare, s: seq<Ptr>, r: seq<Ptr>) {
    Sorted(f, r) && forall x :: Ties(f, x, r) == Reversed(Ties(f, x, s))
  }

  /** Merge of two runs; on a tie `secondOnTie` says which run supplies the next element. */
  function Merge(f: Compare, secondOnTie: bool, a: seq<Ptr>, b: seq<Ptr>): seq<Ptr>
    decreases |a| + |b|
  {
    if a == [] then b
    else if b == [] then a
    else if Cmp(f, a[0], b[0]) < 0 || (Cmp(f, a[0], b[0]) == 0 && !secondOnTie) then
      [a[0]] + Merge(f, secondOnTie, a[1..], b)
    else
      [b[0]] + Merge(f, secondOnTie, a, b[1..])
  }

  lemma NoTies(f: Compare, x: Ptr)
    ensures Ties(f, x, []) == []
  {
  }

  lemma TiesFirst(f: Compare, x: Ptr, s: seq<Ptr>)
    requires s != []
    ensures Ties(f, x, s) == (if Cmp(f, x, s[0]) == 0 then [s[0]] else []) + Ties(f, x, s[1..])
  {
  }

  lemma {:induction false} TiesConcat(f: Compare, x: Ptr, a: seq<Ptr>, b: seq<Ptr>)
    ensures Ties(f, x, a + b) == Ties(f, x, a) + Ties(f, x, b)
  {
    hide Ties;
    if a == [] {
      assert a + b == b;
      NoTies(f, x);
    } else {
      TiesConcat(f, x, a[1..], b);
      TiesFirst(f, x, a);
      TiesFirst(f, x, a + b);
      assert (a + b)[1..] == a[1..] + b;
    }
  }

  lemma {:induction false} ReversedConcat(a: seq<Ptr>, b: seq<Ptr>)
    ensures Reversed(a + b) == Reversed(b) + Reversed(a)
  {
    if a == [] {
      assert a + b == b;
    } else {
      assert (a + b)[1..] == a[1..] + b;
      ReversedConcat(a[1..], b);
    }
  }

  lemma {:induction false} ReversedAt(s: seq<Ptr>, k: nat)
    requires k < |s|
    ensures |Reversed(s)| == |s| && Reversed(s)[k] == s[|s| - 1 - k]
  {
    if |s| > 1 {
      ReversedAt(s[1..], if k < |s| - 1 then k else 0);
    }
  }

  lemma ReversedFacts(s: seq<Ptr>)
    ensures |Reversed(s)| == |s| && forall k {:trigger Reversed(s)[k]} :: 0 <= k < |s| ==> Reversed(s)[k] == s[|s| - 1 - k]
  {
    forall k | 0 <= k < |s|
      ensures |Reversed(s)| == |s| && Reversed(s)[k] == s[|s| - 1 - k]
    {
      ReversedAt(s, k);
    }
  }

  /** In one direction a sequence is sorted as the comparator says, in the other when it is read
      from its end. */
  lemma DirectionReverses(f: Compare, s: seq<Ptr>)
    requires IsComparator(f)
    ensures Sorted(Directed(f, Min), s) <==> Sorted(f, s)
    ensures Sorted(Directed(f, Max), s) <==> Sorted(f, Reversed(s))
  {
    var g, r := Directed(f, Max), Reversed(s);
    ReversedFacts(s);
    if Sorted(g, s) {
      forall i, j | 0 <= i < j < |r|
        ensures Cmp(f, r[i], r[j]) <= 0
      {
        var x, y := s[|s| - 1 - j], s[|s| - 1 - i];
        assert Cmp(g, x, y) <= 0;
        assert Cmp(f, y, x) > 0 <==> Cmp(f, x, y) < 0;
      }
    }
    if Sorted(f, r) {
      forall i, j | 0 <= i < j < |s|
        ensures Cmp(g, s[i], s[j]) <= 0
      {
        assert r[|s| - 1 - j] == s[j] && r[|s| - 1 - i] == s[i];
        assert Cmp(f, s[j], s[i]) > 0 <==> Cmp(f, s[i], s[j]) < 0;
      }
    }
  }

  lemma {:induction false} MergePermutes(f: Compare, t: bool, a: seq<Ptr>, b: seq<Ptr>)
    ensures multiset(Merge(f, t, a, b)) == multiset(a) + multiset(b)
    ensures |Merge(f, t, a, b)| == |a| + |b|
    decreases |a| + |b|
  {
    if a != [] && b != [] {
      assert a == [a[0]] + a[1..] && b == [b[0]] + b[1..];
      if Cmp(f, a[0], b[0]) < 0 || (Cmp(f, a[0], b[0]) == 0 && !t) {
        MergePermutes(f, t, a[1..], b);
      } else {
        MergePermutes(f, t, a, b[1..]);
      }
    }
  }

  lemma SortedCons(f: Compare, x: Ptr, s: seq<Ptr>)
    requires Sorted(f, s)
    requires forall y :: y in multiset(s) ==> Cmp(f, x, y) <= 0
    ensures Sorted(f, [x] + s)
  {
    forall i, j | 0 <= i < j < |[x] + s|
      ensures Cmp(f, ([x] + s)[i], ([x] + s)[j]) <= 0
    {
      assert s[j - 1] in multiset(s);
    }
  }

  lemma HeadIsLeast(f: Compare, lo: Ptr, s: seq<Ptr>)
    requires IsComparator(f) && Sorted(f, s)
    requires s != [] ==> Cmp(f, lo, s[0]) <= 0
    ensures forall y :: y in multiset(s) ==> Cmp(f, lo, y) <= 0
  {
    forall y | y in multiset(s)
      ensures Cmp(f, lo, y) <= 0
    {
      var i :| 0 <= i < |s| && s[i] == y;
      assert Transitive(f, lo, s[0], y);
    }
  }

  lemma {:induction false} MergeSorted(f: Compare, t: bool, a: seq<Ptr>, b: seq<Ptr>)
    requires IsComparator(f) && Sorted(f, a) && Sorted(f, b)
    ensures Sorted(f, Merge(f, t, a, b))
    decreases |a| + |b|
  {
    if a != [] && b != [] {
      if Cmp(f, a[0], b[0]) < 0 || (Cmp(f, a[0], b[0]) == 0 && !t) {
        MergeSorted(f, t, a[1..], b);
        MergePermutes(f, t, a[1..], b);
        HeadIsLeast(f, a[0], a[1..]);
        HeadIsLeast(f, a[0], b);
        SortedCons(f, a[0], Merge(f, t, a[1..], b));
      } else {
        assert Cmp(f, b[0], a[0]) <= 0;
        MergeSorted(f, t, a, b[1..]);
        MergePermutes(f, t, a, b[1..]);
        HeadIsLeast(f, b[0], a);
        HeadIsLeast(f, b[0], b[1..]);
        SortedCons(f, b[0], Merge(f, t, a, b[1..]));
      }
    }
  }

  /** A sorted run that starts strictly above `x` holds no element equal to `x`. */
  lemma {:induction false} NoTiesAbove(f: Compare, x: Ptr, s: seq<Ptr>)
    requires IsComparator(f) && Sorted(f, s)
    requires s != [] ==> Cmp(f, x, s[0]) < 0
    ensures Ties(f, x, s) == []
  {
    if s != [] {
      if |s| > 1 {
        assert Transitive(f, s[0], s[1], x);
        assert Cmp(f, s[0], x) > 0 && Cmp(f, s[0], s[1]) <= 0;
        assert Cmp(f, s[1], x) > 0;
      }
      NoTiesAbove(f, x, s[1..]);
    }
  }

  lemma TiesCons(f: Compare, x: Ptr, h: Ptr, s: seq<Ptr>)
    ensures Ties(f, x, [h] + s) == (if Cmp(f, x, h) == 0 then [h] else []) + Ties(f, x, s)
  {
    assert ([h] + s)[1..] == s;
  }

  /** If the head of one run goes strictly before the head of another, then an element equal to
      the former has no equal in the latter. */
  lemma TiedHeadExcludes(f: Compare, x: Ptr, h: Ptr, s: seq<Ptr>)
    requires IsComparator(f) && Sorted(f, s) && Cmp(f, x, h) == 0
    requires s != [] ==> Cmp(f, h, s[0]) < 0
    ensures Ties(f, x, s) == []
  {
    if s != [] {
      assert Transitive(f, s[0], x, h) && Cmp(f, s[0], h) > 0;
    }
    NoTiesAbove(f, x, s);
  }

  /** The ties of two runs put together, the second run going first when it wins ties. */
  function Together(t: bool, a: seq<Ptr>, b: seq<Ptr>): seq<Ptr> {
    if t then b + a else a + b
  }

  lemma PutFirst(t: bool, h: seq<Ptr>, a: seq<Ptr>, b: seq<Ptr>)
    requires t && h != [] ==> b == []
    ensures h + Together(t, a, b) == Together(t, h + a, b)
  {
  }

  lemma PutSecond(t: bool, h: seq<Ptr>, a: seq<Ptr>, b: seq<Ptr>)
    requires !t && h != [] ==> a == []
    ensures h + Together(t, a, b) == Together(t, a, h + b)
  {
  }

  lemma FirstTies(f: Compare, t: bool, x: Ptr, a: seq<Ptr>, b: seq<Ptr>, m: seq<Ptr>)
    requires IsComparator(f) && a != [] && Sorted(f, b)
    requires t && b != [] ==> Cmp(f, a[0], b[0]) < 0
    requires Ties(f, x, m) == Together(t, Ties(f, x, a[1..]), Ties(f, x, b))
    ensures Ties(f, x, [a[0]] + m) == Together(t, Ties(f, x, a), Ties(f, x, b))
  {
    hide Ties, Together, Sorted, IsComparator;
    TiesCons(f, x, a[0], m);
    TiesCons(f, x, a[0], a[1..]);
    assert a == [a[0]] + a[1..];
    if t && Cmp(f, x, a[0]) == 0 {
      TiedHeadExcludes(f, x, a[0], b);
    }
    PutFirst(t, if Cmp(f, x, a[0]) == 0 then [a[0]] else [], Ties(f, x, a[1..]), Ties(f, x, b));
  }

  lemma SecondTies(f: Compare, t: bool, x: Ptr, a: seq<Ptr>, b: seq<Ptr>, m: seq<Ptr>)
    requires IsComparator(f) && b != [] && Sorted(f, a)
    requires !t && a != [] ==> Cmp(f, b[0], a[0]) < 0
    requires Ties(f, x, m) == Together(t, Ties(f, x, a), Ties(f, x, b[1..]))
    ensures Ties(f, x, [b[0]] + m) == Together(t, Ties(f, x, a), Ties(f, x, b))
  {
    hide Ties, Together, Sorted, IsComparator;
    TiesCons(f, x, b[0], m);
    TiesCons(f, x, b[0], b[1..]);
    assert b == [b[0]] + b[1..];
    if !t && Cmp(f, x, b[0]) == 0 {
      TiedHeadExcludes(f, x, b[0], a);
    }
    PutSecond(t, if Cmp(f, x, b[0]) == 0 then [b[0]] else [], Ties(f, x, a), Ties(f, x, b[1..]));
  }

  /** On every class of equal elements a merge is a concatenation of the two runs. */
  lemma {:induction false} MergeTies(f: Compare, t: bool, x: Ptr, a: seq<Ptr>, b: seq<Ptr>)
    requires IsComparator(f) && Sorted(f, a) && Sorted(f, b)
    ensures Ties(f, x, Merge(f, t, a, b)) == Together(t, Ties(f, x, a), Ties(f, x, b))
    decreases |a| + |b|
  {
    if a == [] || b == [] {
      assert Ties(f, x, []) == [];
    } else if Cmp(f, a[0], b[0]) < 0 || (Cmp(f, a[0], b[0]) == 0 && !t) {
      MergeTies(f, t, x, a[1..], b);
      FirstTies(f, t, x, a, b, Merge(f, t, a[1..], b));
    } else {
      MergeTies(f, t, x, a, b[1..]);
      assert Cmp(f, b[0], a[0]) <= 0;
      SecondTies(f, t, x, a, b, Merge(f, t, a, b[1..]));
    }
  }

  /** Knowing the ties of every element fixes the multiset. */
  lemma {:induction false} TiesCount(f: Compare, x: Ptr, s: seq<Ptr>)
    requires IsComparator(f)
    ensures multiset(s)[x] == multiset(Ties(f, x, s))[x]
  {
    if s != [] {
      assert s == [s[0]] + s[1..];
      assert Cmp(f, x, x) == 0;
      TiesCount(f, x, s[1..]);
    }
  }

  lemma {:induction false} ReversedPermutes(s: seq<Ptr>)
    ensures multiset(Reversed(s)) == multiset(s)
    ensures |Reversed(s)| == |s|
  {
    if s != [] {
      assert s == [s[0]] + s[1..];
      ReversedPermutes(s[1..]);
    }
  }

  lemma StableSortPermutes(f: Compare, s: seq<Ptr>, r: seq<Ptr>)
    requires IsComparator(f)
    requires StableSortOf(f, s, r) || ReverseStableSortOf(f, s, r)
    ensures multiset(r) == multiset(s)
  {
    forall x
      ensures multiset(r)[x] == multiset(s)[x]
    {
      TiesCount(f, x, s);
      TiesCount(f, x, r);
      ReversedPermutes(Ties(f, x, s));
    }
  }

  /** Every class has the same number of elements in `a` as in `b`. */
  ghost predicate SameClassSizes(f: Compare, a: seq<Ptr>, b: seq<Ptr>) {
    forall x :: |Ties(f, x, a)| == |Ties(f, x, b)|
  }

  lemma TiesSplitAt(f: Compare, x: Ptr, s: seq<Ptr>, k: nat)
    requires k < |s|
    ensures Ties(f, x, s) == Ties(f, x, s[..k]) + (if Cmp(f, x, s[k]) == 0 then [s[k]] else []) + Ties(f, x, s[k + 1..])
  {
    assert s == s[..k] + s[k..];
    TiesConcat(f, x, s[..k], s[k..]);
    assert s[k..][1..] == s[k + 1..];
  }

  /** Taking one occurrence of the head of `a` out of both sides. */
  lemma PermutedRest(a: seq<Ptr>, b: seq<Ptr>) returns (k: nat)
    requires multiset(a) == multiset(b) && a != []
    ensures k < |b| && b[k] == a[0] && multiset(b[..k] + b[k + 1..]) == multiset(a[1..])
  {
    assert a[0] in multiset(b);
    k :| 0 <= k < |b| && b[k] == a[0];
    assert a == [a[0]] + a[1..];
    assert b == b[..k] + [b[k]] + b[k + 1..];
    assert multiset(b[..k] + b[k + 1..]) == multiset(b) - multiset{b[k]};
    assert multiset(a[1..]) == multiset(a) - multiset{a[0]};
  }

  lemma {:induction false} PermutationHasSameClassSizes(f: Compare, a: seq<Ptr>, b: seq<Ptr>)
    requires multiset(a) == multiset(b)
    ensures SameClassSizes(f, a, b)
  {
    if a == [] {
      assert |multiset(b)| == |b|;
    } else {
      var k := PermutedRest(a, b);
      var rest := b[..k] + b[k + 1..];
      PermutationHasSameClassSizes(f, a[1..], rest);
      forall x
        ensures |Ties(f, x, a)| == |Ties(f, x, b)|
      {
        TiesSplitAt(f, x, b, k);
        TiesConcat(f, x, b[..k], b[k + 1..]);
        assert |Ties(f, x, a[1..])| == |Ties(f, x, rest)|;
      }
    }
  }

  lemma TiesNonempty(f: Compare, x: Ptr, s: seq<Ptr>, k: nat)
    requires k < |s| && Cmp(f, x, s[k]) == 0
    ensures Ties(f, x, s) != []
  {
    TiesSplitAt(f, x, s, k);
  }

  lemma {:induction false} TiesMember(f: Compare, x: Ptr, s: seq<Ptr>) returns (k: nat)
    requires Ties(f, x, s) != []
    ensures k < |s| && Cmp(f, x, s[k]) == 0
  {
    if Cmp(f, x, s[0]) == 0 {
      k := 0;
    } else {
      k := TiesMember(f, x, s[1..]);
      k := k + 1;
    }
  }

  lemma MinimumFirst(f: Compare, a: seq<Ptr>, b: seq<Ptr>)
    requires IsComparator(f) && Sorted(f, b) && SameClassSizes(f, a, b) && a != []
    ensures b != [] && Cmp(f, b[0], a[0]) <= 0
  {
    assert Cmp(f, a[0], a[0]) == 0;
    TiesNonempty(f, a[0], a, 0);
    assert |Ties(f, a[0], a)| == |Ties(f, a[0], b)|;
    var k := TiesMember(f, a[0], b);
    assert Cmp(f, b[0], b[0]) == 0;
    assert Transitive(f, b[0], b[k], a[0]);
  }

  /** Two sorted sequences with the same class sizes agree position by position up to
      comparator equality, whatever algorithms produced them. */
  lemma {:induction false} SortedSequencesAgree(f: Compare, a: seq<Ptr>, b: seq<Ptr>)
    requires IsComparator(f) && Sorted(f, a) && Sorted(f, b) && SameClassSizes(f, a, b)
    ensures |a| == |b| && forall i :: 0 <= i < |a| ==> Cmp(f, a[i], b[i]) == 0
  {
    if a == [] {
      if b != [] {
        MinimumFirst(f, b, a);
      }
    } else {
      MinimumFirst(f, a, b);
      MinimumFirst(f, b, a);
      assert Cmp(f, a[0], b[0]) == 0;
      forall x
        ensures |Ties(f, x, a[1..])| == |Ties(f, x, b[1..])|
      {
        assert |Ties(f, x, a)| == |Ties(f, x, b)|;
        assert Cmp(f, x, a[0]) == 0 <==> Cmp(f, x, b[0]) == 0 by {
          assert Transitive(f, x, a[0], b[0]) && Transitive(f, x, b[0], a[0]);
          assert Transitive(f, b[0], a[0], x) && Transitive(f, a[0], b[0], x);
        }
      }
      SortedSequencesAgree(f, a[1..], b[1..]);
      forall i | 0 <= i < |a|
        ensures Cmp(f, a[i], b[i]) == 0
      {
        if i > 0 { assert a[i] == a[1..][i - 1] && b[i] == b[1..][i - 1]; }
      }
    }
  }

  /** A stable sort has exactly one result. */
  lemma {:induction false} StableSortUnique(f: Compare, a: seq<Ptr>, b: seq<Ptr>)
    requires IsComparator(f) && Sorted(f, a) && Sorted(f, b)
    requires forall x :: Ties(f, x, a) == Ties(f, x, b)
    ensures a == b
  {
    SortedSequencesAgree(f, a, b);
    if a != [] {
      assert Cmp(f, a[0], b[0]) == 0 && Cmp(f, a[0], a[0]) == 0;
      assert Ties(f, a[0], a)[0] == a[0];
      assert Ties(f, a[0], b)[0] == b[0];
      forall x
        ensures Ties(f, x, a[1..]) == Ties(f, x, b[1..])
      {
        assert Ties(f, x, a) == Ties(f, x, b);
        assert Transitive(f, x, a[0], b[0]) && Transitive(f, b[0], a[0], x);
        var d := if Cmp(f, x, a[0]) == 0 then 1 else 0;
        assert Ties(f, x, a[1..]) == Ties(f, x, a)[d..];
        assert Ties(f, x, b[1..]) == Ties(f, x, b)[d..];
      }
      StableSortUnique(f, a[1..], b[1..]);
      assert a == [a[0]] + a[1..] && b == [b[0]] + b[1..];
    }
  }
}
