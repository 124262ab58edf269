/** Insertion, removal and moves on plain sequences: what the operations on linked lists do. */
module Sequences {
  function InsertAt<T>(s: seq<T>, k: nat, x: T): (r: seq<T>)
    requires k <= |s|
    ensures |r| == |s| + 1
    ensures forall i {:trigger r[i]} :: 0 <= i <= |s| ==> r[i] == if i < k then s[i] else if i == k then x else s[i - 1]
  {
    s[..k] + [x] + s[k..]
  }

  function RemoveAt<T>(s: seq<T>, k: nat): (r: seq<T>)
    requires k < |s|
    ensures |r| == |s| - 1
    ensures forall i {:trigger r[i]} :: 0 <= i < |r| ==> r[i] == if i < k then s[i] else s[i + 1]
  {
    s[..k] + s[k + 1..]
  }

  /** `s` with the element at `j` taken out and put back before the element at `i`. */
  function MoveTo<T>(s: seq<T>, i: nat, j: nat): (r: seq<T>)
    requires i <= j < |s|
    ensures |r| == |s|
    ensures forall k {:trigger r[k]} :: 0 <= k < |s| ==> r[k] == if k < i || k > j then s[k] else if k == i then s[j] else s[k - 1]
  {
    s[..i] + [s[j]] + s[i..j] + s[j + 1..]
  }

  /** Position of the first element that satisfies `p`, or the length when there is none. */
  function FirstWhere<T>(s: seq<T>, p: T -> bool): (k: nat)
    ensures k <= |s|
    ensures k < |s| ==> p(s[k])
    ensures forall i :: 0 <= i < k ==> !p(s[i])
  {
    if s == [] then 0 else if p(s[0]) then 0 else 1 + FirstWhere(s[1..], p)
  }

  /** Position of the first occurrence, or the length when there is none. */
  function IndexOf<T(==)>(s: seq<T>, x: T): (k: nat)
    ensures k <= |s|
    ensures k < |s| ==> s[k] == x
    ensures forall i :: 0 <= i < k ==> s[i] != x
  {
    FirstWhere(s, (y: T) => y == x)
  }

  ghost predicate Differ<T>(s: seq<T>, i: int, j: int) {
    0 <= i < |s| && 0 <= j < |s| && i != j ==> s[i] != s[j]
  }

  ghost predicate Distinct<T>(s: seq<T>) {
    forall i, j :: Differ(s, i, j)
  }

  lemma DistinctCons<T>(x: T, s: seq<T>)
    ensures Distinct([x] + s) <==> Distinct(s) && x !in s
  {
    var t := [x] + s;
    if Distinct(t) {
      forall i, j
        ensures Differ(s, i, j)
      {
        assert Differ(t, i + 1, j + 1);
      }
      forall i | 0 <= i < |s|
        ensures s[i] != x
      {
        assert Differ(t, 0, i + 1);
      }
    }
    if Distinct(s) && x !in s {
      forall i, j
        ensures Differ(t, i, j)
      {
        assert Differ(s, i - 1, j - 1);
      }
    }
  }

  lemma InsertDistinct<T>(s: seq<T>, k: nat, n: T)
    requires k <= |s| && Distinct(s) && n !in s
    ensures Distinct(InsertAt(s, k, n))
  {
    var t := InsertAt(s, k, n);
    forall i, j
      ensures Differ(t, i, j)
    {
      assert Differ(s, if i < k then i else i - 1, if j < k then j else j - 1);
    }
  }

  lemma RemoveDistinct<T>(s: seq<T>, k: nat)
    requires k < |s| && Distinct(s)
    ensures Distinct(RemoveAt(s, k))
  {
    var t := RemoveAt(s, k);
    forall i, j
      ensures Differ(t, i, j)
    {
      assert Differ(s, if i < k then i else i + 1, if j < k then j else j + 1);
    }
  }

  lemma MoveDistinct<T>(s: seq<T>, i: nat, j: nat)
    requires i <= j < |s| && Distinct(s)
    ensures Distinct(MoveTo(s, i, j))
  {
    var t := MoveTo(s, i, j);
    forall p, q
      ensures Differ(t, p, q)
    {
      assert Differ(s, if p < i || p > j then p else if p == i then j else p - 1,
                    if q < i || q > j then q else if q == i then j else q - 1);
    }
  }
}
