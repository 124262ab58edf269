/** The cursor of an Ecore_List on plain sequences: the payloads in order and the index. The
    current item is the one at the index; an index past the end means there is none. */
module EcoreCursor {
  import opened Payloads
  import opened Sequences
  import opened Sorting
  import opened EcoreSort

  datatype Cursor = Cursor(items: seq<Ptr>, index: nat)

  datatype Op =
    | Append(x: Ptr)
    | Prepend(x: Ptr)
    | FirstRemove
    | LastRemove
    | Remove
    | Next
    | Goto(x: Ptr)
    | IndexGoto(i: int)
    | FirstGoto
    | LastGoto
    | Sort(compare: Compare, order: Direction, memory: bool)

  ghost predicate Allowed(op: Op) {
    op.Sort? ==> IsComparator(op.compare)
  }

  /** Where goto stops: at the payload or at a NULL one, whichever comes first. */
  function Stop(items: seq<Ptr>, x: Ptr): (k: nat)
    ensures k <= |items|
    ensures k < |items| ==> items[k] == x || items[k] == NULL
    ensures forall i :: 0 <= i < k ==> items[i] != x && items[i] != NULL
  {
    FirstWhere(items, y => y == x || y == NULL)
  }

  /** Where the walk to an index starts: at the cursor if that is not past it. */
  function Start(c: Cursor, i: nat): nat {
    if i < c.index then 0 else c.index
  }

  /** The steps of the walk end early at a NULL payload. */
  predicate Walkable(c: Cursor, i: nat) {
    i <= |c.items| ==> NULL !in c.items[Start(c, i)..i]
  }

  /** The operation leaves the cursor where it belongs. The two that walk to an index, the
      removal of an inner item being the other one, must not meet a NULL payload on the way. */
  predicate Reaches(op: Op, c: Cursor) {
    match op
    case IndexGoto(i) => 0 <= i ==> Walkable(c, i)
    case Remove => 0 < c.index < |c.items| - 1 ==> Walkable(c, c.index - 1)
    case _ => true
  }

  /** The first NULL payload on the way to index `i`. */
  function Obstacle(c: Cursor, i: nat): (j: nat)
    requires i <= |c.items| && !Walkable(c, i)
    ensures Start(c, i) <= j < i && c.items[j] == NULL && NULL !in c.items[Start(c, i)..j]
  {
    var s := Start(c, i);
    var k := IndexOf(c.items[s..i], NULL);
    assert forall j {:trigger c.items[s..s + k][j]} :: 0 <= j < k ==> c.items[s..s + k][j] == c.items[s..i][j];
    s + k
  }

  /** The walk ends at its goal or at the first NULL payload on the way. */
  lemma WalkEnds(c: Cursor, i: nat, j: nat)
    requires Start(c, i) <= j <= i <= |c.items| && NULL !in c.items[Start(c, i)..j] && (j < i ==> c.items[j] == NULL)
    ensures j == i <==> Walkable(c, i)
    ensures j < i ==> Obstacle(c, i) == j
  {
    var s := Start(c, i);
    if j < i {
      assert c.items[s..i][j - s] == NULL;
    }
  }

  lemma AtEnd(c: Cursor, i: int)
    requires c.items == [] || i < 0 || i > |c.items|
    ensures Reaches(IndexGoto(i), c)
  {
  }

  /** Removing the current item leaves the index, so the next item becomes current. */
  function Apply(op: Op, c: Cursor): Cursor
    requires Allowed(op)
  {
    var n := |c.items|;
    match op
    case Append(x) => Cursor(c.items + [x], if n == 0 then 1 else if c.index >= n then c.index + 1 else c.index)
    case Prepend(x) => Cursor([x] + c.items, c.index + 1)
    case FirstRemove => if n == 0 then c else Cursor(c.items[1..], if c.index == 0 then 0 else c.index - 1)
    case LastRemove => if n == 0 then c else c.(items := c.items[..n - 1])
    case Remove => if c.index >= n then c else c.(items := RemoveAt(c.items, c.index))
    case Next => if c.index >= n then c else c.(index := c.index + 1)
    case Goto(x) => if Stop(c.items, x) < n then c.(index := Stop(c.items, x)) else c
    case IndexGoto(i) => if n == 0 || i < 0 || i > n then c else c.(index := i)
    case FirstGoto => if n == 0 then c else c.(index := 0)
    case LastGoto => if n == 0 then c else c.(index := n - 1)
    case Sort(compare, order, memory) =>
      if n < 2 then c else Cursor(ListSort(compare, order, memory, c.items), 0)
  }

  /** The payload an operation returns, or NULL. */
  function Result(op: Op, c: Cursor): Ptr {
    var n := |c.items|;
    match op
    case FirstRemove => if n == 0 then NULL else c.items[0]
    case LastRemove => if n == 0 then NULL else c.items[n - 1]
    case Remove => if c.index >= n then NULL else c.items[c.index]
    case Next => if c.index >= n then NULL else c.items[c.index]
    case Goto(x) => if Stop(c.items, x) < n then c.items[Stop(c.items, x)] else NULL
    case IndexGoto(i) => if 0 <= i < n then c.items[i] else NULL
    case FirstGoto => if n == 0 then NULL else c.items[0]
    case LastGoto => if n == 0 then NULL else c.items[n - 1]
    case _ => NULL
  }

  ghost predicate NoNull(s: seq<Ptr>) {
    forall i :: 0 <= i < |s| ==> s[i] != NULL
  }

  /** The operation brings a NULL payload into the list. */
  predicate BringsNull(op: Op) {
    (op.Append? || op.Prepend?) && op.x == NULL
  }

  /** Without NULL payloads every operation leaves the cursor where it belongs, and only adding
      a NULL payload brings one in. */
  lemma NoNullKept(op: Op, c: Cursor)
    requires Allowed(op) && NoNull(c.items)
    ensures Reaches(op, c)
    ensures !BringsNull(op) ==> NoNull(Apply(op, c).items)
  {
    if op.Sort? && |c.items| >= 2 {
      var r := ListSort(op.compare, op.order, op.memory, c.items);
      ListSortSorts(op.compare, op.order, op.memory, c.items);
      forall i | 0 <= i < |r|
        ensures r[i] != NULL
      {
        assert r[i] in multiset(c.items);
      }
    }
  }

  function Steps(n: nat, c: Cursor): Cursor {
    if n == 0 then c else Steps(n - 1, Apply(Next, c))
  }

  /** What n calls of next return. */
  function Walk(n: nat, c: Cursor): seq<Ptr> {
    if n == 0 then [] else [Result(Next, c)] + Walk(n - 1, Apply(Next, c))
  }

  lemma {:induction false} WalkFrom(c: Cursor, k: nat)
    requires c.index + k <= |c.items|
    ensures Walk(k, c) == c.items[c.index..c.index + k]
    ensures Steps(k, c) == c.(index := c.index + k)
    decreases k
  {
    if k > 0 {
      WalkFrom(Apply(Next, c), k - 1);
    }
  }

  /** From the first item, next returns the payloads in order up to the first NULL, and NULL
      then: a loop that runs until next returns NULL sees the whole list exactly when no payload
      in it is NULL. */
  lemma WalkVisitsAll(c: Cursor)
    requires c.items != []
    ensures var start, k := Apply(FirstGoto, c), IndexOf(c.items, NULL);
            && Walk(k, start) == c.items[..k] && NULL !in Walk(k, start) && Result(Next, Steps(k, start)) == NULL
            && (k == |c.items| <==> NoNull(c.items))
  {
    WalkFrom(Apply(FirstGoto, c), IndexOf(c.items, NULL));
  }

  /** Goto finds what it looks for exactly when no NULL payload comes before it, and then leaves
      the index at its first occurrence. */
  lemma GotoFinds(c: Cursor, x: Ptr)
    requires x != NULL
    ensures Result(Goto(x), c) == x <==> x in c.items[..IndexOf(c.items, NULL)]
    ensures Result(Goto(x), c) == x ==> Apply(Goto(x), c) == c.(index := IndexOf(c.items, x))
    ensures Result(Goto(x), c) != x ==> Result(Goto(x), c) == NULL && Apply(Goto(x), c).index == (if NULL in c.items then IndexOf(c.items, NULL) else c.index)
  {
    var k, m := Stop(c.items, x), IndexOf(c.items, NULL);
    if k < m {
      assert c.items[..m][k] == x;
    }
  }

  // ----- How the operations go together -----

  /** What next would return without moving, NULL past the end. */
  function Current(c: Cursor): Ptr {
    if c.index < |c.items| then c.items[c.index] else NULL
  }

  /** Removing the first item undoes a prepend, wherever the cursor is. */
  lemma FirstRemoveUndoesPrepend(c: Cursor, x: Ptr)
    ensures var d := Apply(Prepend(x), c);
            Current(d) == Current(c) && Result(FirstRemove, d) == x && Apply(FirstRemove, d) == c
  {
    assert ([x] + c.items)[1..] == c.items;
  }

  /** Removing the last item undoes an append; a cursor past the end has moved on with it. */
  lemma LastRemoveUndoesAppend(c: Cursor, x: Ptr)
    ensures var d := Apply(Append(x), c);
            && Current(d) == Current(c) && Result(LastRemove, d) == x && Apply(LastRemove, d).items == c.items
            && (c.index < |c.items| ==> Apply(LastRemove, d) == c)
            && (c.index >= |c.items| ==> Apply(LastRemove, d).index >= |d.items|)
  {
    assert (c.items + [x])[..|c.items|] == c.items;
  }

  /** Taking off an end that is not current keeps the current item. */
  lemma RemovalsKeepCurrent(c: Cursor)
    ensures c.index > 0 ==> Current(Apply(FirstRemove, c)) == Current(c)
    ensures c.index + 1 != |c.items| ==> Current(Apply(LastRemove, c)) == Current(c)
    ensures c.items != [] && c.index == 0 ==> Current(Apply(FirstRemove, c)) == Result(Next, Apply(Next, c))
    ensures c.items != [] && c.index + 1 == |c.items| ==> Current(Apply(LastRemove, c)) == NULL
  {
  }

  /** Removing the current item returns what next would, and makes current what the next next
      would return. */
  lemma RemoveIsNextAndGone(c: Cursor)
    ensures Result(Remove, c) == Result(Next, c) == Current(c)
    ensures c.index < |c.items| ==>
              var d := Apply(Remove, c);
              Current(d) == Current(Apply(Next, c)) && multiset(d.items) + multiset{Current(c)} == multiset(c.items)
  {
    if c.index < |c.items| {
      assert c.items == c.items[..c.index] + [c.items[c.index]] + c.items[c.index + 1..];
    }
  }

  /** After the last item comes the end. */
  lemma LastThenEnd(c: Cursor)
    requires c.items != []
    ensures var d := Apply(LastGoto, c);
            && Result(LastGoto, c) == Result(Next, d) == c.items[|c.items| - 1]
            && Result(Next, Apply(Next, d)) == NULL && Apply(Next, Apply(Next, d)) == Apply(Next, d)
  {
  }

  /** Going to index i is going to the first item and i steps from there, also to one past the
      last. */
  lemma IndexGotoIsSteps(c: Cursor, i: nat)
    requires c.items != [] && i <= |c.items|
    ensures Apply(IndexGoto(i), c) == Steps(i, Apply(FirstGoto, c))
    ensures Result(IndexGoto(i), c) == Current(Steps(i, Apply(FirstGoto, c)))
  {
    WalkFrom(Apply(FirstGoto, c), i);
  }

  // ----- Runs -----

  ghost predicate AllAllowed(ops: seq<Op>) {
    forall i :: 0 <= i < |ops| ==> Allowed(ops[i])
  }

  ghost function Run(ops: seq<Op>, c: Cursor): Cursor
    requires AllAllowed(ops)
  {
    if ops == [] then c else Apply(ops[|ops| - 1], Run(ops[..|ops| - 1], c))
  }

  /** What the operations of a run return, in order. */
  ghost function Results(ops: seq<Op>, c: Cursor): seq<Ptr>
    requires AllAllowed(ops)
  {
    if ops == [] then []
    else Results(ops[..|ops| - 1], c) + [Result(ops[|ops| - 1], Run(ops[..|ops| - 1], c))]
  }

  lemma RunNext(ops: seq<Op>, k: nat, c: Cursor)
    requires AllAllowed(ops) && k < |ops|
    ensures Run(ops[..k + 1], c) == Apply(ops[k], Run(ops[..k], c))
    ensures Results(ops[..k + 1], c) == Results(ops[..k], c) + [Result(ops[k], Run(ops[..k], c))]
  {
    assert ops[..k + 1][..k] == ops[..k];
  }

  /** Every step of a run leaves the cursor where it belongs. */
  ghost predicate AllReach(ops: seq<Op>, c: Cursor)
    requires AllAllowed(ops)
  {
    forall k :: 0 <= k < |ops| ==> ReachesAt(ops, k, c)
  }

  ghost predicate ReachesAt(ops: seq<Op>, k: nat, c: Cursor)
    requires AllAllowed(ops) && k < |ops|
  {
    Reaches(ops[k], Run(ops[..k], c))
  }

  lemma ReachNone(c: Cursor)
    ensures AllReach([], c)
  {
  }

  lemma ReachNext(ops: seq<Op>, k: nat, c: Cursor)
    requires AllAllowed(ops) && k < |ops| && AllReach(ops[..k], c) && Reaches(ops[k], Run(ops[..k], c))
    ensures AllReach(ops[..k + 1], c)
  {
    hide Run, Reaches;
    var longer := ops[..k + 1];
    forall i | 0 <= i < |longer|
      ensures ReachesAt(longer, i, c)
    {
      assert longer[..i] == ops[..k][..i] || i == k;
      if i < k { assert ReachesAt(ops[..k], i, c); } else { assert longer[..k] == ops[..k]; }
    }
  }

  /** A run that never adds a NULL payload to a list without one is such a run. */
  lemma WithoutNullAllReach(ops: seq<Op>, c: Cursor)
    requires AllAllowed(ops) && NoNull(c.items) && forall k :: 0 <= k < |ops| ==> !BringsNull(ops[k])
    ensures AllReach(ops, c)
  {
    hide NoNull, Reaches;
    forall k | 0 <= k < |ops|
      ensures ReachesAt(ops, k, c)
    {
      StaysNoNull(ops, k, c);
      NoNullKept(ops[k], Run(ops[..k], c));
    }
  }

  lemma {:induction false} StaysNoNull(ops: seq<Op>, k: nat, c: Cursor)
    requires AllAllowed(ops) && NoNull(c.items) && k <= |ops| && forall i :: 0 <= i < |ops| ==> !BringsNull(ops[i])
    ensures NoNull(Run(ops[..k], c).items)
  {
    hide NoNull, BringsNull;
    if k > 0 {
      StaysNoNull(ops, k - 1, c);
      RunNext(ops, k - 1, c);
      NoNullKept(ops[k - 1], Run(ops[..k - 1], c));
    }
  }

  /** A NULL payload in front makes index_goto stop one short, with the next node current. */
  lemma NullStopsWalk()
    ensures var c := Cursor([NULL, 5, 7], 0); !Reaches(IndexGoto(2), c) && Obstacle(c, 2) == 0
  {
    var c := Cursor([NULL, 5, 7], 0);
    assert c.items[0..2][0] == NULL;
  }
}
