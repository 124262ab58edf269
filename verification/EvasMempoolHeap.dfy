/** Evas_Mempool on the heap: a doubly linked list of chunks, each threading its free list
    through the first word of its free slots. Every operation refines EvasMempool. */
module EvasMempoolHeap {
  import opened Wrappers
  import opened EvasMempool
  import opened Sequences

  /** The NULL that ends a free list. */
  const NIL := -1

  /** A chunk: its header, and the first word of each of its slots. A live slot belongs to the
      caller, so its word may hold anything. */
  class Header {
    var usage: int
    var base: int
    var words: seq<int>
    var prev: Header?
    var next: Header?
    ghost const id: nat
    ghost var free: seq<nat>

    constructor (words: seq<int>, ghost id: nat)
      ensures usage == base == 0 && this.words == words && prev == next == null
      ensures this.id == id && free == Slots(|words|)
    {
      usage, base, this.words, prev, next := 0, 0, words, null, null;
      this.id, free := id, Slots(|words|);
    }
  }

  // ----- Free lists -----

  /** The i-th free slot is in range and its word is the next free slot. */
  ghost predicate Thread(words: seq<int>, free: seq<nat>, i: int) {
    0 <= i < |free| ==>
      free[i] < |words| && words[free[i]] == if i + 1 < |free| then free[i + 1] else NIL
  }

  ghost predicate Threaded(words: seq<int>, base: int, free: seq<nat>, n: nat) {
    && |words| == n
    && base == (if free == [] then NIL else free[0])
    && (forall i :: Thread(words, free, i))
  }

  ghost predicate HeaderOk(h: Header, n: nat)
    reads h
  {
    Threaded(h.words, h.base, h.free, n) && h.usage == n - |h.free|
  }

  /** _evas_mp_pool_new threads all slots in order. */
  method PoolNew(n: nat, ghost id: nat) returns (p: Header)
    requires n > 0
    ensures fresh(p) && HeaderOk(p, n) && p.free == Slots(n) && p.id == id
  {
    var words := seq(n, _ => NIL);
    var ptr, i := 0, 0;
    while i < n - 1
      invariant 0 <= i <= n - 1 && ptr == i && |words| == n
      invariant forall j :: 0 <= j < i ==> words[j] == j + 1
    {
      words := words[ptr := ptr + 1];
      ptr := words[ptr];
      i := i + 1;
    }
    words := words[ptr := NIL];
    p := new Header(words, id);
  }

  lemma Unthread(words: seq<int>, base: int, free: seq<nat>, n: nat)
    requires Threaded(words, base, free, n) && free != []
    ensures 0 <= base < n && Threaded(words, words[base], free[1..], n)
  {
    assert Thread(words, free, 0);
    forall i
      ensures Thread(words, free[1..], i)
    {
      assert Thread(words, free, i + 1);
    }
  }

  lemma Rethread(words: seq<int>, base: int, free: seq<nat>, n: nat, slot: nat)
    requires Threaded(words, base, free, n) && slot < n && slot !in free
    ensures Threaded(words[slot := base], slot, [slot] + free, n)
  {
    var words', free' := words[slot := base], [slot] + free;
    forall i
      ensures Thread(words', free', i)
    {
      assert Thread(words, free, i - 1);
      if 0 < i < |free'| {
        assert free'[i] == free[i - 1] && free[i - 1] in free;
      }
    }
  }

  // ----- The list of chunks -----

  ghost function At(s: seq<Header>, i: int): Header? {
    if 0 <= i < |s| then s[i] else null
  }

  ghost predicate Linked(s: seq<Header>)
    reads s
  {
    && (forall i {:trigger s[i].prev} :: 0 <= i < |s| ==> s[i].prev == At(s, i - 1))
    && (forall i {:trigger s[i].next} :: 0 <= i < |s| ==> s[i].next == At(s, i + 1))
  }

  ghost predicate IsChunkList(first: Header?, last: Header?, s: seq<Header>)
    reads s
  {
    Distinct(s) && Linked(s) && first == At(s, 0) && last == At(s, |s| - 1)
  }

  ghost function Abs(s: seq<Header>): (c: seq<Chunk>)
    reads s
    ensures |c| == |s|
    ensures forall i {:trigger c[i]} {:trigger s[i].free} :: 0 <= i < |s| ==> c[i] == Chunk(s[i].id, s[i].free)
  {
    seq(|s|, i requires 0 <= i < |s| reads s => Chunk(s[i].id, s[i].free))
  }

  /** The list with its first chunk moved to the end. */
  ghost function Rotated<T>(s: seq<T>): (r: seq<T>)
    requires s != []
    ensures |r| == |s|
    ensures forall i {:trigger r[i]} :: 0 <= i < |r| ==> r[i] == if i == |s| - 1 then s[0] else s[i + 1]
  {
    s[1..] + [s[0]]
  }

  /** The links of the chunk at position i, which occurs nowhere else, and the ends. */
  lemma Neighbours(first: Header?, last: Header?, s: seq<Header>, i: int)
    requires IsChunkList(first, last, s)
    ensures 0 <= i < |s| ==> s[i].next == At(s, i + 1) && s[i].prev == At(s, i - 1)
    ensures forall j {:trigger s[j]} :: 0 <= j < |s| && 0 <= i < |s| && s[j] == s[i] ==> i == j
    ensures first == At(s, 0) && last == At(s, |s| - 1)
  {
    forall j | 0 <= j < |s| && 0 <= i < |s| && s[j] == s[i]
      ensures i == j
    {
      assert Differ(s, i, j);
    }
  }

  twostate lemma SameLinks(s: seq<Header>)
    requires old(IsChunkList(At(s, 0), At(s, |s| - 1), s))
    requires forall i {:trigger s[i].next} :: 0 <= i < |s| ==> s[i].next == old(s[i].next)
    requires forall i {:trigger s[i].prev} :: 0 <= i < |s| ==> s[i].prev == old(s[i].prev)
    ensures IsChunkList(At(s, 0), At(s, |s| - 1), s)
  {
  }

  lemma ConsDiffer(p: Header, s: seq<Header>)
    requires Distinct(s) && p !in s
    ensures Distinct([p] + s)
  {
    forall i, j
      ensures Differ([p] + s, i, j)
    {
      assert Differ(s, i - 1, j - 1);
    }
  }

  /** Lines 99-107: link a new chunk in front. */
  method PushFront(first0: Header?, last0: Header?, p: Header, ghost s: seq<Header>) returns (first: Header, last: Header)
    requires IsChunkList(first0, last0, s) && p !in s
    modifies s`prev, p`prev, p`next
    ensures IsChunkList(first, last, [p] + s)
  {
    Neighbours(first0, last0, s, 0);
    p.prev := null;
    p.next := first0;
    if p.next != null {
      p.next.prev := p;
    }
    last := if last0 == null then p else last0;
    first := p;
    ghost var t := [p] + s;
    forall i | 0 <= i < |t|
      ensures t[i].prev == At(t, i - 1) && t[i].next == At(t, i + 1)
    {
      if i > 0 {
        assert s[i - 1].next == At(s, i);
        assert s[i - 1] in s;
        assert i > 1 ==> s[i - 1].prev == At(s, i - 2);
      }
    }
    ConsDiffer(p, s);
  }

  /** Lines 112-125: a chunk that just filled up goes to the end of the list. */
  method SendLast(first0: Header, last0: Header, p: Header, ghost s: seq<Header>) returns (first: Header, last: Header)
    requires IsChunkList(first0, last0, s) && p == At(s, 0) && p.next != null
    modifies s`prev, s`next
    ensures IsChunkList(first, last, Rotated(s))
  {
    hide IsChunkList;
    Neighbours(first0, last0, s, 0);
    Neighbours(first0, last0, s, 1);
    Neighbours(first0, last0, s, |s| - 1);
    first := p.next;
    p.next.prev := p.prev;
    last0.next := p;
    p.prev := last0;
    p.next := null;
    last := p;
    forall i | 0 <= i < |s|
      ensures s[i].next == if i == 0 then null else if i == |s| - 1 then p else old(s[i].next)
      ensures s[i].prev == if i == 0 then last0 else if i == 1 then null else old(s[i].prev)
    {
    }
    RotatedIsChunkList(s);
  }

  twostate lemma RotatedIsChunkList(s: seq<Header>)
    requires |s| > 1 && old(IsChunkList(s[0], s[|s| - 1], s))
    requires forall i {:trigger s[i].next} :: 0 <= i < |s| ==>
               s[i].next == if i == 0 then null else if i == |s| - 1 then s[0] else old(s[i].next)
    requires forall i {:trigger s[i].prev} :: 0 <= i < |s| ==>
               s[i].prev == if i == 0 then s[|s| - 1] else if i == 1 then null else old(s[i].prev)
    ensures IsChunkList(s[1], s[0], Rotated(s))
  {
    RotatedLinks(s);
    forall i, j
      ensures Differ(Rotated(s), i, j)
    {
      assert Differ(s, if i == |s| - 1 then 0 else i + 1, if j == |s| - 1 then 0 else j + 1);
    }
  }

  twostate lemma RotatedLinks(s: seq<Header>)
    requires |s| > 1 && old(Linked(s))
    requires forall i {:trigger s[i].next} :: 0 <= i < |s| ==>
               s[i].next == if i == 0 then null else if i == |s| - 1 then s[0] else old(s[i].next)
    requires forall i {:trigger s[i].prev} :: 0 <= i < |s| ==>
               s[i].prev == if i == 0 then s[|s| - 1] else if i == 1 then null else old(s[i].prev)
    ensures Linked(Rotated(s))
  {
    var t := Rotated(s);
    forall k | 0 <= k < |t|
      ensures t[k].prev == At(t, k - 1) && t[k].next == At(t, k + 1)
    {
      var i := if k == |s| - 1 then 0 else k + 1;
      assert s[i].next == if i == 0 then null else if i == |s| - 1 then s[0] else old(s[i].next);
      assert s[i].prev == if i == 0 then s[|s| - 1] else if i == 1 then null else old(s[i].prev);
      assert old(s[i].next) == At(s, i + 1) && old(s[i].prev) == At(s, i - 1);
    }
  }

  /** Lines 158-168: an emptied chunk leaves the list. */
  method TakeOut(first0: Header, last0: Header, p: Header, ghost k: nat, ghost s: seq<Header>) returns (first: Header?, last: Header?)
    requires IsChunkList(first0, last0, s) && p == At(s, k)
    modifies s`prev, s`next
    ensures IsChunkList(first, last, RemoveAt(s, k))
  {
    hide IsChunkList;
    Neighbours(first0, last0, s, k);
    Neighbours(first0, last0, s, k - 1);
    Neighbours(first0, last0, s, k + 1);
    if p.prev != null {
      p.prev.next := p.next;
    }
    if p.next != null {
      p.next.prev := p.prev;
    }
    last := if last0 == p then p.prev else last0;
    first := if first0 == p then p.next else first0;
    forall i | 0 <= i < |s|
      ensures s[i].next == if i == k - 1 then At(s, k + 1) else old(s[i].next)
      ensures s[i].prev == if i == k + 1 then At(s, k - 1) else old(s[i].prev)
    {
    }
    WithoutIsChunkList(s, k);
  }

  twostate lemma WithoutIsChunkList(s: seq<Header>, new k: int)
    requires 0 <= k
    requires k < |s| && old(IsChunkList(s[0], s[|s| - 1], s))
    requires forall i {:trigger s[i].next} :: 0 <= i < |s| ==> s[i].next == if i == k - 1 then At(s, k + 1) else old(s[i].next)
    requires forall i {:trigger s[i].prev} :: 0 <= i < |s| ==> s[i].prev == if i == k + 1 then At(s, k - 1) else old(s[i].prev)
    ensures IsChunkList(if k == 0 then At(s, 1) else s[0], if k == |s| - 1 then At(s, k - 1) else s[|s| - 1], RemoveAt(s, k))
  {
    WithoutLinks(s, k);
    RemoveDistinct(s, k);
  }

  twostate lemma WithoutLinks(s: seq<Header>, new k: int)
    requires 0 <= k
    requires k < |s| && old(Linked(s))
    requires forall i {:trigger s[i].next} :: 0 <= i < |s| ==> s[i].next == if i == k - 1 then At(s, k + 1) else old(s[i].next)
    requires forall i {:trigger s[i].prev} :: 0 <= i < |s| ==> s[i].prev == if i == k + 1 then At(s, k - 1) else old(s[i].prev)
    ensures Linked(RemoveAt(s, k))
  {
    var t := RemoveAt(s, k);
    forall j | 0 <= j < |t|
      ensures t[j].prev == At(t, j - 1) && t[j].next == At(t, j + 1)
    {
      var i := if j < k then j else j + 1;
      assert s[i].next == if i == k - 1 then At(s, k + 1) else old(s[i].next);
      assert s[i].prev == if i == k + 1 then At(s, k - 1) else old(s[i].prev);
      assert old(s[i].next) == At(s, i + 1) && old(s[i].prev) == At(s, i - 1);
    }
  }

  /** Lines 174-184: a chunk that got a slot back moves to the front. */
  method MoveFirst(first0: Header, last0: Header, p: Header, ghost k: nat, ghost s: seq<Header>) returns (first: Header, last: Header)
    requires IsChunkList(first0, last0, s) && p == At(s, k) && k > 0
    modifies s`prev, s`next
    ensures IsChunkList(first, last, MoveTo(s, 0, k))
  {
    hide IsChunkList;
    Neighbours(first0, last0, s, k);
    Neighbours(first0, last0, s, k - 1);
    Neighbours(first0, last0, s, k + 1);
    Neighbours(first0, last0, s, 0);
    p.prev.next := p.next;
    if p.next != null {
      p.next.prev := p.prev;
    }
    last := if last0 == p then p.prev else last0;
    p.prev := null;
    p.next := first0;
    p.next.prev := p;
    first := p;
    forall i | 0 <= i < |s|
      ensures s[i].next == if i == k then s[0] else if i == k - 1 then At(s, k + 1) else old(s[i].next)
      ensures s[i].prev == if i == k then null else if i == 0 then p else if i == k + 1 then At(s, k - 1) else old(s[i].prev)
    {
    }
    FrontedIsChunkList(s, k);
  }

  twostate lemma FrontedIsChunkList(s: seq<Header>, new k: int)
    requires 0 < k
    requires k < |s| && old(IsChunkList(s[0], s[|s| - 1], s))
    requires forall i {:trigger s[i].next} :: 0 <= i < |s| ==>
               s[i].next == if i == k then s[0] else if i == k - 1 then At(s, k + 1) else old(s[i].next)
    requires forall i {:trigger s[i].prev} :: 0 <= i < |s| ==>
               s[i].prev == if i == k then null else if i == 0 then s[k] else if i == k + 1 then At(s, k - 1) else old(s[i].prev)
    ensures IsChunkList(s[k], if k == |s| - 1 then s[k - 1] else s[|s| - 1], MoveTo(s, 0, k))
  {
    FrontedLinks(s, k);
    MoveDistinct(s, 0, k);
  }

  twostate lemma FrontedLinks(s: seq<Header>, new k: int)
    requires 0 <= k
    requires 0 < k < |s| && old(Linked(s))
    requires forall i {:trigger s[i].next} :: 0 <= i < |s| ==>
               s[i].next == if i == k then s[0] else if i == k - 1 then At(s, k + 1) else old(s[i].next)
    requires forall i {:trigger s[i].prev} :: 0 <= i < |s| ==>
               s[i].prev == if i == k then null else if i == 0 then s[k] else if i == k + 1 then At(s, k - 1) else old(s[i].prev)
    ensures Linked(MoveTo(s, 0, k))
  {
    var t := MoveTo(s, 0, k);
    forall j | 0 <= j < |t|
      ensures t[j].prev == At(t, j - 1) && t[j].next == At(t, j + 1)
    {
      var i := if j == 0 then k else if j <= k then j - 1 else j;
      assert s[i].next == if i == k then s[0] else if i == k - 1 then At(s, k + 1) else old(s[i].next);
      assert s[i].prev == if i == k then null else if i == 0 then s[k] else if i == k + 1 then At(s, k - 1) else old(s[i].prev);
      assert old(s[i].next) == At(s, i + 1) && old(s[i].prev) == At(s, i - 1);
    }
  }

  /** Lines 78-88, malloc's branch for a chunk found further down. It forgets the chunk's
      successor: the list stays well-formed exactly when there is none. */
  method MoveFromMiddle(first0: Header, last0: Header, p: Header, ghost k: nat, ghost s: seq<Header>) returns (first: Header, last: Header)
    requires IsChunkList(first0, last0, s) && p == At(s, k) && k > 0
    modifies s`prev, s`next
    ensures IsChunkList(first, last, MoveTo(s, 0, k)) <==> k == |s| - 1
    ensures k < |s| - 1 ==> s[k + 1].prev == p
  {
    assert p.prev == At(s, k - 1) && p.next == At(s, k + 1);
    assert Differ(s, k, |s| - 1) && Differ(s, 0, k) && Differ(s, k - 1, k) && Differ(s, 0, k + 1) && Differ(s, k + 1, k);
    last := if last0 == p then p.prev else last0;
    p.prev.next := p.next;
    p.prev := null;
    p.next := first0;
    p.next.prev := p;
    first := p;
    forall i | 0 <= i < |s|
      ensures s[i].next == if i == k then s[0] else if i == k - 1 then At(s, k + 1) else old(s[i].next)
      ensures s[i].prev == if i == k then null else if i == 0 then p else old(s[i].prev)
    {
      assert Differ(s, i, k - 1) && Differ(s, i, 0) && Differ(s, i, k);
    }
    if k == |s| - 1 {
      FrontedLinks(s, k);
      MoveDistinct(s, 0, k);
    } else {
      ghost var t := MoveTo(s, 0, k);
      assert t[k + 1] == s[k + 1] && At(t, k) == s[k - 1];
      assert s[k + 1].prev == p && p != s[k - 1];
      assert t[k + 1].prev != At(t, k);
    }
  }

  // ----- Blocks of one chunk -----

  ghost predicate AllOk(s: seq<Header>, n: nat)
    reads s
  {
    forall i {:trigger s[i]} :: 0 <= i < |s| ==> HeaderOk(s[i], n)
  }

  /** Lines 110-111 and 127: the first free slot of a chunk becomes the caller's. */
  method TakeSlot(p: Header, ghost n: nat) returns (slot: nat)
    requires HeaderOk(p, n) && p.free != []
    modifies p`base, p`usage, p`free
    ensures HeaderOk(p, n) && slot == old(p.free[0]) && slot < n && p.free == old(p.free[1..])
  {
    Unthread(p.words, p.base, p.free, n);
    slot := p.base;
    p.base := p.words[slot];
    p.usage := p.usage + 1;
    p.free := p.free[1..];
  }

  /** Lines 152-154: a slot goes back to its chunk. */
  method ReturnSlot(p: Header, slot: nat, ghost n: nat)
    requires HeaderOk(p, n) && slot < n && slot !in p.free
    modifies p`base, p`usage, p`free, p`words
    ensures HeaderOk(p, n) && p.free == [slot] + old(p.free)
  {
    Rethread(p.words, p.base, p.free, n, slot);
    p.words := p.words[slot := p.base];
    p.base := slot;
    p.usage := p.usage - 1;
    p.free := [slot] + p.free;
  }

  /** The contents of the chunks, as opposed to their links, are as they were. */
  twostate predicate SameContents(s: seq<Header>)
    reads s
  {
    forall i {:trigger s[i]} :: 0 <= i < |s| ==>
      && s[i].free == old(s[i].free) && s[i].words == old(s[i].words)
      && s[i].base == old(s[i].base) && s[i].usage == old(s[i].usage)
  }

  twostate lemma RelinkedContents(s: seq<Header>, new n: int)
    requires 0 <= n
    requires old(AllOk(s, n)) && SameContents(s)
    ensures AllOk(s, n) && Abs(s) == old(Abs(s))
  {
    forall i | 0 <= i < |s|
      ensures HeaderOk(s[i], n) && Abs(s)[i] == old(Abs(s)[i])
    {
      assert old(HeaderOk(s[i], n));
    }
  }

  /** Lines 74-92: the search for a chunk with a free slot. */
  method FindRoom(first: Header?, last: Header?, n: nat, ghost s: seq<Header>) returns (p: Header?, ghost k: nat)
    requires IsChunkList(first, last, s) && AllOk(s, n)
    ensures k == FirstFree(Abs(s)) && p == At(s, k)
    ensures p != null ==> p.free != []
  {
    p, k := first, 0;
    while p != null && p.base == NIL
      invariant 0 <= k <= |s| && p == At(s, k)
      invariant forall i {:trigger Abs(s)[i]} :: 0 <= i < k ==> Full(Abs(s)[i])
      decreases |s| - k
    {
      assert HeaderOk(s[k], n);
      p := p.next;
      k := k + 1;
    }
    if p != null {
      assert HeaderOk(s[k], n);
    }
    FirstFreeAt(Abs(s), k);
  }

  lemma AbsCons(p: Header, s: seq<Header>)
    ensures Abs([p] + s) == [Chunk(p.id, p.free)] + Abs(s)
  {
  }

  lemma AbsRotated(s: seq<Header>)
    requires s != []
    ensures Abs(Rotated(s)) == Abs(s)[1..] + [Abs(s)[0]]
  {
  }

  lemma RotatedMembers(s: seq<Header>)
    requires s != []
    ensures s[0] in Rotated(s) && forall h :: h in Rotated(s) <==> h in s
  {
    var t := Rotated(s);
    assert t[|s| - 1] == s[0] && forall i :: 1 <= i < |s| ==> t[i - 1] == s[i];
  }

  lemma AbsFronted(s: seq<Header>, k: nat)
    requires k < |s|
    ensures Abs(MoveTo(s, 0, k)) == ToFront(Abs(s), k)
  {
  }

  lemma AbsWithout(s: seq<Header>, k: nat)
    requires k < |s|
    ensures Abs(RemoveAt(s, k)) == Abs(s)[..k] + Abs(s)[k + 1..]
  {
  }

  lemma {:induction false} FindAt(chunks: seq<Chunk>, k: nat)
    requires k < |chunks| && DistinctIds(chunks)
    ensures Find(chunks, chunks[k].id) == k
  {
    if k > 0 {
      FindAt(chunks[1..], k - 1);
    }
  }

  lemma FirstFreeAt(chunks: seq<Chunk>, k: nat)
    requires k <= |chunks| && (forall i :: 0 <= i < k ==> Full(chunks[i])) && (k < |chunks| ==> !Full(chunks[k]))
    ensures FirstFree(chunks) == k
  {
  }

  twostate lemma GotSlot(s: seq<Header>, new k: int, new n: int)
    requires 0 <= k && 0 <= n
    requires k < |s| && Distinct(s) && old(AllOk(s, n)) && HeaderOk(s[k], n)
    requires forall i {:trigger s[i]} :: 0 <= i < |s| && i != k ==> unchanged(s[i])
    ensures AllOk(s, n)
    ensures Abs(s) == old(Abs(s))[k := Chunk(s[k].id, s[k].free)]
  {
    forall i | 0 <= i < |s|
      ensures HeaderOk(s[i], n)
    {
      if i != k { assert old(HeaderOk(s[i], n)); }
    }
  }

  /** Lines 146-151: the chunk an address lies in. */
  method FindChunk(first: Header?, last: Header?, ptr: Header, ghost s: seq<Header>) returns (p: Header?, ghost k: nat)
    requires IsChunkList(first, last, s)
    ensures p == At(s, k) && (p != null ==> p == ptr) && (p == null <==> ptr !in s)
  {
    p, k := first, 0;
    while p != null && p != ptr
      invariant 0 <= k <= |s| && p == At(s, k)
      invariant forall i :: 0 <= i < k ==> s[i] != ptr
      decreases |s| - k
    {
      p := p.next;
      k := k + 1;
    }
  }

  /** Lines 110-111 and 127 on the whole list: the first chunk loses its first free slot. */
  method TakeFromFirst(first: Header, last: Header, p: Header, ghost n: nat, ghost s: seq<Header>) returns (slot: nat)
    requires IsChunkList(first, last, s) && AllOk(s, n) && p == At(s, 0) && p.free != []
    modifies p`base, p`usage, p`free
    ensures IsChunkList(first, last, s) && AllOk(s, n)
    ensures Abs(s) == old(Abs(s))[0 := Chunk(p.id, old(p.free[1..]))]
    ensures slot == old(p.free[0])
  {
    hide IsChunkList, Abs;
    assert HeaderOk(s[0], n);
    Neighbours(first, last, s, 0);
    slot := TakeSlot(p, n);
    assert forall i :: 0 < i < |s| ==> unchanged(s[i]);
    SameLinks(s);
    GotSlot(s, 0, n);
  }

  /** Lines 112-125: the first chunk goes last if it has just been filled. */
  method RetireFull(first0: Header, last0: Header, p: Header, ghost n: nat, ghost s: seq<Header>)
    returns (first: Header, last: Header, ghost t: seq<Header>)
    requires IsChunkList(first0, last0, s) && AllOk(s, n) && p == At(s, 0)
    modifies s`prev, s`next
    ensures IsChunkList(first, last, t) && AllOk(t, n)
    ensures Abs(t) == var a := old(Abs(s)); if Full(a[0]) then a[1..] + [a[0]] else a
    ensures p in t && forall h :: h in t <==> h in s
  {
    hide IsChunkList, Abs, Rotated;
    Neighbours(first0, last0, s, 0);
    assert HeaderOk(s[0], n);
    first, last, t := first0, last0, s;
    if p.base == NIL {
      if p.next != null {
        first, last := SendLast(first, last, p, s);
        RelinkedContents(s, n);
        AbsRotated(s);
        RotatedMembers(s);
        t := Rotated(s);
      }
    }
  }

  /** Lines 110-128: hand out the first free slot of the first chunk. */
  method TakeBlockOf(first0: Header, last0: Header, p: Header, ghost n: nat, ghost s: seq<Header>)
    returns (first: Header, last: Header, slot: nat, ghost t: seq<Header>)
    requires IsChunkList(first0, last0, s) && AllOk(s, n) && p == At(s, 0) && p.free != []
    modifies s
    ensures IsChunkList(first, last, t) && AllOk(t, n)
    ensures Abs(t) == TakeBlock(old(Abs(s)))
    ensures slot == old(p.free[0])
    ensures p in t && forall h :: h in t <==> h in s
  {
    hide IsChunkList, AllOk, Abs;
    ghost var was := Abs(s);
    slot := TakeFromFirst(first0, last0, p, n, s);
    assert was[0 := Abs(s)[0]][1..] == was[1..];
    first, last, t := RetireFull(first0, last0, p, n, s);
  }

  lemma KeptMembers(s: seq<Header>, k: nat)
    requires k < |s|
    ensures forall h :: h in RemoveAt(s, k) ==> h in s
    ensures forall h :: h in MoveTo(s, 0, k) ==> h in s
  {
  }

  /** Lines 156-186: the chunk that got a slot back leaves the list or moves to the front. */
  method Rearrange(first0: Header, last0: Header, p: Header, ghost n: nat, ghost k: nat, ghost s: seq<Header>)
    returns (first: Header?, last: Header?, ghost t: seq<Header>)
    requires IsChunkList(first0, last0, s) && AllOk(s, n) && p == At(s, k)
    modifies s`prev, s`next
    ensures IsChunkList(first, last, t) && AllOk(t, n)
    ensures Abs(t) == Rearranged(old(Abs(s)), n, k)
    ensures forall h :: h in t ==> h in s
  {
    hide IsChunkList, Abs, MoveTo, RemoveAt;
    assert HeaderOk(p, n) by { assert p == s[k]; }
    Neighbours(first0, last0, s, k);
    KeptMembers(s, k);
    first, last, t := first0, last0, s;
    if p.usage == 0 {
      first, last := TakeOut(first0, last0, p, k, s);
      RelinkedContents(s, n);
      AbsWithout(s, k);
      t := RemoveAt(s, k);
    } else if p.prev != null {
      first, last := MoveFirst(first0, last0, p, k, s);
      RelinkedContents(s, n);
      AbsFronted(s, k);
      t := MoveTo(s, 0, k);
    } else {
      assert ToFront(Abs(s), k) == Abs(s);
    }
  }

  method FreeIn(first0: Header, last0: Header, p: Header, slot: nat, ghost n: nat, ghost k: nat, ghost s: seq<Header>)
    returns (first: Header?, last: Header?, ghost t: seq<Header>)
    requires IsChunkList(first0, last0, s) && AllOk(s, n) && p == At(s, k) && slot < n && slot !in p.free
    modifies s
    ensures IsChunkList(first, last, t) && AllOk(t, n)
    ensures Abs(t) == FreeAt(old(Abs(s)), n, k, slot)
    ensures forall h :: h in t ==> h in s
  {
    assert HeaderOk(p, n) by { assert p == s[k]; }
    ReturnSlot(p, slot, n);
    forall i | 0 <= i < |s| && i != k
      ensures unchanged(s[i])
    {
      assert Differ(s, k, i);
    }
    GotSlot(s, k, n);
    first, last, t := Rearrange(first0, last0, p, n, k, s);
  }

  /** Lines 93-108: a fresh chunk in front. */
  method Grow(first0: Header?, last0: Header?, n: nat, ghost id: nat, ghost s: seq<Header>)
    returns (first: Header, last: Header, p: Header)
    requires IsChunkList(first0, last0, s) && AllOk(s, n) && n > 0
    modifies s`prev, s`next
    ensures fresh(p) && IsChunkList(first, last, [p] + s) && AllOk([p] + s, n)
    ensures Abs([p] + s) == [Chunk(id, Slots(n))] + old(Abs(s))
    ensures p.free == Slots(n) && p.id == id
  {
    p := PoolNew(n, id);
    first, last := PushFront(first0, last0, p, s);
    RelinkedContents(s, n);
    AbsCons(p, s);
  }

  lemma SomeSlots(p: Pool, n: nat)
    requires Inv(p, n)
    ensures n > 0
  {
  }

  lemma MallocIs(p: Pool, n: nat, memory: bool, q: Pool)
    requires q == WithRoom(p, n, memory) && q.chunks != [] && !Full(q.chunks[0])
    ensures EvasMempool.Malloc(p, n, memory) ==
            (q.(chunks := TakeBlock(q.chunks)), Some(Block(q.chunks[0].id, q.chunks[0].free[0])))
  {
  }

  lemma MallocFails(p: Pool, n: nat, memory: bool, q: Pool)
    requires q == WithRoom(p, n, memory) && (q.chunks == [] || Full(q.chunks[0])) && n > 0
    ensures EvasMempool.Malloc(p, n, memory) == (p, None) && q == p
  {
  }

  /** The chunk malloc takes its block from: the branch for a chunk further down is dead. */
  method ChunkWithRoom(first0: Header?, last0: Header?, n: nat, memory: bool, ghost id0: nat, ghost s: seq<Header>)
    returns (first: Header?, last: Header?, p: Header?, ghost t: seq<Header>, ghost id: nat)
    requires IsChunkList(first0, last0, s) && AllOk(s, n) && Inv(Pool(Abs(s), id0), n)
    modifies s`prev, s`next
    ensures IsChunkList(first, last, t) && AllOk(t, n)
    ensures Pool(Abs(t), id) == WithRoom(Pool(old(Abs(s)), id0), n, memory)
    ensures t != [] ==> first != null && last != null
    ensures p != null ==> p == At(t, 0) && p.free != []
    ensures p == null ==> t == s && (Abs(t) == [] || Full(Abs(t)[0]))
    ensures t == s || (p != null && fresh(p) && t == [p] + s)
  {
    hide IsChunkList, AllOk, HeaderOk, Inv, Abs;
    SomeSlots(Pool(Abs(s), id0), n);
    first, last, t, id := first0, last0, s, id0;
    ghost var k;
    p, k := FindRoom(first, last, n, s);
    SearchStopsAtFirst(Pool(Abs(s), id0), n);
    Neighbours(first, last, s, k);
    if p != null && p.prev != null {
      assert false;  // the branch MoveFromMiddle
    }
    if p != null {
      assert ToFront(Abs(s), 0) == Abs(s);
    } else if memory {
      first, last, p := Grow(first, last, n, id0, s);
      t, id := [p] + s, id0 + 1;
    }
  }

  /** evas_mempool_malloc on the chunk list. */
  method MallocBlock(first0: Header?, last0: Header?, n: nat, memory: bool, ghost id0: nat, ghost s: seq<Header>)
    returns (first: Header?, last: Header?, p: Header?, slot: nat, ghost t: seq<Header>, ghost id: nat)
    requires IsChunkList(first0, last0, s) && AllOk(s, n) && Inv(Pool(Abs(s), id0), n)
    modifies s
    ensures IsChunkList(first, last, t) && AllOk(t, n)
    ensures EvasMempool.Malloc(Pool(old(Abs(s)), id0), n, memory).0 == Pool(Abs(t), id)
    ensures EvasMempool.Malloc(Pool(old(Abs(s)), id0), n, memory).1 == if p == null then None else Some(Block(p.id, slot))
    ensures p != null ==> p in t
    ensures (forall h :: h in t ==> h in s || fresh(h)) && forall h :: h in s ==> h in t
  {
    hide IsChunkList, AllOk, Inv, WithRoom, TakeBlock, EvasMempool.Malloc, Abs;
    SomeSlots(Pool(Abs(s), id0), n);
    slot := 0;
    ghost var was := Pool(Abs(s), id0);
    first, last, p, t, id := ChunkWithRoom(first0, last0, n, memory, id0, s);
    ghost var q := Pool(Abs(t), id);
    if p == null {
      MallocFails(was, n, memory, q);
      return;
    }
    assert q.chunks[0] == Chunk(p.id, p.free);
    MallocIs(was, n, memory, q);
    first, last, slot, t := TakeBlockOf(first, last, p, n, t);
  }

  method StoreWord(p: Header, slot: nat, word: int, ghost k: nat, ghost n: nat, ghost first: Header?, ghost last: Header?, ghost s: seq<Header>)
    requires IsChunkList(first, last, s) && AllOk(s, n) && p == At(s, k) && slot < n && slot !in p.free
    modifies p`words
    ensures IsChunkList(first, last, s) && AllOk(s, n) && Abs(s) == old(Abs(s))
  {
    assert HeaderOk(p, n) by { assert p == s[k]; }
    StoredWord(p.words, p.base, p.free, n, slot, word);
    p.words := p.words[slot := word];
    forall i | 0 <= i < |s| && i != k
      ensures unchanged(s[i])
    {
      assert Differ(s, k, i);
    }
    GotSlot(s, k, n);
  }

  // ----- The pool -----

  class Mempool {
    const poolSize: nat
    var usage: int
    var first: Header?
    var last: Header?
    ghost var chunks: seq<Header>
    ghost var nextId: nat

    ghost function State(): Pool
      reads this, chunks
    {
      Pool(Abs(chunks), nextId)
    }

    ghost predicate Valid()
      reads this, chunks
    {
      && IsChunkList(first, last, chunks)
      && AllOk(chunks, poolSize)
      && (State(), usage) in SoundStates(poolSize)
    }

    constructor (poolSize: nat)
      requires poolSize > 0
      ensures Valid() && State() == EMPTY_POOL && this.poolSize == poolSize && chunks == []
    {
      this.poolSize := poolSize;
      usage, first, last, chunks, nextId := 0, null, null, [], 0;
    }

    /** Store the pool's new list ends and usage counter. */
    method Install(newFirst: Header?, newLast: Header?, newUsage: int, ghost t: seq<Header>, ghost id: nat)
      requires IsChunkList(newFirst, newLast, t) && AllOk(t, poolSize)
      requires (Pool(Abs(t), id), newUsage) in SoundStates(poolSize)
      modifies this
      ensures Valid() && chunks == t && State() == Pool(old(Abs(t)), id)
    {
      first, last, usage := newFirst, newLast, newUsage;
      chunks, nextId := t, id;
      assert Abs(t) == old(Abs(t));
    }

    /** evas_mempool_malloc. */
    method Malloc(memory: bool) returns (p: Header?, slot: nat)
      requires Valid()
      modifies this, chunks
      ensures Valid()
      ensures State() == EvasMempool.Malloc(old(State()), poolSize, memory).0
      ensures EvasMempool.Malloc(old(State()), poolSize, memory).1 == if p == null then None else Some(Block(p.id, slot))
      ensures p != null ==> p in chunks
      ensures (forall h :: h in chunks ==> h in old(chunks) || fresh(h)) && forall h :: h in old(chunks) ==> h in chunks
    {
      ghost var was := State();
      SoundMalloc(was, usage, poolSize, memory);
      var newFirst, newLast;
      ghost var t, id;
      newFirst, newLast, p, slot, t, id := MallocBlock(first, last, poolSize, memory, nextId, chunks);
      Install(newFirst, newLast, if p == null then usage else usage + 1, t, id);
    }

    /** evas_mempool_free, for a live block of this pool or an address in none of its chunks. */
    method Free(ptr: Header, slot: nat)
      requires Valid() && (ptr in chunks ==> Block(ptr.id, slot) in Live(State().chunks, poolSize))
      modifies this, chunks
      ensures Valid()
      ensures State() == if ptr in old(chunks) then EvasMempool.Free(old(State()), poolSize, Block(ptr.id, slot)) else old(State())
      ensures forall h :: h in chunks ==> h in old(chunks)
    {
      ghost var k;
      var p;
      p, k := FindChunk(first, last, ptr, chunks);
      if p == null {
        return;
      }
      ghost var was, b := State(), Block(p.id, slot);
      SoundFree(was, usage, poolSize, b);
      FindAt(was.chunks, k);
      FindLive(was.chunks, poolSize, b);
      var newFirst, newLast;
      ghost var t;
      newFirst, newLast, t := FreeIn(first, last, p, slot, poolSize, k, chunks);
      assert EvasMempool.Free(was, poolSize, b) == Pool(Abs(t), nextId);
      Install(newFirst, newLast, usage - 1, t, nextId);
    }

    /** The caller may write anything into a block it holds. */
    method Store(p: Header, slot: nat, word: int)
      requires Valid() && p in chunks && Block(p.id, slot) in Live(State().chunks, poolSize)
      modifies chunks
      ensures Valid() && State() == old(State())
    {
      ghost var k :| 0 <= k < |chunks| && chunks[k] == p;
      FindAt(Abs(chunks), k);
      FindLive(Abs(chunks), poolSize, Block(p.id, slot));
      StoreWord(p, slot, word, k, poolSize, first, last, chunks);
    }
  }

  lemma StoredWord(words: seq<int>, base: int, free: seq<nat>, n: nat, slot: nat, word: int)
    requires Threaded(words, base, free, n) && slot < n && slot !in free
    ensures Threaded(words[slot := word], base, free, n)
  {
    var words' := words[slot := word];
    forall i
      ensures Thread(words', free, i)
    {
      assert Thread(words, free, i);
      if 0 <= i < |free| { assert free[i] in free; }
    }
  }
}
