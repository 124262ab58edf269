/** Evas_Mempool: a chunked slab allocator. This module holds its abstract state, a list of
    chunks with their free lists, and what holds of every run; EvasMempoolHeap refines it. */
module EvasMempool {
  import opened Wrappers
  import opened Sequences

  datatype Chunk = Chunk(id: nat, free: seq<nat>)

  /** `nextId` is the identity of the next chunk the system allocator hands out. */
  datatype Pool = Pool(chunks: seq<Chunk>, nextId: nat)

  datatype Block = Block(chunk: nat, slot: nat)

  const EMPTY_POOL := Pool([], 0)

  predicate Full(c: Chunk) {
    c.free == []
  }

  /** Position of the first chunk with a free slot, or the number of chunks. */
  function FirstFree(chunks: seq<Chunk>): (k: nat)
    ensures k <= |chunks|
    ensures k < |chunks| ==> !Full(chunks[k])
    ensures forall i :: 0 <= i < k ==> Full(chunks[i])
  {
    FirstWhere(chunks, c => !Full(c))
  }

  function Find(chunks: seq<Chunk>, id: nat): (k: nat)
    ensures k <= |chunks|
    ensures k < |chunks| ==> chunks[k].id == id
    ensures forall i :: 0 <= i < k ==> chunks[i].id != id
  {
    FirstWhere(chunks, (c: Chunk) => c.id == id)
  }

  function ToFront(chunks: seq<Chunk>, k: nat): seq<Chunk>
    requires k < |chunks|
  {
    [chunks[k]] + chunks[..k] + chunks[k + 1..]
  }

  function Slots(n: nat): seq<nat> {
    seq(n, i => i)
  }

  /** The chunk list malloc takes its block from: the first chunk with room is moved to the
      front, and when there is none a fresh chunk is put there, if memory allows. */
  function WithRoom(p: Pool, n: nat, memory: bool): Pool {
    var k := FirstFree(p.chunks);
    if k < |p.chunks| then p.(chunks := ToFront(p.chunks, k))
    else if memory then Pool([Chunk(p.nextId, Slots(n))] + p.chunks, p.nextId + 1)
    else p
  }

  /** Taking the first free block of the first chunk, which goes last when that fills it. */
  function TakeBlock(chunks: seq<Chunk>): seq<Chunk>
    requires chunks != [] && !Full(chunks[0])
  {
    var c := chunks[0].(free := chunks[0].free[1..]);
    if Full(c) then chunks[1..] + [c] else [c] + chunks[1..]
  }

  function Malloc(p: Pool, n: nat, memory: bool): (Pool, Option<Block>) {
    var q := WithRoom(p, n, memory);
    if q.chunks == [] || Full(q.chunks[0]) then (p, None)
    else (q.(chunks := TakeBlock(q.chunks)), Some(Block(q.chunks[0].id, q.chunks[0].free[0])))
  }

  /** An emptied chunk is returned to the system, any other chunk moves to the front. */
  function Rearranged(chunks: seq<Chunk>, n: nat, k: nat): seq<Chunk>
    requires k < |chunks|
  {
    if |chunks[k].free| == n then chunks[..k] + chunks[k + 1..] else ToFront(chunks, k)
  }

  /** Giving a slot back to the chunk at position k. */
  function FreeAt(chunks: seq<Chunk>, n: nat, k: nat, slot: nat): seq<Chunk>
    requires k < |chunks|
  {
    Rearranged(chunks[k := chunks[k].(free := [slot] + chunks[k].free)], n, k)
  }

  /** A block that belongs to no chunk is ignored. */
  function Free(p: Pool, n: nat, b: Block): Pool {
    var k := Find(p.chunks, b.chunk);
    if k == |p.chunks| || b.slot >= n then p
    else p.(chunks := FreeAt(p.chunks, n, k, b.slot))
  }

  // ----- The invariant -----

  /** A chunk in the list has an acyclic free list of its own slots and at least one live block. */
  ghost predicate ChunkOk(c: Chunk, n: nat) {
    Distinct(c.free) && (forall s :: s in c.free ==> s < n) && |c.free| < n
  }

  /** Every chunk with a free slot precedes every full one. */
  ghost predicate RoomFirst(chunks: seq<Chunk>) {
    forall i, j :: 0 <= i < j < |chunks| && !Full(chunks[j]) ==> !Full(chunks[i])
  }

  ghost predicate DistinctIds(chunks: seq<Chunk>) {
    forall i, j :: 0 <= i < j < |chunks| ==> chunks[i].id != chunks[j].id
  }

  ghost predicate Inv(p: Pool, n: nat) {
    && n > 0
    && (forall i :: 0 <= i < |p.chunks| ==> ChunkOk(p.chunks[i], n) && p.chunks[i].id < p.nextId)
    && DistinctIds(p.chunks)
    && RoomFirst(p.chunks)
  }

  ghost predicate LiveIn(c: Chunk, n: nat, b: Block) {
    b.chunk == c.id && b.slot < n && b.slot !in c.free
  }

  ghost function Below(n: nat): (r: set<nat>)
    ensures forall s: nat :: s in r <==> s < n
    ensures |r| == n
  {
    if n == 0 then {} else Below(n - 1) + {n - 1}
  }

  /** The slots that are not on the free list. */
  ghost function Taken(free: seq<nat>, n: nat): set<nat> {
    set s | s in Below(n) && s !in free
  }

  ghost function LiveOf(c: Chunk, n: nat): set<Block> {
    set s | s in Taken(c.free, n) :: Block(c.id, s)
  }

  /** The blocks handed out and not yet freed. */
  ghost function Live(chunks: seq<Chunk>, n: nat): set<Block> {
    if chunks == [] then {} else LiveOf(chunks[0], n) + Live(chunks[1..], n)
  }

  /** The sum of the chunks' `usage` counters. */
  ghost function Usage(chunks: seq<Chunk>, n: nat): int {
    if chunks == [] then 0 else n - |chunks[0].free| + Usage(chunks[1..], n)
  }

  lemma {:induction false} LiveIff(chunks: seq<Chunk>, n: nat, b: Block)
    ensures b in Live(chunks, n) <==> exists c :: c in chunks && LiveIn(c, n, b)
  {
    if chunks != [] {
      LiveIff(chunks[1..], n, b);
      if c :| c in chunks && LiveIn(c, n, b) {
        assert c == chunks[0] || c in chunks[1..];
      }
      if b in LiveOf(chunks[0], n) {
        assert LiveIn(chunks[0], n, b);
      }
    }
  }

  /** Which blocks are live does not depend on the order of the chunks. */
  lemma LiveOfPermutation(a: seq<Chunk>, b: seq<Chunk>, n: nat)
    requires multiset(a) == multiset(b)
    ensures Live(a, n) == Live(b, n)
  {
    forall x
      ensures x in Live(a, n) <==> x in Live(b, n)
    {
      LiveIff(a, n, x);
      LiveIff(b, n, x);
      assert forall c :: c in a <==> c in multiset(a);
      assert forall c :: c in b <==> c in multiset(b);
    }
  }

  /** malloc's search stops at the first chunk or runs off the end of the list: the branch
      that takes a chunk out of the middle is never executed. */
  lemma SearchStopsAtFirst(p: Pool, n: nat)
    requires Inv(p, n)
    ensures FirstFree(p.chunks) == 0 || FirstFree(p.chunks) == |p.chunks|
  {
    var k := FirstFree(p.chunks);
    assert k < |p.chunks| ==> k == 0 || !Full(p.chunks[0]);
  }

  lemma TakenCons(x: nat, free: seq<nat>, n: nat)
    requires x !in free && x < n
    ensures Taken(free, n) == Taken([x] + free, n) + {x} && x !in Taken([x] + free, n)
  {
  }

  lemma {:induction false} TakenCount(free: seq<nat>, n: nat)
    requires Distinct(free) && forall s :: s in free ==> s < n
    ensures |Taken(free, n)| == n - |free|
  {
    if free == [] {
      assert Taken(free, n) == Below(n);
    } else {
      assert free == [free[0]] + free[1..] && free[0] in free;
      assert forall s :: s in free[1..] ==> s in free;
      DistinctCons<nat>(free[0], free[1..]);
      TakenCons(free[0], free[1..], n);
      TakenCount(free[1..], n);
    }
  }

  lemma {:induction false} BlocksOf(id: nat, slots: set<nat>)
    ensures |set s | s in slots :: Block(id, s)| == |slots|
  {
    var blocks := set s | s in slots :: Block(id, s);
    if slots != {} {
      var x :| x in slots;
      BlocksOf(id, slots - {x});
      assert blocks == (set s | s in slots - {x} :: Block(id, s)) + {Block(id, x)};
    } else {
      assert blocks == {};
    }
  }

  /** The usage counters add up to the number of live blocks. */
  lemma {:induction false} UsageIsLiveCount(chunks: seq<Chunk>, n: nat)
    requires DistinctIds(chunks) && forall i :: 0 <= i < |chunks| ==> ChunkOk(chunks[i], n)
    ensures |Live(chunks, n)| == Usage(chunks, n)
  {
    if chunks != [] {
      var c, rest := chunks[0], chunks[1..];
      UsageIsLiveCount(rest, n);
      TakenCount(c.free, n);
      BlocksOf(c.id, Taken(c.free, n));
      forall b | b in LiveOf(c, n)
        ensures b !in Live(rest, n)
      {
        LiveIff(rest, n, b);
      }
      assert LiveOf(c, n) !! Live(rest, n);
    }
  }

  // ----- Steps -----

  lemma TakeFromFirst(chunks: seq<Chunk>, n: nat)
    requires chunks != [] && !Full(chunks[0]) && DistinctIds(chunks)
    requires Distinct(chunks[0].free) && forall s :: s in chunks[0].free ==> s < n
    ensures var b := Block(chunks[0].id, chunks[0].free[0]);
            b !in Live(chunks, n) && Live(TakeBlock(chunks), n) == Live(chunks, n) + {b}
  {
    hide Distinct;
    var c, rest := chunks[0], chunks[1..];
    var c' := c.(free := c.free[1..]);
    var b := Block(c.id, c.free[0]);
    assert c.free == [c.free[0]] + c'.free && c.free[0] in c.free;
    DistinctCons<nat>(c.free[0], c'.free);
    TakenCons(c.free[0], c'.free, n);
    assert LiveOf(c', n) == LiveOf(c, n) + {b};
    LiveIff(rest, n, b);
    assert ([c'] + rest)[1..] == rest;
    if Full(c') {
      LiveOfPermutation([c'] + rest, rest + [c'], n);
    }
  }

  lemma FreshChunk(chunks: seq<Chunk>, n: nat, id: nat)
    ensures Live([Chunk(id, Slots(n))] + chunks, n) == Live(chunks, n)
  {
    var c := Chunk(id, Slots(n));
    forall s | s in Below(n)
      ensures s in c.free
    {
      assert c.free[s] == s;
    }
    assert Taken(c.free, n) == {};
    assert LiveOf(c, n) == {};
    assert ([c] + chunks)[1..] == chunks;
  }

  /** malloc keeps the invariant, returns a block that was not live, and makes exactly that
      block live; it fails only when there is no room and no memory. */
  lemma MallocStep(p: Pool, n: nat, memory: bool)
    requires Inv(p, n)
    ensures var (p', r) := Malloc(p, n, memory);
            && Inv(p', n)
            && (r == None ==> p' == p && !memory && forall i :: 0 <= i < |p.chunks| ==> Full(p.chunks[i]))
            && (r.Some? ==> r.value !in Live(p.chunks, n) && Live(p'.chunks, n) == Live(p.chunks, n) + {r.value})
  {
    SearchStopsAtFirst(p, n);
    var q := WithRoom(p, n, memory);
    if FirstFree(p.chunks) < |p.chunks| {
      assert ToFront(p.chunks, 0) == p.chunks;
      TakeFromFirst(q.chunks, n);
      TakeKeepsOrder(p, n);
    } else if memory {
      FreshChunk(p.chunks, n, p.nextId);
      var c := Chunk(p.nextId, Slots(n));
      assert forall s :: 0 <= s < n ==> Slots(n)[s] == s;
      TakeFromFirst(q.chunks, n);
      assert c.free[1..] == c.free[1..n];
      FreshKeepsInvariant(p, n);
    }
  }

  lemma TakeKeepsOrder(p: Pool, n: nat)
    requires Inv(p, n) && p.chunks != [] && !Full(p.chunks[0])
    ensures Inv(p.(chunks := TakeBlock(p.chunks)), n)
  {
    var free := p.chunks[0].free;
    var c' := p.chunks[0].(free := free[1..]);
    assert free == [free[0]] + free[1..];
    DistinctCons<nat>(free[0], free[1..]);
    assert forall s :: s in c'.free ==> s in free;
    assert ChunkOk(c', n);
  }

  lemma FreshKeepsInvariant(p: Pool, n: nat)
    requires Inv(p, n) && FirstFree(p.chunks) == |p.chunks|
    ensures Inv(Pool(TakeBlock([Chunk(p.nextId, Slots(n))] + p.chunks), p.nextId + 1), n)
  {
    var c' := Chunk(p.nextId, Slots(n)[1..]);
    assert ChunkOk(c', n);
    var all := [Chunk(p.nextId, Slots(n))] + p.chunks;
    assert all[1..] == p.chunks;
  }

  lemma FindLive(chunks: seq<Chunk>, n: nat, b: Block)
    requires DistinctIds(chunks) && b in Live(chunks, n)
    ensures var k := Find(chunks, b.chunk);
            k < |chunks| && LiveIn(chunks[k], n, b)
  {
    LiveIff(chunks, n, b);
    var c :| c in chunks && LiveIn(c, n, b);
    var i :| 0 <= i < |chunks| && chunks[i] == c;
  }

  /** Freeing a live block keeps the invariant, makes exactly that block dead, and never
      leaves an empty chunk behind. */
  lemma FreeStep(p: Pool, n: nat, b: Block)
    requires Inv(p, n) && b in Live(p.chunks, n)
    ensures Inv(Free(p, n, b), n)
    ensures Live(Free(p, n, b).chunks, n) == Live(p.chunks, n) - {b}
  {
    FindLive(p.chunks, n, b);
    var k := Find(p.chunks, b.chunk);
    PutBack(p.chunks[k], n, b);
    FreeAtLive(p, n, k, b);
    FreeKeepsInvariant(p, n, b);
  }

  lemma FreeAtLive(p: Pool, n: nat, k: nat, b: Block)
    requires Inv(p, n) && k < |p.chunks| && LiveIn(p.chunks[k], n, b)
    ensures Live(FreeAt(p.chunks, n, k, b.slot), n) == Live(p.chunks, n) - {b}
  {
    var c := p.chunks[k];
    var c' := c.(free := [b.slot] + c.free);
    var rest := p.chunks[..k] + p.chunks[k + 1..];
    assert p.chunks[k := c'][..k] + p.chunks[k := c'][k + 1..] == rest;
    LiveSplit(p.chunks, n, k);
    NotLiveElsewhere(p.chunks, n, k, b);
    PutBack(c, n, b);
    TakenCount(c'.free, n);
    if |c'.free| == n {
      assert LiveOf(c', n) == {};
    } else {
      assert FreeAt(p.chunks, n, k, b.slot) == [c'] + rest;
      assert ([c'] + rest)[1..] == rest;
    }
  }

  lemma LiveSplit(chunks: seq<Chunk>, n: nat, k: nat)
    requires k < |chunks|
    ensures Live(chunks, n) == LiveOf(chunks[k], n) + Live(chunks[..k] + chunks[k + 1..], n)
  {
    var c, rest := chunks[k], chunks[..k] + chunks[k + 1..];
    assert chunks == chunks[..k] + [c] + chunks[k + 1..];
    LiveOfPermutation(chunks, [c] + rest, n);
    assert ([c] + rest)[1..] == rest;
  }

  lemma NotLiveElsewhere(chunks: seq<Chunk>, n: nat, k: nat, b: Block)
    requires k < |chunks| && DistinctIds(chunks) && b.chunk == chunks[k].id
    ensures b !in Live(chunks[..k] + chunks[k + 1..], n)
  {
    var rest := chunks[..k] + chunks[k + 1..];
    LiveIff(rest, n, b);
    forall i | 0 <= i < |rest|
      ensures !LiveIn(rest[i], n, b)
    {
      assert rest[i] == chunks[if i < k then i else i + 1];
    }
  }

  lemma PutBack(c: Chunk, n: nat, b: Block)
    requires ChunkOk(c, n) && LiveIn(c, n, b)
    ensures var free: seq<nat> := [b.slot] + c.free;
            && LiveOf(c.(free := free), n) == LiveOf(c, n) - {b}
            && Distinct(free) && (forall s :: s in free ==> s < n)
  {
    DistinctCons<nat>(b.slot, c.free);
    TakenCons(b.slot, c.free, n);
  }

  lemma FreeKeepsInvariant(p: Pool, n: nat, b: Block)
    requires Inv(p, n) && b in Live(p.chunks, n)
    ensures Inv(Free(p, n, b), n)
  {
    FindLive(p.chunks, n, b);
    var k := Find(p.chunks, b.chunk);
    var c' := p.chunks[k].(free := [b.slot] + p.chunks[k].free);
    PutBack(p.chunks[k], n, b);
    TakenCount(c'.free, n);
    var rest := p.chunks[..k] + p.chunks[k + 1..];
    assert p.chunks[k := c'][..k] + p.chunks[k := c'][k + 1..] == rest;
    RestKeepsInvariant(p, n, k);
    if |c'.free| < n {
      assert ChunkOk(c', n);
      assert ToFront(p.chunks[k := c'], k) == [c'] + rest;
      FrontKeepsInvariant(p.(chunks := rest), n, c');
    }
  }

  lemma RestKeepsInvariant(p: Pool, n: nat, k: nat)
    requires Inv(p, n) && k < |p.chunks|
    ensures var rest := p.chunks[..k] + p.chunks[k + 1..];
            Inv(p.(chunks := rest), n) && forall i :: 0 <= i < |rest| ==> rest[i].id != p.chunks[k].id
  {
    var rest := p.chunks[..k] + p.chunks[k + 1..];
    assert forall i :: 0 <= i < |rest| ==> rest[i] == p.chunks[if i < k then i else i + 1];
  }

  lemma FrontKeepsInvariant(p: Pool, n: nat, c: Chunk)
    requires Inv(p, n) && ChunkOk(c, n) && c.id < p.nextId && !Full(c)
    requires forall i :: 0 <= i < |p.chunks| ==> p.chunks[i].id != c.id
    ensures Inv(p.(chunks := [c] + p.chunks), n)
  {
    var all := [c] + p.chunks;
    assert all[0] == c && forall i :: 0 < i < |all| ==> all[i] == p.chunks[i - 1];
  }

  /** The states, with the value of the pool's own usage counter, that the invariant allows. */
  ghost function SoundStates(n: nat): iset<(Pool, int)> {
    iset s: (Pool, int) | Inv(s.0, n) && s.1 == |Live(s.0.chunks, n)|
  }

  lemma SoundMalloc(p: Pool, usage: int, n: nat, memory: bool)
    requires (p, usage) in SoundStates(n)
    ensures var (p', r) := Malloc(p, n, memory);
            (p', if r == None then usage else usage + 1) in SoundStates(n)
  {
    MallocStep(p, n, memory);
  }

  lemma SoundFree(p: Pool, usage: int, n: nat, b: Block)
    requires (p, usage) in SoundStates(n) && b in Live(p.chunks, n)
    ensures (Free(p, n, b), usage - 1) in SoundStates(n)
  {
    FreeStep(p, n, b);
  }

  // ----- Runs -----

  datatype Op = DoMalloc(memory: bool) | DoFree(block: Block)

  function After(op: Op, p: Pool, n: nat): Pool {
    match op
    case DoMalloc(memory) => Malloc(p, n, memory).0
    case DoFree(b) => Free(p, n, b)
  }

  /** What the caller holds after a step, judged only by what malloc returned. */
  function OwnedAfter(op: Op, p: Pool, n: nat, owned: set<Block>): set<Block> {
    match op
    case DoMalloc(memory) =>
      var r := Malloc(p, n, memory).1;
      if r.Some? then owned + {r.value} else owned
    case DoFree(b) => owned - {b}
  }

  /** A caller frees only what it was given and has not freed yet. */
  ghost predicate ValidRun(ops: seq<Op>, p: Pool, n: nat, owned: set<Block>) {
    ops == [] ||
    ((ops[0].DoFree? ==> ops[0].block in owned) && ValidRun(ops[1..], After(ops[0], p, n), n, OwnedAfter(ops[0], p, n, owned)))
  }

  ghost function RunPool(ops: seq<Op>, p: Pool, n: nat): Pool {
    if ops == [] then p else RunPool(ops[1..], After(ops[0], p, n), n)
  }

  ghost function RunOwned(ops: seq<Op>, p: Pool, n: nat, owned: set<Block>): set<Block> {
    if ops == [] then owned else RunOwned(ops[1..], After(ops[0], p, n), n, OwnedAfter(ops[0], p, n, owned))
  }

  lemma StepOwns(op: Op, p: Pool, n: nat, owned: set<Block>)
    requires Inv(p, n) && Live(p.chunks, n) == owned && (op.DoFree? ==> op.block in owned)
    ensures Inv(After(op, p, n), n) && Live(After(op, p, n).chunks, n) == OwnedAfter(op, p, n, owned)
  {
    match op
    case DoMalloc(memory) => MallocStep(p, n, memory);
    case DoFree(b) => FreeStep(p, n, b);
  }

  lemma {:induction false} RunFrom(ops: seq<Op>, p: Pool, n: nat, owned: set<Block>)
    requires Inv(p, n) && Live(p.chunks, n) == owned && ValidRun(ops, p, n, owned)
    ensures Inv(RunPool(ops, p, n), n)
    ensures Live(RunPool(ops, p, n).chunks, n) == RunOwned(ops, p, n, owned)
  {
    hide Inv, Live, After, OwnedAfter;
    if ops != [] {
      StepOwns(ops[0], p, n, owned);
      RunFrom(ops[1..], After(ops[0], p, n), n, OwnedAfter(ops[0], p, n, owned));
    }
  }

  /** After every run of malloc and valid free on an empty pool: chunks with room come first,
      the live blocks are exactly those the caller holds, usage counts them, no empty chunk is
      kept, and when everything has been freed no chunk is left. */
  lemma EveryRun(ops: seq<Op>, n: nat)
    requires n > 0 && ValidRun(ops, EMPTY_POOL, n, {})
    ensures var p, owned := RunPool(ops, EMPTY_POOL, n), RunOwned(ops, EMPTY_POOL, n, {});
            && Inv(p, n)
            && Live(p.chunks, n) == owned
            && Usage(p.chunks, n) == |owned|
            && (FirstFree(p.chunks) == 0 || FirstFree(p.chunks) == |p.chunks|)
            && (owned == {} <==> p.chunks == [])
  {
    hide ValidRun, RunPool, RunOwned, Live, FirstFree, DistinctIds, RoomFirst;
    NothingLive(n);
    RunFrom(ops, EMPTY_POOL, n, {});
    var p := RunPool(ops, EMPTY_POOL, n);
    SearchStopsAtFirst(p, n);
    UsageIsLiveCount(p.chunks, n);
    SomeUsed(p, n);
    if p.chunks == [] { NothingLive(n); }
  }

  lemma NothingLive(n: nat)
    ensures Live([], n) == {} && (n > 0 ==> Inv(EMPTY_POOL, n))
  {
  }

  /** A chunk in the list has a block in use. */
  lemma SomeUsed(p: Pool, n: nat)
    requires Inv(p, n)
    ensures p.chunks != [] ==> Usage(p.chunks, n) > 0
    ensures p.chunks == [] ==> Usage(p.chunks, n) == 0
  {
    if p.chunks != [] {
      assert ChunkOk(p.chunks[0], n);
      RestKeepsInvariant(p, n, 0);
      assert p.chunks[..0] + p.chunks[0 + 1..] == p.chunks[1..];
      UsageIsLiveCount(p.chunks[1..], n);
    }
  }
}
