/** Evas_Mempool over whole runs on its linked chunks: scripts of malloc, free and stores, in
    which the caller names what earlier steps returned. */
module EvasMempoolRuns {
  import opened Wrappers
  import opened EvasMempool
  import opened EvasMempoolHeap

  /** A step of a script: allocate, give back what step `step` returned, or write into it. */
  datatype Call = Alloc(memory: bool) | Release(step: nat) | Write(step: nat, word: int)

  /** What a step returned: the address of a slot, or NULL. */
  datatype Piece = Nothing | Piece(header: Header, slot: nat)

  ghost function BlockOf(p: Piece): Block
    requires p.Piece?
  {
    Block(p.header.id, p.slot)
  }

  predicate ReleasedBefore(calls: seq<Call>, j: int, k: nat)
    requires k <= |calls|
  {
    exists i :: 0 <= i < k && calls[i].Release? && calls[i].step == j
  }

  /** Every step gives back or writes to what an earlier allocation returned and no step in
      between has given back. */
  predicate ValidScript(calls: seq<Call>) {
    forall k :: 0 <= k < |calls| && !calls[k].Alloc? ==>
      calls[k].step < k && calls[calls[k].step].Alloc? && !ReleasedBefore(calls, calls[k].step, k)
  }

  /** The steps whose slots the caller holds after the first |out| steps. */
  ghost function Held(calls: seq<Call>, out: seq<Piece>): set<int>
    requires |out| <= |calls|
  {
    set j | 0 <= j < |out| && out[j].Piece? && !ReleasedBefore(calls, j, |out|)
  }

  ghost predicate AllPieces(out: seq<Piece>, held: set<int>) {
    forall j :: j in held ==> 0 <= j < |out| && out[j].Piece?
  }

  ghost function BlocksOf(out: seq<Piece>, held: set<int>): set<Block>
    requires AllPieces(out, held)
  {
    set j | j in held :: BlockOf(out[j])
  }

  ghost predicate Differing(out: seq<Piece>, held: set<int>)
    requires AllPieces(out, held)
  {
    forall i, j :: i in held && j in held && i != j ==> BlockOf(out[i]) != BlockOf(out[j])
  }

  /** The slots held are distinct, and they are the live ones. */
  ghost predicate OwnsExactly(out: seq<Piece>, held: set<int>, live: set<Block>) {
    AllPieces(out, held) && BlocksOf(out, held) == live && |held| == |live| && Differing(out, held)
  }

  /** What a call is to the plain pool; giving back NULL and writing do nothing to it. */
  ghost function PlainCall(call: Call, out: seq<Piece>): seq<Op> {
    match call
    case Alloc(memory) => [DoMalloc(memory)]
    case Release(j) => if j < |out| && out[j].Piece? then [DoFree(BlockOf(out[j]))] else []
    case Write(_, _) => []
  }

  /** The first `k` steps as a run on the plain pool. */
  ghost function Plain(calls: seq<Call>, out: seq<Piece>, k: nat): seq<Op>
    requires k <= |out| <= |calls|
  {
    if k == 0 then [] else Plain(calls, out, k - 1) + PlainCall(calls[k - 1], out)
  }

  lemma {:induction false} PlainBefore(calls: seq<Call>, out: seq<Piece>, p: Piece, k: nat)
    requires ValidScript(calls) && k <= |out| < |calls|
    ensures Plain(calls, out + [p], k) == Plain(calls, out, k)
  {
    if k > 0 {
      PlainBefore(calls, out, p, k - 1);
    }
  }

  // ----- Longer runs of the plain pool -----

  lemma {:induction false} RunAppend(ops: seq<Op>, op: Op, p: Pool, n: nat, owned: set<Block>)
    requires ValidRun(ops, p, n, owned)
    ensures var q, held := RunPool(ops, p, n), RunOwned(ops, p, n, owned);
            && RunPool(ops + [op], p, n) == After(op, q, n)
            && RunOwned(ops + [op], p, n, owned) == OwnedAfter(op, q, n, held)
            && (ValidRun(ops + [op], p, n, owned) <==> (op.DoFree? ==> op.block in held))
  {
    hide After, OwnedAfter;
    if ops == [] {
      assert ops + [op] == [op] && [op][1..] == [];
    } else {
      assert (ops + [op])[1..] == ops[1..] + [op];
      RunAppend(ops[1..], op, After(ops[0], p, n), n, OwnedAfter(ops[0], p, n, owned));
    }
  }

  // ----- What the caller holds -----

  lemma AllocHeld(calls: seq<Call>, out: seq<Piece>, p: Piece)
    requires ValidScript(calls) && |out| < |calls| && calls[|out|].Alloc?
    ensures Held(calls, out + [p]) == if p.Piece? then Held(calls, out) + {|out|} else Held(calls, out)
  {
    var k, out' := |out|, out + [p];
    forall j
      ensures 0 <= j <= k ==> (ReleasedBefore(calls, j, k + 1) <==> ReleasedBefore(calls, j, k))
    {
    }
    assert !ReleasedBefore(calls, k, k);
    forall j
      ensures j in Held(calls, out') <==> j in Held(calls, out) || (p.Piece? && j == k)
    {
    }
  }

  lemma ReleaseHeld(calls: seq<Call>, out: seq<Piece>)
    requires ValidScript(calls) && |out| < |calls| && !calls[|out|].Alloc?
    ensures Held(calls, out + [Nothing]) == if calls[|out|].Release? then Held(calls, out) - {calls[|out|].step} else Held(calls, out)
    ensures out[calls[|out|].step].Piece? ==> calls[|out|].step in Held(calls, out)
  {
    var k, out' := |out|, out + [Nothing];
    forall j
      ensures ReleasedBefore(calls, j, k + 1) <==> ReleasedBefore(calls, j, k) || (calls[k].Release? && j == calls[k].step)
    {
    }
    forall j
      ensures j in Held(calls, out') <==> j in Held(calls, out) && !(calls[k].Release? && j == calls[k].step)
    {
    }
  }

  lemma OwnsMore(out: seq<Piece>, p: Piece, held: set<int>, live: set<Block>)
    requires OwnsExactly(out, held, live)
    ensures OwnsExactly(out + [p], held, live)
  {
    var out' := out + [p];
    assert forall j :: j in held ==> out'[j] == out[j];
    assert BlocksOf(out', held) == BlocksOf(out, held);
  }

  lemma StillDiffering(out: seq<Piece>, held: set<int>, k: int)
    requires AllPieces(out, held + {k}) && AllPieces(out, held) && Differing(out, held)
    requires forall j {:trigger j in held} :: j in held ==> BlockOf(out[j]) != BlockOf(out[k])
    ensures Differing(out, held + {k})
  {
  }

  lemma OwnsAdded(out: seq<Piece>, held: set<int>, k: int, live: set<Block>)
    requires OwnsExactly(out, held, live) && 0 <= k < |out| && out[k].Piece? && k !in held && BlockOf(out[k]) !in live
    ensures OwnsExactly(out, held + {k}, live + {BlockOf(out[k])})
  {
    hide Differing;
    var held' := held + {k};
    assert forall j {:trigger j in held} :: j in held ==> BlockOf(out[j]) in live;
    assert BlocksOf(out, held') == live + {BlockOf(out[k])};
    StillDiffering(out, held, k);
  }

  lemma OwnsRemoved(out: seq<Piece>, held: set<int>, k: int, live: set<Block>)
    requires OwnsExactly(out, held, live) && k in held
    ensures BlockOf(out[k]) in live && OwnsExactly(out, held - {k}, live - {BlockOf(out[k])})
  {
    assert BlockOf(out[k]) in BlocksOf(out, held);
    assert BlocksOf(out, held - {k}) == live - {BlockOf(out[k])};
  }

  lemma AllocOwns(calls: seq<Call>, out: seq<Piece>, p: Piece, live: set<Block>)
    requires ValidScript(calls) && |out| < |calls| && calls[|out|].Alloc? && OwnsExactly(out, Held(calls, out), live)
    requires p.Piece? ==> BlockOf(p) !in live
    ensures OwnsExactly(out + [p], Held(calls, out + [p]), if p.Piece? then live + {BlockOf(p)} else live)
  {
    hide Held, OwnsExactly;
    AllocHeld(calls, out, p);
    OwnsMore(out, p, Held(calls, out), live);
    if p.Piece? {
      NotHeldYet(calls, out);
      OwnsAdded(out + [p], Held(calls, out), |out|, live);
    }
  }

  lemma NotHeldYet(calls: seq<Call>, out: seq<Piece>)
    requires |out| <= |calls|
    ensures |out| !in Held(calls, out)
  {
  }

  lemma ReleaseOwns(calls: seq<Call>, out: seq<Piece>, live: set<Block>)
    requires ValidScript(calls) && |out| < |calls| && !calls[|out|].Alloc? && OwnsExactly(out, Held(calls, out), live)
    ensures var p := out[calls[|out|].step];
            && (p.Piece? ==> BlockOf(p) in live)
            && OwnsExactly(out + [Nothing], Held(calls, out + [Nothing]),
                           if calls[|out|].Release? && p.Piece? then live - {BlockOf(p)} else live)
  {
    var step := calls[|out|].step;
    ReleaseHeld(calls, out);
    OwnsMore(out, Nothing, Held(calls, out), live);
    if out[step].Piece? {
      OwnsRemoved(out + [Nothing], Held(calls, out), step, live);
    } else {
      assert Held(calls, out) - {step} == Held(calls, out);
    }
  }

  // ----- Runs -----

  ghost predicate DifferentIds(s: seq<Header>) {
    forall i, j :: 0 <= i < |s| && 0 <= j < |s| && s[i].id == s[j].id ==> s[i] == s[j]
  }

  lemma ValidIds(pool: Mempool)
    requires pool.Valid()
    ensures DifferentIds(pool.chunks)
  {
    var s := pool.chunks;
    forall i, j | 0 <= i < |s| && 0 <= j < |s| && s[i].id == s[j].id
      ensures s[i] == s[j]
    {
      assert Abs(s)[i].id == Abs(s)[j].id;
    }
  }

  /** A chunk with a live slot stays in the list when others leave it. */
  lemma StillLinked(before: seq<Header>, after: seq<Header>, n: nat, h: Header, slot: nat)
    requires DifferentIds(before) && h in before && (forall g :: g in after ==> g in before)
    requires Block(h.id, slot) in Live(Abs(after), n)
    ensures h in after
  {
    var chunks := Abs(after);
    LiveIff(chunks, n, Block(h.id, slot));
    var c :| c in chunks && LiveIn(c, n, Block(h.id, slot));
    var i :| 0 <= i < |after| && chunks[i] == c;
    assert after[i] in after;
    var j :| 0 <= j < |before| && before[j] == after[i];
    var k :| 0 <= k < |before| && before[k] == h;
  }

  /** One call on the pool; the caller holds what it names. */
  method Perform(pool: Mempool, call: Call, out: seq<Piece>) returns (p: Piece)
    requires pool.Valid()
    requires !call.Alloc? ==>
               var q := if call.step < |out| then out[call.step] else Nothing;
               q.Piece? ==> q.header in pool.chunks && BlockOf(q) in Live(pool.State().chunks, pool.poolSize)
    modifies pool, pool.chunks
    ensures pool.Valid()
    ensures match call
            case Alloc(memory) =>
              && EvasMempool.Malloc(old(pool.State()), pool.poolSize, memory) == (pool.State(), if p.Piece? then Some(BlockOf(p)) else None)
              && (p.Piece? ==> p.header in pool.chunks)
              && (forall h :: h in pool.chunks ==> h in old(pool.chunks) || fresh(h)) && forall h :: h in old(pool.chunks) ==> h in pool.chunks
            case Release(j) =>
              var q := if j < |out| then out[j] else Nothing;
              && p == Nothing && (forall h :: h in pool.chunks ==> h in old(pool.chunks))
              && pool.State() == if q.Piece? then EvasMempool.Free(old(pool.State()), pool.poolSize, BlockOf(q)) else old(pool.State())
            case Write(_, _) => p == Nothing && pool.State() == old(pool.State()) && pool.chunks == old(pool.chunks)
  {
    hide Mempool.Valid, Inv, Live, EvasMempool.Malloc, EvasMempool.Free;
    p := Nothing;
    match call
    case Alloc(memory) =>
      var h, slot := pool.Malloc(memory);
      if h != null {
        p := Piece(h, slot);
      }
    case Release(j) =>
      if j < |out| && out[j].Piece? {
        pool.Free(out[j].header, out[j].slot);
      }
    case Write(j, word) =>
      if j < |out| && out[j].Piece? {
        pool.Store(out[j].header, out[j].slot, word);
      }
  }

  /** The chunk of every slot that is held is in the list. */
  ghost predicate AllLinked(out: seq<Piece>, held: set<int>, chunks: seq<Header>) {
    forall j :: j in held ==> 0 <= j < |out| && out[j].Piece? && out[j].header in chunks
  }

  /** The run so far: the pool is where the plain run ends, which is a valid one, and the caller
      holds exactly its live slots. */
  ghost predicate Follows(state: Pool, n: nat, calls: seq<Call>, out: seq<Piece>)
    requires |out| <= |calls|
  {
    var ops := Plain(calls, out, |out|);
    && ValidRun(ops, EMPTY_POOL, n, {}) && state == RunPool(ops, EMPTY_POOL, n)
    && RunOwned(ops, EMPTY_POOL, n, {}) == Live(state.chunks, n)
    && OwnsExactly(out, Held(calls, out), Live(state.chunks, n))
  }

  lemma PlainNext(calls: seq<Call>, out: seq<Piece>, p: Piece)
    requires ValidScript(calls) && |out| < |calls|
    ensures Plain(calls, out + [p], |out| + 1) == Plain(calls, out, |out|) + PlainCall(calls[|out|], out)
  {
    PlainBefore(calls, out, p, |out|);
  }

  lemma AllocFollows(calls: seq<Call>, out: seq<Piece>, p: Piece, n: nat, state: Pool, next: Pool)
    requires ValidScript(calls) && |out| < |calls| && calls[|out|].Alloc? && Inv(state, n) && Follows(state, n, calls, out)
    requires Malloc(state, n, calls[|out|].memory) == (next, if p.Piece? then Some(BlockOf(p)) else None)
    ensures Follows(next, n, calls, out + [p])
  {
    hide ValidScript, Inv, Malloc, Live, OwnsExactly, Held, RunPool, RunOwned, ValidRun, Plain;
    PlainNext(calls, out, p);
    MallocStep(state, n, calls[|out|].memory);
    AllocOwns(calls, out, p, Live(state.chunks, n));
    RunAppend(Plain(calls, out, |out|), DoMalloc(calls[|out|].memory), EMPTY_POOL, n, {});
  }

  lemma ReleaseFollows(calls: seq<Call>, out: seq<Piece>, n: nat, state: Pool, next: Pool)
    requires ValidScript(calls) && |out| < |calls| && !calls[|out|].Alloc? && Inv(state, n) && Follows(state, n, calls, out)
    requires var p := out[calls[|out|].step];
             next == if calls[|out|].Release? && p.Piece? then Free(state, n, BlockOf(p)) else state
    ensures Follows(next, n, calls, out + [Nothing])
  {
    hide Inv, Free, Live, OwnsExactly, Held, RunPool, RunOwned, ValidRun, Plain;
    PlainNext(calls, out, Nothing);
    ReleaseOwns(calls, out, Live(state.chunks, n));
    var ops, p := Plain(calls, out, |out|), out[calls[|out|].step];
    if calls[|out|].Release? && p.Piece? {
      FreeStep(state, n, BlockOf(p));
      RunAppend(ops, DoFree(BlockOf(p)), EMPTY_POOL, n, {});
    } else {
      assert ops + [] == ops;
    }
  }

  /** What the caller holds and so may name. */
  lemma HeldIsLive(calls: seq<Call>, out: seq<Piece>, n: nat, state: Pool, j: int)
    requires |out| <= |calls| && Follows(state, n, calls, out) && j in Held(calls, out)
    ensures 0 <= j < |out| && out[j].Piece? && BlockOf(out[j]) in Live(state.chunks, n)
  {
    hide Live, RunPool, RunOwned, ValidRun, Plain, Held;
    assert BlockOf(out[j]) in BlocksOf(out, Held(calls, out));
  }

  lemma ValidFacts(pool: Mempool)
    requires pool.Valid()
    ensures Inv(pool.State(), pool.poolSize) && pool.usage == |Live(pool.State().chunks, pool.poolSize)|
    ensures pool.first == At(pool.chunks, 0) && pool.last == At(pool.chunks, |pool.chunks| - 1) && |pool.State().chunks| == |pool.chunks|
  {
  }

  method Step(pool: Mempool, calls: seq<Call>, out: seq<Piece>) returns (p: Piece)
    requires ValidScript(calls) && |out| < |calls| && pool.Valid() && Follows(pool.State(), pool.poolSize, calls, out)
    requires AllLinked(out, Held(calls, out), pool.chunks)
    modifies pool, pool.chunks
    ensures pool.Valid() && Follows(pool.State(), pool.poolSize, calls, out + [p])
    ensures AllLinked(out + [p], Held(calls, out + [p]), pool.chunks)
    ensures forall h :: h in pool.chunks ==> h in old(pool.chunks) || fresh(h)
  {
    hide Inv, Live, Held, Follows, Mempool.Valid, Malloc, Free, DifferentIds;
    ghost var state, chunks, n, call := pool.State(), pool.chunks, pool.poolSize, calls[|out|];
    ValidFacts(pool);
    ValidIds(pool);
    if !call.Alloc? {
      ReleaseHeld(calls, out);
      if out[call.step].Piece? { HeldIsLive(calls, out, n, state, call.step); }
    }
    p := Perform(pool, calls[|out|], out);
    ghost var out' := out + [p];
    if call.Alloc? {
      AllocFollows(calls, out, p, n, state, pool.State());
      AllocHeld(calls, out, p);
    } else {
      ReleaseFollows(calls, out, n, state, pool.State());
      forall j | j in Held(calls, out')
        ensures 0 <= j < |out'| && out'[j].Piece? && out'[j].header in pool.chunks
      {
        HeldIsLive(calls, out', n, pool.State(), j);
        StillLinked(chunks, pool.chunks, n, out[j].header, out[j].slot);
      }
    }
  }

  lemma NothingYet(calls: seq<Call>, n: nat)
    ensures Held(calls, []) == {} && Follows(EMPTY_POOL, n, calls, [])
  {
    assert BlocksOf([], {}) == {};
  }

  /** Every valid script on a new pool: the chunks hold what the plain pool holds, the slots the
      caller holds are distinct and exactly the live ones, usage is their number, the search for
      room stops at the first chunk or at none, and once all is given back no chunk is left. */
  method RunScript(pool: Mempool, calls: seq<Call>) returns (out: seq<Piece>)
    requires pool.Valid() && pool.State() == EMPTY_POOL && ValidScript(calls)
    modifies pool, pool.chunks
    ensures pool.Valid() && |out| == |calls| && Follows(pool.State(), pool.poolSize, calls, out)
    ensures pool.usage == |Held(calls, out)|
    ensures var k := FirstFree(pool.State().chunks); k == 0 || k == |pool.chunks|
    ensures Held(calls, out) == {} <==> pool.first == null
    ensures pool.first == null <==> pool.last == null
  {
    hide Inv, Live, Held, Follows, Mempool.Valid, ValidScript;
    out := [];
    NothingYet(calls, pool.poolSize);
    ValidFacts(pool);
    while |out| < |calls|
      invariant |out| <= |calls| && pool.Valid() && Follows(pool.State(), pool.poolSize, calls, out)
      invariant AllLinked(out, Held(calls, out), pool.chunks)
      invariant forall h :: h in pool.chunks ==> h in old(pool.chunks) || fresh(h)
    {
      assert forall i {:trigger pool.chunks[i]} :: 0 <= i < |pool.chunks| ==> pool.chunks[i] in pool.chunks;
      var p := Step(pool, calls, out);
      out := out + [p];
    }
    ValidFacts(pool);
    RunEnds(calls, out, pool.poolSize, pool.State());
  }

  /** What every run of the plain pool gives, in terms of what the caller holds. */
  lemma RunEnds(calls: seq<Call>, out: seq<Piece>, n: nat, state: Pool)
    requires |out| <= |calls| && Inv(state, n) && Follows(state, n, calls, out)
    ensures |Live(state.chunks, n)| == |Held(calls, out)|
    ensures var k := FirstFree(state.chunks); k == 0 || k == |state.chunks|
    ensures Held(calls, out) == {} <==> state.chunks == []
  {
    hide Live, RunPool, RunOwned, ValidRun, Plain, Held;
    EveryRun(Plain(calls, out, |out|), n);
    if Held(calls, out) == {} { assert BlocksOf(out, {}) == {}; }
  }
}
