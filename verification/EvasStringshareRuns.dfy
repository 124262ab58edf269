/** Evas_Stringshare over whole runs: scripts of additions and deletions on one table, in which
    the caller gives back the handles it got from earlier steps. */
module EvasStringshareRuns {
  import opened CStrings
  import opened EvasStringshare
  import opened EvasStringshareHeap

  /** A step of a script: share a string, give back what step `step` returned, or give back a
      string that never came from the table. */
  datatype Op = Add(str: Key, memory: bool) | Del(step: nat) | DelForeign(foreign: CString)

  /** What step `j` returned, NULL for anything but an addition that succeeded. */
  function Returned(out: seq<El?>, j: nat): El? {
    if j < |out| then out[j] else null
  }

  /** How step `k` changes the number of references to `el` that the caller holds. */
  ghost function Given(ops: seq<Op>, out: seq<El?>, k: nat, el: El): int
    requires k < |ops|
  {
    match ops[k]
    case Add(_, _) => if Returned(out, k) == el then 1 else 0
    case Del(j) => if j < k && Returned(out, j) == el then -1 else 0
    case DelForeign(_) => 0
  }

  /** The references to `el` that the caller got in the first `k` steps, less those given back. */
  ghost function Held(ops: seq<Op>, out: seq<El?>, k: nat, el: El): int
    requires k <= |ops|
  {
    if k == 0 then 0 else Held(ops, out, k - 1, el) + Given(ops, out, k - 1, el)
  }

  /** The references of `el` in a table; an element that is no live handle has none. */
  ghost function References(live: Shares<El>, el: El): int {
    if el.str in live && live[el.str].handle == el then live[el.str].count else 0
  }

  /** Some earlier step returned a handle for `str` that the caller has not wholly given back. */
  ghost predicate Alive(ops: seq<Op>, out: seq<El?>, k: nat, str: CString)
    requires k <= |ops|
  {
    exists j: nat :: j < k && Returns(out, j, str) && Held(ops, out, k, out[j]) > 0
  }

  /** Step `j` returned a handle for `str`. */
  ghost predicate Returns(out: seq<El?>, j: nat, str: CString) {
    j < |out| && out[j] != null && out[j].str == str
  }

  /** Step `k` returned what it should, going by what the caller had been given before: an
      addition fails only without memory for a string that is not alive, and returns an earlier
      handle of the same string exactly if that is still held; a deletion took back a handle
      that was held. A new element is a new handle here; the original may get the address of a
      freed one again. */
  ghost predicate StepRight(ops: seq<Op>, out: seq<El?>, k: nat)
    requires k < |out| <= |ops|
  {
    match ops[k]
    case Add(NullKey, _) => out[k] == null
    case Add(Str(s), memory) =>
      && (out[k] == null <==> !memory && !Alive(ops, out, k, s))
      && (out[k] != null ==> out[k].str == s)
      && (forall j: nat :: j < k && Returns(out, j, s) ==> (out[k] == out[j] <==> Held(ops, out, k, out[j]) > 0))
    case Del(j) => out[k] == null && (j < k && out[j] != null ==> Held(ops, out, k, out[j]) > 0)
    case DelForeign(_) => false
  }

  /** Step `k` gives back something that is not held. */
  ghost predicate Aborts(ops: seq<Op>, out: seq<El?>, k: nat)
    requires k < |ops|
  {
    match ops[k]
    case Add(_, _) => false
    case Del(j) => j < k && Returned(out, j) != null && Held(ops, out, k, Returned(out, j)) == 0
    case DelForeign(_) => true
  }

  /** What the caller holds is what the table counts. */
  ghost predicate Balanced(ops: seq<Op>, out: seq<El?>, live: Shares<El>)
    requires |out| <= |ops|
  {
    && (forall s :: s in live ==> live[s].handle in out && live[s].handle.str == s && live[s].count > 0)
    && (forall j: nat :: j < |out| && out[j] != null ==> Held(ops, out, |out|, out[j]) == References(live, out[j]))
  }

  // ----- Longer scripts -----

  lemma {:induction false} HeldBefore(ops: seq<Op>, out: seq<El?>, e: El?, k: nat, el: El)
    requires k <= |out| < |ops|
    ensures Held(ops, out + [e], k, el) == Held(ops, out, k, el)
  {
    if k > 0 {
      HeldBefore(ops, out, e, k - 1, el);
    }
  }

  lemma {:induction false} HeldOfUnknown(ops: seq<Op>, out: seq<El?>, k: nat, el: El)
    requires k <= |out| <= |ops| && el !in out
    ensures Held(ops, out, k, el) == 0
  {
    if k > 0 {
      HeldOfUnknown(ops, out, k - 1, el);
    }
  }

  lemma StillRight(ops: seq<Op>, out: seq<El?>, e: El?, k: nat)
    requires k < |out| < |ops| && StepRight(ops, out, k)
    ensures StepRight(ops, out + [e], k)
  {
    hide Held;
    var out' := out + [e];
    forall j: nat | j < k && out[j] != null
      ensures Held(ops, out', k, out'[j]) == Held(ops, out, k, out[j])
    {
      HeldBefore(ops, out, e, k, out[j]);
    }
    if ops[k].Add? && ops[k].str.Str? {
      var s := ops[k].str.text;
      forall j: nat | j < k
        ensures Returns(out', j, s) <==> Returns(out, j, s)
      {
      }
    }
  }

  /** References held after one more step. */
  lemma HeldAfter(ops: seq<Op>, out: seq<El?>, e: El?, el: El)
    requires |out| < |ops|
    ensures Held(ops, out + [e], |out| + 1, el) == Held(ops, out, |out|, el) + Given(ops, out + [e], |out|, el)
  {
    HeldBefore(ops, out, e, |out|, el);
  }

  /** In a balanced table a string is alive exactly if it is live. */
  lemma AliveIsLive(ops: seq<Op>, out: seq<El?>, live: Shares<El>, str: CString)
    requires |out| <= |ops| && Balanced(ops, out, live)
    ensures Alive(ops, out, |out|, str) <==> str in live
  {
    hide Held;
    if str in live {
      var j: nat :| j < |out| && out[j] == live[str].handle;
      assert Returns(out, j, str) && Held(ops, out, |out|, out[j]) > 0;
    }
  }

  /** An addition keeps the balance and returns what it should. */
  lemma AddKeeps(ops: seq<Op>, out: seq<El?>, live: Shares<El>, live': Shares<El>, e: El?)
    requires |out| < |ops| && Balanced(ops, out, live) && ops[|out|].Add? && ops[|out|].str.Str?
    requires var op := ops[|out|];
             if e == null then op.str.text !in live && !op.memory && live' == live
             else e.str == op.str.text && live' == Adding(live, op.str.text, op.memory, e) && e.str in live' && live'[e.str].handle == e
                  && (op.str.text in live || (e !in out && op.memory))
    ensures Balanced(ops, out + [e], live') && StepRight(ops, out + [e], |out|)
  {
    hide Held;
    var k, out', s := |out|, out + [e], ops[|out|].str.text;
    forall j: nat | j < k && out[j] != null
      ensures Held(ops, out', k, out'[j]) == References(live, out[j])
      ensures Held(ops, out', k + 1, out'[j]) == References(live', out'[j])
    {
      HeldBefore(ops, out, e, k, out[j]);
      HeldAfter(ops, out, e, out[j]);
    }
    if e != null {
      HeldAfter(ops, out, e, e);
      if e !in out {
        HeldOfUnknown(ops, out, k, e);
      }
    }
    AliveIsLive(ops, out, live, s);
    forall j: nat | j < k
      ensures Returns(out', j, s) <==> Returns(out, j, s)
    {
    }
    assert Alive(ops, out', k, s) <==> Alive(ops, out, k, s) by {
      if Alive(ops, out, k, s) {
        var j: nat :| j < k && Returns(out, j, s) && Held(ops, out, k, out[j]) > 0;
        assert Returns(out', j, s) && Held(ops, out', k, out'[j]) > 0;
      }
      if Alive(ops, out', k, s) {
        var j: nat :| j < k && Returns(out', j, s) && Held(ops, out', k, out'[j]) > 0;
        assert Returns(out, j, s) && Held(ops, out, k, out[j]) > 0;
      }
    }
  }

  /** A deletion of something held keeps the balance, and so does a call on NULL. */
  lemma DelKeeps(ops: seq<Op>, out: seq<El?>, live: Shares<El>, live': Shares<El>)
    requires |out| < |ops| && Balanced(ops, out, live)
    requires var op := ops[|out|]; op.Del? || (op.Add? && op.str.NullKey?)
    requires var el := if ops[|out|].Del? then Returned(out, ops[|out|].step) else null;
             if el == null then live' == live
             else el.str in live && live[el.str].handle == el && live' == Deleting(live, el.str)
    ensures Balanced(ops, out + [null], live') && StepRight(ops, out + [null], |out|)
  {
    hide Held;
    var k, out' := |out|, out + [null];
    forall j: nat | j < k && out[j] != null
      ensures Held(ops, out', k, out'[j]) == References(live, out[j])
      ensures Held(ops, out', k + 1, out'[j]) == References(live', out'[j])
    {
      HeldBefore(ops, out, null, k, out[j]);
      HeldAfter(ops, out, null, out[j]);
    }
  }

  /** The table is empty exactly when the caller has given everything back. */
  lemma EmptyWhenAllGivenBack(ops: seq<Op>, out: seq<El?>, live: Shares<El>)
    requires |out| <= |ops| && Balanced(ops, out, live)
    ensures live == map[] <==> forall j: nat :: j < |out| && out[j] != null ==> Held(ops, out, |out|, out[j]) == 0
  {
    hide Held;
    if s :| s in live {
      var j: nat :| j < |out| && out[j] == live[s].handle;
      assert Held(ops, out, |out|, out[j]) > 0;
    }
  }

  // ----- Runs -----

  method RunStep(tb: StringTable, op: Op, out: seq<El?>) returns (el: El?, aborted: bool)
    requires tb.Valid()
    modifies tb`chains, tb`live, tb.buckets, ElsOf(tb.chains)
    ensures tb.Valid()
    ensures forall n :: n in ElsOf(tb.chains) ==> n in old(ElsOf(tb.chains)) || fresh(n)
    ensures match op
            case Add(NullKey, _) => el == null && !aborted && tb.live == old(tb.live)
            case Add(Str(s), memory) =>
              && !aborted
              && (if el == null then s !in old(tb.live) && !memory && tb.live == old(tb.live)
                  else el.str == s && IsHandle(tb, el) && tb.live == Adding(old(tb.live), s, memory, el)
                       && (s in old(tb.live) || (fresh(el) && memory)))
            case Del(j) =>
              var given := Returned(out, j);
              && el == null
              && (aborted <==> given != null && !old(IsHandle(tb, given)))
              && tb.live == (if given == null || aborted then old(tb.live) else Deleting(old(tb.live), given.str))
            case DelForeign(_) => aborted && tb.live == old(tb.live)
  {
    el, aborted := null, false;
    match op
    case Add(str, memory) => el := AddString(tb, str, memory);
    case Del(j) => aborted := DelString(tb, Returned(out, j));
    case DelForeign(text) =>
      var foreign := new El(text);
      assert !IsHandle(tb, foreign);
      aborted := DelString(tb, foreign);
  }

  /** Every run on a fresh table: each step returns what it should, the table counts for every
      handle the references handed out less those taken back, the run stops only at a step that
      gives back what is not held. */
  method RunScript(tb: StringTable, ops: seq<Op>) returns (out: seq<El?>)
    requires tb.Valid() && tb.live == map[]
    modifies tb`chains, tb`live, tb.buckets, ElsOf(tb.chains)
    ensures tb.Valid() && |out| <= |ops|
    ensures forall k: nat :: k < |out| ==> StepRight(ops, out, k)
    ensures Balanced(ops, out, tb.live)
    ensures |out| < |ops| ==> Aborts(ops, out, |out|)
  {
    hide ElsOf, StringTable.Valid, StepRight, Held;
    out := [];
    while |out| < |ops|
      invariant tb.Valid() && |out| <= |ops| && Balanced(ops, out, tb.live)
      invariant forall k: nat :: k < |out| ==> StepRight(ops, out, k)
      invariant forall n :: n in ElsOf(tb.chains) ==> n in old(ElsOf(tb.chains)) || fresh(n)
    {
      ghost var live := tb.live;
      var el, aborted := RunStep(tb, ops[|out|], out);
      if aborted {
        return;
      }
      ghost var op := ops[|out|];
      if op.Add? && op.str.Str? {
        AddKeeps(ops, out, live, tb.live, el);
      } else {
        DelKeeps(ops, out, live, tb.live);
      }
      forall k: nat | k < |out|
        ensures StepRight(ops, out + [el], k)
      {
        StillRight(ops, out, el, k);
      }
      out := out + [el];
    }
  }
}
