/** Evas_Stringshare on the heap: 1024 singly linked buckets with move-to-front. */
module EvasStringshareHeap {
  import opened CStrings
  import opened EvasStringshare
  import opened Sequences

  const BUCKETS := 1024

  /** An element and the string stored behind it; the address of that string is the handle. */
  class El {
    var next: El?
    var references: int
    const str: CString

    constructor (str: CString)
      ensures this.str == str && references == 1
    {
      this.str, references := str, 1;
    }
  }

  function Code(str: CString): bv32 {
    MixAll(SEED, str) & 0x3ff
  }

  function Hash(str: CString): (r: nat)
    ensures r < BUCKETS
  {
    Code(str) as nat
  }

  /** The bucket of a string, character by character. */
  lemma CodeByCharacter(str: CString, c: Byte)
    ensures Hash(str) == Code(str) as nat
    ensures Code([]) == 261
    ensures Code(str + [c]) == ((Code(str) * 33) ^ (c as bv32)) & 0x3ff
  {
    hide MixAll;
    MixNone(SEED);
    MixLast(SEED, str, c);
    LowBits(MixAll(SEED, str), c as bv32);
  }

  /** _evas_stringshare_hash_gen, which also measures the string. */
  method HashGen(str: CString) returns (h: nat, len: nat)
    ensures h == Hash(str) && len == |str|
  {
    var hashNum: bv32, ptr := SEED, 0;
    while ptr < |str|
      invariant 0 <= ptr <= |str|
      invariant MixAll(hashNum, str[ptr..]) == MixAll(SEED, str)
    {
      assert str[ptr..][1..] == str[ptr + 1..];
      hashNum := Mix(hashNum, str[ptr]);
      ptr := ptr + 1;
    }
    h, len := (hashNum & 0x3ff) as nat, ptr;
  }

  // ----- Chains -----

  ghost function At(s: seq<El>, i: int): El? {
    if 0 <= i < |s| then s[i] else null
  }

  /** A chain of distinct elements whose strings hash to `h`. */
  ghost predicate IsChain(head: El?, s: seq<El>, h: int)
    reads s`next
  {
    && head == At(s, 0)
    && Distinct(s)
    && (forall i {:trigger s[i].next} :: 0 <= i < |s| ==> s[i].next == At(s, i + 1))
    && (forall i {:trigger s[i].str} :: 0 <= i < |s| ==> Hash(s[i].str) == h)
  }

  lemma ChainFacts(head: El?, s: seq<El>, h: int, i: int)
    requires IsChain(head, s, h)
    ensures head == At(s, 0)
    ensures 0 <= i < |s| ==> s[i].next == At(s, i + 1) && Hash(s[i].str) == h
    ensures forall j {:trigger s[j]} :: 0 <= j < |s| && 0 <= i < |s| && s[j] == s[i] ==> i == j
  {
    forall j | 0 <= j < |s| && 0 <= i < |s| && s[j] == s[i]
      ensures i == j
    {
      assert Differ(s, i, j);
    }
  }

  twostate lemma Unchained(s: seq<El>, new k: int, new h: int)
    requires 0 <= k < |s| && old(IsChain(s[0], s, h))
    requires forall i {:trigger s[i].next} :: 0 <= i < |s| && i != k ==> s[i].next == if i == k - 1 then At(s, k + 1) else old(s[i].next)
    ensures IsChain(At(RemoveAt(s, k), 0), RemoveAt(s, k), h)
  {
    var t := RemoveAt(s, k);
    forall i, j
      ensures Differ(t, i, j)
    {
      assert Differ(s, if i < k then i else i + 1, if j < k then j else j + 1);
    }
    forall i | 0 <= i < |t|
      ensures t[i].next == At(t, i + 1) && Hash(t[i].str) == h
    {
      var p := if i < k then i else i + 1;
      assert s[p].next == if p == k - 1 then At(s, k + 1) else old(s[p].next);
      assert old(s[p].next) == At(s, p + 1) && Hash(s[p].str) == h;
    }
  }

  twostate lemma Refronted(s: seq<El>, new k: int, new h: int)
    requires 0 < k < |s| && old(IsChain(s[0], s, h))
    requires forall i {:trigger s[i].next} :: 0 <= i < |s| ==>
               s[i].next == if i == k then s[0] else if i == k - 1 then At(s, k + 1) else old(s[i].next)
    ensures IsChain(s[k], MoveTo(s, 0, k), h)
  {
    var t := MoveTo(s, 0, k);
    forall i, j
      ensures Differ(t, i, j)
    {
      assert Differ(s, if i == 0 then k else if i <= k then i - 1 else i, if j == 0 then k else if j <= k then j - 1 else j);
    }
    forall i | 0 <= i < |t|
      ensures t[i].next == At(t, i + 1) && Hash(t[i].str) == h
    {
      var p := if i == 0 then k else if i <= k then i - 1 else i;
      assert s[p].next == if p == k then s[0] else if p == k - 1 then At(s, k + 1) else old(s[p].next);
      assert old(s[p].next) == At(s, p + 1) && Hash(s[p].str) == h;
    }
  }

  /** Lines 256-259: the element at position k, with predecessor `pel`, is bypassed. */
  method Bypass(head0: El, el: El, pel: El?, ghost k: nat, ghost s: seq<El>, ghost h: int) returns (head: El?)
    requires IsChain(head0, s, h) && el == At(s, k) && pel == At(s, k - 1)
    modifies s`next
    ensures IsChain(head, RemoveAt(s, k), h)
  {
    hide IsChain;
    ChainFacts(head0, s, h, k);
    ChainFacts(head0, s, h, k - 1);
    if pel != null {
      pel.next := el.next;
      head := head0;
    } else {
      head := el.next;
    }
    Unchained(s, k, h);
  }

  /** Lines 209-211 and 265-267: the element at position k moves to the front. */
  method Refront(head0: El, el: El, pel: El, ghost k: nat, ghost s: seq<El>, ghost h: int) returns (head: El)
    requires IsChain(head0, s, h) && el == At(s, k) && pel == At(s, k - 1)
    modifies s`next
    ensures head == el && IsChain(head, MoveTo(s, 0, k), h)
  {
    hide IsChain;
    ChainFacts(head0, s, h, k);
    ChainFacts(head0, s, h, k - 1);
    pel.next := el.next;
    el.next := head0;
    Refronted(s, k, h);
    head := el;
  }

  /** Lines 226-227: a new element in front. */
  method PushFront(head0: El?, el: El, ghost s: seq<El>, ghost h: int) returns (head: El)
    requires IsChain(head0, s, h) && el !in s && Hash(el.str) == h
    modifies el`next
    ensures head == el && IsChain(el, InsertAt(s, 0, el), h)
  {
    el.next := head0;
    head := el;
    ghost var t := InsertAt(s, 0, el);
    forall i, j
      ensures Differ(t, i, j)
    {
      assert Differ(s, i - 1, j - 1);
    }
    forall i | 0 <= i < |t|
      ensures t[i].next == At(t, i + 1) && Hash(t[i].str) == h
    {
      if i > 0 { assert s[i - 1].next == At(s, i); }
    }
  }

  method Search(head: El?, str: CString, ghost s: seq<El>, ghost h: int) returns (el: El?, pel: El?, ghost k: nat)
    requires IsChain(head, s, h)
    ensures k <= |s| && el == At(s, k) && pel == At(s, k - 1)
    ensures forall i :: 0 <= i < k ==> s[i].str != str
    ensures el != null ==> el.str == str
  {
    el, pel, k := head, null, 0;
    while el != null
      invariant 0 <= k <= |s| && el == At(s, k) && pel == At(s, k - 1)
      invariant forall i :: 0 <= i < k ==> s[i].str != str
      decreases |s| - k
    {
      if el.str == str {
        return;
      }
      pel, el := el, el.next;
      k := k + 1;
    }
  }

  method SearchHandle(head: El?, handle: El, ghost s: seq<El>, ghost h: int) returns (el: El?, pel: El?, ghost k: nat)
    requires IsChain(head, s, h)
    ensures k <= |s| && el == At(s, k) && pel == At(s, k - 1)
    ensures if handle in s then el == handle else el == null
  {
    el, pel, k := head, null, 0;
    while el != null
      invariant 0 <= k <= |s| && el == At(s, k) && pel == At(s, k - 1)
      invariant forall i :: 0 <= i < k ==> s[i] != handle
      decreases |s| - k
    {
      if el == handle {
        return;
      }
      pel, el := el, el.next;
      k := k + 1;
    }
  }

  // ----- The table -----

  ghost function ElsOf(chains: seq<seq<El>>): set<El> {
    set c, n | c in chains && n in c :: n
  }

  class StringTable {
    const buckets: array<El?>
    ghost var chains: seq<seq<El>>
    ghost var live: Shares<El>

    ghost predicate BucketOk(i: int)
      requires buckets.Length == BUCKETS == |chains| && 0 <= i < BUCKETS
      reads this`chains, buckets, ElsOf(chains)`next
    {
      assert forall n :: n in chains[i] ==> n in ElsOf(chains);
      IsChain(buckets[i], chains[i], i)
    }

    /** Every element is the live share of its string, with that many references. */
    ghost predicate AllLive()
      reads this`chains, this`live, ElsOf(chains)`references
    {
      forall n :: n in ElsOf(chains) ==> n.str in live && live[n.str] == Share(n, n.references) && n.references > 0
    }

    /** Every live string has its element in the bucket of its hash. */
    ghost predicate AllShared()
      requires |chains| == BUCKETS
      reads this`chains, this`live
    {
      forall s :: s in live ==> live[s].handle in chains[Hash(s)] && live[s].handle.str == s
    }

    ghost predicate Buckets()
      reads this`chains, buckets, ElsOf(chains)`next
    {
      buckets.Length == BUCKETS == |chains| && forall i :: 0 <= i < BUCKETS ==> BucketOk(i)
    }

    ghost predicate Valid()
      reads this, buckets, ElsOf(chains)
    {
      && Buckets()
      && AllLive() && AllShared()
    }

    constructor ()
      ensures Valid() && live == map[] && fresh(buckets) && chains == seq(BUCKETS, _ => [])
    {
      buckets := new El?[BUCKETS](_ => null);
      chains := seq(BUCKETS, _ => []);
      live := map[];
    }

    ghost predicate OthersOk(h: int)
      reads this`chains, buckets, ElsOf(chains)`next
    {
      buckets.Length == BUCKETS == |chains| && 0 <= h < BUCKETS && forall i :: 0 <= i < BUCKETS && i != h ==> BucketOk(i)
    }

    /** Store the new head of bucket h. */
    method Install(h: nat, head: El?, ghost s: seq<El>)
      requires OthersOk(h) && IsChain(head, s, h)
      modifies this`chains, buckets
      ensures Buckets() && chains == old(chains)[h := s]
    {
      hide IsChain;
      buckets[h] := head;
      chains := chains[h := s];
      forall i | 0 <= i < BUCKETS
        ensures BucketOk(i)
      {
        if i != h { assert old(BucketOk(i)); }
      }
    }
  }

  twostate lemma ChainKept(s: seq<El>, new head: El?, new h: int)
    requires head == At(s, 0) && old(IsChain(At(s, 0), s, h)) && forall n :: n in s ==> n.next == old(n.next)
    ensures IsChain(head, s, h)
  {
    forall k | 0 <= k < |s|
      ensures s[k].next == old(s[k].next)
    {
      assert s[k] in s;
    }
  }

  /** Relinking the elements of one bucket leaves the others alone, since each element can only
      be in the bucket its string hashes to. */
  twostate lemma OthersKept(tb: StringTable, new h: int)
    requires old(tb.Buckets()) && unchanged(tb) && unchanged(tb.buckets) && 0 <= h < BUCKETS
    requires forall n :: n in ElsOf(tb.chains) && n !in tb.chains[h] ==> n.next == old(n.next)
    ensures tb.OthersOk(h)
  {
    forall i | 0 <= i < BUCKETS && i != h
      ensures tb.BucketOk(i)
    {
      assert old(tb.BucketOk(i));
      forall n | n in tb.chains[i]
        ensures n.next == old(n.next)
      {
        assert n in ElsOf(tb.chains);
        OtherElement(tb, i, h, n);
      }
      ChainKept(tb.chains[i], tb.buckets[i], i);
    }
  }

  twostate lemma OtherElement(tb: StringTable, new i: int, new h: int, new n: El)
    requires old(tb.Buckets()) && unchanged(tb)
    requires 0 <= i < BUCKETS && 0 <= h < BUCKETS && i != h && n in tb.chains[i]
    ensures n !in tb.chains[h]
  {
    assert old(tb.BucketOk(i)) && old(tb.BucketOk(h));
    var s := tb.chains[i];
    var k :| 0 <= k < |s| && s[k] == n;
    assert Hash(s[k].str) == i;
  }

  lemma InChain(tb: StringTable, h: nat)
    requires tb.Buckets() && h < BUCKETS
    ensures tb.buckets.Length == BUCKETS == |tb.chains| && IsChain(tb.buckets[h], tb.chains[h], h)
    ensures forall n :: n in tb.chains[h] ==> n in ElsOf(tb.chains)
  {
    assert tb.BucketOk(h);
  }

  lemma ElsInserted(chains: seq<seq<El>>, h: nat, el: El)
    requires h < |chains|
    ensures ElsOf(chains[h := InsertAt(chains[h], 0, el)]) == ElsOf(chains) + {el}
  {
    var t := InsertAt(chains[h], 0, el);
    var after := chains[h := t];
    assert t == [el] + chains[h];
    forall n
      ensures n in ElsOf(after) <==> n in ElsOf(chains) + {el}
    {
      if n in ElsOf(after) {
        var i :| 0 <= i < |after| && n in after[i];
        if i != h { assert n in chains[i]; }
      }
      if n in ElsOf(chains) + {el} {
        if n == el {
          assert n in after[h];
        } else {
          var i :| 0 <= i < |chains| && n in chains[i];
          assert n in after[i];
        }
      }
    }
  }

  ghost predicate Within(s: seq<El>, t: seq<El>) {
    forall n :: n in s ==> n in t
  }

  /** The same elements are in every bucket. */
  ghost predicate SameMembers(a: seq<seq<El>>, b: seq<seq<El>>) {
    |a| == |b| && forall i :: 0 <= i < |a| ==> Within(a[i], b[i]) && Within(b[i], a[i])
  }

  lemma SameEls(a: seq<seq<El>>, b: seq<seq<El>>)
    requires SameMembers(a, b)
    ensures ElsOf(a) == ElsOf(b)
  {
    forall n
      ensures n in ElsOf(a) <==> n in ElsOf(b)
    {
      if n in ElsOf(a) {
        var i :| 0 <= i < |a| && n in a[i];
        assert n in b[i];
      }
      if n in ElsOf(b) {
        var i :| 0 <= i < |b| && n in b[i];
        assert n in a[i];
      }
    }
  }

  lemma MoveMembers(s: seq<El>, k: nat)
    requires k < |s|
    ensures forall n :: n in MoveTo(s, 0, k) <==> n in s
  {
    var t := MoveTo(s, 0, k);
    forall n | n in s
      ensures n in t
    {
      var i :| 0 <= i < |s| && s[i] == n;
      assert t[if i < k then i + 1 else if i == k then 0 else i] == n;
    }
  }

  /** Lines 207-212 and 263-268: a hit that has a predecessor moves to the front. */
  method BringForward(tb: StringTable, h: nat, el: El, pel: El?, ghost k: nat)
    requires tb.Valid() && h < BUCKETS && el == At(tb.chains[h], k) && pel == At(tb.chains[h], k - 1)
    modifies tb`chains, tb.buckets, ElsOf(tb.chains)`next
    ensures tb.Valid() && ElsOf(tb.chains) == old(ElsOf(tb.chains))
  {
    hide IsChain, Hash, MoveTo, ElsOf;
    ghost var s, chains := tb.chains[h], tb.chains;
    InChain(tb, h);
    ChainFacts(tb.buckets[h], s, h, k);
    if pel != null {
      var head := Refront(tb.buckets[h], el, pel, k, s, h);
      OthersKept(tb, h);
      MoveMembers(s, k);
      tb.Install(h, head, MoveTo(s, 0, k));
      SameEls(chains, tb.chains);
    }
  }

  /** Every element but `el` is the live share of its string. */
  ghost predicate LiveBut(tb: StringTable, el: El)
    reads tb`chains, tb`live, ElsOf(tb.chains)`references
  {
    forall n :: n in ElsOf(tb.chains) && n != el ==> n.str in tb.live && tb.live[n.str] == Share(n, n.references) && n.references > 0
  }

  /** The count of an element has changed, and it still has one. */
  ghost method Recount(tb: StringTable, el: El)
    requires tb.Buckets() && tb.AllShared() && LiveBut(tb, el) && el in ElsOf(tb.chains)
    requires el.str in tb.live && tb.live[el.str].handle == el && el.references > 0
    modifies tb`live
    ensures tb.Valid() && tb.live == old(tb.live)[el.str := Share(el, el.references)]
  {
    hide IsChain, Hash, ElsOf, StringTable.Buckets;
    tb.live := tb.live[el.str := Share(el, el.references)];
    forall n | n in ElsOf(tb.chains)
      ensures n.str in tb.live && tb.live[n.str] == Share(n, n.references) && n.references > 0
    {
      if n != el { assert old(tb.live)[n.str].handle == n; }
    }
  }

  lemma RemovedMembers(head: El?, s: seq<El>, h: int, k: nat)
    requires IsChain(head, s, h) && k < |s|
    ensures forall n :: n in RemoveAt(s, k) <==> n in s && n != s[k]
  {
    ChainFacts(head, s, h, k);
    var t := RemoveAt(s, k);
    forall n | n in s && n != s[k]
      ensures n in t
    {
      var i :| 0 <= i < |s| && s[i] == n;
      assert t[if i < k then i else i - 1] == n;
    }
    forall n | n in t
      ensures n in s && n != s[k]
    {
      var i :| 0 <= i < |t| && t[i] == n;
      assert n == s[if i < k then i else i + 1];
    }
  }

  /** The element of bucket h is in no other bucket, so taking it out takes it out of the table. */
  lemma ElsRemoved(tb: StringTable, h: nat, el: El, t: seq<El>)
    requires tb.Buckets() && h < BUCKETS && el in tb.chains[h]
    requires forall n :: n in t <==> n in tb.chains[h] && n != el
    ensures ElsOf(tb.chains[h := t]) == ElsOf(tb.chains) - {el}
  {
    var after := tb.chains[h := t];
    forall n
      ensures n in ElsOf(after) <==> n in ElsOf(tb.chains) && n != el
    {
      if n in ElsOf(after) {
        var i :| 0 <= i < |after| && n in after[i];
        if i != h { OneBucket(tb, i, h, n); }
      }
      if n in ElsOf(tb.chains) && n != el {
        var i :| 0 <= i < |tb.chains| && n in tb.chains[i];
        assert n in after[i];
      }
    }
  }

  lemma OneBucket(tb: StringTable, i: int, h: int, n: El)
    requires tb.Buckets() && 0 <= i < BUCKETS && 0 <= h < BUCKETS && i != h && n in tb.chains[i]
    ensures n !in tb.chains[h]
  {
    assert tb.BucketOk(i) && tb.BucketOk(h);
    var s := tb.chains[i];
    var k :| 0 <= k < |s| && s[k] == n;
    assert Hash(s[k].str) == i;
  }

  /** Lines 254-262: the last handle came back, and the element leaves the table. */
  method Forget(tb: StringTable, h: nat, el: El, pel: El?, ghost k: nat)
    requires tb.Buckets() && tb.AllShared() && LiveBut(tb, el) && el.str in tb.live && tb.live[el.str].handle == el
    requires h < BUCKETS && el == At(tb.chains[h], k) && pel == At(tb.chains[h], k - 1)
    modifies tb`chains, tb`live, tb.buckets, ElsOf(tb.chains)`next
    ensures tb.Valid() && tb.live == old(tb.live) - {el.str}
    ensures forall n :: n in ElsOf(tb.chains) ==> n in old(ElsOf(tb.chains))
  {
    hide IsChain, Hash, ElsOf;
    ghost var s := tb.chains[h];
    InChain(tb, h);
    ChainFacts(tb.buckets[h], s, h, k);
    RemovedMembers(tb.buckets[h], s, h, k);
    ElsRemoved(tb, h, el, RemoveAt(s, k));
    var head := Bypass(tb.buckets[h], el, pel, k, s, h);
    OthersKept(tb, h);
    tb.Install(h, head, RemoveAt(s, k));
    tb.live := tb.live - {el.str};
    forall n | n in ElsOf(tb.chains)
      ensures n.str in tb.live && tb.live[n.str] == Share(n, n.references) && n.references > 0
    {
      assert old(tb.live)[n.str].handle == n;
    }
    forall str | str in tb.live
      ensures tb.live[str].handle in tb.chains[Hash(str)] && tb.live[str].handle.str == str
    {
      assert old(tb.live)[str].handle in old(tb.chains)[Hash(str)];
    }
  }

  /** Lines 220-232: a string seen for the first time. */
  method AddNew(tb: StringTable, h: nat, str: CString) returns (el: El)
    requires tb.Valid() && h == Hash(str) && str !in tb.live
    modifies tb`chains, tb`live, tb.buckets
    ensures tb.Valid() && fresh(el) && tb.live == old(tb.live)[str := Share(el, 1)]
    ensures forall n :: n in ElsOf(tb.chains) ==> n in old(ElsOf(tb.chains)) || n == el
  {
    hide IsChain, Hash, ElsOf;
    ghost var s, chains := tb.chains[h], tb.chains;
    el := new El(str);
    InChain(tb, h);
    var head := PushFront(tb.buckets[h], el, s, h);
    OthersKept(tb, h);
    ElsInserted(chains, h, el);
    InsertedMembers(s, el);
    tb.Install(h, head, InsertAt(s, 0, el));
    tb.live := tb.live[str := Share(el, 1)];
  }

  lemma InsertedMembers(s: seq<El>, el: El)
    ensures forall n :: n in InsertAt(s, 0, el) <==> n in s || n == el
  {
    var t := InsertAt(s, 0, el);
    assert t == [el] + s;
  }

  // ----- The public operations -----

  /** `el` is the handle of a live string. */
  ghost predicate IsHandle(tb: StringTable, el: El)
    reads tb`live
  {
    el.str in tb.live && tb.live[el.str].handle == el
  }

  lemma HandlesAreElements(tb: StringTable, el: El)
    requires tb.Valid()
    ensures IsHandle(tb, el) ==> el in tb.chains[Hash(el.str)] && tb.live[el.str].count == el.references > 0
    ensures forall n :: n in tb.chains[Hash(el.str)] ==> n in ElsOf(tb.chains) && IsHandle(tb, n)
  {
    var h := Hash(el.str);
    assert tb.BucketOk(h);
    assert forall n :: n in tb.chains[h] ==> n in ElsOf(tb.chains);
  }

  lemma FoundIsHandle(tb: StringTable, h: nat, el: El)
    requires tb.Valid() && h < BUCKETS && el in tb.chains[h]
    ensures IsHandle(tb, el) && el in ElsOf(tb.chains) && tb.live[el.str].count == el.references > 0
  {
    assert el in ElsOf(tb.chains);
  }

  lemma NotFound(tb: StringTable, str: CString)
    requires tb.Valid() && forall i :: 0 <= i < |tb.chains[Hash(str)]| ==> tb.chains[Hash(str)][i].str != str
    ensures str !in tb.live
  {
  }

  /** evas_stringshare_add: the one handle of a string, counted once more. */
  method AddString(tb: StringTable, str: Key, memory: bool) returns (el: El?)
    requires tb.Valid()
    modifies tb`chains, tb`live, tb.buckets, ElsOf(tb.chains)
    ensures tb.Valid()
    ensures el == null <==> str.NullKey? || (str.text !in old(tb.live) && !memory)
    ensures el != null ==> el.str == str.text && IsHandle(tb, el) && tb.live == Adding(old(tb.live), str.text, memory, el)
    ensures el == null ==> tb.live == old(tb.live)
    ensures el != null ==> if str.text in old(tb.live) then el == old(tb.live)[str.text].handle else fresh(el)
    ensures forall n :: n in ElsOf(tb.chains) ==> n in old(ElsOf(tb.chains)) || fresh(n)
  {
    hide IsChain, Hash, ElsOf, StringTable.BucketOk;
    if str.NullKey? {
      return null;
    }
    var h, len := HashGen(str.text);
    InChain(tb, h);
    var pel;
    ghost var k;
    el, pel, k := Search(tb.buckets[h], str.text, tb.chains[h], h);
    if el != null {
      Retain(tb, h, el, pel, k);
      return;
    }
    NotFound(tb, str.text);
    if !memory {
      return null;
    }
    el := AddNew(tb, h, str.text);
  }

  /** evas_stringshare_del; a string that is not a live handle makes the program abort. */
  method DelString(tb: StringTable, handle: El?) returns (aborted: bool)
    requires tb.Valid()
    modifies tb`chains, tb`live, tb.buckets, ElsOf(tb.chains)
    ensures tb.Valid()
    ensures aborted <==> handle != null && !old(IsHandle(tb, handle))
    ensures tb.live == if handle == null || aborted then old(tb.live) else Deleting(old(tb.live), handle.str)
    ensures forall n :: n in ElsOf(tb.chains) ==> n in old(ElsOf(tb.chains))
  {
    hide IsChain, Hash, ElsOf, StringTable.BucketOk;
    aborted := false;
    if handle == null {
      return;
    }
    var h, len := HashGen(handle.str);
    InChain(tb, h);
    HandlesAreElements(tb, handle);
    var el, pel;
    ghost var k;
    el, pel, k := SearchHandle(tb.buckets[h], handle, tb.chains[h], h);
    if el == null {
      aborted := true;
      return;
    }
    Release(tb, h, el, pel, k);
  }

  /** Lines 251-268: one reference less. */
  method Release(tb: StringTable, h: nat, el: El, pel: El?, ghost k: nat)
    requires tb.Valid() && h < BUCKETS && el == At(tb.chains[h], k) && pel == At(tb.chains[h], k - 1)
    modifies tb`chains, tb`live, tb.buckets, ElsOf(tb.chains)
    ensures tb.Valid() && old(IsHandle(tb, el)) && tb.live == Deleting(old(tb.live), el.str)
    ensures forall n :: n in ElsOf(tb.chains) ==> n in old(ElsOf(tb.chains))
  {
    hide IsChain, Hash, ElsOf, StringTable.BucketOk;
    FoundIsHandle(tb, h, el);
    el.references := el.references - 1;
    if el.references == 0 {
      Forget(tb, h, el, pel, k);
    } else {
      Recount(tb, el);
      BringForward(tb, h, el, pel, k);
    }
  }

  /** Lines 207-217: one reference more. */
  method Retain(tb: StringTable, h: nat, el: El, pel: El?, ghost k: nat)
    requires tb.Valid() && h < BUCKETS && el == At(tb.chains[h], k) && pel == At(tb.chains[h], k - 1)
    modifies tb`chains, tb`live, tb.buckets, ElsOf(tb.chains)
    ensures tb.Valid() && old(IsHandle(tb, el)) && tb.live == Adding(old(tb.live), el.str, true, el)
    ensures ElsOf(tb.chains) == old(ElsOf(tb.chains))
  {
    hide IsChain, Hash, ElsOf, StringTable.BucketOk;
    FoundIsHandle(tb, h, el);
    BringForward(tb, h, el, pel, k);
    el.references := el.references + 1;
    Recount(tb, el);
  }
}
