/** Evas_Hash: 256 buckets with move-to-front on lookup. This module holds the table as plain
    sequences and shows that it is a map from keys to stacks; EvasHashHeap refines it. */
module EvasHash {
  import opened Payloads
  import opened Sequences
  import opened CStrings

  const BUCKETS := 256

  datatype Entry = Entry(key: CString, data: Ptr)

  type Bucket = seq<Entry>

  // ----- The hash of a key -----

  function Code(key: CString): bv32 {
    MixAll(SEED, key) & 0xff
  }

  function Hash(key: CString): (r: nat)
    ensures r < BUCKETS
  {
    Code(key) as nat
  }

  /** The bucket of a string, character by character. */
  lemma CodeByCharacter(key: CString, c: Byte)
    ensures Hash(key) == Code(key) as nat
    ensures Code([]) == 5
    ensures Code(key + [c]) == ((Code(key) * 33) ^ (c as bv32)) & 0xff
  {
    hide MixAll;
    MixNone(SEED);
    MixLast(SEED, key, c);
    LowBits(MixAll(SEED, key), c as bv32);
  }

  /** _evas_hash_gen on a key that is not NULL. */
  method HashGen(key: CString) returns (h: nat)
    ensures h == Hash(key)
  {
    var hashNum: bv32, ptr := SEED, 0;
    while ptr < |key|
      invariant 0 <= ptr <= |key|
      invariant MixAll(hashNum, key[ptr..]) == MixAll(SEED, key)
    {
      assert key[ptr..][1..] == key[ptr + 1..];
      hashNum := Mix(hashNum, key[ptr]);
      ptr := ptr + 1;
    }
    h := (hashNum & 0xff) as nat;
  }

  // ----- One bucket -----

  /** The first entry for `key`, or one past the end. */
  function Find(b: Bucket, key: CString): (k: nat)
    ensures k <= |b|
    ensures k < |b| ==> b[k].key == key
    ensures forall i :: 0 <= i < k ==> b[i].key != key
  {
    FirstWhere(b, (e: Entry) => e.key == key)
  }

  predicate Matches(e: Entry, key: CString, data: Ptr) {
    e.key == key && (data == NULL || e.data == data)
  }

  /** The first entry for `key` that holds `data`, any data if that is NULL. */
  function FindMatch(b: Bucket, key: CString, data: Ptr): (k: nat)
    ensures k <= |b|
    ensures k < |b| ==> Matches(b[k], key, data)
    ensures forall i :: 0 <= i < k ==> !Matches(b[i], key, data)
  {
    FirstWhere(b, (e: Entry) => Matches(e, key, data))
  }

  /** The first entry that holds `data`. */
  function FindData(b: Bucket, data: Ptr): (k: nat)
    ensures k <= |b|
    ensures k < |b| ==> b[k].data == data
    ensures forall i :: 0 <= i < k ==> b[i].data != data
  {
    FirstWhere(b, (e: Entry) => e.data == data)
  }

  /** What is stored under `key`, most recently added first. */
  function StackOf(b: Bucket, key: CString): seq<Ptr> {
    if b == [] then [] else Top(b[0], key) + StackOf(b[1..], key)
  }

  /** `s` without its first occurrence of `d`. */
  function WithoutFirst(s: seq<Ptr>, d: Ptr): seq<Ptr> {
    if s == [] then [] else if s[0] == d then s[1..] else [s[0]] + WithoutFirst(s[1..], d)
  }

  /** `s` has something that a deletion with `d` takes, which is anything if that is NULL. */
  predicate Holds(s: seq<Ptr>, d: Ptr) {
    s != [] && (d == NULL || d in s)
  }

  function Top(e: Entry, key: CString): seq<Ptr> {
    if e.key == key then [e.data] else []
  }

  lemma WithoutFirstCons(e: Entry, key: CString, s: seq<Ptr>, d: Ptr)
    ensures WithoutFirst(Top(e, key) + s, d) == if e.key == key && e.data == d then s else Top(e, key) + WithoutFirst(s, d)
  {
    if e.key == key {
      assert ([e.data] + s)[1..] == s;
    } else {
      assert [] + s == s;
    }
  }

  lemma StackCons(b: Bucket, key: CString)
    requires b != []
    ensures StackOf(b, key) == Top(b[0], key) + StackOf(b[1..], key)
  {
  }

  lemma {:induction false} StackConcat(a: Bucket, b: Bucket, key: CString)
    ensures StackOf(a + b, key) == StackOf(a, key) + StackOf(b, key)
  {
    hide StackOf, Top;
    if a == [] {
      assert a + b == b;
      NoneStacked(a, key);
    } else {
      StackCons(a, key);
      StackCons(a + b, key);
      assert (a + b)[1..] == a[1..] + b;
      StackConcat(a[1..], b, key);
    }
  }

  lemma {:induction false} NoneStacked(b: Bucket, key: CString)
    requires forall i :: 0 <= i < |b| ==> b[i].key != key
    ensures StackOf(b, key) == []
  {
    if b != [] {
      NoneStacked(b[1..], key);
    }
  }

  /** The stack of a key when the entry at position k is singled out. */
  lemma StackSplit(b: Bucket, k: nat, key: CString)
    requires k < |b|
    ensures StackOf(b, key) ==
            StackOf(b[..k], key) + Top(b[k], key) + StackOf(b[k + 1..], key)
  {
    assert b == b[..k] + b[k..] && b[k..][1..] == b[k + 1..];
    StackConcat(b[..k], b[k..], key);
  }

  /** Moving the first entry for its key to the front changes no stack. */
  lemma MoveToFrontKeepsStacks(b: Bucket, k: nat, key: CString)
    requires k < |b| && Find(b, b[k].key) == k
    ensures StackOf(MoveTo(b, 0, k), key) == StackOf(b, key)
  {
    hide StackOf, Find, MoveTo;
    StackSplit(b, k, key);
    var t := MoveTo(b, 0, k);
    assert t[0] == b[k] && t[1..] == b[..k] + b[k + 1..];
    StackCons(t, key);
    StackConcat(b[..k], b[k + 1..], key);
    if b[k].key == key {
      NoneStacked(b[..k], key);
      Regroup(Top(b[k], key), [], StackOf(b[k + 1..], key));
    } else {
      Regroup([], StackOf(b[..k], key), StackOf(b[k + 1..], key));
    }
  }

  lemma Regroup(a: seq<Ptr>, b: seq<Ptr>, c: seq<Ptr>)
    ensures a == [] || b == [] ==> a + (b + c) == b + a + c
  {
  }

  /** The first entry for a key is the top of its stack. */
  lemma FirstIsTop(b: Bucket, key: CString)
    ensures Find(b, key) == |b| <==> StackOf(b, key) == []
    ensures Find(b, key) < |b| ==> StackOf(b, key)[0] == b[Find(b, key)].data
  {
    var k := Find(b, key);
    if k < |b| {
      StackSplit(b, k, key);
      NoneStacked(b[..k], key);
    } else {
      NoneStacked(b, key);
    }
  }

  /** Taking out the entry at position k leaves the stacks of other keys alone. */
  lemma RemoveKeepsOthers(b: Bucket, k: nat, key: CString)
    requires k < |b| && b[k].key != key
    ensures StackOf(RemoveAt(b, k), key) == StackOf(b, key)
  {
    StackSplit(b, k, key);
    StackConcat(b[..k], b[k + 1..], key);
  }

  lemma {:induction false} RemoveFirstHolding(b: Bucket, k: nat)
    requires k < |b| && forall i :: 0 <= i < k ==> b[i].key != b[k].key || b[i].data != b[k].data
    ensures StackOf(RemoveAt(b, k), b[k].key) == WithoutFirst(StackOf(b, b[k].key), b[k].data)
  {
    hide StackOf, WithoutFirst, Top;
    var key, data, t := b[k].key, b[k].data, RemoveAt(b, k);
    StackCons(b, key);
    WithoutFirstCons(b[0], key, StackOf(b[1..], key), data);
    if k == 0 {
      assert t == b[1..];
    } else {
      assert t[0] == b[0] && t[1..] == RemoveAt(b[1..], k - 1);
      StackCons(t, key);
      RemoveFirstHolding(b[1..], k - 1);
    }
  }

  lemma {:induction false} NothingHolds(b: Bucket, key: CString, data: Ptr)
    requires forall i :: 0 <= i < |b| ==> b[i].key != key || b[i].data != data
    ensures WithoutFirst(StackOf(b, key), data) == StackOf(b, key) && data !in StackOf(b, key)
  {
    if b != [] {
      NothingHolds(b[1..], key, data);
      WithoutFirstCons(b[0], key, StackOf(b[1..], key), data);
    }
  }

  // ----- The table -----

  type Table = t: seq<Bucket> | |t| == BUCKETS witness seq(BUCKETS, _ => [])

  const EMPTY: Table := seq(BUCKETS, _ => [])

  /** Every entry is in the bucket of its key. */
  ghost predicate Sound(t: Table) {
    forall i, k :: 0 <= i < BUCKETS && 0 <= k < |t[i]| ==> Hash(t[i][k].key) == i
  }

  function Stack(t: Table, key: CString): seq<Ptr> {
    StackOf(t[Hash(key)], key)
  }

  function Total(t: seq<Bucket>): nat {
    if t == [] then 0 else |t[0]| + Total(t[1..])
  }

  lemma {:induction false} TotalUpdate(t: seq<Bucket>, i: nat, b: Bucket)
    requires i < |t|
    ensures Total(t[i := b]) == Total(t) - |t[i]| + |b|
  {
    if i == 0 {
      assert t[0 := b][1..] == t[1..];
    } else {
      assert t[i := b][1..] == t[1..][i - 1 := b];
      TotalUpdate(t[1..], i - 1, b);
    }
  }

  function Added(t: Table, key: CString, data: Ptr): Table {
    t[Hash(key) := InsertAt(t[Hash(key)], 0, Entry(key, data))]
  }

  /** What a lookup leaves. */
  function Touched(t: Table, key: CString): Table {
    var b := t[Hash(key)];
    var k := Find(b, key);
    if k < |b| then t[Hash(key) := MoveTo(b, 0, k)] else t
  }

  function Found(t: Table, key: CString): Ptr {
    var b := t[Hash(key)];
    var k := Find(b, key);
    if k < |b| then b[k].data else NULL
  }

  function Modified(t: Table, key: CString, data: Ptr): Table {
    var b := t[Hash(key)];
    var k := Find(b, key);
    if k < |b| then t[Hash(key) := MoveTo(b, 0, k)[0 := Entry(key, data)]] else t
  }

  function Deleted(t: Table, key: CString, data: Ptr): Table {
    var b := t[Hash(key)];
    var k := FindMatch(b, key, data);
    if k < |b| then t[Hash(key) := RemoveAt(b, k)] else t
  }

  /** The first bucket from `i` on that holds `data`. */
  function BucketWith(t: Table, i: nat, data: Ptr): (r: nat)
    requires i <= BUCKETS
    ensures i <= r <= BUCKETS
    ensures r < BUCKETS ==> FindData(t[r], data) < |t[r]|
    ensures forall j :: i <= j < r ==> FindData(t[j], data) == |t[j]|
    decreases |t| - i
  {
    if i == BUCKETS then i else if FindData(t[i], data) < |t[i]| then i else BucketWith(t, i + 1, data)
  }

  /** evas_hash_del without a key. */
  function DeletedAnywhere(t: Table, data: Ptr): Table {
    var i := BucketWith(t, 0, data);
    if i < BUCKETS then t[i := RemoveAt(t[i], FindData(t[i], data))] else t
  }

  // ----- What a call leaves comes first in its bucket -----

  /** Bucket `h` of `t'` is `e` and then the other entries in the order they had in `t`, without
      the one at position `k` of its bucket; all other buckets are those of `t`. */
  ghost predicate Leads(t': Table, t: Table, h: nat, e: Entry, k: nat) {
    && h < BUCKETS && k <= |t[h]|
    && t'[h] == [e] + t[h][..k] + (if k < |t[h]| then t[h][k + 1..] else [])
    && forall i :: 0 <= i < BUCKETS && i != h ==> t'[i] == t[i]
  }

  /** A new entry comes first. */
  lemma AddedComesFirst(t: Table, key: CString, data: Ptr)
    ensures Leads(Added(t, key, data), t, Hash(key), Entry(key, data), |t[Hash(key)]|)
  {
    hide Hash;
    var b := t[Hash(key)];
    assert b[..|b|] == b && [Entry(key, data)] + b + [] == InsertAt(b, 0, Entry(key, data));
  }

  /** So does the entry that a lookup or a change hits, which is the first one for its key. */
  lemma HitComesFirst(t: Table, key: CString, data: Ptr, k: nat)
    requires k < |t[Hash(key)]| && t[Hash(key)][k].key == key && forall i :: 0 <= i < k ==> t[Hash(key)][i].key != key
    ensures Leads(Touched(t, key), t, Hash(key), Entry(key, Found(t, key)), k) && Found(t, key) == t[Hash(key)][k].data
    ensures Leads(Modified(t, key, data), t, Hash(key), Entry(key, data), k)
  {
    hide Hash;
    var b := t[Hash(key)];
    assert Find(b, key) == k;
    assert MoveTo(b, 0, k) == [b[k]] + b[..k] + b[k + 1..];
    assert MoveTo(b, 0, k)[0 := Entry(key, data)] == [Entry(key, data)] + b[..k] + b[k + 1..];
  }

  /** A miss leaves the table as it was. */
  lemma MissKeepsTable(t: Table, key: CString, data: Ptr)
    requires forall i :: 0 <= i < |t[Hash(key)]| ==> t[Hash(key)][i].key != key
    ensures Touched(t, key) == t && Found(t, key) == NULL && Modified(t, key, data) == t
  {
    hide Hash;
    assert Find(t[Hash(key)], key) == |t[Hash(key)]|;
  }

  /** Of the entries of one bucket that hold the same data, the one looked up last is what a
      deletion without a key takes. */
  lemma LookupDecidesDeletion(t: Table, key: CString)
    requires Find(t[Hash(key)], key) < |t[Hash(key)]|
    requires forall i :: 0 <= i < Hash(key) ==> FindData(t[i], Found(t, key)) == |t[i]|
    ensures HitKey(Touched(t, key), Found(t, key)) == Str(key)
  {
    hide Hash;
    var h, data, t' := Hash(key), Found(t, key), Touched(t, key);
    assert t'[h][0].data == data && t'[h][0].key == key;
    assert FindData(t'[h], data) == 0;
    assert BucketWith(t', 0, data) == h by {
      assert forall i :: 0 <= i < h ==> FindData(t'[i], data) == |t'[i]|;
    }
  }

  // ----- The table is a map from keys to stacks -----

  /** Adding pushes. */
  lemma AddPushes(t: Table, key: CString, data: Ptr, other: CString)
    requires Sound(t)
    ensures Sound(Added(t, key, data)) && Total(Added(t, key, data)) == Total(t) + 1
    ensures Stack(Added(t, key, data), other) == if other == key then [data] + Stack(t, key) else Stack(t, other)
  {
    hide Hash, Total;
    var b := t[Hash(key)];
    TotalUpdate(t, Hash(key), InsertAt(b, 0, Entry(key, data)));
    assert InsertAt(b, 0, Entry(key, data))[1..] == b;
  }

  /** Looking up peeks and, for all that it reorders, changes no stack. */
  lemma FindPeeks(t: Table, key: CString, other: CString)
    requires Sound(t)
    ensures Sound(Touched(t, key)) && Total(Touched(t, key)) == Total(t)
    ensures Stack(Touched(t, key), other) == Stack(t, other)
    ensures Found(t, key) == if Stack(t, key) == [] then NULL else Stack(t, key)[0]
  {
    hide Hash, Total;
    var b := t[Hash(key)];
    var k := Find(b, key);
    FirstIsTop(b, key);
    if k < |b| {
      TotalUpdate(t, Hash(key), MoveTo(b, 0, k));
      MoveToFrontKeepsStacks(b, k, other);
    }
  }

  /** Modifying replaces the top, if there is one. */
  lemma ModifyReplacesTop(t: Table, key: CString, data: Ptr, other: CString)
    requires Sound(t)
    ensures Sound(Modified(t, key, data)) && Total(Modified(t, key, data)) == Total(t)
    ensures Stack(Modified(t, key, data), other) ==
            if other == key && Stack(t, key) != [] then [data] + Stack(t, key)[1..] else Stack(t, other)
  {
    hide Hash, Total;
    var b := t[Hash(key)];
    var k := Find(b, key);
    FirstIsTop(b, key);
    if k < |b| {
      var m := MoveTo(b, 0, k);
      var b' := m[0 := Entry(key, data)];
      TotalUpdate(t, Hash(key), b');
      MoveToFrontKeepsStacks(b, k, other);
      assert b'[1..] == m[1..];
    }
  }

  /** Deleting by key pops; with data as well it removes the topmost entry that holds it. */
  lemma DeletePops(t: Table, key: CString, data: Ptr, other: CString)
    requires Sound(t)
    ensures Sound(Deleted(t, key, data))
    ensures Stack(Deleted(t, key, data), other) ==
            var s := Stack(t, other);
            if other != key || s == [] then s else if data == NULL then s[1..] else WithoutFirst(s, data)
    ensures Total(Deleted(t, key, data)) == if Holds(Stack(t, key), data) then Total(t) - 1 else Total(t)
  {
    hide Hash, Total;
    var h := Hash(key);
    var b := t[h];
    var k := FindMatch(b, key, data);
    if k < |b| {
      TotalUpdate(t, h, RemoveAt(b, k));
      DeleteMatch(b, k, data);
      if other != key {
        RemoveKeepsOthers(b, k, other);
      }
    } else if data != NULL {
      NothingHolds(b, key, data);
    } else {
      NoneStacked(b, key);
    }
  }

  lemma DeleteMatch(b: Bucket, k: nat, data: Ptr)
    requires k < |b| && FindMatch(b, b[k].key, data) == k
    ensures var s := StackOf(b, b[k].key);
            Holds(s, data) && StackOf(RemoveAt(b, k), b[k].key) == if data == NULL then s[1..] else WithoutFirst(s, data)
  {
    var key := b[k].key;
    StackSplit(b, k, key);
    if data == NULL {
      NoneStacked(b[..k], key);
      StackConcat(b[..k], b[k + 1..], key);
    } else {
      RemoveFirstHolding(b, k);
    }
  }

  /** The key of the entry that a deletion without a key takes, NULL if there is none. */
  function HitKey(t: Table, data: Ptr): Key {
    var i := BucketWith(t, 0, data);
    if i < BUCKETS then Str(t[i][FindData(t[i], data)].key) else NullKey
  }

  /** Deleting without a key removes, for one key, the topmost entry that holds the data, if
      any entry anywhere does. */
  lemma DeleteAnywhere(t: Table, data: Ptr, other: CString)
    requires Sound(t)
    ensures Sound(DeletedAnywhere(t, data))
    ensures match HitKey(t, data)
            case NullKey => DeletedAnywhere(t, data) == t && data !in Stack(t, other)
            case Str(key) =>
              && data in Stack(t, key) && Total(DeletedAnywhere(t, data)) == Total(t) - 1
              && Stack(DeletedAnywhere(t, data), other) == if other == key then WithoutFirst(Stack(t, key), data) else Stack(t, other)
  {
    hide Hash, Total;
    var i := BucketWith(t, 0, data);
    if i < BUCKETS {
      var b := t[i];
      var k := FindData(b, data);
      TotalUpdate(t, i, RemoveAt(b, k));
      StackSplit(b, k, b[k].key);
      RemoveFirstHolding(b, k);
      if other != b[k].key { RemoveKeepsOthers(b, k, other); }
    } else {
      assert FindData(t[Hash(other)], data) == |t[Hash(other)]|;
      NothingHolds(t[Hash(other)], other, data);
    }
  }

  /** The table is empty exactly when every stack is. */
  lemma EmptyIffNothingStacked(t: Table)
    requires Sound(t)
    ensures Total(t) == 0 <==> forall key :: Stack(t, key) == []
  {
    hide Hash, Total;
    if Total(t) == 0 {
      NothingLeft(t);
    } else {
      var i := SomeBucket(t);
      FirstIsTop(t[i], t[i][0].key);
      assert Stack(t, t[i][0].key) != [];
    }
  }

  lemma {:induction false} NothingIn(t: seq<Bucket>, i: nat)
    requires Total(t) == 0 && i < |t|
    ensures t[i] == []
  {
    if i > 0 {
      NothingIn(t[1..], i - 1);
    }
  }

  lemma NothingLeft(t: Table)
    requires Total(t) == 0
    ensures t == EMPTY
  {
    forall i | 0 <= i < BUCKETS
      ensures t[i] == EMPTY[i]
    {
      NothingIn(t, i);
    }
  }

  lemma EmptyTotal(n: nat)
    ensures Total(seq(n, _ => [])) == 0
  {
    var t: seq<Bucket> := seq(n, _ => []);
    if n > 0 {
      assert t[1..] == seq(n - 1, _ => []);
      EmptyTotal(n - 1);
    }
  }

  lemma AllEmpty(t: Table)
    requires forall j :: 0 <= j < BUCKETS ==> t[j] == []
    ensures t == EMPTY && Total(t) == 0
  {
    EmptyTotal(BUCKETS);
    assert t == EMPTY;
  }

  lemma SomeBucket(t: Table) returns (i: nat)
    requires Total(t) > 0
    ensures i < BUCKETS && t[i] != []
  {
    if forall j :: 0 <= j < BUCKETS ==> t[j] == [] {
      AllEmpty(t);
    }
    i :| 0 <= i < BUCKETS && t[i] != [];
  }

  // ----- Runs -----

  /** A call with its arguments; the flags say whether memory for a table and for an element is
      there. */
  datatype Op =
    | Add(key: Key, data: Ptr, tableOk: bool, elOk: bool)
    | Lookup(key: Key)
    | Modify(key: Key, data: Ptr)
    | Delete(key: Key, data: Ptr)

  /** What an addition stores; an empty table has to be allocated first. */
  predicate Stores(op: Op, t: Table) {
    op.Add? && op.key.Str? && op.data != NULL && op.elOk && (op.tableOk || Total(t) > 0)
  }

  function Apply(op: Op, t: Table): Table {
    match op
    case Add(k, d, _, _) => if Stores(op, t) then Added(t, k.text, d) else t
    case Lookup(k) => if k.Str? then Touched(t, k.text) else t
    case Modify(k, d) => if k.Str? then Modified(t, k.text, d) else t
    case Delete(k, d) => if k.Str? then Deleted(t, k.text, d) else DeletedAnywhere(t, d)
  }

  /** The data an operation returns. */
  function Answer(op: Op, t: Table): Ptr {
    if (op.Lookup? || op.Modify?) && op.key.Str? then Found(t, op.key.text) else NULL
  }

  /** The error flag after an operation: additions with both arguments and lookups set it. */
  function Failed(op: Op, t: Table, flag: bool): bool {
    match op
    case Add(k, d, _, _) => if k.NullKey? || d == NULL then flag else !Stores(op, t)
    case Lookup(_) => false
    case Modify(_, _) => false
    case Delete(_, _) => flag
  }

  function Run(ops: seq<Op>, t: Table): Table {
    if ops == [] then t else Run(ops[1..], Apply(ops[0], t))
  }

  function Answers(ops: seq<Op>, t: Table): seq<Ptr> {
    if ops == [] then [] else [Answer(ops[0], t)] + Answers(ops[1..], Apply(ops[0], t))
  }

  function FlagAfter(ops: seq<Op>, t: Table, flag: bool): bool {
    if ops == [] then flag else FlagAfter(ops[1..], Apply(ops[0], t), Failed(ops[0], t, flag))
  }

  /** What an operation does to the stack of one key. */
  datatype Effect = Nothing | Push(key: CString, data: Ptr) | SetTop(key: CString, data: Ptr) | Pop(key: CString) | Take(key: CString, data: Ptr)

  function EffectOf(op: Op, t: Table): Effect {
    match op
    case Add(k, d, _, _) => if Stores(op, t) then Push(k.text, d) else Nothing
    case Lookup(_) => Nothing
    case Modify(k, d) => if k.Str? && Stack(t, k.text) != [] then SetTop(k.text, d) else Nothing
    case Delete(k, d) =>
      if k.Str? then
        if !Holds(Stack(t, k.text), d) then Nothing else if d == NULL then Pop(k.text) else Take(k.text, d)
      else
        var hit := HitKey(t, d);
        if hit.Str? then Take(hit.text, d) else Nothing
  }

  function Effects(ops: seq<Op>, t: Table): seq<Effect> {
    if ops == [] then [] else [EffectOf(ops[0], t)] + Effects(ops[1..], Apply(ops[0], t))
  }

  function OnStack(e: Effect, s: seq<Ptr>): seq<Ptr> {
    match e
    case Nothing => s
    case Push(_, d) => [d] + s
    case SetTop(_, d) => if s == [] then [] else [d] + s[1..]
    case Pop(_) => if s == [] then [] else s[1..]
    case Take(_, d) => WithoutFirst(s, d)
  }

  /** The number of entries that an operation adds. */
  function Change(e: Effect): int {
    match e
    case Push(_, _) => 1
    case Pop(_) => -1
    case Take(_, _) => -1
    case _ => 0
  }

  /** What an operation leaves on the stack of `key`. */
  function OnKey(e: Effect, key: CString, s: seq<Ptr>): seq<Ptr> {
    if e != Nothing && e.key == key then OnStack(e, s) else s
  }

  /** The stack of one key as if the table held nothing else. */
  function RunStack(effects: seq<Effect>, key: CString, s: seq<Ptr>): seq<Ptr> {
    if effects == [] then s
    else RunStack(effects[1..], key, OnKey(effects[0], key, s))
  }

  /** What is stored less what is taken out. */
  function Net(effects: seq<Effect>): int {
    if effects == [] then 0 else Change(effects[0]) + Net(effects[1..])
  }

  lemma ApplyHasEffect(op: Op, t: Table, key: CString)
    requires Sound(t)
    ensures Sound(Apply(op, t)) && Total(Apply(op, t)) == Total(t) + Change(EffectOf(op, t))
    ensures Stack(Apply(op, t), key) == OnKey(EffectOf(op, t), key, Stack(t, key))
  {
    hide Hash, Sound, Stack, Added, Touched, Modified, Deleted, DeletedAnywhere, HitKey, Total, WithoutFirst;
    match op {
      case Add(k, d, _, _) => if k.Str? { AddPushes(t, k.text, d, key); }
      case Lookup(k) => if k.Str? { FindPeeks(t, k.text, key); }
      case Modify(k, d) => if k.Str? { ModifyReplacesTop(t, k.text, d, key); }
      case Delete(k, d) =>
        if k.Str? {
          DeletePops(t, k.text, d, key);
          Unheld(Stack(t, k.text), d);
        } else {
          DeleteAnywhere(t, d, key);
        }
    }
  }

  lemma Unheld(s: seq<Ptr>, d: Ptr)
    ensures d !in s ==> WithoutFirst(s, d) == s
  {
  }

  /** In every run each key behaves like a stack of its own, whatever is done to the others, and
      the table holds what was stored less what was taken out. */
  lemma {:induction false} EveryRun(ops: seq<Op>, t: Table, key: CString)
    requires Sound(t)
    ensures Sound(Run(ops, t)) && Stack(Run(ops, t), key) == RunStack(Effects(ops, t), key, Stack(t, key))
    ensures Total(Run(ops, t)) == Total(t) + Net(Effects(ops, t))
  {
    hide Hash, Sound, Stack, Apply, EffectOf, Total, OnKey, Change;
    if ops != [] {
      ApplyHasEffect(ops[0], t, key);
      EveryRun(ops[1..], Apply(ops[0], t), key);
    }
  }
}
