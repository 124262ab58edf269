/** Evas_Hash on the heap: an array of bucket heads over Evas_Object_List. Every operation
    refines EvasHash; a NULL table stands for the empty one. */
module EvasHashHeap {
  import opened Payloads
  import opened CStrings
  import opened Sequences
  import opened EvasObjectList
  import opened EvasHash

  /** The static error flag of evas_hash.c. */
  class Status {
    var allocError: bool

    constructor ()
      ensures !allocError
    {
      allocError := false;
    }
  }

  // ----- Buckets -----

  ghost function EntriesOf(s: seq<Item>): (b: Bucket)
    reads s
    ensures |b| == |s|
    ensures forall i {:trigger b[i]} {:trigger s[i].key} :: 0 <= i < |s| ==> b[i] == Entry(s[i].key, s[i].data)
  {
    seq(|s|, i requires 0 <= i < |s| reads s => Entry(s[i].key, s[i].data))
  }

  /** A well-formed list that caches its tail and holds only keys that hash to `h`. */
  ghost predicate IsBucket(head: Item?, s: seq<Item>, h: int)
    reads s
  {
    IsList(head, s) && Cached(s) && forall i {:trigger s[i].key} :: 0 <= i < |s| ==> Hash(s[i].key) == h
  }

  /** Keys and data are where they were. */
  twostate predicate SamePayload(s: seq<Item>)
    reads s
  {
    forall i {:trigger s[i].key} {:trigger s[i].data} :: 0 <= i < |s| ==> s[i].key == old(s[i].key) && s[i].data == old(s[i].data)
  }

  method Search(head: Item?, key: CString, ghost s: seq<Item>) returns (l: Item?, ghost k: nat)
    requires IsList(head, s)
    ensures l == At(s, Find(EntriesOf(s), key)) && k == Find(EntriesOf(s), key)
  {
    l, k := head, 0;
    while l != null
      invariant 0 <= k <= |s| && l == At(s, k)
      invariant forall i :: 0 <= i < k ==> EntriesOf(s)[i].key != key
      decreases |s| - k
    {
      if l.key == key {
        return;
      }
      l := l.next;
      k := k + 1;
    }
  }

  method SearchMatch(head: Item?, key: CString, data: Ptr, ghost s: seq<Item>) returns (l: Item?, ghost k: nat)
    requires IsList(head, s)
    ensures l == At(s, FindMatch(EntriesOf(s), key, data)) && k == FindMatch(EntriesOf(s), key, data)
  {
    l, k := head, 0;
    while l != null
      invariant 0 <= k <= |s| && l == At(s, k)
      invariant forall i :: 0 <= i < k ==> !Matches(EntriesOf(s)[i], key, data)
      decreases |s| - k
    {
      if l.key == key {
        if data == NULL || l.data == data {
          return;
        }
      }
      l := l.next;
      k := k + 1;
    }
  }

  method SearchData(head: Item?, data: Ptr, ghost s: seq<Item>) returns (l: Item?, ghost k: nat)
    requires IsList(head, s)
    ensures l == At(s, FindData(EntriesOf(s), data)) && k == FindData(EntriesOf(s), data)
  {
    l, k := head, 0;
    while l != null
      invariant 0 <= k <= |s| && l == At(s, k)
      invariant forall i :: 0 <= i < k ==> EntriesOf(s)[i].data != data
      decreases |s| - k
    {
      if l.data == data {
        assert EntriesOf(s)[k].data == data;
        return;
      }
      l := l.next;
      k := k + 1;
    }
  }

  method RemoveFromBucket(head0: Item?, item: Item, ghost k: nat, ghost s: seq<Item>, ghost h: int) returns (head: Item?)
    requires IsBucket(head0, s, h) && item == At(s, k)
    modifies s`next, s`prev, s`last
    ensures IsBucket(head, RemoveAt(s, k), h) && EntriesOf(RemoveAt(s, k)) == RemoveAt(old(EntriesOf(s)), k)
  {
    hide IsList, Cached, Hash;
    head := Remove(head0, item, k, s);
    assert SamePayload(s);
    ghost var t := RemoveAt(s, k);
    forall i | 0 <= i < |t|
      ensures t[i] == s[if i < k then i else i + 1]
    {
    }
    assert EntriesOf(s) == old(EntriesOf(s));
  }

  method MoveInBucket(head0: Item, item: Item, ghost k: nat, ghost s: seq<Item>, ghost h: int) returns (head: Item?)
    requires IsBucket(head0, s, h) && item == At(s, k)
    modifies s`next, s`prev, s`last
    ensures IsBucket(head, MoveTo(s, 0, k), h) && EntriesOf(MoveTo(s, 0, k)) == MoveTo(old(EntriesOf(s)), 0, k)
  {
    hide IsList, Cached, Hash;
    head := MoveToFront(head0, item, k, s);
    assert SamePayload(s);
    ghost var t := MoveTo(s, 0, k);
    forall i | 0 <= i < |t|
      ensures t[i] == s[if i > k then i else if i == 0 then k else i - 1]
    {
    }
    assert EntriesOf(s) == old(EntriesOf(s));
  }

  method AddToBucket(head0: Item?, item: Item, ghost s: seq<Item>, ghost h: int) returns (head: Item)
    requires IsBucket(head0, s, h) && item !in s && Hash(item.key) == h
    modifies s`prev, s`last, item`next, item`prev, item`last
    ensures IsBucket(head, InsertAt(s, 0, item), h)
    ensures EntriesOf(InsertAt(s, 0, item)) == InsertAt(old(EntriesOf(s)), 0, Entry(item.key, item.data))
  {
    hide IsList, Cached, Hash;
    head := Prepend(head0, item, s);
    assert SamePayload(s);
    ghost var t := InsertAt(s, 0, item);
    forall i | 0 < i < |t|
      ensures t[i] == s[i - 1]
    {
    }
    assert EntriesOf(s) == old(EntriesOf(s));
  }

  // ----- The table -----

  ghost function NodesOf(chains: seq<seq<Item>>): set<Item> {
    set c, n | c in chains && n in c :: n
  }

  ghost function TableOf(chains: seq<seq<Item>>): (t: Table)
    requires |chains| == BUCKETS
    reads NodesOf(chains)
    ensures forall i {:trigger t[i]} {:trigger chains[i]} :: 0 <= i < BUCKETS ==> t[i] == EntriesOf(chains[i])
  {
    assert forall i, n :: 0 <= i < BUCKETS && n in chains[i] ==> n in NodesOf(chains);
    seq(BUCKETS, i requires 0 <= i < BUCKETS && |chains| == BUCKETS reads NodesOf(chains) =>
      assert forall n :: n in chains[i] ==> n in NodesOf(chains); EntriesOf(chains[i]))
  }

  class HashTable {
    const buckets: array<Item?>
    var population: int
    ghost var chains: seq<seq<Item>>

    ghost predicate Shape()
      reads this`chains
    {
      buckets.Length == BUCKETS == |chains|
    }

    /** Bucket i is a well-formed list of the items of chain i. */
    ghost predicate BucketOk(i: int)
      requires Shape() && 0 <= i < BUCKETS
      reads this`chains, buckets, NodesOf(chains)
    {
      assert forall n :: n in chains[i] ==> n in NodesOf(chains);
      IsBucket(buckets[i], chains[i], i)
    }

    ghost predicate Ok()
      reads this`chains, buckets, NodesOf(chains)
    {
      Shape() && forall i :: 0 <= i < BUCKETS ==> BucketOk(i)
    }

    ghost function Contents(): (t: Table)
      requires Shape()
      reads this`chains, NodesOf(chains)
      ensures forall i {:trigger t[i]} {:trigger chains[i]} :: 0 <= i < BUCKETS ==> t[i] == EntriesOf(chains[i])
    {
      TableOf(chains)
    }

    ghost predicate Valid()
      reads this, buckets, NodesOf(chains)
    {
      Ok() && population == Total(Contents())
    }

    constructor ()
      ensures Ok() && Contents() == EMPTY && population == 0 && fresh(buckets) && NodesOf(chains) == {}
    {
      buckets := new Item?[BUCKETS](_ => null);
      population := 0;
      chains := seq(BUCKETS, _ => []);
    }

    /** Only bucket h may be out of order; the table reads as `t` apart from that. */
    ghost predicate OthersOk(h: int, t: Table)
      reads this`chains, buckets, NodesOf(chains)
    {
      Shape() && 0 <= h < BUCKETS && forall i :: 0 <= i < BUCKETS && i != h ==> BucketOk(i) && Contents()[i] == t[i]
    }

    /** Store the new head of bucket h. */
    method Install(h: nat, head: Item?, ghost s: seq<Item>, ghost t: Table)
      requires OthersOk(h, t) && IsBucket(head, s, h)
      modifies this`chains, buckets
      ensures Ok() && chains == old(chains)[h := s] && Contents() == t[h := EntriesOf(s)]
    {
      hide IsBucket, EntriesOf;
      buckets[h] := head;
      chains := chains[h := s];
      forall i | 0 <= i < BUCKETS
        ensures BucketOk(i) && Contents()[i] == t[h := EntriesOf(s)][i]
      {
        if i != h { assert old(BucketOk(i)) && old(Contents())[i] == t[i]; }
      }
    }

    method Count(change: int)
      requires Ok()
      modifies this`population
      ensures Ok() && population == old(population) + change && Contents() == old(Contents())
    {
      population := population + change;
      forall i | 0 <= i < BUCKETS
        ensures BucketOk(i)
      {
        assert old(BucketOk(i));
      }
    }
  }

  twostate lemma BucketKept(s: seq<Item>, new head: Item?, new h: int)
    requires head == At(s, 0) && old(IsBucket(At(s, 0), s, h)) && forall n :: n in s ==> unchanged(n)
    ensures IsBucket(head, s, h) && EntriesOf(s) == old(EntriesOf(s))
  {
    forall k | 0 <= k < |s|
      ensures unchanged(s[k])
    {
      assert s[k] in s;
    }
  }

  twostate lemma OneBucket(tb: HashTable, new i: int, new h: int, new n: Item)
    requires old(tb.Ok()) && unchanged(tb)
    requires 0 <= i < BUCKETS && 0 <= h < BUCKETS && i != h
    requires n in tb.chains[i]
    ensures n !in tb.chains[h]
  {
    assert old(tb.BucketOk(i)) && old(tb.BucketOk(h));
    var s, t := tb.chains[i], tb.chains[h];
    var k :| 0 <= k < |s| && s[k] == n;
    assert old(Hash(s[k].key)) == i;
  }

  /** Changing the items of one bucket leaves the others alone, since each item can only be in
      the bucket its key hashes to. */
  twostate lemma OthersKept(tb: HashTable, new h: int)
    requires old(tb.Ok()) && unchanged(tb) && unchanged(tb.buckets) && 0 <= h < BUCKETS
    requires forall n :: n in NodesOf(tb.chains) && n !in tb.chains[h] ==> unchanged(n)
    ensures tb.OthersOk(h, old(tb.Contents()))
  {
    hide IsBucket, EntriesOf;
    forall i | 0 <= i < BUCKETS && i != h
      ensures tb.BucketOk(i) && tb.Contents()[i] == old(tb.Contents())[i]
    {
      OtherKept(tb, h, i);
    }
  }

  twostate lemma OtherKept(tb: HashTable, new h: int, new i: int)
    requires old(tb.Ok()) && unchanged(tb) && unchanged(tb.buckets) && 0 <= h < BUCKETS
    requires forall n :: n in NodesOf(tb.chains) && n !in tb.chains[h] ==> unchanged(n)
    requires 0 <= i < BUCKETS && i != h
    ensures tb.BucketOk(i) && EntriesOf(tb.chains[i]) == old(EntriesOf(tb.chains[i]))
  {
    assert old(tb.BucketOk(i));
    var s := tb.chains[i];
    forall n | n in s
      ensures unchanged(n)
    {
      assert n in NodesOf(tb.chains);
      OneBucket(tb, i, h, n);
    }
    BucketKept(s, tb.buckets[i], i);
  }

  lemma InChain(tb: HashTable, h: nat)
    requires tb.Ok() && h < BUCKETS
    ensures IsBucket(tb.buckets[h], tb.chains[h], h) && IsList(tb.buckets[h], tb.chains[h])
    ensures tb.Contents()[h] == EntriesOf(tb.chains[h])
    ensures forall n :: n in tb.chains[h] ==> n in NodesOf(tb.chains)
  {
    assert tb.BucketOk(h);
  }

  lemma NodesAfter(chains: seq<seq<Item>>, h: nat, t: seq<Item>)
    requires h < |chains|
    ensures forall n :: n in NodesOf(chains[h := t]) ==> n in NodesOf(chains) || n in t
  {
  }

  /** Lines 133-139: a new element goes in front of its bucket. */
  method Put(tb: HashTable, el: Item)
    requires tb.Valid() && el !in NodesOf(tb.chains)
    modifies tb, tb.buckets, NodesOf(tb.chains), el
    ensures tb.Valid() && tb.Contents() == Added(old(tb.Contents()), old(el.key), old(el.data))
    ensures forall n :: n in NodesOf(tb.chains) ==> n in old(NodesOf(tb.chains)) || n == el
    ensures tb.population == old(tb.population) + 1
  {
    hide IsBucket, IsList, Hash, EntriesOf, Total, HashTable.BucketOk, HashTable.Contents;
    ghost var was, s := tb.Contents(), tb.chains;
    var h := HashGen(el.key);
    InChain(tb, h);
    var head := AddToBucket(tb.buckets[h], el, s[h], h);
    OthersKept(tb, h);
    NodesAfter(s, h, InsertAt(s[h], 0, el));
    tb.Install(h, head, InsertAt(s[h], 0, el), was);
    TotalUpdate(was, h, InsertAt(was[h], 0, Entry(el.key, el.data)));
    tb.Count(1);
  }

  /** The element at position k of bucket h leaves its bucket. */
  method Extract(tb: HashTable, h: nat, el: Item, ghost k: nat)
    requires tb.Ok() && h < BUCKETS && el == At(tb.chains[h], k)
    modifies tb`chains, tb.buckets, NodesOf(tb.chains)
    ensures tb.Ok() && tb.Contents() == old(tb.Contents()[h := RemoveAt(tb.Contents()[h], k)])
    ensures tb.chains == old(tb.chains)[h := RemoveAt(old(tb.chains)[h], k)]
    ensures forall n :: n in NodesOf(tb.chains) ==> n in old(NodesOf(tb.chains))
    ensures Total(tb.Contents()) == old(Total(tb.Contents())) - 1
  {
    hide IsBucket, IsList, Hash, EntriesOf, Total, HashTable.BucketOk, HashTable.Contents;
    ghost var was, s := tb.Contents(), tb.chains;
    InChain(tb, h);
    var head := RemoveFromBucket(tb.buckets[h], el, k, s[h], h);
    OthersKept(tb, h);
    assert forall n :: n in RemoveAt(s[h], k) ==> n in s[h];
    NodesAfter(s, h, RemoveAt(s[h], k));
    tb.Install(h, head, RemoveAt(s[h], k), was);
    TotalUpdate(was, h, RemoveAt(was[h], k));
  }

  /** Lines 240-251: remove an element, count it out, and release a table that is now empty. */
  method TakeOut(tb: HashTable, h: nat, el: Item, ghost k: nat) returns (r: HashTable?)
    requires tb.Valid() && h < BUCKETS && el == At(tb.chains[h], k)
    modifies tb, tb.buckets, NodesOf(tb.chains)
    ensures tb.Valid() && Usable(r) && (r == tb || r == null)
    ensures tb.Contents() == old(tb.Contents()[h := RemoveAt(tb.Contents()[h], k)]) && ContentsOf(r) == tb.Contents()
    ensures forall n :: n in NodesOf(tb.chains) ==> n in old(NodesOf(tb.chains))
  {
    hide HashTable.BucketOk, HashTable.Contents, Total;
    Extract(tb, h, el, k);
    tb.Count(-1);
    r := tb;
    if tb.population <= 0 {
      NothingLeft(tb.Contents());
      r := null;
    }
  }

  /** Lines 309-317: a hit that is not at the front of its bucket moves there. */
  method BringForward(tb: HashTable, h: nat, el: Item, ghost k: nat)
    requires tb.Valid() && h < BUCKETS && el == At(tb.chains[h], k)
    modifies tb, tb.buckets, NodesOf(tb.chains)
    ensures tb.Valid() && tb.Contents() == old(tb.Contents()[h := MoveTo(tb.Contents()[h], 0, k)])
    ensures tb.chains == old(tb.chains)[h := MoveTo(old(tb.chains)[h], 0, k)]
    ensures forall n :: n in NodesOf(tb.chains) ==> n in old(NodesOf(tb.chains))
    ensures tb.population == old(tb.population) && el.data == old(el.data) && el.key == old(el.key)
  {
    hide IsBucket, IsList, Hash, EntriesOf, Total, HashTable.BucketOk, HashTable.Contents;
    ghost var was, s := tb.Contents(), tb.chains;
    InChain(tb, h);
    FrontIsFirst(tb, h, k);
    if el != tb.buckets[h] {
      var head := MoveInBucket(tb.buckets[h], el, k, s[h], h);
      OthersKept(tb, h);
      NodesAfter(s, h, MoveTo(s[h], 0, k));
      tb.Install(h, head, MoveTo(s[h], 0, k), was);
      TotalUpdate(was, h, MoveTo(was[h], 0, k));
    }
  }

  lemma FrontIsFirst(tb: HashTable, h: nat, k: nat)
    requires tb.Ok() && h < BUCKETS && k < |tb.chains[h]|
    ensures tb.buckets[h] != null
    ensures tb.chains[h][k] == tb.buckets[h] ==> k == 0
    ensures k == 0 ==> MoveTo(tb.chains[h], 0, k) == tb.chains[h] && MoveTo(tb.Contents()[h], 0, k) == tb.Contents()[h]
  {
    assert tb.BucketOk(h);
    Neighbours(tb.buckets[h], tb.chains[h], k);
  }

  /** Line 365: new data for the element at the front of bucket h. */
  method SetData(tb: HashTable, h: nat, el: Item, data: Ptr)
    requires tb.Valid() && h < BUCKETS && el == At(tb.chains[h], 0)
    modifies tb, tb.buckets, NodesOf(tb.chains)
    ensures tb.Valid() && tb.chains == old(tb.chains) && tb.population == old(tb.population)
    ensures tb.Contents() == old(tb.Contents()[h := tb.Contents()[h][0 := Entry(el.key, data)]])
  {
    hide IsBucket, IsList, Hash, EntriesOf, Total, HashTable.BucketOk, HashTable.Contents;
    ghost var was, s := tb.Contents(), tb.chains;
    InChain(tb, h);
    el.data := data;
    Rewritten(s[h], tb.buckets[h], h);
    OthersKept(tb, h);
    tb.Install(h, tb.buckets[h], s[h], was);
    TotalUpdate(was, h, was[h][0 := Entry(el.key, data)]);
  }

  twostate lemma Rewritten(s: seq<Item>, new head: Item?, new h: int)
    requires old(IsBucket(At(s, 0), s, h)) && s != [] && head == s[0]
    requires forall n {:trigger n in s} :: n in s ==> n.next == old(n.next) && n.prev == old(n.prev) && n.last == old(n.last) && n.key == old(n.key)
    requires forall n {:trigger n in s} :: n in s && n != s[0] ==> n.data == old(n.data)
    ensures IsBucket(head, s, h) && EntriesOf(s) == old(EntriesOf(s))[0 := Entry(s[0].key, s[0].data)]
  {
    forall k | 0 <= k < |s|
      ensures s[k].next == old(s[k].next) && s[k].prev == old(s[k].prev) && s[k].last == old(s[k].last) && s[k].key == old(s[k].key)
      ensures k > 0 ==> s[k].data == old(s[k].data)
    {
      assert s[k] in s;
      assert Differ(s, 0, k);
    }
  }

  // ----- The public operations -----

  /** What the caller sees of a table pointer; NULL is the empty table. */
  ghost function ContentsOf(hash: HashTable?): Table
    requires hash != null ==> hash.Shape()
    reads hash, if hash == null then {} else NodesOf(hash.chains)
  {
    if hash == null then EMPTY else hash.Contents()
  }

  /** Between calls a table is either NULL or holds something. */
  ghost predicate Usable(hash: HashTable?)
    reads hash, if hash == null then {} else {hash.buckets} + NodesOf(hash.chains)
  {
    hash != null ==> hash.Valid() && hash.population > 0
  }

  ghost function Footprint(hash: HashTable?): set<object>
    reads hash
  {
    if hash == null then {} else {hash, hash.buckets} + NodesOf(hash.chains)
  }

  /** evas_hash_add and evas_hash_direct_add, which differ only in who owns the key. */
  method Add(hash: HashTable?, key: Key, data: Ptr, tableOk: bool, elOk: bool, status: Status) returns (r: HashTable?)
    requires Usable(hash) && status !in Footprint(hash)
    modifies Footprint(hash), status
    ensures Usable(r) && (r == hash || hash == null) && fresh(Footprint(r) - old(Footprint(hash)))
    ensures var stored := key.Str? && data != NULL && elOk && (hash != null || tableOk);
            ContentsOf(r) == if stored then Added(old(ContentsOf(hash)), key.text, data) else old(ContentsOf(hash))
    ensures status.allocError == if key.NullKey? || data == NULL then old(status.allocError) else !(elOk && (hash != null || tableOk))
  {
    hide IsBucket, Hash, EntriesOf, HashTable.BucketOk, HashTable.Contents, Total, Added;
    if key.NullKey? || data == NULL {
      return hash;
    }
    status.allocError := false;
    r := hash;
    if r == null {
      if !tableOk {
        status.allocError := true;
        return null;
      }
      EmptyTotal(BUCKETS);
      r := new HashTable();
    }
    if !elOk {
      if r.population <= 0 {
        r := null;
      }
      status.allocError := true;
      return;
    }
    var el := new Item(key.text, data);
    Put(r, el);
  }

  /** evas_hash_find. */
  method Lookup(hash: HashTable?, key: Key, status: Status) returns (data: Ptr)
    requires Usable(hash) && status !in Footprint(hash)
    modifies Footprint(hash), status
    ensures Usable(hash) && Footprint(hash) <= old(Footprint(hash))
    ensures ContentsOf(hash) == if key.Str? then Touched(old(ContentsOf(hash)), key.text) else old(ContentsOf(hash))
    ensures data == if key.Str? then Found(old(ContentsOf(hash)), key.text) else NULL
    ensures !status.allocError
  {
    hide IsBucket, Hash, EntriesOf, HashTable.BucketOk, HashTable.Contents, Total, MoveTo, Find;
    status.allocError := false;
    if hash == null || key.NullKey? {
      return NULL;
    }
    var h := HashGen(key.text);
    InChain(hash, h);
    var l;
    ghost var k;
    l, k := Search(hash.buckets[h], key.text, hash.chains[h]);
    if l == null {
      return NULL;
    }
    BringForward(hash, h, l, k);
    data := l.data;
  }

  /** evas_hash_modify; without a key the walk over bucket 0 finds nothing. */
  method Modify(hash: HashTable?, key: Key, data: Ptr, status: Status) returns (oldData: Ptr)
    requires Usable(hash) && status !in Footprint(hash)
    modifies Footprint(hash), status
    ensures Usable(hash) && Footprint(hash) <= old(Footprint(hash))
    ensures ContentsOf(hash) == if key.Str? then Modified(old(ContentsOf(hash)), key.text, data) else old(ContentsOf(hash))
    ensures oldData == if key.Str? then Found(old(ContentsOf(hash)), key.text) else NULL
    ensures !status.allocError
  {
    hide IsBucket, Hash, EntriesOf, HashTable.BucketOk, HashTable.Contents, Total, MoveTo, Find;
    status.allocError := false;
    if hash == null || key.NullKey? {
      return NULL;
    }
    var h := HashGen(key.text);
    InChain(hash, h);
    var l;
    ghost var k;
    l, k := Search(hash.buckets[h], key.text, hash.chains[h]);
    if l == null {
      return NULL;
    }
    BringForward(hash, h, l, k);
    oldData := l.data;
    SetData(hash, h, l, data);
    Overwritten(old(hash.Contents()), h, MoveTo(old(hash.Contents())[h], 0, k), Entry(key.text, data));
  }

  lemma Overwritten(t: Table, h: nat, b: Bucket, e: Entry)
    requires h < BUCKETS && b != []
    ensures var m := t[h := b]; m[h := m[h][0 := e]] == t[h := b[0 := e]]
  {
  }

  /** evas_hash_del: by key, by key and data, or without a key by data alone. */
  method Delete(hash: HashTable?, key: Key, data: Ptr) returns (r: HashTable?)
    requires Usable(hash)
    modifies Footprint(hash)
    ensures Usable(r) && (r == hash || r == null) && Footprint(r) <= old(Footprint(hash))
    ensures ContentsOf(r) == match key
            case Str(text) => Deleted(old(ContentsOf(hash)), text, data)
            case NullKey => DeletedAnywhere(old(ContentsOf(hash)), data)
    ensures r == null <==> Total(ContentsOf(r)) == 0
  {
    if hash == null {
      EmptyDeletes(key, data);
      return null;
    }
    match key
    case Str(text) => r := DeleteByKey(hash, text, data);
    case NullKey => r := DeleteByData(hash, data);
  }

  lemma EmptyDeletes(key: Key, data: Ptr)
    ensures Total(EMPTY) == 0
    ensures DeletedAnywhere(EMPTY, data) == EMPTY && (key.Str? ==> Deleted(EMPTY, key.text, data) == EMPTY)
  {
    EmptyTotal(BUCKETS);
  }

  method DeleteByKey(hash: HashTable, key: CString, data: Ptr) returns (r: HashTable?)
    requires Usable(hash)
    modifies Footprint(hash)
    ensures Usable(r) && (r == hash || r == null) && Footprint(r) <= old(Footprint(hash))
    ensures ContentsOf(r) == Deleted(old(ContentsOf(hash)), key, data)
    ensures r == null <==> Total(ContentsOf(r)) == 0
  {
    hide IsBucket, Hash, EntriesOf, HashTable.BucketOk, HashTable.Contents, Total;
    var h := HashGen(key);
    InChain(hash, h);
    var l;
    ghost var k;
    l, k := SearchMatch(hash.buckets[h], key, data, hash.chains[h]);
    if l == null {
      return hash;
    }
    r := TakeOut(hash, h, l, k);
    EmptyTotal(BUCKETS);
  }

  /** Lines 233-238: the buckets in order, each from its front. */
  method SearchAll(hash: HashTable, data: Ptr) returns (h: nat, l: Item?, ghost k: nat)
    requires hash.Shape() && hash.Ok()
    ensures h == BucketWith(hash.Contents(), 0, data)
    ensures l == null <==> h == BUCKETS
    ensures h < BUCKETS ==> k == FindData(hash.Contents()[h], data) && l == At(hash.chains[h], k)
  {
    hide IsBucket, Hash, EntriesOf, HashTable.BucketOk, HashTable.Contents, HashTable.Ok, BucketWith, FindData, IsList, Total;
    h, l, k := 0, null, 0;
    while h < BUCKETS
      invariant 0 <= h <= BUCKETS && l == null && hash.Shape() && hash.Ok()
      invariant BucketWith(hash.Contents(), 0, data) == BucketWith(hash.Contents(), h, data)
      invariant hash.Contents() == old(hash.Contents())
    {
      InChain(hash, h);
      l, k := SearchData(hash.buckets[h], data, hash.chains[h]);
      if l != null {
        return;
      }
      assert forall n :: n in NodesOf(hash.chains) ==> unchanged(n);
      h := h + 1;
    }
  }

  method DeleteByData(hash: HashTable, data: Ptr) returns (r: HashTable?)
    requires Usable(hash)
    modifies Footprint(hash)
    ensures Usable(r) && (r == hash || r == null) && Footprint(r) <= old(Footprint(hash))
    ensures ContentsOf(r) == DeletedAnywhere(old(ContentsOf(hash)), data)
    ensures r == null <==> Total(ContentsOf(r)) == 0
  {
    hide IsBucket, Hash, EntriesOf, HashTable.BucketOk, HashTable.Contents, Total, RemoveAt, FindData, BucketWith;
    var h, l;
    ghost var k;
    h, l, k := SearchAll(hash, data);
    if l == null {
      return hash;
    }
    r := TakeOut(hash, h, l, k);
    EmptyTotal(BUCKETS);
  }

  /** evas_hash_free gives back every element exactly once. */
  method Free(hash: HashTable?) returns (ghost freed: nat)
    requires Usable(hash)
    modifies Footprint(hash)
    ensures freed == Total(old(ContentsOf(hash)))
    ensures hash != null ==> hash.Ok() && hash.Contents() == EMPTY
  {
    hide IsBucket, EntriesOf, HashTable.BucketOk, HashTable.Contents, Total;
    freed := 0;
    if hash == null {
      EmptyTotal(BUCKETS);
      return;
    }
    var i := 0;
    while i < BUCKETS
      invariant 0 <= i <= BUCKETS && hash.Ok() && freed + Total(hash.Contents()) == Total(old(ContentsOf(hash)))
      invariant forall j :: 0 <= j < i ==> hash.Contents()[j] == []
      invariant forall n :: n in NodesOf(hash.chains) ==> n in old(NodesOf(hash.chains))
    {
      InChain(hash, i);
      while hash.buckets[i] != null
        invariant hash.Ok() && freed + Total(hash.Contents()) == Total(old(ContentsOf(hash)))
        invariant forall j :: 0 <= j < i ==> hash.Contents()[j] == []
        invariant forall n :: n in NodesOf(hash.chains) ==> n in old(NodesOf(hash.chains))
        decreases |hash.chains[i]|
      {
        InChain(hash, i);
        Neighbours(hash.buckets[i], hash.chains[i], 0);
        Extract(hash, i, hash.buckets[i], 0);
        freed := freed + 1;
      }
      InChain(hash, i);
      Neighbours(hash.buckets[i], hash.chains[i], 0);
      i := i + 1;
    }
    AllEmpty(hash.Contents());
  }

  // ----- Runs -----

  method RunStep(hash: HashTable?, op: Op, status: Status) returns (r: HashTable?, data: Ptr)
    requires Usable(hash) && status !in Footprint(hash)
    modifies Footprint(hash), status
    ensures Usable(r) && fresh(Footprint(r) - old(Footprint(hash)))
    ensures ContentsOf(r) == Apply(op, old(ContentsOf(hash))) && data == Answer(op, old(ContentsOf(hash)))
    ensures status.allocError == Failed(op, old(ContentsOf(hash)), old(status.allocError))
  {
    hide HashTable.Ok, HashTable.Contents, Total, Added, Touched, Modified, Deleted, DeletedAnywhere, Found;
    EmptyTotal(BUCKETS);
    r, data := hash, NULL;
    match op
    case Add(key, d, tableOk, elOk) => r := Add(hash, key, d, tableOk, elOk, status);
    case Lookup(key) => data := Lookup(hash, key, status);
    case Modify(key, d) => data := Modify(hash, key, d, status);
    case Delete(key, d) => r := Delete(hash, key, d);
  }

  /** Every script on a table pointer: contents, results and error flag are those of the plain
      table, and the pointer is NULL exactly when nothing is stored. */
  method RunScript(hash: HashTable?, ops: seq<Op>, status: Status) returns (r: HashTable?, out: seq<Ptr>)
    requires Usable(hash) && status !in Footprint(hash)
    modifies Footprint(hash), status
    ensures Usable(r) && (r == null <==> Total(Run(ops, old(ContentsOf(hash)))) == 0)
    ensures ContentsOf(r) == Run(ops, old(ContentsOf(hash))) && out == Answers(ops, old(ContentsOf(hash)))
    ensures status.allocError == FlagAfter(ops, old(ContentsOf(hash)), old(status.allocError))
    decreases |ops|
  {
    hide HashTable.Ok, HashTable.Contents, Total, Apply, Answer, Failed;
    EmptyTotal(BUCKETS);
    r, out := hash, [];
    if ops != [] {
      var data;
      r, data := RunStep(hash, ops[0], status);
      r, out := RunScript(r, ops[1..], status);
      out := [data] + out;
    }
  }
}
