/** Which differences CityHash keeps: for every word of its states and every word it loads, whether
    the result tells two values of it apart when all else is the same. */
module CityLaws {
  import opened CityWords
  import opened CityHash

  // ----- Loads -----

  /** A load sees every one of its bytes. */
  lemma LoadSeesEveryByte(s: seq<Byte>, p: nat, t: seq<Byte>, q: nat)
    requires p + 8 <= |s| && q + 8 <= |t|
    ensures Fetch64(s, p) == Fetch64(t, q) <==> s[p..p + 8] == t[q..q + 8]
  {
    if Fetch64(s, p) == Fetch64(t, q) {
      EightBytes(s, p, t, q);
    }
    if s[p..p + 8] == t[q..q + 8] {
      SameLoad(s, p, t, q);
    }
  }

  lemma SameLoad(s: seq<Byte>, p: nat, t: seq<Byte>, q: nat)
    requires p + 8 <= |s| && q + 8 <= |t| && s[p..p + 8] == t[q..q + 8]
    ensures Fetch64(s, p) == Fetch64(t, q)
  {
    hide Or, Shl;
    var a, b := s[p..p + 8], t[q..q + 8];
    assert forall i {:trigger a[i]} :: 0 <= i < 8 ==> a[i] == s[p + i];
    assert forall i {:trigger b[i]} :: 0 <= i < 8 ==> b[i] == t[q + i];
    assert a[0] == b[0] && a[1] == b[1] && a[2] == b[2] && a[3] == b[3];
    assert a[4] == b[4] && a[5] == b[5] && a[6] == b[6] && a[7] == b[7];
  }

  lemma EightBytes(s: seq<Byte>, p: nat, t: seq<Byte>, q: nat)
    requires p + 8 <= |s| && q + 8 <= |t| && Fetch64(s, p) == Fetch64(t, q)
    ensures s[p] == t[q] && s[p + 1] == t[q + 1] && s[p + 2] == t[q + 2] && s[p + 3] == t[q + 3]
    ensures s[p + 4] == t[q + 4] && s[p + 5] == t[q + 5] && s[p + 6] == t[q + 6] && s[p + 7] == t[q + 7]
  {
  }

  // ----- CityHash64 over 64 bytes -----

  /** HashLen16 tells any two first words apart; of the second words it confuses two. */
  lemma HashTells(u: Word, u': Word, v: Word)
    ensures HashLen16(u, v) == HashLen16(u', v) <==> u == u'
  {
    hide Hash128to64;
    HashSame(u, u', v);
  }

  lemma HashConfuses(u: Word) returns (v: (Word, Word))
    ensures v.0 != v.1 && HashLen16(u, v.0) == HashLen16(u, v.1)
  {
    hide Hash128to64, Xor;
    v := (Xor(u, TWIN_A), Xor(u, TWIN_B));
    SecondWordsCollide(u);
  }

  /** It takes every value, whatever the second word is. */
  lemma HashTakes(h: Word, v: Word) returns (u: Word)
    ensures HashLen16(u, v) == h
  {
    hide Hash128to64, Unhash;
    u := Unhash(h, v);
    HashIsBijective(0, v, h);
  }

  /** The last step tells any two values of y, of z and, below, of v.0 apart. */
  lemma FinishTells(st: State, u: Word)
    ensures FinishOver64(st.(y := u)) == FinishOver64(st) <==> u == st.y
    ensures FinishOver64(st.(z := u)) == FinishOver64(st) <==> u == st.z
  {
    hide HashLen16, ShiftMix, Add, Mul;
    var high := Add(HashLen16(st.v.1, st.w.1), st.x);
    var first, mixed := HashLen16(st.v.0, st.w.0), Mul(ShiftMix(st.y), K1);
    MultipliersHaveInverses();
    ShiftMixSame(u, st.y);
    MulSame(ShiftMix(u), ShiftMix(st.y), K1, K1_INV);
    LastSum(first, Mul(ShiftMix(u), K1), st.z, first, mixed, st.z, high);
    LastSum(first, mixed, u, first, mixed, st.z, high);
  }

  lemma FinishTellsV(st: State, u: Word)
    ensures FinishOver64(st.(v := (u, st.v.1))) == FinishOver64(st) <==> u == st.v.0
  {
    hide HashLen16, ShiftMix, Add, Mul;
    var mixed := Mul(ShiftMix(st.y), K1);
    HashTells(u, st.v.0, st.w.0);
    LastSum(HashLen16(u, st.w.0), mixed, st.z, HashLen16(st.v.0, st.w.0), mixed, st.z, Add(HashLen16(st.v.1, st.w.1), st.x));
  }

  /** A hash of a sum tells any two values of each summand apart. */
  lemma LastSum(a: Word, b: Word, c: Word, a': Word, b': Word, c': Word, high: Word)
    requires (a == a' && b == b') || (a == a' && c == c') || (b == b' && c == c')
    ensures HashLen16(Add(Add(a, b), c), high) == HashLen16(Add(Add(a', b'), c'), high) <==> a == a' && b == b' && c == c'
  {
    hide HashLen16, Add;
    HashTells(Add(Add(a, b), c), Add(Add(a', b'), c'), high);
    AddSame(a, a', b);
    AddSame(b, b', a);
    AddSame(Add(a, b), Add(a', b'), c);
    AddSame(c, c', Add(a, b));
  }

  /** Of x and v.1 there are always two values that it does not tell apart. */
  lemma FinishConfuses(st: State) returns (x: (Word, Word), v1: (Word, Word))
    ensures x.0 != x.1 && FinishOver64(st.(x := x.0)) == FinishOver64(st.(x := x.1))
    ensures v1.0 != v1.1 && FinishOver64(st.(v := (st.v.0, v1.0))) == FinishOver64(st.(v := (st.v.0, v1.1)))
  {
    hide HashLen16, ShiftMix, Add, Sub, Mul;
    var low := Add(Add(HashLen16(st.v.0, st.w.0), Mul(ShiftMix(st.y), K1)), st.z);
    var twins := HashConfuses(low);
    var second := HashLen16(st.v.1, st.w.1);
    x := (Sub(twins.0, second), Sub(twins.1, second));
    SubUndone(twins.0, second);
    SubUndone(twins.1, second);
    AddSwap(second, x.0);
    AddSwap(second, x.1);
    var a := HashTakes(Sub(twins.0, st.x), st.w.1);
    var b := HashTakes(Sub(twins.1, st.x), st.w.1);
    v1 := (a, b);
    SubUndone(twins.0, st.x);
    SubUndone(twins.1, st.x);
  }

  /** Of w.0 and w.1 as well. */
  lemma FinishConfusesW(st: State) returns (w0: (Word, Word), w1: (Word, Word))
    ensures w0.0 != w0.1 && FinishOver64(st.(w := (w0.0, st.w.1))) == FinishOver64(st.(w := (w0.1, st.w.1)))
    ensures w1.0 != w1.1 && FinishOver64(st.(w := (st.w.0, w1.0))) == FinishOver64(st.(w := (st.w.0, w1.1)))
  {
    hide HashLen16, ShiftMix, Add, Mul;
    w0 := HashConfuses(st.v.0);
    w1 := HashConfuses(st.v.1);
  }

  /** WeakHashLen32WithSeeds tells any two pairs of seeds apart. */
  lemma WeakHashSame(w: Word, x: Word, y: Word, z: Word, a: Word, b: Word, a': Word, b': Word)
    ensures WeakHash(w, x, y, z, a, b) == WeakHash(w, x, y, z, a', b') <==> a == a' && b == b'
  {
    hide Add, Rotate;
    var a1, a1' := Add(a, w), Add(a', w);
    var a2, a2' := Add(Add(a1, x), y), Add(Add(a1', x), y);
    AddSame(a, a', w);
    AddSame(a1, a1', x);
    AddSame(Add(a1, x), Add(a1', x), y);
    AddSame(a2, a2', z);
    if a == a' {
      AddSame(b, b', a1);
      AddSame(Add(b, a1), Add(b', a1), z);
      var s, s' := Add(Add(b, a1), z), Add(Add(b', a1), z);
      RotateIsInjective(s, s', 21);
      AddSame(Rotate(s, 21), Rotate(s', 21), Rotate(a2, 44));
      AddSame(Add(Rotate(s, 21), Rotate(a2, 44)), Add(Rotate(s', 21), Rotate(a2, 44)), a1);
    }
  }

  /** It tells any two values of each of its four words apart, by the sum of them alone. */
  lemma WeakHashTells(w: Word, x: Word, y: Word, z: Word, a: Word, b: Word, u: Word)
    ensures WeakHash(u, x, y, z, a, b).0 == WeakHash(w, x, y, z, a, b).0 <==> u == w
    ensures WeakHash(w, u, y, z, a, b).0 == WeakHash(w, x, y, z, a, b).0 <==> u == x
    ensures WeakHash(w, x, u, z, a, b).0 == WeakHash(w, x, y, z, a, b).0 <==> u == y
    ensures WeakHash(w, x, y, u, a, b).0 == WeakHash(w, x, y, z, a, b).0 <==> u == z
  {
    hide Add, Rotate;
    var a1 := Add(a, w);
    AddSame(u, w, a);
    SumTells(Add(a, u), a1, x, y, z);
    AddSame(u, x, a1);
    AddSame(Add(a1, u), Add(a1, x), y);
    AddSame(Add(Add(a1, u), y), Add(Add(a1, x), y), z);
    AddSame(u, y, Add(a1, x));
    AddSame(Add(Add(a1, x), u), Add(Add(a1, x), y), z);
    AddSame(u, z, Add(Add(a1, x), y));
  }

  lemma SumTells(a: Word, a': Word, x: Word, y: Word, z: Word)
    ensures Add(Add(Add(a, x), y), z) == Add(Add(Add(a', x), y), z) <==> a == a'
  {
    hide Add;
    AddSame(a, a', x);
    AddSame(Add(a, x), Add(a', x), y);
    AddSame(Add(Add(a, x), y), Add(Add(a', x), y), z);
  }

  // ----- The 64-byte step -----

  /** Word i of the block at p. */
  function Load(s: seq<Byte>, p: nat, i: nat): Word
    requires p + 64 <= |s| && i < 8
  {
    Fetch64(s, p + 8 * i)
  }

  /** The next y. */
  function NextY(s: seq<Byte>, p: nat, st: State): Word
    requires p + 64 <= |s|
  {
    Xor(Mul(Rotate(Add(Add(st.y, st.v.1), Load(s, p, 6)), 42), K1), st.v.0)
  }

  function NextZ(s: seq<Byte>, p: nat, st: State): Word
    requires p + 64 <= |s|
  {
    Xor(Mul(Rotate(Add(Add(Add(st.x, st.y), st.v.0), Load(s, p, 2)), 37), K1), st.w.1)
  }

  function NextX(st: State): Word {
    Rotate(Xor(st.z, st.w.0), 33)
  }

  /** The state after a step, from the eight words of the block. */
  lemma StepByLoads(s: seq<Byte>, p: nat, st: State)
    requires p + 64 <= |s|
    ensures var x, z := NextX(st), NextZ(s, p, st);
            Step(s, p, st) ==
            State(x, NextY(s, p, st), z,
                  WeakHash(Load(s, p, 0), Load(s, p, 1), Load(s, p, 2), Load(s, p, 3), Mul(st.v.1, K1), Add(z, st.w.0)),
                  WeakHash(Load(s, p, 4), Load(s, p, 5), Load(s, p, 6), Load(s, p, 7), Add(x, st.w.1), NextY(s, p, st)))
  {
    hide Fetch64, WeakHash, Add, Mul, Xor, Rotate;
  }

  /** A step leads two states to the same one exactly if they agree in z, v.1 and w, in the sum
      x + y + v.0 and in the next y; of seven words it keeps six. */
  lemma StepMerges(s: seq<Byte>, p: nat, st: State, st': State)
    requires p + 64 <= |s|
    ensures Step(s, p, st) == Step(s, p, st') <==>
            && st.z == st'.z && st.v.1 == st'.v.1 && st.w == st'.w
            && Add(Add(st.x, st.y), st.v.0) == Add(Add(st'.x, st'.y), st'.v.0)
            && NextY(s, p, st) == NextY(s, p, st')
  {
    hide Step, Load, Add, Mul, Xor, Rotate;
    StepWords(s, p, st, st');
    MultipliersHaveInverses();
    MulSame(st.v.1, st'.v.1, K1, K1_INV);
    AddSame(st.w.0, st'.w.0, NextZ(s, p, st));
    RotateIsInjective(Xor(st.z, st.w.0), Xor(st'.z, st'.w.0), 33);
    XorSame(st.z, st'.z, st.w.0);
    AddSame(st.w.1, st'.w.1, NextX(st));
    NextZTells(Add(Add(st.x, st.y), st.v.0), Add(Add(st'.x, st'.y), st'.v.0), Load(s, p, 2), st.w.1);
  }

  lemma StepWords(s: seq<Byte>, p: nat, st: State, st': State)
    requires p + 64 <= |s|
    ensures Step(s, p, st) == Step(s, p, st') <==>
            && NextX(st) == NextX(st') && NextY(s, p, st) == NextY(s, p, st') && NextZ(s, p, st) == NextZ(s, p, st')
            && Mul(st.v.1, K1) == Mul(st'.v.1, K1)
            && Add(NextZ(s, p, st), st.w.0) == Add(NextZ(s, p, st'), st'.w.0)
            && Add(NextX(st), st.w.1) == Add(NextX(st'), st'.w.1)
  {
    hide Step, Load, WeakHash, Add, Mul, NextX, NextY, NextZ;
    StepByLoads(s, p, st);
    StepByLoads(s, p, st');
    WeakHashSame(Load(s, p, 0), Load(s, p, 1), Load(s, p, 2), Load(s, p, 3),
                 Mul(st.v.1, K1), Add(NextZ(s, p, st), st.w.0), Mul(st'.v.1, K1), Add(NextZ(s, p, st'), st'.w.0));
    WeakHashSame(Load(s, p, 4), Load(s, p, 5), Load(s, p, 6), Load(s, p, 7),
                 Add(NextX(st), st.w.1), NextY(s, p, st), Add(NextX(st'), st'.w.1), NextY(s, p, st'));
  }

  lemma NextZTells(a: Word, a': Word, l: Word, w: Word)
    ensures Xor(Mul(Rotate(Add(a, l), 37), K1), w) == Xor(Mul(Rotate(Add(a', l), 37), K1), w) <==> a == a'
  {
    hide Add, Mul, Xor, Rotate;
    MultipliersHaveInverses();
    AddSame(a, a', l);
    RotateIsInjective(Add(a, l), Add(a', l), 37);
    var r, r' := Rotate(Add(a, l), 37), Rotate(Add(a', l), 37);
    MulSame(r, r', K1, K1_INV);
    XorSame(Mul(r, K1), Mul(r', K1), w);
  }

  /** A step tells any two values of any one word of the state apart. */
  lemma StepTells(s: seq<Byte>, p: nat, st: State, u: Word)
    requires p + 64 <= |s|
    ensures Step(s, p, st.(x := u)) == Step(s, p, st) <==> u == st.x
    ensures Step(s, p, st.(y := u)) == Step(s, p, st) <==> u == st.y
    ensures Step(s, p, st.(z := u)) == Step(s, p, st) <==> u == st.z
    ensures Step(s, p, st.(v := (u, st.v.1))) == Step(s, p, st) <==> u == st.v.0
    ensures Step(s, p, st.(v := (st.v.0, u))) == Step(s, p, st) <==> u == st.v.1
    ensures Step(s, p, st.(w := (u, st.w.1))) == Step(s, p, st) <==> u == st.w.0
    ensures Step(s, p, st.(w := (st.w.0, u))) == Step(s, p, st) <==> u == st.w.1
  {
    hide Step, Add, NextY;
    StepMerges(s, p, st.(x := u), st);
    AddSame(u, st.x, st.y);
    AddSame(Add(u, st.y), Add(st.x, st.y), st.v.0);
    StepMerges(s, p, st.(y := u), st);
    AddSame(u, st.y, st.x);
    AddSame(Add(st.x, u), Add(st.x, st.y), st.v.0);
    StepMerges(s, p, st.(z := u), st);
    StepMerges(s, p, st.(v := (u, st.v.1)), st);
    AddSame(u, st.v.0, Add(st.x, st.y));
    StepMerges(s, p, st.(v := (st.v.0, u)), st);
    StepMerges(s, p, st.(w := (u, st.w.1)), st);
    StepMerges(s, p, st.(w := (st.w.0, u)), st);
  }

  /** Each state shares its successor with one state for every other value of v.0. */
  lemma StepForgets(s: seq<Byte>, p: nat, st: State, v0: Word) returns (st': State)
    requires p + 64 <= |s|
    ensures st'.v.0 == v0 && Step(s, p, st') == Step(s, p, st)
  {
    hide Step, Load, Add, Sub, Mul, Xor, Rotate;
    MultipliersHaveInverses();
    MulIs(K1, K1_INV);
    var l := Load(s, p, 6);
    var t := Xor(NextY(s, p, st), v0);
    var r := Mul(t, K1_INV);
    var y := Sub(Sub(Rotate(r, 22), l), st.v.1);
    MulUndone(t, K1_INV, K1);
    XorTwice(NextY(s, p, st), v0);
    RotateBack(r, 22, 42);
    SubUndone(Rotate(r, 22), l);
    SubUndone(Sub(Rotate(r, 22), l), st.v.1);
    var x := Sub(Sub(Add(Add(st.x, st.y), st.v.0), v0), y);
    SubUndone(Add(Add(st.x, st.y), st.v.0), v0);
    SubUndone(Sub(Add(Add(st.x, st.y), st.v.0), v0), y);
    st' := State(x, y, st.z, (v0, st.v.1), st.w);
    StepMerges(s, p, st', st);
  }

  /** A step tells two blocks apart that differ in just one of their eight words. */
  lemma StepReads(s: seq<Byte>, t: seq<Byte>, p: nat, j: nat, st: State)
    requires p + 64 <= |s| && p + 64 <= |t| && j < 8
    requires forall i {:trigger Fetch64(s, p + 8 * i)} :: 0 <= i < 8 && i != j ==> Fetch64(s, p + 8 * i) == Fetch64(t, p + 8 * i)
    ensures Step(s, p, st) == Step(t, p, st) <==> Fetch64(s, p + 8 * j) == Fetch64(t, p + 8 * j)
  {
    hide Fetch64;
    forall i: nat | i < 8 && i != j
      ensures Load(s, p, i) == Load(t, p, i)
    {
      assert Fetch64(s, p + 8 * i) == Fetch64(t, p + 8 * i);
    }
    assert Load(s, p, j) == Fetch64(s, p + 8 * j);
    StepReadsLoad(s, t, p, j, st);
  }

  lemma StepReadsLoad(s: seq<Byte>, t: seq<Byte>, p: nat, j: nat, st: State)
    requires p + 64 <= |s| && p + 64 <= |t| && j < 8
    requires forall i: nat :: i < 8 && i != j ==> Load(s, p, i) == Load(t, p, i)
    ensures Step(s, p, st) == Step(t, p, st) <==> Load(s, p, j) == Load(t, p, j)
  {
    hide Step, Load, WeakHash, Add, Mul, Xor, Rotate, NextX;
    StepByLoads(s, p, st);
    StepByLoads(t, p, st);
    var z, z' := NextZ(s, p, st), NextZ(t, p, st);
    if j < 4 {
      FirstWord(Load(s, p, 0), Load(s, p, 1), Load(s, p, 2), Load(s, p, 3), Mul(st.v.1, K1), Add(z, st.w.0),
                Load(t, p, 0), Load(t, p, 1), Load(t, p, 2), Load(t, p, 3), Add(z', st.w.0), j);
    } else {
      FirstWord(Load(s, p, 4), Load(s, p, 5), Load(s, p, 6), Load(s, p, 7), Add(NextX(st), st.w.1), NextY(s, p, st),
                Load(t, p, 4), Load(t, p, 5), Load(t, p, 6), Load(t, p, 7), NextY(t, p, st), j - 4);
    }
  }

  /** The first word of WeakHashLen32WithSeeds does not depend on its second seed. */
  lemma FirstWord(w: Word, x: Word, y: Word, z: Word, a: Word, b: Word, w': Word, x': Word, y': Word, z': Word, b': Word, j: nat)
    requires j < 4 && (j != 0 ==> w == w') && (j != 1 ==> x == x') && (j != 2 ==> y == y') && (j != 3 ==> z == z')
    ensures WeakHash(w, x, y, z, a, b).0 == WeakHash(w', x', y', z', a, b').0 <==> w == w' && x == x' && y == y' && z == z'
  {
    hide WeakHash;
    WeakHashTells(w, x, y, z, a, b, if j == 0 then w' else if j == 1 then x' else if j == 2 then y' else z');
    SecondSeed(w', x', y', z', a, b, b');
  }

  lemma SecondSeed(w: Word, x: Word, y: Word, z: Word, a: Word, b: Word, b': Word)
    ensures WeakHash(w, x, y, z, a, b).0 == WeakHash(w, x, y, z, a, b').0
  {
    hide Add, Rotate;
  }

  // ----- CityHash64 up to 64 bytes -----

  lemma ShortTells(y: Word, z: Word, u: Word)
    ensures FinishShort(u, z) == FinishShort(y, z) <==> u == y
    ensures FinishShort(y, u) == FinishShort(y, z) <==> u == z
  {
    hide Mul, Xor, ShiftMix;
    MultipliersHaveInverses();
    MulSame(u, y, K2, K2_INV);
    MulSame(u, z, K3, K3_INV);
    ShortTail(Mul(u, K2), Mul(z, K3), Mul(y, K2), Mul(z, K3));
    ShortTail(Mul(y, K2), Mul(u, K3), Mul(y, K2), Mul(z, K3));
    XorSame(Mul(u, K2), Mul(y, K2), Mul(z, K3));
    XorSame(Mul(u, K3), Mul(z, K3), Mul(y, K2));
  }

  lemma ShortTail(a: Word, b: Word, a': Word, b': Word)
    ensures Mul(ShiftMix(Xor(a, b)), K2) == Mul(ShiftMix(Xor(a', b')), K2) <==> Xor(a, b) == Xor(a', b')
  {
    hide Mul, Xor, ShiftMix;
    MultipliersHaveInverses();
    ShiftMixSame(Xor(a, b), Xor(a', b'));
    MulSame(ShiftMix(Xor(a, b)), ShiftMix(Xor(a', b')), K2, K2_INV);
  }

  /** Up to three bytes with the same last one collide only if they are equal. */
  lemma Tells1to3(s: seq<Byte>, t: seq<Byte>)
    requires 1 <= |s| == |t| <= 3 && s[|s| - 1] == t[|s| - 1]
    ensures CityHash64(s) == CityHash64(t) <==> s == t
  {
    hide FinishShort, Add, Shl, Size, At;
    var k := |s| / 2;
    var y, y' := Add(At(s, 0), Shl(At(s, k), 8)), Add(At(t, 0), Shl(At(t, k), 8));
    var z := Add(Size(|s|), Shl(At(s, |s| - 1), 2));
    SameAt(s, t, |s| - 1);
    ShortTells(y', z, y);
    if y == y' {
      TwoBytes(s, t, k);
      assert forall i :: 0 <= i < |s| ==> s[i] == t[i];
    }
  }

  lemma SameAt(s: seq<Byte>, t: seq<Byte>, p: nat)
    requires p < |s| == |t| && s[p] == t[p]
    ensures At(s, p) == At(t, p)
  {
  }

  lemma TwoBytes(s: seq<Byte>, t: seq<Byte>, k: nat)
    requires k < |s| == |t| && Add(At(s, 0), Shl(At(s, k), 8)) == Add(At(t, 0), Shl(At(t, k), 8))
    ensures s[0] == t[0] && s[k] == t[k]
  {
  }

  /** Four to eight bytes with the same last four. */
  lemma Tells4to8(s: seq<Byte>, t: seq<Byte>)
    requires 4 <= |s| == |t| <= 8 && s[|s| - 4..] == t[|s| - 4..]
    ensures CityHash64(s) == CityHash64(t) <==> s == t
  {
    hide HashLen16, Add, Size, Fetch32, Shl;
    var a, a' := Fetch32(s, 0), Fetch32(t, 0);
    SameLoad32(s, t, |s| - 4);
    HashTells(Add(Size(|s|), Shl(a, 3)), Add(Size(|s|), Shl(a', 3)), Fetch32(s, |s| - 4));
    AddSame(Shl(a, 3), Shl(a', 3), Size(|s|));
    if CityHash64(s) == CityHash64(t) {
      FourBytes(s, t);
      SameEnds(s, t, 4, |s| - 4);
    }
  }

  lemma SameLoad32(s: seq<Byte>, t: seq<Byte>, p: nat)
    requires p + 4 == |s| == |t| && s[p..] == t[p..]
    ensures Fetch32(s, p) == Fetch32(t, p)
  {
    hide Or, Shl;
    var a, b := s[p..], t[p..];
    assert forall i {:trigger a[i]} :: 0 <= i < 4 ==> a[i] == s[p + i];
    assert forall i {:trigger b[i]} :: 0 <= i < 4 ==> b[i] == t[p + i];
    assert a[0] == b[0] && a[1] == b[1] && a[2] == b[2] && a[3] == b[3];
  }

  lemma FourBytes(s: seq<Byte>, t: seq<Byte>)
    requires 4 <= |s| == |t| && Shl(Fetch32(s, 0), 3) == Shl(Fetch32(t, 0), 3)
    ensures s[..4] == t[..4]
  {
    hide Fetch32, Shl;
    Below32(s);
    Below32(t);
    ShlTells(Fetch32(s, 0), Fetch32(t, 0));
    FourLoaded(s, t);
  }

  lemma Below32(s: seq<Byte>)
    requires 4 <= |s|
    ensures Fetch32(s, 0) >> 32 == 0
  {
  }

  lemma ShlTells(a: Word, b: Word)
    requires a >> 32 == 0 && b >> 32 == 0 && Shl(a, 3) == Shl(b, 3)
    ensures a == b
  {
  }

  lemma FourLoaded(s: seq<Byte>, t: seq<Byte>)
    requires 4 <= |s| == |t| && Fetch32(s, 0) == Fetch32(t, 0)
    ensures s[0] == t[0] && s[1] == t[1] && s[2] == t[2] && s[3] == t[3]
  {
  }

  lemma SameEnds(s: seq<Byte>, t: seq<Byte>, a: nat, b: nat)
    requires b <= a <= |s| == |t| && s[..a] == t[..a] && s[b..] == t[b..]
    ensures s == t
  {
    assert s == s[..a] + s[b..][a - b..] && t == t[..a] + t[b..][a - b..];
  }

  /** Nine to sixteen bytes with the same last eight. */
  lemma Tells9to16(s: seq<Byte>, t: seq<Byte>)
    requires 9 <= |s| == |t| <= 16 && s[|s| - 8..] == t[|s| - 8..]
    ensures CityHash64(s) == CityHash64(t) <==> s == t
  {
    hide HashLen16, Add, Xor, Rotate, Size, Amount, Fetch64;
    var n := |s|;
    LoadSeesEveryByte(s, n - 8, t, n - 8);
    assert s[n - 8..n] == s[n - 8..] && t[n - 8..n] == t[n - 8..];
    var b := Fetch64(s, n - 8);
    var r := Rotate(Add(b, Size(n)), Amount(n));
    XorSame(HashLen16(Fetch64(s, 0), r), HashLen16(Fetch64(t, 0), r), b);
    HashTells(Fetch64(s, 0), Fetch64(t, 0), r);
    if CityHash64(s) == CityHash64(t) {
      LoadSeesEveryByte(s, 0, t, 0);
      SameEnds(s, t, 8, n - 8);
    }
  }

  /** Seventeen to 32 bytes with the same first sixteen and last eight. */
  lemma Tells17to32(s: seq<Byte>, t: seq<Byte>)
    requires 17 <= |s| == |t| <= 32 && s[..16] == t[..16] && s[|s| - 8..] == t[|s| - 8..]
    ensures CityHash64(s) == CityHash64(t) <==> s == t
  {
    hide HashLen16, Add, Sub, Mul, Xor, Rotate, Size, Fetch64;
    var n := |s|;
    SameLoads(s, t);
    var a, b, c := Mul(Fetch64(s, 0), K1), Fetch64(s, 8), Mul(Fetch64(s, n - 8), K2);
    var d, d' := Fetch64(s, n - 16), Fetch64(t, n - 16);
    var sum := Add(Rotate(Sub(a, b), 43), Rotate(c, 30));
    MultipliersHaveInverses();
    MulSame(d, d', K0, K0_INV);
    AddSame(Mul(d, K0), Mul(d', K0), sum);
    HashTells(Add(sum, Mul(d, K0)), Add(sum, Mul(d', K0)), Add(Sub(Add(a, Rotate(Xor(b, K3), 20)), c), Size(n)));
    if CityHash64(s) == CityHash64(t) {
      LoadSeesEveryByte(s, n - 16, t, n - 16);
      Overlap(s, t);
    }
  }

  lemma SameLoads(s: seq<Byte>, t: seq<Byte>)
    requires 17 <= |s| == |t| && s[..16] == t[..16] && s[|s| - 8..] == t[|s| - 8..]
    ensures Fetch64(s, 0) == Fetch64(t, 0) && Fetch64(s, 8) == Fetch64(t, 8) && Fetch64(s, |s| - 8) == Fetch64(t, |s| - 8)
  {
    hide Fetch64;
    var n := |s|;
    assert s[..8] == s[..16][..8] && t[..8] == t[..16][..8] && s[8..16] == s[..16][8..] && t[8..16] == t[..16][8..];
    assert s[n - 8..n] == s[n - 8..] && t[n - 8..n] == t[n - 8..];
    LoadSeesEveryByte(s, 0, t, 0);
    LoadSeesEveryByte(s, 8, t, 8);
    LoadSeesEveryByte(s, n - 8, t, n - 8);
  }

  lemma Overlap(s: seq<Byte>, t: seq<Byte>)
    requires 17 <= |s| == |t| <= 32 && s[..16] == t[..16] && s[|s| - 8..] == t[|s| - 8..]
    requires s[|s| - 16..|s| - 8] == t[|s| - 16..|s| - 8]
    ensures s == t
  {
    var n := |s|;
    assert s[n - 16..] == s[n - 16..n - 8] + s[n - 8..] && t[n - 16..] == t[n - 16..n - 8] + t[n - 8..];
    SameEnds(s, t, 16, n - 16);
  }

  /** Up to 64 bytes: of the four words mixed last, any two values of vf, of wf and of ws are told
      apart. */
  lemma UpTo64Tells(vf: Word, vs: Word, wf: Word, ws: Word, u: Word)
    ensures FinishUpTo64(u, vs, wf, ws) == FinishUpTo64(vf, vs, wf, ws) <==> u == vf
    ensures FinishUpTo64(vf, vs, u, ws) == FinishUpTo64(vf, vs, wf, ws) <==> u == wf
    ensures FinishUpTo64(vf, vs, wf, u) == FinishUpTo64(vf, vs, wf, ws) <==> u == ws
  {
    hide Add, Mul, FinishUpTo64;
    UpTo64Sums(u, vs, wf, ws, vf, wf, ws);
    UpTo64Sums(vf, vs, u, ws, vf, wf, ws);
    UpTo64Sums(vf, vs, wf, u, vf, wf, ws);
    AddSame(u, vf, ws);
    AddSame(u, wf, vs);
    AddSame(u, ws, vf);
  }

  lemma UpTo64Sums(vf: Word, vs: Word, wf: Word, ws: Word, vf': Word, wf': Word, ws': Word)
    requires Add(vf, ws) == Add(vf', ws') || Add(wf, vs) == Add(wf', vs)
    ensures FinishUpTo64(vf, vs, wf, ws) == FinishUpTo64(vf', vs, wf', ws') <==>
            Add(vf, ws) == Add(vf', ws') && Add(wf, vs) == Add(wf', vs)
  {
    hide Add, Mul, ShiftMix;
    MultipliersHaveInverses();
    MulSame(Add(vf, ws), Add(vf', ws'), K2, K2_INV);
    MulSame(Add(wf, vs), Add(wf', vs), K0, K0_INV);
    UpTo64Tail(Mul(Add(vf, ws), K2), Mul(Add(wf, vs), K0), Mul(Add(vf', ws'), K2), Mul(Add(wf', vs), K0), vs);
  }

  lemma UpTo64Tail(p: Word, q: Word, p': Word, q': Word, vs: Word)
    requires p == p' || q == q'
    ensures Mul(ShiftMix(Add(Mul(ShiftMix(Add(p, q)), K0), vs)), K2) == Mul(ShiftMix(Add(Mul(ShiftMix(Add(p', q')), K0), vs)), K2) <==>
            p == p' && q == q'
  {
    hide Add, Mul, ShiftMix;
    MultipliersHaveInverses();
    AddSame(p, p', q);
    AddSame(q, q', p);
    var r, r' := ShiftMix(Add(p, q)), ShiftMix(Add(p', q'));
    ShiftMixSame(Add(p, q), Add(p', q'));
    MulSame(r, r', K0, K0_INV);
    AddSame(Mul(r, K0), Mul(r', K0), vs);
    ShiftMixSame(Add(Mul(r, K0), vs), Add(Mul(r', K0), vs));
    MulSame(ShiftMix(Add(Mul(r, K0), vs)), ShiftMix(Add(Mul(r', K0), vs)), K2, K2_INV);
  }
}
