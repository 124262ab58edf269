/** Which differences CityHash128 keeps, over single steps, over runs of the CityMurmur loop and, for
    short strings, of the whole hash. */
module CityWideLaws {
  import opened CityWords
  import opened CityHash
  import opened CityLaws

  // ----- The last step of CityMurmur -----

  /** The two words returned determine the two hashes they are made from. */
  lemma FinishMurmurSame(m: (Word, Word, Word, Word), m': (Word, Word, Word, Word))
    ensures FinishMurmur(m) == FinishMurmur(m') <==>
            HashLen16(m.0, m.2) == HashLen16(m'.0, m'.2) && HashLen16(m.3, m.1) == HashLen16(m'.3, m'.1)
  {
    hide HashLen16, Xor;
    PairSame(HashLen16(m.0, m.2), HashLen16(m.3, m.1), HashLen16(m'.0, m'.2), HashLen16(m'.3, m'.1));
  }

  lemma PairSame(a: Word, b: Word, a': Word, b': Word)
    ensures Xor(a, b) == Xor(a', b') && HashLen16(b, a) == HashLen16(b', a') <==> a == a' && b == b'
  {
    hide HashLen16, Xor;
    if Xor(a, b) == Xor(a', b') && HashLen16(b, a) == HashLen16(b', a') {
      XorTwice(a, b);
      XorTwice(a', b');
      SecondWordSame(b, a, b', a');
      XorSame(b, b', a);
    }
  }

  /** Of pairs with the same exclusive or, Hash128to64 tells any two apart. */
  lemma SecondWordSame(low: Word, high: Word, low': Word, high': Word)
    requires Xor(low, high) == Xor(low', high') && HashLen16(low, high) == HashLen16(low', high')
    ensures high == high'
  {
    hide Xor, Mul, ShiftMix;
    var a := ShiftMix(Mul(Xor(low, high), K_MUL));
    MultipliersHaveInverses();
    var u, u' := Mul(Xor(high, a), K_MUL), Mul(Xor(high', a), K_MUL);
    MulSame(ShiftMix(u), ShiftMix(u'), K_MUL, K_INV);
    ShiftMixSame(u, u');
    MulSame(Xor(high, a), Xor(high', a), K_MUL, K_INV);
    XorSame(high, high', a);
  }

  // ----- The loop of CityMurmur -----

  /** One 16-byte step tells any two states apart, and any two pieces. */
  lemma MurmurBlockSame(s: seq<Byte>, t: seq<Byte>, p: nat, m: (Word, Word, Word, Word), m': (Word, Word, Word, Word))
    requires p + 16 <= |s| && p + 16 <= |t|
    requires m == m' || s[p..p + 16] == t[p..p + 16]
    ensures MurmurBlock(s, p, m) == MurmurBlock(t, p, m') <==> m == m' && s[p..p + 16] == t[p..p + 16]
  {
    hide Fetch64, MurmurBlock, Xor, Stirred;
    var a, a', c, c' := Fetch64(s, p), Fetch64(t, p), Fetch64(s, p + 8), Fetch64(t, p + 8);
    PieceIsTwoLoads(s, t, p);
    MurmurBlockIs(s, p, m);
    MurmurBlockIs(t, p, m');
    StirredSame(m.0, m'.0, a, a');
    StirredSame(m.2, m'.2, c, c');
    XorSame(m.1, m'.1, Stirred(m.0, a));
    XorSame(m.3, m'.3, Stirred(m.2, c));
    assert m == m' <==> m.0 == m'.0 && m.1 == m'.1 && m.2 == m'.2 && m.3 == m'.3;
    var r, r' := MurmurBlock(s, p, m), MurmurBlock(t, p, m');
    assert r == r' <==> r.0 == r'.0 && r.1 == r'.1 && r.2 == r'.2 && r.3 == r'.3;
  }

  /** A word of the state stirred with a loaded one. */
  function Stirred(a: Word, e: Word): Word {
    Mul(Xor(a, Mul(ShiftMix(Mul(e, K1)), K1)), K1)
  }

  lemma MurmurBlockIs(s: seq<Byte>, p: nat, m: (Word, Word, Word, Word))
    requires p + 16 <= |s|
    ensures var r := MurmurBlock(s, p, m);
            && r.0 == Stirred(m.0, Fetch64(s, p)) && r.1 == Xor(m.1, r.0)
            && r.2 == Stirred(m.2, Fetch64(s, p + 8)) && r.3 == Xor(m.3, r.2)
  {
    hide Fetch64, Xor, Mul, ShiftMix;
  }

  lemma PieceIsTwoLoads(s: seq<Byte>, t: seq<Byte>, p: nat)
    requires p + 16 <= |s| && p + 16 <= |t|
    ensures s[p..p + 16] == t[p..p + 16] <==> Fetch64(s, p) == Fetch64(t, p) && Fetch64(s, p + 8) == Fetch64(t, p + 8)
  {
    hide Fetch64;
    LoadSeesEveryByte(s, p, t, p);
    LoadSeesEveryByte(s, p + 8, t, p + 8);
    var a, b := s[p..p + 16], t[p..p + 16];
    assert a[..8] == s[p..p + 8] && a[8..] == s[p + 8..p + 16] && b[..8] == t[p..p + 8] && b[8..] == t[p + 8..p + 16];
    assert a == a[..8] + a[8..] && b == b[..8] + b[8..];
  }

  lemma StirredSame(a: Word, a': Word, e: Word, e': Word)
    requires a == a' || e == e'
    ensures Stirred(a, e) == Stirred(a', e') <==> a == a' && e == e'
  {
    hide Xor, Mul, ShiftMix;
    MultipliersHaveInverses();
    var r, r' := Mul(ShiftMix(Mul(e, K1)), K1), Mul(ShiftMix(Mul(e', K1)), K1);
    MulSame(e, e', K1, K1_INV);
    ShiftMixSame(Mul(e, K1), Mul(e', K1));
    MulSame(ShiftMix(Mul(e, K1)), ShiftMix(Mul(e', K1)), K1, K1_INV);
    XorSame(a, a', r);
    XorSame(r, r', a);
    MulSame(Xor(a, r), Xor(a', r'), K1, K1_INV);
  }

  /** However long it runs, the loop tells any two states that it starts from apart. */
  lemma {:induction false} MurmurKeepsState(s: seq<Byte>, p: nat, n: nat, m: (Word, Word, Word, Word), m': (Word, Word, Word, Word))
    requires p + 16 * n <= |s|
    ensures MurmurBlocks(s, p, n, m) == MurmurBlocks(s, p, n, m') <==> m == m'
    decreases n
  {
    hide MurmurBlock;
    if n > 0 {
      MurmurBlockSame(s, s, p, m, m');
      MurmurKeepsState(s, p + 16, n - 1, MurmurBlock(s, p, m), MurmurBlock(s, p, m'));
    }
  }

  /** It only sees its pieces. */
  lemma {:induction false} MurmurSees(s: seq<Byte>, t: seq<Byte>, p: nat, n: nat, m: (Word, Word, Word, Word))
    requires p + 16 * n <= |s| == |t| && s[p..p + 16 * n] == t[p..p + 16 * n]
    ensures MurmurBlocks(s, p, n, m) == MurmurBlocks(t, p, n, m)
    decreases n
  {
    hide MurmurBlock;
    if n > 0 {
      assert s[p..p + 16] == s[p..p + 16 * n][..16] && t[p..p + 16] == t[p..p + 16 * n][..16];
      assert s[p + 16..p + 16 * n] == s[p..p + 16 * n][16..] && t[p + 16..p + 16 * n] == t[p..p + 16 * n][16..];
      MurmurBlockSame(s, t, p, m, m);
      MurmurSees(s, t, p + 16, n - 1, MurmurBlock(s, p, m));
    }
  }

  /** Two strings that differ within one piece of the loop, in whatever way, lead it to different
      states: nothing that follows makes up for the difference. */
  lemma {:induction false} MurmurTells(s: seq<Byte>, t: seq<Byte>, p: nat, n: nat, k: nat, m: (Word, Word, Word, Word))
    requires p + 16 * n <= |s| == |t| && k < n
    requires s[p..p + 16 * k] == t[p..p + 16 * k] && s[p + 16 * (k + 1)..p + 16 * n] == t[p + 16 * (k + 1)..p + 16 * n]
    ensures MurmurBlocks(s, p, n, m) == MurmurBlocks(t, p, n, m) <==>
            s[p + 16 * k..p + 16 * (k + 1)] == t[p + 16 * k..p + 16 * (k + 1)]
    decreases n
  {
    hide MurmurBlock;
    MurmurBlockSame(s, t, p, m, m);
    var a, b := MurmurBlock(s, p, m), MurmurBlock(t, p, m);
    if k == 0 {
      MurmurSees(s, t, p + 16, n - 1, b);
      MurmurKeepsState(s, p + 16, n - 1, a, b);
    } else {
      assert s[p..p + 16] == s[p..p + 16 * k][..16] && t[p..p + 16] == t[p..p + 16 * k][..16];
      assert s[p + 16..p + 16 * k] == s[p..p + 16 * k][16..] && t[p + 16..p + 16 * k] == t[p..p + 16 * k][16..];
      MurmurTells(s, t, p + 16, n - 1, k - 1, a);
    }
  }

  // ----- The last step over 128 bytes -----

  /** It tells any two values of x, of y and, below, of v.1 and of w.1 apart. */
  lemma Finish128Tells(st: State, u: Word)
    ensures FinishOver128(st.(x := u)) == FinishOver128(st) <==> u == st.x
    ensures FinishOver128(st.(y := u)) == FinishOver128(st) <==> u == st.y
  {
    hide HashLen16, Add;
    var x, y := HashLen16(st.x, st.v.0), HashLen16(st.y, st.w.0);
    HashTells(u, st.x, st.v.0);
    FirstHalf(HashLen16(u, st.v.0), x, st.v.1, st.w.1, y);
    HashTells(u, st.y, st.w.0);
    AddSame(HashLen16(u, st.w.0), y, HashLen16(Add(x, st.v.1), st.w.1));
  }

  lemma Finish128TellsSeconds(st: State, u: Word)
    ensures FinishOver128(st.(v := (st.v.0, u))) == FinishOver128(st) <==> u == st.v.1
    ensures FinishOver128(st.(w := (st.w.0, u))) == FinishOver128(st) <==> u == st.w.1
  {
    hide HashLen16, Add;
    var x, y := HashLen16(st.x, st.v.0), HashLen16(st.y, st.w.0);
    AddSwap(x, u);
    AddSwap(x, st.v.1);
    FirstHalf(u, st.v.1, x, st.w.1, y);
    AddSame(u, st.w.1, x);
    HashTells(Add(x, u), Add(x, st.w.1), Add(y, st.v.1));
  }

  lemma FirstHalf(u: Word, u': Word, v: Word, w: Word, y: Word)
    ensures Add(HashLen16(Add(u, v), w), y) == Add(HashLen16(Add(u', v), w), y) <==> u == u'
  {
    hide HashLen16, Add;
    AddSame(u, u', v);
    HashTells(Add(u, v), Add(u', v), w);
    AddSame(HashLen16(Add(u, v), w), HashLen16(Add(u', v), w), y);
  }

  /** Of v.0 and w.0 there are always two values that it does not tell apart; it never looks at z. */
  lemma Finish128Confuses(st: State, z: Word) returns (v0: (Word, Word), w0: (Word, Word))
    ensures v0.0 != v0.1 && FinishOver128(st.(v := (v0.0, st.v.1))) == FinishOver128(st.(v := (v0.1, st.v.1)))
    ensures w0.0 != w0.1 && FinishOver128(st.(w := (w0.0, st.w.1))) == FinishOver128(st.(w := (w0.1, st.w.1)))
    ensures FinishOver128(st.(z := z)) == FinishOver128(st)
  {
    hide HashLen16, Add;
    v0 := HashConfuses(st.x);
    w0 := HashConfuses(st.y);
  }

  // ----- Short strings -----

  /** Below eight bytes CityHash128 collides exactly where CityHash64 does. */
  lemma ShortCollisions(s: seq<Byte>, t: seq<Byte>)
    requires |s| < 8 && |t| < 8
    ensures CityHash128(s) == CityHash128(t) <==> CityHash64(s) == CityHash64(t)
  {
    hide HashLen0to16, FinishMurmur, Add, Rotate;
    ShortMurmur(CityHash64(s), CityHash64(t));
  }

  lemma ShortMurmur(h: Word, h': Word)
    ensures var c, c' := Add(Mul(K1, K1), h), Add(Mul(K1, K1), h');
            FinishMurmur((K0, K1, c, Rotate(Add(K0, c), 32))) == FinishMurmur((K0, K1, c', Rotate(Add(K0, c'), 32))) <==> h == h'
  {
    hide FinishMurmur, HashLen16, Add, Mul, Rotate;
    var c, c' := Add(Mul(K1, K1), h), Add(Mul(K1, K1), h');
    var d, d' := Rotate(Add(K0, c), 32), Rotate(Add(K0, c'), 32);
    FinishMurmurSame((K0, K1, c, d), (K0, K1, c', d'));
    HashTells(d, d', K1);
    RotateIsInjective(Add(K0, c), Add(K0, c'), 32);
    AddSame(c, c', K0);
    AddSame(h, h', Mul(K1, K1));
  }

  /** Eight to fifteen bytes with the same last eight collide only if they are equal. */
  lemma Tells8to15(s: seq<Byte>, t: seq<Byte>)
    requires 8 <= |s| == |t| <= 15 && s[|s| - 8..] == t[|s| - 8..]
    ensures CityHash128(s) == CityHash128(t) <==> s == t
  {
    hide Fetch64, CityMurmur, Xor, Mul, Size;
    var n := |s|;
    LoadSeesEveryByte(s, n - 8, t, n - 8);
    assert s[n - 8..n] == s[n - 8..] && t[n - 8..n] == t[n - 8..];
    var b, a, a' := Xor(Fetch64(s, n - 8), K1), Xor(Fetch64(s, 0), Mul(Size(n), K0)), Xor(Fetch64(t, 0), Mul(Size(n), K0));
    XorSame(Fetch64(s, 0), Fetch64(t, 0), Mul(Size(n), K0));
    MurmurOfNothing(s, t, a, a', b);
    if CityHash128(s) == CityHash128(t) {
      LoadSeesEveryByte(s, 0, t, 0);
      SameEnds(s, t, 8, n - 8);
    }
  }

  lemma MurmurOfNothing(s: seq<Byte>, t: seq<Byte>, a: Word, a': Word, b: Word)
    requires |s| < WORD && |t| < WORD
    ensures CityMurmur(s, 0, 0, (a, b)) == CityMurmur(t, 0, 0, (a', b)) <==> a == a'
  {
    hide FinishMurmur, HashLen16, Add, Mul, Rotate;
    var c := Add(Mul(b, K1), K2);
    FinishMurmurSame((a, b, c, Rotate(Add(a, c), 32)), (a', b, c, Rotate(Add(a', c), 32)));
    HashTells(a, a', c);
  }
}
