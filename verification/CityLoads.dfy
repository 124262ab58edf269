/** CityHash as it runs: every load is recorded, so that the methods below show both what is
    computed and that exactly the bytes of the buffer are read. */
module CityLoads {
  import opened CityWords
  import H = CityHash

  /** A buffer and the positions loaded from it. The record is only as good as its use: every
      method below takes its bytes from Load64, Load32 and Load8, and mentions the functions of
      CityHash on the buffer in specifications and ghost code alone. */
  class Reader {
    const s: seq<H.Byte>
    ghost var touched: set<nat>

    constructor (s: seq<H.Byte>)
      ensures this.s == s && touched == {}
    {
      this.s, touched := s, {};
    }

    /** Exactly the bytes from lo up to hi have been read, besides those read before. */
    twostate predicate Reads(lo: nat, hi: nat)
      reads this
    {
      forall k: nat {:trigger k in touched} :: k in touched <==> k in old(touched) || lo <= k < hi
    }

    /** UNALIGNED_LOAD64: the eight bytes must lie in the buffer. */
    method Load64(p: nat) returns (w: Word)
      requires p + 8 <= |s|
      modifies this
      ensures w == H.Fetch64(s, p) && Reads(p, p + 8)
    {
      w := H.Fetch64(s, p);
      touched := touched + {p, p + 1, p + 2, p + 3, p + 4, p + 5, p + 6, p + 7};
    }

    method Load32(p: nat) returns (w: Word)
      requires p + 4 <= |s|
      modifies this
      ensures w == H.Fetch32(s, p) && Reads(p, p + 4)
    {
      w := H.Fetch32(s, p);
      touched := touched + {p, p + 1, p + 2, p + 3};
    }

    method Load8(p: nat) returns (w: Word)
      requires p < |s|
      modifies this
      ensures w == H.At(s, p) && Reads(p, p + 1)
    {
      w := H.At(s, p);
      touched := touched + {p};
    }

    method HashLen0to16(p: nat, len: nat) returns (h: Word)
      requires p + len <= |s| && len <= 16
      modifies this
      ensures h == H.HashLen0to16(s, p, len) && Reads(p, p + len)
    {
      hide H.Fetch64, H.Fetch32, H.At, Hash128to64, H.HashLen16, Rotate, Add, Mul, ShiftMix, Xor, Shl, Size, Amount;
      if len > 8 {
        var a := Load64(p);
        var b := Load64(p + len - 8);
        return Xor(H.HashLen16(a, Rotate(Add(b, Size(len)), Amount(len))), b);
      }
      if len >= 4 {
        var a := Load32(p);
        var b := Load32(p + len - 4);
        return H.HashLen16(Add(Size(len), Shl(a, 3)), b);
      }
      if len > 0 {
        var a := Load8(p);
        var b := Load8(p + len / 2);
        var c := Load8(p + len - 1);
        var y := Add(a, Shl(b, 8));
        var z := Add(Size(len), Shl(c, 2));
        return Mul(ShiftMix(Xor(Mul(y, K2), Mul(z, K3))), K2);
      }
      return K2;
    }

    method HashLen17to32(p: nat, len: nat) returns (h: Word)
      requires p + len <= |s| && 17 <= len <= 32
      modifies this
      ensures h == H.HashLen17to32(s, p, len) && Reads(p, p + len)
    {
      hide H.Fetch64, H.HashLen16, Rotate, Mul, Add, Sub, Xor, Size;
      var a := Load64(p);
      a := Mul(a, K1);
      var b := Load64(p + 8);
      var c := Load64(p + len - 8);
      c := Mul(c, K2);
      var d := Load64(p + len - 16);
      d := Mul(d, K0);
      h := H.HashLen16(Add(Add(Rotate(Sub(a, b), 43), Rotate(c, 30)), d),
                       Add(Sub(Add(a, Rotate(Xor(b, K3), 20)), c), Size(len)));
    }

    method WeakHashLen32WithSeeds(p: nat, a0: Word, b0: Word) returns (r: (Word, Word))
      requires p + 32 <= |s|
      modifies this
      ensures r == H.WeakHash32(s, p, a0, b0) && Reads(p, p + 32)
    {
      hide Add, Rotate, H.Fetch64;
      var w := Load64(p);
      var x := Load64(p + 8);
      var y := Load64(p + 16);
      var z := Load64(p + 24);
      var a, b := a0, b0;
      a := Add(a, w);
      b := Rotate(Add(Add(b, a), z), 21);
      var c := a;
      a := Add(a, x);
      a := Add(a, y);
      b := Add(b, Rotate(a, 44));
      r := (Add(a, z), Add(b, c));
    }

    /** The steps that HashLen33to64 writes out twice: two words mixed from two given ones and the
        two at q. */
    method HalfHash(q: nat, a0: Word, z: Word) returns (f: Word, g: Word)
      requires q + 16 <= |s|
      modifies this
      ensures (f, g) == H.HalfHash(a0, z, H.Fetch64(s, q), H.Fetch64(s, q + 8)) && Reads(q, q + 16)
    {
      hide Add, Rotate, H.Fetch64;
      var a := a0;
      var b := Rotate(Add(a, z), 52);
      var c := Rotate(a, 37);
      var l := Load64(q);
      a := Add(a, l);
      c := Add(c, Rotate(a, 7));
      l := Load64(q + 8);
      a := Add(a, l);
      f := Add(a, z);
      g := Add(Add(b, Rotate(a, 31)), c);
    }

    method HashLen33to64(p: nat, len: nat) returns (h: Word)
      requires p + len <= |s| && 33 <= len <= 64
      modifies this
      ensures h == H.HashLen33to64(s, p, len) && Reads(p, p + len)
    {
      hide Add, Mul, Xor, Rotate, ShiftMix, Size, H.Fetch64, H.HalfHash;
      var z := Load64(p + 24);
      var a := Load64(p);
      var l := Load64(p + len - 16);
      a := Add(a, Mul(Add(Size(len), l), K0));
      var vf, vs := HalfHash(p + 8, a, z);
      a := Load64(p + 16);
      l := Load64(p + len - 32);
      a := Add(a, l);
      z := Load64(p + len - 8);
      var wf, ws := HalfHash(p + len - 24, a, z);
      var r := ShiftMix(Add(Mul(Add(vf, ws), K2), Mul(Add(wf, vs), K0)));
      h := Mul(ShiftMix(Add(Mul(r, K0), vs)), K2);
    }

    /** The 64-byte step, as the body of both block loops. */
    method Step(p: nat, st: H.State) returns (st': H.State)
      requires p + 64 <= |s|
      modifies this
      ensures st' == H.Step(s, p, st) && Reads(p, p + 64)
    {
      hide Add, Mul, Xor, Rotate, H.Fetch64, H.WeakHash32;
      var x, y, z, v, w := st.x, st.y, st.z, st.v, st.w;
      var l := Load64(p + 16);
      x := Mul(Rotate(Add(Add(Add(x, y), v.0), l), 37), K1);
      l := Load64(p + 48);
      y := Mul(Rotate(Add(Add(y, v.1), l), 42), K1);
      x := Xor(x, w.1);
      y := Xor(y, v.0);
      z := Rotate(Xor(z, w.0), 33);
      v := WeakHashLen32WithSeeds(p, Mul(v.1, K1), Add(x, w.0));
      w := WeakHashLen32WithSeeds(p + 32, Add(z, w.1), y);
      z, x := x, z;
      st' := H.State(x, y, z, v, w);
    }

    method StartOver64() returns (st: H.State)
      requires 64 < |s| < WORD
      modifies this
      ensures st == H.StartOver64(s)
      ensures forall k: nat :: k in touched <==> k in old(touched) || k < 8 || |s| - 64 <= k < |s|
    {
      hide Add, Mul, Xor, Rotate, ShiftMix, Size, H.Fetch64, H.WeakHash32;
      var len := |s|;
      var x := Load64(0);
      var y := Load64(len - 16);
      y := Xor(y, K1);
      var z := Load64(len - 56);
      z := Xor(z, K0);
      var v := WeakHashLen32WithSeeds(len - 64, Size(len), y);
      var w := WeakHashLen32WithSeeds(len - 32, Mul(Size(len), K1), K0);
      z := Add(z, Mul(ShiftMix(v.1), K1));
      x := Mul(Rotate(Add(z, x), 39), K1);
      y := Mul(Rotate(y, 33), K1);
      st := H.State(x, y, z, v, w);
    }

    method CityHashUpTo64() returns (h: Word)
      requires |s| <= 64
      modifies this
      ensures h == H.CityHash64(s) && Reads(0, |s|)
    {
      var len := |s|;
      if len <= 32 {
        if len <= 16 {
          h := HashLen0to16(0, len);
        } else {
          h := HashLen17to32(0, len);
        }
      } else {
        h := HashLen33to64(0, len);
      }
    }

    /** CityHash64 loads every byte of the buffer and nothing else. */
    method CityHash64() returns (h: Word)
      requires |s| < WORD
      modifies this
      ensures h == H.CityHash64(s) && Reads(0, |s|)
    {
      if |s| <= 64 {
        h := CityHashUpTo64();
      } else {
        h := CityHashOver64();
      }
    }

    method CityHashOver64() returns (h: Word)
      requires 64 < |s| < WORD
      modifies this
      ensures h == H.FinishOver64(H.Blocks(s, 0, (|s| - 1) / 64, H.StartOver64(s))) && Reads(0, |s|)
    {
      var st := StartOver64();
      var n := (|s| - 1) / 64;
      st := BlockLoop(64 * n, n, st);
      h := H.FinishOver64(st);
    }

    /** The loop of CityHash64 over whole 64-byte blocks. */
    method BlockLoop(len0: nat, ghost n0: nat, st0: H.State) returns (st: H.State)
      requires len0 == 64 * n0 <= |s|
      modifies this
      ensures st == H.Blocks(s, 0, n0, st0) && Reads(0, len0)
    {
      hide H.Step, H.Blocks;
      st := st0;
      var p, len := 0, len0;
      ghost var n, goal := n0, H.Blocks(s, 0, n0, st0);
      while len != 0
        invariant len == 64 * n && n >= 0 && p + len == len0 && p >= 0
        invariant H.Blocks(s, p, n, st) == goal
        invariant forall k: nat {:trigger k in touched} :: k in touched <==> k in old(touched) || k < p
        decreases len
      {
        H.BlocksStep(s, p, n, st);
        st := Step(p, st);
        p := p + 64;
        len := len - 64;
        n := n - 1;
      }
      H.BlocksNone(s, p, st);
    }

    method CityMurmur(p0: nat, len: nat, seed: (Word, Word)) returns (h: (Word, Word))
      requires p0 + len <= |s| < WORD
      modifies this
      ensures h == H.CityMurmur(s, p0, len, seed) && Reads(p0, p0 + len)
    {
      hide Add, Mul, Xor, Rotate, H.Fetch64, H.HashLen0to16, H.HashLen16, H.MurmurBlocks;
      var a, b, c, d := seed.0, seed.1, 0, 0;
      var l := len - 16;
      if l <= 0 {
        c := HashLen0to16(p0, len);
        c := Add(Mul(b, K1), c);
        var e := c;
        if len >= 8 {
          e := Load64(p0);
        }
        d := Rotate(Add(a, e), 32);
      } else {
        a, b, c, d := MurmurLong(p0, len, a, b);
      }
      a := H.HashLen16(a, c);
      b := H.HashLen16(d, b);
      h := (Xor(a, b), H.HashLen16(b, a));
    }

    /** The loop body of CityMurmur. */
    method MurmurStep(p: nat, a0: Word, b0: Word, c0: Word, d0: Word) returns (a: Word, b: Word, c: Word, d: Word)
      requires p + 16 <= |s|
      modifies this
      ensures (a, b, c, d) == H.MurmurBlock(s, p, (a0, b0, c0, d0)) && Reads(p, p + 16)
    {
      hide Mul, Xor, ShiftMix, H.Fetch64;
      a, b, c, d := a0, b0, c0, d0;
      var e := Load64(p);
      a := Xor(a, Mul(ShiftMix(Mul(e, K1)), K1));
      a := Mul(a, K1);
      b := Xor(b, a);
      e := Load64(p + 8);
      c := Xor(c, Mul(ShiftMix(Mul(e, K1)), K1));
      c := Mul(c, K1);
      d := Xor(d, c);
    }

    /** The branch of CityMurmur for more than 16 bytes. */
    method MurmurLong(p0: nat, len: nat, a0: Word, b0: Word) returns (a: Word, b: Word, c: Word, d: Word)
      requires p0 + len <= |s| < WORD && len > 16
      modifies this
      ensures var c1 := H.HashLen16(Add(H.Fetch64(s, p0 + len - 8), K1), a0);
              var d1 := H.HashLen16(Add(b0, Size(len)), Add(c1, H.Fetch64(s, p0 + len - 16)));
              (a, b, c, d) == H.MurmurBlocks(s, p0, (len - 1) / 16, (Add(a0, d1), b0, c1, d1))
      ensures Reads(p0, p0 + len)
    {
      hide H.MurmurBlock, H.MurmurBlocks, H.Fetch64, H.HashLen16, Add, Size;
      a, b := a0, b0;
      var p, l := p0, len - 16;
      var e := Load64(p + len - 8);
      c := H.HashLen16(Add(e, K1), a);
      e := Load64(p + len - 16);
      d := H.HashLen16(Add(b, Size(len)), Add(c, e));
      a := Add(a, d);
      ghost var n := (len - 1) / 16;
      ghost var goal := H.MurmurBlocks(s, p0, n, (a, b, c, d));
      while l > 0
        invariant p == p0 + len - 16 - l && n >= 0 && 16 * n - 15 <= l <= 16 * n
        invariant H.MurmurBlocks(s, p, n, (a, b, c, d)) == goal
        invariant forall k: nat :: k in touched <==> k in old(touched) || p0 + len - 16 <= k < p0 + len || p0 <= k < p
        decreases l
      {
        H.MurmurBlocksStep(s, p, n, (a, b, c, d));
        a, b, c, d := MurmurStep(p, a, b, c, d);
        p := p + 16;
        l := l - 16;
        n := n - 1;
      }
      H.MurmurBlocksNone(s, p, (a, b, c, d));
    }

    method StartOver128(p: nat, len: nat, seed: (Word, Word)) returns (st: H.State)
      requires 128 <= len && p + len <= |s| < WORD
      modifies this
      ensures st == H.StartOver128(s, p, len, seed)
      ensures forall k: nat :: k in touched <==> k in old(touched) || p <= k < p + 16 || p + 88 <= k < p + 96
    {
      hide Size, H.Fetch64, Rotate, Mul, Add, Xor;
      var x := seed.0;
      var y := seed.1;
      var z := Mul(Size(len), K1);
      var v0 := Load64(p);
      v0 := Add(Mul(Rotate(Xor(y, K1), 49), K1), v0);
      var v1 := Load64(p + 8);
      v1 := Add(Mul(Rotate(v0, 42), K1), v1);
      var w0 := Add(Mul(Rotate(Add(y, z), 35), K1), x);
      var w1 := Load64(p + 88);
      w1 := Mul(Rotate(Add(x, w1), 53), K1);
      st := H.State(x, y, z, (v0, v1), (w0, w1));
    }

    /** The manually unrolled loop body of CityHash128WithSeed is two 64-byte steps. */
    method UnrolledStep(p0: nat, st: H.State) returns (st': H.State)
      requires p0 + 128 <= |s|
      modifies this
      ensures st' == H.Step(s, p0 + 64, H.Step(s, p0, st)) && Reads(p0, p0 + 128)
    {
      hide Add, Mul, Xor, Rotate, H.Fetch64, H.WeakHash32;
      var p, x, y, z, v, w := p0, st.x, st.y, st.z, st.v, st.w;
      var l := Load64(p + 16);
      x := Mul(Rotate(Add(Add(Add(x, y), v.0), l), 37), K1);
      l := Load64(p + 48);
      y := Mul(Rotate(Add(Add(y, v.1), l), 42), K1);
      x := Xor(x, w.1);
      y := Xor(y, v.0);
      z := Rotate(Xor(z, w.0), 33);
      v := WeakHashLen32WithSeeds(p, Mul(v.1, K1), Add(x, w.0));
      w := WeakHashLen32WithSeeds(p + 32, Add(z, w.1), y);
      z, x := x, z;
      assert H.State(x, y, z, v, w) == H.Step(s, p0, st);
      p := p + 64;
      ghost var half := H.State(x, y, z, v, w);
      l := Load64(p + 16);
      x := Mul(Rotate(Add(Add(Add(x, y), v.0), l), 37), K1);
      l := Load64(p + 48);
      y := Mul(Rotate(Add(Add(y, v.1), l), 42), K1);
      x := Xor(x, w.1);
      y := Xor(y, v.0);
      z := Rotate(Xor(z, w.0), 33);
      v := WeakHashLen32WithSeeds(p, Mul(v.1, K1), Add(x, w.0));
      w := WeakHashLen32WithSeeds(p + 32, Add(z, w.1), y);
      z, x := x, z;
      st' := H.State(x, y, z, v, w);
      assert st' == H.Step(s, p0 + 64, half);
    }

    /** The unrolled loop runs over the whole 128-byte pieces. */
    method UnrolledLoop(p0: nat, len0: nat, ghost n0: nat, ghost rest: nat, st0: H.State) returns (st: H.State, p: nat, len: nat)
      requires len0 == 64 * n0 + rest && rest < 128 && n0 >= 2 && n0 % 2 == 0 && p0 + len0 <= |s|
      modifies this
      ensures len == rest && p == p0 + len0 - rest
      ensures st == H.Blocks(s, p0, n0, st0) && Reads(p0, p)
    {
      hide H.Step, H.Blocks;
      st, p, len := st0, p0, len0;
      ghost var n := n0;
      ghost var goal := H.Blocks(s, p0, n, st0);
      while true
        invariant len == 64 * n + rest && n >= 2 && n % 2 == 0 && p == p0 + len0 - len
        invariant H.Blocks(s, p, n, st) == goal
        invariant forall k: nat {:trigger k in touched} :: k in touched <==> k in old(touched) || p0 <= k < p
        decreases len
      {
        H.BlocksTwice(s, p, n, st);
        st := UnrolledStep(p, st);
        p := p + 128;
        len := len - 128;
        n := n - 2;
        if len < 128 {
          H.BlocksNone(s, p, st);
          return;
        }
      }
    }

    method TailStep(q: nat, st: H.State) returns (st': H.State)
      requires q + 32 <= |s|
      modifies this
      ensures st' == H.TailStep(s, q, st) && Reads(q, q + 32)
    {
      hide Add, Sub, Mul, Rotate, H.Fetch64, H.WeakHash32;
      var x, y, v, w0 := st.x, st.y, st.v, st.w.0;
      y := Add(Mul(Rotate(Sub(y, x), 42), K0), v.1);
      var l := Load64(q + 16);
      w0 := Add(w0, l);
      x := Add(Mul(Rotate(x, 49), K0), w0);
      w0 := Add(w0, v.0);
      v := WeakHashLen32WithSeeds(q, v.0, v.1);
      st' := H.State(x, y, st.z, v, (w0, st.w.1));
    }

    /** The tail: up to four chunks of 32 bytes, taken from the end; the last may reach back into
        bytes the block loop has already hashed, but never before the buffer. */
    method TailLoop(p: nat, len: nat, st0: H.State) returns (st: H.State)
      requires len < 128 <= p && p + len <= |s|
      modifies this
      ensures st == H.Tail(s, p + len, len, st0)
      ensures forall k: nat :: p <= k < p + len ==> k in touched
      ensures forall k: nat :: k in touched ==> k in old(touched) || p - 31 <= k < p + len
      ensures old(touched) <= touched
    {
      hide H.TailStep, H.Tail;
      st := st0;
      var tailDone := 0;
      ghost var goal := H.Tail(s, p + len, len, st0);
      while tailDone < len
        invariant 0 <= tailDone <= len + 31
        invariant H.Tail(s, p + len - tailDone, len - tailDone, st) == goal
        invariant forall k: nat {:trigger k in touched} :: k in touched <==> k in old(touched) || p + len - tailDone <= k < p + len
      {
        H.TailNext(s, p + len - tailDone, len - tailDone, st);
        tailDone := tailDone + 32;
        st := TailStep(p + len - tailDone, st);
      }
      H.TailNone(s, p + len - tailDone, len - tailDone, st);
    }

    method CityHash128WithSeed(p0: nat, len0: nat, seed: (Word, Word)) returns (h: (Word, Word))
      requires p0 + len0 <= |s| < WORD
      modifies this
      ensures h == H.CityHash128WithSeed(s, p0, len0, seed) && Reads(p0, p0 + len0)
    {
      hide H.CityMurmur, H.StartOver128, H.StirTail, H.FinishOver128, H.Blocks, H.Tail;
      if len0 < 128 {
        h := CityMurmur(p0, len0, seed);
        return;
      }
      h := CityHash128Over128(p0, len0, 2 * (len0 / 128), len0 % 128, seed);
    }

    method CityHash128Over128(p0: nat, len0: nat, ghost n: nat, ghost rest: nat, seed: (Word, Word)) returns (h: (Word, Word))
      requires len0 == 64 * n + rest && rest < 128 && n >= 2 && n % 2 == 0 && p0 + len0 <= |s| < WORD
      modifies this
      ensures h == H.FinishOver128(H.Tail(s, p0 + len0, rest, H.StirTail(H.Blocks(s, p0, n, H.StartOver128(s, p0, len0, seed)))))
      ensures Reads(p0, p0 + len0)
    {
      hide H.StartOver128, H.StirTail, H.FinishOver128, H.Blocks, H.Tail;
      var st := StartOver128(p0, len0, seed);
      var p, len;
      st, p, len := UnrolledLoop(p0, len0, n, rest, st);
      st := H.StirTail(st);
      st := TailLoop(p, len, st);
      h := H.FinishOver128(st);
    }

    /** CityHash128 loads every byte of the buffer and nothing else. */
    method CityHash128() returns (h: (Word, Word))
      requires |s| < WORD
      modifies this
      ensures h == H.CityHash128(s) && Reads(0, |s|)
    {
      hide H.CityHash128WithSeed, H.Fetch64, Xor, Mul, Size;
      var len := |s|;
      if len >= 16 {
        var a := Load64(0);
        var b := Load64(8);
        h := CityHash128WithSeed(16, len - 16, (Xor(a, K3), b));
      } else if len >= 8 {
        var a := Load64(0);
        var b := Load64(len - 8);
        h := CityHash128WithSeed(0, 0, (Xor(a, Mul(Size(len), K0)), Xor(b, K1)));
      } else {
        h := CityHash128WithSeed(0, len, (K0, K1));
      }
    }
  }
}
