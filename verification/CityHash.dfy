/** CityHash 1.0 over a byte buffer: what each function computes, and which bytes it loads. */
module CityHash {
  import opened CityWords

  type Byte = bv8

  // ----- The hash functions on plain sequences -----

  function At(s: seq<Byte>, p: nat): Word
    requires p < |s|
  {
    s[p] as Word
  }

  /** Loads are little-endian. */
  function Fetch32(s: seq<Byte>, p: nat): Word
    requires p + 4 <= |s|
  {
    Or(Or(At(s, p), Shl(At(s, p + 1), 8)), Or(Shl(At(s, p + 2), 16), Shl(At(s, p + 3), 24)))
  }

  function Fetch64(s: seq<Byte>, p: nat): Word
    requires p + 8 <= |s|
  {
    Or(Fetch32(s, p), Shl(Fetch32(s, p + 4), 32))
  }

  function HashLen16(u: Word, v: Word): Word {
    Hash128to64(u, v)
  }

  /** What HashLen0to16 does with two words made of up to three bytes. */
  function FinishShort(y: Word, z: Word): Word {
    Mul(ShiftMix(Xor(Mul(y, K2), Mul(z, K3))), K2)
  }

  function HashLen0to16(s: seq<Byte>, p: nat, len: nat): Word
    requires p + len <= |s| && len <= 16
  {
    if len > 8 then
      var a := Fetch64(s, p);
      var b := Fetch64(s, p + len - 8);
      Xor(HashLen16(a, Rotate(Add(b, Size(len)), Amount(len))), b)
    else if len >= 4 then
      HashLen16(Add(Size(len), Shl(Fetch32(s, p), 3)), Fetch32(s, p + len - 4))
    else if len > 0 then
      FinishShort(Add(At(s, p), Shl(At(s, p + len / 2), 8)), Add(Size(len), Shl(At(s, p + len - 1), 2)))
    else K2
  }

  function HashLen17to32(s: seq<Byte>, p: nat, len: nat): Word
    requires p + len <= |s| && 17 <= len <= 32
  {
    var a := Mul(Fetch64(s, p), K1);
    var b := Fetch64(s, p + 8);
    var c := Mul(Fetch64(s, p + len - 8), K2);
    var d := Mul(Fetch64(s, p + len - 16), K0);
    HashLen16(Add(Add(Rotate(Sub(a, b), 43), Rotate(c, 30)), d),
              Add(Sub(Add(a, Rotate(Xor(b, K3), 20)), c), Size(len)))
  }

  function WeakHash(w: Word, x: Word, y: Word, z: Word, a0: Word, b0: Word): (Word, Word) {
    var a1 := Add(a0, w);
    var b1 := Rotate(Add(Add(b0, a1), z), 21);
    var a2 := Add(Add(a1, x), y);
    (Add(a2, z), Add(Add(b1, Rotate(a2, 44)), a1))
  }

  function WeakHash32(s: seq<Byte>, p: nat, a: Word, b: Word): (Word, Word)
    requires p + 32 <= |s|
  {
    WeakHash(Fetch64(s, p), Fetch64(s, p + 8), Fetch64(s, p + 16), Fetch64(s, p + 24), a, b)
  }

  /** One half of HashLen33to64: the two words mixed from five. */
  function HalfHash(a0: Word, z: Word, l1: Word, l2: Word): (Word, Word) {
    var a1 := Add(a0, l1);
    var a2 := Add(a1, l2);
    (Add(a2, z), Add(Add(Rotate(Add(a0, z), 52), Rotate(a2, 31)), Add(Rotate(a0, 37), Rotate(a1, 7))))
  }

  function HashLen33to64(s: seq<Byte>, p: nat, len: nat): Word
    requires p + len <= |s| && 33 <= len <= 64
  {
    var (vf, vs) := HalfHash(Add(Fetch64(s, p), Mul(Add(Size(len), Fetch64(s, p + len - 16)), K0)),
                             Fetch64(s, p + 24), Fetch64(s, p + 8), Fetch64(s, p + 16));
    var (wf, ws) := HalfHash(Add(Fetch64(s, p + 16), Fetch64(s, p + len - 32)),
                             Fetch64(s, p + len - 8), Fetch64(s, p + len - 24), Fetch64(s, p + len - 16));
    FinishUpTo64(vf, vs, wf, ws)
  }

  function FinishUpTo64(vf: Word, vs: Word, wf: Word, ws: Word): Word {
    var r := ShiftMix(Add(Mul(Add(vf, ws), K2), Mul(Add(wf, vs), K0)));
    Mul(ShiftMix(Add(Mul(r, K0), vs)), K2)
  }

  /** The 56 bytes of state of the long-string loops. */
  datatype State = State(x: Word, y: Word, z: Word, v: (Word, Word), w: (Word, Word))

  /** The 64-byte step of CityHash64. */
  function Step(s: seq<Byte>, p: nat, st: State): State
    requires p + 64 <= |s|
  {
    var x1 := Xor(Mul(Rotate(Add(Add(Add(st.x, st.y), st.v.0), Fetch64(s, p + 16)), 37), K1), st.w.1);
    var y1 := Xor(Mul(Rotate(Add(Add(st.y, st.v.1), Fetch64(s, p + 48)), 42), K1), st.v.0);
    var z1 := Rotate(Xor(st.z, st.w.0), 33);
    var v1 := WeakHash32(s, p, Mul(st.v.1, K1), Add(x1, st.w.0));
    var w1 := WeakHash32(s, p + 32, Add(z1, st.w.1), y1);
    State(z1, y1, x1, v1, w1)
  }

  function Blocks(s: seq<Byte>, p: nat, n: nat, st: State): State
    requires p + 64 * n <= |s|
    decreases n
  {
    if n == 0 then st else Blocks(s, p + 64, n - 1, Step(s, p, st))
  }

  lemma BlocksStep(s: seq<Byte>, p: nat, n: nat, st: State)
    requires p + 64 * n <= |s| && n > 0
    ensures Blocks(s, p, n, st) == Blocks(s, p + 64, n - 1, Step(s, p, st))
  {
  }

  lemma BlocksNone(s: seq<Byte>, p: nat, st: State)
    requires p <= |s|
    ensures Blocks(s, p, 0, st) == st
  {
  }

  lemma BlocksTwice(s: seq<Byte>, p: nat, n: nat, st: State)
    requires p + 64 * n <= |s| && n > 1
    ensures Blocks(s, p, n, st) == Blocks(s, p + 128, n - 2, Step(s, p + 64, Step(s, p, st)))
  {
    BlocksStep(s, p, n, st);
    BlocksStep(s, p + 64, n - 1, Step(s, p, st));
  }

  function StartOver64(s: seq<Byte>): State
    requires 64 < |s| < WORD
  {
    var len := |s|;
    var y := Xor(Fetch64(s, len - 16), K1);
    var z := Xor(Fetch64(s, len - 56), K0);
    var v := WeakHash32(s, len - 64, Size(len), y);
    var w := WeakHash32(s, len - 32, Mul(Size(len), K1), K0);
    var z1 := Add(z, Mul(ShiftMix(v.1), K1));
    State(Mul(Rotate(Add(z1, Fetch64(s, 0)), 39), K1), Mul(Rotate(y, 33), K1), z1, v, w)
  }

  function FinishOver64(st: State): Word {
    HashLen16(Add(Add(HashLen16(st.v.0, st.w.0), Mul(ShiftMix(st.y), K1)), st.z),
              Add(HashLen16(st.v.1, st.w.1), st.x))
  }

  function CityHash64(s: seq<Byte>): Word
    requires |s| < WORD
  {
    if |s| <= 16 then HashLen0to16(s, 0, |s|)
    else if |s| <= 32 then HashLen17to32(s, 0, |s|)
    else if |s| <= 64 then HashLen33to64(s, 0, |s|)
    else FinishOver64(Blocks(s, 0, (|s| - 1) / 64, StartOver64(s)))
  }

  function CityHash64WithSeeds(s: seq<Byte>, seed0: Word, seed1: Word): Word
    requires |s| < WORD
  {
    HashLen16(Sub(CityHash64(s), seed0), seed1)
  }

  /** For any fixed seeds two inputs collide exactly when their unseeded hashes collide. */
  lemma SeedsDoNotAddCollisions(s: seq<Byte>, t: seq<Byte>, seed0: Word, seed1: Word)
    requires |s| < WORD && |t| < WORD
    ensures CityHash64WithSeeds(s, seed0, seed1) == CityHash64WithSeeds(t, seed0, seed1) <==>
            CityHash64(s) == CityHash64(t)
  {
    hide CityHash64, Add, Sub, Hash128to64;
    var a, b := CityHash64(s), CityHash64(t);
    HashSame(Sub(a, seed0), Sub(b, seed0), seed1);
    SubUndone(a, seed0);
    SubUndone(b, seed0);
  }

  /** Every 64-bit value is the seeded hash of some unseeded hash value. */
  lemma SeedsReachEveryHash(h: Word, seed0: Word, seed1: Word) returns (u: Word)
    ensures HashLen16(Sub(u, seed0), seed1) == h
  {
    HashIsBijective(0, seed1, h);
    u := Add(Unhash(h, seed1), seed0);
    SubUndone(Unhash(h, seed1), seed0);
  }

  // ----- CityHash128 -----

  function MurmurBlock(s: seq<Byte>, p: nat, m: (Word, Word, Word, Word)): (Word, Word, Word, Word)
    requires p + 16 <= |s|
  {
    var (a, b, c, d) := m;
    var a1 := Mul(Xor(a, Mul(ShiftMix(Mul(Fetch64(s, p), K1)), K1)), K1);
    var c1 := Mul(Xor(c, Mul(ShiftMix(Mul(Fetch64(s, p + 8), K1)), K1)), K1);
    (a1, Xor(b, a1), c1, Xor(d, c1))
  }

  function MurmurBlocks(s: seq<Byte>, p: nat, n: nat, m: (Word, Word, Word, Word)): (Word, Word, Word, Word)
    requires p + 16 * n <= |s|
    decreases n
  {
    if n == 0 then m else MurmurBlocks(s, p + 16, n - 1, MurmurBlock(s, p, m))
  }

  lemma MurmurBlocksStep(s: seq<Byte>, p: nat, n: nat, m: (Word, Word, Word, Word))
    requires p + 16 * n <= |s| && n > 0
    ensures MurmurBlocks(s, p, n, m) == MurmurBlocks(s, p + 16, n - 1, MurmurBlock(s, p, m))
  {
  }

  lemma MurmurBlocksNone(s: seq<Byte>, p: nat, m: (Word, Word, Word, Word))
    requires p <= |s|
    ensures MurmurBlocks(s, p, 0, m) == m
  {
  }

  function CityMurmur(s: seq<Byte>, p: nat, len: nat, seed: (Word, Word)): (Word, Word)
    requires p + len <= |s| < WORD
  {
    var m :=
      if len <= 16 then
        var c := Add(Mul(seed.1, K1), HashLen0to16(s, p, len));
        (seed.0, seed.1, c, Rotate(Add(seed.0, if len >= 8 then Fetch64(s, p) else c), 32))
      else
        var c := HashLen16(Add(Fetch64(s, p + len - 8), K1), seed.0);
        var d := HashLen16(Add(seed.1, Size(len)), Add(c, Fetch64(s, p + len - 16)));
        MurmurBlocks(s, p, (len - 1) / 16, (Add(seed.0, d), seed.1, c, d));
    FinishMurmur(m)
  }

  function FinishMurmur(m: (Word, Word, Word, Word)): (Word, Word) {
    var a := HashLen16(m.0, m.2);
    var b := HashLen16(m.3, m.1);
    (Xor(a, b), HashLen16(b, a))
  }

  function StartOver128(s: seq<Byte>, p: nat, len: nat, seed: (Word, Word)): State
    requires 128 <= len && p + len <= |s| < WORD
  {
    var (x, y) := seed;
    var z := Mul(Size(len), K1);
    var v0 := Add(Mul(Rotate(Xor(y, K1), 49), K1), Fetch64(s, p));
    var v1 := Add(Mul(Rotate(v0, 42), K1), Fetch64(s, p + 8));
    var w0 := Add(Mul(Rotate(Add(y, z), 35), K1), x);
    var w1 := Mul(Rotate(Add(x, Fetch64(s, p + 88)), 53), K1);
    State(x, y, z, (v0, v1), (w0, w1))
  }

  /** The two updates between the block loop and the tail loop. */
  function StirTail(st: State): State {
    st.(y := Add(st.y, Add(Mul(Rotate(st.w.0, 37), K0), st.z)),
        x := Add(st.x, Mul(Rotate(Add(st.v.0, st.z), 49), K0)))
  }

  /** One 32-byte chunk at q of the tail, which is hashed from its end. */
  function TailStep(s: seq<Byte>, q: nat, st: State): State
    requires q + 32 <= |s|
  {
    var y1 := Add(Mul(Rotate(Sub(st.y, st.x), 42), K0), st.v.1);
    var w1 := Add(st.w.0, Fetch64(s, q + 16));
    var x1 := Add(Mul(Rotate(st.x, 49), K0), w1);
    State(x1, y1, st.z, WeakHash32(s, q, st.v.0, st.v.1), (Add(w1, st.v.0), st.w.1))
  }

  /** The chunks ending at `end`, until `left` bytes are covered. */
  function Tail(s: seq<Byte>, end: nat, left: int, st: State): State
    requires end <= |s| && (left > 0 ==> left + 31 <= end)
    decreases left
  {
    if left <= 0 then st else Tail(s, end - 32, left - 32, TailStep(s, end - 32, st))
  }

  lemma TailNext(s: seq<Byte>, end: nat, left: int, st: State)
    requires 0 < left && left + 31 <= end <= |s|
    ensures Tail(s, end, left, st) == Tail(s, end - 32, left - 32, TailStep(s, end - 32, st))
  {
  }

  lemma TailNone(s: seq<Byte>, end: nat, left: int, st: State)
    requires left <= 0 && end <= |s|
    ensures Tail(s, end, left, st) == st
  {
  }

  function FinishOver128(st: State): (Word, Word) {
    var x := HashLen16(st.x, st.v.0);
    var y := HashLen16(st.y, st.w.0);
    (Add(HashLen16(Add(x, st.v.1), st.w.1), y), HashLen16(Add(x, st.w.1), Add(y, st.v.1)))
  }

  function CityHash128WithSeed(s: seq<Byte>, p: nat, len: nat, seed: (Word, Word)): (Word, Word)
    requires p + len <= |s| < WORD
  {
    if len < 128 then CityMurmur(s, p, len, seed)
    else
      var st := Blocks(s, p, 2 * (len / 128), StartOver128(s, p, len, seed));
      FinishOver128(Tail(s, p + len, len % 128, StirTail(st)))
  }

  function CityHash128(s: seq<Byte>): (Word, Word)
    requires |s| < WORD
  {
    var len := |s|;
    if len >= 16 then CityHash128WithSeed(s, 16, len - 16, (Xor(Fetch64(s, 0), K3), Fetch64(s, 8)))
    else if len >= 8 then
      CityHash128WithSeed(s, 0, 0, (Xor(Fetch64(s, 0), Mul(Size(len), K0)), Xor(Fetch64(s, len - 8), K1)))
    else CityHash128WithSeed(s, 0, len, (K0, K1))
  }
}
