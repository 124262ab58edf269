/** The 64-bit arithmetic of CityHash 1.0 and its final mixing step, Hash128to64. The operations
    have names of their own so that a proof can leave them closed. */
module CityWords {
  const WORD: int := 0x1_0000_0000_0000_0000

  /** A uint64, whose arithmetic wraps around. */
  type Word = bv64

  const K0: Word := 0xc3a5c85c97cb3127
  const K1: Word := 0xb492b66fbe98f273
  const K2: Word := 0x9ae16a3b2f90404f
  const K3: Word := 0xc949d7c7509e6557
  const K_MUL: Word := 0x9ddfea08eb382d69

  /** The inverses of the multipliers modulo 2^64; there are some because all of them are odd. */
  const K0_INV: Word := 0x81bc9c5aa9c72e97
  const K1_INV: Word := 0x1ec3fe17279602bb
  const K2_INV: Word := 0xb5a360ae14bed6af
  const K3_INV: Word := 0xf35e575ec9565667
  const K_INV: Word := 0xdc56e6f5090b32d9

  // ----- Operations -----

  function Add(a: Word, b: Word): Word {
    a + b
  }

  function Sub(a: Word, b: Word): Word {
    a - b
  }

  function Mul(a: Word, b: Word): Word {
    a * b
  }

  function Xor(a: Word, b: Word): Word {
    a ^ b
  }

  function Or(a: Word, b: Word): Word {
    a | b
  }

  function Shr(a: Word, k: bv6): Word {
    a >> k
  }

  function Shl(a: Word, k: bv6): Word {
    a << k
  }

  /** A length as a word. */
  function Size(n: nat): Word
    requires n < WORD
  {
    n as Word
  }

  /** A length as an amount to rotate by. */
  function Amount(n: nat): bv6
    requires n < 64
  {
    n as bv6
  }

  /** Rotate and RotateByAtLeast1 of city.cc; the second amount is 64 - shift. */
  function Rotate(val: Word, shift: bv6): Word {
    if shift == 0 then val else Or(Shr(val, shift), Shl(val, 63 - shift + 1))
  }

  function ShiftMix(val: Word): Word {
    Xor(val, Shr(val, 47))
  }

  /** Hash128to64 of city.h, on the low and high halves. */
  function Hash128to64(low: Word, high: Word): Word {
    var a := ShiftMix(Mul(Xor(low, high), K_MUL));
    var b := ShiftMix(Mul(Xor(high, a), K_MUL));
    Mul(b, K_MUL)
  }

  // ----- What a rotation does to the bits -----

  predicate Bit(a: Word, i: bv6) {
    (a >> i) & 1 == 1
  }

  lemma OrBits(a: Word, b: Word, i: bv6)
    ensures Bit(a | b, i) == (Bit(a, i) || Bit(b, i))
  {
  }

  lemma ShrByBits(a: Word, k: bv6, i: bv6)
    ensures ((a >> k) >> i) & 1 == if i <= 63 - k then (a >> (i + k)) & 1 else 0
  {
  }

  lemma ShlByBits(a: Word, k: bv6, i: bv6)
    ensures ((a << k) >> i) & 1 == if k <= i then (a >> (i - k)) & 1 else 0
  {
  }

  lemma ShiftBits(a: Word, k: bv6, i: bv6)
    ensures Bit(a >> k, i) == (i <= 63 - k && Bit(a, i + k))
    ensures Bit(a << k, i) == (k <= i && Bit(a, i - k))
  {
    ShrByBits(a, k, i);
    ShlByBits(a, k, i);
  }

  lemma BitsOfOr(a: Word, b: Word, i: bv6)
    ensures Bit(Or(a, b), i) == (Bit(a, i) || Bit(b, i))
  {
    hide Bit;
    OrBits(a, b, i);
  }

  lemma BitsOfShifts(a: Word, k: bv6, i: bv6)
    ensures Bit(Shr(a, k), i) == (i <= 63 - k && Bit(a, i + k))
    ensures Bit(Shl(a, k), i) == (k <= i && Bit(a, i - k))
  {
    hide Bit;
    ShiftBits(a, k, i);
  }

  lemma ShiftSums(k: bv6, i: bv6)
    ensures i - (63 - k + 1) == i + k
    ensures k != 0 ==> (63 - k + 1 <= i <==> !(i <= 63 - k))
  {
  }

  /** Bit i of a rotation is bit i + shift of the original, counted modulo 64. */
  lemma RotateMovesBits(val: Word, shift: bv6, i: bv6)
    ensures Bit(Rotate(val, shift), i) == Bit(val, i + shift)
  {
    hide Bit, Or, Shr, Shl;
    if shift != 0 {
      BitsOfOr(Shr(val, shift), Shl(val, 63 - shift + 1), i);
      BitsOfShifts(val, shift, i);
      BitsOfShifts(val, 63 - shift + 1, i);
      ShiftSums(shift, i);
    }
  }

  // ----- Words with the same bits -----

  lemma TopZero(d: Word, n: bv6)
    requires n < 63 && d >> (n + 1) == 0 && (d >> n) & 1 == 0
    ensures d >> n == 0
  {
  }

  lemma TopBitZero(d: Word)
    requires (d >> 63) & 1 == 0
    ensures d >> 63 == 0
  {
  }

  lemma BitIsZero(d: Word, n: bv6)
    ensures !Bit(d, n) <==> (d >> n) & 1 == 0
  {
  }

  lemma {:induction false} NoBitsFrom(d: Word, n: bv6)
    requires forall i :: n <= i ==> !Bit(d, i)
    ensures d >> n == 0
    decreases 63 - n
  {
    hide Bit;
    BitIsZero(d, n);
    if n == 63 {
      TopBitZero(d);
    } else {
      NoBitsFrom(d, n + 1);
      TopZero(d, n);
    }
  }

  lemma XorBits(a: Word, b: Word, i: bv6)
    ensures Bit(a ^ b, i) == (Bit(a, i) != Bit(b, i))
  {
  }

  lemma NoShift(d: Word)
    requires d >> (0 as bv6) == 0
    ensures d == 0
  {
  }

  lemma XorIsZero(a: Word, b: Word)
    requires a ^ b == 0
    ensures a == b
  {
  }

  lemma SameBits(a: Word, b: Word)
    requires forall i :: Bit(a, i) == Bit(b, i)
    ensures a == b
  {
    hide Bit;
    var d := a ^ b;
    forall i
      ensures !Bit(d, i)
    {
      XorBits(a, b, i);
    }
    NoBitsFrom(d, 0);
    NoShift(d);
    XorIsZero(a, b);
  }

  lemma BackAndForth(i: bv6, shift: bv6)
    ensures i - shift + shift == i
  {
  }

  lemma RotateIsInjective(a: Word, b: Word, shift: bv6)
    ensures Rotate(a, shift) == Rotate(b, shift) <==> a == b
  {
    hide Bit, Rotate;
    if Rotate(a, shift) == Rotate(b, shift) {
      forall i
        ensures Bit(a, i) == Bit(b, i)
      {
        RotateMovesBits(a, shift, i - shift);
        RotateMovesBits(b, shift, i - shift);
        BackAndForth(i, shift);
      }
      SameBits(a, b);
    }
  }

  /** Rotating on by the rest gives back the original. */
  lemma RotateBack(val: Word, shift: bv6, rest: bv6)
    requires shift + rest == 0
    ensures Rotate(Rotate(val, shift), rest) == val
  {
    hide Bit, Rotate;
    var r := Rotate(val, shift);
    forall i
      ensures Bit(Rotate(r, rest), i) == Bit(val, i)
    {
      RotateMovesBits(r, rest, i);
      RotateMovesBits(val, shift, i + rest);
      AllTheWay(i, shift, rest);
    }
    SameBits(Rotate(r, rest), val);
  }

  lemma AllTheWay(i: bv6, shift: bv6, rest: bv6)
    requires shift + rest == 0
    ensures i + rest + shift == i
  {
  }

  // ----- Operations that lose nothing -----

  lemma SubOfSum(a: Word, b: Word)
    ensures Sub(a + b, b) == a && Add(a - b, b) == a
  {
  }

  lemma SumAndDifference(a: Word, b: Word)
    ensures Add(a, b) == a + b && Sub(a, b) == a - b
  {
  }

  lemma SubUndone(a: Word, b: Word)
    ensures Add(Sub(a, b), b) == a && Sub(Add(a, b), b) == a
  {
    hide Add, Sub;
    SubOfSum(a, b);
    SumAndDifference(a, b);
  }

  lemma AddSwap(a: Word, b: Word)
    ensures Add(a, b) == Add(b, a)
  {
  }

  lemma AddSame(a: Word, b: Word, c: Word)
    ensures Add(a, c) == Add(b, c) <==> a == b
    ensures Add(c, a) == Add(c, b) <==> a == b
  {
    hide Add, Sub;
    SubUndone(a, c);
    SubUndone(b, c);
    AddSwap(a, c);
    AddSwap(b, c);
  }

  lemma XorTwice(a: Word, b: Word)
    ensures Xor(Xor(a, b), b) == a && Xor(a, b) == Xor(b, a)
  {
  }

  lemma XorSame(a: Word, b: Word, c: Word)
    ensures Xor(a, c) == Xor(b, c) <==> a == b
    ensures Xor(c, a) == Xor(c, b) <==> a == b
  {
    hide Xor;
    XorTwice(a, c);
    XorTwice(b, c);
    XorTwice(c, a);
    XorTwice(c, b);
  }

  lemma HighBitsStay(a: Word)
    ensures Shr(Xor(a, a >> 47), 47) == a >> 47
  {
  }

  lemma ShiftMixTwice(a: Word)
    ensures ShiftMix(ShiftMix(a)) == a
  {
    hide Xor, Shr;
    HighBitsStay(a);
    ShrIs(a);
    XorTwice(a, Shr(a, 47));
  }

  lemma ShrIs(a: Word)
    ensures Shr(a, 47) == a >> 47
  {
  }

  lemma ShiftMixSame(a: Word, b: Word)
    ensures ShiftMix(a) == ShiftMix(b) <==> a == b
  {
    hide ShiftMix;
    ShiftMixTwice(a);
    ShiftMixTwice(b);
  }

  lemma ProductOfProduct(a: Word, k: Word, inv: Word)
    ensures Mul(a * k, inv) == Mul(a, k * inv)
  {
  }

  lemma MulIs(a: Word, b: Word)
    ensures Mul(a, b) == a * b && Mul(a, 1) == a && Mul(a, b) == Mul(b, a)
  {
  }

  lemma MulUndone(a: Word, k: Word, inv: Word)
    requires Mul(k, inv) == 1
    ensures Mul(Mul(a, k), inv) == a
  {
    hide Mul;
    ProductOfProduct(a, k, inv);
    MulIs(a, k);
    MulIs(k, inv);
  }

  lemma MulSame(a: Word, b: Word, k: Word, inv: Word)
    requires Mul(k, inv) == 1
    ensures Mul(a, k) == Mul(b, k) <==> a == b
  {
    hide Mul;
    MulUndone(a, k, inv);
    MulUndone(b, k, inv);
  }

  /** All the multipliers are odd, so that multiplying by them can be undone. */
  lemma MultipliersHaveInverses()
    ensures Mul(K0, K0_INV) == 1 && Mul(K1, K1_INV) == 1 && Mul(K2, K2_INV) == 1 && Mul(K3, K3_INV) == 1
    ensures Mul(K_MUL, K_INV) == 1
  {
  }

  // ----- Hash128to64 with one half fixed is a bijection -----

  /** The first half that makes Hash128to64 return `h`. */
  function Unhash(h: Word, high: Word): Word {
    var b := ShiftMix(Mul(h, K_INV));
    var a := ShiftMix(Xor(Mul(b, K_INV), high));
    Xor(Mul(a, K_INV), high)
  }

  /** With its second word fixed, Hash128to64 is a bijection on 64-bit words. */
  lemma HashIsBijective(low: Word, high: Word, h: Word)
    ensures Unhash(Hash128to64(low, high), high) == low
    ensures Hash128to64(Unhash(h, high), high) == h
  {
    HashUndone(low, high);
    UnhashUndone(h, high);
  }

  lemma HashUndone(low: Word, high: Word)
    ensures Unhash(Hash128to64(low, high), high) == low
  {
    hide Xor, Mul, ShiftMix;
    MultipliersHaveInverses();
    var u := Xor(low, high);
    var a := ShiftMix(Mul(u, K_MUL));
    var v := Xor(high, a);
    var b := ShiftMix(Mul(v, K_MUL));
    MulUndone(b, K_MUL, K_INV);
    ShiftMixTwice(Mul(v, K_MUL));
    MulUndone(v, K_MUL, K_INV);
    XorTwice(high, a);
    XorTwice(a, high);
    ShiftMixTwice(Mul(u, K_MUL));
    MulUndone(u, K_MUL, K_INV);
    XorTwice(low, high);
  }

  lemma UnhashUndone(h: Word, high: Word)
    ensures Hash128to64(Unhash(h, high), high) == h
  {
    hide Xor, Mul, ShiftMix;
    MultipliersHaveInverses();
    MulIs(K_MUL, K_INV);
    var b := ShiftMix(Mul(h, K_INV));
    var v := Mul(b, K_INV);
    var a := ShiftMix(Xor(v, high));
    var u := Mul(a, K_INV);
    XorTwice(u, high);
    MulUndone(a, K_INV, K_MUL);
    ShiftMixTwice(Xor(v, high));
    XorTwice(high, Xor(v, high));
    XorTwice(v, high);
    MulUndone(b, K_INV, K_MUL);
    ShiftMixTwice(Mul(h, K_INV));
    MulUndone(h, K_INV, K_MUL);
  }

  lemma HashSame(a: Word, b: Word, high: Word)
    ensures Hash128to64(a, high) == Hash128to64(b, high) <==> a == b
  {
    hide Hash128to64, Unhash;
    HashIsBijective(a, high, 0);
    HashIsBijective(b, high, 0);
  }

  // ----- With its first word fixed it is not -----

  const TWIN_A: Word := 0x111cfdbed6d0c8e6
  const TWIN_B: Word := 0x0764d0fdb307d8d8

  lemma TwinsMix()
    ensures Xor(TWIN_A, ShiftMix(Mul(TWIN_A, K_MUL))) == Xor(TWIN_B, ShiftMix(Mul(TWIN_B, K_MUL)))
  {
  }

  lemma XorOfXor(a: Word, b: Word, c: Word)
    ensures Xor(a ^ b, c) == Xor(a, b ^ c)
  {
  }

  lemma XorIs(a: Word, b: Word)
    ensures Xor(a, b) == a ^ b
  {
  }

  lemma XorAssociates(a: Word, b: Word, c: Word)
    ensures Xor(Xor(a, b), c) == Xor(a, Xor(b, c))
  {
    hide Xor;
    XorOfXor(a, b, c);
    XorIs(a, b);
    XorIs(b, c);
  }

  /** Every first word has two second words with the same hash. */
  lemma SecondWordsCollide(low: Word)
    ensures Xor(low, TWIN_A) != Xor(low, TWIN_B)
    ensures Hash128to64(low, Xor(low, TWIN_A)) == Hash128to64(low, Xor(low, TWIN_B))
  {
    hide Xor, Mul, ShiftMix;
    TwinsMix();
    XorSame(TWIN_A, TWIN_B, low);
    var a, b := ShiftMix(Mul(TWIN_A, K_MUL)), ShiftMix(Mul(TWIN_B, K_MUL));
    XorAssociates(low, TWIN_A, a);
    XorAssociates(low, TWIN_B, b);
    XorTwice(TWIN_A, low);
    XorTwice(TWIN_B, low);
    XorTwice(low, TWIN_A);
    XorTwice(low, TWIN_B);
    XorTwice(low, Xor(low, TWIN_A));
    XorTwice(low, Xor(low, TWIN_B));
  }
}
