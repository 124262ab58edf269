/** C strings and the hash accumulator that Evas_Hash and Evas_Stringshare share. */
module CStrings {
  /** A byte of a C string, and a C string up to its terminator. */
  type Byte = b: bv8 | b != 0 witness 1
  type CString = seq<Byte>

  /** A `const char *` argument. */
  datatype Key = NullKey | Str(text: CString)

  /** One step of the accumulator, in 32-bit unsigned arithmetic. */
  function Mix(h: bv32, c: Byte): bv32 {
    (h * 33) ^ (c as bv32)
  }

  /** The accumulator after all bytes of a key. */
  function MixAll(h: bv32, key: CString): bv32
    decreases |key|
  {
    if key == [] then h else MixAll(Mix(h, key[0]), key[1..])
  }

  const SEED: bv32 := 5381

  lemma MixNone(h: bv32)
    ensures MixAll(h, []) == h
  {
  }

  lemma {:induction false} MixLast(h: bv32, key: CString, c: Byte)
    ensures MixAll(h, key + [c]) == Mix(MixAll(h, key), c)
    decreases |key|
  {
    hide Mix;
    if key == [] {
      assert key + [c] == [c];
      assert MixAll(Mix(h, c), []) == Mix(h, c);
    } else {
      assert (key + [c])[1..] == key[1..] + [c];
      MixLast(Mix(h, key[0]), key[1..], c);
    }
  }

  /** What a mask keeps of the accumulator depends on what it keeps of the accumulator before. */
  lemma LowBits(h: bv32, c: bv32)
    ensures ((h * 33) ^ c) & 0xff == (((h & 0xff) * 33) ^ c) & 0xff
    ensures ((h * 33) ^ c) & 0x3ff == (((h & 0x3ff) * 33) ^ c) & 0x3ff
  {
  }
}
