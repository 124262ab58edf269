/** _utf8_check: the UTF-8 validity test applied to WebSocket text messages, against the
    encoding of RFC 3629, section 3. */
module Utf8Check {
  type Byte = b: int | 0 <= b < 0x100

  /** A Unicode scalar value: any code point that is not a surrogate. */
  type Scalar = c: int | 0 <= c < 0xD800 || 0xE000 <= c < 0x110000

  /** The scalar values a text message may hold: no control other than tab, LF and CR. */
  predicate Allowed(c: int) {
    c >= 0x20 || c == 0x09 || c == 0x0A || c == 0x0D
  }

  /** The table of RFC 3629, section 3. */
  function Encode(c: Scalar): seq<Byte> {
    if c < 0x80 then [c]
    else if c < 0x800 then [0xC0 + c / 0x40, 0x80 + c % 0x40]
    else if c < 0x10000 then [0xE0 + c / 0x1000, 0x80 + c / 0x40 % 0x40, 0x80 + c % 0x40]
    else [0xF0 + c / 0x40000, 0x80 + c / 0x1000 % 0x40, 0x80 + c / 0x40 % 0x40, 0x80 + c % 0x40]
  }

  function EncodeAll(cs: seq<Scalar>): seq<Byte> {
    if cs == [] then [] else Encode(cs[0]) + EncodeAll(cs[1..])
  }

  /** The bytes encode some sequence of allowed scalar values. */
  ghost predicate IsText(s: seq<Byte>) {
    exists cs: seq<Scalar> :: EncodeAll(cs) == s && forall i :: 0 <= i < |cs| ==> Allowed(cs[i])
  }

  /** Number of bytes announced by a leading byte. */
  function Width(lead: Byte): nat {
    if lead < 0x80 then 1 else if lead < 0xE0 then 2 else if lead < 0xF0 then 3 else 4
  }

  /** The code point spelled by the leading bytes of `s`. */
  function Value(s: seq<Byte>): int
    requires s != [] && |s| >= Width(s[0])
  {
    var lead: int := s[0];
    match Width(s[0])
    case 1 => lead
    case 2 => (lead - 0xC0) * 0x40 + Tail(s[1])
    case 3 => ((lead - 0xE0) * 0x40 + Tail(s[1])) * 0x40 + Tail(s[2])
    case _ => (((lead - 0xF0) * 0x40 + Tail(s[1])) * 0x40 + Tail(s[2])) * 0x40 + Tail(s[3])
  }

  function Tail(b: Byte): int {
    b as int - 0x80
  }

  predicate Trail(b: Byte) {
    0x80 <= b <= 0xBF
  }

  /** The byte ranges of RFC 3629, section 4, at the start of `s`. */
  predicate StartsWell(s: seq<Byte>) {
    && s != []
    && (var c := s[0];
        || c <= 0x7F
        || (0xC2 <= c <= 0xDF && |s| > 1 && Trail(s[1]))
        || (c == 0xE0 && |s| > 2 && 0xA0 <= s[1] <= 0xBF && Trail(s[2]))
        || (((0xE1 <= c <= 0xEC) || c == 0xEE || c == 0xEF) && |s| > 2 && Trail(s[1]) && Trail(s[2]))
        || (c == 0xED && |s| > 2 && 0x80 <= s[1] <= 0x9F && Trail(s[2]))
        || (c == 0xF0 && |s| > 3 && 0x90 <= s[1] <= 0xBF && Trail(s[2]) && Trail(s[3]))
        || (0xF1 <= c <= 0xF3 && |s| > 3 && Trail(s[1]) && Trail(s[2]) && Trail(s[3]))
        || (c == 0xF4 && |s| > 3 && 0x80 <= s[1] <= 0x8F && Trail(s[2]) && Trail(s[3])))
  }

  lemma EncodeStartsWell(c: Scalar, rest: seq<Byte>)
    ensures var s := Encode(c) + rest;
            StartsWell(s) && Width(s[0]) == |Encode(c)| && |s| >= Width(s[0]) && Value(s) == c
  {
    HighDigits(c);
    var e := Encode(c);
    var s := e + rest;
    assert forall i :: 0 <= i < |e| ==> s[i] == e[i];
    if 0x80 <= c < 0x800 {
      assert 0xC2 <= e[0] <= 0xDF && Trail(e[1]);
    } else if 0x800 <= c < 0x10000 {
      ThreeBytes(c);
    } else if c >= 0x10000 {
      FourBytes(c);
    }
  }

  lemma ThreeBytes(c: Scalar)
    requires 0x800 <= c < 0x10000
    ensures var e := Encode(c);
            && Trail(e[1]) && Trail(e[2]) && 0xE0 <= e[0] <= 0xEF
            && (e[0] == 0xE0 ==> e[1] >= 0xA0) && (e[0] == 0xED ==> e[1] <= 0x9F)
  {
    HighDigits(c);
  }

  lemma FourBytes(c: Scalar)
    requires c >= 0x10000
    ensures var e := Encode(c);
            && Trail(e[1]) && Trail(e[2]) && Trail(e[3]) && 0xF0 <= e[0] <= 0xF4
            && (e[0] == 0xF0 ==> e[1] >= 0x90) && (e[0] == 0xF4 ==> e[1] <= 0x8F)
  {
    HighDigits(c);
  }

  lemma Digits(a: int, b: int)
    requires 0 <= b < 0x40
    ensures (a * 0x40 + b) / 0x40 == a && (a * 0x40 + b) % 0x40 == b
  {
  }

  lemma HighDigits(c: int)
    requires 0 <= c
    ensures c / 0x1000 == c / 0x40 / 0x40 && c / 0x40000 == c / 0x1000 / 0x40
  {
  }

  lemma ThreeEncode(s: seq<Byte>)
    requires StartsWell(s) && Width(s[0]) == 3
    ensures var c := Value(s);
            (0x800 <= c < 0xD800 || 0xE000 <= c < 0x10000) && Encode(c) == s[..3]
  {
    var high := (s[0] as int - 0xE0) * 0x40 + Tail(s[1]);
    HighDigits(Value(s));
    Digits(s[0] as int - 0xE0, Tail(s[1]));
    Digits(high, Tail(s[2]));
  }

  lemma FourEncode(s: seq<Byte>)
    requires StartsWell(s) && Width(s[0]) == 4
    ensures var c := Value(s);
            0x10000 <= c < 0x110000 && Encode(c) == s[..4]
  {
    var high := (s[0] as int - 0xF0) * 0x40 + Tail(s[1]);
    var mid := high * 0x40 + Tail(s[2]);
    HighDigits(Value(s));
    Digits(s[0] as int - 0xF0, Tail(s[1]));
    Digits(high, Tail(s[2]));
    Digits(mid, Tail(s[3]));
  }

  lemma StartsWellEncodes(s: seq<Byte>)
    requires StartsWell(s)
    ensures |s| >= Width(s[0])
    ensures var c := Value(s);
            (0 <= c < 0xD800 || 0xE000 <= c < 0x110000) && Encode(c) == s[..Width(s[0])]
  {
    var w := Width(s[0]);
    if w == 2 {
      Digits(s[0] as int - 0xC0, Tail(s[1]));
    } else if w == 3 {
      ThreeEncode(s);
    } else if w == 4 {
      FourEncode(s);
    }
  }

  /** Width of the allowed scalar value at the start of `s`, or 0 when there is none. */
  function NextWidth(s: seq<Byte>): nat {
    if StartsWell(s) && Allowed(Value(s)) then Width(s[0]) else 0
  }

  lemma TextStartsWell(s: seq<Byte>)
    requires IsText(s) && s != []
    ensures 0 < NextWidth(s) <= |s| && IsText(s[NextWidth(s)..])
  {
    var cs: seq<Scalar> :| EncodeAll(cs) == s && forall i :: 0 <= i < |cs| ==> Allowed(cs[i]);
    TextTail(cs);
    hide IsText, EncodeAll, StartsWell, Value, Encode;
    EncodeStartsWell(cs[0], EncodeAll(cs[1..]));
  }

  lemma TextTail(cs: seq<Scalar>)
    requires EncodeAll(cs) != [] && forall i :: 0 <= i < |cs| ==> Allowed(cs[i])
    ensures cs != [] && EncodeAll(cs) == Encode(cs[0]) + EncodeAll(cs[1..])
    ensures EncodeAll(cs)[|Encode(cs[0])|..] == EncodeAll(cs[1..]) && IsText(EncodeAll(cs[1..]))
  {
    var rest := cs[1..];
    assert forall i :: 0 <= i < |rest| ==> Allowed(rest[i]);
  }

  lemma TextFromStart(s: seq<Byte>)
    requires 0 < NextWidth(s) <= |s| && IsText(s[NextWidth(s)..])
    ensures IsText(s)
  {
    StartsWellEncodes(s);
    TextCons(Value(s), s[NextWidth(s)..]);
    assert s == s[..NextWidth(s)] + s[NextWidth(s)..];
  }

  lemma TextCons(c: Scalar, rest: seq<Byte>)
    requires Allowed(c) && IsText(rest)
    ensures IsText(Encode(c) + rest)
  {
    var cs: seq<Scalar> :| EncodeAll(cs) == rest && forall i :: 0 <= i < |cs| ==> Allowed(cs[i]);
    var all: seq<Scalar> := [c] + cs;
    assert all[1..] == cs && all[0] == c;
    assert EncodeAll(all) == Encode(c) + rest;
    assert forall i :: 0 <= i < |all| ==> Allowed(all[i]);
  }

  /** A text is empty, or starts with an allowed, well-formed scalar followed by a text. */
  lemma IsTextUnfolds(s: seq<Byte>)
    ensures NextWidth(s) <= |s|
    ensures IsText(s) <==> s == [] || (NextWidth(s) > 0 && IsText(s[NextWidth(s)..]))
  {
    if s == [] {
      assert EncodeAll([]) == s;
    } else if IsText(s) {
      TextStartsWell(s);
    } else if 0 < NextWidth(s) && IsText(s[NextWidth(s)..]) {
      TextFromStart(s);
    }
  }

  // ----- What is a text, byte by byte -----

  /** A string of one byte is a text exactly if it is tab, LF, CR or no control of ASCII. */
  lemma OneByteText(c: Byte)
    ensures IsText([c]) <==> c == 9 || c == 10 || c == 13 || 0x20 <= c <= 0x7F
  {
    IsTextUnfolds([c]);
    IsTextUnfolds([]);
    hide IsText;
    if NextWidth([c]) == 1 {
      assert [c][1..] == [];
    }
  }

  /** Two bytes that are no ASCII are a text exactly in these ranges. */
  lemma TwoByteText(c: Byte, d: Byte)
    requires c >= 0x80
    ensures IsText([c, d]) <==> 0xC2 <= c <= 0xDF && 0x80 <= d <= 0xBF
  {
    var s: seq<Byte> := [c, d];
    IsTextUnfolds(s);
    IsTextUnfolds([]);
    hide IsText;
    if NextWidth(s) == 2 {
      assert s[2..] == [];
    }
  }

  /** Three bytes: no overlong form and no surrogate. */
  lemma ThreeByteText(c: Byte, d: Byte, e: Byte)
    requires c >= 0xE0
    ensures IsText([c, d, e]) <==>
            && c <= 0xEF && 0x80 <= d <= 0xBF && 0x80 <= e <= 0xBF
            && (c == 0xE0 ==> d >= 0xA0) && (c == 0xED ==> d <= 0x9F)
  {
    var s: seq<Byte> := [c, d, e];
    IsTextUnfolds(s);
    IsTextUnfolds([]);
    hide IsText;
    if NextWidth(s) == 3 {
      assert s[3..] == [];
    }
  }

  /** Four bytes: no overlong form and nothing above U+10FFFF. */
  lemma FourByteText(c: Byte, d: Byte, e: Byte, g: Byte)
    requires c >= 0xF0
    ensures IsText([c, d, e, g]) <==>
            && c <= 0xF4 && 0x80 <= d <= 0xBF && 0x80 <= e <= 0xBF && 0x80 <= g <= 0xBF
            && (c == 0xF0 ==> d >= 0x90) && (c == 0xF4 ==> d <= 0x8F)
  {
    var s: seq<Byte> := [c, d, e, g];
    IsTextUnfolds(s);
    IsTextUnfolds([]);
    hide IsText;
    if NextWidth(s) == 4 {
      assert s[4..] == [];
    }
  }

  /** The body of the loop: the bytes to skip, or 0 where the original returns failure. */
  method CheckOne(text: seq<Byte>, bytes: nat) returns (n: nat)
    requires bytes < |text| && text[|text| - 1] == 0
    requires forall i :: bytes <= i < |text| - 1 ==> text[i] != 0
    ensures n == NextWidth(text[bytes..|text| - 1])
  {
    ghost var s := text[bytes..|text| - 1];
    if text[bytes] == 0 {
      return 0;
    }
    var c := text[bytes];
    assert c == s[0];
    assert |s| > 1 ==> text[bytes + 1] == s[1];
    assert |s| > 2 ==> text[bytes + 2] == s[2];
    assert |s| > 3 ==> text[bytes + 3] == s[3];
    if (0x20 <= c <= 0x7E) || c == 0x09 || c == 0x0A || c == 0x0D {
      return 1;
    }
    if c == 0x7F {
      return 1;
    }
    if 0xC2 <= c <= 0xDF {
      if Trail(text[bytes + 1]) {
        LargeValue(s);
        return 2;
      }
    }
    if c == 0xE0 {
      var d := text[bytes + 1];
      if 0xA0 <= d <= 0xBF {
        if Trail(text[bytes + 2]) {
          LargeValue(s);
          return 3;
        }
      }
    }
    if (0xE1 <= c <= 0xEC) || c == 0xEE || c == 0xEF {
      if Trail(text[bytes + 1]) && Trail(text[bytes + 2]) {
        LargeValue(s);
        return 3;
      }
    }
    if c == 0xED {
      var d := text[bytes + 1];
      if 0x80 <= d <= 0x9F {
        if Trail(text[bytes + 2]) {
          LargeValue(s);
          return 3;
        }
      }
    }
    if c == 0xF0 {
      var d := text[bytes + 1];
      if 0x90 <= d <= 0xBF {
        if Trail(text[bytes + 2]) && Trail(text[bytes + 3]) {
          LargeValue(s);
          return 4;
        }
      }
    }
    if 0xF1 <= c <= 0xF3 {
      if Trail(text[bytes + 1]) && Trail(text[bytes + 2]) && Trail(text[bytes + 3]) {
        LargeValue(s);
        return 4;
      }
    }
    if c == 0xF4 {
      var d := text[bytes + 1];
      if 0x80 <= d <= 0x8F {
        if Trail(text[bytes + 2]) && Trail(text[bytes + 3]) {
          LargeValue(s);
          return 4;
        }
      }
    }
    return 0;
  }

  lemma LargeValue(s: seq<Byte>)
    requires StartsWell(s) && s[0] >= 0x80
    ensures |s| >= Width(s[0]) && Allowed(Value(s))
  {
  }

  /** _utf8_check. `text` is the string with its NUL terminator and nothing after it, so that
      no byte beyond the terminator is ever looked at. */
  method Check(text: seq<Byte>) returns (ok: bool)
    requires text != [] && text[|text| - 1] == 0
    requires forall i :: 0 <= i < |text| - 1 ==> text[i] != 0
    ensures ok <==> IsText(text[..|text| - 1])
  {
    hide IsText, NextWidth;
    var bytes := 0;
    var size := |text| - 1;
    assert text[0..size] == text[..size];
    ghost var answer := IsText(text[..size]);
    while text[bytes] != 0
      invariant 0 <= bytes <= size
      invariant IsText(text[bytes..size]) == answer
      decreases size - bytes
    {
      var n := CheckOne(text, bytes);
      IsTextUnfolds(text[bytes..size]);
      if n == 0 {
        return false;
      }
      assert text[bytes..size][n..] == text[bytes + n..size];
      bytes := bytes + n;
    }
    IsTextUnfolds(text[bytes..size]);
    return true;
  }
}
