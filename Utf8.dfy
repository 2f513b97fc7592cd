/** UTF-8 as Python's `bytes.decode('utf-8')` applies it: the strict
    decoder of RFC 3629 (no overlong forms, no surrogate code points,
    nothing above U+10FFFF) and the matching encoder. A Dafny `char` is a
    Unicode scalar value, exactly the set of code points UTF-8 can carry. */
module Utf8 {
  import opened Py

  predicate IsContinuation(b: Byte)
  {
    0x80 <= b <= 0xBF
  }

  /** The bytes that encode one character (Table 3-7 of the Unicode
      standard, restated in section 4 of RFC 3629). */
  function EncodeChar(c: char): (r: seq<Byte>)
    ensures 1 <= |r| <= 4
  {
    var n := c as int;
    if n < 0x80 then [n]
    else if n < 0x800 then [0xC0 + n / 64, 0x80 + n % 64]
    else if n < 0x10000 then [0xE0 + n / 64 / 64, 0x80 + n / 64 % 64, 0x80 + n % 64]
    else [0xF0 + n / 64 / 64 / 64, 0x80 + n / 64 / 64 % 64, 0x80 + n / 64 % 64, 0x80 + n % 64]
  }

  function Encode(s: string): seq<Byte>
    decreases |s|
  {
    if s == [] then [] else EncodeChar(s[0]) + Encode(s[1..])
  }

  /** The character at the start of `b` and the number of bytes it takes,
      or `None` when `b` does not start with a well-formed sequence. */
  function DecodeChar(b: seq<Byte>): (r: Option<(char, nat)>)
    requires |b| > 0
    ensures r.Some? ==> 1 <= r.value.1 <= |b|
  {
    var b0 := b[0] as int;
    if b0 < 0x80 then
      Some((b0 as char, 1))
    else if 0xC2 <= b0 <= 0xDF then
      if |b| >= 2 && IsContinuation(b[1]) then
        var n := (b0 - 0xC0) * 64 + (b[1] as int - 0x80);
        Some((n as char, 2))
      else None
    else if 0xE0 <= b0 <= 0xEF then
      if |b| >= 3 && IsContinuation(b[1]) && IsContinuation(b[2])
         && (b0 == 0xE0 ==> b[1] >= 0xA0) && (b0 == 0xED ==> b[1] <= 0x9F) then
        var n := ((b0 - 0xE0) * 64 + (b[1] as int - 0x80)) * 64 + (b[2] as int - 0x80);
        Some((n as char, 3))
      else None
    else if 0xF0 <= b0 <= 0xF4 then
      if |b| >= 4 && IsContinuation(b[1]) && IsContinuation(b[2]) && IsContinuation(b[3])
         && (b0 == 0xF0 ==> b[1] >= 0x90) && (b0 == 0xF4 ==> b[1] <= 0x8F) then
        var n := (((b0 - 0xF0) * 64 + (b[1] as int - 0x80)) * 64 + (b[2] as int - 0x80)) * 64 + (b[3] as int - 0x80);
        Some((n as char, 4))
      else None
    else None
  }

  /** `bytes.decode('utf-8')`: `None` where Python raises
      `UnicodeDecodeError`. Whatever it accepts is the encoding of what it
      returns, so the decoder never accepts two spellings of one text. */
  function Decode(b: seq<Byte>): (r: Option<string>)
    ensures r.Some? ==> Encode(r.value) == b
    decreases |b|
  {
    if b == [] then Some([])
    else
      DecodeCharEncodes(b);
      match DecodeChar(b)
      case None => None
      case Some((c, k)) =>
        match Decode(b[k..])
        case None => None
        case Some(rest) => Some([c] + rest)
  }

  lemma DivMod64(x: int, d: int)
    requires 0 <= d < 64
    ensures (x * 64 + d) / 64 == x && (x * 64 + d) % 64 == d
  {
  }

  lemma TwoByteValue(b0: int, b1: int)
    requires 0xC2 <= b0 <= 0xDF && 0x80 <= b1 <= 0xBF
    ensures var n := (b0 - 0xC0) * 64 + (b1 - 0x80);
      0x80 <= n < 0x800 && n / 64 == b0 - 0xC0 && n % 64 == b1 - 0x80
  {
    DivMod64(b0 - 0xC0, b1 - 0x80);
  }

  lemma ThreeByteValue(b0: int, b1: int, b2: int)
    requires 0xE0 <= b0 <= 0xEF && 0x80 <= b1 <= 0xBF && 0x80 <= b2 <= 0xBF
    requires (b0 == 0xE0 ==> b1 >= 0xA0) && (b0 == 0xED ==> b1 <= 0x9F)
    ensures var n := ((b0 - 0xE0) * 64 + (b1 - 0x80)) * 64 + (b2 - 0x80);
      0x800 <= n < 0x10000 && !(0xD800 <= n < 0xE000)
      && n / 64 / 64 == b0 - 0xE0 && n / 64 % 64 == b1 - 0x80 && n % 64 == b2 - 0x80
  {
    var hi := (b0 - 0xE0) * 64 + (b1 - 0x80);
    DivMod64(hi, b2 - 0x80);
    DivMod64(b0 - 0xE0, b1 - 0x80);
  }

  lemma FourByteValue(b0: int, b1: int, b2: int, b3: int)
    requires 0xF0 <= b0 <= 0xF4 && 0x80 <= b1 <= 0xBF && 0x80 <= b2 <= 0xBF && 0x80 <= b3 <= 0xBF
    requires (b0 == 0xF0 ==> b1 >= 0x90) && (b0 == 0xF4 ==> b1 <= 0x8F)
    ensures var n := (((b0 - 0xF0) * 64 + (b1 - 0x80)) * 64 + (b2 - 0x80)) * 64 + (b3 - 0x80);
      0x10000 <= n < 0x110000
      && n / 64 / 64 / 64 == b0 - 0xF0 && n / 64 / 64 % 64 == b1 - 0x80
      && n / 64 % 64 == b2 - 0x80 && n % 64 == b3 - 0x80
  {
    var h1 := (b0 - 0xF0) * 64 + (b1 - 0x80);
    var h2 := h1 * 64 + (b2 - 0x80);
    DivMod64(h2, b3 - 0x80);
    DivMod64(h1, b2 - 0x80);
    DivMod64(b0 - 0xF0, b1 - 0x80);
  }

  /** The decoder accepts only the encoder's own spelling of a character. */
  lemma DecodeCharEncodes(b: seq<Byte>)
    requires |b| > 0
    ensures DecodeChar(b).Some? ==> EncodeChar(DecodeChar(b).value.0) == b[..DecodeChar(b).value.1]
  {
    var b0 := b[0] as int;
    if DecodeChar(b).Some? {
      if b0 < 0x80 {
      } else if b0 <= 0xDF {
        TwoByteValue(b0, b[1] as int);
      } else if b0 <= 0xEF {
        ThreeByteValue(b0, b[1] as int, b[2] as int);
      } else {
        FourByteValue(b0, b[1] as int, b[2] as int, b[3] as int);
      }
    }
  }

  lemma TwoByteForm(n: int)
    requires 0x80 <= n < 0x800
    ensures 0xC2 <= 0xC0 + n / 64 <= 0xDF && (n / 64) * 64 + n % 64 == n
  {
  }

  lemma ThreeByteForm(n: int)
    requires 0x800 <= n < 0x10000 && !(0xD800 <= n < 0xE000)
    ensures 0xE0 <= 0xE0 + n / 64 / 64 <= 0xEF
    ensures n / 64 / 64 == 0 ==> n / 64 % 64 >= 0x20
    ensures n / 64 / 64 == 0xD ==> n / 64 % 64 < 0x20
    ensures (n / 64 / 64 * 64 + n / 64 % 64) * 64 + n % 64 == n
  {
  }

  lemma FourByteForm(n: int)
    requires 0x10000 <= n < 0x110000
    ensures 0xF0 <= 0xF0 + n / 64 / 64 / 64 <= 0xF4
    ensures n / 64 / 64 / 64 == 0 ==> n / 64 / 64 % 64 >= 0x10
    ensures n / 64 / 64 / 64 == 4 ==> n / 64 / 64 % 64 < 0x10
    ensures ((n / 64 / 64 / 64 * 64 + n / 64 / 64 % 64) * 64 + n / 64 % 64) * 64 + n % 64 == n
  {
  }

  lemma {:induction false} DecodeEncodeChar(c: char, rest: seq<Byte>)
    ensures DecodeChar(EncodeChar(c) + rest) == Some((c, |EncodeChar(c)|))
  {
    var n := c as int;
    if n < 0x80 {
    } else if n < 0x800 {
      TwoByteForm(n);
    } else if n < 0x10000 {
      ThreeByteForm(n);
    } else {
      FourByteForm(n);
    }
  }

  /** Round trip: decoding the UTF-8 encoding of any text gives it back. */
  lemma {:induction false} DecodeEncode(s: string)
    ensures Decode(Encode(s)) == Some(s)
    decreases |s|
  {
    if s != [] {
      var e := EncodeChar(s[0]);
      DecodeEncodeChar(s[0], Encode(s[1..]));
      assert (e + Encode(s[1..]))[|e|..] == Encode(s[1..]);
      DecodeEncode(s[1..]);
      assert [s[0]] + s[1..] == s;
    }
  }

  /** A lone continuation byte and a truncated sequence are rejected. */
  lemma DecodeExamples()
    ensures Decode([0xFF]) == None
    ensures Decode([0x80]) == None
    ensures Decode([0xC3]) == None
    ensures Decode([0xC3, 0xA9]) == Some([0xE9 as char])
    ensures Decode([0xED, 0xA0, 0x80]) == None
  {
    var e: seq<Byte> := [0xC3, 0xA9];
    assert DecodeChar(e) == Some((0xE9 as char, 2));
    assert e[2..] == [];
    assert Decode(e[2..]) == Some([]);
    assert Decode(e) == Some([0xE9 as char] + []);
    assert [0xE9 as char] + [] == [0xE9 as char];
    assert e == [0xC3, 0xA9];
  }
}
