/** Base64 as the credential decoder uses it: the standard alphabet and
    padded encoding of section 4 of RFC 4648, and the lenient decoder
    behind Python's `base64.b64decode(s)` (`validate=False`), which is
    CPython's `binascii.a2b_base64` in non-strict mode. That decoder reads
    the input left to right in quads, skips every character outside the
    alphabet and `=`, stops at the first complete padding, and fails when
    the last quad is incomplete. The decoder reads the token's characters
    rather than the bytes of its `.encode('utf-8')`: every non-ASCII
    character encodes to bytes of 0x80 and above, which `a2b_base64` skips
    just as `SextetValue` skips the character. */
module Base64 {
  import opened Py

  /** Why `binascii.a2b_base64` raises `binascii.Error`. */
  datatype DecodeError =
    | LoneDataChar      // the number of data characters is 1 more than a multiple of 4
    | IncorrectPadding  // a final quad of 2 or 3 data characters without enough `=`

  datatype DecodeResult = Ok(bytes: seq<Byte>) | Err(error: DecodeError)

  /** The character that encodes the 6-bit value `v` in the alphabet of
      RFC 4648, section 4: `A`-`Z`, `a`-`z`, `0`-`9`, `+`, `/`. */
  function SextetChar(v: nat): (c: char)
    requires v < 64
    ensures c != '='
  {
    if v < 26 then (65 + v) as char
    else if v < 52 then (97 + v - 26) as char
    else if v < 62 then (48 + v - 52) as char
    else if v == 62 then '+'
    else '/'
  }

  /** The 6-bit value of an alphabet character; `None` for everything
      else, which the lenient decoder skips (`=` is handled separately). */
  function SextetValue(c: char): (r: Option<nat>)
    ensures r.Some? ==> r.value < 64 && SextetChar(r.value) == c
    ensures c == '=' ==> r.None?
  {
    if 'A' <= c <= 'Z' then Some(c as int - 65)
    else if 'a' <= c <= 'z' then Some(c as int - 97 + 26)
    else if '0' <= c <= '9' then Some(c as int - 48 + 52)
    else if c == '+' then Some(62)
    else if c == '/' then Some(63)
    else None
  }

  lemma {:induction false} SextetRoundTrip(v: nat)
    requires v < 64
    ensures SextetValue(SextetChar(v)) == Some(v)
  {
  }

  /** Encoding of section 4 of RFC 4648: every 3 bytes become 4
      characters; a final group of 1 or 2 bytes is padded with `=`. */
  function Encode(b: seq<Byte>): string
    decreases |b|
  {
    if |b| == 0 then ""
    else if |b| == 1 then
      [SextetChar(b[0] / 4), SextetChar(b[0] % 4 * 16), '=', '=']
    else if |b| == 2 then
      [SextetChar(b[0] / 4), SextetChar(b[0] % 4 * 16 + b[1] / 16), SextetChar(b[1] % 16 * 4), '=']
    else
      [SextetChar(b[0] / 4), SextetChar(b[0] % 4 * 16 + b[1] / 16),
       SextetChar(b[1] % 16 * 4 + b[2] / 64), SextetChar(b[2] % 64)] + Encode(b[3..])
  }

  /** Scanner state of `a2b_base64`: `quad` data characters of the current
      quad seen so far, the `left` bits not yet emitted, and `pads` the
      number of `=` counted since the last data character. */
  ghost predicate ScanState(quad: nat, left: nat)
  {
    quad < 4 && (quad == 0 ==> left < 64) && (quad == 1 ==> left < 64)
    && (quad == 2 ==> left < 16) && (quad == 3 ==> left < 4)
  }

  /** The decoding loop, one character at a time; `acc` holds the bytes
      emitted so far. */
  function Scan(s: string, quad: nat, left: nat, pads: nat, acc: seq<Byte>): (r: DecodeResult)
    requires ScanState(quad, left)
    ensures r.Ok? ==> |acc| <= |r.bytes| && r.bytes[..|acc|] == acc
    decreases |s|
  {
    if s == [] then
      if quad == 1 then Err(LoneDataChar)
      else if quad != 0 then Err(IncorrectPadding)
      else Ok(acc)
    else if s[0] == '=' then
      if quad >= 2 && quad + pads + 1 >= 4 then Ok(acc)  // padding complete: the rest is ignored
      else Scan(s[1..], quad, left, if quad >= 2 then pads + 1 else pads, acc)
    else
      match SextetValue(s[0])
      case None => Scan(s[1..], quad, left, pads, acc)
      case Some(v) =>
        if quad == 0 then Scan(s[1..], 1, v, 0, acc)
        else if quad == 1 then Scan(s[1..], 2, v % 16, 0, acc + [left * 4 + v / 16])
        else if quad == 2 then Scan(s[1..], 3, v % 4, 0, acc + [left * 16 + v / 4])
        else Scan(s[1..], 0, 0, 0, acc + [left * 64 + v])
  }

  /** `base64.b64decode(s)`: `Err` where Python raises `binascii.Error`. */
  function Decode(s: string): DecodeResult
  {
    Scan(s, 0, 0, 0, [])
  }

  /** One full quad decodes to the three bytes it encodes. */
  lemma {:induction false} ScanFullGroup(x: Byte, y: Byte, z: Byte, rest: string, left: nat, pads: nat, acc: seq<Byte>)
    requires left < 64
    ensures Scan([SextetChar(x / 4), SextetChar(x % 4 * 16 + y / 16), SextetChar(y % 16 * 4 + z / 64), SextetChar(z % 64)] + rest, 0, left, pads, acc)
         == Scan(rest, 0, 0, 0, acc + [x, y, z])
  {
    var c0, c1, c2, c3 := SextetChar(x / 4), SextetChar(x % 4 * 16 + y / 16), SextetChar(y % 16 * 4 + z / 64), SextetChar(z % 64);
    var s := [c0, c1, c2, c3] + rest;
    SextetRoundTrip(x / 4);
    SextetRoundTrip(x % 4 * 16 + y / 16);
    SextetRoundTrip(y % 16 * 4 + z / 64);
    SextetRoundTrip(z % 64);
    assert s[1..] == [c1, c2, c3] + rest;
    assert s[1..][1..] == [c2, c3] + rest;
    assert s[1..][1..][1..] == [c3] + rest;
    assert s[1..][1..][1..][1..] == rest;
    var l1 := x / 4;
    var v1 := x % 4 * 16 + y / 16;
    assert l1 * 4 + v1 / 16 == x;
    var l2 := v1 % 16;
    assert l2 == y / 16;
    var v2 := y % 16 * 4 + z / 64;
    assert l2 * 16 + v2 / 4 == y;
    var l3 := v2 % 4;
    assert l3 == z / 64;
    assert l3 * 64 + z % 64 == z;
    calc {
      Scan(s, 0, left, pads, acc);
      Scan(s[1..], 1, l1, 0, acc);
      Scan(s[1..][1..], 2, l2, 0, acc + [x]);
      Scan(s[1..][1..][1..], 3, l3, 0, acc + [x] + [y]);
      Scan(rest, 0, 0, 0, acc + [x] + [y] + [z]);
      { assert acc + [x] + [y] + [z] == acc + [x, y, z]; }
      Scan(rest, 0, 0, 0, acc + [x, y, z]);
    }
  }

  /** A final single byte, padded with `==`, decodes to that byte. */
  lemma {:induction false} ScanOneBytePadded(x: Byte, left: nat, pads: nat, acc: seq<Byte>)
    requires left < 64
    ensures Scan([SextetChar(x / 4), SextetChar(x % 4 * 16), '=', '='], 0, left, pads, acc) == Ok(acc + [x])
  {
    var c0, c1 := SextetChar(x / 4), SextetChar(x % 4 * 16);
    var s := [c0, c1, '=', '='];
    SextetRoundTrip(x / 4);
    SextetRoundTrip(x % 4 * 16);
    assert s[1..] == [c1, '=', '='];
    assert s[1..][1..] == ['=', '='];
    assert s[1..][1..][1..] == ['='];
    assert x / 4 * 4 + (x % 4 * 16) / 16 == x;
    calc {
      Scan(s, 0, left, pads, acc);
      Scan(s[1..], 1, x / 4, 0, acc);
      Scan(s[1..][1..], 2, 0, 0, acc + [x]);
      Scan(s[1..][1..][1..], 2, 0, 1, acc + [x]);
      Ok(acc + [x]);
    }
  }

  /** A final pair of bytes, padded with `=`, decodes to that pair. */
  lemma {:induction false} ScanTwoBytesPadded(x: Byte, y: Byte, left: nat, pads: nat, acc: seq<Byte>)
    requires left < 64
    ensures Scan([SextetChar(x / 4), SextetChar(x % 4 * 16 + y / 16), SextetChar(y % 16 * 4), '='], 0, left, pads, acc)
         == Ok(acc + [x, y])
  {
    var c0, c1, c2 := SextetChar(x / 4), SextetChar(x % 4 * 16 + y / 16), SextetChar(y % 16 * 4);
    var s := [c0, c1, c2, '='];
    SextetRoundTrip(x / 4);
    SextetRoundTrip(x % 4 * 16 + y / 16);
    SextetRoundTrip(y % 16 * 4);
    assert s[1..] == [c1, c2, '='];
    assert s[1..][1..] == [c2, '='];
    assert s[1..][1..][1..] == ['='];
    var v1 := x % 4 * 16 + y / 16;
    assert x / 4 * 4 + v1 / 16 == x;
    assert v1 % 16 * 16 + (y % 16 * 4) / 4 == y;
    calc {
      Scan(s, 0, left, pads, acc);
      Scan(s[1..], 1, x / 4, 0, acc);
      Scan(s[1..][1..], 2, v1 % 16, 0, acc + [x]);
      Scan(s[1..][1..][1..], 3, 0, 0, acc + [x] + [y]);
      Ok(acc + [x] + [y]);
      { assert acc + [x] + [y] == acc + [x, y]; }
      Ok(acc + [x, y]);
    }
  }

  /** Round trip: the lenient decoder recovers every byte string from
      its RFC 4648 encoding. */
  lemma {:induction false} ScanEncode(b: seq<Byte>, left: nat, pads: nat, acc: seq<Byte>)
    requires left < 64
    ensures Scan(Encode(b), 0, left, pads, acc) == Ok(acc + b)
    decreases |b|
  {
    if |b| < 3 {
      ScanEncodeShort(b, left, pads, acc);
    } else {
      ScanEncode(b[3..], 0, 0, acc + b[..3]);
      assert acc + b[..3] + b[3..] == acc + b;
      ScanEncodeStep(b, left, pads, acc);
    }
  }

  /** The end of `ScanEncode`: no bytes, or one or two bytes padded. */
  lemma ScanEncodeShort(b: seq<Byte>, left: nat, pads: nat, acc: seq<Byte>)
    requires left < 64 && |b| < 3
    ensures Scan(Encode(b), 0, left, pads, acc) == Ok(acc + b)
  {
    if |b| == 0 {
      assert acc + b == acc;
    } else if |b| == 1 {
      ScanOneBytePadded(b[0], left, pads, acc);
      assert [b[0]] == b;
    } else {
      ScanTwoBytesPadded(b[0], b[1], left, pads, acc);
      assert [b[0], b[1]] == b;
    }
  }

  /** The step of `ScanEncode`: a full group decodes to its three bytes,
      and the scanner goes on with the rest of the encoding. */
  lemma {:induction false} ScanEncodeStep(b: seq<Byte>, left: nat, pads: nat, acc: seq<Byte>)
    requires left < 64 && |b| >= 3
    requires Scan(Encode(b[3..]), 0, 0, 0, acc + b[..3]) == Ok(acc + b)
    ensures Scan(Encode(b), 0, left, pads, acc) == Ok(acc + b)
  {
    ScanFullGroup(b[0], b[1], b[2], Encode(b[3..]), left, pads, acc);
    assert b[..3] == [b[0], b[1], b[2]];
  }

  /** `b64decode(b64encode(b)) == b` for every byte string `b`. */
  lemma {:induction false} DecodeEncode(b: seq<Byte>)
    ensures Decode(Encode(b)) == Ok(b)
  {
    ScanEncode(b, 0, 0, []);
  }

  /** Leniency: a character outside the alphabet and `=` is skipped
      wherever it stands, so inserting one never changes the result. */
  lemma {:induction false} ScanSkipsForeign(s: string, i: nat, c: char, quad: nat, left: nat, pads: nat, acc: seq<Byte>)
    requires ScanState(quad, left)
    requires i <= |s| && c != '=' && SextetValue(c).None?
    ensures Scan(s[..i] + [c] + s[i..], quad, left, pads, acc) == Scan(s, quad, left, pads, acc)
    decreases i
  {
    var t := s[..i] + [c] + s[i..];
    if i == 0 {
      assert t[1..] == s;
    } else {
      assert t[0] == s[0];
      assert t[1..] == s[1..][..i - 1] + [c] + s[1..][i - 1..];
      if s[0] == '=' {
        if !(quad >= 2 && quad + pads + 1 >= 4) {
          ScanSkipsForeign(s[1..], i - 1, c, quad, left, if quad >= 2 then pads + 1 else pads, acc);
        }
      } else {
        match SextetValue(s[0])
        case None =>
          ScanSkipsForeign(s[1..], i - 1, c, quad, left, pads, acc);
        case Some(v) =>
          if quad == 0 {
            ScanSkipsForeign(s[1..], i - 1, c, 1, v, 0, acc);
          } else if quad == 1 {
            ScanSkipsForeign(s[1..], i - 1, c, 2, v % 16, 0, acc + [left * 4 + v / 16]);
          } else if quad == 2 {
            ScanSkipsForeign(s[1..], i - 1, c, 3, v % 4, 0, acc + [left * 16 + v / 4]);
          } else {
            ScanSkipsForeign(s[1..], i - 1, c, 0, 0, 0, acc + [left * 64 + v]);
          }
      }
    }
  }

  /** Examples of the two `binascii.Error` cases and of accepted input. */
  lemma DecodeExamples()
    ensures Decode("") == Ok([])
    ensures Decode("Y") == Err(LoneDataChar)
    ensures Decode("YQ") == Err(IncorrectPadding)
    ensures Decode("YQ=") == Err(IncorrectPadding)
    ensures Decode("YQ==") == Ok([97])
    ensures Decode("YQ==junk") == Ok([97])
    ensures Decode("/w==") == Ok([255])
  {
  }
}
