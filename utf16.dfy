/**
 * UTF-16 as the standard library does it: `str::encode_utf16` and
 * `String::from_utf16`, which rejects unpaired surrogates. Code units are
 * 16-bit; characters are Unicode scalar values.
 */
module Utf16 {
  import opened Prelude

  newtype u16 = x: int | 0 <= x < 0x1_0000

  predicate IsHighSurrogate(u: u16) {
    0xD800 <= u < 0xDC00
  }

  predicate IsLowSurrogate(u: u16) {
    0xDC00 <= u < 0xE000
  }

  /** One code unit for a character of the Basic Multilingual Plane, a surrogate pair for the others. */
  function EncodeChar(c: char): (units: seq<u16>)
    ensures 1 <= |units| <= 2
    ensures |units| == 1 <==> c as int < 0x1_0000
    ensures |units| == 1 ==> units[0] as int == c as int
    ensures |units| == 2 ==> IsHighSurrogate(units[0]) && IsLowSurrogate(units[1])
  {
    var n := c as int;
    if n < 0x1_0000 then [n as u16]
    else
      var m := n - 0x1_0000;
      [(0xD800 + m / 0x400) as u16, (0xDC00 + m % 0x400) as u16]
  }

  /** `s.encode_utf16().collect()`. */
  function EncodeUtf16(s: string): (units: seq<u16>)
    ensures |s| <= |units| <= 2 * |s|
    decreases |s|
  {
    if s == [] then [] else EncodeChar(s[0]) + EncodeUtf16(s[1..])
  }

  /** The scalar value a surrogate pair stands for. */
  function PairValue(high: u16, low: u16): (c: char)
    requires IsHighSurrogate(high) && IsLowSurrogate(low)
    ensures 0x1_0000 <= c as int
  {
    (0x1_0000 + (high as int - 0xD800) * 0x400 + (low as int - 0xDC00)) as char
  }

  /** `String::from_utf16`: `None` where the source gets `Err` (an unpaired surrogate). */
  function DecodeUtf16(units: seq<u16>): Option<string>
    decreases |units|
  {
    if units == [] then Some([])
    else if !IsHighSurrogate(units[0]) && !IsLowSurrogate(units[0]) then
      match DecodeUtf16(units[1..])
      case None => None
      case Some(rest) => Some([units[0] as int as char] + rest)
    else if IsHighSurrogate(units[0]) && |units| >= 2 && IsLowSurrogate(units[1]) then
      match DecodeUtf16(units[2..])
      case None => None
      case Some(rest) => Some([PairValue(units[0], units[1])] + rest)
    else None
  }

  lemma PairOfEncoding(c: char)
    requires c as int >= 0x1_0000
    ensures PairValue(EncodeChar(c)[0], EncodeChar(c)[1]) == c
  {
    var m := c as int - 0x1_0000;
    assert m == (m / 0x400) * 0x400 + m % 0x400;
  }

  lemma {:induction false} DecodeEncodeChar(c: char, rest: seq<u16>)
    ensures DecodeUtf16(EncodeChar(c) + rest) ==
              match DecodeUtf16(rest)
              case None => None
              case Some(s) => Some([c] + s)
  {
    var units := EncodeChar(c) + rest;
    if c as int < 0x1_0000 {
      assert units[1..] == rest;
    } else {
      PairOfEncoding(c);
      assert units[2..] == rest;
    }
  }

  /** Decoding undoes encoding: every string survives the round trip to UTF-16. */
  lemma {:induction false} DecodeOfEncode(s: string)
    ensures DecodeUtf16(EncodeUtf16(s)) == Some(s)
    decreases |s|
  {
    if s != [] {
      DecodeEncodeChar(s[0], EncodeUtf16(s[1..]));
      DecodeOfEncode(s[1..]);
      assert [s[0]] + s[1..] == s;
    }
  }

  lemma EncodingOfPair(high: u16, low: u16)
    requires IsHighSurrogate(high) && IsLowSurrogate(low)
    ensures EncodeChar(PairValue(high, low)) == [high, low]
  {
    var m := (high as int - 0xD800) * 0x400 + (low as int - 0xDC00);
    assert m / 0x400 == high as int - 0xD800;
    assert m % 0x400 == low as int - 0xDC00;
  }

  /** Encoding undoes a successful decoding: the units are exactly those of the decoded string. */
  lemma {:induction false} EncodeOfDecode(units: seq<u16>)
    requires DecodeUtf16(units).Some?
    ensures EncodeUtf16(DecodeUtf16(units).value) == units
    decreases |units|
  {
    if units != [] {
      var s := DecodeUtf16(units).value;
      if !IsHighSurrogate(units[0]) && !IsLowSurrogate(units[0]) {
        EncodeOfDecode(units[1..]);
        assert s[1..] == DecodeUtf16(units[1..]).value;
        assert units == [units[0]] + units[1..];
      } else {
        EncodingOfPair(units[0], units[1]);
        EncodeOfDecode(units[2..]);
        assert s[1..] == DecodeUtf16(units[2..]).value;
        assert units == [units[0], units[1]] + units[2..];
      }
    }
  }

  /** Only the NUL character is encoded with a zero unit. */
  lemma {:induction false} EncodingHasNoNul(s: string)
    requires '\0' !in s
    ensures 0 !in EncodeUtf16(s)
    decreases |s|
  {
    if s != [] {
      assert s[0] != '\0';
      EncodingHasNoNul(s[1..]);
      assert forall c :: c in s[1..] ==> c in s;
    }
  }
}
