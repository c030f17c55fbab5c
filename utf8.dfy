/**
 * UTF-8, as Rust's `String` uses it: `String::as_bytes` gives the UTF-8
 * encoding of the string's scalar values, and `String::from_utf8` accepts a
 * byte sequence only when it is well-formed UTF-8 (the well-formed byte
 * sequences of table 3-7 of the Unicode Standard, section 3.9: no overlong
 * forms, no surrogates, nothing above U+10FFFF).
 */
module Utf8 {
  import opened Base

  predicate IsContinuation(b: byte) { 0x80 <= b < 0xC0 }

  /** The UTF-8 bytes of one scalar value. */
  function EncodeChar(c: char): (r: seq<byte>)
    ensures 1 <= |r| <= 4
    ensures r[0] == 0 <==> c == '\0'
    ensures forall i :: 1 <= i < |r| ==> IsContinuation(r[i])
  {
    var n := c as int;
    if n < 0x80 then [n]
    else if n < 0x800 then [0xC0 + n / 64, 0x80 + n % 64]
    else if n < 0x1_0000 then [0xE0 + n / 64 / 64, 0x80 + n / 64 % 64, 0x80 + n % 64]
    else [0xF0 + n / 64 / 64 / 64, 0x80 + n / 64 / 64 % 64, 0x80 + n / 64 % 64, 0x80 + n % 64]
  }

  /** `s.as_bytes()`: the concatenated encodings of the characters of `s`. */
  function Encode(s: string): (r: seq<byte>)
    ensures |s| <= |r| <= 4 * |s|
  {
    if s == [] then [] else EncodeChar(s[0]) + Encode(s[1..])
  }

  /**
   * Reads one well-formed UTF-8 sequence at the start of `b`: the character
   * and the number of bytes it takes, or None when `b` does not start with one.
   */
  function DecodeChar(b: seq<byte>): (r: Option<(char, nat)>)
    requires b != []
    ensures r.Some? ==> 1 <= r.value.1 <= 4 && r.value.1 <= |b|
  {
    var b0 := b[0];
    if b0 < 0x80 then
      Some((b0 as char, 1))
    else if 0xC2 <= b0 < 0xE0 then
      if 2 <= |b| && IsContinuation(b[1])
      then Some((((b0 as int - 0xC0) * 64 + (b[1] as int - 0x80)) as char, 2))
      else None
    else if 0xE0 <= b0 < 0xF0 then
      // E0 excludes overlong forms, ED excludes the surrogates
      var lo := if b0 == 0xE0 then 0xA0 else 0x80;
      var hi := if b0 == 0xED then 0xA0 else 0xC0;
      if 3 <= |b| && lo <= b[1] < hi && IsContinuation(b[2])
      then Some(((((b0 as int - 0xE0) * 64 + (b[1] as int - 0x80)) * 64 + (b[2] as int - 0x80)) as char, 3))
      else None
    else if 0xF0 <= b0 < 0xF5 then
      // F0 excludes overlong forms, F4 excludes values above U+10FFFF
      var lo := if b0 == 0xF0 then 0x90 else 0x80;
      var hi := if b0 == 0xF4 then 0x90 else 0xC0;
      if 4 <= |b| && lo <= b[1] < hi && IsContinuation(b[2]) && IsContinuation(b[3])
      then Some((((((b0 as int - 0xF0) * 64 + (b[1] as int - 0x80)) * 64 + (b[2] as int - 0x80)) * 64 + (b[3] as int - 0x80)) as char, 4))
      else None
    else
      None
  }

  /** `String::from_utf8(b)`: the string `b` encodes, or None when `b` is not well-formed UTF-8. */
  function Decode(b: seq<byte>): (r: Option<string>)
    decreases |b|
  {
    if b == [] then Some([])
    else match DecodeChar(b)
      case None => None
      case Some((c, k)) =>
        match Decode(b[k..])
        case None => None
        case Some(s) => Some([c] + s)
  }

  /** Every character's encoding is read back as that character, whatever follows it. */
  lemma {:induction false} DecodeEncodeChar(c: char, rest: seq<byte>)
    ensures DecodeChar(EncodeChar(c) + rest) == Some((c, |EncodeChar(c)|))
  {
    var n := c as int;
    var b := EncodeChar(c) + rest;
    var m1 := n / 64;
    var m2 := m1 / 64;
    var m3 := m2 / 64;
    assert n == 64 * m1 + n % 64 && m1 == 64 * m2 + m1 % 64 && m2 == 64 * m3 + m2 % 64;
    if n < 0x80 {
    } else if n < 0x800 {
      assert b[0] == 0xC0 + m1 && b[1] == 0x80 + n % 64;
    } else if n < 0x1_0000 {
      assert b[0] == 0xE0 + m2 && b[1] == 0x80 + m1 % 64 && b[2] == 0x80 + n % 64;
      assert 0xE0 <= b[0] < 0xF0;
    } else {
      assert b[0] == 0xF0 + m3 && b[1] == 0x80 + m2 % 64;
      assert b[2] == 0x80 + m1 % 64 && b[3] == 0x80 + n % 64;
      assert 0xF0 <= b[0] < 0xF5;
    }
  }

  /** Every well-formed sequence that DecodeChar reads is the encoding of the character it returns. */
  lemma {:induction false} EncodeDecodeChar(b: seq<byte>)
    requires b != [] && DecodeChar(b).Some?
    ensures EncodeChar(DecodeChar(b).value.0) == b[..DecodeChar(b).value.1]
  {
    var k := DecodeChar(b).value.1;
    if k == 2 {
      EncodeDecodeChar2(b);
    } else if k == 3 {
      EncodeDecodeChar3(b);
    } else if k == 4 {
      EncodeDecodeChar4(b);
    }
  }

  lemma {:induction false} EncodeDecodeChar2(b: seq<byte>)
    requires b != [] && DecodeChar(b).Some? && DecodeChar(b).value.1 == 2
    ensures EncodeChar(DecodeChar(b).value.0) == b[..2]
  {
    var n := DecodeChar(b).value.0 as int;
    var d0, d1 := b[0] as int - 0xC0, b[1] as int - 0x80;
    assert n == d0 * 64 + d1;
    assert n / 64 == d0 && n % 64 == d1;
  }

  lemma {:induction false} EncodeDecodeChar3(b: seq<byte>)
    requires b != [] && DecodeChar(b).Some? && DecodeChar(b).value.1 == 3
    ensures EncodeChar(DecodeChar(b).value.0) == b[..3]
  {
    var n := DecodeChar(b).value.0 as int;
    var d0, d1, d2 := b[0] as int - 0xE0, b[1] as int - 0x80, b[2] as int - 0x80;
    assert n == (d0 * 64 + d1) * 64 + d2;
    assert n / 64 == d0 * 64 + d1 && n % 64 == d2;
    assert n / 64 / 64 == d0 && n / 64 % 64 == d1;
  }

  lemma {:induction false} EncodeDecodeChar4(b: seq<byte>)
    requires b != [] && DecodeChar(b).Some? && DecodeChar(b).value.1 == 4
    ensures EncodeChar(DecodeChar(b).value.0) == b[..4]
  {
    var n := DecodeChar(b).value.0 as int;
    var d0, d1, d2, d3 := b[0] as int - 0xF0, b[1] as int - 0x80, b[2] as int - 0x80, b[3] as int - 0x80;
    assert n == ((d0 * 64 + d1) * 64 + d2) * 64 + d3;
    assert n / 64 == (d0 * 64 + d1) * 64 + d2 && n % 64 == d3;
    assert n / 64 / 64 == d0 * 64 + d1 && n / 64 % 64 == d2;
    assert n / 64 / 64 / 64 == d0 && n / 64 / 64 % 64 == d1;
  }

  /** from_utf8 accepts what as_bytes produces and gives the same string back. */
  lemma {:induction false} DecodeEncode(s: string)
    ensures Decode(Encode(s)) == Some(s)
  {
    if s != [] {
      var e, rest := EncodeChar(s[0]), Encode(s[1..]);
      var b := Encode(s);
      assert b == e + rest;
      DecodeEncodeChar(s[0], rest);
      assert DecodeChar(b) == Some((s[0], |e|));
      assert b[|e|..] == rest;
      DecodeEncode(s[1..]);
      assert Decode(b) == Some([s[0]] + s[1..]);
      assert [s[0]] + s[1..] == s;
    }
  }

  /** A successful decode is the first character followed by the decode of the rest. */
  lemma {:induction false} DecodeFirst(b: seq<byte>)
    requires b != [] && Decode(b).Some?
    ensures DecodeChar(b).Some?
    ensures var k := DecodeChar(b).value.1;
      Decode(b[k..]).Some? && Decode(b).value == [DecodeChar(b).value.0] + Decode(b[k..]).value
  {
  }

  lemma {:induction false} EncodeCons(c: char, s: string)
    ensures Encode([c] + s) == EncodeChar(c) + Encode(s)
  {
  }

  /** One step of EncodeDecode: the first character re-encodes to the bytes it was read from. */
  lemma {:induction false} EncodeDecodeFirst(b: seq<byte>, c: char, k: nat, tail: string)
    requires b != [] && DecodeChar(b) == Some((c, k))
    requires Encode(tail) == b[k..]
    ensures Encode([c] + tail) == b
  {
    EncodeDecodeChar(b);
    EncodeCons(c, tail);
    assert b == b[..k] + b[k..];
  }

  /** from_utf8 accepts only encodings: whatever it decodes re-encodes to the same bytes. */
  lemma {:induction false} EncodeDecode(b: seq<byte>)
    requires Decode(b).Some?
    ensures Encode(Decode(b).value) == b
    decreases |b|
  {
    if b != [] {
      DecodeFirst(b);
      var c, k := DecodeChar(b).value.0, DecodeChar(b).value.1;
      EncodeDecode(b[k..]);
      EncodeDecodeFirst(b, c, k, Decode(b[k..]).value);
    }
  }

  /** A string's encoding holds a zero byte exactly when the string holds U+0000. */
  lemma {:induction false} EncodeHasZero(s: string)
    ensures 0 in Encode(s) <==> '\0' in s
  {
    if s != [] {
      var e := EncodeChar(s[0]);
      EncodeHasZero(s[1..]);
      assert Encode(s) == e + Encode(s[1..]);
      assert s == [s[0]] + s[1..];
      assert 0 in e <==> e[0] == 0;
    }
  }
}
