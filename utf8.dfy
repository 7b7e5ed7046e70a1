/**
 * UTF-8, the encoding `Buffer.from(text)` and `buffer.toString('utf-8')` use
 * to move between JavaScript text and bytes. Dafny characters are Unicode
 * scalar values, so every character has an encoding of one to four bytes.
 * The decoder is strict: it refuses overlong forms, surrogates and stray bytes.
 */
module Utf8 {
  import opened Wrappers

  predicate IsScalar(cp: int) {
    0 <= cp < 0xD800 || 0xE000 <= cp < 0x11_0000
  }

  /** The one to four bytes of a character. */
  function EncodeChar(c: char): (b: seq<byte>)
    ensures 1 <= |b| <= 4
  {
    var cp := c as int;
    if cp < 0x80 then [cp]
    else if cp < 0x800 then [0xC0 + cp / 64, 0x80 + cp % 64]
    else if cp < 0x1_0000 then [0xE0 + cp / 4096, 0x80 + (cp / 64) % 64, 0x80 + cp % 64]
    else [0xF0 + cp / 262144, 0x80 + (cp / 4096) % 64, 0x80 + (cp / 64) % 64, 0x80 + cp % 64]
  }

  /** `Buffer.from(s, 'utf-8')`. */
  function Encode(s: string): (b: seq<byte>) {
    if s == [] then [] else EncodeChar(s[0]) + Encode(s[1..])
  }

  predicate IsContinuation(b: byte) {
    0x80 <= b < 0xC0
  }

  /** The first character of `b` and how many bytes it takes, if `b` starts with a well-formed sequence. */
  function DecodeFirst(b: seq<byte>): (r: Option<(char, nat)>)
    requires |b| > 0
    ensures r.Some? ==> 1 <= r.value.1 <= |b|
  {
    var b0: int := b[0];
    if b0 < 0x80 then Some((b0 as char, 1))
    else if 0xC2 <= b0 < 0xE0 && |b| >= 2 && IsContinuation(b[1]) then
      Some((((b0 - 0xC0) * 64 + (b[1] as int - 0x80)) as char, 2))
    else if 0xE0 <= b0 < 0xF0 && |b| >= 3 && IsContinuation(b[1]) && IsContinuation(b[2]) then
      var cp := (b0 - 0xE0) * 4096 + (b[1] as int - 0x80) * 64 + (b[2] as int - 0x80);
      if 0x800 <= cp && IsScalar(cp) then Some((cp as char, 3)) else None
    else if 0xF0 <= b0 < 0xF5 && |b| >= 4 && IsContinuation(b[1]) && IsContinuation(b[2]) && IsContinuation(b[3]) then
      var cp := (b0 - 0xF0) * 262144 + (b[1] as int - 0x80) * 4096 + (b[2] as int - 0x80) * 64 + (b[3] as int - 0x80);
      if 0x1_0000 <= cp < 0x11_0000 then Some((cp as char, 4)) else None
    else None
  }

  /** The text a byte sequence spells in UTF-8, or None when it is not well-formed. */
  function Decode(b: seq<byte>): (r: Option<string>)
    decreases |b|
  {
    if b == [] then Some([])
    else
      match DecodeFirst(b)
      case None => None
      case Some((c, n)) =>
        match Decode(b[n..])
        case None => None
        case Some(rest) => Some([c] + rest)
  }

  /** A two-byte sequence carries a code point between 0x80 and 0x7FF. */
  lemma TwoBytes(c: char, rest: seq<byte>)
    requires 0x80 <= c as int < 0x800
    ensures DecodeFirst(EncodeChar(c) + rest) == Some((c, 2))
  {
    var cp := c as int;
    var b0, b1 := 0xC0 + cp / 64, 0x80 + cp % 64;
    assert EncodeChar(c) == [b0, b1];
    assert 0xC2 <= b0 < 0xE0 && IsContinuation(b1);
    assert (b0 - 0xC0) * 64 + (b1 - 0x80) == cp;
    var b := EncodeChar(c) + rest;
    assert b[0] == b0 && b[1] == b1;
  }

  /** A three-byte sequence carries a code point between 0x800 and 0xFFFF. */
  lemma ThreeBytes(c: char, rest: seq<byte>)
    requires 0x800 <= c as int < 0x1_0000
    ensures DecodeFirst(EncodeChar(c) + rest) == Some((c, 3))
  {
    var cp := c as int;
    var b0, b1, b2 := 0xE0 + cp / 4096, 0x80 + (cp / 64) % 64, 0x80 + cp % 64;
    assert EncodeChar(c) == [b0, b1, b2];
    assert 0xE0 <= b0 < 0xF0 && IsContinuation(b1) && IsContinuation(b2);
    assert (b0 - 0xE0) * 4096 + (b1 - 0x80) * 64 + (b2 - 0x80) == cp by {
      assert cp == (cp / 64) * 64 + cp % 64;
      assert cp / 64 == (cp / 4096) * 64 + (cp / 64) % 64;
    }
    var b := EncodeChar(c) + rest;
    assert b[0] == b0 && b[1] == b1 && b[2] == b2;
  }

  /** A four-byte sequence carries a code point from 0x10000 up. */
  lemma FourBytes(c: char, rest: seq<byte>)
    requires 0x1_0000 <= c as int
    ensures DecodeFirst(EncodeChar(c) + rest) == Some((c, 4))
  {
    var cp := c as int;
    var d0, d1, d2, d3 := cp / 262144, (cp / 4096) % 64, (cp / 64) % 64, cp % 64;
    FourDigits(cp);
    assert EncodeChar(c) == [0xF0 + d0, 0x80 + d1, 0x80 + d2, 0x80 + d3];
    var b := EncodeChar(c) + rest;
    assert b[0] == 0xF0 + d0 && b[1] == 0x80 + d1 && b[2] == 0x80 + d2 && b[3] == 0x80 + d3;
    assert 0xF0 <= b[0] < 0xF5 && IsContinuation(b[1]) && IsContinuation(b[2]) && IsContinuation(b[3]);
    assert (b[0] as int - 0xF0) * 262144 + (b[1] as int - 0x80) * 4096 + (b[2] as int - 0x80) * 64 + (b[3] as int - 0x80) == cp;
  }

  /** A code point from 0x10000 up, written as one digit below 5 and three base-64 digits. */
  lemma FourDigits(cp: int)
    requires 0x1_0000 <= cp < 0x11_0000
    ensures 0 <= cp / 262144 < 5
    ensures cp == (cp / 262144) * 262144 + ((cp / 4096) % 64) * 4096 + ((cp / 64) % 64) * 64 + cp % 64
  {
    assert cp == (cp / 64) * 64 + cp % 64;
    assert cp / 64 == (cp / 4096) * 64 + (cp / 64) % 64;
    assert cp / 4096 == (cp / 262144) * 64 + (cp / 4096) % 64;
    assert cp == (cp / 4096) * 4096 + ((cp / 64) % 64) * 64 + cp % 64;
  }

  /** The decoder reads back the character at the front of any encoding. */
  lemma DecodeFirstEncodeChar(c: char, rest: seq<byte>)
    ensures DecodeFirst(EncodeChar(c) + rest) == Some((c, |EncodeChar(c)|))
  {
    var cp := c as int;
    if cp < 0x80 {
      assert (EncodeChar(c) + rest)[0] == cp;
    } else if cp < 0x800 {
      TwoBytes(c, rest);
    } else if cp < 0x1_0000 {
      ThreeBytes(c, rest);
    } else {
      FourBytes(c, rest);
    }
  }

  /** Decoding undoes encoding: `Decode(Encode(s)) == Some(s)`. */
  lemma {:induction false} DecodeEncode(s: string)
    ensures Decode(Encode(s)) == Some(s)
  {
    if s != [] {
      var e := EncodeChar(s[0]);
      DecodeFirstEncodeChar(s[0], Encode(s[1..]));
      DecodeEncode(s[1..]);
      assert (e + Encode(s[1..]))[|e|..] == Encode(s[1..]);
      assert [s[0]] + s[1..] == s;
    }
  }

  /** A number below `m * k` split into a high digit and a low part below `m`. */
  lemma Digits(hi: int, lo: int, m: int)
    requires m in {64, 4096, 262144} && 0 <= hi && 0 <= lo < m
    ensures (hi * m + lo) / m == hi && (hi * m + lo) % m == lo
  {
  }

  /** A two-byte sequence the decoder accepts is the encoding of the character it yields. */
  lemma TwoBytesBack(b: seq<byte>)
    requires |b| >= 2 && 0xC2 <= b[0] < 0xE0 && IsContinuation(b[1])
    ensures var cp := (b[0] as int - 0xC0) * 64 + (b[1] as int - 0x80);
      0x80 <= cp < 0x800 && EncodeChar(cp as char) == b[..2]
  {
    var hi, lo := b[0] as int - 0xC0, b[1] as int - 0x80;
    Digits(hi, lo, 64);
  }

  /** A three-byte sequence the decoder accepts is the encoding of the character it yields. */
  lemma ThreeBytesBack(b: seq<byte>)
    requires |b| >= 3 && 0xE0 <= b[0] < 0xF0 && IsContinuation(b[1]) && IsContinuation(b[2])
    requires var cp := (b[0] as int - 0xE0) * 4096 + (b[1] as int - 0x80) * 64 + (b[2] as int - 0x80);
      0x800 <= cp && IsScalar(cp)
    ensures var cp := (b[0] as int - 0xE0) * 4096 + (b[1] as int - 0x80) * 64 + (b[2] as int - 0x80);
      EncodeChar(cp as char) == b[..3]
  {
    var d0, d1, d2 := b[0] as int - 0xE0, b[1] as int - 0x80, b[2] as int - 0x80;
    var cp := d0 * 4096 + d1 * 64 + d2;
    Digits(d0 * 64 + d1, d2, 64);
    Digits(d0, d1, 64);
    Digits(d0, d1 * 64 + d2, 4096);
    assert cp / 4096 == d0 && (cp / 64) % 64 == d1 && cp % 64 == d2;
  }

  /** A four-byte sequence the decoder accepts is the encoding of the character it yields. */
  lemma FourBytesBack(b: seq<byte>)
    requires |b| >= 4 && 0xF0 <= b[0] < 0xF5 && IsContinuation(b[1]) && IsContinuation(b[2]) && IsContinuation(b[3])
    requires var cp := (b[0] as int - 0xF0) * 262144 + (b[1] as int - 0x80) * 4096 + (b[2] as int - 0x80) * 64 + (b[3] as int - 0x80);
      0x1_0000 <= cp < 0x11_0000
    ensures var cp := (b[0] as int - 0xF0) * 262144 + (b[1] as int - 0x80) * 4096 + (b[2] as int - 0x80) * 64 + (b[3] as int - 0x80);
      EncodeChar(cp as char) == b[..4]
  {
    var d0, d1, d2, d3 := b[0] as int - 0xF0, b[1] as int - 0x80, b[2] as int - 0x80, b[3] as int - 0x80;
    var cp := d0 * 262144 + d1 * 4096 + d2 * 64 + d3;
    Digits(d0 * 4096 + d1 * 64 + d2, d3, 64);
    Digits(d0 * 64 + d1, d2, 64);
    Digits(d0 * 64 + d1, d2 * 64 + d3, 4096);
    Digits(d0, d1, 64);
    Digits(d0, d1 * 4096 + d2 * 64 + d3, 262144);
    assert cp / 262144 == d0 && (cp / 4096) % 64 == d1 && (cp / 64) % 64 == d2 && cp % 64 == d3;
  }

  /** Whatever the decoder reads at the front is exactly the encoding of the character it returns. */
  lemma EncodeCharDecodeFirst(b: seq<byte>)
    requires |b| > 0 && DecodeFirst(b).Some?
    ensures EncodeChar(DecodeFirst(b).value.0) == b[..DecodeFirst(b).value.1]
  {
    var b0 := b[0] as int;
    if b0 < 0x80 {
    } else if 0xC2 <= b0 < 0xE0 && |b| >= 2 && IsContinuation(b[1]) {
      TwoBytesBack(b);
    } else if 0xE0 <= b0 < 0xF0 && |b| >= 3 && IsContinuation(b[1]) && IsContinuation(b[2]) {
      ThreeBytesBack(b);
    } else {
      FourBytesBack(b);
    }
  }

  /** Encoding undoes decoding: the bytes of a well-formed sequence are the only encoding of its text. */
  lemma {:induction false} EncodeDecode(b: seq<byte>)
    requires Decode(b).Some?
    ensures Encode(Decode(b).value) == b
    decreases |b|
  {
    if b != [] {
      var (c, n) := DecodeFirst(b).value;
      var rest := Decode(b[n..]).value;
      assert Decode(b).value == [c] + rest;
      EncodeCharDecodeFirst(b);
      EncodeDecode(b[n..]);
      EncodeCons(b, c, n, rest);
    }
  }

  /** A character's encoding followed by the rest's encoding rebuilds the bytes they came from. */
  lemma EncodeCons(b: seq<byte>, c: char, n: nat, rest: string)
    requires n <= |b| && EncodeChar(c) == b[..n] && Encode(rest) == b[n..]
    ensures Encode([c] + rest) == b
  {
    var t := [c] + rest;
    assert t[0] == c && t[1..] == rest;
    assert b[..n] + b[n..] == b;
  }
}
