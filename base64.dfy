/**
 * Standard base64 with padding (section 4 of RFC 4648), the encoding behind
 * `Buffer.from(bytes).toString('base64')`. The decoder is strict: it accepts
 * exactly the canonical texts the encoder writes.
 */
module Base64 {
  import opened Wrappers

  type sextet = x: int | 0 <= x < 64

  /** The alphabet of Table 1 of RFC 4648: A-Z, a-z, 0-9, '+', '/'. */
  function CharOf(v: sextet): (c: char) {
    if v < 26 then ('A' as int + v) as char
    else if v < 52 then ('a' as int + v - 26) as char
    else if v < 62 then ('0' as int + v - 52) as char
    else if v == 62 then '+'
    else '/'
  }

  /** The sextet a character of the alphabet stands for; None for '=' and any other character. */
  function ValueOf(c: char): (r: Option<sextet>)
    ensures r.Some? ==> CharOf(r.value) == c
  {
    if 'A' <= c <= 'Z' then Some(c as int - 'A' as int)
    else if 'a' <= c <= 'z' then Some(c as int - 'a' as int + 26)
    else if '0' <= c <= '9' then Some(c as int - '0' as int + 52)
    else if c == '+' then Some(62)
    else if c == '/' then Some(63)
    else None
  }

  lemma ValueOfCharOf(v: sextet)
    ensures ValueOf(CharOf(v)) == Some(v)
  {
  }

  /** Three bytes as four characters. */
  function EncodeTriple(b0: byte, b1: byte, b2: byte): string {
    [CharOf(b0 / 4), CharOf((b0 % 4) * 16 + b1 / 16), CharOf((b1 % 16) * 4 + b2 / 64), CharOf(b2 % 64)]
  }

  /** `bytes` in base64: four characters per three bytes, the last group padded with '='. */
  function Encode(bytes: seq<byte>): (s: string)
    decreases |bytes|
  {
    if |bytes| >= 3 then EncodeTriple(bytes[0], bytes[1], bytes[2]) + Encode(bytes[3..])
    else if |bytes| == 2 then PairGroup(bytes[0], bytes[1])
    else if |bytes| == 1 then SingleGroup(bytes[0])
    else []
  }

  /** The three bytes four sextets carry. */
  function DecodeSextets(c0: sextet, c1: sextet, c2: sextet, c3: sextet): (b: seq<byte>) {
    [c0 * 4 + c1 / 16, (c1 % 16) * 16 + c2 / 4, (c2 % 4) * 64 + c3]
  }

  /** One group of four characters; padding is allowed only when `last` holds. */
  function DecodeQuad(q: string, last: bool): (r: Option<seq<byte>>)
    requires |q| == 4
  {
    var v0, v1, v2, v3 := ValueOf(q[0]), ValueOf(q[1]), ValueOf(q[2]), ValueOf(q[3]);
    if v0.None? || v1.None? then None
    else if v2.Some? && v3.Some? then Some(DecodeSextets(v0.value, v1.value, v2.value, v3.value))
    else if !last || q[3] != '=' then None
    else if v2.Some? then
      if v2.value % 4 == 0 then Some(DecodeSextets(v0.value, v1.value, v2.value, 0)[..2]) else None
    else if q[2] == '=' && v1.value % 16 == 0 then Some(DecodeSextets(v0.value, v1.value, 0, 0)[..1])
    else None
  }

  /** The bytes a base64 text stands for, or None when the text is not canonical base64. */
  function Decode(s: string): (r: Option<seq<byte>>)
    decreases |s|
  {
    if s == [] then Some([])
    else if |s| < 4 then None
    else
      match DecodeQuad(s[..4], |s| == 4)
      case None => None
      case Some(head) =>
        match Decode(s[4..])
        case None => None
        case Some(tail) => Some(head + tail)
  }

  /** A group of four alphabet characters decodes to the bytes its sextets carry. */
  lemma DecodeFullQuad(c0: sextet, c1: sextet, c2: sextet, c3: sextet, last: bool)
    ensures DecodeQuad([CharOf(c0), CharOf(c1), CharOf(c2), CharOf(c3)], last) == Some(DecodeSextets(c0, c1, c2, c3))
  {
    ValueOfCharOf(c0);
    ValueOfCharOf(c1);
    ValueOfCharOf(c2);
    ValueOfCharOf(c3);
  }

  /** Regrouping three bytes into sextets and back is the identity. */
  lemma TripleSextets(b0: byte, b1: byte, b2: byte)
    ensures DecodeSextets(b0 / 4, (b0 % 4) * 16 + b1 / 16, (b1 % 16) * 4 + b2 / 64, b2 % 64) == [b0, b1, b2]
  {
    var c1 := (b0 % 4) * 16 + b1 / 16;
    var c2 := (b1 % 16) * 4 + b2 / 64;
    assert c1 / 16 == b0 % 4 && c1 % 16 == b1 / 16;
    assert c2 / 4 == b1 % 16 && c2 % 4 == b2 / 64;
  }

  /** Three bytes come back from their group, wherever the group stands. */
  lemma TripleRoundTrip(b0: byte, b1: byte, b2: byte, last: bool)
    ensures DecodeQuad(EncodeTriple(b0, b1, b2), last) == Some([b0, b1, b2])
  {
    DecodeFullQuad(b0 / 4, (b0 % 4) * 16 + b1 / 16, (b1 % 16) * 4 + b2 / 64, b2 % 64, last);
    TripleSextets(b0, b1, b2);
  }

  /** Two trailing bytes are written as three characters and one '='. */
  function PairGroup(b0: byte, b1: byte): string {
    [CharOf(b0 / 4), CharOf((b0 % 4) * 16 + b1 / 16), CharOf((b1 % 16) * 4), '=']
  }

  /** One trailing byte is written as two characters and "==". */
  function SingleGroup(b0: byte): string {
    [CharOf(b0 / 4), CharOf((b0 % 4) * 16), '=', '=']
  }

  /** A group ending in one '=' decodes to two bytes when its last sextet has no stray bits. */
  lemma DecodePaddedQuad(c0: sextet, c1: sextet, c2: sextet)
    requires c2 % 4 == 0
    ensures DecodeQuad([CharOf(c0), CharOf(c1), CharOf(c2), '='], true) == Some(DecodeSextets(c0, c1, c2, 0)[..2])
  {
    ValueOfCharOf(c0);
    ValueOfCharOf(c1);
    ValueOfCharOf(c2);
  }

  /** A group ending in "==" decodes to one byte when its second sextet has no stray bits. */
  lemma DecodeDoublePaddedQuad(c0: sextet, c1: sextet)
    requires c1 % 16 == 0
    ensures DecodeQuad([CharOf(c0), CharOf(c1), '=', '='], true) == Some(DecodeSextets(c0, c1, 0, 0)[..1])
  {
    ValueOfCharOf(c0);
    ValueOfCharOf(c1);
  }

  /** Regrouping two bytes into sextets and back is the identity. */
  lemma PairSextets(b0: byte, b1: byte)
    ensures DecodeSextets(b0 / 4, (b0 % 4) * 16 + b1 / 16, (b1 % 16) * 4, 0)[..2] == [b0, b1]
  {
    var c1 := (b0 % 4) * 16 + b1 / 16;
    assert c1 / 16 == b0 % 4 && c1 % 16 == b1 / 16;
  }

  /** Two trailing bytes come back from their padded group. */
  lemma PairRoundTrip(b0: byte, b1: byte)
    ensures Decode(PairGroup(b0, b1)) == Some([b0, b1])
  {
    var q := PairGroup(b0, b1);
    var c0, c1, c2 := b0 / 4, (b0 % 4) * 16 + b1 / 16, (b1 % 16) * 4;
    PairSextets(b0, b1);
    DecodePaddedQuad(c0, c1, c2);
    DecodeGroup(q, [], [b0, b1], []);
    assert q + [] == q && [b0, b1] + [] == [b0, b1];
  }

  /** One trailing byte comes back from its padded group. */
  lemma SingleRoundTrip(b0: byte)
    ensures Decode(SingleGroup(b0)) == Some([b0])
  {
    var q := SingleGroup(b0);
    var c0, c1 := b0 / 4, (b0 % 4) * 16;
    assert c1 / 16 == b0 % 4;
    assert DecodeSextets(c0, c1, 0, 0)[..1] == [b0];
    DecodeDoublePaddedQuad(c0, c1);
    DecodeGroup(q, [], [b0], []);
    assert q + [] == q && [b0] + [] == [b0];
  }

  /** Decoding proceeds one group of four characters at a time. */
  lemma DecodeGroup(q: string, rest: string, head: seq<byte>, tail: seq<byte>)
    requires |q| == 4 && DecodeQuad(q, rest == []) == Some(head) && Decode(rest) == Some(tail)
    ensures Decode(q + rest) == Some(head + tail)
  {
    assert (q + rest)[..4] == q;
    assert (q + rest)[4..] == rest;
  }

  /** A sequence of three or more bytes is its first group followed by the rest. */
  lemma SplitFront(bytes: seq<byte>)
    requires |bytes| >= 3
    ensures [bytes[0], bytes[1], bytes[2]] + bytes[3..] == bytes
  {
  }

  /** One full group in front of a sequence that round-trips still round-trips. */
  lemma DecodeEncodeStep(bytes: seq<byte>)
    requires |bytes| >= 3 && Decode(Encode(bytes[3..])) == Some(bytes[3..])
    ensures Decode(Encode(bytes)) == Some(bytes)
  {
    SplitFront(bytes);
    var q := EncodeTriple(bytes[0], bytes[1], bytes[2]);
    var rest := Encode(bytes[3..]);
    assert Encode(bytes) == q + rest;
    TripleRoundTrip(bytes[0], bytes[1], bytes[2], rest == []);
    DecodeGroup(q, rest, [bytes[0], bytes[1], bytes[2]], bytes[3..]);
  }

  /** Decoding undoes encoding: `Decode(Encode(b)) == Some(b)` for every byte sequence. */
  lemma {:induction false} DecodeEncode(bytes: seq<byte>)
    ensures Decode(Encode(bytes)) == Some(bytes)
    decreases |bytes|
  {
    if |bytes| >= 3 {
      DecodeEncode(bytes[3..]);
      DecodeEncodeStep(bytes);
    } else if |bytes| == 2 {
      assert Encode(bytes) == PairGroup(bytes[0], bytes[1]);
      PairRoundTrip(bytes[0], bytes[1]);
      assert [bytes[0], bytes[1]] == bytes;
    } else if |bytes| == 1 {
      assert Encode(bytes) == SingleGroup(bytes[0]);
      SingleRoundTrip(bytes[0]);
      assert [bytes[0]] == bytes;
    }
  }

  /** Encoding writes four characters for every started group of three bytes. */
  lemma {:induction false} EncodeLength(bytes: seq<byte>)
    ensures |Encode(bytes)| == 4 * ((|bytes| + 2) / 3)
    decreases |bytes|
  {
    if |bytes| >= 3 {
      EncodeLength(bytes[3..]);
      assert (|bytes| + 2) / 3 == (|bytes[3..]| + 2) / 3 + 1;
    }
  }

  /** A group the decoder accepts is re-encoded to itself. */
  lemma QuadStrict(q: string, last: bool)
    requires |q| == 4 && DecodeQuad(q, last).Some?
    ensures var head := DecodeQuad(q, last).value;
      1 <= |head| <= 3 && (|head| < 3 ==> last) &&
      (if |head| == 3 then EncodeTriple(head[0], head[1], head[2]) else Encode(head)) == q
  {
    var head := DecodeQuad(q, last).value;
    var c0, c1 := ValueOf(q[0]).value, ValueOf(q[1]).value;
    if ValueOf(q[2]).Some? && ValueOf(q[3]).Some? {
      var c2, c3 := ValueOf(q[2]).value, ValueOf(q[3]).value;
      assert head == DecodeSextets(c0, c1, c2, c3);
      assert head[0] / 4 == c0 && (head[0] % 4) * 16 + head[1] / 16 == c1;
      assert (head[1] % 16) * 4 + head[2] / 64 == c2 && head[2] % 64 == c3;
    } else if ValueOf(q[2]).Some? {
      var c2 := ValueOf(q[2]).value;
      assert head == DecodeSextets(c0, c1, c2, 0)[..2];
      assert head[0] / 4 == c0 && (head[0] % 4) * 16 + head[1] / 16 == c1;
      assert (head[1] % 16) * 4 == c2;
    } else {
      assert head == DecodeSextets(c0, c1, 0, 0)[..1];
      assert head[0] / 4 == c0 && (head[0] % 4) * 16 == c1;
    }
  }

  /** The decoder is strict: whatever it accepts is exactly the encoding of what it returns. */
  lemma {:induction false} EncodeDecode(s: string)
    requires Decode(s).Some?
    ensures Encode(Decode(s).value) == s
    decreases |s|
  {
    if s != [] {
      var q := s[..4];
      var head := DecodeQuad(q, |s| == 4).value;
      var tail := Decode(s[4..]).value;
      EncodeDecode(s[4..]);
      QuadStrict(q, |s| == 4);
      assert q + s[4..] == s;
      if |head| == 3 {
        assert (head + tail)[..3] == head && (head + tail)[3..] == tail;
      } else {
        assert s[4..] == [] && tail == [];
        assert head + tail == head;
      }
    }
  }
}
