/**
 * The JSON text (RFC 8259) of a pagination cursor `{id, sortValue}`, as
 * `JSON.stringify` writes it, and a parser that reads that text back. The
 * parser accepts exactly the object shape the writer produces (no white
 * space, keys in the writer's order) with any JSON string escapes and
 * integer numbers; anything else is refused.
 */
module CursorJson {
  import opened Wrappers
  import opened Text
  import opened QueryModel

  /** The cursor object: the row's id and its value in the sort column. */
  datatype Cursor = Cursor(id: Scalar, sortValue: Scalar)

  // ---------------------------------------------------------------------
  // Writing.

  function HexDigit(d: nat): (c: char)
    requires d < 16
  {
    if d < 10 then ('0' as int + d) as char else ('a' as int + d - 10) as char
  }

  /** The escape `JSON.stringify` writes for one character of a string. */
  function EscapeChar(c: char): (e: string)
    ensures 1 <= |e| <= 6
  {
    var cp := c as int;
    if c == '"' then ['\\', '"']
    else if c == '\\' then ['\\', '\\']
    else if cp == 8 then ['\\', 'b']
    else if cp == 9 then ['\\', 't']
    else if cp == 10 then ['\\', 'n']
    else if cp == 12 then ['\\', 'f']
    else if cp == 13 then ['\\', 'r']
    else if cp < 0x20 then ['\\', 'u', '0', '0', HexDigit(cp / 16), HexDigit(cp % 16)]
    else [c]
  }

  function Escape(s: string): string {
    if s == [] then [] else EscapeChar(s[0]) + Escape(s[1..])
  }

  /** A JSON string literal. */
  function Quote(s: string): string {
    ['"'] + Escape(s) + ['"']
  }

  /** A value as JSON: a DateTime is written as its ISO-8601 string, as `Date.prototype.toJSON` does. */
  function ValueText(v: Scalar): string {
    match v
    case Null => "null"
    case Str(s) => Quote(s)
    case Num(n) => IntToString(n)
    case Date(iso) => Quote(iso)
  }

  const IdPrefix: string := "{\"id\":"
  const SortValuePrefix: string := ",\"sortValue\":"

  /** `JSON.stringify(cursor)`. */
  function Serialize(c: Cursor): string {
    IdPrefix + ValueText(c.id) + SortValuePrefix + ValueText(c.sortValue) + "}"
  }

  // ---------------------------------------------------------------------
  // Reading.

  function HexValue(c: char): (r: Option<nat>)
    ensures r.Some? ==> r.value < 16
  {
    if '0' <= c <= '9' then Some(c as int - '0' as int)
    else if 'a' <= c <= 'f' then Some(c as int - 'a' as int + 10)
    else if 'A' <= c <= 'F' then Some(c as int - 'A' as int + 10)
    else None
  }

  /** The code unit four hex digits spell. */
  function Hex4(s: string): (r: Option<nat>)
    requires |s| == 4
    ensures r.Some? ==> r.value < 0x1_0000
  {
    match (HexValue(s[0]), HexValue(s[1]), HexValue(s[2]), HexValue(s[3]))
    case (Some(a), Some(b), Some(c), Some(d)) =>
      var ab := a * 16 + b;
      assert ab < 256;
      var abc := ab * 16 + c;
      assert abc < 4096;
      Some(abc * 16 + d)
    case _ => None
  }

  /**
   * The first character of the inside of a string literal and how many
   * characters of text it takes: a plain character or an escape. A
   * `\uXXXX` escape naming a surrogate is refused.
   */
  function UnescapeFirst(s: string): (r: Option<(char, nat)>)
    requires |s| > 0
    ensures r.Some? ==> 1 <= r.value.1 <= |s|
  {
    if s[0] == '\\' then
      if |s| < 2 then None
      else if s[1] == '"' then Some(('"', 2))
      else if s[1] == '\\' then Some(('\\', 2))
      else if s[1] == '/' then Some(('/', 2))
      else if s[1] == 'b' then Some((8 as char, 2))
      else if s[1] == 't' then Some((9 as char, 2))
      else if s[1] == 'n' then Some((10 as char, 2))
      else if s[1] == 'f' then Some((12 as char, 2))
      else if s[1] == 'r' then Some((13 as char, 2))
      else if s[1] == 'u' && |s| >= 6 then
        match Hex4(s[2..6])
        case Some(v) => if v < 0xD800 || 0xE000 <= v then Some((v as char, 6)) else None
        case None => None
      else None
    else if s[0] == '"' || (s[0] as int) < 0x20 then None
    else Some((s[0], 1))
  }

  /** The inside of a string literal up to its closing quote, and the text after it. */
  function ParseStringBody(s: string): Option<(string, string)>
    decreases |s|
  {
    if s == [] then None
    else if s[0] == '"' then Some(([], s[1..]))
    else
      match UnescapeFirst(s)
      case None => None
      case Some((c, n)) =>
        match ParseStringBody(s[n..])
        case None => None
        case Some((body, rest)) => Some(([c] + body, rest))
  }

  /** The longest run of decimal digits at the front of s. */
  function DigitRun(s: string): (d: string)
    ensures d <= s && AllDigits(d)
    ensures d == s || !IsDigit(s[|d|])
    decreases |s|
  {
    if s != [] && IsDigit(s[0]) then [s[0]] + DigitRun(s[1..]) else []
  }

  /** A JSON integer without sign: digits, no leading zero. */
  function ParseNat(s: string): Option<(nat, string)> {
    var d := DigitRun(s);
    if d == [] || (|d| > 1 && d[0] == '0') then None else Some((DigitsValue(d), s[|d|..]))
  }

  function ParseInt(s: string): Option<(int, string)> {
    if s != [] && s[0] == '-' then
      match ParseNat(s[1..])
      case None => None
      case Some((n, rest)) => Some((-(n as int), rest))
    else
      match ParseNat(s)
      case None => None
      case Some((n, rest)) => Some((n, rest))
  }

  /** One JSON value at the front of s: null, a string or an integer. */
  function ParseValue(s: string): Option<(Scalar, string)> {
    if "null" <= s then Some((Null, s[4..]))
    else if s != [] && s[0] == '"' then
      match ParseStringBody(s[1..])
      case None => None
      case Some((body, rest)) => Some((Str(body), rest))
    else
      match ParseInt(s)
      case None => None
      case Some((n, rest)) => Some((Num(n), rest))
  }

  /** The cursor a JSON text stands for, or None when it is not the cursor object. */
  function Parse(text: string): Option<Cursor> {
    if !(IdPrefix <= text) then None
    else
      match ParseValue(text[|IdPrefix|..])
      case None => None
      case Some((id, r1)) =>
        if !(SortValuePrefix <= r1) then None
        else
          match ParseValue(r1[|SortValuePrefix|..])
          case None => None
          case Some((sortValue, r2)) => if r2 == "}" then Some(Cursor(id, sortValue)) else None
  }

  // ---------------------------------------------------------------------
  // Reading back what was written.

  /** What a value becomes through JSON: a DateTime comes back as its ISO-8601 string. */
  function AsParsed(v: Scalar): (r: Scalar)
    ensures !v.Date? ==> r == v
    ensures v.Date? ==> r == Str(v.iso)
  {
    if v.Date? then Str(v.iso) else v
  }

  lemma HexRoundTrip(d: nat)
    requires d < 16
    ensures HexValue(HexDigit(d)) == Some(d)
  {
  }

  /** A control character written as `\u00XY` reads back as itself. */
  lemma UnescapeControl(c: char, rest: string)
    requires (c as int) < 0x20
    ensures UnescapeFirst(['\\', 'u', '0', '0', HexDigit(c as int / 16), HexDigit(c as int % 16)] + rest)
            == Some((c, 6))
  {
    var cp := c as int;
    var s := ['\\', 'u', '0', '0', HexDigit(cp / 16), HexDigit(cp % 16)] + rest;
    HexRoundTrip(cp / 16);
    HexRoundTrip(cp % 16);
    assert s[2..6] == ['0', '0', HexDigit(cp / 16), HexDigit(cp % 16)];
    assert Hex4(s[2..6]) == Some(cp);
  }

  /** The first escape of a string body reads back as the character it was written for. */
  lemma UnescapeEscapeChar(c: char, rest: string)
    ensures UnescapeFirst(EscapeChar(c) + rest) == Some((c, |EscapeChar(c)|))
  {
    var cp := c as int;
    var s := EscapeChar(c) + rest;
    if c == '"' || c == '\\' || cp == 8 || cp == 9 || cp == 10 || cp == 12 || cp == 13 {
      assert s[0] == '\\' && s[1] == EscapeChar(c)[1];
    } else if cp < 0x20 {
      UnescapeControl(c, rest);
    } else {
      assert s[0] == c;
    }
  }

  /** The escaped body of a string, then its closing quote, reads back as the string. */
  lemma {:induction false} ParseEscaped(s: string, rest: string)
    ensures ParseStringBody(Escape(s) + ['"'] + rest) == Some((s, rest))
    decreases |s|
  {
    if s == [] {
      assert Escape(s) + ['"'] + rest == ['"'] + rest;
    } else {
      ParseEscaped(s[1..], rest);
      ParseEscapedStep(s, rest);
    }
  }

  /** One step of ParseEscaped: the first escape, then the body already read back. */
  lemma ParseEscapedStep(s: string, rest: string)
    requires s != []
    requires ParseStringBody(Escape(s[1..]) + ['"'] + rest) == Some((s[1..], rest))
    ensures ParseStringBody(Escape(s) + ['"'] + rest) == Some((s, rest))
  {
    var e := EscapeChar(s[0]);
    var tail := Escape(s[1..]) + ['"'] + rest;
    EscapeCons(s, rest);
    UnescapeEscapeChar(s[0], tail);
    AfterPrefix(e, tail);
    BodyStep(e + tail, s[0], |e|, s[1..], rest);
    assert [s[0]] + s[1..] == s;
  }

  lemma EscapeCons(s: string, rest: string)
    requires s != []
    ensures Escape(s) + ['"'] + rest == EscapeChar(s[0]) + (Escape(s[1..]) + ['"'] + rest)
  {
  }

  /** ParseStringBody reads one character, then the rest of the body. */
  lemma BodyStep(t: string, c: char, n: nat, body: string, rest: string)
    requires |t| > 0 && t[0] != '"'
    requires UnescapeFirst(t) == Some((c, n))
    requires ParseStringBody(t[n..]) == Some((body, rest))
    ensures ParseStringBody(t) == Some(([c] + body, rest))
  {
  }

  /** A numeral followed by a non-digit reads back as its number. */
  lemma ParseNatText(n: nat, rest: string)
    requires rest == [] || !IsDigit(rest[0])
    ensures ParseNat(NatToString(n) + rest) == Some((n, rest))
  {
    var d := NatToString(n);
    NatToStringWellFormed(n);
    NatToStringValue(n);
    DigitRunOf(d, rest);
    assert (d + rest)[|d|..] == rest;
  }

  lemma {:induction false} DigitRunOf(d: string, rest: string)
    requires AllDigits(d)
    requires rest == [] || !IsDigit(rest[0])
    ensures DigitRun(d + rest) == d
    decreases |d|
  {
    if d == [] {
      assert d + rest == rest;
    } else {
      assert (d + rest)[1..] == d[1..] + rest;
      DigitRunOf(d[1..], rest);
      assert [d[0]] + d[1..] == d;
    }
  }

  lemma ParseIntText(n: int, rest: string)
    requires rest == [] || !IsDigit(rest[0])
    ensures ParseInt(IntToString(n) + rest) == Some((n, rest))
  {
    if n < 0 {
      NegativeIntText(n, rest);
    } else {
      NonNegativeIntText(n, rest);
    }
  }

  lemma NegativeIntText(n: int, rest: string)
    requires n < 0
    requires rest == [] || !IsDigit(rest[0])
    ensures ParseInt(IntToString(n) + rest) == Some((n, rest))
  {
    var s := IntToString(n) + rest;
    var t := NatToString(-n) + rest;
    assert s == ['-'] + t;
    AfterPrefix(['-'], t);
    ParseNatText(-n, rest);
    MinusStep(s, -n, rest);
  }

  /** ParseInt reads a '-' and then a numeral. */
  lemma MinusStep(s: string, m: nat, rest: string)
    requires s != [] && s[0] == '-'
    requires ParseNat(s[1..]) == Some((m, rest))
    ensures ParseInt(s) == Some((-(m as int), rest))
  {
  }

  lemma NonNegativeIntText(n: int, rest: string)
    requires n >= 0
    requires rest == [] || !IsDigit(rest[0])
    ensures ParseInt(IntToString(n) + rest) == Some((n, rest))
  {
    var s := IntToString(n) + rest;
    NatToStringWellFormed(n);
    assert s == NatToString(n) + rest;
    assert s[0] == NatToString(n)[0];
    ParseNatText(n, rest);
  }

  /** A string literal followed by anything reads back as its string. */
  lemma ParseQuoted(x: string, rest: string)
    ensures ParseValue(Quote(x) + rest) == Some((Str(x), rest))
  {
    var s := Quote(x) + rest;
    assert s == ['"'] + (Escape(x) + ['"'] + rest);
    assert s[0] == '"' && s[1..] == Escape(x) + ['"'] + rest;
    ParseEscaped(x, rest);
  }

  /** An integer followed by a non-digit reads back as itself. */
  lemma ParseNumber(n: int, rest: string)
    requires rest == [] || !IsDigit(rest[0])
    ensures ParseValue(IntToString(n) + rest) == Some((Num(n), rest))
  {
    var s := IntToString(n) + rest;
    ParseIntText(n, rest);
    if n < 0 {
      assert s[0] == '-';
    } else {
      NatToStringWellFormed(n);
      assert s[0] == NatToString(n)[0];
    }
  }

  /** A value followed by ',' or '}' reads back as itself, a DateTime as its text. */
  lemma ParseValueText(v: Scalar, rest: string)
    requires rest == [] || rest[0] == ',' || rest[0] == '}'
    ensures ParseValue(ValueText(v) + rest) == Some((AsParsed(v), rest))
  {
    match v
    case Null =>
      var s := ValueText(v) + rest;
      assert s[..4] == "null" && s[4..] == rest;
    case Str(x) => ParseQuoted(x, rest);
    case Date(x) => ParseQuoted(x, rest);
    case Num(n) => ParseNumber(n, rest);
  }

  /** A text that starts with p keeps the rest after p. */
  lemma AfterPrefix(p: string, t: string)
    ensures p <= p + t && (p + t)[|p|..] == t
  {
  }

  /** Parsing the text of a cursor gives the cursor back, with DateTimes turned into their text. */
  lemma ParseSerialize(c: Cursor)
    ensures Parse(Serialize(c)) == Some(Cursor(AsParsed(c.id), AsParsed(c.sortValue)))
  {
    var idText, svText := ValueText(c.id), ValueText(c.sortValue);
    var r2 := svText + "}";
    var r1 := SortValuePrefix + r2;
    var text := IdPrefix + (idText + r1);
    Regroup(IdPrefix, idText, SortValuePrefix, svText, "}");
    AfterPrefix(IdPrefix, idText + r1);
    assert r1[0] == ',';
    ParseValueText(c.id, r1);
    AfterPrefix(SortValuePrefix, r2);
    ParseValueText(c.sortValue, "}");
    ParseSteps(text, AsParsed(c.id), r1, AsParsed(c.sortValue), "}");
  }

  lemma Regroup(a: string, b: string, c: string, d: string, e: string)
    ensures a + b + c + d + e == a + (b + (c + (d + e)))
  {
  }

  /** Parse reads the id, then the sort value, then the closing brace. */
  lemma ParseSteps(text: string, id: Scalar, r1: string, sortValue: Scalar, r2: string)
    requires IdPrefix <= text && ParseValue(text[|IdPrefix|..]) == Some((id, r1))
    requires SortValuePrefix <= r1 && ParseValue(r1[|SortValuePrefix|..]) == Some((sortValue, r2))
    requires r2 == "}"
    ensures Parse(text) == Some(Cursor(id, sortValue))
  {
  }
}
