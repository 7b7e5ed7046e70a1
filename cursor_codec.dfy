/**
 * The opaque cursor string handed to clients: the cursor's JSON text, as
 * UTF-8 bytes, in base64. Decoding undoes the three layers in turn and
 * fails with "Invalid cursor format" when any of them does.
 */
module CursorCodec {
  import opened Wrappers
  import Base64
  import Utf8
  import opened QueryModel
  import opened CursorJson

  /** The error `decodeCursor` throws. */
  datatype CursorError = InvalidCursorFormat {
    function Message(): string {
      "Invalid cursor format"
    }
  }

  /** `encodeCursor`: `Buffer.from(JSON.stringify(cursor)).toString('base64')`. */
  function EncodeCursor(c: Cursor): string {
    Base64.Encode(Utf8.Encode(Serialize(c)))
  }

  /**
   * `decodeCursor`: base64 to bytes, bytes to UTF-8 text, text to the cursor object.
   * A string it accepts is the canonical base64 of the UTF-8 bytes of a text
   * that reads as the cursor returned.
   */
  function DecodeCursor(s: string): (r: Result<Cursor, CursorError>)
    ensures r.Ok? ==> exists text :: s == Base64.Encode(Utf8.Encode(text)) && Parse(text) == Some(r.value)
    ensures r.Err? ==> r.error.Message() == "Invalid cursor format"
  {
    match Base64.Decode(s)
    case None => Err(InvalidCursorFormat)
    case Some(bytes) =>
      match Utf8.Decode(bytes)
      case None => Err(InvalidCursorFormat)
      case Some(text) =>
        match Parse(text)
        case None => Err(InvalidCursorFormat)
        case Some(c) =>
          Base64.EncodeDecode(s);
          Utf8.EncodeDecode(bytes);
          assert s == Base64.Encode(Utf8.Encode(text));
          Ok(c)
  }

  /** The cursor a client gets back from a cursor string: DateTimes have become their ISO text. */
  function AsDecoded(c: Cursor): (d: Cursor)
    ensures d.id == AsParsed(c.id) && d.sortValue == AsParsed(c.sortValue)
  {
    Cursor(AsParsed(c.id), AsParsed(c.sortValue))
  }

  /** Decoding an encoded cursor succeeds and gives the cursor with DateTimes turned into text. */
  lemma DecodeEncodeCursor(c: Cursor)
    ensures DecodeCursor(EncodeCursor(c)) == Ok(AsDecoded(c))
  {
    var text := Serialize(c);
    Base64.DecodeEncode(Utf8.Encode(text));
    Utf8.DecodeEncode(text);
    ParseSerialize(c);
  }

  /** With a string or number (or null) in both fields, the cursor comes back unchanged. */
  lemma CursorRoundTrip(c: Cursor)
    requires !c.id.Date? && !c.sortValue.Date?
    ensures DecodeCursor(EncodeCursor(c)) == Ok(c)
  {
    DecodeEncodeCursor(c);
  }

  /** A DateTime sort value does not survive: it comes back as a string. */
  lemma DateSortValueChanges(c: Cursor)
    requires c.sortValue.Date?
    ensures DecodeCursor(EncodeCursor(c)).Ok?
    ensures DecodeCursor(EncodeCursor(c)).value.sortValue == Str(c.sortValue.iso)
    ensures DecodeCursor(EncodeCursor(c)) != Ok(c)
  {
    DecodeEncodeCursor(c);
  }

  /** Distinct cursors without DateTimes encode to distinct strings. */
  lemma EncodeCursorInjective(c: Cursor, d: Cursor)
    requires !c.id.Date? && !c.sortValue.Date? && !d.id.Date? && !d.sortValue.Date?
    requires EncodeCursor(c) == EncodeCursor(d)
    ensures c == d
  {
    CursorRoundTrip(c);
    CursorRoundTrip(d);
  }

  /** A well-encoded text the reader takes as a cursor is accepted as that cursor. */
  lemma ParsedTextAccepted(text: string, c: Cursor)
    requires Parse(text) == Some(c)
    ensures DecodeCursor(Base64.Encode(Utf8.Encode(text))) == Ok(c)
  {
    Base64.DecodeEncode(Utf8.Encode(text));
    Utf8.DecodeEncode(text);
  }

  /** A well-encoded text that is not the cursor's JSON is refused with "Invalid cursor format". */
  lemma NonCursorTextRejected(text: string)
    requires Parse(text).None?
    ensures DecodeCursor(Base64.Encode(Utf8.Encode(text))) == Err(InvalidCursorFormat)
  {
    Base64.DecodeEncode(Utf8.Encode(text));
    Utf8.DecodeEncode(text);
  }
}
