/**
 How `json.loads` reads a `bytes` argument: it guesses the text encoding
 from the first bytes (`json.detect_encoding`) and decodes the bytes with
 that encoding, error handler `surrogatepass`, before it parses the text.
 */
module JsonBytes {
  import opened Values
  import Utf8

  /** The codec names `json.detect_encoding` returns. */
  datatype Encoding =
    | Utf8Plain   // 'utf-8'
    | Utf8Sig     // 'utf-8-sig'
    | Utf16       // 'utf-16', byte order from the BOM
    | Utf16Be     // 'utf-16-be'
    | Utf16Le     // 'utf-16-le'
    | Utf32       // 'utf-32', byte order from the BOM
    | Utf32Be     // 'utf-32-be'
    | Utf32Le     // 'utf-32-le'

  predicate IsWide(e: Encoding)
  {
    !e.Utf8Plain? && !e.Utf8Sig?
  }

  predicate StartsWith(b: seq<byte>, prefix: seq<byte>)
  {
    |prefix| <= |b| && b[..|prefix|] == prefix
  }

  /** The byte order marks `detect_encoding` looks for, `codecs.BOM_*`. */
  const Bom32Be: seq<byte> := [0x00, 0x00, 0xFE, 0xFF]
  const Bom32Le: seq<byte> := [0xFF, 0xFE, 0x00, 0x00]
  const Bom16Be: seq<byte> := [0xFE, 0xFF]
  const Bom16Le: seq<byte> := [0xFF, 0xFE]
  const Bom8: seq<byte> := [0xEF, 0xBB, 0xBF]

  predicate HasBom(b: seq<byte>)
  {
    StartsWith(b, Bom32Be) || StartsWith(b, Bom32Le) || StartsWith(b, Bom16Be)
    || StartsWith(b, Bom16Le) || StartsWith(b, Bom8)
  }

  /**
   `json.detect_encoding(b)`. Plain UTF-8 is chosen exactly when there is
   no byte order mark and, for inputs of two or of at least four bytes,
   neither of the first two bytes is zero.
   */
  function Detect(b: seq<byte>): (r: Encoding)
    ensures r.Utf8Plain? <==> !HasBom(b) && (|b| == 2 || |b| >= 4 ==> b[0] != 0 && b[1] != 0)
    ensures r.Utf8Sig? <==> StartsWith(b, Bom8)
    ensures r.Utf16? <==> !StartsWith(b, Bom32Le) && (StartsWith(b, Bom16Be) || StartsWith(b, Bom16Le))
  {
    if StartsWith(b, Bom32Be) || StartsWith(b, Bom32Le) then Utf32
    else if StartsWith(b, Bom16Be) || StartsWith(b, Bom16Le) then Utf16
    else if StartsWith(b, Bom8) then Utf8Sig
    else if |b| >= 4 then
      if b[0] == 0 then (if b[1] != 0 then Utf16Be else Utf32Be)
      else if b[1] == 0 then (if b[2] != 0 || b[3] != 0 then Utf16Le else Utf32Le)
      else Utf8Plain
    else if |b| == 2 then
      if b[0] == 0 then Utf16Be
      else if b[1] == 0 then Utf16Le
      else Utf8Plain
    else Utf8Plain
  }

  /**
   `b.decode(detect_encoding(b), 'surrogatepass')`. The two UTF-8 codecs
   are modelled; the UTF-16 and UTF-32 decoders are the parameter `wide`.
   */
  function Decode(b: seq<byte>, wide: (Encoding, seq<byte>) -> Option<string>): (r: Option<string>)
    ensures !IsWide(Detect(b)) ==> r.Some? ==> Utf8.Encode(r.value) == (if Detect(b).Utf8Sig? then b[3..] else b)
    ensures IsWide(Detect(b)) ==> r == wide(Detect(b), b)
  {
    match Detect(b)
    case Utf8Plain => DecodedEncodes(b); Utf8.Decode(b)
    case Utf8Sig => DecodedEncodes(b[3..]); Utf8.Decode(b[3..])
    case _ => wide(Detect(b), b)
  }

  /** Strict UTF-8 decoding only accepts the encoding of what it returns. */
  lemma DecodedEncodes(b: seq<byte>)
    ensures Utf8.Decode(b).Some? ==> Utf8.Encode(Utf8.Decode(b).value) == b
  {
    if Utf8.Decode(b).Some? {
      Utf8.EncodeDecode(b);
    }
  }

  /** A text behind a UTF-8 byte order mark is read back whatever it holds. */
  lemma {:induction false} DecodeBom(text: string, wide: (Encoding, seq<byte>) -> Option<string>)
    ensures Decode(Bom8 + Utf8.Encode(text), wide) == Some(text)
  {
    var b := Bom8 + Utf8.Encode(text);
    assert b[..3] == Bom8;
    assert b[0] == 0xEF && b[..2][0] == 0xEF;
    assert |b| < 4 || (b[..4] != Bom32Be && b[..4] != Bom32Le);
    assert Detect(b) == Utf8Sig;
    assert b[3..] == Utf8.Encode(text);
    Utf8.DecodeEncode(text);
  }

  /** The first byte of a character's encoding is zero only for NUL. */
  lemma LeadByte(c: char)
    ensures Utf8.EncodeChar(c)[0] == 0 <==> c == '\0'
    ensures Utf8.EncodeChar(c)[0] < 0xF5
  {
  }

  /**
   A text whose first character is ASCII other than NUL and whose second
   character is not NUL is read as plain UTF-8: JSON that opens with `{`,
   `[`, a quote, a digit or white space is.
   */
  lemma {:induction false} DecodePlain(text: string, wide: (Encoding, seq<byte>) -> Option<string>)
    requires |text| >= 1 && 0 < text[0] as int < 0x80
    requires |text| >= 2 ==> text[1] != '\0'
    ensures Detect(Utf8.Encode(text)) == Utf8Plain
    ensures Decode(Utf8.Encode(text), wide) == Some(text)
  {
    var b := Utf8.Encode(text);
    assert b == Utf8.EncodeChar(text[0]) + Utf8.Encode(text[1..]);
    assert Utf8.EncodeChar(text[0]) == [text[0] as int];
    assert b[0] == text[0] as int;
    if |text| >= 2 {
      assert Utf8.Encode(text[1..]) == Utf8.EncodeChar(text[1]) + Utf8.Encode(text[2..]);
      LeadByte(text[1]);
      assert b[1] == Utf8.EncodeChar(text[1])[0];
      assert b[1] != 0xFE && b[1] != 0xFF;
    }
    assert !HasBom(b) by {
      assert b[0] != 0 && b[0] != 0xFE && b[0] != 0xFF && b[0] != 0xEF;
    }
    Utf8.DecodeEncode(text);
  }
}
