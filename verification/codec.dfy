/**
 The wire envelope of the encrypted CoAP protocol:
   key ++ HEX(AES-CBC(PKCS7(utf8(payload)))) ++ HEX(SHA256(key ++ that hex))
 where the 8-character `key` also selects the AES key and IV through MD5.
 MD5, SHA-256 and AES-128-CBC are library calls and enter as parameters.
 */
module Codec {
  import opened Values
  import opened Hex
  import Utf8
  import Pkcs7

  /** The fixed secret mixed into every cipher derivation. */
  const SecretKey: string := "JiangPan"

  /** Characters of the client key at the front of an envelope. */
  const KeyLength: nat := 8
  /** Characters of the SHA-256 hex digest at the end of an envelope. */
  const DigestLength: nat := 64

  /** The hash and cipher functions of the cryptography library. */
  datatype Primitives = Primitives(
    md5: seq<byte> -> seq<byte>,
    sha256: seq<byte> -> seq<byte>,
    cbcEncrypt: (seq<byte>, seq<byte>, seq<byte>) -> seq<byte>,
    cbcDecrypt: (seq<byte>, seq<byte>, seq<byte>) -> seq<byte>)

  /**
   What the model relies on from the library: digest sizes, and that CBC with
   a 16-byte key and IV preserves the length of block-aligned data and that
   decryption undoes encryption.
   */
  ghost predicate Sound(p: Primitives)
  {
    (forall m :: |p.md5(m)| == 16) &&
    (forall m :: |p.sha256(m)| == 32) &&
    (forall k, iv, m :: |k| == 16 && |iv| == 16 && |m| % 16 == 0 ==>
       |p.cbcEncrypt(k, iv, m)| == |m| && p.cbcDecrypt(k, iv, p.cbcEncrypt(k, iv, m)) == m) &&
    (forall k, iv, m :: |k| == 16 && |iv| == 16 && |m| % 16 == 0 ==> |p.cbcDecrypt(k, iv, m)| == |m|)
  }

  /** `hashlib.md5((SECRET_KEY + key).encode()).hexdigest().upper()`. */
  function KeyAndIvText(p: Primitives, key: string): (r: string)
    requires Sound(p)
    ensures |r| == 32 && IsUpperHex(r)
    ensures r == HexUpper(p.md5(Utf8.Encode(SecretKey + key)))
  {
    var digest := p.md5(Utf8.Encode(SecretKey + key));
    UpperOfHexLower(digest);
    AsciiUpper(HexLower(digest))
  }

  /** The AES key and IV: the UTF-8 bytes of the two 16-character halves of the hex digest. */
  datatype Cipher = Cipher(key: seq<byte>, iv: seq<byte>)

  function CreateCipher(p: Primitives, key: string): (c: Cipher)
    requires Sound(p)
    ensures |c.key| == 16 && |c.iv| == 16
    ensures Utf8.Encode(KeyAndIvText(p, key)) == c.key + c.iv
  {
    var text := KeyAndIvText(p, key);
    var half := |text| / 2;
    var keyText := text[0..half];
    var ivText := text[half..];
    AsciiHex(keyText);
    AsciiHex(ivText);
    Utf8.EncodeAscii(keyText);
    Utf8.EncodeAscii(ivText);
    assert text == keyText + ivText;
    Utf8.EncodeConcat(keyText, ivText);
    Cipher(Utf8.Encode(keyText), Utf8.Encode(ivText))
  }

  lemma AsciiHex(s: string)
    requires IsUpperHex(s)
    ensures Utf8.IsAscii(s)
  {
    forall i | 0 <= i < |s| ensures s[i] as int < 0x80 {
      assert IsUpperHexDigit(s[i]);
    }
  }

  /** `hashlib.sha256((key + ciphertext).encode()).hexdigest().upper()`. */
  function DigestText(p: Primitives, key: string, ciphertext: string): (r: string)
    requires Sound(p)
    ensures |r| == DigestLength && IsUpperHex(r)
    ensures r == HexUpper(p.sha256(Utf8.Encode(key + ciphertext)))
  {
    var digest := p.sha256(Utf8.Encode(key + ciphertext));
    UpperOfHexLower(digest);
    AsciiUpper(HexLower(digest))
  }

  /** The ciphertext hex of `payload` under `key`. */
  function CiphertextText(p: Primitives, key: string, payload: string): (r: string)
    requires Sound(p)
    ensures |r| > 0 && |r| % 32 == 0 && IsUpperHex(r)
    ensures r == HexUpper(p.cbcEncrypt(CreateCipher(p, key).key, CreateCipher(p, key).iv, Pkcs7.Pad(Utf8.Encode(payload))))
  {
    var padded := Pkcs7.Pad(Utf8.Encode(payload));
    var c := CreateCipher(p, key);
    var ct := p.cbcEncrypt(c.key, c.iv, padded);
    CbcLength(p, c, padded);
    UpperHexOfBlocks(ct);
    AsciiUpper(HexLower(ct))
  }

  lemma UpperHexOfBlocks(bs: seq<byte>)
    requires |bs| > 0 && |bs| % 16 == 0
    ensures AsciiUpper(HexLower(bs)) == HexUpper(bs)
    ensures |HexUpper(bs)| > 0 && |HexUpper(bs)| % 32 == 0 && IsUpperHex(HexUpper(bs))
  {
    UpperOfHexLower(bs);
  }

  lemma CbcLength(p: Primitives, c: Cipher, m: seq<byte>)
    requires Sound(p) && |c.key| == 16 && |c.iv| == 16 && |m| % 16 == 0
    ensures |p.cbcEncrypt(c.key, c.iv, m)| == |m| && |p.cbcDecrypt(c.key, c.iv, m)| == |m|
    ensures p.cbcDecrypt(c.key, c.iv, p.cbcEncrypt(c.key, c.iv, m)) == m
  {
  }

  /**
   `_encrypt_payload` once the next key is chosen: the key, the upper-case hex
   of the ciphertext, and the digest of both.
   */
  function Seal(p: Primitives, key: string, payload: string): (e: string)
    requires Sound(p)
    ensures |e| == |key| + |CiphertextText(p, key, payload)| + DigestLength
    ensures e[..|key|] == key
    ensures e[|e| - DigestLength..] == DigestText(p, key, e[|key|..|e| - DigestLength])
    ensures IsUpperHex(e[|key|..])
  {
    var ct := CiphertextText(p, key, payload);
    var e := key + ct + DigestText(p, key, ct);
    assert e[|key|..|e| - DigestLength] == ct;
    assert e[|key|..] == ct + DigestText(p, key, ct);
    e
  }

  /** A Python slice index: negative counts from the end, then clamped to the sequence. */
  function SliceIndex(i: int, n: nat): (r: nat)
    ensures r <= n
  {
    if i < 0 then (if i + n < 0 then 0 else i + n) else if i > n then n else i
  }

  /** `s[start:stop]` with Python's index rules. */
  function PySlice(s: string, start: int, stop: int): (r: string)
    ensures |r| <= |s|
  {
    var a := SliceIndex(start, |s|);
    var b := SliceIndex(stop, |s|);
    if a < b then s[a..b] else []
  }

  /** The three fields `_decrypt_payload` cuts an envelope into. */
  function EnvelopeKey(e: string): string { PySlice(e, 0, KeyLength) }
  function EnvelopeCiphertext(e: string): string { PySlice(e, KeyLength, -(DigestLength as int)) }
  function EnvelopeDigest(e: string): string { PySlice(e, -(DigestLength as int), |e|) }

  /** Why `_decrypt_payload` raised. */
  datatype OpenError =
    | DigestMismatch
    | NotHex
    | NotBlockAligned
    | BadPadding(reason: Pkcs7.PadError)
    | NotUtf8

  /**
   `_decrypt_payload`: check the digest first, then decrypt with the cipher
   the envelope's own key selects, unpad and decode.
   */
  function Open(p: Primitives, e: string): (r: Result<string, OpenError>)
    requires Sound(p)
  {
    var key := EnvelopeKey(e);
    var ct := EnvelopeCiphertext(e);
    if EnvelopeDigest(e) != DigestText(p, key, ct) then Err(DigestMismatch)
    else match FromHex(ct)
      case None => Err(NotHex)
      case Some(bytes) =>
        if |bytes| % 16 != 0 then Err(NotBlockAligned)
        else
          var c := CreateCipher(p, key);
          match Pkcs7.Unpad(p.cbcDecrypt(c.key, c.iv, bytes))
          case Err(reason) => Err(BadPadding(reason))
          case Ok(plain) =>
            match Utf8.Decode(plain)
            case None => Err(NotUtf8)
            case Some(text) => Ok(text)
  }

  /** An envelope made with an 8-character key is cut back into exactly its parts. */
  lemma SplitSeal(p: Primitives, key: string, payload: string)
    requires Sound(p) && |key| == KeyLength
    ensures EnvelopeKey(Seal(p, key, payload)) == key
    ensures EnvelopeCiphertext(Seal(p, key, payload)) == CiphertextText(p, key, payload)
    ensures EnvelopeDigest(Seal(p, key, payload)) == DigestText(p, key, CiphertextText(p, key, payload))
  {
    var e := Seal(p, key, payload);
    var ct := CiphertextText(p, key, payload);
    assert e[|key|..|e| - DigestLength] == ct;
  }

  /** Decrypting an envelope gives back the payload it was made from. */
  lemma OpenSeal(p: Primitives, key: string, payload: string)
    requires Sound(p) && |key| == KeyLength
    ensures Open(p, Seal(p, key, payload)) == Ok(payload)
  {
    var e := Seal(p, key, payload);
    SplitSeal(p, key, payload);
    var padded := Pkcs7.Pad(Utf8.Encode(payload));
    var c := CreateCipher(p, key);
    var ct := p.cbcEncrypt(c.key, c.iv, padded);
    UpperOfHexLower(ct);
    FromHexUpper(ct);
    Pkcs7.UnpadPad(Utf8.Encode(payload));
    Utf8.DecodeEncode(payload);
  }

  /** The digest is checked before anything else: a mismatch is reported whatever follows it. */
  lemma OpenDigestFirst(p: Primitives, e: string)
    requires Sound(p)
    ensures Open(p, e) == Err(DigestMismatch) <==>
              EnvelopeDigest(e) != DigestText(p, EnvelopeKey(e), EnvelopeCiphertext(e))
  {
  }

  /**
   Every accepted envelope has the sealed layout: an 8-character key, a
   non-empty ciphertext field, and the digest of the two at the end.
   */
  lemma OpenAccepted(p: Primitives, e: string)
    requires Sound(p) && Open(p, e).Ok?
    ensures |e| > KeyLength + DigestLength
    ensures e == e[..KeyLength] + e[KeyLength..|e| - DigestLength] + DigestText(p, e[..KeyLength], e[KeyLength..|e| - DigestLength])
  {
    OpenCiphertextNonEmpty(p, e);
    EnvelopeFields(e);
  }

  /** With a non-empty ciphertext field, the three fields are consecutive slices that make up the envelope. */
  lemma EnvelopeFields(e: string)
    requires |EnvelopeCiphertext(e)| > 0
    ensures |e| > KeyLength + DigestLength
    ensures EnvelopeKey(e) == e[..KeyLength]
    ensures EnvelopeCiphertext(e) == e[KeyLength..|e| - DigestLength]
    ensures EnvelopeDigest(e) == e[|e| - DigestLength..]
    ensures e == EnvelopeKey(e) + EnvelopeCiphertext(e) + EnvelopeDigest(e)
  {
    assert e == e[..KeyLength] + e[KeyLength..|e| - DigestLength] + e[|e| - DigestLength..];
  }

  lemma OpenCiphertextNonEmpty(p: Primitives, e: string)
    requires Sound(p) && Open(p, e).Ok?
    ensures EnvelopeDigest(e) == DigestText(p, EnvelopeKey(e), EnvelopeCiphertext(e))
    ensures |EnvelopeCiphertext(e)| > 0
  {
    var ct := EnvelopeCiphertext(e);
    var bytes := FromHex(ct).value;
    var c := CreateCipher(p, EnvelopeKey(e));
    CbcLength(p, c, bytes);
  }

  /** Changing any character of a sealed envelope's digest makes decryption refuse it. */
  lemma TamperedDigest(p: Primitives, key: string, payload: string, i: nat, ch: char)
    requires Sound(p) && |key| == KeyLength
    requires |Seal(p, key, payload)| - DigestLength <= i < |Seal(p, key, payload)|
    requires Seal(p, key, payload)[i] != ch
    ensures Open(p, Seal(p, key, payload)[i := ch]) == Err(DigestMismatch)
  {
    var e := Seal(p, key, payload);
    var t := e[i := ch];
    SplitSeal(p, key, payload);
    assert EnvelopeKey(t) == EnvelopeKey(e);
    assert EnvelopeCiphertext(t) == EnvelopeCiphertext(e);
    assert EnvelopeDigest(t)[i - (|e| - DigestLength)] == ch;
    assert EnvelopeDigest(e)[i - (|e| - DigestLength)] != ch;
  }

  /**
   Changing any character in front of the digest (in the key or the
   ciphertext field) changes the hashed text, and decryption then refuses
   the envelope unless SHA-256 maps the old and the new text to the same
   digest.
   */
  lemma TamperedKeyOrCiphertext(p: Primitives, key: string, payload: string, i: nat, ch: char)
    requires Sound(p) && |key| == KeyLength
    requires i < |Seal(p, key, payload)| - DigestLength
    requires Seal(p, key, payload)[i] != ch
    ensures var e := Seal(p, key, payload);
            var t := e[i := ch];
            var n := |e| - DigestLength;
            t[..n] != e[..n]
            && (Open(p, t) == Err(DigestMismatch)
                || p.sha256(Utf8.Encode(t[..n])) == p.sha256(Utf8.Encode(e[..n])))
  {
    var e := Seal(p, key, payload);
    var t := e[i := ch];
    var n := |e| - DigestLength;
    SplitSeal(p, key, payload);
    var ct := CiphertextText(p, key, payload);
    EnvelopeFields(e);
    assert e[..n] == key + ct;
    assert t[..n][i] != e[..n][i];
    assert |EnvelopeCiphertext(t)| > 0 by {
      assert EnvelopeCiphertext(t) == t[KeyLength..n];
    }
    EnvelopeFields(t);
    assert EnvelopeKey(t) + EnvelopeCiphertext(t) == t[..n];
    assert EnvelopeDigest(t) == EnvelopeDigest(e);
    if Open(p, t) != Err(DigestMismatch) {
      OpenDigestFirst(p, t);
      HexUpperInjective(p.sha256(Utf8.Encode(t[..n])), p.sha256(Utf8.Encode(e[..n])));
    }
  }

  lemma HexUpperInjective(a: seq<byte>, b: seq<byte>)
    requires HexUpper(a) == HexUpper(b)
    ensures a == b
  {
    FromHexUpper(a);
    FromHexUpper(b);
  }
}
