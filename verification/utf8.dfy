/**
 UTF-8 as Python's `str.encode()` and strict `bytes.decode()` use it.
 Dafny characters are Unicode scalar values, so every string is encodable.
 */
module Utf8 {
  import opened Values

  /** The UTF-8 bytes of one scalar value. */
  function EncodeChar(c: char): (r: seq<byte>)
    ensures 1 <= |r| <= 4
    ensures |r| == 1 <==> c as int < 0x80
  {
    var n := c as int;
    if n < 0x80 then [n]
    else if n < 0x800 then [0xC0 + n / 64, 0x80 + n % 64]
    else if n < 0x1_0000 then [0xE0 + n / 4096, 0x80 + (n / 64) % 64, 0x80 + n % 64]
    else [0xF0 + n / 0x4_0000, 0x80 + (n / 4096) % 64, 0x80 + (n / 64) % 64, 0x80 + n % 64]
  }

  /** `s.encode()`. */
  function Encode(s: string): (r: seq<byte>)
    ensures |s| <= |r| <= 4 * |s|
    decreases |s|
  {
    if s == [] then [] else EncodeChar(s[0]) + Encode(s[1..])
  }

  predicate IsAscii(s: string)
  {
    forall i :: 0 <= i < |s| ==> s[i] as int < 0x80
  }

  lemma {:induction false} EncodeConcat(a: string, b: string)
    ensures Encode(a + b) == Encode(a) + Encode(b)
    decreases |a|
  {
    if a != [] {
      EncodeConcat(a[1..], b);
      assert (a + b)[0] == a[0];
      assert (a + b)[1..] == a[1..] + b;
    } else {
      assert a + b == b;
    }
  }

  /** ASCII text encodes to one byte per character, each its code point. */
  lemma {:induction false} EncodeAscii(s: string)
    requires IsAscii(s)
    ensures |Encode(s)| == |s|
    ensures forall i :: 0 <= i < |s| ==> Encode(s)[i] == s[i] as int
    decreases |s|
  {
    if s != [] {
      assert s[0] as int < 0x80;
      EncodeAscii(s[1..]);
    }
  }

  predicate IsContinuation(b: byte)
  {
    0x80 <= b < 0xC0
  }

  /**
   The first character of `bs` and the number of bytes it occupies, or `None`
   when `bs` does not start with a well-formed UTF-8 sequence (overlong forms,
   surrogates and values above U+10FFFF are refused, as the strict decoder does).
   */
  function DecodeFirst(bs: seq<byte>): (r: Option<(char, nat)>)
    requires bs != []
    ensures r.Some? ==> 1 <= r.value.1 <= |bs|
  {
    var b0 := bs[0] as int;
    if b0 < 0x80 then Some((b0 as char, 1))
    else if 0xC2 <= b0 <= 0xDF then
      if |bs| >= 2 && IsContinuation(bs[1]) then
        Some((((b0 - 0xC0) * 64 + (bs[1] as int - 0x80)) as char, 2))
      else None
    else if 0xE0 <= b0 <= 0xEF then
      var lo := if b0 == 0xE0 then 0xA0 else 0x80;
      var hi := if b0 == 0xED then 0xA0 else 0xC0;
      if |bs| >= 3 && lo <= bs[1] < hi && IsContinuation(bs[2]) then
        Some((((b0 - 0xE0) * 4096 + (bs[1] as int - 0x80) * 64 + (bs[2] as int - 0x80)) as char, 3))
      else None
    else if 0xF0 <= b0 <= 0xF4 then
      var lo := if b0 == 0xF0 then 0x90 else 0x80;
      var hi := if b0 == 0xF4 then 0x90 else 0xC0;
      if |bs| >= 4 && lo <= bs[1] < hi && IsContinuation(bs[2]) && IsContinuation(bs[3]) then
        Some((((b0 - 0xF0) * 0x4_0000 + (bs[1] as int - 0x80) * 4096 + (bs[2] as int - 0x80) * 64 + (bs[3] as int - 0x80)) as char, 4))
      else None
    else None
  }

  /** `bs.decode()`; `None` is the `UnicodeDecodeError`. */
  function Decode(bs: seq<byte>): Option<string>
    decreases |bs|
  {
    if bs == [] then Some([])
    else match DecodeFirst(bs)
      case None => None
      case Some((c, k)) =>
        match Decode(bs[k..])
        case None => None
        case Some(rest) => Some([c] + rest)
  }

  lemma DecodeFirstEncode(c: char, rest: seq<byte>)
    ensures DecodeFirst(EncodeChar(c) + rest) == Some((c, |EncodeChar(c)|))
  {
    var n := c as int;
    if n < 0x80 {
    } else if n < 0x800 {
      DecodeFirstTwo(c, rest);
    } else if n < 0x1_0000 {
      DecodeFirstThree(c, rest);
    } else {
      DecodeFirstFour(c, rest);
    }
  }

  lemma DecodeFirstTwo(c: char, rest: seq<byte>)
    requires 0x80 <= c as int < 0x800
    ensures DecodeFirst(EncodeChar(c) + rest) == Some((c, |EncodeChar(c)|))
  {
    var n := c as int;
    assert (n / 64) * 64 + n % 64 == n;
  }

  lemma DecodeFirstThree(c: char, rest: seq<byte>)
    requires 0x800 <= c as int < 0x1_0000
    ensures DecodeFirst(EncodeChar(c) + rest) == Some((c, |EncodeChar(c)|))
  {
    var n := c as int;
    assert (n / 4096) * 4096 + ((n / 64) % 64) * 64 + n % 64 == n;
    assert n / 4096 == 0 ==> (n / 64) % 64 >= 32;
    assert n / 4096 == 13 ==> (n / 64) % 64 < 32;
  }

  lemma DecodeFirstFour(c: char, rest: seq<byte>)
    requires 0x1_0000 <= c as int
    ensures DecodeFirst(EncodeChar(c) + rest) == Some((c, |EncodeChar(c)|))
  {
    FourDigits(c as int);
  }

  /** The base-64 digits of a supplementary code point and the range checks they pass. */
  lemma FourDigits(n: int)
    requires 0x1_0000 <= n < 0x11_0000
    ensures (n / 0x4_0000) * 0x4_0000 + ((n / 4096) % 64) * 4096 + ((n / 64) % 64) * 64 + n % 64 == n
    ensures n / 0x4_0000 <= 4
    ensures n / 0x4_0000 == 0 ==> (n / 4096) % 64 >= 16
    ensures n / 0x4_0000 == 4 ==> (n / 4096) % 64 < 16
  {
  }

  /** Decoding what was encoded gives the text back. */
  lemma {:induction false} DecodeEncode(s: string)
    ensures Decode(Encode(s)) == Some(s)
    decreases |s|
  {
    if s != [] {
      var e := EncodeChar(s[0]);
      DecodeFirstEncode(s[0], Encode(s[1..]));
      DecodeEncode(s[1..]);
      assert Encode(s)[|e|..] == Encode(s[1..]);
      assert s == [s[0]] + s[1..];
    }
  }

  /** A well-formed first sequence is the encoding of the character it decodes to. */
  lemma EncodeDecodeFirst(bs: seq<byte>)
    requires bs != [] && DecodeFirst(bs).Some?
    ensures EncodeChar(DecodeFirst(bs).value.0) == bs[..DecodeFirst(bs).value.1]
  {
    var b0 := bs[0] as int;
    if 0x80 <= b0 <= 0xDF {
      EncodeDecodeTwo(bs);
    } else if 0xE0 <= b0 <= 0xEF {
      EncodeDecodeThree(bs);
    } else if 0xF0 <= b0 {
      EncodeDecodeFour(bs);
    }
  }

  lemma EncodeDecodeTwo(bs: seq<byte>)
    requires bs != [] && DecodeFirst(bs).Some? && 0xC2 <= bs[0] <= 0xDF
    ensures EncodeChar(DecodeFirst(bs).value.0) == bs[..2]
  {
    var n := DecodeFirst(bs).value.0 as int;
    var d0, d1 := bs[0] as int - 0xC0, bs[1] as int - 0x80;
    assert n == d0 * 64 + d1;
    assert n / 64 == d0 && n % 64 == d1;
  }

  lemma EncodeDecodeThree(bs: seq<byte>)
    requires bs != [] && DecodeFirst(bs).Some? && 0xE0 <= bs[0] <= 0xEF
    ensures EncodeChar(DecodeFirst(bs).value.0) == bs[..3]
  {
    var n := DecodeFirst(bs).value.0 as int;
    var d0, d1, d2 := bs[0] as int - 0xE0, bs[1] as int - 0x80, bs[2] as int - 0x80;
    var m := d0 * 64 + d1;
    assert n == m * 64 + d2;
    assert n / 64 == m && n % 64 == d2;
    assert m / 64 == d0 && m % 64 == d1;
    assert n == d0 * 4096 + (d1 * 64 + d2) && 0 <= d1 * 64 + d2 < 4096;
    assert n / 4096 == d0;
  }

  lemma EncodeDecodeFour(bs: seq<byte>)
    requires bs != [] && DecodeFirst(bs).Some? && 0xF0 <= bs[0]
    ensures EncodeChar(DecodeFirst(bs).value.0) == bs[..4]
  {
    var n := DecodeFirst(bs).value.0 as int;
    var d0, d1, d2, d3 := bs[0] as int - 0xF0, bs[1] as int - 0x80, bs[2] as int - 0x80, bs[3] as int - 0x80;
    var m1 := d0 * 64 + d1;
    var m2 := m1 * 64 + d2;
    assert n == m2 * 64 + d3;
    assert n / 64 == m2 && n % 64 == d3;
    assert m2 / 64 == m1 && m2 % 64 == d2;
    assert m1 / 64 == d0 && m1 % 64 == d1;
    assert n == m1 * 4096 + (d2 * 64 + d3) && 0 <= d2 * 64 + d3 < 4096;
    assert n / 4096 == m1;
    assert n == d0 * 0x4_0000 + (d1 * 4096 + d2 * 64 + d3) && 0 <= d1 * 4096 + d2 * 64 + d3 < 0x4_0000;
    assert n / 0x4_0000 == d0;
  }

  /** The strict decoder accepts only encodings: what it returns encodes back to its input. */
  lemma {:induction false} EncodeDecode(bs: seq<byte>)
    ensures Decode(bs).Some? ==> Encode(Decode(bs).value) == bs
    decreases |bs|
  {
    if bs != [] && Decode(bs).Some? {
      var (c, k) := DecodeFirst(bs).value;
      EncodeDecodeFirst(bs);
      EncodeDecode(bs[k..]);
      var s := Decode(bs).value;
      assert s == [c] + Decode(bs[k..]).value;
      assert s[0] == c && s[1..] == Decode(bs[k..]).value;
      assert bs == bs[..k] + bs[k..];
    }
  }
}
