/**
 Base16 text as the protocol client uses it: `bytes.hex()`, `str.upper()`,
 `bytes.fromhex`, `int(s, 16)` and `int.to_bytes(4, "big")`.
 */
module Hex {
  import opened Values

  /** The value of a hexadecimal digit of either case. */
  function HexValue(c: char): Option<nat>
  {
    if '0' <= c <= '9' then Some(c as int - '0' as int)
    else if 'a' <= c <= 'f' then Some(c as int - 'a' as int + 10)
    else if 'A' <= c <= 'F' then Some(c as int - 'A' as int + 10)
    else None
  }

  predicate IsUpperHexDigit(c: char)
  {
    '0' <= c <= '9' || 'A' <= c <= 'F'
  }

  predicate IsUpperHex(s: string)
  {
    forall i :: 0 <= i < |s| ==> IsUpperHexDigit(s[i])
  }

  function UpperDigit(d: nat): (c: char)
    requires d < 16
    ensures IsUpperHexDigit(c) && HexValue(c) == Some(d)
  {
    if d < 10 then ('0' as int + d) as char else ('A' as int + d - 10) as char
  }

  function LowerDigit(d: nat): (c: char)
    requires d < 16
    ensures HexValue(c) == Some(d)
  {
    if d < 10 then ('0' as int + d) as char else ('a' as int + d - 10) as char
  }

  /** `bytes.hex()`: two lower-case digits per byte, high nibble first. */
  function HexLower(bs: seq<byte>): (s: string)
    ensures |s| == 2 * |bs|
  {
    if bs == [] then [] else [LowerDigit(bs[0] / 16), LowerDigit(bs[0] % 16)] + HexLower(bs[1..])
  }

  /** `bytes.hex().upper()`. */
  function HexUpper(bs: seq<byte>): (s: string)
    ensures |s| == 2 * |bs|
    ensures IsUpperHex(s)
  {
    if bs == [] then [] else [UpperDigit(bs[0] / 16), UpperDigit(bs[0] % 16)] + HexUpper(bs[1..])
  }

  /** Upper-casing the lower-case rendering gives the upper-case rendering. */
  lemma {:induction false} UpperOfHexLower(bs: seq<byte>)
    ensures AsciiUpper(HexLower(bs)) == HexUpper(bs)
    decreases |bs|
  {
    if bs != [] {
      UpperOfHexLower(bs[1..]);
      var hi, lo := bs[0] / 16, bs[0] % 16;
      AsciiUpperConcat([LowerDigit(hi), LowerDigit(lo)], HexLower(bs[1..]));
      AsciiUpperConcat([LowerDigit(hi)], [LowerDigit(lo)]);
      UpperOfLowerDigit(hi);
      UpperOfLowerDigit(lo);
      assert [LowerDigit(hi), LowerDigit(lo)] == [LowerDigit(hi)] + [LowerDigit(lo)];
    }
  }

  lemma UpperOfLowerDigit(d: nat)
    requires d < 16
    ensures AsciiUpper([LowerDigit(d)]) == [UpperDigit(d)]
  {
    assert AsciiUpper([LowerDigit(d)])[0] == UpperDigit(d);
  }

  /** ASCII-only `str.upper()`; the strings it meets here are hexadecimal text. */
  function AsciiUpper(s: string): (r: string)
    ensures |r| == |s|
    ensures forall i :: 0 <= i < |s| ==> r[i] == (if 'a' <= s[i] <= 'z' then (s[i] as int - 32) as char else s[i])
  {
    seq(|s|, i requires 0 <= i < |s| => if 'a' <= s[i] <= 'z' then (s[i] as int - 32) as char else s[i])
  }

  lemma AsciiUpperConcat(a: string, b: string)
    ensures AsciiUpper(a + b) == AsciiUpper(a) + AsciiUpper(b)
  {
    assert AsciiUpper(a + b) == AsciiUpper(a) + AsciiUpper(b);
  }

  /** The characters `bytes.fromhex` skips between digit pairs. */
  predicate IsPySpace(c: char)
  {
    c == ' ' || c == '\t' || c == '\n' || c == '\r' || c as int == 11 || c as int == 12
  }

  /**
   `bytes.fromhex(s)`: pairs of hexadecimal digits, optionally separated by
   whitespace; `None` stands for the `ValueError` it raises otherwise.
   */
  function FromHex(s: string): (r: Option<seq<byte>>)
    ensures r.Some? ==> 2 * |r.value| <= |s|
    decreases |s|
  {
    if s == [] then Some([])
    else if IsPySpace(s[0]) then FromHex(s[1..])
    else if |s| >= 2 && HexValue(s[0]).Some? && HexValue(s[1]).Some? then
      match FromHex(s[2..])
      case None => None
      case Some(rest) => Some([HexValue(s[0]).value * 16 + HexValue(s[1]).value as byte] + rest)
    else None
  }

  /** `bytes.fromhex` reads back what `bytes.hex().upper()` wrote. */
  lemma {:induction false} FromHexUpper(bs: seq<byte>)
    ensures FromHex(HexUpper(bs)) == Some(bs)
    decreases |bs|
  {
    if bs != [] {
      FromHexUpper(bs[1..]);
      var s := HexUpper(bs);
      assert s[2..] == HexUpper(bs[1..]);
      assert HexValue(s[0]) == Some(bs[0] / 16) && HexValue(s[1]) == Some(bs[0] % 16);
      assert !IsPySpace(s[0]);
      assert (bs[0] / 16) * 16 + bs[0] % 16 == bs[0];
      assert FromHex(s) == Some([bs[0]] + bs[1..]);
      assert bs == [bs[0]] + bs[1..];
    }
  }

  /**
   Conversely, an upper-case hexadecimal string of even length is the
   rendering of the bytes `bytes.fromhex` reads from it.
   */
  lemma {:induction false} HexUpperFromHex(s: string)
    requires IsUpperHex(s) && |s| % 2 == 0
    ensures FromHex(s).Some? && HexUpper(FromHex(s).value) == s
    decreases |s|
  {
    if s != [] {
      assert IsUpperHexDigit(s[0]) && IsUpperHexDigit(s[1]);
      assert !IsPySpace(s[0]);
      assert IsUpperHex(s[2..]) by {
        forall i | 0 <= i < |s[2..]| ensures IsUpperHexDigit(s[2..][i]) {
          assert s[2..][i] == s[i + 2];
        }
      }
      HexUpperFromHex(s[2..]);
      UpperDigitOf(s[0]);
      UpperDigitOf(s[1]);
      var hi := HexValue(s[0]).value;
      var lo := HexValue(s[1]).value;
      var b: byte := hi * 16 + lo;
      var rest := FromHex(s[2..]).value;
      assert FromHex(s) == Some([b] + rest);
      PairDigits(hi, lo);
      assert ([b] + rest)[1..] == rest;
      assert HexUpper([b] + rest) == [UpperDigit(hi), UpperDigit(lo)] + HexUpper(rest);
      assert s == [s[0], s[1]] + s[2..];
    }
  }

  /** An upper-case digit is the rendering of its own value. */
  lemma UpperDigitOf(c: char)
    requires IsUpperHexDigit(c)
    ensures HexValue(c).Some? && HexValue(c).value < 16 && UpperDigit(HexValue(c).value) == c
  {
  }

  lemma PairDigits(hi: nat, lo: nat)
    requires hi < 16 && lo < 16
    ensures 0 <= hi * 16 + lo < 256
    ensures (hi * 16 + lo) / 16 == hi && (hi * 16 + lo) % 16 == lo
  {
  }

  /** Big-endian value of a byte string. */
  function BigEndian(bs: seq<byte>): nat
    decreases |bs|
  {
    if bs == [] then 0 else BigEndian(bs[..|bs| - 1]) * 256 + bs[|bs| - 1]
  }

  /** Value of a non-empty string of hexadecimal digits, most significant first. */
  function HexDigitsValue(s: string): nat
    requires forall i :: 0 <= i < |s| ==> HexValue(s[i]).Some?
    decreases |s|
  {
    if s == [] then 0
    else
      assert HexValue(s[|s| - 1]).Some?;
      HexDigitsValue(s[..|s| - 1]) * 16 + HexValue(s[|s| - 1]).value
  }

  /**
   `int(s, 16)` for a non-empty string of ASCII hexadecimal digits; every
   other string is treated as the `ValueError` (or `TypeError`) case.
   */
  function ParseHex(s: string): (r: Option<nat>)
    ensures r.Some? <==> |s| > 0 && forall i :: 0 <= i < |s| ==> HexValue(s[i]).Some?
  {
    if |s| > 0 && forall i :: 0 <= i < |s| ==> HexValue(s[i]).Some? then Some(HexDigitsValue(s)) else None
  }

  /**
   The white space `int(s, base)` skips at both ends of a string: the ASCII
   `\t`, `\n`, `\v`, `\f`, `\r` and space, and the non-ASCII characters
   `str.isspace()` accepts, which CPython turns into spaces before parsing.
   The ASCII separators U+001C..U+001F count for `str.isspace()` but are
   kept by this step, so `int` rejects them.
   */
  predicate IsIntSpace(c: char)
  {
    var n := c as int;
    (9 <= n <= 13) || n == 0x20 || n == 0x85 || n == 0xA0 || n == 0x1680
    || (0x2000 <= n <= 0x200A) || n == 0x2028 || n == 0x2029 || n == 0x202F || n == 0x205F || n == 0x3000
  }

  /** `s` without its leading white space. */
  function LStrip(s: string): (r: string)
    ensures |r| <= |s| && r == s[|s| - |r|..]
    ensures r == [] || !IsIntSpace(r[0])
    ensures forall i :: 0 <= i < |s| - |r| ==> IsIntSpace(s[i])
    decreases |s|
  {
    if s != [] && IsIntSpace(s[0]) then LStrip(s[1..]) else s
  }

  /** `s` without its trailing white space. */
  function RStrip(s: string): (r: string)
    ensures |r| <= |s| && r == s[..|r|]
    ensures r == [] || !IsIntSpace(r[|r| - 1])
    ensures forall i :: |r| <= i < |s| ==> IsIntSpace(s[i])
    decreases |s|
  {
    if s != [] && IsIntSpace(s[|s| - 1]) then RStrip(s[..|s| - 1]) else s
  }

  /** `s` with the white space `int` skips removed from both ends. */
  function Strip(s: string): (r: string)
    ensures r == [] || (!IsIntSpace(r[0]) && !IsIntSpace(r[|r| - 1]))
  {
    RStrip(LStrip(s))
  }

  /** Stripping drops white space only. */
  lemma StripKeeps(s: string, i: int)
    requires 0 <= i < |s| && !IsIntSpace(s[i])
    ensures s[i] in Strip(s)
  {
    var l := LStrip(s);
    var r := RStrip(l);
    var k := i - (|s| - |l|);
    assert 0 <= k < |l| && l[k] == s[i];
    assert k < |r| && r[k] == l[k];
  }

  /**
   The digit part `int(s, 16)` accepts: hexadecimal digits with single
   underscores between them, neither first nor last.
   */
  predicate Underscored(s: string)
  {
    |s| > 0 && s[0] != '_' && s[|s| - 1] != '_'
    && (forall i :: 0 <= i < |s| ==> s[i] == '_' || HexValue(s[i]).Some?)
    && NoDoubleUnderscore(s)
  }

  predicate NoDoubleUnderscore(s: string)
    decreases |s|
  {
    |s| < 2 || (!(s[0] == '_' && s[1] == '_') && NoDoubleUnderscore(s[1..]))
  }

  function DropUnderscores(s: string): (r: string)
    ensures forall i :: 0 <= i < |r| ==> r[i] != '_' && r[i] in s
    ensures s != [] && s[0] != '_' ==> r != [] && r[0] == s[0]
    ensures (forall i :: 0 <= i < |s| ==> s[i] != '_') ==> r == s
    decreases |s|
  {
    if s == [] then []
    else if s[0] == '_' then DropUnderscores(s[1..])
    else [s[0]] + DropUnderscores(s[1..])
  }

  /** What follows an optional `0x` or `0X` prefix and the one underscore allowed after it. */
  function AfterPrefix(u: string): (r: string)
    ensures |r| <= |u| && r == u[|u| - |r|..]
    ensures forall i :: 0 <= i < |u| - |r| ==> u[i] in "0xX_"
  {
    if |u| >= 2 && u[0] == '0' && (u[1] == 'x' || u[1] == 'X') then
      if |u| >= 3 && u[2] == '_' then u[3..] else u[2..]
    else u
  }

  /** The characters that can appear in a string `int(s, 16)` accepts, besides white space. */
  predicate IsIntHexChar(c: char)
  {
    HexValue(c).Some? || c == '+' || c == '-' || c == 'x' || c == 'X' || c == '_'
  }

  /** `t` without one leading sign. */
  function Unsigned(t: string): (r: string)
    ensures |r| <= |t| && r == t[|t| - |r|..]
    ensures forall i :: 0 <= i < |t| - |r| ==> t[i] == '+' || t[i] == '-'
  {
    if |t| > 0 && (t[0] == '+' || t[0] == '-') then t[1..] else t
  }

  /** The digits-and-underscores part of the text `int(s, 16)` reads. */
  function DigitPart(s: string): string
  {
    AfterPrefix(Unsigned(Strip(s)))
  }

  /**
   `int(s, 16)` on a string: surrounding white space, an optional sign, an
   optional `0x`/`0X` prefix, then hexadecimal digits with single
   underscores between them; `None` is the `ValueError`.
   */
  function PyIntHex(s: string): (r: Option<int>)
    ensures r.Some? ==> forall i :: 0 <= i < |s| ==> IsIntSpace(s[i]) || IsIntHexChar(s[i])
    ensures r.Some? ==> exists i :: 0 <= i < |s| && HexValue(s[i]).Some?
  {
    var body := DigitPart(s);
    if !Underscored(body) then None
    else
      DropUnderscoresHex(body);
      DigitPartAlphabet(s);
      Some(Signed(Negative(s), HexDigitsValue(DropUnderscores(body))))
  }

  /** A magnitude with a sign. */
  function Signed(negative: bool, n: nat): (r: int)
    ensures negative ==> r == -(n as int)
    ensures !negative ==> r == n
  {
    if negative then -(n as int) else n
  }

  /** Whether the text `int(s, 16)` reads starts with a minus sign. */
  predicate Negative(s: string)
  {
    var t := Strip(s);
    |t| > 0 && t[0] == '-'
  }

  lemma PyIntHexOf(s: string)
    requires Underscored(DigitPart(s))
    ensures forall i :: 0 <= i < |DropUnderscores(DigitPart(s))| ==> HexValue(DropUnderscores(DigitPart(s))[i]).Some?
    ensures PyIntHex(s) == Some(Signed(Negative(s), HexDigitsValue(DropUnderscores(DigitPart(s)))))
  {
    DropUnderscoresHex(DigitPart(s));
  }

  lemma DropUnderscoresHex(body: string)
    requires Underscored(body)
    ensures forall i :: 0 <= i < |DropUnderscores(body)| ==> HexValue(DropUnderscores(body)[i]).Some?
  {
    var d := DropUnderscores(body);
    forall i | 0 <= i < |d| ensures HexValue(d[i]).Some? {
      assert d[i] in body && d[i] != '_';
    }
  }

  /** A string whose digit part is well formed is made of white space, digits, signs, prefix letters and underscores, and holds a digit. */
  lemma DigitPartAlphabet(s: string)
    requires Underscored(DigitPart(s))
    ensures forall i :: 0 <= i < |s| ==> IsIntSpace(s[i]) || IsIntHexChar(s[i])
    ensures exists i :: 0 <= i < |s| && HexValue(s[i]).Some?
  {
    DigitPartChars(s);
    DigitPartHasDigit(s);
  }

  predicate AllIntHexChars(s: string)
  {
    forall i :: 0 <= i < |s| ==> IsIntHexChar(s[i])
  }

  /** Around a well-formed digit part there is only white space, a sign and a prefix. */
  lemma DigitPartChars(s: string)
    requires Underscored(DigitPart(s))
    ensures forall i :: 0 <= i < |s| ==> IsIntSpace(s[i]) || IsIntHexChar(s[i])
  {
    var u := Unsigned(Strip(s));
    assert AllIntHexChars(AfterPrefix(u));
    AfterPrefixChars(u);
    UnsignedChars(Strip(s));
    StripChars(s);
  }

  lemma AfterPrefixChars(u: string)
    requires AllIntHexChars(AfterPrefix(u))
    ensures AllIntHexChars(u)
  {
    var body := AfterPrefix(u);
    forall i | 0 <= i < |u| ensures IsIntHexChar(u[i]) {
      if i >= |u| - |body| {
        assert u[i] == body[i - (|u| - |body|)];
      } else {
        assert u[i] in "0xX_";
      }
    }
  }

  lemma UnsignedChars(t: string)
    requires AllIntHexChars(Unsigned(t))
    ensures AllIntHexChars(t)
  {
    var u := Unsigned(t);
    forall i | 0 <= i < |t| ensures IsIntHexChar(t[i]) {
      if i >= |t| - |u| {
        assert t[i] == u[i - (|t| - |u|)];
      }
    }
  }

  lemma StripChars(s: string)
    requires AllIntHexChars(Strip(s))
    ensures forall i :: 0 <= i < |s| ==> IsIntSpace(s[i]) || IsIntHexChar(s[i])
  {
    forall i | 0 <= i < |s| ensures IsIntSpace(s[i]) || IsIntHexChar(s[i]) {
      if !IsIntSpace(s[i]) {
        StripKeeps(s, i);
      }
    }
  }

  /** The first character of a well-formed digit part is a hex digit of `s`. */
  lemma DigitPartHasDigit(s: string)
    requires Underscored(DigitPart(s))
    ensures exists i :: 0 <= i < |s| && HexValue(s[i]).Some?
  {
    var t := Strip(s);
    var u := Unsigned(t);
    var body := AfterPrefix(u);
    assert HexValue(body[0]).Some?;
    var k := |u| - |body|;
    assert u[k] == body[0];
    var j := |t| - |u| + k;
    assert t[j] == u[k];
    assert t[j] in s;
  }

  lemma {:induction false} NoUnderscores(s: string)
    requires forall i :: 0 <= i < |s| ==> s[i] != '_'
    ensures NoDoubleUnderscore(s)
    decreases |s|
  {
    if |s| >= 2 {
      assert s[0] != '_';
      NoUnderscores(s[1..]);
    }
  }

  /** A plain string of digits is its own digit part: no white space, sign or prefix to remove. */
  lemma PlainDigitPart(s: string)
    requires ParseHex(s).Some?
    ensures Strip(s) == s && DigitPart(s) == s && Underscored(s) && DropUnderscores(s) == s
  {
    assert HexValue(s[0]).Some? && HexValue(s[|s| - 1]).Some?;
    StripSolid(s);
    PlainUnprefixed(s);
    PlainUnderscored(s);
  }

  lemma PlainUnprefixed(s: string)
    requires ParseHex(s).Some?
    ensures Unsigned(s) == s && AfterPrefix(s) == s
  {
    assert HexValue(s[0]).Some?;
    if |s| >= 2 {
      assert HexValue(s[1]).Some?;
    }
  }

  lemma PlainUnderscored(s: string)
    requires ParseHex(s).Some?
    ensures Underscored(s) && DropUnderscores(s) == s
  {
    forall i | 0 <= i < |s| ensures s[i] != '_' {
      assert HexValue(s[i]).Some?;
    }
    NoUnderscores(s);
  }

  /** On a plain string of hexadecimal digits `int(s, 16)` reads the digits and nothing else. */
  lemma PyIntHexPlain(s: string)
    requires ParseHex(s).Some?
    ensures PyIntHex(s) == Some(ParseHex(s).value as int)
  {
    PlainDigitPart(s);
  }

  /** A string that starts and ends with something other than white space is left alone by `Strip`. */
  lemma StripSolid(t: string)
    requires t != [] && !IsIntSpace(t[0]) && !IsIntSpace(t[|t| - 1])
    ensures Strip(t) == t
  {
    assert LStrip(t) == t;
    assert RStrip(t) == t;
  }

  /** A leading minus sign negates, a leading plus sign changes nothing. */
  lemma PyIntHexSigned(c: char, s: string)
    requires c == '+' || c == '-'
    requires ParseHex(s).Some?
    ensures PyIntHex([c] + s).Some?
    ensures c == '-' ==> PyIntHex([c] + s).value == -(ParseHex(s).value as int)
    ensures c == '+' ==> PyIntHex([c] + s).value == ParseHex(s).value
  {
    var t := [c] + s;
    SignedDigitPart(c, s);
    PyIntHexOf(t);
    var v := HexDigitsValue(s);
    assert ParseHex(s) == Some(v);
    assert PyIntHex(t) == Some(Signed(c == '-', v));
  }

  /** Behind a sign the digit part is the plain digits, and the sign decides the polarity. */
  lemma SignedDigitPart(c: char, s: string)
    requires c == '+' || c == '-'
    requires ParseHex(s).Some?
    ensures DigitPart([c] + s) == s && Underscored(s) && DropUnderscores(s) == s
    ensures Negative([c] + s) == (c == '-')
  {
    SignedStrip(c, s);
    SignedNegative(c, s);
    SignedUnsigned(c, s);
    PlainUnprefixed(s);
    PlainUnderscored(s);
  }

  lemma SignedNegative(c: char, s: string)
    requires c == '+' || c == '-'
    ensures Negative([c] + s) == (c == '-')
  {
    NegativeOf([c] + s);
  }

  /** Without leading white space, the sign is the first character. */
  lemma NegativeOf(t: string)
    requires t != [] && !IsIntSpace(t[0])
    ensures Negative(t) <==> t[0] == '-'
  {
    var l := LStrip(t);
    assert l == t;
    var r := RStrip(l);
    assert r[0] == t[0];
  }

  lemma SignedUnsigned(c: char, s: string)
    requires c == '+' || c == '-'
    ensures Unsigned([c] + s) == s
  {
    assert ([c] + s)[1..] == s;
  }

  lemma SignedStrip(c: char, s: string)
    requires c == '+' || c == '-'
    requires ParseHex(s).Some?
    ensures Strip([c] + s) == [c] + s
  {
    var t := [c] + s;
    assert HexValue(s[|s| - 1]).Some?;
    assert t[|t| - 1] == s[|s| - 1];
    StripSolid(t);
  }

  /** A `0x` or `0X` prefix, with or without one underscore after it, changes nothing. */
  lemma PyIntHexPrefixed(p: string, s: string)
    requires p == "0x" || p == "0X" || p == "0x_" || p == "0X_"
    requires ParseHex(s).Some?
    ensures PyIntHex(p + s).Some? && PyIntHex(p + s).value == ParseHex(s).value
  {
    PrefixedDigitPart(p, s);
    PlainDigitPart(s);
    PyIntHexOf(p + s);
    var v := HexDigitsValue(s);
    assert ParseHex(s) == Some(v);
    assert PyIntHex(p + s) == Some(Signed(false, v));
  }

  lemma PrefixedDigitPart(p: string, s: string)
    requires p == "0x" || p == "0X" || p == "0x_" || p == "0X_"
    requires ParseHex(s).Some?
    ensures DigitPart(p + s) == s && !Negative(p + s)
  {
    var t := p + s;
    assert t[|t| - 1] == s[|s| - 1];
    assert HexValue(s[|s| - 1]).Some?;
    StripSolid(t);
    PrefixDropped(p, s);
  }

  lemma PrefixDropped(p: string, s: string)
    requires p == "0x" || p == "0X" || p == "0x_" || p == "0X_"
    requires ParseHex(s).Some?
    ensures Unsigned(p + s) == p + s && AfterPrefix(p + s) == s
  {
    var t := p + s;
    assert t[0] == '0' && (t[1] == 'x' || t[1] == 'X');
    if |p| == 2 {
      assert t[2] == s[0] && HexValue(s[0]).Some?;
      assert t[2..] == s;
    } else {
      assert t[2] == '_';
      assert t[3..] == s;
    }
  }

  lemma {:induction false} LStripSpaces(pre: string, x: string)
    requires forall i :: 0 <= i < |pre| ==> IsIntSpace(pre[i])
    requires x == [] || !IsIntSpace(x[0])
    ensures LStrip(pre + x) == x
    decreases |pre|
  {
    if pre == [] {
      assert pre + x == x;
    } else {
      assert (pre + x)[0] == pre[0];
      assert (pre + x)[1..] == pre[1..] + x;
      LStripSpaces(pre[1..], x);
    }
  }

  lemma {:induction false} RStripSpaces(x: string, post: string)
    requires forall i :: 0 <= i < |post| ==> IsIntSpace(post[i])
    requires x == [] || !IsIntSpace(x[|x| - 1])
    ensures RStrip(x + post) == x
    decreases |post|
  {
    if post == [] {
      assert x + post == x;
    } else {
      var init := post[..|post| - 1];
      assert (x + post)[|x + post| - 1] == post[|post| - 1];
      assert (x + post)[..|x + post| - 1] == x + init;
      RStripSpaces(x, init);
    }
  }

  /** White space around the digits, `" 0000000A\n"` say, is stripped before they are read. */
  lemma PyIntHexPadded(pre: string, s: string, post: string)
    requires forall i :: 0 <= i < |pre| ==> IsIntSpace(pre[i])
    requires forall i :: 0 <= i < |post| ==> IsIntSpace(post[i])
    requires ParseHex(s).Some?
    ensures PyIntHex(pre + s + post) == Some(ParseHex(s).value as int)
  {
    PlainDigitPart(s);
    assert !IsIntSpace(s[0]) && !IsIntSpace(s[|s| - 1]) by {
      assert HexValue(s[0]).Some? && HexValue(s[|s| - 1]).Some?;
    }
    var t := pre + s + post;
    assert t == pre + (s + post);
    assert (s + post)[0] == s[0];
    LStripSpaces(pre, s + post);
    RStripSpaces(s, post);
    assert Strip(t) == s;
    assert DigitPart(t) == DigitPart(s);
    assert !Negative(t);
    PyIntHexOf(t);
    PyIntHexPlain(s);
  }

  /**
   The ASCII separators U+001C..U+001F are not white space to `int`: a text
   holding one is rejected wherever it stands, `"\x1c0000000A"` included.
   */
  lemma PyIntHexRejectsSeparator(pre: string, c: char, post: string)
    requires 0x1C <= c as int <= 0x1F
    ensures PyIntHex(pre + [c] + post) == None
  {
    var t := pre + [c] + post;
    assert t[|pre|] == c && !IsIntSpace(c) && !IsIntHexChar(c);
  }

  /** `int("-" + digits, 16)` is minus one for a plain digit text of value one, `"1"` or `"01"` say. */
  lemma PyIntHexMinusOne(digits: string)
    requires ParseHex(digits) == Some(1)
    ensures PyIntHex("-" + digits) == Some(-1)
  {
    PyIntHexSigned('-', digits);
    assert ['-'] + digits == "-" + digits;
  }

  function Pow256(k: nat): (p: nat)
    ensures p >= 1
  {
    if k == 0 then 1 else 256 * Pow256(k - 1)
  }

  /** The `len` low-order bytes of `n`, most significant first. */
  function BytesOf(n: nat, len: nat): (bs: seq<byte>)
    ensures |bs| == len
    ensures n < Pow256(len) ==> BigEndian(bs) == n
  {
    if len == 0 then []
    else
      var bs := BytesOf(n / 256, len - 1) + [n % 256];
      assert bs[..|bs| - 1] == BytesOf(n / 256, len - 1);
      assert n < Pow256(len) ==> n / 256 < Pow256(len - 1);
      bs
  }

  /**
   `n.to_bytes(len, "big")`: `None` is the `OverflowError` raised for
   negative values and values that need more than `len` bytes.
   */
  function ToBytes(n: int, len: nat): (r: Option<seq<byte>>)
    ensures r.Some? <==> 0 <= n < Pow256(len)
    ensures r.Some? ==> |r.value| == len && BigEndian(r.value) == n
  {
    if 0 <= n < Pow256(len) then Some(BytesOf(n, len)) else None
  }

  lemma Pow256Four()
    ensures Pow256(4) == 0x1_0000_0000
  {
    assert Pow256(2) == 0x1_0000;
  }

  /** Reading the upper-case rendering of bytes back as a number gives their big-endian value. */
  lemma {:induction false} ParseHexUpper(bs: seq<byte>)
    requires bs != []
    ensures ParseHex(HexUpper(bs)) == Some(BigEndian(bs))
    decreases |bs|
  {
    var s := HexUpper(bs);
    forall i | 0 <= i < |s| ensures HexValue(s[i]).Some? {
      assert IsUpperHexDigit(s[i]);
    }
    HexDigitsUpper(bs);
  }

  lemma {:induction false} HexDigitsUpper(bs: seq<byte>)
    ensures forall i :: 0 <= i < |HexUpper(bs)| ==> HexValue(HexUpper(bs)[i]).Some?
    ensures HexDigitsValue(HexUpper(bs)) == BigEndian(bs)
    decreases |bs|
  {
    var s := HexUpper(bs);
    UpperHexDigits(s);
    if bs != [] {
      var init := bs[..|bs| - 1];
      var b := bs[|bs| - 1];
      assert bs == init + [b];
      HexUpperSnoc(init, b);
      HexDigitsUpper(init);
      var t := HexUpper(init);
      HexDigitsAppendPair(t, b / 16, b % 16);
      assert (b / 16) * 16 + b % 16 == b;
    }
  }

  lemma UpperHexDigits(s: string)
    requires IsUpperHex(s)
    ensures forall i :: 0 <= i < |s| ==> HexValue(s[i]).Some?
  {
    forall i | 0 <= i < |s| ensures HexValue(s[i]).Some? {
      assert IsUpperHexDigit(s[i]);
    }
  }

  /** Appending two digits multiplies the value by 256 and adds theirs. */
  lemma HexDigitsAppendPair(t: string, hi: nat, lo: nat)
    requires forall i :: 0 <= i < |t| ==> HexValue(t[i]).Some?
    requires hi < 16 && lo < 16
    ensures forall i :: 0 <= i < |t| + 2 ==> HexValue((t + [UpperDigit(hi), UpperDigit(lo)])[i]).Some?
    ensures HexDigitsValue(t + [UpperDigit(hi), UpperDigit(lo)]) == HexDigitsValue(t) * 256 + hi * 16 + lo
  {
    var u := t + [UpperDigit(hi)];
    var s := u + [UpperDigit(lo)];
    assert t + [UpperDigit(hi), UpperDigit(lo)] == s;
    assert forall i :: 0 <= i < |u| ==> HexValue(u[i]).Some?;
    assert s[..|s| - 1] == u;
    assert u[..|u| - 1] == t;
    assert HexDigitsValue(u) == HexDigitsValue(t) * 16 + hi;
    assert HexDigitsValue(s) == HexDigitsValue(u) * 16 + lo;
  }

  lemma {:induction false} HexUpperSnoc(bs: seq<byte>, b: byte)
    ensures HexUpper(bs + [b]) == HexUpper(bs) + [UpperDigit(b / 16), UpperDigit(b % 16)]
    decreases |bs|
  {
    if bs == [] {
      assert HexUpper([b]) == [UpperDigit(b / 16), UpperDigit(b % 16)] + HexUpper([]);
    } else {
      HexUpperSnoc(bs[1..], b);
      assert (bs + [b])[1..] == bs[1..] + [b];
    }
  }
}
