/**
  UTF-8 by its definition (section 3 of RFC 3629): the bits of a scalar value over one to four bytes.
  The byte syntax of Utf8, the widths that lengths are counted in and the replacement character all
  follow from it.
 */
module Utf8Chars {
  import opened Utf8
  import opened LossyDecoding
  import opened CredentialRow

  /** A continuation byte with the last six bits of `bits`. */
  function Tail(bits: nat): (b: Byte)
    ensures Continuation(b)
  {
    (0x80 + bits % 64) as Byte
  }

  /** A value's bytes, in the shortest form that holds it. */
  function EncodeValue(n: nat): (bytes: Bytes)
    requires n < 0x110000
    ensures 1 <= |bytes| <= 4
  {
    if n < 0x80 then [n as Byte]
    else if n < 0x800 then [(0xC0 + n / 64) as Byte, Tail(n)]
    else if n < 0x10000 then [(0xE0 + n / 64 / 64) as Byte, Tail(n / 64), Tail(n)]
    else [(0xF0 + n / 64 / 64 / 64) as Byte, Tail(n / 64 / 64), Tail(n / 64), Tail(n)]
  }

  function EncodeChar(c: char): (bytes: Bytes)
    ensures 1 <= |bytes| <= 4
  {
    EncodeValue(c as int)
  }

  function EncodeText(text: string): Bytes {
    if text == "" then [] else EncodeChar(text[0]) + EncodeText(text[1..])
  }

  /** The bits of a continuation byte. */
  function Bits(b: Byte): int {
    b as int - 0x80
  }

  /** The value whose bits these bytes hold. */
  function DecodeValue(bytes: Bytes): int
    requires 1 <= |bytes| <= 4
  {
    if |bytes| == 1 then bytes[0] as int
    else if |bytes| == 2 then (bytes[0] as int - 0xC0) * 64 + Bits(bytes[1])
    else if |bytes| == 3 then ((bytes[0] as int - 0xE0) * 64 + Bits(bytes[1])) * 64 + Bits(bytes[2])
    else (((bytes[0] as int - 0xF0) * 64 + Bits(bytes[1])) * 64 + Bits(bytes[2])) * 64 + Bits(bytes[3])
  }

  predicate Scalar(n: int) {
    0 <= n < 0xD800 || 0xE000 <= n < 0x110000
  }

  lemma EncodedIsGlyph(n: nat)
    requires Scalar(n)
    ensures IsGlyph(EncodeValue(n))
  {
    var m := n / 64;
    if n >= 0x800 {
      ThreeOrFourBytes(n, m);
    }
  }

  lemma ThreeOrFourBytes(n: nat, m: nat)
    requires Scalar(n) && n >= 0x800 && m == n / 64
    ensures IsGlyph(EncodeValue(n))
  {
    assert m >= 32 && (n < 0x10000 ==> m < 1024) && (n >= 0x10000 ==> 1024 <= m < 17408);
    assert !(864 <= m < 896);
    var k := m / 64;
    assert m == 64 * k + m % 64;
    if n >= 0x10000 {
      assert 16 <= k < 272 && k == 64 * (k / 64) + k % 64;
    }
  }

  /** A well-formed char holds a scalar value, and is what that value is encoded as. */
  lemma GlyphDecodes(glyph: Bytes)
    requires IsGlyph(glyph)
    ensures Scalar(DecodeValue(glyph)) && EncodeValue(DecodeValue(glyph)) == glyph
  {
    if |glyph| == 2 {
      TwoBytes(glyph[0], glyph[1]);
    } else if |glyph| == 3 {
      ThreeBytes(glyph[0], glyph[1], glyph[2]);
    } else if |glyph| == 4 {
      FourBytes(glyph[0], glyph[1], glyph[2], glyph[3]);
    }
  }

  lemma Digit(high: nat, low: Byte) returns (n: nat)
    requires Continuation(low)
    ensures n == high * 64 + Bits(low) && n / 64 == high && Tail(n) == low
  {
    n := high * 64 + Bits(low);
  }

  lemma TwoBytes(a: Byte, b: Byte)
    requires IsGlyph([a, b])
    ensures Scalar(DecodeValue([a, b])) && EncodeValue(DecodeValue([a, b])) == [a, b]
  {
    var n := Digit(a as int - 0xC0, b);
  }

  lemma ThreeBytes(a: Byte, b: Byte, c: Byte)
    requires IsGlyph([a, b, c])
    ensures Scalar(DecodeValue([a, b, c])) && EncodeValue(DecodeValue([a, b, c])) == [a, b, c]
  {
    var m := Digit(a as int - 0xE0, b);
    var n := Digit(m, c);
  }

  lemma FourBytes(a: Byte, b: Byte, c: Byte, d: Byte)
    requires IsGlyph([a, b, c, d])
    ensures Scalar(DecodeValue([a, b, c, d])) && EncodeValue(DecodeValue([a, b, c, d])) == [a, b, c, d]
  {
    var k := Digit(a as int - 0xF0, b);
    var m := Digit(k, c);
    var n := Digit(m, d);
  }

  /** The byte syntax is that of encoded chars: nothing over-long, no surrogates, nothing above U+10FFFF. */
  lemma GlyphsAreEncodedChars(glyph: Bytes)
    ensures IsGlyph(glyph) <==> exists c :: EncodeChar(c) == glyph
  {
    if IsGlyph(glyph) {
      GlyphDecodes(glyph);
      assert EncodeChar(DecodeValue(glyph) as char) == glyph;
    }
    if c :| EncodeChar(c) == glyph {
      EncodedIsGlyph(c as int);
    }
  }

  /** The bytes of a text are well-formed, and as many as the row's lengths count. */
  lemma {:induction false} EncodedIsWellFormed(text: string)
    ensures WellFormed(EncodeText(text)) && |EncodeText(text)| == Utf8Bytes(text)
  {
    if text != "" {
      EncodedIsWellFormed(text[1..]);
      EncodedIsGlyph(text[0] as int);
      GlyphFirst(EncodeChar(text[0]), EncodeText(text[1..]));
      Cut(EncodeChar(text[0]), EncodeText(text[1..]));
    }
  }

  /** Well-formed bytes are those of some text. */
  lemma {:induction false} WellFormedIsEncoded(bytes: Bytes) returns (text: string)
    requires WellFormed(bytes)
    ensures EncodeText(text) == bytes
  {
    if bytes == [] {
      text := "";
    } else {
      var glyph, rest := bytes[..FirstWidth(bytes)], bytes[FirstWidth(bytes)..];
      FirstIsGlyph(bytes);
      GlyphDecodes(glyph);
      var more := WellFormedIsEncoded(rest);
      text := [DecodeValue(glyph) as char] + more;
      assert text[1..] == more && bytes == glyph + rest;
    }
  }

  lemma ReplacementIsEncoded()
    ensures REPLACEMENT_CHARACTER == EncodeChar('\U{FFFD}')
  {
  }
}
