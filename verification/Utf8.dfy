/**
 The UTF-8 routines of the JSON package (JSON.lua), and an independent definition of
 UTF-8 after sections 3 and 4 of RFC 3629 that they are proved against.
 */
module Utf8 {
  import opened LuaText

  // unicode_character_bytecount_based_on_first_byte
  function ByteCount(lead: char): (n: nat)
    ensures n <= 4
  {
    var w := lead as int;
    if w < 0x80 then 1
    else if w == 0xC0 || w == 0xC1 || 0x80 <= w <= 0xBF || 0xF5 <= w then 0
    else if w / 0x20 == 0x06 then 2
    else if w / 0x10 == 0x0E then 3
    else 4
  }

  // The pattern class [\128-\191].
  predicate IsContinuation(c: char) {
    0x80 <= c as int <= 0xBF
  }

  // A lead byte with exactly the continuation bytes it announces.
  predicate IsGroup(g: Bytes) {
    |g| > 0 && ByteCount(g[0]) == |g| && forall k :: 1 <= k < |g| ==> IsContinuation(g[k])
  }

  predicate IsSurrogate(cp: nat) {
    0xD800 <= cp <= 0xDFFF
  }

  predicate IsScalar(cp: nat) {
    cp <= 0x10FFFF && !IsSurrogate(cp)
  }

  // unicode_codepoint_as_utf8
  function CodepointAsUtf8(cp: nat): (b: Bytes)
    requires cp <= 0x10FFFF
  {
    if cp <= 127 then
      [cp as char]
    else if cp <= 2047 then
      var high := cp / 0x40;
      var low := cp - 0x40 * high;
      [(0xC0 + high) as char, (0x80 + low) as char]
    else if cp <= 65535 then
      var high := cp / 0x1000;
      var rest := cp - 0x1000 * high;
      var mid := rest / 0x40;
      var low := rest - 0x40 * mid;
      var h, m := 0xE0 + high, 0x80 + mid;
      if (h == 0xE0 && m < 0xA0) || (h == 0xED && m > 0x9F) || (h == 0xF0 && m < 0x90) || (h == 0xF4 && m > 0x8F) then
        "?"
      else
        [h as char, m as char, (0x80 + low) as char]
    else
      var high := cp / 0x40000;
      var rest := cp - 0x40000 * high;
      var midA := rest / 0x1000;
      var rest' := rest - 0x1000 * midA;
      var midB := rest' / 0x40;
      var low := rest' - 0x40 * midB;
      [(0xF0 + high) as char, (0x80 + midA) as char, (0x80 + midB) as char, (0x80 + low) as char]
  }

  /** Section 4 of RFC 3629: the byte sequences UTF8-1 to UTF8-4. */
  predicate IsUtf8Char(b: Bytes) {
    match |b|
    case 1 => b[0] as int <= 0x7F
    case 2 => 0xC2 <= b[0] as int <= 0xDF && IsContinuation(b[1])
    case 3 =>
      && IsContinuation(b[1]) && IsContinuation(b[2])
      && ( || (b[0] as int == 0xE0 && 0xA0 <= b[1] as int)
           || 0xE1 <= b[0] as int <= 0xEC
           || (b[0] as int == 0xED && b[1] as int <= 0x9F)
           || 0xEE <= b[0] as int <= 0xEF)
    case 4 =>
      && IsContinuation(b[1]) && IsContinuation(b[2]) && IsContinuation(b[3])
      && ( || (b[0] as int == 0xF0 && 0x90 <= b[1] as int)
           || 0xF1 <= b[0] as int <= 0xF3
           || (b[0] as int == 0xF4 && b[1] as int <= 0x8F))
    case _ => false
  }

  /** Section 3 of RFC 3629: the number the payload bits of a character spell. */
  function Utf8Value(b: Bytes): int
    requires IsUtf8Char(b)
  {
    match |b|
    case 1 => b[0] as int
    case 2 => (b[0] as int - 0xC0) * 0x40 + (b[1] as int - 0x80)
    case 3 => (b[0] as int - 0xE0) * 0x1000 + (b[1] as int - 0x80) * 0x40 + (b[2] as int - 0x80)
    case _ => (b[0] as int - 0xF0) * 0x40000 + (b[1] as int - 0x80) * 0x1000
              + (b[2] as int - 0x80) * 0x40 + (b[3] as int - 0x80)
  }

  // The bytes are a character, its first byte announces their number, and it spells the code point.
  predicate Spells(b: Bytes, cp: nat) {
    IsUtf8Char(b) && Utf8Value(b) == cp && ByteCount(b[0]) == |b|
  }

  lemma EncodesInTwo(cp: nat)
    requires cp <= 2047
    ensures Spells(CodepointAsUtf8(cp), cp)
  {
  }

  lemma EncodesInThree(cp: nat)
    requires 2047 < cp <= 65535
    ensures if IsScalar(cp) then Spells(CodepointAsUtf8(cp), cp) else CodepointAsUtf8(cp) == "?"
  {
    var high := cp / 0x1000;
    var mid := (cp - 0x1000 * high) / 0x40;
    assert IsSurrogate(cp) <==> high == 0xD && mid >= 0x20;
  }

  lemma EncodesInFour(cp: nat)
    requires 65535 < cp <= 0x10FFFF
    ensures Spells(CodepointAsUtf8(cp), cp)
  {
  }

  /** Scalars are encoded as RFC 3629 says, and the first byte announces the true length. */
  lemma EncodesScalars(cp: nat)
    requires cp <= 0x10FFFF
    ensures IsScalar(cp) ==> Spells(CodepointAsUtf8(cp), cp)
    ensures IsSurrogate(cp) ==> CodepointAsUtf8(cp) == "?"
  {
    hide CodepointAsUtf8, Spells;
    if cp <= 2047 {
      EncodesInTwo(cp);
    } else if cp <= 65535 {
      EncodesInThree(cp);
    } else {
      EncodesInFour(cp);
    }
  }

  // A character of some length is the encoding of its value.
  predicate EncodedByItsValue(b: Bytes)
    requires IsUtf8Char(b)
  {
    var cp := Utf8Value(b); 0 <= cp && IsScalar(cp) && CodepointAsUtf8(cp) == b
  }

  lemma InverseOfTwo(b: Bytes)
    requires IsUtf8Char(b) && |b| <= 2
    ensures EncodedByItsValue(b)
  {
    assert |b| == 2 ==> Utf8Value(b) / 0x40 == b[0] as int - 0xC0;
  }

  lemma InverseOfThree(b: Bytes)
    requires IsUtf8Char(b) && |b| == 3
    ensures EncodedByItsValue(b)
  {
    var cp := Utf8Value(b);
    assert cp / 0x1000 == b[0] as int - 0xE0;
    assert (cp - 0x1000 * (b[0] as int - 0xE0)) / 0x40 == b[1] as int - 0x80;
  }

  lemma InverseOfFour(b: Bytes)
    requires IsUtf8Char(b) && |b| == 4
    ensures EncodedByItsValue(b)
  {
    var cp := Utf8Value(b);
    assert cp / 0x40000 == b[0] as int - 0xF0;
    var rest := cp - 0x40000 * (b[0] as int - 0xF0);
    assert rest / 0x1000 == b[1] as int - 0x80;
    assert (rest - 0x1000 * (b[1] as int - 0x80)) / 0x40 == b[2] as int - 0x80;
  }

  /** Every well-formed character is the encoding of its own value, so the encoding is a bijection. */
  lemma EncodingIsInverse(b: Bytes)
    requires IsUtf8Char(b)
    ensures EncodedByItsValue(b)
  {
    hide EncodedByItsValue;
    if |b| <= 2 {
      InverseOfTwo(b);
    } else if |b| == 3 {
      InverseOfThree(b);
    } else {
      InverseOfFour(b);
    }
  }

  /** RFC 3629 characters are lead/continuation groups; groups are the weaker test the parser makes. */
  lemma Utf8CharIsGroup(b: Bytes)
    requires IsUtf8Char(b)
    ensures IsGroup(b)
  {
    assert b[0] as int / 0x20 == 0x06 <==> 0xC0 <= b[0] as int <= 0xDF;
    assert b[0] as int / 0x10 == 0x0E <==> 0xE0 <= b[0] as int <= 0xEF;
  }

  /** The byte counts are exactly those of the RFC 3629 lead bytes: 0 for bytes that start no character. */
  lemma ByteCountIsExact(c: char)
    ensures ByteCount(c) > 0 <==> exists b: Bytes :: IsUtf8Char(b) && b[0] == c
    ensures forall b: Bytes :: IsUtf8Char(b) && b[0] == c ==> |b| == ByteCount(c)
  {
    forall b: Bytes | IsUtf8Char(b) && b[0] == c
      ensures |b| == ByteCount(c)
    {
      Utf8CharIsGroup(b);
    }
    var second := if c as int == 0xE0 then 0xA0 else if c as int == 0xF0 then 0x90 else 0x80;
    var b: Bytes := [c, second as char, 0x80 as char, 0x80 as char][..ByteCount(c)];
    if ByteCount(c) > 0 {
      assert c as int / 0x20 == 0x06 <==> 0xC0 <= c as int <= 0xDF;
      assert c as int / 0x10 == 0x0E <==> 0xE0 <= c as int <= 0xEF;
      assert IsUtf8Char(b) && b[0] == c;
    }
  }
}
