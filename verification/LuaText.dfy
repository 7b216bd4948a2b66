/**
 Lua strings as the JSON package sees them: a string is a sequence of bytes,
 written here as a sequence of characters whose codes are the byte values.
 Indices start at 0, so Lua's index i is i - 1 here.
 */
module LuaText {

  type Bytes = string

  // The characters of the pattern class [ \n\r\t].
  predicate IsSpace(c: char) {
    c == ' ' || c == '\n' || c == '\r' || c == '\t'
  }

  predicate IsBlank(s: Bytes) {
    forall k :: 0 <= k < |s| ==> IsSpace(s[k])
  }

  // Lua's %s class, which also has the vertical tab and the form feed.
  predicate IsLuaSpace(c: char) {
    IsSpace(c) || c as int == 11 || c as int == 12
  }

  predicate IsDigit(c: char) {
    '0' <= c <= '9'
  }

  predicate IsHex(c: char) {
    IsDigit(c) || 'a' <= c <= 'f' || 'A' <= c <= 'F'
  }

  function HexValue(c: char): (d: nat)
    requires IsHex(c)
    ensures d < 16
  {
    if IsDigit(c) then c as int - '0' as int
    else if 'a' <= c <= 'f' then c as int - 'a' as int + 10
    else c as int - 'A' as int + 10
  }

  predicate IsHex4(s: Bytes) {
    |s| == 4 && IsHex(s[0]) && IsHex(s[1]) && IsHex(s[2]) && IsHex(s[3])
  }

  // tonumber(s, 16)
  function Hex4Value(s: Bytes): (n: nat)
    requires IsHex4(s)
    ensures n < 0x10000
  {
    HexValue(s[0]) * 0x1000 + HexValue(s[1]) * 0x100 + HexValue(s[2]) * 0x10 + HexValue(s[3])
  }

  /** s occurs in t at index i. */
  predicate At(t: Bytes, i: nat, s: Bytes) {
    i + |s| <= |t| && t[i..i + |s|] == s
  }

  lemma AtSplit(t: Bytes, i: nat, a: Bytes, b: Bytes)
    requires At(t, i, a + b)
    ensures At(t, i, a) && At(t, i + |a|, b)
  {
    assert t[i..i + |a|] == t[i..i + |a + b|][..|a|] == a;
    assert t[i + |a|..i + |a + b|] == t[i..i + |a + b|][|a|..] == b;
  }

  lemma AtJoin(t: Bytes, i: nat, a: Bytes, b: Bytes)
    requires At(t, i, a) && At(t, i + |a|, b)
    ensures At(t, i, a + b)
  {
    assert t[i..i + |a + b|] == t[i..i + |a|] + t[i + |a|..i + |a| + |b|];
  }

  lemma AtChar(t: Bytes, i: nat, s: Bytes, k: nat)
    requires At(t, i, s) && k < |s|
    ensures i + k < |t| && t[i + k] == s[k]
  {
    assert t[i..i + |s|][k] == t[i + k];
  }

  // skip_whitespace
  function SkipWhitespace(t: Bytes, i: nat): (r: nat)
    requires i <= |t|
    ensures i <= r <= |t|
    ensures forall k :: i <= k < r ==> IsSpace(t[k])
    ensures r < |t| ==> !IsSpace(t[r])
    decreases |t| - i
  {
    if i < |t| && IsSpace(t[i]) then SkipWhitespace(t, i + 1) else i
  }

  /** Whitespace is skipped to its end and no further. */
  lemma SkipsExactly(t: Bytes, i: nat, w: Bytes)
    requires At(t, i, w) && IsBlank(w)
    requires i + |w| < |t| ==> !IsSpace(t[i + |w|])
    ensures SkipWhitespace(t, i) == i + |w|
    decreases |w|
  {
    if w != "" {
      AtChar(t, i, w, 0);
      assert w == w[..1] + w[1..];
      AtSplit(t, i, w[..1], w[1..]);
      SkipsExactly(t, i + 1, w[1..]);
    }
  }

  // Skipping from inside a run of whitespace ends at the same place.
  lemma SkipsOver(t: Bytes, i: nat, w: Bytes)
    requires At(t, i, w) && IsBlank(w)
    ensures SkipWhitespace(t, i) == SkipWhitespace(t, i + |w|)
    decreases |w|
  {
    if w != "" {
      AtChar(t, i, w, 0);
      assert w == w[..1] + w[1..];
      AtSplit(t, i, w[..1], w[1..]);
      SkipsOver(t, i + 1, w[1..]);
    }
  }
}
