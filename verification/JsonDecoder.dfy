/**
 decode and the grok_* family of JSON.lua. The recursive functions say what each routine
 returns from a given index; the methods below them have the loops and the table building
 of the source and are proved to return the same. Error handlers abort, so the first error
 met is the result.
 */
module JsonDecoder {
  import opened Optional
  import opened LuaText
  import opened Utf8
  import opened JsonGrammar

  datatype DecodeError =
    | ExpectedNumber | OpeningQuote | NonUtf8 | ControlCharacter | IncompleteUtf8
    | UnfinishedEscape | IllegalEscape | NonUtf8AfterEscape | IncompleteAfterEscape | UnclosedString
    | ExpectedBrace | ExpectedColon | ExpectedCommaOrBrace | UnclosedObject
    | ExpectedBracket | ExpectedCommaOrBracket | UnclosedArray
    | UnexpectedEnd | CannotParse | EmptyText | Html | NotUtf8 | TrailingGarbage

  // What a grok routine returns: a value and the index after it.
  datatype Parsed<+T> = Good(value: T, next: nat) | Bad(error: DecodeError)

  datatype Options = Options(strict: bool, placeholder: Bytes)

  // ---- numbers

  // The end of %d* at i.
  function DigitsEnd(t: Bytes, i: nat): (r: nat)
    requires i <= |t|
    ensures i <= r <= |t|
    ensures forall k :: i <= k < r ==> IsDigit(t[k])
    ensures r < |t| ==> !IsDigit(t[r])
    decreases |t| - i
  {
    if i < |t| && IsDigit(t[i]) then DigitsEnd(t, i + 1) else i
  }

  // ^-?[1-9]%d* or else ^-?0; the result is i when neither matches.
  function IntegerEnd(t: Bytes, i: nat): (r: nat)
    requires i <= |t|
    ensures i <= r <= |t|
  {
    var j := if i < |t| && t[i] == '-' then i + 1 else i;
    if j < |t| && IsDigit(t[j]) && t[j] != '0' then DigitsEnd(t, j)
    else if j < |t| && t[j] == '0' then j + 1
    else i
  }

  // ^%.%d+
  function FractionEnd(t: Bytes, i: nat): (r: nat)
    requires i <= |t|
    ensures i <= r <= |t|
  {
    if i + 1 < |t| && t[i] == '.' && IsDigit(t[i + 1]) then DigitsEnd(t, i + 1) else i
  }

  // ^[eE][-+]?%d+
  function ExponentEnd(t: Bytes, i: nat): (r: nat)
    requires i <= |t|
    ensures i <= r <= |t|
  {
    if i < |t| && (t[i] == 'e' || t[i] == 'E') then
      var j := if i + 1 < |t| && (t[i + 1] == '-' || t[i + 1] == '+') then i + 2 else i + 1;
      if j < |t| && IsDigit(t[j]) then DigitsEnd(t, j) else i
    else i
  }

  // grok_number, with every number decoded to a number object
  function GrokNumber(t: Bytes, start: nat): (r: Parsed<Bytes>)
    requires start <= |t|
    ensures r.Good? ==> start < r.next <= |t| && r.value == t[start..r.next]
  {
    var i := IntegerEnd(t, start);
    if i == start then Bad(ExpectedNumber)
    else
      var j := FractionEnd(t, i);
      var k := ExponentEnd(t, j);
      assert t[start..i] + t[i..j] + t[j..k] == t[start..k];
      Good(t[start..i] + t[i..j] + t[j..k], k)
  }

  // ---- strings

  predicate Continues(t: Bytes, i: nat, n: nat) {
    i + n <= |t| && forall k :: i + 1 <= k < i + n ==> IsContinuation(t[k])
  }

  predicate HexAt(t: Bytes, i: nat) {
    i + 4 <= |t| && IsHex4(t[i..i + 4])
  }

  // ^\\u([dD][cdefCDEF]%x%x)
  predicate LowSurrogateAt(t: Bytes, i: nat) {
    && i + 6 <= |t| && t[i] == '\\' && t[i + 1] == 'u'
    && (t[i + 2] == 'd' || t[i + 2] == 'D')
    && ('c' <= t[i + 3] <= 'f' || 'C' <= t[i + 3] <= 'F')
    && IsHex(t[i + 4]) && IsHex(t[i + 5])
  }

  // The value of the escape whose \u is at i, and the index after it.
  function UnicodeEscape(t: Bytes, i: nat): (r: (nat, nat))
    requires i + 2 <= |t| && HexAt(t, i + 2)
    ensures r.0 <= 0x10FFFF && i < r.1 <= |t|
  {
    var codepoint := Hex4Value(t[i + 2..i + 6]);
    if 0xD800 <= codepoint <= 0xDBFF && LowSurrogateAt(t, i + 6) then
      LowSurrogateValue(t, i + 6);
      (0x2400 + (codepoint - 0xD800) * 0x400 + Hex4Value(t[i + 8..i + 12]), i + 12)
    else (codepoint, i + 6)
  }

  // The pattern for a low surrogate picks out exactly the values DC00 to DFFF.
  lemma LowSurrogateValue(t: Bytes, i: nat)
    ensures LowSurrogateAt(t, i) <==>
            && i + 6 <= |t| && t[i] == '\\' && t[i + 1] == 'u'
            && IsHex4(t[i + 2..i + 6]) && IsLow(Hex4Value(t[i + 2..i + 6]))
  {
    if i + 6 <= |t| {
      var h := t[i + 2..i + 6];
      assert h[0] == t[i + 2] && h[1] == t[i + 3] && h[2] == t[i + 4] && h[3] == t[i + 5];
    }
  }

  // A raw character at i: one pass of the loop of grok_string when the byte is not a backslash.
  function GrokRaw(t: Bytes, i: nat, strict: bool): (r: Parsed<Bytes>)
    requires i < |t|
    ensures r.Good? ==> i < r.next <= |t|
  {
    var n := ByteCount(t[i]);
    if n == 0 then Bad(NonUtf8)
    else if n == 1 && strict && t[i] as int < 0x20 then Bad(ControlCharacter)
    else if !Continues(t, i, n) then Bad(IncompleteUtf8)
    else Good(t[i..i + n], i + n)
  }

  // An escape whose backslash is at i: the other branch of that loop.
  function GrokEscape(t: Bytes, i: nat, strict: bool): (r: Parsed<Bytes>)
    requires i < |t|
    ensures r.Good? ==> i < r.next <= |t|
  {
    if i + 1 == |t| then Bad(UnfinishedEscape)
    else
      var c := t[i + 1];
      if SimpleEscape(c).Some? then Good([SimpleEscape(c).value], i + 2)
      else if c == 'u' && HexAt(t, i + 2) then
        var (codepoint, next) := UnicodeEscape(t, i);
        Good(CodepointAsUtf8(codepoint), next)
      else if strict then Bad(IllegalEscape)
      else
        var n := ByteCount(c);
        if n == 0 then Bad(NonUtf8AfterEscape)
        // The source tests for 3 twice and never for 4.
        else if n == 4 || !Continues(t, i + 1, n) then Bad(IncompleteAfterEscape)
        else Good(t[i + 1..i + 1 + n], i + 1 + n)
  }

  function GrokCharacter(t: Bytes, i: nat, strict: bool): (r: Parsed<Bytes>)
    requires i < |t|
    ensures r.Good? ==> i < r.next <= |t|
  {
    if t[i] != '\\' then GrokRaw(t, i, strict) else GrokEscape(t, i, strict)
  }

  // The rest of a string from i, up to and past its closing quote.
  function StringFrom(t: Bytes, i: nat, strict: bool): (r: Parsed<Bytes>)
    requires i <= |t|
    ensures r.Good? ==> i < r.next <= |t|
    decreases |t| - i
  {
    if i == |t| then Bad(UnclosedString)
    else if t[i] == '"' then Good("", i + 1)
    else
      var c := GrokCharacter(t, i, strict);
      if c.Bad? then Bad(c.error)
      else
        var s := StringFrom(t, c.next, strict);
        if s.Bad? then s else Good(c.value + s.value, s.next)
  }

  function StringAt(t: Bytes, start: nat, strict: bool): (r: Parsed<Bytes>)
    requires start <= |t|
    ensures r.Good? ==> start < r.next <= |t|
  {
    if start < |t| && t[start] == '"' then StringFrom(t, start + 1, strict) else Bad(OpeningQuote)
  }

  // grok_string
  method GrokString(t: Bytes, start: nat, strict: bool) returns (r: Parsed<Bytes>)
    requires start <= |t|
    ensures r == StringAt(t, start, strict)
  {
    hide GrokRaw, GrokEscape;
    if !(start < |t| && t[start] == '"') {
      return Bad(OpeningQuote);
    }
    var i := start + 1;
    var value := "";
    ghost var all := StringFrom(t, i, strict);
    assert all.Good? ==> value + all.value == all.value;
    while i < |t|
      invariant start + 1 <= i <= |t|
      invariant var rest := StringFrom(t, i, strict);
                all == if rest.Bad? then rest else Good(value + rest.value, rest.next)
    {
      if t[i] == '"' {
        assert value + "" == value;
        return Good(value, i + 1);
      }
      var c: Parsed<Bytes>;
      if t[i] != '\\' {
        c := GrokRaw(t, i, strict);
      } else {
        c := GrokEscape(t, i, strict);
      }
      if c.Bad? {
        return c;
      }
      assert forall s: Bytes :: value + (c.value + s) == (value + c.value) + s;
      value := value + c.value;
      i := c.next;
    }
    return Bad(UnclosedString);
  }

  // ---- values

  predicate StartsWith(t: Bytes, i: nat, word: Bytes) {
    At(t, i, word)
  }

  function OneAt(t: Bytes, start: nat, o: Options): (r: Parsed<Value>)
    requires start <= |t|
    ensures r.Good? ==> start < r.next <= |t|
    decreases |t| - start, 1
  {
    var i := SkipWhitespace(t, start);
    if i == |t| then Bad(UnexpectedEnd)
    else if t[i] == '"' then
      var s := StringAt(t, i, o.strict);
      if s.Bad? then Bad(s.error) else Good(Str(s.value), s.next)
    else if t[i] == '-' || IsDigit(t[i]) || t[i] == ' ' then
      var n := GrokNumber(t, i);
      if n.Bad? then Bad(n.error) else Good(Num(n.value), n.next)
    else if t[i] == '{' then ObjectAt(t, i, o)
    else if t[i] == '[' then ArrayAt(t, i, o)
    else if StartsWith(t, i, "true") then Good(Bool(true), i + 4)
    else if StartsWith(t, i, "false") then Good(Bool(false), i + 5)
    else if StartsWith(t, i, "null") then Good(Str(o.placeholder), i + 4)
    else Bad(CannotParse)
  }

  function ArrayAt(t: Bytes, start: nat, o: Options): (r: Parsed<Value>)
    requires start <= |t|
    ensures r.Good? ==> start < r.next <= |t|
    decreases |t| - start, 0
  {
    if !(start < |t| && t[start] == '[') then Bad(ExpectedBracket)
    else
      var i := SkipWhitespace(t, start + 1);
      if i < |t| && t[i] == ']' then Good(Arr([]), i + 1) else ArrayFrom(t, i, o, [])
  }

  // What follows an item: the closing bracket, a comma and another item, or neither.
  datatype Separator = Closed(next: nat) | Another(next: nat) | Neither

  function SeparatorAt(t: Bytes, i: nat, close: char): (s: Separator)
    requires i <= |t|
    ensures !s.Neither? ==> i < s.next <= |t|
  {
    var j := SkipWhitespace(t, i);
    if j < |t| && t[j] == close then Closed(j + 1)
    else if j < |t| && t[j] == ',' then Another(SkipWhitespace(t, j + 1))
    else Neither
  }

  // The array whose items so far are done and whose next item starts at i.
  function ArrayFrom(t: Bytes, i: nat, o: Options, done: seq<Value>): (r: Parsed<Value>)
    requires i <= |t|
    ensures r.Good? ==> i < r.next <= |t|
    decreases |t| - i, 2
  {
    if i == |t| then Bad(UnclosedArray)
    else
      var v := OneAt(t, i, o);
      if v.Bad? then Bad(v.error)
      else
        match SeparatorAt(t, v.next, ']')
        case Closed(next) => Good(Arr(done + [v.value]), next)
        case Another(next) => ArrayFrom(t, next, o, done + [v.value])
        case Neither => Bad(ExpectedCommaOrBracket)
  }

  function ObjectAt(t: Bytes, start: nat, o: Options): (r: Parsed<Value>)
    requires start <= |t|
    ensures r.Good? ==> start < r.next <= |t|
    decreases |t| - start, 0
  {
    if !(start < |t| && t[start] == '{') then Bad(ExpectedBrace)
    else
      var i := SkipWhitespace(t, start + 1);
      if i < |t| && t[i] == '}' then Good(Obj(map[]), i + 1) else ObjectFrom(t, i, o, map[])
  }

  // A key, a colon and a value.
  function MemberAt(t: Bytes, i: nat, o: Options): (r: Parsed<(Bytes, Value)>)
    requires i <= |t|
    ensures r.Good? ==> i < r.next <= |t|
    decreases |t| - i, 2
  {
    var key := StringAt(t, i, o.strict);
    if key.Bad? then Bad(key.error)
    else
      var c := SkipWhitespace(t, key.next);
      if !(c < |t| && t[c] == ':') then Bad(ExpectedColon)
      else
        var v := OneAt(t, SkipWhitespace(t, c + 1), o);
        if v.Bad? then Bad(v.error) else Good((key.value, v.value), v.next)
  }

  // The object whose members so far are done and whose next key starts at i.
  function ObjectFrom(t: Bytes, i: nat, o: Options, done: map<Bytes, Value>): (r: Parsed<Value>)
    requires i <= |t|
    ensures r.Good? ==> i < r.next <= |t|
    decreases |t| - i, 3
  {
    if i == |t| then Bad(UnclosedObject)
    else
      var m := MemberAt(t, i, o);
      if m.Bad? then Bad(m.error)
      else
        var done' := done[m.value.0 := m.value.1];
        match SeparatorAt(t, m.next, '}')
        case Closed(next) => Good(Obj(done'), next)
        case Another(next) => ObjectFrom(t, next, o, done')
        case Neither => Bad(ExpectedCommaOrBrace)
  }

  // grok_object
  method GrokObject(t: Bytes, start: nat, o: Options) returns (r: Parsed<Value>)
    requires start <= |t|
    ensures r == ObjectAt(t, start, o)
    decreases |t| - start, 0
  {
    hide OneAt, StringAt, SkipWhitespace;
    if !(start < |t| && t[start] == '{') {
      return Bad(ExpectedBrace);
    }
    var i := SkipWhitespace(t, start + 1);
    var value: map<Bytes, Value> := map[];
    if i < |t| && t[i] == '}' {
      return Good(Obj(value), i + 1);
    }
    ghost var result := ObjectFrom(t, i, o, value);
    while i < |t|
      invariant start < i <= |t|
      invariant result == ObjectFrom(t, i, o, value)
    {
      ghost var i0 := i;
      var key := GrokString(t, i, o.strict);
      if key.Bad? {
        return Bad(key.error);
      }
      i := SkipWhitespace(t, key.next);
      if !(i < |t| && t[i] == ':') {
        return Bad(ExpectedColon);
      }
      i := SkipWhitespace(t, i + 1);
      var newValue := GrokOne(t, i, o);
      if newValue.Bad? {
        return newValue;
      }
      assert MemberAt(t, i0, o) == Good((key.value, newValue.value), newValue.next);
      value := value[key.value := newValue.value];
      i := SkipWhitespace(t, newValue.next);
      if i < |t| && t[i] == '}' {
        return Good(Obj(value), i + 1);
      }
      if !(i < |t| && t[i] == ',') {
        return Bad(ExpectedCommaOrBrace);
      }
      i := SkipWhitespace(t, i + 1);
      assert SeparatorAt(t, newValue.next, '}') == Another(i);
    }
    return Bad(UnclosedObject);
  }

  // grok_array
  method GrokArray(t: Bytes, start: nat, o: Options) returns (r: Parsed<Value>)
    requires start <= |t|
    ensures r == ArrayAt(t, start, o)
    decreases |t| - start, 0
  {
    hide OneAt, SkipWhitespace;
    if !(start < |t| && t[start] == '[') {
      return Bad(ExpectedBracket);
    }
    var i := SkipWhitespace(t, start + 1);
    var value: seq<Value> := [];
    if i < |t| && t[i] == ']' {
      return Good(Arr(value), i + 1);
    }
    ghost var result := ArrayFrom(t, i, o, value);
    while i < |t|
      invariant start < i <= |t|
      invariant result == ArrayFrom(t, i, o, value)
    {
      var val := GrokOne(t, i, o);
      if val.Bad? {
        return val;
      }
      value := value + [val.value];
      i := SkipWhitespace(t, val.next);
      if i < |t| && t[i] == ']' {
        return Good(Arr(value), i + 1);
      }
      if !(i < |t| && t[i] == ',') {
        return Bad(ExpectedCommaOrBracket);
      }
      i := SkipWhitespace(t, i + 1);
      assert SeparatorAt(t, val.next, ']') == Another(i);
    }
    return Bad(UnclosedArray);
  }

  // grok_one
  method GrokOne(t: Bytes, start: nat, o: Options) returns (r: Parsed<Value>)
    requires start <= |t|
    ensures r == OneAt(t, start, o)
    decreases |t| - start, 1
  {
    var i := SkipWhitespace(t, start);
    if i == |t| {
      return Bad(UnexpectedEnd);
    }
    if t[i] == '"' {
      var s := GrokString(t, i, o.strict);
      r := if s.Bad? then Bad(s.error) else Good(Str(s.value), s.next);
    } else if t[i] == '-' || IsDigit(t[i]) || t[i] == ' ' {
      var n := GrokNumber(t, i);
      r := if n.Bad? then Bad(n.error) else Good(Num(n.value), n.next);
    } else if t[i] == '{' {
      r := GrokObject(t, i, o);
    } else if t[i] == '[' {
      r := GrokArray(t, i, o);
    } else if StartsWith(t, i, "true") {
      r := Good(Bool(true), i + 4);
    } else if StartsWith(t, i, "false") {
      r := Good(Bool(false), i + 5);
    } else if StartsWith(t, i, "null") {
      r := Good(Str(o.placeholder), i + 4);
    } else {
      r := Bad(CannotParse);
    }
  }

  // ---- whole texts

  // decode returns a value, nothing at all (a blank text, when not strict), or an error.
  datatype Decoded = Decoded(value: Value) | Nothing | Failed(error: DecodeError)

  // The end of ^%s*
  function LuaSpaceEnd(t: Bytes, i: nat): (r: nat)
    requires i <= |t|
    ensures i <= r <= |t|
    ensures forall k :: i <= k < r ==> IsLuaSpace(t[k])
    ensures r < |t| ==> !IsLuaSpace(t[r])
    decreases |t| - i
  {
    if i < |t| && IsLuaSpace(t[i]) then LuaSpaceEnd(t, i + 1) else i
  }

  function DecodeSpec(t: Bytes, o: Options): Decoded {
    var b := LuaSpaceEnd(t, 0);
    if b == |t| then (if o.strict then Failed(EmptyText) else Nothing)
    else if t[b] == '<' then Failed(Html)
    else if t[0] as int == 0 || (|t| >= 2 && t[1] as int == 0) then Failed(NotUtf8)
    else
      var r := OneAt(t, 0, o);
      if r.Bad? then Failed(r.error)
      else if SkipWhitespace(t, r.next) != |t| then Failed(TrailingGarbage)
      else Decoded(r.value)
  }

  // OBJDEF:decode
  method Decode(t: Bytes, o: Options) returns (r: Decoded)
    ensures r == DecodeSpec(t, o)
  {
    var b := LuaSpaceEnd(t, 0);
    if b == |t| {
      return if o.strict then Failed(EmptyText) else Nothing;
    }
    if t[b] == '<' {
      return Failed(Html);
    }
    if t[0] as int == 0 || (|t| >= 2 && t[1] as int == 0) {
      return Failed(NotUtf8);
    }
    var one := GrokOne(t, 0, o);
    if one.Bad? {
      return Failed(one.error);
    }
    var next := one.next;
    if next != |t| {
      next := SkipWhitespace(t, next);
      if next != |t| {
        return Failed(TrailingGarbage);
      }
    }
    return Decoded(one.value);
  }
}
