/**
 What decode accepts and returns: the RFC 8259 texts and their values when strict, the
 same values for them when lenient, and the UTF-8 form of any sequence of \u escapes.
 */
module JsonDecoding {
  import opened LuaText
  import opened Utf8
  import opened JsonGrammar
  import opened JsonDecoder
  import opened JsonCompleteness
  import opened JsonSoundness

  // ---- texts without NUL

  predicate NoNul(s: Bytes) {
    forall k :: 0 <= k < |s| ==> s[k] as int != 0
  }

  lemma {:induction false} ItemsNoNul(items: seq<StringItem>)
    requires ItemsOk(items)
    ensures NoNul(FlattenItems(items))
  {
    if items != [] {
      ItemsNoNul(items[1..]);
      assert NoNul(FlattenItem(items[0]));
    }
  }

  lemma {:induction false} SyntaxNoNul(c: Syntax)
    requires Ok(c)
    ensures NoNul(Flatten(c))
    decreases c
  {
    match c
    case SNum(whole, frac, exp) => NumberNoNul(whole, frac, exp);
    case SStr(items) => ItemsNoNul(items);
    case SArr(es) => ElementsNoNul(es);
    case SObj(ms) => MembersNoNul(ms);
    case _ =>
  }

  lemma NumberNoNul(whole: Bytes, frac: Bytes, exp: Bytes)
    requires IsInt(whole) && IsFrac(frac) && IsExp(exp)
    ensures NoNul(whole + frac + exp)
  {
    assert NoNul(whole) by {
      var n := if whole[0] == '-' then 1 else 0;
      assert whole == whole[..n] + whole[n..];
      assert NoNul(whole[n..]) && NoNul(whole[..n]);
    }
    assert frac != "" ==> frac == frac[..1] + frac[1..];
    if exp != "" {
      var n := if exp[1] == '-' || exp[1] == '+' then 2 else 1;
      assert exp == exp[..n] + exp[n..];
      assert NoNul(exp[..n]);
    }
  }

  lemma {:induction false} ElementsNoNul(es: Elements)
    requires ElementsOk(es)
    ensures NoNul(FlattenElements(es))
    decreases es
  {
    SyntaxNoNul(es.v);
    if es.Element? {
      ElementsNoNul(es.rest);
    }
  }

  lemma {:induction false} MembersNoNul(ms: Members)
    requires MembersOk(ms)
    ensures NoNul(FlattenMembers(ms))
    decreases ms
  {
    SyntaxNoNul(ms.v);
    ItemsNoNul(ms.key);
    if ms.Member? {
      MembersNoNul(ms.rest);
    }
    MembersShape(ms);
    var tail := MembersTail(ms);
    assert NoNul(tail) && NoNul(":") && NoNul(Quoted(ms.key));
    hide Flatten, Quoted, FlattenMembers, MembersTail, NoNul;
    var e := ms.after + tail;
    assert NoNul(ms.before) && NoNul(ms.preColon) && NoNul(ms.postColon) && NoNul(ms.after) by {
      BlankNoNul(ms.before); BlankNoNul(ms.preColon); BlankNoNul(ms.postColon); BlankNoNul(ms.after);
    }
    NoNulJoin(ms.after, tail);
    NoNulJoin(Flatten(ms.v), e);
    NoNulJoin(ms.postColon, Flatten(ms.v) + e);
    var d := ms.postColon + (Flatten(ms.v) + e);
    NoNulJoin(":", d);
    NoNulJoin(ms.preColon, ":" + d);
    NoNulJoin(Quoted(ms.key), ms.preColon + (":" + d));
    NoNulJoin(ms.before, Quoted(ms.key) + (ms.preColon + (":" + d)));
  }

  lemma NoNulJoin(a: Bytes, b: Bytes)
    requires NoNul(a) && NoNul(b)
    ensures NoNul(a + b)
  {
  }

  lemma BlankNoNul(w: Bytes)
    requires IsBlank(w)
    ensures NoNul(w)
  {
  }

  lemma LuaSpaceEndIs(t: Bytes, n: nat)
    requires n < |t| && !IsLuaSpace(t[n]) && forall k :: 0 <= k < n ==> IsSpace(t[k])
    ensures LuaSpaceEnd(t, 0) == n
  {
    assert forall k :: 0 <= k < n ==> IsLuaSpace(t[k]);
  }

  // A JSON text passes the checks that decode makes before parsing.
  lemma PassesChecks(w1: Bytes, c: Syntax, w2: Bytes)
    requires IsBlank(w1) && Ok(c) && IsBlank(w2)
    ensures var t := w1 + Flatten(c) + w2; var b := LuaSpaceEnd(t, 0);
            b < |t| && t[b] != '<' && NoNul(t)
  {
    FirstCharacter(c);
    SyntaxNoNul(c);
    hide Flatten;
    var t := w1 + Flatten(c) + w2;
    assert t[|w1|] == Flatten(c)[0];
    LuaSpaceEndIs(t, |w1|);
  }

  /** Strict decoding of a JSON text gives what the text denotes. */
  lemma DecodesTexts(t: Bytes, w1: Bytes, c: Syntax, w2: Bytes, o: Options)
    requires o.strict && IsTextOf(t, w1, c, w2)
    ensures DecodeSpec(t, o) == Decoded(Denote(c, o.placeholder))
  {
    PassesChecks(w1, c, w2);
    ParsesTexts(t, w1, c, w2, o);
    hide OneAt, SkipWhitespace, LuaSpaceEnd, Flatten, Denote;
  }

  lemma ParsesTexts(t: Bytes, w1: Bytes, c: Syntax, w2: Bytes, o: Options)
    requires o.strict && IsTextOf(t, w1, c, w2)
    ensures var r := OneAt(t, 0, o); r.Good? && r.value == Denote(c, o.placeholder) && SkipWhitespace(t, r.next) == |t|
  {
    hide OneAt, SkipWhitespace, Denote, Ok;
    FirstCharacter(c);
    var f := Flatten(c);
    assert t == w1 + (f + w2);
    assert At(t, 0, w1 + (f + w2));
    hide Flatten, At;
    BlankThen(t, 0, w1, f + w2);
    AtSplit(t, |w1|, f, w2);
    var e := |w1| + |f|;
    assert EndsValue(t, e) by { if w2 != "" { AtChar(t, e, w2, 0); } }
    OneComplete(t, |w1|, o, c);
    DispatchesScalar(t, 0, o);
    SkipsExactly(t, e, w2);
  }

  /** What strict decoding accepts is a JSON text. */
  lemma AcceptsOnlyTexts(t: Bytes, o: Options) returns (w1: Bytes, c: Syntax, w2: Bytes)
    requires o.strict && DecodeSpec(t, o).Decoded?
    ensures IsTextOf(t, w1, c, w2)
  {
    hide OneAt, SkipWhitespace, LuaSpaceEnd;
    var r := OneAt(t, 0, o);
    w1 := BlankSkipped(t, 0);
    c := OneSound(t, 0, o);
    w2 := BlankSkipped(t, r.next);
    AtJoin(t, 0, w1, Flatten(c));
    AtJoin(t, 0, w1 + Flatten(c), w2);
  }

  /** With strictParsing, decode accepts a text if and only if it is in the JSON grammar. */
  lemma AcceptsExactlyTheGrammar(t: Bytes, o: Options)
    requires o.strict
    ensures DecodeSpec(t, o).Decoded? <==> InGrammar(t)
    ensures !DecodeSpec(t, o).Nothing?
  {
    if DecodeSpec(t, o).Decoded? {
      var w1, c, w2 := AcceptsOnlyTexts(t, o);
    }
    if InGrammar(t) {
      var w1, c, w2 :| IsTextOf(t, w1, c, w2);
      DecodesTexts(t, w1, c, w2, o);
    }
  }

  /** The grammar is unambiguous: a text denotes one value. */
  lemma TextsDenoteOneValue(t: Bytes, v1: Bytes, c: Syntax, v2: Bytes, w1: Bytes, d: Syntax, w2: Bytes,
                            placeholder: Bytes)
    requires IsTextOf(t, v1, c, v2) && IsTextOf(t, w1, d, w2)
    ensures Denote(c, placeholder) == Denote(d, placeholder)
  {
    DecodesTexts(t, v1, c, v2, Options(true, placeholder));
    DecodesTexts(t, w1, d, w2, Options(true, placeholder));
  }

  // ---- the lenient parser

  lemma CharacterLenient(t: Bytes, i: nat)
    requires i < |t| && GrokCharacter(t, i, true).Good?
    ensures GrokCharacter(t, i, false) == GrokCharacter(t, i, true)
  {
  }

  lemma {:induction false} StringFromLenient(t: Bytes, i: nat)
    requires i <= |t| && StringFrom(t, i, true).Good?
    ensures StringFrom(t, i, false) == StringFrom(t, i, true)
    decreases |t| - i
  {
    hide GrokCharacter;
    if t[i] != '"' {
      CharacterLenient(t, i);
      StringFromLenient(t, GrokCharacter(t, i, true).next);
    }
  }

  lemma StringLenient(t: Bytes, i: nat)
    requires i <= |t| && StringAt(t, i, true).Good?
    ensures StringAt(t, i, false) == StringAt(t, i, true)
  {
    StringFromLenient(t, i + 1);
  }

  lemma {:induction false} OneLenient(t: Bytes, i: nat, p: Bytes)
    requires i <= |t| && OneAt(t, i, Options(true, p)).Good?
    ensures OneAt(t, i, Options(false, p)) == OneAt(t, i, Options(true, p))
    decreases |t| - i, 1
  {
    hide SkipWhitespace, GrokNumber, ArrayFrom, ObjectFrom, StringAt, At;
    var j := SkipWhitespace(t, i);
    if t[j] == '"' {
      StringLenient(t, j);
    } else if t[j] == '[' {
      var k := SkipWhitespace(t, j + 1);
      if !(k < |t| && t[k] == ']') {
        ArrayLenient(t, k, p, []);
      }
    } else if t[j] == '{' {
      var k := SkipWhitespace(t, j + 1);
      if !(k < |t| && t[k] == '}') {
        ObjectLenient(t, k, p, map[]);
      }
    }
  }

  lemma {:induction false} ArrayLenient(t: Bytes, i: nat, p: Bytes, done: seq<Value>)
    requires i <= |t| && ArrayFrom(t, i, Options(true, p), done).Good?
    ensures ArrayFrom(t, i, Options(false, p), done) == ArrayFrom(t, i, Options(true, p), done)
    decreases |t| - i, 2
  {
    hide OneAt, SkipWhitespace;
    OneLenient(t, i, p);
    var v := OneAt(t, i, Options(true, p));
    var s := SeparatorAt(t, v.next, ']');
    if s.Another? {
      ArrayLenient(t, s.next, p, done + [v.value]);
    }
  }

  lemma {:induction false} MemberLenient(t: Bytes, i: nat, p: Bytes)
    requires i <= |t| && MemberAt(t, i, Options(true, p)).Good?
    ensures MemberAt(t, i, Options(false, p)) == MemberAt(t, i, Options(true, p))
    decreases |t| - i, 2
  {
    hide OneAt, StringAt, SkipWhitespace;
    StringLenient(t, i);
    var q := StringAt(t, i, true);
    OneLenient(t, SkipWhitespace(t, SkipWhitespace(t, q.next) + 1), p);
  }

  lemma {:induction false} ObjectLenient(t: Bytes, i: nat, p: Bytes, done: map<Bytes, Value>)
    requires i <= |t| && ObjectFrom(t, i, Options(true, p), done).Good?
    ensures ObjectFrom(t, i, Options(false, p), done) == ObjectFrom(t, i, Options(true, p), done)
    decreases |t| - i, 3
  {
    hide MemberAt, SkipWhitespace;
    MemberLenient(t, i, p);
    var m := MemberAt(t, i, Options(true, p));
    var s := SeparatorAt(t, m.next, '}');
    if s.Another? {
      ObjectLenient(t, s.next, p, done[m.value.0 := m.value.1]);
    }
  }

  /** Without strictParsing, every JSON text still decodes to the same value. */
  lemma LenientAgrees(t: Bytes, p: Bytes)
    requires InGrammar(t)
    ensures DecodeSpec(t, Options(false, p)) == DecodeSpec(t, Options(true, p))
  {
    AcceptsExactlyTheGrammar(t, Options(true, p));
    hide OneAt, SkipWhitespace, LuaSpaceEnd;
    OneLenient(t, 0, p);
  }

  // ---- sequences of \u escapes

  // A 16-bit code unit.
  type Unit = u: int | 0 <= u < 0x10000

  // \uXXXX for each group of four hexadecimal digits, in either case.
  function EscapeText(hexes: seq<Bytes>): Bytes {
    if hexes == [] then "" else "\\u" + hexes[0] + EscapeText(hexes[1..])
  }

  // The units that the digits spell.
  function UnitsOf(hexes: seq<Bytes>): (units: seq<Unit>)
    requires forall h :: h in hexes ==> IsHex4(h)
    ensures |units| == |hexes| && forall k :: 0 <= k < |hexes| ==> units[k] == Hex4Value(hexes[k])
  {
    seq(|hexes|, k requires 0 <= k < |hexes| => Hex4Value(hexes[k]))
  }

  // Section 7 of RFC 8259: the code points a sequence of UTF-16 units spells, surrogates left unpaired as they are.
  function CodePoints(units: seq<Unit>): (cps: seq<nat>)
    ensures forall k :: 0 <= k < |cps| ==> cps[k] <= 0x10FFFF
  {
    if units == [] then []
    else if |units| >= 2 && IsHigh(units[0]) && IsLow(units[1]) then
      [Paired(units[0], units[1])] + CodePoints(units[2..])
    else [units[0]] + CodePoints(units[1..])
  }

  // u is the RFC 3629 text of the code points, with "?" for each surrogate.
  ghost predicate SpellsUtf8(u: Bytes, cps: seq<nat>)
    decreases |cps|
  {
    if cps == [] then u == ""
    else exists b: Bytes ::
      && |b| <= |u| && u[..|b|] == b && SpellsUtf8(u[|b|..], cps[1..])
      && if IsScalar(cps[0]) then IsUtf8Char(b) && Utf8Value(b) == cps[0] else b == "?"
  }

  function EscapeItems(hexes: seq<Bytes>): (items: seq<StringItem>)
    requires forall h :: h in hexes ==> IsHex4(h)
    ensures ItemsOk(items) && |items| == |hexes|
    ensures forall k :: 0 <= k < |hexes| ==> items[k] == Uni(hexes[k])
    ensures FlattenItems(items) == EscapeText(hexes)
  {
    if hexes == [] then [] else [Uni(hexes[0])] + EscapeItems(hexes[1..])
  }

  lemma {:induction false} EscapesDenote(hexes: seq<Bytes>)
    requires forall h :: h in hexes ==> IsHex4(h)
    ensures SpellsUtf8(DenoteItems(EscapeItems(hexes)), CodePoints(UnitsOf(hexes)))
    decreases |hexes|
  {
    hide CodepointAsUtf8, IsUtf8Char, Utf8Value, ByteCount, Hex4Value;
    if hexes != [] {
      var items, units, cps := EscapeItems(hexes), UnitsOf(hexes), CodePoints(UnitsOf(hexes));
      var n := if |units| >= 2 && IsHigh(units[0]) && IsLow(units[1]) then 2 else 1;
      assert items[n..] == EscapeItems(hexes[n..]) && units[n..] == UnitsOf(hexes[n..]);
      EscapesDenote(hexes[n..]);
      var b := CodepointAsUtf8(cps[0]);
      EncodesScalars(cps[0]);
      var u := DenoteItems(items);
      assert u == b + DenoteItems(items[n..]);
      assert u[..|b|] == b && u[|b|..] == DenoteItems(items[n..]);
      assert cps[1..] == CodePoints(units[n..]);
    }
  }

  /**
   grok_string on any sequence of \u escapes, with digits in either case, returns the UTF-8 text
   of the paired code points.
   */
  lemma EscapesDecodeToUtf8(hexes: seq<Bytes>, t: Bytes, i: nat, strict: bool)
    requires forall h :: h in hexes ==> IsHex4(h)
    requires At(t, i, "\"" + EscapeText(hexes) + "\"")
    ensures var r := StringAt(t, i, strict);
            && r.Good? && r.next == i + 6 * |hexes| + 2
            && SpellsUtf8(r.value, CodePoints(UnitsOf(hexes)))
  {
    hide StringAt, DenoteItems, CodePoints, At, FlattenItems, EscapeText;
    var items := EscapeItems(hexes);
    EscapesDenote(hexes);
    EscapesLength(hexes);
    StringComplete(t, i, items);
    if !strict {
      StringLenient(t, i);
    }
  }

  lemma {:induction false} EscapesLength(hexes: seq<Bytes>)
    requires forall h :: h in hexes ==> IsHex4(h)
    ensures |EscapeText(hexes)| == 6 * |hexes|
  {
    if hexes != [] {
      assert IsHex4(hexes[0]);
      EscapesLength(hexes[1..]);
    }
  }
}
