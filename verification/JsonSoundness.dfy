/**
 Soundness of the strict parser: every value it returns is what some syntax tree denotes
 whose bytes are exactly the bytes that were read.
 */
module JsonSoundness {
  import opened Optional
  import opened LuaText
  import opened Utf8
  import opened JsonGrammar
  import opened JsonDecoder
  import opened JsonCompleteness

  // ---- soundness: numbers and strings

  lemma SliceAt(t: Bytes, i: nat, j: nat)
    requires i <= j <= |t|
    ensures At(t, i, t[i..j]) && |t[i..j]| == j - i
  {
  }

  lemma ByteAt(t: Bytes, i: nat)
    requires i < |t|
    ensures At(t, i, [t[i]])
  {
    assert t[i..i + 1] == [t[i]];
  }

  lemma IntegerSound(t: Bytes, i: nat)
    requires i <= |t| && IntegerEnd(t, i) != i
    ensures IsInt(t[i..IntegerEnd(t, i)])
  {
    var e := IntegerEnd(t, i);
    var s := t[i..e];
    var j := if t[i] == '-' then i + 1 else i;
    assert (if |s| > 0 && s[0] == '-' then s[1..] else s) == t[j..e];
  }

  lemma FractionSound(t: Bytes, i: nat)
    requires i <= |t|
    ensures IsFrac(t[i..FractionEnd(t, i)])
  {
    var e := FractionEnd(t, i);
    if e != i {
      assert t[i..e][1..] == t[i + 1..e];
    }
  }

  lemma ExponentSound(t: Bytes, i: nat)
    requires i <= |t|
    ensures IsExp(t[i..ExponentEnd(t, i)])
  {
    var e := ExponentEnd(t, i);
    if e != i {
      var s := t[i..e];
      assert s[1..] == t[i + 1..e];
      if t[i + 1] == '-' || t[i + 1] == '+' {
        assert s[2..] == t[i + 2..e];
      }
    }
  }

  // first is the item, or the surrogate pair of items, that one pass of grok_string reads at i.
  ghost predicate Reads(t: Bytes, i: nat, first: seq<StringItem>, r: Parsed<Bytes>) {
    && ItemsOk(first) && first != []
    && At(t, i, FlattenItems(first))
    && r == Good(DenoteItems(first), i + |FlattenItems(first)|)
    && if StartsPair(first) then |first| == 2
       else |first| == 1 && (first[0].Uni? && IsHigh(Hex4Value(first[0].hex)) ==> !LowSurrogateAt(t, r.next))
  }

  lemma ReadsSingle(t: Bytes, i: nat, item: StringItem, r: Parsed<Bytes>)
    requires ItemOk(item) && At(t, i, FlattenItem(item))
    requires r == Good(DenoteItem(item), i + |FlattenItem(item)|)
    requires item.Uni? && IsHigh(Hex4Value(item.hex)) ==> !LowSurrogateAt(t, r.next)
    ensures Reads(t, i, [item], r)
  {
    assert FlattenItems([item]) == FlattenItem(item);
    assert DenoteItems([item]) == DenoteItem(item);
  }

  lemma UnicodeSound(t: Bytes, i: nat) returns (first: seq<StringItem>)
    requires i + 6 <= |t| && t[i] == '\\' && t[i + 1] == 'u' && HexAt(t, i + 2)
    ensures var (codepoint, next) := UnicodeEscape(t, i);
            Reads(t, i, first, Good(CodepointAsUtf8(codepoint), next))
  {
    hide CodepointAsUtf8, UnicodeEscape, Hex4Value, Reads, FlattenItems, DenoteItems, LowSurrogateAt, At;
    var h := t[i + 2..i + 6];
    EscapeText(t, i);
    EscapeRead(t, i);
    if IsHigh(Hex4Value(h)) && LowSurrogateAt(t, i + 6) {
      LowSurrogateValue(t, i + 6);
      var l := t[i + 8..i + 12];
      EscapeText(t, i + 6);
      first := [Uni(h), Uni(l)];
      AtJoin(t, i, "\\u" + h, "\\u" + l);
      PairReads(t, i, h, l);
    } else {
      first := [Uni(h)];
      ReadsSingle(t, i, Uni(h), Good(CodepointAsUtf8(Hex4Value(h)), i + 6));
    }
  }

  lemma EscapeText(t: Bytes, i: nat)
    requires i + 6 <= |t| && t[i] == '\\' && t[i + 1] == 'u'
    ensures At(t, i, "\\u" + t[i + 2..i + 6]) && |"\\u" + t[i + 2..i + 6]| == 6
  {
    assert t[i..i + 6] == "\\u" + t[i + 2..i + 6];
  }

  lemma EscapeRead(t: Bytes, i: nat)
    requires i + 6 <= |t| && HexAt(t, i + 2)
    ensures var h := t[i + 2..i + 6];
      if IsHigh(Hex4Value(h)) && LowSurrogateAt(t, i + 6) then
        && i + 12 <= |t| && IsHex4(t[i + 8..i + 12]) && IsLow(Hex4Value(t[i + 8..i + 12]))
        && UnicodeEscape(t, i) == (Paired(Hex4Value(h), Hex4Value(t[i + 8..i + 12])), i + 12)
      else UnicodeEscape(t, i) == (Hex4Value(h), i + 6)
  {
    hide Hex4Value, LowSurrogateAt;
    LowSurrogateValue(t, i + 6);
  }

  lemma PairReads(t: Bytes, i: nat, h: Bytes, l: Bytes)
    requires IsHex4(h) && IsHex4(l) && IsHigh(Hex4Value(h)) && IsLow(Hex4Value(l))
    requires At(t, i, ("\\u" + h) + ("\\u" + l))
    ensures Reads(t, i, [Uni(h), Uni(l)], Good(CodepointAsUtf8(Paired(Hex4Value(h), Hex4Value(l))), i + 12))
  {
    hide CodepointAsUtf8, Hex4Value;
    var first := [Uni(h), Uni(l)];
    PairFlattens(h, l);
    assert first[1..] == [Uni(l)] && first[2..] == [];
    assert DenoteItems(first) == CodepointAsUtf8(Paired(Hex4Value(h), Hex4Value(l)));
  }

  lemma CharacterSound(t: Bytes, i: nat) returns (first: seq<StringItem>)
    requires i < |t| && t[i] != '"' && GrokCharacter(t, i, true).Good?
    ensures Reads(t, i, first, GrokCharacter(t, i, true))
  {
    hide FlattenItems, DenoteItems, Reads;
    var r := GrokCharacter(t, i, true);
    if t[i] != '\\' {
      first := [Raw(t[i..r.next])];
      ReadsSingle(t, i, first[0], r);
    } else if SimpleEscape(t[i + 1]).Some? {
      first := [Esc(t[i + 1])];
      assert t[i..i + 2] == ['\\', t[i + 1]];
      ReadsSingle(t, i, first[0], r);
    } else {
      first := UnicodeSound(t, i);
    }
  }

  lemma PairFlattens(h: Bytes, l: Bytes)
    ensures FlattenItems([Uni(h), Uni(l)]) == ("\\u" + h) + ("\\u" + l)
  {
    var items := [Uni(h), Uni(l)];
    assert items[1..] == [Uni(l)];
    assert FlattenItems(items[1..]) == "\\u" + l;
  }

  lemma {:induction false} FlattenItemsAppends(a: seq<StringItem>, b: seq<StringItem>)
    ensures FlattenItems(a + b) == FlattenItems(a) + FlattenItems(b)
  {
    hide FlattenItem;
    if a == [] {
      assert a + b == b;
    } else {
      FlattenItemsAppends(a[1..], b);
      assert (a + b)[1..] == a[1..] + b;
    }
  }

  // Items read one after the other denote the concatenation, provided no pair is torn apart.
  lemma DenoteItemsAppends(first: seq<StringItem>, rest: seq<StringItem>)
    requires ItemsOk(first) && ItemsOk(rest) && first != []
    requires if StartsPair(first) then |first| == 2 else |first| == 1 && !StartsPair(first + rest)
    ensures ItemsOk(first + rest) && DenoteItems(first + rest) == DenoteItems(first) + DenoteItems(rest)
  {
    if StartsPair(first) {
      assert (first + rest)[2..] == rest && first[2..] == [];
    } else {
      assert (first + rest)[1..] == rest && first[1..] == [];
    }
  }

  // One pass of the loop of grok_string that succeeds.
  lemma StringPass(t: Bytes, i: nat)
    requires i <= |t| && StringFrom(t, i, true).Good? && t[i] != '"'
    ensures i < |t| && GrokCharacter(t, i, true).Good?
    ensures var c := GrokCharacter(t, i, true); var rest := StringFrom(t, c.next, true);
      i < c.next <= |t| && rest.Good? && StringFrom(t, i, true) == Good(c.value + rest.value, rest.next)
  {
    hide GrokCharacter;
  }

  lemma StringEnds(t: Bytes, i: nat)
    requires i < |t| && t[i] == '"'
    ensures At(t, i, FlattenItems([]) + "\"")
    ensures StringFrom(t, i, true) == Good(DenoteItems([]), i + |FlattenItems([])| + 1)
  {
    hide GrokCharacter, FlattenItems, DenoteItems;
    NoItems();
    SliceAt(t, i, i + 1);
    assert t[i..i + 1] == "\"" == "" + "\"";
  }

  lemma NoItems()
    ensures FlattenItems([]) == "" && DenoteItems([]) == ""
  {
  }

  // The first items, and those found behind them.
  lemma JoinItems(t: Bytes, i: nat, first: seq<StringItem>, rest: seq<StringItem>)
    requires i < |t| && Reads(t, i, first, GrokCharacter(t, i, true)) && ItemsOk(rest)
    requires At(t, i + |FlattenItems(first)|, FlattenItems(rest) + "\"")
    ensures ItemsOk(first + rest) && At(t, i, FlattenItems(first + rest) + "\"")
    ensures FlattenItems(first + rest) == FlattenItems(first) + FlattenItems(rest)
    ensures DenoteItems(first + rest) == DenoteItems(first) + DenoteItems(rest)
  {
    hide GrokCharacter, LowSurrogateAt, FlattenItem, FlattenItems, DenoteItem, DenoteItems, At;
    LowSurrogateIsItem(t, i + |FlattenItems(first)|, rest);
    FlattenItemsAppends(first, rest);
    AtJoin(t, i, FlattenItems(first), FlattenItems(rest) + "\"");
    assert FlattenItems(first + rest) + "\"" == FlattenItems(first) + (FlattenItems(rest) + "\"");
    DenoteItemsAppends(first, rest);
  }

  lemma {:induction false} StringFromSound(t: Bytes, i: nat) returns (items: seq<StringItem>)
    requires i <= |t| && StringFrom(t, i, true).Good?
    ensures var r := StringFrom(t, i, true);
            && ItemsOk(items) && At(t, i, FlattenItems(items) + "\"")
            && r == Good(DenoteItems(items), i + |FlattenItems(items)| + 1)
    decreases |t| - i
  {
    hide GrokCharacter, FlattenItem, FlattenItems, DenoteItem, DenoteItems, At, LowSurrogateAt, StartsPair;
    if t[i] == '"' {
      items := [];
      StringEnds(t, i);
    } else {
      StringPass(t, i);
      var first := CharacterSound(t, i);
      var c := GrokCharacter(t, i, true);
      var rest := StringFromSound(t, c.next);
      items := first + rest;
      JoinItems(t, i, first, rest);
    }
  }

  lemma StringSound(t: Bytes, i: nat) returns (items: seq<StringItem>)
    requires i <= |t| && StringAt(t, i, true).Good?
    ensures ItemsOk(items) && At(t, i, Quoted(items))
    ensures StringAt(t, i, true) == Good(DenoteItems(items), i + |Quoted(items)|)
  {
    items := StringFromSound(t, i + 1);
    SliceAt(t, i, i + 1);
    AtJoin(t, i, "\"", FlattenItems(items) + "\"");
    assert Quoted(items) == "\"" + (FlattenItems(items) + "\"");
  }

  // ---- soundness: values

  lemma BlankSkipped(t: Bytes, i: nat) returns (w: Bytes)
    requires i <= |t|
    ensures IsBlank(w) && At(t, i, w) && SkipWhitespace(t, i) == i + |w|
  {
    w := t[i..SkipWhitespace(t, i)];
  }

  // c derives the value that grok_one returns from i.
  ghost predicate Derives(t: Bytes, i: nat, o: Options, c: Syntax, r: Parsed<Value>) {
    Ok(c) && At(t, i, Flatten(c)) && r == Good(Denote(c, o.placeholder), i + |Flatten(c)|)
  }

  lemma ScalarSound(t: Bytes, i: nat, o: Options) returns (c: Syntax)
    requires i < |t| && !IsSpace(t[i]) && t[i] != '{' && t[i] != '[' && OneAt(t, i, o).Good? && o.strict
    ensures Derives(t, i, o, c, OneAt(t, i, o))
  {
    hide GrokNumber, StringFrom;
    if t[i] == '"' {
      var items := StringSound(t, i);
      c := SStr(items);
    } else if t[i] == '-' || IsDigit(t[i]) {
      c := NumberSound(t, i);
    } else if StartsWith(t, i, "true") {
      c := STrue;
    } else if StartsWith(t, i, "false") {
      c := SFalse;
    } else {
      c := SNull;
    }
  }

  lemma NumberSound(t: Bytes, i: nat) returns (c: Syntax)
    requires i < |t| && GrokNumber(t, i).Good?
    ensures c.SNum? && Ok(c) && At(t, i, Flatten(c)) && GrokNumber(t, i) == Good(Flatten(c), i + |Flatten(c)|)
  {
    hide IntegerEnd, FractionEnd, ExponentEnd, IsInt, IsFrac, IsExp;
    var a := IntegerEnd(t, i);
    var b := FractionEnd(t, a);
    var e := ExponentEnd(t, b);
    c := SNum(t[i..a], t[a..b], t[b..e]);
    IntegerSound(t, i);
    FractionSound(t, a);
    ExponentSound(t, b);
  }

  lemma DispatchesScalar(t: Bytes, start: nat, o: Options)
    requires start <= |t|
    ensures OneAt(t, start, o) == OneAt(t, SkipWhitespace(t, start), o)
    ensures OneAt(t, start, o).Good? ==> SkipWhitespace(t, start) < |t|
  {
    hide StringAt, GrokNumber, ObjectAt, ArrayAt, At;
    SkipsExactly(t, SkipWhitespace(t, start), "");
  }

  lemma {:induction false} OneSound(t: Bytes, start: nat, o: Options) returns (c: Syntax)
    requires start <= |t| && OneAt(t, start, o).Good? && o.strict
    ensures Derives(t, SkipWhitespace(t, start), o, c, OneAt(t, start, o))
    decreases |t| - start, 1
  {
    hide OneAt, SkipWhitespace, ArrayAt, ObjectAt, Derives;
    var i := SkipWhitespace(t, start);
    DispatchesScalar(t, start, o);
    Dispatches(t, start, o);
    if t[i] == '[' {
      c := ArraySound(t, i, o);
    } else if t[i] == '{' {
      c := ObjectSound(t, i, o);
    } else {
      c := ScalarSound(t, i, o);
    }
  }

  lemma {:induction false} ArraySound(t: Bytes, i: nat, o: Options) returns (c: Syntax)
    requires i < |t| && t[i] == '[' && ArrayAt(t, i, o).Good? && o.strict
    ensures Derives(t, i, o, c, ArrayAt(t, i, o))
    decreases |t| - i, 0
  {
    hide SkipWhitespace, ArrayFrom, FlattenElements, DenoteElements, At;
    var w := BlankSkipped(t, i + 1);
    var j := i + 1 + |w|;
    ByteAt(t, i);
    AtJoin(t, i, "[", w);
    if j < |t| && t[j] == ']' {
      ByteAt(t, j);
      AtJoin(t, i, "[" + w, "]");
      c := SEmptyArr(w);
    } else {
      var es := ElementsSound(t, j, o, []);
      c := SArr(PrependBlank(es, w));
      FullArraySound(t, i, w, es, o);
      assert [] + DenoteElements(es, o.placeholder) == DenoteElements(es, o.placeholder);
    }
  }

  lemma FullArraySound(t: Bytes, i: nat, w: Bytes, es: Elements, o: Options)
    requires IsBlank(w) && At(t, i, "[" + w) && ElementsOk(es) && At(t, i + 1 + |w|, FlattenElements(es))
    ensures var r := Good(Arr(DenoteElements(es, o.placeholder)), i + 1 + |w| + |FlattenElements(es)|);
            Derives(t, i, o, SArr(PrependBlank(es, w)), r)
  {
    hide FlattenElements, DenoteElements, ElementsOk;
    AtJoin(t, i, "[" + w, FlattenElements(es));
    PrependBlankOk(es, w, o.placeholder);
    assert "[" + (w + FlattenElements(es)) == ("[" + w) + FlattenElements(es);
  }

  lemma {:induction false} ObjectSound(t: Bytes, i: nat, o: Options) returns (c: Syntax)
    requires i < |t| && t[i] == '{' && ObjectAt(t, i, o).Good? && o.strict
    ensures Derives(t, i, o, c, ObjectAt(t, i, o))
    decreases |t| - i, 0
  {
    hide SkipWhitespace, ObjectFrom, FlattenMembers, DenoteMembers, At;
    var w := BlankSkipped(t, i + 1);
    var j := i + 1 + |w|;
    ByteAt(t, i);
    AtJoin(t, i, "{", w);
    if j < |t| && t[j] == '}' {
      ByteAt(t, j);
      AtJoin(t, i, "{" + w, "}");
      c := SEmptyObj(w);
    } else {
      var ms := MembersSound(t, j, o, map[]);
      c := SObj(PrependBlankMember(ms, w));
      FullObjectSound(t, i, w, ms, o);
    }
  }

  lemma FullObjectSound(t: Bytes, i: nat, w: Bytes, ms: Members, o: Options)
    requires IsBlank(w) && At(t, i, "{" + w) && MembersOk(ms) && At(t, i + 1 + |w|, FlattenMembers(ms))
    ensures var r := Good(Obj(DenoteMembers(ms, o.placeholder, map[])), i + 1 + |w| + |FlattenMembers(ms)|);
            Derives(t, i, o, SObj(PrependBlankMember(ms, w)), r)
  {
    hide FlattenMembers, DenoteMembers, MembersOk;
    AtJoin(t, i, "{" + w, FlattenMembers(ms));
    PrependBlankMemberOk(ms, w, o.placeholder, map[]);
    assert "{" + (w + FlattenMembers(ms)) == ("{" + w) + FlattenMembers(ms);
  }

  function PrependBlank(es: Elements, w: Bytes): Elements {
    es.(before := w + es.before)
  }

  lemma PrependBlankOk(es: Elements, w: Bytes, placeholder: Bytes)
    requires ElementsOk(es) && IsBlank(w)
    ensures ElementsOk(PrependBlank(es, w))
    ensures FlattenElements(PrependBlank(es, w)) == w + FlattenElements(es)
    ensures DenoteElements(PrependBlank(es, w), placeholder) == DenoteElements(es, placeholder)
  {
    hide Flatten, Denote, Ok;
    var es' := PrependBlank(es, w);
    ElementsShape(es);
    ElementsShape(es');
    assert ElementsTail(es') == ElementsTail(es);
    var rest := Flatten(es.v) + (es.after + ElementsTail(es));
    assert (w + es.before) + rest == w + (es.before + rest);
  }

  function PrependBlankMember(ms: Members, w: Bytes): Members {
    ms.(before := w + ms.before)
  }

  lemma PrependBlankMemberOk(ms: Members, w: Bytes, placeholder: Bytes, done: map<Bytes, Value>)
    requires MembersOk(ms) && IsBlank(w)
    ensures MembersOk(PrependBlankMember(ms, w))
    ensures FlattenMembers(PrependBlankMember(ms, w)) == w + FlattenMembers(ms)
    ensures DenoteMembers(PrependBlankMember(ms, w), placeholder, done) == DenoteMembers(ms, placeholder, done)
  {
    hide Flatten, Denote, Ok, Quoted, FlattenMembers;
    PrependedText(ms, w);
  }

  lemma TailUnchanged(ms: Members, w: Bytes)
    ensures MembersTail(PrependBlankMember(ms, w)) == MembersTail(ms)
  {
    hide FlattenMembers;
  }

  lemma PrependedText(ms: Members, w: Bytes)
    ensures FlattenMembers(PrependBlankMember(ms, w)) == w + FlattenMembers(ms)
  {
    hide Flatten, Quoted, FlattenMembers, MembersTail;
    MembersShape(ms);
    MembersShape(PrependBlankMember(ms, w));
    TailUnchanged(ms, w);
    var behind := ms.postColon + (Flatten(ms.v) + (ms.after + MembersTail(ms)));
    var rest := Quoted(ms.key) + (ms.preColon + (":" + behind));
    assert (w + ms.before) + rest == w + (ms.before + rest);
  }

  // An element put together from the pieces found at i, at k (the separator) and beyond.
  lemma BuildElement(t: Bytes, i: nat, before: Bytes, c: Syntax, after: Bytes, w: Bytes, rest: Elements,
                     placeholder: Bytes)
    returns (es: Elements)
    requires IsBlank(before) && Ok(c) && IsBlank(after) && IsBlank(w) && ElementsOk(rest)
    requires At(t, i, before) && At(t, i + |before|, Flatten(c)) && At(t, i + |before| + |Flatten(c)|, after)
    requires var k := i + |before| + |Flatten(c)| + |after|;
             At(t, k, ",") && At(t, k + 1, w) && At(t, k + 1 + |w|, FlattenElements(rest))
    ensures ElementsOk(es) && At(t, i, FlattenElements(es))
    ensures DenoteElements(es, placeholder) == [Denote(c, placeholder)] + DenoteElements(rest, placeholder)
    ensures |FlattenElements(es)|
            == |before| + |Flatten(c)| + |after| + 1 + |w| + |FlattenElements(rest)|
  {
    PrependBlankOk(rest, w, placeholder);
    es := Element(before, c, after, PrependBlank(rest, w));
    var f, g := Flatten(c), FlattenElements(rest);
    assert FlattenElements(es) == before + f + after + ("," + (w + g));
    hide *;
    JoinElement(t, i, before, f, after, "," + (w + g), w, g);
  }

  lemma JoinElement(t: Bytes, i: nat, before: Bytes, f: Bytes, after: Bytes, tail: Bytes, w: Bytes, g: Bytes)
    requires At(t, i, before) && At(t, i + |before|, f) && At(t, i + |before| + |f|, after)
    requires tail == "," + (w + g)
    requires var k := i + |before| + |f| + |after|; At(t, k, ",") && At(t, k + 1, w) && At(t, k + 1 + |w|, g)
    ensures At(t, i, before + f + after + tail)
  {
    hide At;
    AtJoin(t, i, before, f);
    AtJoin(t, i, before + f, after);
    var k := i + |before| + |f| + |after|;
    AtJoin(t, k + 1, w, g);
    AtJoin(t, k, ",", w + g);
    AtJoin(t, i, before + f + after, tail);
  }

  lemma BuildLastElement(t: Bytes, i: nat, before: Bytes, c: Syntax, after: Bytes, placeholder: Bytes)
    returns (es: Elements)
    requires IsBlank(before) && Ok(c) && IsBlank(after)
    requires At(t, i, before) && At(t, i + |before|, Flatten(c)) && At(t, i + |before| + |Flatten(c)|, after)
    requires At(t, i + |before| + |Flatten(c)| + |after|, "]")
    ensures ElementsOk(es) && At(t, i, FlattenElements(es))
    ensures DenoteElements(es, placeholder) == [Denote(c, placeholder)]
    ensures |FlattenElements(es)| == |before| + |Flatten(c)| + |after| + 1
  {
    es := LastElement(before, c, after);
    hide Flatten, Denote, At;
    AtJoin(t, i, before, Flatten(c));
    AtJoin(t, i, before + Flatten(c), after);
    AtJoin(t, i, before + Flatten(c) + after, "]");
  }

  lemma ElementRead(t: Bytes, i: nat, o: Options, done: seq<Value>)
    requires i <= |t| && ArrayFrom(t, i, o, done).Good?
    ensures OneAt(t, i, o).Good?
    ensures var r := OneAt(t, i, o); var k := SkipWhitespace(t, r.next);
            && k < |t| && (t[k] == ']' || t[k] == ',') && At(t, k, [t[k]])
            && ArrayFrom(t, i, o, done)
               == if t[k] == ']' then Good(Arr(done + [r.value]), k + 1)
                  else ArrayFrom(t, SkipWhitespace(t, k + 1), o, done + [r.value])
  {
    hide OneAt, SkipWhitespace;
  }

  lemma {:induction false} ElementsSound(t: Bytes, i: nat, o: Options, done: seq<Value>) returns (es: Elements)
    requires i <= |t| && ArrayFrom(t, i, o, done).Good? && o.strict
    ensures ElementsOk(es) && At(t, i, FlattenElements(es))
    ensures ArrayFrom(t, i, o, done) == Good(Arr(done + DenoteElements(es, o.placeholder)), i + |FlattenElements(es)|)
    decreases |t| - i, 2
  {
    hide OneAt, ArrayFrom, SkipWhitespace, Flatten, Denote, At, FlattenElements, DenoteElements;
    ElementRead(t, i, o, done);
    var c := OneSound(t, i, o);
    var r := OneAt(t, i, o);
    var before := BlankSkipped(t, i);
    var after := BlankSkipped(t, r.next);
    var k := r.next + |after|;
    if t[k] == ']' {
      es := BuildLastElement(t, i, before, c, after, o.placeholder);
    } else {
      var w := BlankSkipped(t, k + 1);
      var rest := ElementsSound(t, k + 1 + |w|, o, done + [r.value]);
      es := BuildElement(t, i, before, c, after, w, rest, o.placeholder);
      assert done + [r.value] + DenoteElements(rest, o.placeholder) == done + DenoteElements(es, o.placeholder);
    }
  }

  // The key, the colon and the value of a member, before what follows it is known.
  function MemberHead(ms: Members): Bytes {
    Quoted(ms.key) + ms.preColon + ":" + ms.postColon + Flatten(ms.v)
  }

  lemma BuildMember(t: Bytes, i: nat, key: seq<StringItem>, pre: Bytes, post: Bytes, c: Syntax) returns (ms: Members)
    requires ItemsOk(key) && IsBlank(pre) && IsBlank(post) && Ok(c)
    requires At(t, i, Quoted(key)) && At(t, i + |Quoted(key)|, pre)
    requires var p := i + |Quoted(key)| + |pre|;
             At(t, p, ":") && At(t, p + 1, post) && At(t, p + 1 + |post|, Flatten(c))
    ensures ms == LastMember("", key, pre, post, c, "") && MembersOk(ms) && At(t, i, MemberHead(ms))
    ensures |MemberHead(ms)| == |Quoted(key)| + |pre| + 1 + |post| + |Flatten(c)|
  {
    ms := LastMember("", key, pre, post, c, "");
    hide Flatten, Quoted, At;
    AtJoin(t, i, Quoted(key), pre);
    AtJoin(t, i, Quoted(key) + pre, ":");
    AtJoin(t, i, Quoted(key) + pre + ":", post);
    AtJoin(t, i, Quoted(key) + pre + ":" + post, Flatten(c));
  }

  lemma MemberRead(t: Bytes, i: nat, o: Options) returns (q: Parsed<Bytes>, c: nat)
    requires i <= |t| && MemberAt(t, i, o).Good?
    ensures q == StringAt(t, i, o.strict) && q.Good? && q.next <= |t| && c == SkipWhitespace(t, q.next)
    ensures c < |t| && At(t, c, ":")
    ensures var v := OneAt(t, SkipWhitespace(t, c + 1), o);
            v.Good? && MemberAt(t, i, o) == Good((q.value, v.value), v.next)
  {
    hide OneAt, StringAt, SkipWhitespace;
    q := StringAt(t, i, o.strict);
    c := SkipWhitespace(t, q.next);
  }

  lemma {:induction false} MemberSound(t: Bytes, i: nat, o: Options) returns (ms: Members)
    requires i <= |t| && MemberAt(t, i, o).Good? && o.strict
    ensures ms.LastMember? && MembersOk(ms) && ms.before == "" && ms.after == "" && At(t, i, MemberHead(ms))
    ensures MemberAt(t, i, o)
            == Good((DenoteItems(ms.key), Denote(ms.v, o.placeholder)), i + |MemberHead(ms)|)
    decreases |t| - i, 2
  {
    hide OneAt, SkipWhitespace, StringAt, MemberAt, Flatten, Quoted, Denote, DenoteItems, At, MemberHead;
    var q, k := MemberRead(t, i, o);
    var key := StringSound(t, i);
    var pre := BlankSkipped(t, i + |Quoted(key)|);
    var p := i + |Quoted(key)| + |pre|;
    var post := BlankSkipped(t, p + 1);
    var c := OneSound(t, p + 1 + |post|, o);
    AtNothing(t, p + 1 + |post|);
    SkipsOver(t, p + 1, post);
    ms := BuildMember(t, i, key, pre, post, c);
  }

  lemma AtNothing(t: Bytes, i: nat)
    requires i <= |t|
    ensures At(t, i, "")
  {
  }

  lemma BuildMembers(t: Bytes, i: nat, m: Members, after: Bytes, w: Bytes, rest: Members, placeholder: Bytes,
                     done: map<Bytes, Value>)
    returns (ms: Members)
    requires m.LastMember? && MembersOk(m) && m.before == "" && IsBlank(after) && IsBlank(w) && MembersOk(rest)
    requires At(t, i, MemberHead(m)) && At(t, i + |MemberHead(m)|, after)
    requires var k := i + |MemberHead(m)| + |after|;
             At(t, k, ",") && At(t, k + 1, w) && At(t, k + 1 + |w|, FlattenMembers(rest))
    ensures MembersOk(ms) && At(t, i, FlattenMembers(ms))
    ensures DenoteMembers(ms, placeholder, done)
            == DenoteMembers(rest, placeholder, done[DenoteItems(m.key) := Denote(m.v, placeholder)])
    ensures |FlattenMembers(ms)| == |MemberHead(m)| + |after| + 1 + |w| + |FlattenMembers(rest)|
  {
    var done' := done[DenoteItems(m.key) := Denote(m.v, placeholder)];
    PrependBlankMemberOk(rest, w, placeholder, done');
    ms := Member("", m.key, m.preColon, m.postColon, m.v, after, PrependBlankMember(rest, w));
    var s, g := MemberHead(m), FlattenMembers(rest);
    assert FlattenMembers(ms) == s + after + ("," + (w + g)) by { assert "" + Quoted(m.key) == Quoted(m.key); }
    hide *;
    AtNothing(t, i);
    JoinElement(t, i, "", s, after, "," + (w + g), w, g);
    assert "" + s == s;
  }

  lemma BuildLastMember(t: Bytes, i: nat, m: Members, after: Bytes, placeholder: Bytes, done: map<Bytes, Value>)
    returns (ms: Members)
    requires m.LastMember? && MembersOk(m) && m.before == "" && IsBlank(after)
    requires At(t, i, MemberHead(m)) && At(t, i + |MemberHead(m)|, after) && At(t, i + |MemberHead(m)| + |after|, "}")
    ensures MembersOk(ms) && At(t, i, FlattenMembers(ms))
    ensures DenoteMembers(ms, placeholder, done) == done[DenoteItems(m.key) := Denote(m.v, placeholder)]
    ensures |FlattenMembers(ms)| == |MemberHead(m)| + |after| + 1
  {
    ms := LastMember("", m.key, m.preColon, m.postColon, m.v, after);
    var s := MemberHead(m);
    assert FlattenMembers(ms) == s + after + "}" by { assert "" + Quoted(m.key) == Quoted(m.key); }
    hide At;
    AtJoin(t, i, s, after);
    AtJoin(t, i, s + after, "}");
  }

  lemma MembersRead(t: Bytes, i: nat, o: Options, done: map<Bytes, Value>)
    requires i <= |t| && ObjectFrom(t, i, o, done).Good?
    ensures MemberAt(t, i, o).Good?
    ensures var r := MemberAt(t, i, o); var k := SkipWhitespace(t, r.next); var done' := done[r.value.0 := r.value.1];
            && k < |t| && (t[k] == '}' || t[k] == ',') && At(t, k, [t[k]])
            && ObjectFrom(t, i, o, done)
               == if t[k] == '}' then Good(Obj(done'), k + 1)
                  else ObjectFrom(t, SkipWhitespace(t, k + 1), o, done')
  {
    hide MemberAt, SkipWhitespace;
  }

  lemma {:induction false} MembersSound(t: Bytes, i: nat, o: Options, done: map<Bytes, Value>) returns (ms: Members)
    requires i <= |t| && ObjectFrom(t, i, o, done).Good? && o.strict
    ensures MembersOk(ms) && At(t, i, FlattenMembers(ms))
    ensures ObjectFrom(t, i, o, done)
            == Good(Obj(DenoteMembers(ms, o.placeholder, done)), i + |FlattenMembers(ms)|)
    decreases |t| - i, 3
  {
    hide MemberAt, ObjectFrom, SkipWhitespace, Flatten, Quoted, Denote, DenoteItems, FlattenMembers, DenoteMembers, At;
    hide MemberHead;
    MembersRead(t, i, o, done);
    var m := MemberSound(t, i, o);
    var r := MemberAt(t, i, o);
    var after := BlankSkipped(t, r.next);
    var k := r.next + |after|;
    if t[k] == '}' {
      ms := BuildLastMember(t, i, m, after, o.placeholder, done);
    } else {
      var w := BlankSkipped(t, k + 1);
      var rest := MembersSound(t, k + 1 + |w|, o, done[r.value.0 := r.value.1]);
      ms := BuildMembers(t, i, m, after, w, rest, o.placeholder, done);
    }
  }
}
