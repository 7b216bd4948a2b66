/**
 Completeness of the strict parser: wherever a text has the bytes of a syntax tree, the
 parser reads that tree to its end and returns what it denotes.
 */
module JsonCompleteness {
  import opened LuaText
  import opened Utf8
  import opened JsonGrammar
  import opened JsonDecoder

  // ---- completeness: numbers

  lemma DigitsEndExactly(t: Bytes, i: nat, s: Bytes)
    requires At(t, i, s) && IsDigits(s)
    requires i + |s| < |t| ==> !IsDigit(t[i + |s|])
    ensures DigitsEnd(t, i) == i + |s|
  {
    forall k | i <= k < i + |s|
      ensures IsDigit(t[k])
    {
      AtChar(t, i, s, k - i);
    }
  }

  // What may follow a number lexeme without being read into it.
  predicate StopsNumber(t: Bytes, i: nat) {
    i < |t| ==> !IsDigit(t[i]) && t[i] != '.' && t[i] != 'e' && t[i] != 'E'
  }

  lemma IntegerComplete(t: Bytes, i: nat, s: Bytes)
    requires At(t, i, s) && IsInt(s)
    requires i + |s| < |t| ==> !IsDigit(t[i + |s|])
    ensures IntegerEnd(t, i) == i + |s| && |s| > 0 && (t[i] == '-' || IsDigit(t[i]))
  {
    hide At, DigitsEnd;
    AtChar(t, i, s, 0);
    var n := if s[0] == '-' then 1 else 0;
    var u := s[n..];
    assert s == s[..n] + u;
    AtSplit(t, i, s[..n], u);
    AtChar(t, i + n, u, 0);
    if u != "0" {
      DigitsEndExactly(t, i + n, u);
    }
  }

  lemma FractionComplete(t: Bytes, i: nat, s: Bytes)
    requires At(t, i, s) && IsFrac(s)
    requires i + |s| < |t| ==> !IsDigit(t[i + |s|]) && t[i + |s|] != '.'
    ensures FractionEnd(t, i) == i + |s|
  {
    if s != "" {
      AtChar(t, i, s, 0);
      AtChar(t, i, s, 1);
      assert s == s[..1] + s[1..];
      AtSplit(t, i, s[..1], s[1..]);
      assert IsDigit(s[1..][0]);
      DigitsEndExactly(t, i + 1, s[1..]);
    }
  }

  lemma ExponentComplete(t: Bytes, i: nat, s: Bytes)
    requires At(t, i, s) && IsExp(s)
    requires StopsNumber(t, i + |s|)
    ensures ExponentEnd(t, i) == i + |s|
  {
    hide At, DigitsEnd;
    if s != "" {
      AtChar(t, i, s, 0);
      AtChar(t, i, s, 1);
      var n := if s[1] == '-' || s[1] == '+' then 2 else 1;
      var u := s[n..];
      assert s == s[..n] + u;
      AtSplit(t, i, s[..n], u);
      AtChar(t, i + n, u, 0);
      assert IsDigit(u[0]);
      DigitsEndExactly(t, i + n, u);
    }
  }

  lemma FractionStart(t: Bytes, i: nat, s: Bytes)
    requires At(t, i, s) && IsFrac(s)
    ensures i + |s| <= |t| && (s != "" ==> i < |t| && t[i] == '.')
  {
    if s != "" {
      AtChar(t, i, s, 0);
    }
  }

  lemma ExponentStart(t: Bytes, i: nat, s: Bytes)
    requires At(t, i, s) && IsExp(s)
    ensures i + |s| <= |t| && (s != "" ==> i < |t| && (t[i] == 'e' || t[i] == 'E'))
  {
    if s != "" {
      AtChar(t, i, s, 0);
    }
  }

  lemma NumberEnds(t: Bytes, i: nat, whole: Bytes, frac: Bytes, exp: Bytes)
    requires At(t, i, whole) && At(t, i + |whole|, frac) && At(t, i + |whole| + |frac|, exp)
    requires IsInt(whole) && IsFrac(frac) && IsExp(exp)
    requires StopsNumber(t, i + |whole| + |frac| + |exp|)
    ensures IntegerEnd(t, i) == i + |whole| && FractionEnd(t, i + |whole|) == i + |whole| + |frac|
    ensures ExponentEnd(t, i + |whole| + |frac|) == i + |whole| + |frac| + |exp|
    ensures |whole| > 0 && (t[i] == '-' || IsDigit(t[i]))
  {
    hide IntegerEnd, FractionEnd, ExponentEnd, IsInt, IsFrac, IsExp, At;
    var j, k := i + |whole|, i + |whole| + |frac|;
    FractionStart(t, j, frac);
    ExponentStart(t, k, exp);
    assert k < |t| ==> !IsDigit(t[k]) && t[k] != '.';
    assert j < |t| ==> !IsDigit(t[j]);
    IntegerComplete(t, i, whole);
    FractionComplete(t, i + |whole|, frac);
    ExponentComplete(t, i + |whole| + |frac|, exp);
  }

  lemma NumberComplete(t: Bytes, i: nat, whole: Bytes, frac: Bytes, exp: Bytes)
    requires At(t, i, whole + frac + exp) && IsInt(whole) && IsFrac(frac) && IsExp(exp)
    requires StopsNumber(t, i + |whole + frac + exp|)
    ensures GrokNumber(t, i) == Good(whole + frac + exp, i + |whole + frac + exp|)
    ensures t[i] == '-' || IsDigit(t[i])
  {
    hide IntegerEnd, FractionEnd, ExponentEnd, IsInt, IsFrac, IsExp;
    AtSplit(t, i, whole + frac, exp);
    AtSplit(t, i, whole, frac);
    NumberEnds(t, i, whole, frac, exp);
  }

  // ---- completeness: strings

  lemma ContinuesGroup(t: Bytes, i: nat, g: Bytes)
    requires At(t, i, g) && IsGroup(g)
    ensures t[i] == g[0] && Continues(t, i, |g|) && t[i..i + |g|] == g
  {
    AtChar(t, i, g, 0);
    forall k | i + 1 <= k < i + |g|
      ensures IsContinuation(t[k])
    {
      AtChar(t, i, g, k - i);
    }
  }

  lemma UniAt(t: Bytes, i: nat, h: Bytes)
    requires At(t, i, "\\u" + h) && IsHex4(h)
    ensures i + 6 <= |t| && t[i] == '\\' && t[i + 1] == 'u' && t[i + 2..i + 6] == h
  {
    AtSplit(t, i, "\\u", h);
    AtChar(t, i, "\\u", 0);
    AtChar(t, i, "\\u", 1);
  }

  // Only a \u item can be taken for the second half of a surrogate pair.
  lemma LowSurrogateIsItem(t: Bytes, i: nat, items: seq<StringItem>)
    requires ItemsOk(items) && At(t, i, FlattenItems(items) + "\"")
    ensures LowSurrogateAt(t, i) <==> items != [] && items[0].Uni? && IsLow(Hex4Value(items[0].hex))
  {
    LowSurrogateValue(t, i);
    if items == [] {
      AtChar(t, i, FlattenItems(items) + "\"", 0);
    } else {
      var rest := FlattenItems(items[1..]) + "\"";
      assert FlattenItems(items) + "\"" == FlattenItem(items[0]) + rest;
      AtSplit(t, i, FlattenItem(items[0]), rest);
      match items[0]
      case Raw(g) => ContinuesGroup(t, i, g);
      case Esc(c) => AtChar(t, i, ['\\', c], 1);
      case Uni(h) => UniAt(t, i, h);
    }
  }

  lemma CharacterComplete(t: Bytes, i: nat, item: StringItem)
    requires ItemOk(item) && At(t, i, FlattenItem(item))
    requires item.Uni? && IsHigh(Hex4Value(item.hex)) ==> !LowSurrogateAt(t, i + 6)
    ensures i < |t| && t[i] != '"'
    ensures GrokCharacter(t, i, true) == Good(DenoteItem(item), i + |FlattenItem(item)|)
  {
    match item
    case Raw(g) => ContinuesGroup(t, i, g);
    case Esc(c) => AtChar(t, i, ['\\', c], 0); AtChar(t, i, ['\\', c], 1);
    case Uni(h) => UniAt(t, i, h);
  }

  lemma PairComplete(t: Bytes, i: nat, items: seq<StringItem>)
    requires ItemsOk(items) && StartsPair(items)
    requires At(t, i, FlattenItem(items[0])) && At(t, i + 6, FlattenItem(items[1]))
    ensures i < |t| && t[i] != '"' && i + 12 <= |t|
    ensures GrokCharacter(t, i, true)
            == Good(CodepointAsUtf8(Paired(Hex4Value(items[0].hex), Hex4Value(items[1].hex))), i + 12)
  {
    UniAt(t, i, items[0].hex);
    UniAt(t, i + 6, items[1].hex);
    LowSurrogateValue(t, i + 6);
  }

  lemma SingleComplete(t: Bytes, i: nat, items: seq<StringItem>)
    requires items != [] && ItemsOk(items) && !StartsPair(items)
    requires At(t, i, FlattenItem(items[0]))
    requires At(t, i + |FlattenItem(items[0])|, FlattenItems(items[1..]) + "\"")
    ensures i < |t| && t[i] != '"'
    ensures GrokCharacter(t, i, true) == Good(DenoteItem(items[0]), i + |FlattenItem(items[0])|)
  {
    LowSurrogateIsItem(t, i + |FlattenItem(items[0])|, items[1..]);
    CharacterComplete(t, i, items[0]);
  }

  // One character more in front.
  lemma StringStep(t: Bytes, i: nat, c: Bytes, next: nat, rest: Bytes, end: nat)
    requires i < |t| && t[i] != '"' && GrokCharacter(t, i, true) == Good(c, next) && i < next <= |t|
    requires StringFrom(t, next, true) == Good(rest, end)
    ensures StringFrom(t, i, true) == Good(c + rest, end)
  {
    hide GrokCharacter;
  }

  // How a string with a pair at its start is put together, and one without.
  lemma PairStarts(items: seq<StringItem>)
    requires ItemsOk(items) && StartsPair(items)
    ensures ItemsOk(items[2..]) && |FlattenItem(items[0])| == 6
    ensures FlattenItems(items) + "\""
         == FlattenItem(items[0]) + (FlattenItem(items[1]) + (FlattenItems(items[2..]) + "\""))
    ensures |FlattenItems(items)| == 12 + |FlattenItems(items[2..])|
  {
    var rest := items[1..];
    assert ItemOk(items[0]) && ItemOk(items[1]);
    assert rest[1..] == items[2..];
    assert FlattenItems(items) == FlattenItem(items[0]) + (FlattenItem(items[1]) + FlattenItems(items[2..]));
  }

  lemma SingleStarts(items: seq<StringItem>)
    requires ItemsOk(items) && items != []
    ensures ItemsOk(items[1..])
    ensures FlattenItems(items) + "\"" == FlattenItem(items[0]) + (FlattenItems(items[1..]) + "\"")
    ensures |FlattenItems(items)| == |FlattenItem(items[0])| + |FlattenItems(items[1..])|
  {
    hide FlattenItem;
  }

  lemma {:induction false} StringFromComplete(t: Bytes, i: nat, items: seq<StringItem>)
    requires ItemsOk(items) && At(t, i, FlattenItems(items) + "\"")
    ensures StringFrom(t, i, true) == Good(DenoteItems(items), i + |FlattenItems(items)| + 1)
    decreases |items|
  {
    hide GrokCharacter, DenoteItem, FlattenItem, FlattenItems, StringFrom, At;
    if items == [] {
      ClosingQuote(t, i);
    } else if StartsPair(items) {
      PairStarts(items);
      var tail := FlattenItems(items[2..]) + "\"";
      AtSplit(t, i, FlattenItem(items[0]), FlattenItem(items[1]) + tail);
      AtSplit(t, i + 6, FlattenItem(items[1]), tail);
      PairComplete(t, i, items);
      StringFromComplete(t, i + 12, items[2..]);
      StringStep(t, i, CodepointAsUtf8(Paired(Hex4Value(items[0].hex), Hex4Value(items[1].hex))), i + 12,
        DenoteItems(items[2..]), i + |FlattenItems(items)| + 1);
    } else {
      SingleStarts(items);
      AtSplit(t, i, FlattenItem(items[0]), FlattenItems(items[1..]) + "\"");
      SingleComplete(t, i, items);
      StringFromComplete(t, i + |FlattenItem(items[0])|, items[1..]);
      StringStep(t, i, DenoteItem(items[0]), i + |FlattenItem(items[0])|,
                 DenoteItems(items[1..]), i + |FlattenItems(items)| + 1);
    }
  }

  lemma ClosingQuote(t: Bytes, i: nat)
    requires At(t, i, FlattenItems([]) + "\"")
    ensures StringFrom(t, i, true) == Good("", i + |FlattenItems([])| + 1)
  {
    AtChar(t, i, FlattenItems([]) + "\"", 0);
  }

  lemma StringComplete(t: Bytes, i: nat, items: seq<StringItem>)
    requires ItemsOk(items) && At(t, i, Quoted(items))
    ensures t[i] == '"'
    ensures StringAt(t, i, true) == Good(DenoteItems(items), i + |Quoted(items)|)
  {
    assert Quoted(items) == "\"" + (FlattenItems(items) + "\"");
    AtSplit(t, i, "\"", FlattenItems(items) + "\"");
    AtChar(t, i, "\"", 0);
    StringFromComplete(t, i + 1, items);
  }

  // ---- completeness: values

  // What may follow a value inside a text.
  predicate EndsValue(t: Bytes, i: nat) {
    i < |t| ==> IsSpace(t[i]) || t[i] == ',' || t[i] == ']' || t[i] == '}'
  }

  lemma FirstCharacter(c: Syntax)
    requires Ok(c)
    ensures var f := Flatten(c);
            |f| > 0 && !IsSpace(f[0]) && f[0] != ']' && f[0] != '}' && f[0] != '<' && !IsLuaSpace(f[0])
  {
  }

  lemma BlankThen(t: Bytes, i: nat, w: Bytes, s: Bytes)
    requires At(t, i, w + s) && IsBlank(w) && s != "" && !IsSpace(s[0])
    ensures SkipWhitespace(t, i) == i + |w| && At(t, i + |w|, s) && t[i + |w|] == s[0]
  {
    AtSplit(t, i, w, s);
    AtChar(t, i + |w|, s, 0);
    SkipsExactly(t, i, w);
  }

  lemma BlankEndsValue(t: Bytes, i: nat, w: Bytes, s: Bytes)
    requires At(t, i, w + s) && IsBlank(w) && s != "" && (s[0] == ',' || s[0] == ']' || s[0] == '}')
    ensures EndsValue(t, i)
  {
    AtChar(t, i, w + s, 0);
  }

  lemma LiteralComplete(t: Bytes, i: nat, o: Options, c: Syntax)
    requires Ok(c) && (c.STrue? || c.SFalse? || c.SNull?) && At(t, i, Flatten(c))
    ensures OneAt(t, i, o) == Good(Denote(c, o.placeholder), i + |Flatten(c)|)
  {
    AtChar(t, i, Flatten(c), 0);
    SkipsExactly(t, i, "");
  }

  lemma ScalarComplete(t: Bytes, i: nat, o: Options, c: Syntax)
    requires Ok(c) && (c.SNum? || c.SStr?) && At(t, i, Flatten(c)) && o.strict
    requires EndsValue(t, i + |Flatten(c)|)
    ensures OneAt(t, i, o) == Good(Denote(c, o.placeholder), i + |Flatten(c)|)
  {
    hide GrokNumber, StringFrom, IsInt, IsFrac, IsExp;
    match c
    case SNum(whole, frac, exp) =>
      NumberComplete(t, i, whole, frac, exp);
      SkipsExactly(t, i, "");
    case SStr(items) =>
      StringComplete(t, i, items);
      SkipsExactly(t, i, "");
  }

  // grok_one goes by the first character that is not whitespace.
  lemma Dispatches(t: Bytes, start: nat, o: Options)
    requires start <= |t|
    ensures var i := SkipWhitespace(t, start);
            && (i < |t| && t[i] == '[' ==> OneAt(t, start, o) == ArrayAt(t, i, o))
            && (i < |t| && t[i] == '{' ==> OneAt(t, start, o) == ObjectAt(t, i, o))
  {
    hide ArrayAt, ObjectAt, SkipWhitespace;
  }

  lemma OpensWith(t: Bytes, i: nat, o: Options, open: Bytes, rest: Bytes)
    requires At(t, i, open + rest) && (open == "[" || open == "{")
    ensures t[i] == open[0] && At(t, i + 1, rest)
    ensures OneAt(t, i, o) == if open == "[" then ArrayAt(t, i, o) else ObjectAt(t, i, o)
  {
    hide OneAt, ArrayAt, ObjectAt;
    AtSplit(t, i, open, rest);
    AtChar(t, i, open, 0);
    SkipsExactly(t, i, "");
    Dispatches(t, i, o);
  }

  lemma EmptyComplete(t: Bytes, i: nat, o: Options, c: Syntax)
    requires Ok(c) && (c.SEmptyArr? || c.SEmptyObj?) && At(t, i, Flatten(c))
    ensures OneAt(t, i, o) == Good(Denote(c, o.placeholder), i + |Flatten(c)|)
  {
    hide OneAt, ArrayFrom, ObjectFrom;
    var open, close := if c.SEmptyArr? then "[" else "{", if c.SEmptyArr? then "]" else "}";
    assert Flatten(c) == open + (c.ws + close);
    OpensWith(t, i, o, open, c.ws + close);
    BlankThen(t, i + 1, c.ws, close);
  }

  lemma {:induction false} OneComplete(t: Bytes, i: nat, o: Options, c: Syntax)
    requires Ok(c) && At(t, i, Flatten(c)) && o.strict
    requires EndsValue(t, i + |Flatten(c)|)
    ensures OneAt(t, i, o) == Good(Denote(c, o.placeholder), i + |Flatten(c)|)
    decreases c
  {
    hide OneAt, ArrayFrom, ObjectFrom, SkipWhitespace;
    match c
    case STrue => LiteralComplete(t, i, o, c);
    case SFalse => LiteralComplete(t, i, o, c);
    case SNull => LiteralComplete(t, i, o, c);
    case SNum(_, _, _) => ScalarComplete(t, i, o, c);
    case SStr(_) => ScalarComplete(t, i, o, c);
    case SEmptyArr(_) => EmptyComplete(t, i, o, c);
    case SEmptyObj(_) => EmptyComplete(t, i, o, c);
    case SArr(es) =>
      OpensWith(t, i, o, "[", FlattenElements(es));
      ElementsComplete(t, i + 1, o, es, []);
      assert [] + DenoteElements(es, o.placeholder) == DenoteElements(es, o.placeholder);
    case SObj(ms) =>
      OpensWith(t, i, o, "{", FlattenMembers(ms));
      MembersComplete(t, i + 1, o, ms, map[]);
  }

  function ElementsTail(es: Elements): Bytes {
    if es.Element? then "," + FlattenElements(es.rest) else "]"
  }

  // A value f with whitespace around it, followed by a comma or a closing bracket.
  lemma ValueBetween(t: Bytes, i: nat, before: Bytes, f: Bytes, after: Bytes, tail: Bytes)
    requires At(t, i, before + (f + (after + tail))) && IsBlank(before) && IsBlank(after)
    requires f != "" && !IsSpace(f[0]) && tail != "" && (tail[0] == ',' || tail[0] == ']' || tail[0] == '}')
    ensures var j := i + |before|; var e := j + |f|; var k := e + |after|;
            && SkipWhitespace(t, i) == j < e && t[j] == f[0] && At(t, j, f) && EndsValue(t, e)
            && SkipWhitespace(t, e) == k < |t| && t[k] == tail[0] && At(t, k, tail)
  {
    hide At, SkipWhitespace;
    BlankThen(t, i, before, f + (after + tail));
    AtSplit(t, i + |before|, f, after + tail);
    BlankEndsValue(t, i + |before| + |f|, after, tail);
    BlankThen(t, i + |before| + |f|, after, tail);
  }

  lemma TailLength(es: Elements)
    ensures |ElementsTail(es)| == if es.Element? then 1 + |FlattenElements(es.rest)| else 1
  {
  }

  lemma ElementsShape(es: Elements)
    ensures FlattenElements(es) == es.before + (Flatten(es.v) + (es.after + ElementsTail(es)))
    ensures |FlattenElements(es)| == |es.before| + |Flatten(es.v)| + |es.after| + |ElementsTail(es)|
  {
    hide Flatten;
    var f, tail := Flatten(es.v), ElementsTail(es);
    assert es.before + f + es.after + tail == es.before + (f + (es.after + tail));
  }

  // Where the value of the first element is, and what surrounds it.
  lemma ElementParts(t: Bytes, i: nat, es: Elements)
    requires ElementsOk(es) && At(t, i, FlattenElements(es))
    ensures var j := i + |es.before|; var e := j + |Flatten(es.v)|; var k := e + |es.after|;
            && SkipWhitespace(t, i) == j < e && t[j] != ']' && At(t, j, Flatten(es.v)) && EndsValue(t, e)
            && SkipWhitespace(t, e) == k < |t| && t[k] == (if es.Element? then ',' else ']')
            && (es.Element? ==> At(t, k + 1, FlattenElements(es.rest)))
  {
    hide At, SkipWhitespace, FlattenElements;
    FirstCharacter(es.v);
    ElementsShape(es);
    ValueBetween(t, i, es.before, Flatten(es.v), es.after, ElementsTail(es));
    if es.Element? {
      AtSplit(t, i + |es.before| + |Flatten(es.v)| + |es.after|, ",", FlattenElements(es.rest));
    }
  }

  // One pass of the loop of grok_array.
  lemma ArrayStep(t: Bytes, i: nat, o: Options, done: seq<Value>, v: Value, e: nat)
    requires i < e <= |t| && OneAt(t, i, o) == Good(v, e)
    ensures var k := SkipWhitespace(t, e);
            && (k < |t| && t[k] == ']' ==> ArrayFrom(t, i, o, done) == Good(Arr(done + [v]), k + 1))
            && (k < |t| && t[k] == ',' ==>
                ArrayFrom(t, i, o, done) == ArrayFrom(t, SkipWhitespace(t, k + 1), o, done + [v]))
  {
    hide OneAt, SkipWhitespace;
  }

  lemma {:induction false} ElementsComplete(t: Bytes, i: nat, o: Options, es: Elements, done: seq<Value>)
    requires ElementsOk(es) && At(t, i, FlattenElements(es)) && o.strict
    ensures var j := SkipWhitespace(t, i);
            && j < |t| && t[j] != ']'
            && ArrayFrom(t, j, o, done)
               == Good(Arr(done + DenoteElements(es, o.placeholder)), i + |FlattenElements(es)|)
    decreases es
  {
    hide OneAt, ArrayFrom, SkipWhitespace, Flatten, FlattenElements, Denote, At, ElementsTail;
    assert |ElementsTail(es)| == if es.Element? then 1 + |FlattenElements(es.rest)| else 1 by {
      TailLength(es);
    }
    ElementsShape(es);
    ElementParts(t, i, es);
    var j := i + |es.before|;
    OneComplete(t, j, o, es.v);
    var e := j + |Flatten(es.v)|;
    var v := Denote(es.v, o.placeholder);
    var k := e + |es.after|;
    ArrayStep(t, j, o, done, v, e);
    if !es.Element? {
      assert DenoteElements(es, o.placeholder) == [v];
    } else {
      ElementsComplete(t, e + |es.after| + 1, o, es.rest, done + [v]);
      assert done + [v] + DenoteElements(es.rest, o.placeholder) == done + DenoteElements(es, o.placeholder);
    }
  }

  function MembersTail(ms: Members): Bytes {
    if ms.Member? then "," + FlattenMembers(ms.rest) else "}"
  }

  lemma MemberKey(t: Bytes, i: nat, ms: Members, rest: Bytes)
    requires MembersOk(ms) && At(t, i, ms.before + (Quoted(ms.key) + (ms.preColon + (":" + rest))))
    ensures var j := i + |ms.before|; var q := j + |Quoted(ms.key)|; var c := q + |ms.preColon|;
            && SkipWhitespace(t, i) == j < q && t[j] == '"'
            && StringAt(t, j, true) == Good(DenoteItems(ms.key), q)
            && SkipWhitespace(t, q) == c < |t| && t[c] == ':' && At(t, c + 1, rest)
  {
    hide StringAt, SkipWhitespace, DenoteItems, At, FlattenItems;
    var q := Quoted(ms.key);
    BlankThen(t, i, ms.before, q + (ms.preColon + (":" + rest)));
    var j := i + |ms.before|;
    AtSplit(t, j, q, ms.preColon + (":" + rest));
    StringComplete(t, j, ms.key);
    BlankThen(t, j + |q|, ms.preColon, ":" + rest);
    AtSplit(t, j + |q| + |ms.preColon|, ":", rest);
  }

  lemma MemberValue(t: Bytes, i: nat, ms: Members)
    requires MembersOk(ms) && At(t, i, ms.postColon + (Flatten(ms.v) + (ms.after + MembersTail(ms))))
    ensures var j := i + |ms.postColon|; var e := j + |Flatten(ms.v)|; var k := e + |ms.after|;
            && SkipWhitespace(t, i) == j < e && At(t, j, Flatten(ms.v)) && EndsValue(t, e)
            && SkipWhitespace(t, e) == k < |t| && t[k] == (if ms.Member? then ',' else '}')
            && (ms.Member? ==> At(t, k + 1, FlattenMembers(ms.rest)))
  {
    hide At, SkipWhitespace, FlattenMembers;
    FirstCharacter(ms.v);
    ValueBetween(t, i, ms.postColon, Flatten(ms.v), ms.after, MembersTail(ms));
    if ms.Member? {
      AtSplit(t, i + |ms.postColon| + |Flatten(ms.v)| + |ms.after|, ",", FlattenMembers(ms.rest));
    }
  }

  lemma MembersShape(ms: Members)
    ensures FlattenMembers(ms)
            == ms.before + (Quoted(ms.key) + (ms.preColon
               + (":" + (ms.postColon + (Flatten(ms.v) + (ms.after + MembersTail(ms)))))))
  {
    hide Flatten, Quoted;
    var q, f, tail := Quoted(ms.key), Flatten(ms.v), MembersTail(ms);
    assert ms.before + q + ms.preColon + ":" + ms.postColon + f + ms.after + tail
        == ms.before + (q + (ms.preColon + (":" + (ms.postColon + (f + (ms.after + tail))))));
  }

  // One pass of the loop of grok_object.
  lemma ObjectStep(t: Bytes, i: nat, o: Options, done: map<Bytes, Value>, key: Bytes, v: Value, e: nat)
    requires i < e <= |t| && MemberAt(t, i, o) == Good((key, v), e)
    ensures var k := SkipWhitespace(t, e);
            && (k < |t| && t[k] == '}' ==> ObjectFrom(t, i, o, done) == Good(Obj(done[key := v]), k + 1))
            && (k < |t| && t[k] == ',' ==>
                ObjectFrom(t, i, o, done) == ObjectFrom(t, SkipWhitespace(t, k + 1), o, done[key := v]))
  {
    hide MemberAt, SkipWhitespace;
  }

  lemma {:induction false} MembersComplete(t: Bytes, i: nat, o: Options, ms: Members, done: map<Bytes, Value>)
    requires MembersOk(ms) && At(t, i, FlattenMembers(ms)) && o.strict
    ensures var j := SkipWhitespace(t, i);
            && j < |t| && t[j] != '}'
            && ObjectFrom(t, j, o, done)
               == Good(Obj(DenoteMembers(ms, o.placeholder, done)), i + |FlattenMembers(ms)|)
    decreases ms
  {
    hide OneAt, ObjectFrom, StringAt, SkipWhitespace, Flatten, FlattenMembers, Denote, Quoted, DenoteItems, At;
    MembersShape(ms);
    MemberKey(t, i, ms, ms.postColon + (Flatten(ms.v) + (ms.after + MembersTail(ms))));
    var j := i + |ms.before|;
    var c := j + |Quoted(ms.key)| + |ms.preColon|;
    MemberValue(t, c + 1, ms);
    OneComplete(t, c + 1 + |ms.postColon|, o, ms.v);
    var e := c + 1 + |ms.postColon| + |Flatten(ms.v)|;
    var key, v := DenoteItems(ms.key), Denote(ms.v, o.placeholder);
    assert MemberAt(t, j, o) == Good((key, v), e);
    var k := e + |ms.after|;
    ObjectStep(t, j, o, done, key, v, e);
    if ms.Member? {
      MembersComplete(t, k + 1, o, ms.rest, done[key := v]);
    }
  }
}
