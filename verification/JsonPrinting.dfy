/**
 What the printer writes is JSON text for the value printed, in every layout: the printed
 text is the flattening of a syntax tree that denotes the value. With stringsAreUtf8 it
 holds no raw U+2028 or U+2029.
 */
module JsonPrinting {
  import opened LuaText
  import opened Utf8
  import opened JsonGrammar
  import opened JsonDecoder
  import opened JsonDecoding
  import opened JsonPrinter

  // ---- string literals

  // The string item that one character of a string is written as.
  function ItemOf(g: Bytes, stringsAreUtf8: bool): (item: StringItem)
    requires IsGroup(g)
    ensures ItemOk(item)
  {
    var c := g[0];
    if |g| == 1 && c == '\n' then Esc('n')
    else if |g| == 1 && c == '\r' then Esc('r')
    else if |g| == 1 && c == '\t' then Esc('t')
    else if |g| == 1 && c as int == 8 then Esc('b')
    else if |g| == 1 && c as int == 12 then Esc('f')
    else if |g| == 1 && (c == '"' || c == '\\') then Esc(c)
    else if |g| == 1 && c as int < 0x20 then Uni(Hex4(c as int))
    else if stringsAreUtf8 && g == LINE_SEPARATOR then Uni("2028")
    else if stringsAreUtf8 && g == PARAGRAPH_SEPARATOR then Uni("2029")
    else Raw(g)
  }

  lemma ItemOfDenotes(g: Bytes, stringsAreUtf8: bool)
    requires IsGroup(g)
    ensures var item := ItemOf(g, stringsAreUtf8);
            DenoteItem(item) == g && (item.Uni? ==> !IsHigh(Hex4Value(item.hex)))
  {
    assert Hex4Value("2028") == 0x2028 && Hex4Value("2029") == 0x2029;
    assert CodepointAsUtf8(0x2028) == LINE_SEPARATOR && CodepointAsUtf8(0x2029) == PARAGRAPH_SEPARATOR;
  }

  function ItemsOf(s: Bytes, stringsAreUtf8: bool): (items: seq<StringItem>)
    requires IsGrouped(s)
    ensures ItemsOk(items)
  {
    if s == "" then []
    else
      var n := ByteCount(s[0]);
      [ItemOf(s[..n], stringsAreUtf8)] + ItemsOf(s[n..], stringsAreUtf8)
  }

  lemma {:induction false} ItemsOfDenote(s: Bytes, stringsAreUtf8: bool)
    requires IsGrouped(s)
    ensures DenoteItems(ItemsOf(s, stringsAreUtf8)) == s
    decreases |s|
  {
    if s != "" {
      var n := ByteCount(s[0]);
      ItemOfDenotes(s[..n], stringsAreUtf8);
      ItemsOfDenote(s[n..], stringsAreUtf8);
      var items := ItemsOf(s, stringsAreUtf8);
      hide ItemOf, DenoteItem, ItemsOf;
      assert !StartsPair(items);
      assert s == s[..n] + s[n..];
    }
  }

  // A group that is not escaped: bytes above ASCII, or an ordinary character.
  lemma {:induction false} EscapeBytesKeeps(g: Bytes, s: Bytes)
    requires forall k :: 0 <= k < |g| ==> g[k] as int >= 0x20 && g[k] != '"' && g[k] != '\\'
    ensures EscapeBytes(g + s) == g + EscapeBytes(s)
  {
    if g == "" {
      assert g + s == s;
    } else {
      assert (g + s)[1..] == g[1..] + s;
      EscapeBytesKeeps(g[1..], s);
    }
  }

  // What EscapeBytes makes of one character.
  function Escaped(g: Bytes): Bytes
    requires IsGroup(g)
  {
    if |g| == 1 && (g[0] as int < 0x20 || g[0] == '"' || g[0] == '\\') then BackslashReplacement(g[0]) else g
  }

  lemma EscapeBytesGroup(g: Bytes, s: Bytes)
    requires IsGroup(g)
    ensures EscapeBytes(g + s) == Escaped(g) + EscapeBytes(s)
  {
    if |g| == 1 && (g[0] as int < 0x20 || g[0] == '"' || g[0] == '\\') {
      assert (g + s)[1..] == s;
    } else {
      EscapeBytesKeeps(g, s);
    }
  }

  // A piece whose only byte that can start the pattern is its first.
  predicate Unsplittable(e: Bytes, lead: char, n: nat) {
    e != "" && (e[0] == lead ==> |e| == n) && forall k :: 1 <= k < |e| ==> e[k] != lead
  }

  lemma NotAt(t: Bytes, pattern: Bytes)
    requires t != "" && pattern != "" && t[0] != pattern[0]
    ensures !At(t, 0, pattern)
  {
  }

  lemma {:induction false} ReplaceAllSkips(e: Bytes, s: Bytes, pattern: Bytes, replacement: Bytes)
    requires pattern != "" && forall k :: 0 <= k < |e| ==> e[k] != pattern[0]
    ensures ReplaceAll(e + s, pattern, replacement) == e + ReplaceAll(s, pattern, replacement)
  {
    if e == "" {
      assert e + s == s;
    } else {
      assert (e + s)[1..] == e[1..] + s;
      NotAt(e + s, pattern);
      ReplaceAllSkips(e[1..], s, pattern, replacement);
    }
  }

  lemma ReplaceAllPiece(e: Bytes, s: Bytes, pattern: Bytes, replacement: Bytes)
    requires pattern != "" && Unsplittable(e, pattern[0], |pattern|)
    ensures ReplaceAll(e + s, pattern, replacement)
            == (if e == pattern then replacement else e) + ReplaceAll(s, pattern, replacement)
  {
    var t := e + s;
    if e == pattern {
      assert t[..|pattern|] == pattern && t[|pattern|..] == s;
    } else {
      if e[0] == pattern[0] {
        assert t[..|pattern|] == e;
      } else {
        NotAt(t, pattern);
      }
      assert t[1..] == e[1..] + s && e == [e[0]] + e[1..];
      ReplaceAllSkips(e[1..], s, pattern, replacement);
    }
  }

  lemma EscapedIsUnsplittable(g: Bytes)
    requires IsGroup(g)
    ensures Unsplittable(Escaped(g), 0xE2 as char, 3)
  {
    assert g[0] as int == 0xE2 ==> |g| == 3;
    assert forall k :: 1 <= k < |g| ==> IsContinuation(g[k]);
  }

  // The two replacements, applied to the escaped group and to what follows it.
  lemma SeparatorsGroup(e: Bytes, rest: Bytes)
    requires Unsplittable(e, 0xE2 as char, 3)
    ensures var e1 := if e == LINE_SEPARATOR then "\\u2028" else e;
      ReplaceAll(ReplaceAll(e + rest, LINE_SEPARATOR, "\\u2028"), PARAGRAPH_SEPARATOR, "\\u2029")
      == (if e1 == PARAGRAPH_SEPARATOR then "\\u2029" else e1)
         + ReplaceAll(ReplaceAll(rest, LINE_SEPARATOR, "\\u2028"), PARAGRAPH_SEPARATOR, "\\u2029")
  {
    hide ReplaceAll;
    ReplaceAllPiece(e, rest, LINE_SEPARATOR, "\\u2028");
    var e1 := if e == LINE_SEPARATOR then "\\u2028" else e;
    ReplaceAllPiece(e1, ReplaceAll(rest, LINE_SEPARATOR, "\\u2028"), PARAGRAPH_SEPARATOR, "\\u2029");
  }

  lemma EscapedItem(g: Bytes, stringsAreUtf8: bool)
    requires IsGroup(g)
    ensures var e := Escaped(g); var e1 := if e == LINE_SEPARATOR then "\\u2028" else e;
      FlattenItem(ItemOf(g, stringsAreUtf8))
      == if !stringsAreUtf8 then e else if e1 == PARAGRAPH_SEPARATOR then "\\u2029" else e1
  {
    var e := Escaped(g);
    assert e == LINE_SEPARATOR <==> g == LINE_SEPARATOR;
    assert e == PARAGRAPH_SEPARATOR <==> g == PARAGRAPH_SEPARATOR;
  }

  lemma ContentsGroup(g: Bytes, s: Bytes, stringsAreUtf8: bool)
    requires IsGroup(g)
    ensures LiteralContents(g + s, stringsAreUtf8)
            == FlattenItem(ItemOf(g, stringsAreUtf8)) + LiteralContents(s, stringsAreUtf8)
  {
    hide ReplaceAll, EscapeBytes, FlattenItem, ItemOf, Escaped, Unsplittable;
    EscapeBytesGroup(g, s);
    EscapedItem(g, stringsAreUtf8);
    if stringsAreUtf8 {
      EscapedIsUnsplittable(g);
      SeparatorsGroup(Escaped(g), EscapeBytes(s));
    }
  }

  lemma {:induction false} ContentsFlatten(s: Bytes, stringsAreUtf8: bool)
    requires IsGrouped(s)
    ensures LiteralContents(s, stringsAreUtf8) == FlattenItems(ItemsOf(s, stringsAreUtf8))
    decreases |s|
  {
    if s != "" {
      var n := ByteCount(s[0]);
      assert s == s[..n] + s[n..];
      ContentsGroup(s[..n], s[n..], stringsAreUtf8);
      ContentsFlatten(s[n..], stringsAreUtf8);
      hide LiteralContents, ItemOf, FlattenItem;
    }
  }

  /** json_string_literal writes a JSON string that denotes the string it was given. */
  lemma LiteralDenotes(s: Bytes, stringsAreUtf8: bool)
    requires IsGrouped(s)
    ensures StringLiteral(s, stringsAreUtf8) == Quoted(ItemsOf(s, stringsAreUtf8))
    ensures DenoteItems(ItemsOf(s, stringsAreUtf8)) == s
  {
    ContentsFlatten(s, stringsAreUtf8);
    ItemsOfDenote(s, stringsAreUtf8);
  }

  // ---- values

  lemma SplitNumberOk(lexeme: Bytes, i: nat, j: nat)
    requires SplitsNumber(lexeme, i, j)
    ensures i <= j <= |lexeme| && Ok(SNum(lexeme[..i], lexeme[i..j], lexeme[j..]))
    ensures Flatten(SNum(lexeme[..i], lexeme[i..j], lexeme[j..])) == lexeme
  {
    hide IsInt, IsFrac, IsExp;
    assert lexeme[..i] + lexeme[i..j] + lexeme[j..] == lexeme;
  }

  ghost function NumberSyntax(lexeme: Bytes): (c: Syntax)
    requires IsNumber(lexeme)
    ensures c.SNum? && Ok(c) && Flatten(c) == lexeme
  {
    var i: nat, j: nat :| SplitsNumber(lexeme, i, j);
    SplitNumberOk(lexeme, i, j);
    SNum(lexeme[..i], lexeme[i..j], lexeme[j..])
  }

  predicate BlankOptions(o: EncodeOptions, indent: Bytes) {
    IsBlank(o.indent) && IsBlank(indent)
  }

  // The whitespace a layout puts around the items of an array or of an object.
  datatype Layout = Layout(first: Bytes, sep: Bytes, last: Bytes)

  predicate BlankLayout(l: Layout) {
    IsBlank(l.first) && IsBlank(l.sep) && IsBlank(l.last)
  }

  function ArrayLayout(o: EncodeOptions, indent: Bytes): Layout {
    var keyIndent := ArrayIndent(o, indent);
    if o.arrayNewline then Layout("\n" + keyIndent, "\n" + keyIndent, "\n" + indent)
    else if o.pretty then Layout(" ", " ", " ")
    else Layout("", "", "")
  }

  function ObjectLayout(o: EncodeOptions, indent: Bytes): Layout {
    if o.pretty then Layout("\n", "\n", "\n" + indent) else Layout("", "", "")
  }

  lemma LayoutsAreBlank(o: EncodeOptions, indent: Bytes)
    requires BlankOptions(o, indent)
    ensures BlankLayout(ArrayLayout(o, indent)) && BlankLayout(ObjectLayout(o, indent))
    ensures IsBlank(ArrayIndent(o, indent)) && IsBlank(EntryIndent(o, indent))
  {
  }

  ghost function SyntaxOf(v: Tree, o: EncodeOptions, indent: Bytes): Syntax
    requires Writable(v)
    decreases v, 0
  {
    match v
    case TNull => SNull
    case TBool(b) => if b then STrue else SFalse
    case TNum(lexeme) => NumberSyntax(lexeme)
    case TStr(s) => if s == o.placeholder then SNull else SStr(ItemsOf(s, o.stringsAreUtf8))
    case TArr(items) =>
      if items == [] then SEmptyArr("")
      else
        var l := ArrayLayout(o, indent);
        SArr(ElementsOf(items, o, ArrayIndent(o, indent), l, l.first))
    case TObj(entries) =>
      var l := ObjectLayout(o, indent);
      if entries == [] then SEmptyObj(l.first + l.last) else SObj(MembersOf(entries, o, indent, l, l.first))
  }

  ghost function ElementsOf(items: seq<Tree>, o: EncodeOptions, indent: Bytes, l: Layout, before: Bytes): Elements
    requires WritableItems(items) && items != []
    decreases items, 1
  {
    var c := SyntaxOf(items[0], o, indent);
    if |items| == 1 then LastElement(before, c, l.last)
    else Element(before, c, "", ElementsOf(items[1..], o, indent, l, l.sep))
  }

  ghost function MembersOf(entries: seq<Entry>, o: EncodeOptions, indent: Bytes, l: Layout, before: Bytes): Members
    requires WritableEntries(entries) && entries != []
    decreases entries, 1
  {
    var c := SyntaxOf(entries[0].value, o, EntryIndent(o, indent));
    var key := ItemsOf(entries[0].key, o.stringsAreUtf8);
    var pre := before + (if o.pretty then EntryIndent(o, indent) else "");
    var post := if o.pretty then " " else "";
    if |entries| == 1 then LastMember(pre, key, "", post, c, l.last)
    else Member(pre, key, "", post, c, "", MembersOf(entries[1..], o, indent, l, l.sep))
  }

  lemma Reassociate(before: Bytes, p: Bytes, sep: Bytes, r: Bytes, tail: Bytes)
    ensures before + (p + ("" + ("," + (sep + (r + tail))))) == before + ((p + (("," + sep) + r)) + tail)
    ensures before + p + "" + ("," + (sep + (r + tail))) == before + ((p + (("," + sep) + r)) + tail)
  {
  }

  lemma ConcatFirst(parts: seq<Bytes>, sep: Bytes)
    requires |parts| > 1
    ensures Concat(parts, sep) == parts[0] + (sep + Concat(parts[1..], sep))
  {
  }

  lemma {:induction false} ElementsPrinted(items: seq<Tree>, o: EncodeOptions, indent: Bytes, l: Layout, before: Bytes)
    requires WritableItems(items) && items != [] && BlankOptions(o, indent) && BlankLayout(l) && IsBlank(before)
    ensures var es := ElementsOf(items, o, indent, l, before);
            && ElementsOk(es)
            && FlattenElements(es) == before + (Concat(PrintItems(items, o, indent), "," + l.sep) + (l.last + "]"))
            && DenoteElements(es, o.placeholder) == EraseItems(items, o.placeholder)
    decreases items, 1
  {
    Printed(items[0], o, indent);
    var c := SyntaxOf(items[0], o, indent);
    var p := Print(items[0], o, indent);
    var parts := PrintItems(items, o, indent);
    var es := ElementsOf(items, o, indent, l, before);
    hide Print, SyntaxOf, Flatten, Denote, Erase;
    if |items| == 1 {
      assert FlattenElements(es) == before + (p + (l.last + "]"));
      assert parts == [p];
      assert items[1..] == [];
    } else {
      ElementsPrinted(items[1..], o, indent, l, l.sep);
      ConcatFirst(parts, "," + l.sep);
      assert parts[1..] == PrintItems(items[1..], o, indent);
      Reassociate(before, p, l.sep, Concat(parts[1..], "," + l.sep), l.last + "]");
      hide Concat, FlattenElements;
    }
  }

  lemma {:induction false} MembersPrinted(entries: seq<Entry>, o: EncodeOptions, indent: Bytes, l: Layout,
                                          before: Bytes)
    requires WritableEntries(entries) && entries != [] && BlankOptions(o, indent) && BlankLayout(l) && IsBlank(before)
    ensures var ms := MembersOf(entries, o, indent, l, before);
            FlattenMembers(ms) == before + (Concat(PrintEntries(entries, o, indent), "," + l.sep) + (l.last + "}"))
    decreases entries, 1
  {
    var e := entries[0];
    LayoutsAreBlank(o, indent);
    Printed(e.value, o, EntryIndent(o, indent));
    LiteralDenotes(e.key, o.stringsAreUtf8);
    var c := SyntaxOf(e.value, o, EntryIndent(o, indent));
    var q, f := StringLiteral(e.key, o.stringsAreUtf8), Flatten(c);
    var p := EntryText(q, f, o, indent);
    var parts := PrintEntries(entries, o, indent);
    var ms := MembersOf(entries, o, indent, l, before);
    hide Print, SyntaxOf, Flatten, StringLiteral, Quoted, ItemsOf, EntryIndent, EntryText;
    if |entries| == 1 {
      MemberText(ms, before, q, f, o, indent, l.last, "}");
      assert parts == [p];
    } else {
      MembersPrinted(entries[1..], o, indent, l, l.sep);
      ConcatFirst(parts, "," + l.sep);
      assert parts[1..] == PrintEntries(entries[1..], o, indent);
      var rest := Concat(parts[1..], "," + l.sep) + (l.last + "}");
      MemberText(ms, before, q, f, o, indent, "", "," + (l.sep + rest));
      Reassociate(before, p, l.sep, Concat(parts[1..], "," + l.sep), l.last + "}");
      hide Concat, FlattenMembers;
    }
  }

  lemma {:induction false} MembersDenote(entries: seq<Entry>, o: EncodeOptions, indent: Bytes, l: Layout, before: Bytes,
                                         done: map<Bytes, Value>)
    requires WritableEntries(entries) && entries != [] && BlankOptions(o, indent) && BlankLayout(l) && IsBlank(before)
    ensures var ms := MembersOf(entries, o, indent, l, before);
            MembersOk(ms) && DenoteMembers(ms, o.placeholder, done) == EraseEntries(entries, o.placeholder, done)
    decreases entries, 1
  {
    hide Print, SyntaxOf, Flatten, Denote, Erase, StringLiteral, Quoted, ItemsOf, DenoteItems, Writable;
    hide LiteralContents, IsGrouped;
    var e := entries[0];
    LayoutsAreBlank(o, indent);
    Printed(e.value, o, EntryIndent(o, indent));
    LiteralDenotes(e.key, o.stringsAreUtf8);
    FirstMemberDenotes(entries, o, indent, l, before, done);
    hide EntryIndent, MembersOf, DenoteMembers, EraseEntries;
    if |entries| > 1 {
      MembersDenote(entries[1..], o, indent, l, l.sep, done[e.key := Erase(e.value, o.placeholder)]);
    }
  }

  // The first member, given the others.
  lemma FirstMemberDenotes(entries: seq<Entry>, o: EncodeOptions, indent: Bytes, l: Layout, before: Bytes,
                           done: map<Bytes, Value>)
    requires WritableEntries(entries) && entries != [] && IsBlank(before) && BlankLayout(l)
    requires IsBlank(EntryIndent(o, indent))
    requires var c := SyntaxOf(entries[0].value, o, EntryIndent(o, indent));
      Ok(c) && Denote(c, o.placeholder) == Erase(entries[0].value, o.placeholder)
    requires DenoteItems(ItemsOf(entries[0].key, o.stringsAreUtf8)) == entries[0].key
    ensures var now := done[entries[0].key := Erase(entries[0].value, o.placeholder)];
            var ms := MembersOf(entries, o, indent, l, before);
      if |entries| == 1 then
        MembersOk(ms) && DenoteMembers(ms, o.placeholder, done) == now == EraseEntries(entries, o.placeholder, done)
      else
        var others := MembersOf(entries[1..], o, indent, l, l.sep);
        && EraseEntries(entries, o.placeholder, done) == EraseEntries(entries[1..], o.placeholder, now)
        && (MembersOk(others) ==>
              && MembersOk(ms)
              && DenoteMembers(ms, o.placeholder, done) == DenoteMembers(others, o.placeholder, now))
  {
    hide SyntaxOf, Flatten, Denote, Erase, ItemsOf, DenoteItems, Writable, IsGrouped, EntryIndent;
    if |entries| == 1 {
      assert entries[1..] == [];
    }
  }

  // One member in the pretty or the compact layout, before the text after it.
  lemma MemberText(ms: Members, before: Bytes, q: Bytes, f: Bytes, o: EncodeOptions, indent: Bytes, after: Bytes,
                   tail: Bytes)
    requires Quoted(ms.key) == q && Flatten(ms.v) == f && ms.after == after
    requires ms.before == before + (if o.pretty then EntryIndent(o, indent) else "")
    requires ms.preColon == "" && ms.postColon == (if o.pretty then " " else "")
    requires tail == if ms.Member? then "," + FlattenMembers(ms.rest) else "}"
    ensures FlattenMembers(ms) == before + (EntryText(q, f, o, indent) + (after + tail))
  {
    hide Quoted, Flatten;
    var i := EntryIndent(o, indent);
    if o.pretty {
      assert (before + i) + q + "" + ":" + " " + f + after + tail == before + ((i + q + ": " + f) + (after + tail));
    } else {
      assert (before + "") + q + "" + ":" + "" + f + after + tail == before + ((q + ":" + f) + (after + tail));
    }
  }

  /** Every layout prints a tree as the text of a syntax tree that denotes its value. */
  lemma {:induction false} Printed(v: Tree, o: EncodeOptions, indent: Bytes)
    requires Writable(v) && BlankOptions(o, indent)
    ensures var c := SyntaxOf(v, o, indent);
            Ok(c) && Flatten(c) == Print(v, o, indent) && Denote(c, o.placeholder) == Erase(v, o.placeholder)
    decreases v, 0
  {
    match v
    case TStr(s) =>
      if s != o.placeholder {
        LiteralDenotes(s, o.stringsAreUtf8);
      }
    case TArr(items) =>
      PrintedArray(items, o, indent);
    case TObj(entries) =>
      PrintedObject(entries, o, indent);
    case _ =>
  }

  lemma {:induction false} PrintedArray(items: seq<Tree>, o: EncodeOptions, indent: Bytes)
    requires WritableItems(items) && BlankOptions(o, indent)
    ensures var v := TArr(items); var c := SyntaxOf(v, o, indent);
            Ok(c) && Flatten(c) == Print(v, o, indent) && Denote(c, o.placeholder) == Erase(v, o.placeholder)
    decreases items, 2
  {
    hide ElementsOf, FlattenElements, DenoteElements, PrintItems, EraseItems;
    LayoutsAreBlank(o, indent);
    var l, keyIndent := ArrayLayout(o, indent), ArrayIndent(o, indent);
    NoItems(o, keyIndent);
    if items != [] {
      ElementsPrinted(items, o, keyIndent, l, l.first);
      ArrayTextIs(PrintItems(items, o, keyIndent), o, indent);
    }
  }

  lemma NoItems(o: EncodeOptions, indent: Bytes)
    ensures PrintItems([], o, indent) == [] && EraseItems([], o.placeholder) == []
  {
  }

  lemma {:induction false} PrintedObject(entries: seq<Entry>, o: EncodeOptions, indent: Bytes)
    requires WritableEntries(entries) && BlankOptions(o, indent)
    ensures var v := TObj(entries); var c := SyntaxOf(v, o, indent);
            Ok(c) && Flatten(c) == Print(v, o, indent) && Denote(c, o.placeholder) == Erase(v, o.placeholder)
    decreases entries, 2
  {
    hide MembersOf, FlattenMembers, DenoteMembers, PrintEntries;
    LayoutsAreBlank(o, indent);
    var l := ObjectLayout(o, indent);
    ObjectTextIs(PrintEntries(entries, o, indent), o, indent);
    NoMembers(o, indent);
    if entries != [] {
      MembersPrinted(entries, o, indent, l, l.first);
      MembersDenote(entries, o, indent, l, l.first, map[]);
    }
  }

  lemma NoMembers(o: EncodeOptions, indent: Bytes)
    ensures PrintEntries([], o, indent) == [] && EraseEntries([], o.placeholder, map[]) == map[]
  {
  }

  lemma ArrayTextIs(parts: seq<Bytes>, o: EncodeOptions, indent: Bytes)
    ensures var l := ArrayLayout(o, indent);
            ArrayText(parts, o, indent) == "[" + (l.first + (Concat(parts, "," + l.sep) + (l.last + "]")))
  {
    var keyIndent := ArrayIndent(o, indent);
    if o.arrayNewline {
      assert ",\n" + keyIndent == "," + ("\n" + keyIndent);
      var t := Concat(parts, ",\n" + keyIndent);
      assert "[\n" + keyIndent + t + "\n" + indent + "]"
          == "[" + (("\n" + keyIndent) + (t + (("\n" + indent) + "]")));
    } else if o.pretty {
      assert "," + " " == ", ";
      var t := Concat(parts, ", ");
      assert "[ " + t + " ]" == "[" + (" " + (t + (" " + "]")));
    } else {
      assert "," + "" == ",";
      var t := Concat(parts, ",");
      assert "[" + t + "]" == "[" + ("" + (t + ("" + "]")));
    }
  }

  lemma ObjectTextIs(parts: seq<Bytes>, o: EncodeOptions, indent: Bytes)
    ensures var l := ObjectLayout(o, indent);
            && ObjectText(parts, o, indent) == "{" + (l.first + (Concat(parts, "," + l.sep) + (l.last + "}")))
            && (parts == [] ==> ObjectText(parts, o, indent) == "{" + (l.first + l.last) + "}")
  {
    if o.pretty {
      assert "," + "\n" == ",\n";
      var t := Concat(parts, ",\n");
      assert "{\n" + t + "\n" + indent + "}" == "{" + ("\n" + (t + (("\n" + indent) + "}")));
      assert "{\n" + "" + "\n" + indent + "}" == "{" + ("\n" + ("\n" + indent)) + "}";
    } else {
      assert "," + "" == ",";
      var t := Concat(parts, ",");
      assert "{" + t + "}" == "{" + ("" + (t + ("" + "}")));
    }
  }
}
