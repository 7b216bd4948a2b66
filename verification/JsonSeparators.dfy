/**
 With stringsAreUtf8, the printed text holds no raw U+2028 or U+2029, whatever the bytes
 of the strings printed.
 */
module JsonSeparators {
  import opened LuaText
  import opened JsonGrammar
  import opened JsonPrinter
  import opened JsonPrinting

  // The pattern occurs nowhere in s.
  predicate Free(s: Bytes, pattern: Bytes) {
    forall i: nat :: i <= |s| ==> !At(s, i, pattern)
  }

  predicate NoSeparators(s: Bytes) {
    Free(s, LINE_SEPARATOR) && Free(s, PARAGRAPH_SEPARATOR)
  }

  // ---- one string

  // A replaced text that starts with q, none of whose bytes is from a replacement, started with q before.
  lemma {:induction false} ReplacedStart(s: Bytes, pattern: Bytes, replacement: Bytes, q: Bytes)
    requires pattern != "" && replacement != "" && replacement[0] !in q
    requires At(ReplaceAll(s, pattern, replacement), 0, q)
    ensures At(s, 0, q) && (q != "" ==> !At(s, 0, pattern))
    decreases |q|
  {
    if q != "" {
      var r := ReplaceAll(s, pattern, replacement);
      AtChar(r, 0, q, 0);
      assert q == q[..1] + q[1..];
      AtSplit(r, 0, q[..1], q[1..]);
      assert r == [s[0]] + ReplaceAll(s[1..], pattern, replacement);
      assert At(r[1..], 0, q[1..]);
      ReplacedStart(s[1..], pattern, replacement, q[1..]);
      assert s[..|q|] == [s[0]] + s[1..][..|q| - 1];
    }
  }

  lemma FreeTail(s: Bytes, n: nat, pattern: Bytes)
    requires Free(s, pattern) && n <= |s|
    ensures Free(s[n..], pattern)
  {
    forall i: nat | i <= |s[n..]|
      ensures !At(s[n..], i, pattern)
    {
      assert !At(s, n + i, pattern);
      assert i + |pattern| <= |s[n..]| ==> s[n..][i..i + |pattern|] == s[n + i..n + i + |pattern|];
    }
  }

  // A text in front, none of whose bytes starts the pattern, brings no occurrence of it.
  lemma FreeAfter(a: Bytes, b: Bytes, pattern: Bytes)
    requires pattern != "" && Free(b, pattern) && pattern[0] !in a
    ensures Free(a + b, pattern)
  {
    forall i: nat | i <= |a + b|
      ensures !At(a + b, i, pattern)
    {
      if i >= |a| {
        assert !At(b, i - |a|, pattern);
        assert i + |pattern| <= |a + b| ==> (a + b)[i..i + |pattern|] == b[i - |a|..i - |a| + |pattern|];
      } else if i + |pattern| <= |a + b| {
        assert (a + b)[i..i + |pattern|][0] == a[i];
      }
    }
  }

  /** Replacing a pattern removes it everywhere and brings in no other pattern q that was absent. */
  lemma {:induction false} ReplaceAllFrees(s: Bytes, pattern: Bytes, replacement: Bytes, q: Bytes)
    requires pattern != "" && q != "" && replacement != ""
    requires replacement[0] !in q && q[0] !in replacement
    requires q == pattern || Free(s, q)
    ensures Free(ReplaceAll(s, pattern, replacement), q)
    decreases |s|
  {
    var r := ReplaceAll(s, pattern, replacement);
    if s == "" {
    } else if At(s, 0, pattern) {
      if q != pattern { FreeTail(s, |pattern|, q); }
      ReplaceAllFrees(s[|pattern|..], pattern, replacement, q);
      FreeAfter(replacement, ReplaceAll(s[|pattern|..], pattern, replacement), q);
    } else {
      if q != pattern { FreeTail(s, 1, q); }
      ReplaceAllFrees(s[1..], pattern, replacement, q);
      var rest := ReplaceAll(s[1..], pattern, replacement);
      assert r == [s[0]] + rest;
      assert !At(s, 0, q);
      forall i: nat | i <= |r|
        ensures !At(r, i, q)
      {
        if i > 0 {
          assert !At(rest, i - 1, q);
          assert i + |q| <= |r| ==> r[i..i + |q|] == rest[i - 1..i - 1 + |q|];
        } else if At(r, 0, q) {
          ReplacedStart(s, pattern, replacement, q);
        }
      }
    }
  }

  /** No string literal holds a raw separator, even when the string is not UTF-8. */
  lemma LiteralHasNoSeparators(s: Bytes)
    ensures NoSeparators(LiteralContents(s, true))
  {
    var e := EscapeBytes(s);
    var e1 := ReplaceAll(e, LINE_SEPARATOR, "\\u2028");
    ReplaceAllFrees(e, LINE_SEPARATOR, "\\u2028", LINE_SEPARATOR);
    ReplaceAllFrees(e1, PARAGRAPH_SEPARATOR, "\\u2029", LINE_SEPARATOR);
    ReplaceAllFrees(e1, PARAGRAPH_SEPARATOR, "\\u2029", PARAGRAPH_SEPARATOR);
  }

  // ---- whole texts

  // No separator inside, and none can form with a tidy neighbour.
  predicate Tidy(s: Bytes) {
    NoSeparators(s) && (s != "" ==> s[0] as int < 0x80 && s[|s| - 1] as int < 0x80)
  }

  lemma TidyJoin(a: Bytes, b: Bytes)
    requires Tidy(a) && Tidy(b)
    ensures Tidy(a + b)
  {
    FreeJoin(a, b, LINE_SEPARATOR);
    FreeJoin(a, b, PARAGRAPH_SEPARATOR);
  }

  lemma FreeJoin(a: Bytes, b: Bytes, q: Bytes)
    requires Free(a, q) && Free(b, q) && |q| == 3 && q[0] as int >= 0x80 && q[1] as int >= 0x80 && q[2] as int >= 0x80
    requires a == "" || b == "" || b[0] as int < 0x80
    ensures Free(a + b, q)
  {
    forall i: nat | i <= |a + b|
      ensures !At(a + b, i, q)
    {
      if i >= |a| {
        assert !At(b, i - |a|, q);
        assert i + 3 <= |a + b| ==> (a + b)[i..i + 3] == b[i - |a|..i - |a| + 3];
      } else if i + 3 <= |a| {
        assert !At(a, i, q);
        assert (a + b)[i..i + 3] == a[i..i + 3];
      } else if i + 3 <= |a + b| {
        assert (a + b)[i..i + 3][|a| - i] == b[0];
      }
    }
  }

  lemma AsciiIsTidy(s: Bytes)
    requires forall k :: 0 <= k < |s| ==> s[k] as int < 0x80
    ensures Tidy(s)
  {
    forall i: nat | i < |s|
      ensures !At(s, i, LINE_SEPARATOR) && !At(s, i, PARAGRAPH_SEPARATOR)
    {
      if i + 3 <= |s| {
        assert s[i..i + 3][0] == s[i];
      }
    }
  }

  lemma LiteralIsTidy(s: Bytes)
    ensures Tidy(StringLiteral(s, true))
  {
    var c := LiteralContents(s, true);
    LiteralHasNoSeparators(s);
    AsciiIsTidy("\"");
    FreeAfter("\"", c, LINE_SEPARATOR);
    FreeAfter("\"", c, PARAGRAPH_SEPARATOR);
    FreeJoin("\"" + c, "\"", LINE_SEPARATOR);
    FreeJoin("\"" + c, "\"", PARAGRAPH_SEPARATOR);
  }

  predicate AllTidy(parts: seq<Bytes>) {
    forall k :: 0 <= k < |parts| ==> Tidy(parts[k])
  }

  lemma {:induction false} ConcatIsTidy(parts: seq<Bytes>, sep: Bytes)
    requires AllTidy(parts) && Tidy(sep)
    ensures Tidy(Concat(parts, sep))
  {
    hide Tidy;
    if parts == [] {
      AsciiIsTidy("");
    } else if |parts| > 1 {
      ConcatIsTidy(parts[1..], sep);
      TidyJoin(parts[0], sep);
      TidyJoin(parts[0] + sep, Concat(parts[1..], sep));
    }
  }

  lemma NumberIsTidy(lexeme: Bytes)
    requires IsNumber(lexeme)
    ensures Tidy(lexeme)
  {
    var i: nat, j: nat :| SplitsNumber(lexeme, i, j);
    forall k | 0 <= k < |lexeme|
      ensures lexeme[k] as int < 0x80
    {
      if k < i {
        assert lexeme[..i][k] == lexeme[k];
        IntIsAscii(lexeme[..i], k);
      } else if k < j {
        assert lexeme[i..j][k - i] == lexeme[k];
        FracIsAscii(lexeme[i..j], k - i);
      } else {
        assert lexeme[j..][k - j] == lexeme[k];
        ExpIsAscii(lexeme[j..], k - j);
      }
    }
    AsciiIsTidy(lexeme);
  }

  lemma IntIsAscii(s: Bytes, k: nat)
    requires IsInt(s) && k < |s|
    ensures s[k] as int < 0x80
  {
    if s[0] == '-' && k > 0 {
      assert s[1..][k - 1] == s[k];
    }
  }

  lemma FracIsAscii(s: Bytes, k: nat)
    requires IsFrac(s) && k < |s|
    ensures s[k] as int < 0x80
  {
    if k > 0 {
      assert s[1..][k - 1] == s[k];
    }
  }

  lemma ExpIsAscii(s: Bytes, k: nat)
    requires IsExp(s) && k < |s|
    ensures s[k] as int < 0x80
  {
    if k > 1 {
      assert s[1..][k - 1] == s[k] && s[2..][k - 2] == s[k];
    } else if k == 1 {
      assert s[1..][0] == s[1];
    }
  }

  // The fixed texts and the indents of every layout.
  lemma FramesAreTidy(o: EncodeOptions, indent: Bytes)
    requires BlankOptions(o, indent)
    ensures Tidy("[") && Tidy("]") && Tidy("{") && Tidy("}") && Tidy(":") && Tidy(": ") && Tidy("null") && Tidy("true")
    ensures Tidy("false") && Tidy("[]") && Tidy(",\n") && Tidy("{\n") && Tidy("[ ") && Tidy(" ]") && Tidy(", ")
    ensures Tidy(",")
    ensures Tidy("\n" + indent + "]") && Tidy("\n" + indent + "}")
    ensures var k := ArrayIndent(o, indent); Tidy("[\n" + k) && Tidy(",\n" + k)
    ensures Tidy(EntryIndent(o, indent))
  {
    AsciiIsTidy("["); AsciiIsTidy("]"); AsciiIsTidy("{"); AsciiIsTidy("}"); AsciiIsTidy(":"); AsciiIsTidy(": ");
    AsciiIsTidy("null"); AsciiIsTidy("true"); AsciiIsTidy("false");
    AsciiIsTidy("[]"); AsciiIsTidy(",\n"); AsciiIsTidy("{\n");
    AsciiIsTidy("[ "); AsciiIsTidy(" ]"); AsciiIsTidy(", "); AsciiIsTidy(",");
    AsciiIsTidy("\n" + indent + "]"); AsciiIsTidy("\n" + indent + "}");
    var k := ArrayIndent(o, indent);
    AsciiIsTidy("[\n" + k); AsciiIsTidy(",\n" + k); AsciiIsTidy(EntryIndent(o, indent));
  }

  lemma {:induction false} ItemsAreTidy(items: seq<Tree>, o: EncodeOptions, indent: Bytes)
    requires WritableItems(items) && o.stringsAreUtf8 && BlankOptions(o, indent)
    ensures AllTidy(PrintItems(items, o, indent))
    decreases items, 1
  {
    if items != [] {
      PrintIsTidy(items[0], o, indent);
      ItemsAreTidy(items[1..], o, indent);
      hide Tidy, Print;
    }
  }

  lemma EntryIsTidy(q: Bytes, f: Bytes, o: EncodeOptions, indent: Bytes)
    requires Tidy(q) && Tidy(f) && BlankOptions(o, indent)
    ensures Tidy(EntryText(q, f, o, indent))
  {
    FramesAreTidy(o, indent);
    var i := EntryIndent(o, indent);
    hide Tidy, EntryIndent;
    WrappedIsTidy(i, q, ": ");
    TidyJoin(i + q + ": ", f);
    WrappedIsTidy(q, ":", f);
  }

  lemma {:induction false} EntriesAreTidy(entries: seq<Entry>, o: EncodeOptions, indent: Bytes)
    requires WritableEntries(entries) && o.stringsAreUtf8 && BlankOptions(o, indent)
    ensures AllTidy(PrintEntries(entries, o, indent))
    decreases entries, 1
  {
    if entries != [] {
      LayoutsAreBlank(o, indent);
      PrintIsTidy(entries[0].value, o, EntryIndent(o, indent));
      EntriesAreTidy(entries[1..], o, indent);
      LiteralIsTidy(entries[0].key);
      EntryIsTidy(StringLiteral(entries[0].key, true), Print(entries[0].value, o, EntryIndent(o, indent)), o, indent);
      hide Tidy, Print, StringLiteral, EntryIndent, EntryText;
    }
  }

  lemma WrappedIsTidy(open: Bytes, body: Bytes, close: Bytes)
    requires Tidy(open) && Tidy(body) && Tidy(close)
    ensures Tidy(open + body + close)
  {
    hide Tidy;
    TidyJoin(open, body);
    TidyJoin(open + body, close);
  }

  /** The text printed with stringsAreUtf8 holds no raw U+2028 or U+2029. */
  lemma {:induction false} PrintIsTidy(v: Tree, o: EncodeOptions, indent: Bytes)
    requires Writable(v) && o.stringsAreUtf8 && BlankOptions(o, indent)
    ensures Tidy(Print(v, o, indent))
    decreases v, 0
  {
    FramesAreTidy(o, indent);
    match v
    case TNull =>
    case TBool(_) =>
    case TNum(lexeme) => NumberIsTidy(lexeme);
    case TStr(s) => LiteralIsTidy(s);
    case TArr(items) =>
      LayoutsAreBlank(o, indent);
      var k := ArrayIndent(o, indent);
      ItemsAreTidy(items, o, k);
      ArrayTextIsTidy(PrintItems(items, o, k), o, indent);
      hide Tidy;
    case TObj(entries) =>
      EntriesAreTidy(entries, o, indent);
      ObjectTextIsTidy(PrintEntries(entries, o, indent), o, indent);
      hide Tidy;
  }

  lemma RegroupClose(open: Bytes, t: Bytes, indent: Bytes, close: Bytes)
    ensures open + t + "\n" + indent + close == open + t + ("\n" + indent + close)
  {
  }

  lemma ArrayTextIsTidy(parts: seq<Bytes>, o: EncodeOptions, indent: Bytes)
    requires AllTidy(parts) && BlankOptions(o, indent)
    ensures Tidy(ArrayText(parts, o, indent))
  {
    FramesAreTidy(o, indent);
    hide Tidy, Concat, AllTidy;
    var k := ArrayIndent(o, indent);
    var sep := if o.arrayNewline then ",\n" + k else if o.pretty then ", " else ",";
    ConcatIsTidy(parts, sep);
    var t := Concat(parts, sep);
    if o.arrayNewline {
      var open, close := "[\n" + k, "\n" + indent + "]";
      WrappedIsTidy(open, t, close);
      RegroupClose(open, t, indent, "]");
    } else if o.pretty {
      WrappedIsTidy("[ ", t, " ]");
    } else {
      WrappedIsTidy("[", t, "]");
    }
  }

  lemma ObjectTextIsTidy(parts: seq<Bytes>, o: EncodeOptions, indent: Bytes)
    requires AllTidy(parts) && BlankOptions(o, indent)
    ensures Tidy(ObjectText(parts, o, indent))
  {
    FramesAreTidy(o, indent);
    hide Tidy, Concat, AllTidy;
    var sep := if o.pretty then ",\n" else ",";
    ConcatIsTidy(parts, sep);
    var t := Concat(parts, sep);
    if o.pretty {
      WrappedIsTidy("{\n", t, "\n" + indent + "}");
      RegroupClose("{\n", t, indent, "}");
    } else {
      WrappedIsTidy("{", t, "}");
    }
  }
}
