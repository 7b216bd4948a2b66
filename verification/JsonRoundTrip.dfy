/**
 encode and decode undo each other: what encode writes, strict decode reads back, in every
 layout, and a decoded value that is encoded again decodes to the same value.
 */
module JsonRoundTrip {
  import opened LuaText
  import opened Utf8
  import opened JsonGrammar
  import opened JsonDecoder
  import opened JsonCompleteness
  import opened JsonDecoding
  import opened JsonPrinter
  import opened JsonPrinting
  import opened JsonSeparators
  import opened JsonEncoder

  // ---- which values can be written

  ghost predicate WritableValue(v: LuaValue) {
    match v
    case LStr(s) => IsGrouped(s)
    case LNum(lexeme) => IsNumber(lexeme)
    case _ => true
  }

  ghost predicate WritableTable(entries: map<Key, LuaValue>) {
    forall k :: k in entries ==> WritableValue(entries[k]) && (k.StrKey? ==> IsGrouped(k.s))
  }

  // Every string is made of lead/continuation groups and every number object has a JSON lexeme.
  ghost predicate WritableGraph(g: Graph) {
    forall r :: r in g ==> WritableTable(g[r].entries)
  }

  lemma {:induction false} DecimalIsGrouped(n: nat)
    ensures forall k :: 0 <= k < |Decimal(n)| ==> IsDigit(Decimal(n)[k])
    ensures IsGrouped(Decimal(n))
  {
    if n >= 10 {
      DecimalIsGrouped(n / 10);
    }
    assert forall k :: 0 <= k < |Decimal(n)| ==> IsDigit(Decimal(n)[k]);
    AsciiIsGrouped(Decimal(n));
  }

  lemma {:induction false} AsciiIsGrouped(s: Bytes)
    requires forall k :: 0 <= k < |s| ==> s[k] as int < 0x80
    ensures IsGrouped(s)
  {
    if s != "" {
      AsciiIsGrouped(s[1..]);
    }
  }

  lemma {:induction false} AddingIsWritable(entries: map<Key, LuaValue>, numbers: seq<Index>, keys: seq<Bytes>,
                                            remapped: map<Key, LuaValue>)
    requires WritableTable(entries) && WritableTable(remapped) && forall n :: n in numbers ==> NumKey(n) in entries
    requires forall s :: s in keys ==> IsGrouped(s)
    ensures var r := AddNumberKeys(entries, numbers, keys, remapped);
            r.Ok? ==> WritableTable(r.value.entries) && forall s :: s in r.value.keys ==> IsGrouped(s)
    decreases |numbers|
  {
    if numbers != [] {
      var key := Decimal(numbers[0]);
      if StrKey(key) !in remapped {
        DecimalIsGrouped(numbers[0]);
        AddingIsWritable(entries, numbers[1..], keys + [key], remapped[StrKey(key) := entries[NumKey(numbers[0])]]);
      }
    }
  }

  lemma ShapeIsWritable(T: Table, nkc: bool)
    requires WritableTable(T.entries)
    ensures var s := ShapeOf(T, nkc);
            s.Ok? && s.value.ObjectShape? ==>
              WritableTable(s.value.entries) && forall k :: k in s.value.keys ==> IsGrouped(k)
  {
    assert forall s :: s in StringKeys(T.entries) ==> StrKey(s) in T.entries;
    AddingIsWritable(T.entries, NumberKeys(T.entries), StringKeys(T.entries), T.entries);
  }

  lemma {:induction false} UnfoldIsWritable(g: Graph, v: LuaValue, path: set<Ref>, nkc: bool)
    requires WellFormed(g) && Known(g, v) && WritableGraph(g) && WritableValue(v) && Unfold(g, v, path, nkc).Ok?
    ensures Writable(Unfold(g, v, path, nkc).value)
    decreases |g.Keys - path|, 0, 0
  {
    hide ShapeOf, UnfoldItems, UnfoldEntries, WritableEntries, WritableTable, IsGrouped, IsNumber;
    if v.LTable? {
      PathGrows(g, path, v.ref);
      ShapeIsKnown(g, g[v.ref], nkc);
      ShapeIsWritable(g[v.ref], nkc);
      match ShapeOf(g[v.ref], nkc).value {
        case ArrayShape(max) => ItemsAreWritable(g, g[v.ref].entries, 1, max, path + {v.ref}, nkc);
        case ObjectShape(keys, entries) => EntriesAreWritable(g, entries, keys, path + {v.ref}, nkc);
        case EmptyShape =>
      }
    }
  }

  lemma {:induction false} ItemsAreWritable(g: Graph, entries: map<Key, LuaValue>, i: Index, max: Index, path: set<Ref>,
                                            nkc: bool)
    requires WellFormed(g) && KnownEntries(g, entries) && WritableGraph(g) && WritableTable(entries)
    requires UnfoldItems(g, entries, i, max, path, nkc).Ok?
    ensures WritableItems(UnfoldItems(g, entries, i, max, path, nkc).value)
    decreases |g.Keys - path|, 1, max - i + 1
  {
    if i <= max {
      UnfoldIsWritable(g, Get(entries, NumKey(i)), path, nkc);
      ItemsAreWritable(g, entries, i + 1, max, path, nkc);
      hide Unfold, WritableGraph, WritableTable;
    }
  }

  lemma {:induction false} EntriesAreWritable(g: Graph, entries: map<Key, LuaValue>, keys: seq<Bytes>, path: set<Ref>,
                                              nkc: bool)
    requires WellFormed(g) && KnownEntries(g, entries) && WritableGraph(g) && WritableTable(entries)
    requires forall k :: k in keys ==> IsGrouped(k)
    requires UnfoldEntries(g, entries, keys, path, nkc).Ok?
    ensures WritableEntries(UnfoldEntries(g, entries, keys, path, nkc).value)
    decreases |g.Keys - path|, 1, |keys|
  {
    if keys != [] {
      UnfoldIsWritable(g, Get(entries, StrKey(keys[0])), path, nkc);
      EntriesAreWritable(g, entries, keys[1..], path, nkc);
      hide Unfold, WritableGraph, WritableTable;
    }
  }

  // ---- decode after encode

  /** The printed text of a tree decodes to its value, whatever whitespace is around it. */
  lemma PrintedDecodes(t: Tree, o: EncodeOptions, indent: Bytes, w1: Bytes, w2: Bytes)
    requires Writable(t) && BlankOptions(o, indent) && IsBlank(w1) && IsBlank(w2)
    ensures DecodeSpec(w1 + Print(t, o, indent) + w2, Options(true, o.placeholder)) == Decoded(Erase(t, o.placeholder))
  {
    Printed(t, o, indent);
    var c := SyntaxOf(t, o, indent);
    hide SyntaxOf, Print, Flatten, Denote, Erase, DecodeSpec;
    DecodesTexts(w1 + Print(t, o, indent) + w2, w1, c, w2, Options(true, o.placeholder));
  }

  /**
   Whatever encode returns, in any layout with a whitespace indent, strict decode turns back
   into the unfolded value; with stringsAreUtf8 the text holds no raw U+2028 or U+2029.
   */
  lemma EncodedDecodes(g: Graph, v: LuaValue, o: EncodeOptions, nkc: bool)
    requires WellFormed(g) && Known(g, v) && WritableGraph(g) && WritableValue(v) && IsBlank(o.indent)
    ensures var r := PrintResult(Unfold(g, v, {}, nkc), o, "");
            r.Ok? ==>
              && DecodeSpec(r.value, Options(true, o.placeholder))
                 == Decoded(Erase(Unfold(g, v, {}, nkc).value, o.placeholder))
              && (o.stringsAreUtf8 ==> NoSeparators(r.value))
  {
    var u := Unfold(g, v, {}, nkc);
    if u.Ok? {
      UnfoldIsWritable(g, v, {}, nkc);
      PrintedDecodes(u.value, o, "", "", "");
      if o.stringsAreUtf8 {
        PrintIsTidy(u.value, o, "");
      }
      hide Unfold, Writable, Print, DecodeSpec, Erase, NoSeparators;
      var text := Print(u.value, o, "");
      assert "" + text + "" == text;
    }
  }

  // ---- values held in tables

  /** lv is how a decoder with strictTypes stores the value v; equal parts may share tables. */
  ghost predicate Represents(g: Graph, lv: LuaValue, v: Value)
    decreases v
  {
    match v
    case Bool(b) => lv == LBool(b)
    case Num(lexeme) => lv == LNum(lexeme)
    case Str(s) => lv == LStr(s)
    case Arr(items) =>
      && lv.LTable? && lv.ref in g
      && var T := g[lv.ref];
         && (forall k :: k in T.entries <==> k.NumKey? && k.n <= |items|)
         && (items == [] ==> !T.tag.ObjectTag?)
         && (forall i: nat :: i < |items| ==> Represents(g, T.entries[NumKey(i + 1)], items[i]))
    case Obj(members) =>
      && lv.LTable? && lv.ref in g
      && var T := g[lv.ref];
         && (forall k :: k in T.entries <==> k.StrKey? && k.s in members)
         && (members == map[] ==> T.tag.ObjectTag?)
         && (forall s :: s in members ==> Represents(g, T.entries[StrKey(s)], members[s]))
  }

  // Whether a table that stores a value stores an array.
  predicate StoresArray(T: Table) {
    if T.entries == map[] then !T.tag.ObjectTag? else exists k :: k in T.entries && k.NumKey?
  }

  lemma KindIsStored(g: Graph, lv: LuaValue, v: Value)
    requires Represents(g, lv, v) && lv.LTable?
    ensures v.Arr? <==> StoresArray(g[lv.ref])
    ensures v.Obj? <==> !StoresArray(g[lv.ref])
  {
    var T := g[lv.ref];
    match v
    case Arr(items) =>
      if items == [] {
        assert T.entries.Keys == {};
      } else {
        assert NumKey(1) in T.entries;
      }
    case Obj(members) =>
      if members == map[] {
        assert T.entries.Keys == {};
      } else {
        var s :| s in members;
        assert StrKey(s) in T.entries;
      }
    case _ =>
  }

  lemma {:induction false} RepresentsOneValue(g: Graph, lv: LuaValue, v: Value, w: Value)
    requires Represents(g, lv, v) && Represents(g, lv, w)
    ensures v == w
    decreases v, 1
  {
    if lv.LTable? {
      KindIsStored(g, lv, v);
      KindIsStored(g, lv, w);
      hide StoresArray;
      if v.Arr? {
        RepresentsOneArray(g, lv, v, w);
      } else {
        RepresentsOneObject(g, lv, v, w);
      }
    }
  }

  lemma {:induction false} RepresentsOneArray(g: Graph, lv: LuaValue, v: Value, w: Value)
    requires Represents(g, lv, v) && Represents(g, lv, w) && v.Arr? && w.Arr?
    ensures v == w
    decreases v, 0
  {
    var T := g[lv.ref];
    assert NumKey(|v.items| + 1) !in T.entries && NumKey(|w.items| + 1) !in T.entries;
    forall i: nat | i < |v.items|
      ensures v.items[i] == w.items[i]
    {
      RepresentsOneValue(g, T.entries[NumKey(i + 1)], v.items[i], w.items[i]);
    }
  }

  lemma {:induction false} RepresentsOneObject(g: Graph, lv: LuaValue, v: Value, w: Value)
    requires Represents(g, lv, v) && Represents(g, lv, w) && v.Obj? && w.Obj?
    ensures v == w
    decreases v, 0
  {
    var T := g[lv.ref];
    forall s
      ensures s in v.members <==> s in w.members
    {
      assert StrKey(s) in T.entries <==> s in v.members;
    }
    forall s | s in v.members
      ensures v.members[s] == w.members[s]
    {
      RepresentsOneValue(g, T.entries[StrKey(s)], v.members[s], w.members[s]);
    }
    assert v.members == w.members;
  }

  // Strings and keys of whole groups, numbers with a JSON lexeme.
  ghost predicate CanBeWritten(v: Value) {
    match v
    case Bool(_) => true
    case Num(lexeme) => IsNumber(lexeme)
    case Str(s) => IsGrouped(s)
    case Arr(items) => forall i :: 0 <= i < |items| ==> CanBeWritten(items[i])
    case Obj(members) => forall s :: s in members ==> IsGrouped(s) && CanBeWritten(members[s])
  }

  // Each table on the path represents a value that v is a proper part of.
  ghost predicate Above(g: Graph, path: set<Ref>, v: Value) {
    forall r :: r in path ==> exists w :: Represents(g, LTable(r), w) && v < w
  }

  lemma AboveGrows(g: Graph, path: set<Ref>, lv: LuaValue, v: Value, part: Value)
    requires Above(g, path, v) && lv.LTable? && Represents(g, lv, v) && part < v
    ensures Above(g, path + {lv.ref}, part)
  {
    forall r | r in path + {lv.ref}
      ensures exists w :: Represents(g, LTable(r), w) && part < w
    {
      if r in path {
        var w :| Represents(g, LTable(r), w) && v < w;
        assert Represents(g, LTable(r), w) && part < w;
      } else {
        assert Represents(g, LTable(r), v) && part < v;
      }
    }
  }

  lemma NotOnPath(g: Graph, path: set<Ref>, lv: LuaValue, v: Value)
    requires Above(g, path, v) && lv.LTable? && Represents(g, lv, v)
    ensures lv.ref !in path
  {
    if lv.ref in path {
      var w :| Represents(g, LTable(lv.ref), w) && v < w;
      RepresentsOneValue(g, lv, v, w);
      assert false;
    }
  }

  // The shape of a table that stores a value is the shape of the value.
  lemma RepresentedShape(g: Graph, lv: LuaValue, v: Value, nkc: bool)
    requires Represents(g, lv, v) && lv.LTable?
    ensures var s := ShapeOf(g[lv.ref], nkc); var T := g[lv.ref];
            s.Ok? &&
            match v
            case Arr(items) => if items == [] then s.value == EmptyShape else s.value == ArrayShape(|items|)
            case Obj(members) =>
              s.value.ObjectShape? && s.value.entries == T.entries && forall k :: k in s.value.keys <==> k in members
            case _ => false
  {
    var T := g[lv.ref];
    var strings, numbers := StringKeys(T.entries), NumberKeys(T.entries);
    match v
    case Arr(items) =>
      EmptyTogether(strings, []);
      if items == [] {
        EmptyTogether(numbers, []);
      } else {
        assert NumKey(|items|) in T.entries;
        assert |items| in numbers;
        LastIsGreatest(numbers, |items|);
      }
    case Obj(members) =>
      EmptyTogether(numbers, []);
      assert forall k :: k in strings <==> k in members;
      if strings == [] {
        assert members.Keys == {};
      }
    case _ =>
  }

  lemma {:induction false} RepresentedUnfolds(g: Graph, lv: LuaValue, v: Value, path: set<Ref>, o: EncodeOptions,
                                              nkc: bool)
    requires WellFormed(g) && Known(g, lv) && Represents(g, lv, v) && Above(g, path, v)
    ensures Unfold(g, lv, path, nkc).Ok? && Erase(Unfold(g, lv, path, nkc).value, o.placeholder) == v
    ensures CanBeWritten(v) ==> Writable(Unfold(g, lv, path, nkc).value)
    decreases v, 0
  {
    if !lv.LTable? {
      RepresentedScalar(g, lv, v, path, o, nkc);
    } else {
      hide Unfold, UnfoldItems, UnfoldEntries, Erase, EraseItems, EraseEntries, ShapeOf, StoresArray, Above;
      KindIsStored(g, lv, v);
      NotOnPath(g, path, lv, v);
      RepresentedShape(g, lv, v, nkc);
      PathGrows(g, path, lv.ref);
      if v.Arr? {
        if v.items != [] {
          RepresentedItems(g, lv, v, 1, path, o, nkc);
        }
        RepresentedArray(g, lv, v, path, o, nkc);
      } else {
        RepresentedEntries(g, lv, v, ShapeOf(g[lv.ref], nkc).value.keys, path, o, nkc, map[]);
        RepresentedObject(g, lv, v, path, o, nkc);
      }
    }
  }

  lemma RepresentedScalar(g: Graph, lv: LuaValue, v: Value, path: set<Ref>, o: EncodeOptions, nkc: bool)
    requires WellFormed(g) && Known(g, lv) && Represents(g, lv, v) && !lv.LTable?
    ensures Unfold(g, lv, path, nkc).Ok? && Erase(Unfold(g, lv, path, nkc).value, o.placeholder) == v
    ensures CanBeWritten(v) ==> Writable(Unfold(g, lv, path, nkc).value)
  {
  }

  lemma RepresentedArray(g: Graph, lv: LuaValue, v: Value, path: set<Ref>, o: EncodeOptions, nkc: bool)
    requires WellFormed(g) && lv.LTable? && lv.ref in g && lv.ref !in path && v.Arr?
    requires ShapeOf(g[lv.ref], nkc) == Ok(if v.items == [] then EmptyShape else ArrayShape(|v.items|))
    requires v.items != [] ==>
               var r := UnfoldItems(g, g[lv.ref].entries, 1, |v.items|, path + {lv.ref}, nkc);
               && r.Ok? && EraseItems(r.value, o.placeholder) == v.items[0..]
               && (CanBeWritten(v) ==> WritableItems(r.value))
    ensures Unfold(g, lv, path, nkc).Ok? && Erase(Unfold(g, lv, path, nkc).value, o.placeholder) == v
    ensures CanBeWritten(v) ==> Writable(Unfold(g, lv, path, nkc).value)
  {
    assert v.items[0..] == v.items;
    hide ShapeOf, UnfoldItems, EraseItems, WritableItems;
    if v.items == [] {
      assert Unfold(g, lv, path, nkc) == Ok(TArr([]));
      EraseNothing(o.placeholder);
    }
  }

  lemma EraseNothing(placeholder: Bytes)
    ensures Erase(TArr([]), placeholder) == Arr([]) && Writable(TArr([]))
  {
  }

  lemma RepresentedObject(g: Graph, lv: LuaValue, v: Value, path: set<Ref>, o: EncodeOptions, nkc: bool)
    requires WellFormed(g) && lv.LTable? && lv.ref in g && lv.ref !in path && v.Obj?
    requires ShapeOf(g[lv.ref], nkc).Ok? && ShapeOf(g[lv.ref], nkc).value.ObjectShape?
    requires ShapeOf(g[lv.ref], nkc).value.entries == g[lv.ref].entries
    requires forall k :: k in ShapeOf(g[lv.ref], nkc).value.keys <==> k in v.members
    requires var r := UnfoldEntries(g, g[lv.ref].entries, ShapeOf(g[lv.ref], nkc).value.keys, path + {lv.ref}, nkc);
             && r.Ok?
             && var m := EraseEntries(r.value, o.placeholder, map[]);
                && (forall k :: k in m <==> k in v.members)
                && (forall k :: k in m ==> m[k] == v.members[k])
                && (CanBeWritten(v) ==> WritableEntries(r.value))
    ensures Unfold(g, lv, path, nkc).Ok? && Erase(Unfold(g, lv, path, nkc).value, o.placeholder) == v
    ensures CanBeWritten(v) ==> Writable(Unfold(g, lv, path, nkc).value)
  {
    var r := UnfoldEntries(g, g[lv.ref].entries, ShapeOf(g[lv.ref], nkc).value.keys, path + {lv.ref}, nkc);
    assert EraseEntries(r.value, o.placeholder, map[]) == v.members;
    hide ShapeOf, UnfoldEntries, EraseEntries, WritableEntries;
    assert Unfold(g, lv, path, nkc) == Ok(TObj(r.value));
  }

  lemma {:induction false} RepresentedItems(g: Graph, lv: LuaValue, v: Value, i: Index, path: set<Ref>,
                                            o: EncodeOptions, nkc: bool)
    requires WellFormed(g) && lv.LTable? && Represents(g, lv, v) && v.Arr? && Above(g, path, v) && i <= |v.items| + 1
    requires v.items != []
    ensures var r := UnfoldItems(g, g[lv.ref].entries, i, |v.items|, path + {lv.ref}, nkc);
            && r.Ok? && EraseItems(r.value, o.placeholder) == v.items[i - 1..]
            && (CanBeWritten(v) ==> WritableItems(r.value))
    decreases v, 0, |v.items| + 1 - i
  {
    hide *;
    TableIsStored(g, lv, v);
    var T := g[lv.ref];
    if i > |v.items| {
      NoMoreItems(g, T.entries, i, |v.items|, path + {lv.ref}, o, nkc);
    } else {
      var part := v.items[i - 1];
      ItemRepresented(g, lv, v, i);
      AboveGrows(g, path, lv, v, part);
      RepresentedUnfolds(g, T.entries[NumKey(i)], part, path + {lv.ref}, o, nkc);
      RepresentedItems(g, lv, v, i + 1, path, o, nkc);
      FirstItem(g, T.entries, i, |v.items|, path + {lv.ref}, o, nkc);
    }
  }

  lemma NoMoreItems(g: Graph, entries: map<Key, LuaValue>, i: Index, max: Index, path: set<Ref>, o: EncodeOptions,
                    nkc: bool)
    requires WellFormed(g) && KnownEntries(g, entries) && i > max
    ensures UnfoldItems(g, entries, i, max, path, nkc) == Ok([]) && EraseItems([], o.placeholder) == []
    ensures WritableItems([])
  {
  }

  lemma ItemRepresented(g: Graph, lv: LuaValue, v: Value, i: Index)
    requires WellFormed(g) && lv.LTable? && v.Arr? && Represents(g, lv, v) && i <= |v.items|
    ensures lv.ref in g && NumKey(i) in g[lv.ref].entries && Known(g, g[lv.ref].entries[NumKey(i)])
    ensures v.items[i - 1] < v && Represents(g, g[lv.ref].entries[NumKey(i)], v.items[i - 1])
    ensures CanBeWritten(v) ==> CanBeWritten(v.items[i - 1])
  {
    assert Represents(g, g[lv.ref].entries[NumKey(i - 1 + 1)], v.items[i - 1]);
  }

  // The first item and the others.
  lemma FirstItem(g: Graph, entries: map<Key, LuaValue>, i: Index, max: Index, path: set<Ref>, o: EncodeOptions,
                  nkc: bool)
    requires WellFormed(g) && KnownEntries(g, entries) && i <= max && NumKey(i) in entries
    requires Unfold(g, entries[NumKey(i)], path, nkc).Ok? && UnfoldItems(g, entries, i + 1, max, path, nkc).Ok?
    ensures var u := Unfold(g, entries[NumKey(i)], path, nkc).value;
            var rest := UnfoldItems(g, entries, i + 1, max, path, nkc).value;
            && UnfoldItems(g, entries, i, max, path, nkc) == Ok([u] + rest)
            && EraseItems([u] + rest, o.placeholder) == [Erase(u, o.placeholder)] + EraseItems(rest, o.placeholder)
            && (Writable(u) && WritableItems(rest) ==> WritableItems([u] + rest))
  {
    hide Unfold, Erase, Writable;
  }

  lemma {:induction false} RepresentedEntries(g: Graph, lv: LuaValue, v: Value, keys: seq<Bytes>, path: set<Ref>,
                                              o: EncodeOptions, nkc: bool, before: map<Bytes, Value>)
    requires WellFormed(g) && lv.LTable? && Represents(g, lv, v) && v.Obj? && Above(g, path, v)
    requires forall k :: k in keys ==> k in v.members
    requires forall k :: k in before ==> k in v.members && before[k] == v.members[k]
    ensures var r := UnfoldEntries(g, g[lv.ref].entries, keys, path + {lv.ref}, nkc);
            && r.Ok?
            && var m := EraseEntries(r.value, o.placeholder, before);
               && (forall k :: k in m <==> k in before || k in keys)
               && (forall k :: k in m ==> k in v.members && m[k] == v.members[k])
               && (CanBeWritten(v) ==> WritableEntries(r.value))
    decreases v, 0, |keys|
  {
    hide *;
    TableIsStored(g, lv, v);
    if keys == [] {
      NoEntries(g, g[lv.ref].entries, path + {lv.ref}, o, nkc, before);
    } else {
      var part := v.members[keys[0]];
      MemberRepresented(g, lv, v, keys[0]);
      AboveGrows(g, path, lv, v, part);
      RepresentedUnfolds(g, g[lv.ref].entries[StrKey(keys[0])], part, path + {lv.ref}, o, nkc);
      RepresentedEntries(g, lv, v, keys[1..], path, o, nkc, before[keys[0] := part]);
      FirstEntry(g, g[lv.ref].entries, keys, path + {lv.ref}, o, nkc, before);
      assert forall k :: k in keys <==> k == keys[0] || k in keys[1..] by { assert keys == [keys[0]] + keys[1..]; }
    }
  }

  lemma TableIsStored(g: Graph, lv: LuaValue, v: Value)
    requires WellFormed(g) && Represents(g, lv, v) && (v.Arr? || v.Obj?)
    ensures lv.LTable? && lv.ref in g && KnownEntries(g, g[lv.ref].entries)
  {
  }

  lemma NoEntries(g: Graph, entries: map<Key, LuaValue>, path: set<Ref>, o: EncodeOptions, nkc: bool,
                  before: map<Bytes, Value>)
    requires WellFormed(g) && KnownEntries(g, entries)
    ensures UnfoldEntries(g, entries, [], path, nkc) == Ok([]) && EraseEntries([], o.placeholder, before) == before
    ensures WritableEntries([])
  {
  }

  lemma MemberRepresented(g: Graph, lv: LuaValue, v: Value, k: Bytes)
    requires WellFormed(g) && lv.LTable? && v.Obj? && Represents(g, lv, v) && k in v.members
    ensures lv.ref in g && StrKey(k) in g[lv.ref].entries && Known(g, g[lv.ref].entries[StrKey(k)])
    ensures v.members[k] < v && Represents(g, g[lv.ref].entries[StrKey(k)], v.members[k])
    ensures CanBeWritten(v) ==> IsGrouped(k) && CanBeWritten(v.members[k])
  {
  }

  // The first entry and the others.
  lemma FirstEntry(g: Graph, entries: map<Key, LuaValue>, keys: seq<Bytes>, path: set<Ref>, o: EncodeOptions, nkc: bool,
                   before: map<Bytes, Value>)
    requires WellFormed(g) && KnownEntries(g, entries) && keys != [] && StrKey(keys[0]) in entries
    requires Unfold(g, entries[StrKey(keys[0])], path, nkc).Ok? && UnfoldEntries(g, entries, keys[1..], path, nkc).Ok?
    ensures UnfoldEntries(g, entries, keys, path, nkc).Ok?
    ensures EraseEntries(UnfoldEntries(g, entries, keys, path, nkc).value, o.placeholder, before)
         == EraseEntries(UnfoldEntries(g, entries, keys[1..], path, nkc).value, o.placeholder,
              before[keys[0] := Erase(Unfold(g, entries[StrKey(keys[0])], path, nkc).value, o.placeholder)])
    ensures IsGrouped(keys[0]) && Writable(Unfold(g, entries[StrKey(keys[0])], path, nkc).value)
         && WritableEntries(UnfoldEntries(g, entries, keys[1..], path, nkc).value)
        ==> WritableEntries(UnfoldEntries(g, entries, keys, path, nkc).value)
  {
    hide Unfold, Erase, Writable, IsGrouped;
    var u := Unfold(g, entries[StrKey(keys[0])], path, nkc).value;
    var rest := UnfoldEntries(g, entries, keys[1..], path, nkc).value;
    assert ([Entry(keys[0], u)] + rest)[1..] == rest;
  }

  /**
   decode(encode(v)) returns v and consumes the whole text: for every value of objects, arrays,
   number lexemes, booleans, strings of whole groups and null placeholders, in every layout.
   */
  lemma RoundTrip(g: Graph, lv: LuaValue, v: Value, o: EncodeOptions, nkc: bool)
    requires WellFormed(g) && Known(g, lv) && Represents(g, lv, v) && CanBeWritten(v) && IsBlank(o.indent)
    ensures var r := PrintResult(Unfold(g, lv, {}, nkc), o, "");
            && r.Ok?
            && DecodeSpec(r.value, Options(true, o.placeholder)) == Decoded(v)
            && (o.stringsAreUtf8 ==> NoSeparators(r.value))
  {
    RepresentedUnfolds(g, lv, v, {}, o, nkc);
    var t := Unfold(g, lv, {}, nkc).value;
    PrintedDecodes(t, o, "", "", "");
    if o.stringsAreUtf8 {
      PrintIsTidy(t, o, "");
    }
    hide Unfold, Writable, Print, DecodeSpec, Erase, NoSeparators;
    var text := Print(t, o, "");
    assert "" + text + "" == text;
  }
}
