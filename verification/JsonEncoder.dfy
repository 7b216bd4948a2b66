/**
 encode_value and object_or_array of JSON.lua over a graph of Lua tables that may share
 subtables or contain themselves. Tables are never changed while encoding; the table
 `parents`, which marks the tables on the path to the current value, is.
 */
module JsonEncoder {
  import opened LuaText
  import opened JsonPrinter
  import Lexicographic

  type Ref = nat
  type Index = n: int | n > 0 witness 1

  // LNum is a number object, LTable a reference to a table of the graph.
  datatype LuaValue = Nil | LBool(b: bool) | LStr(s: Bytes) | LNum(lexeme: Bytes) | LTable(ref: Ref)

  datatype Key = StrKey(s: Bytes) | NumKey(n: Index)

  // The metatable that strictTypes gives a table.
  datatype Tag = NoTag | ArrayTag | ObjectTag

  datatype Table = Table(tag: Tag, entries: map<Key, LuaValue>)

  type Graph = map<Ref, Table>

  predicate Known(g: Graph, v: LuaValue) {
    v.LTable? ==> v.ref in g
  }

  // A Lua table never holds nil, and references are to tables of the graph.
  predicate KnownEntries(g: Graph, entries: map<Key, LuaValue>) {
    forall k :: k in entries ==> entries[k] != Nil && Known(g, entries[k])
  }

  ghost predicate WellFormed(g: Graph) {
    forall r :: r in g ==> KnownEntries(g, g[r].entries)
  }

  // T[k]
  function Get(entries: map<Key, LuaValue>, k: Key): LuaValue {
    if k in entries then entries[k] else Nil
  }

  datatype EncodeError = ChildOfItself | KeyConflict | MixedKeys

  datatype Result<+T> = Ok(value: T) | Err(error: EncodeError)

  // ---- object_or_array

  // An array up to an index, an object with its keys in output order and the table to look them up in, or neither.
  datatype Shape = ArrayShape(max: Index) | ObjectShape(keys: seq<Bytes>, entries: map<Key, LuaValue>) | EmptyShape

  // tostring of a positive integer
  function Decimal(n: nat): (s: Bytes)
    ensures s != ""
  {
    var d := [(n % 10 + '0' as int) as char];
    if n < 10 then d else Decimal(n / 10) + d
  }

  ghost function StringKeys(entries: map<Key, LuaValue>): (keys: seq<Bytes>)
    ensures forall s :: s in keys <==> StrKey(s) in entries
    ensures Lexicographic.Ascending(keys)
  {
    Lexicographic.Sorted(set k | k in entries && k.StrKey? :: k.s)
  }

  predicate AscendingNumbers(s: seq<Index>) {
    forall i, j :: 0 <= i < j < |s| ==> s[i] < s[j]
  }

  function InsertNumber(s: seq<Index>, x: Index): (r: seq<Index>)
    requires AscendingNumbers(s)
    ensures AscendingNumbers(r)
    ensures forall y :: y in r <==> y in s || y == x
  {
    if s == [] then [x]
    else if s[0] == x then s
    else if x < s[0] then [x] + s
    else
      var t := InsertNumber(s[1..], x);
      assert forall k :: 0 <= k < |t| ==> t[k] in t;
      [s[0]] + t
  }

  // table.sort on a list of distinct numbers
  function SortNumbers(s: seq<Index>): (r: seq<Index>)
    ensures AscendingNumbers(r)
    ensures forall y :: y in r <==> y in s
  {
    if s == [] then [] else InsertNumber(SortNumbers(s[1..]), s[0])
  }

  ghost function SortedNumbers(s: set<Index>): (r: seq<Index>)
    ensures AscendingNumbers(r)
    ensures forall y :: y in r <==> y in s
  {
    if s == {} then [] else var x :| x in s; InsertNumber(SortedNumbers(s - {x}), x)
  }

  lemma {:induction false} AscendingNumbersUnique(a: seq<Index>, b: seq<Index>)
    requires AscendingNumbers(a) && AscendingNumbers(b)
    requires forall x :: x in a <==> x in b
    ensures a == b
  {
    assert b == [] || exists x :: x in b by { if b != [] { assert b[0] in b; } }
    if a != [] {
      assert a[0] in b && b[0] in a;
      forall x
        ensures x in a[1..] <==> x in b[1..]
      {
        assert x in a[1..] <==> x in a && x != a[0] by { assert a == [a[0]] + a[1..]; }
        assert x in b[1..] <==> x in b && x != b[0] by { assert b == [b[0]] + b[1..]; }
      }
      AscendingNumbersUnique(a[1..], b[1..]);
      assert a == [a[0]] + a[1..] && b == [b[0]] + b[1..];
    }
  }

  ghost function NumberKeys(entries: map<Key, LuaValue>): (keys: seq<Index>)
    ensures forall n :: n in keys <==> NumKey(n) in entries
    ensures AscendingNumbers(keys)
  {
    SortedNumbers(set k | k in entries && k.NumKey? :: k.n)
  }

  // The number keys from the k-th on put in as strings; an error if a string key is in the way.
  function AddNumberKeys(entries: map<Key, LuaValue>, numbers: seq<Index>, keys: seq<Bytes>,
                         remapped: map<Key, LuaValue>)
    : (r: Result<Shape>)
    requires forall n :: n in numbers ==> NumKey(n) in entries
    ensures r.Ok? ==> r.value.ObjectShape?
    decreases |numbers|
  {
    if numbers == [] then Ok(ObjectShape(keys, remapped))
    else
      var key := Decimal(numbers[0]);
      if StrKey(key) in remapped then Err(KeyConflict)
      else AddNumberKeys(entries, numbers[1..], keys + [key], remapped[StrKey(key) := entries[NumKey(numbers[0])]])
  }

  ghost function ShapeOf(T: Table, noKeyConversion: bool): Result<Shape> {
    var strings, numbers := StringKeys(T.entries), NumberKeys(T.entries);
    if strings == [] then
      if numbers != [] then Ok(ArrayShape(numbers[|numbers| - 1]))
      else if T.tag.ObjectTag? then Ok(ObjectShape([], T.entries))
      else Ok(EmptyShape)
    else if numbers != [] && noKeyConversion then Err(MixedKeys)
    else AddNumberKeys(T.entries, numbers, strings, T.entries)
  }

  // The first loop of object_or_array, over the keys in any order.
  method CollectKeys(T: Table) returns (stringKeys: seq<Bytes>, numberKeys: seq<Index>, maximumNumberKey: nat)
    ensures forall s :: s in stringKeys <==> StrKey(s) in T.entries
    ensures forall n :: n in numberKeys <==> NumKey(n) in T.entries
    ensures numberKeys != [] ==> maximumNumberKey in numberKeys && forall n :: n in numberKeys ==> n <= maximumNumberKey
  {
    stringKeys, numberKeys, maximumNumberKey := [], [], 0;
    var keys := T.entries.Keys;
    while keys != {}
      invariant keys <= T.entries.Keys
      invariant forall s :: s in stringKeys <==> StrKey(s) in T.entries.Keys - keys
      invariant forall n :: n in numberKeys <==> NumKey(n) in T.entries.Keys - keys
      invariant forall n :: n in numberKeys ==> n <= maximumNumberKey
      invariant if numberKeys == [] then maximumNumberKey == 0 else maximumNumberKey in numberKeys
      decreases |keys|
    {
      var key :| key in keys;
      keys := keys - {key};
      match key {
        case StrKey(s) =>
          stringKeys := stringKeys + [s];
        case NumKey(n) =>
          numberKeys := numberKeys + [n];
          if n > maximumNumberKey {
            maximumNumberKey := n;
          }
      }
    }
  }

  // The second loop: number keys are put in as strings.
  method ConvertNumbers(T: Table, numbers: seq<Index>, strings: seq<Bytes>) returns (r: Result<Shape>)
    requires forall n :: n in numbers ==> NumKey(n) in T.entries
    ensures r == AddNumberKeys(T.entries, numbers, strings, T.entries)
  {
    var stringKeys, remapped := strings, T.entries;
    var i := 0;
    while i < |numbers|
      invariant 0 <= i <= |numbers|
      invariant AddNumberKeys(T.entries, numbers, strings, T.entries)
             == AddNumberKeys(T.entries, numbers[i..], stringKeys, remapped)
    {
      hide Decimal;
      var stringKey := Decimal(numbers[i]);
      if StrKey(stringKey) !in remapped {
        stringKeys := stringKeys + [stringKey];
        remapped := remapped[StrKey(stringKey) := T.entries[NumKey(numbers[i])]];
      } else {
        return Err(KeyConflict);
      }
      assert numbers[i..][1..] == numbers[i + 1..];
      i := i + 1;
    }
    return Ok(ObjectShape(stringKeys, remapped));
  }

  // object_or_array
  method ObjectOrArray(T: Table, noKeyConversion: bool) returns (r: Result<Shape>)
    ensures r == ShapeOf(T, noKeyConversion)
  {
    hide AddNumberKeys, SortNumbers, Lexicographic.Sort, StringKeys, NumberKeys;
    var stringKeys, numberKeys, maximumNumberKey := CollectKeys(T);
    Lexicographic.AscendingIsUnique(Lexicographic.Sort(stringKeys), StringKeys(T.entries));
    AscendingNumbersUnique(SortNumbers(numberKeys), NumberKeys(T.entries));
    EmptyTogether(stringKeys, StringKeys(T.entries));
    EmptyTogether(numberKeys, NumberKeys(T.entries));
    if stringKeys == [] {
      if numberKeys != [] {
        LastIsGreatest(NumberKeys(T.entries), maximumNumberKey);
        return Ok(ArrayShape(maximumNumberKey));
      } else if T.tag.ObjectTag? {
        return Ok(ObjectShape([], T.entries));
      } else {
        return Ok(EmptyShape);
      }
    }
    stringKeys := Lexicographic.Sort(stringKeys);
    if numberKeys != [] && noKeyConversion {
      return Err(MixedKeys);
    }
    numberKeys := SortNumbers(numberKeys);
    r := ConvertNumbers(T, numberKeys, stringKeys);
  }

  lemma EmptyTogether<A>(a: seq<A>, b: seq<A>)
    requires forall x :: x in a <==> x in b
    ensures a == [] <==> b == []
  {
    assert a != [] ==> a[0] in b;
    assert b != [] ==> b[0] in a;
  }

  lemma LastIsGreatest(s: seq<Index>, m: Index)
    requires AscendingNumbers(s) && m in s && forall n :: n in s ==> n <= m
    ensures s[|s| - 1] == m
  {
    assert s[|s| - 1] in s;
  }

  // ---- encode_value

  /**
   The tree that encoding v unfolds, given the tables on the path to it. It is an error to
   meet one of those tables again.
   */
  ghost function Unfold(g: Graph, v: LuaValue, path: set<Ref>, noKeyConversion: bool): Result<Tree>
    requires WellFormed(g) && Known(g, v)
    decreases |g.Keys - path|, 0, 0
  {
    match v
    case Nil => Ok(TNull)
    case LBool(b) => Ok(TBool(b))
    case LStr(s) => Ok(TStr(s))
    case LNum(lexeme) => Ok(TNum(lexeme))
    case LTable(r) =>
      if r in path then Err(ChildOfItself)
      else
        var path' := path + {r};
        PathGrows(g, path, r);
        match ShapeOf(g[r], noKeyConversion)
        case Err(e) => Err(e)
        case Ok(EmptyShape) => Ok(TArr([]))
        case Ok(ArrayShape(max)) =>
          var items := UnfoldItems(g, g[r].entries, 1, max, path', noKeyConversion);
          if items.Err? then Err(items.error) else Ok(TArr(items.value))
        case Ok(ObjectShape(keys, entries)) =>
          ShapeIsKnown(g, g[r], noKeyConversion);
          var es := UnfoldEntries(g, entries, keys, path', noKeyConversion);
          if es.Err? then Err(es.error) else Ok(TObj(es.value))
  }

  ghost function UnfoldItems(g: Graph, entries: map<Key, LuaValue>, i: Index, max: Index, path: set<Ref>,
                             noKeyConversion: bool)
    : (r: Result<seq<Tree>>)
    requires WellFormed(g) && KnownEntries(g, entries)
    ensures r.Ok? && i <= max + 1 ==> |r.value| == max + 1 - i
    decreases |g.Keys - path|, 1, max - i + 1
  {
    if i > max then Ok([])
    else
      var first := Unfold(g, Get(entries, NumKey(i)), path, noKeyConversion);
      if first.Err? then Err(first.error)
      else
        var rest := UnfoldItems(g, entries, i + 1, max, path, noKeyConversion);
        if rest.Err? then rest else Ok([first.value] + rest.value)
  }

  ghost function UnfoldEntries(g: Graph, entries: map<Key, LuaValue>, keys: seq<Bytes>, path: set<Ref>,
                               noKeyConversion: bool)
    : (r: Result<seq<Entry>>)
    requires WellFormed(g) && KnownEntries(g, entries)
    decreases |g.Keys - path|, 1, |keys|
  {
    if keys == [] then Ok([])
    else
      var first := Unfold(g, Get(entries, StrKey(keys[0])), path, noKeyConversion);
      if first.Err? then Err(first.error)
      else
        var rest := UnfoldEntries(g, entries, keys[1..], path, noKeyConversion);
        if rest.Err? then rest else Ok([Entry(keys[0], first.value)] + rest.value)
  }

  lemma PathGrows(g: Graph, path: set<Ref>, r: Ref)
    requires r in g && r !in path
    ensures |g.Keys - (path + {r})| < |g.Keys - path|
  {
    assert g.Keys - path == (g.Keys - (path + {r})) + {r};
  }

  lemma ShapeIsKnown(g: Graph, T: Table, noKeyConversion: bool)
    requires KnownEntries(g, T.entries)
    ensures var s := ShapeOf(T, noKeyConversion);
            s.Ok? && s.value.ObjectShape? ==>
              && KnownEntries(g, s.value.entries)
              && forall k :: k in s.value.entries ==> s.value.entries[k] in T.entries.Values
  {
    AddingIsKnown(g, T.entries, NumberKeys(T.entries), StringKeys(T.entries), T.entries);
  }

  lemma {:induction false} AddingIsKnown(g: Graph, entries: map<Key, LuaValue>, numbers: seq<Index>, keys: seq<Bytes>,
                                         remapped: map<Key, LuaValue>)
    requires KnownEntries(g, entries) && KnownEntries(g, remapped)
    requires forall n :: n in numbers ==> NumKey(n) in entries
    requires forall k :: k in remapped ==> remapped[k] in entries.Values
    ensures var r := AddNumberKeys(entries, numbers, keys, remapped);
            r.Ok? ==>
              && KnownEntries(g, r.value.entries)
              && forall k :: k in r.value.entries ==> r.value.entries[k] in entries.Values
    decreases |numbers|
  {
    if numbers != [] && StrKey(Decimal(numbers[0])) !in remapped {
      var key := Decimal(numbers[0]);
      AddingIsKnown(g, entries, numbers[1..], keys + [key], remapped[StrKey(key) := entries[NumKey(numbers[0])]]);
    }
  }

  function PrintResult(t: Result<Tree>, o: EncodeOptions, indent: Bytes): Result<Bytes> {
    match t
    case Ok(v) => Ok(Print(v, o, indent))
    case Err(e) => Err(e)
  }

  // The table `parents` of encode_value.
  class Parents {
    var marks: map<Ref, bool>

    constructor ()
      ensures On() == {}
    {
      marks := map[];
    }

    ghost function On(): set<Ref>
      reads this
    {
      set r | r in marks && marks[r]
    }

    // parents[T]
    predicate Marked(r: Ref)
      reads this
      ensures Marked(r) <==> r in On()
    {
      r in marks && marks[r]
    }

    // parents[T] = on
    method Mark(r: Ref, on: bool)
      modifies this
      ensures On() == if on then old(On()) + {r} else old(On()) - {r}
    {
      marks := marks[r := on];
    }
  }

  ghost predicate Edge(g: Graph, a: Ref, b: Ref) {
    a in g && LTable(b) in g[a].entries.Values
  }

  // The tables of a path, from the value that encode was called with down.
  ghost function Tables(path: seq<Ref>): set<Ref> {
    set r | r in path
  }

  // Each table of the path is an entry of the one before it.
  ghost predicate Descends(g: Graph, path: seq<Ref>) {
    && (forall i :: 0 <= i < |path| ==> path[i] in g)
    && (forall i :: 0 <= i < |path| - 1 ==> Edge(g, path[i], path[i + 1]))
  }

  // The path leads to v.
  ghost predicate PathTo(g: Graph, path: seq<Ref>, v: LuaValue) {
    Descends(g, path) && (path == [] || v == Nil || v in g[path[|path| - 1]].entries.Values)
  }

  // The path leads to the table of the entries, or to the one they were put together from.
  ghost predicate PathToEntries(g: Graph, path: seq<Ref>, entries: map<Key, LuaValue>) {
    path != [] && Descends(g, path) && forall k :: k in entries ==> entries[k] in g[path[|path| - 1]].entries.Values
  }

  lemma LongerPath(g: Graph, path: seq<Ref>, r: Ref)
    requires PathTo(g, path, LTable(r)) && r in g
    ensures Descends(g, path + [r]) && Tables(path + [r]) == Tables(path) + {r}
  {
    var longer := path + [r];
    forall i | 0 <= i < |longer| - 1
      ensures Edge(g, longer[i], longer[i + 1])
    {
      if i < |path| - 1 {
        assert Edge(g, path[i], path[i + 1]);
      }
    }
  }

  // Unfolding the values already encoded, then those still to come.
  ghost predicate Continues<A>(all: Result<seq<A>>, done: seq<A>, rest: Result<seq<A>>) {
    all == if rest.Err? then rest else Ok(done + rest.value)
  }

  lemma ContinuesStart<A>(all: Result<seq<A>>)
    ensures Continues(all, [], all)
  {
    assert all.Ok? ==> [] + all.value == all.value;
  }

  lemma ContinuesStep<A>(all: Result<seq<A>>, done: seq<A>, first: A, rest: Result<seq<A>>)
    requires Continues(all, done, if rest.Err? then rest else Ok([first] + rest.value))
    ensures Continues(all, done + [first], rest)
  {
    assert rest.Ok? ==> done + ([first] + rest.value) == done + [first] + rest.value;
  }

  lemma {:induction false} PrintItemsAppends(done: seq<Tree>, v: Tree, o: EncodeOptions, indent: Bytes)
    ensures PrintItems(done + [v], o, indent) == PrintItems(done, o, indent) + [Print(v, o, indent)]
  {
    if done == [] {
      assert done + [v] == [v];
    } else {
      assert (done + [v])[1..] == done[1..] + [v];
      PrintItemsAppends(done[1..], v, o, indent);
    }
  }

  lemma {:induction false} PrintEntriesAppends(done: seq<Entry>, e: Entry, o: EncodeOptions, indent: Bytes)
    ensures PrintEntries(done + [e], o, indent)
         == PrintEntries(done, o, indent)
            + [EntryText(StringLiteral(e.key, o.stringsAreUtf8), Print(e.value, o, EntryIndent(o, indent)), o, indent)]
  {
    if done == [] {
      assert done + [e] == [e];
    } else {
      assert (done + [e])[1..] == done[1..] + [e];
      PrintEntriesAppends(done[1..], e, o, indent);
    }
  }

  /**
   encode_value. Whenever it is called, `parents` is true exactly for the tables of the path
   from the top to the value. It terminates on every graph, returns the text of the unfolded
   tree or the first error, and on return has taken every mark it put into `parents` off again.
   */
  method EncodeValue(g: Graph, v: LuaValue, parents: Parents, ghost path: seq<Ref>, o: EncodeOptions,
                     noKeyConversion: bool, indent: Bytes, forKey: bool)
    returns (r: Result<Bytes>)
    requires WellFormed(g) && Known(g, v) && parents.On() == Tables(path)
    requires if forKey then v.LStr? else PathTo(g, path, v)
    modifies parents
    ensures forKey ==> r == Ok(StringLiteral(v.s, o.stringsAreUtf8))
    ensures !forKey ==> r == PrintResult(Unfold(g, v, Tables(path), noKeyConversion), o, indent)
    ensures r.Ok? ==> parents.On() == Tables(path)
    decreases |g.Keys - parents.On()|, 0, 1
  {
    hide ShapeOf, UnfoldItems, UnfoldEntries, StringLiteral;
    if v == Nil || (!forKey && v == LStr(o.placeholder)) {
      return Ok("null");
    }
    match v {
      case LStr(s) => return Ok(StringLiteral(s, o.stringsAreUtf8));
      case LBool(b) => return Ok(if b then "true" else "false");
      case LNum(lexeme) => return Ok(lexeme);
      case LTable(_) =>
        r := EncodeTable(g, v, parents, path, o, noKeyConversion, indent);
    }
  }

  // The branch of encode_value for tables.
  method EncodeTable(g: Graph, v: LuaValue, parents: Parents, ghost path: seq<Ref>, o: EncodeOptions,
                     noKeyConversion: bool, indent: Bytes)
    returns (r: Result<Bytes>)
    requires WellFormed(g) && v.LTable? && Known(g, v) && parents.On() == Tables(path) && PathTo(g, path, v)
    modifies parents
    ensures r == PrintResult(Unfold(g, v, Tables(path), noKeyConversion), o, indent)
    ensures r.Ok? ==> parents.On() == Tables(path)
    decreases |g.Keys - parents.On()|, 0, 0
  {
    hide ShapeOf, UnfoldItems, UnfoldEntries, PrintItems, PrintEntries, ArrayText, ObjectText, Descends, Tables;
    if parents.Marked(v.ref) {
      return Err(ChildOfItself);
    }
    PathGrows(g, Tables(path), v.ref);
    LongerPath(g, path, v.ref);
    ghost var inner := path + [v.ref];
    parents.Mark(v.ref, true);
    var T := g[v.ref];
    var shape := ObjectOrArray(T, noKeyConversion);
    if shape.Err? {
      return Err(shape.error);
    }
    var resultValue;
    ghost var tree;
    match shape.value {
      case ArrayShape(max) =>
        var keyIndent := ArrayIndent(o, indent);
        var items := EncodeItems(g, T.entries, max, parents, inner, o, noKeyConversion, keyIndent);
        if items.Err? {
          return Err(items.error);
        }
        resultValue := ArrayText(items.value, o, indent);
        tree := TArr(UnfoldItems(g, T.entries, 1, max, Tables(inner), noKeyConversion).value);
      case ObjectShape(keys, entries) =>
        ShapeIsKnown(g, T, noKeyConversion);
        var parts := EncodeEntries(g, entries, keys, parents, inner, o, noKeyConversion, indent);
        if parts.Err? {
          return Err(parts.error);
        }
        resultValue := ObjectText(parts.value, o, indent);
        tree := TObj(UnfoldEntries(g, entries, keys, Tables(inner), noKeyConversion).value);
      case EmptyShape =>
        resultValue := "[]";
        tree := TArr([]);
    }
    assert Unfold(g, v, Tables(path), noKeyConversion) == Ok(tree);
    assert resultValue == Print(tree, o, indent);
    parents.Mark(v.ref, false);
    assert (Tables(path) + {v.ref}) - {v.ref} == Tables(path);
    return Ok(resultValue);
  }

  lemma PrintNoItems(o: EncodeOptions, indent: Bytes)
    ensures PrintItems([], o, indent) == []
  {
  }

  // One round of unfolding items.
  lemma FirstItem(g: Graph, entries: map<Key, LuaValue>, i: Index, max: Index, path: set<Ref>, nkc: bool)
    requires WellFormed(g) && KnownEntries(g, entries) && i <= max && Unfold(g, Get(entries, NumKey(i)), path, nkc).Ok?
    ensures var first := Unfold(g, Get(entries, NumKey(i)), path, nkc);
            var rest := UnfoldItems(g, entries, i + 1, max, path, nkc);
            UnfoldItems(g, entries, i, max, path, nkc) == if rest.Err? then rest else Ok([first.value] + rest.value)
  {
    hide Unfold;
  }

  // The first failure is the result.
  lemma FailingItem(g: Graph, entries: map<Key, LuaValue>, i: Index, max: Index, path: set<Ref>, nkc: bool,
                    all: Result<seq<Tree>>, done: seq<Tree>)
    requires WellFormed(g) && KnownEntries(g, entries) && i <= max
    requires Continues(all, done, UnfoldItems(g, entries, i, max, path, nkc))
    ensures var first := Unfold(g, Get(entries, NumKey(i)), path, nkc); first.Err? ==> all == Err(first.error)
  {
    hide Unfold;
  }

  lemma AllItems(g: Graph, entries: map<Key, LuaValue>, max: Index, path: set<Ref>, nkc: bool,
                 all: Result<seq<Tree>>, done: seq<Tree>)
    requires WellFormed(g) && KnownEntries(g, entries)
    requires Continues(all, done, UnfoldItems(g, entries, max + 1, max, path, nkc))
    ensures all == Ok(done)
  {
    assert done + [] == done;
  }

  // The loop over an array's items, up to its greatest index.
  method EncodeItems(g: Graph, entries: map<Key, LuaValue>, max: Index, parents: Parents, ghost path: seq<Ref>,
                     o: EncodeOptions, noKeyConversion: bool, indent: Bytes)
    returns (r: Result<seq<Bytes>>)
    requires WellFormed(g) && KnownEntries(g, entries) && parents.On() == Tables(path)
    requires PathToEntries(g, path, entries)
    modifies parents
    ensures var all := UnfoldItems(g, entries, 1, max, Tables(path), noKeyConversion);
            r == if all.Err? then Err(all.error) else Ok(PrintItems(all.value, o, indent))
    ensures r.Ok? ==> parents.On() == Tables(path)
    decreases |g.Keys - parents.On()|, 1, 0
  {
    hide Descends, Tables, Unfold, UnfoldItems, Print, PrintItems, Continues;
    ghost var tables := Tables(path);
    ghost var all := UnfoldItems(g, entries, 1, max, tables, noKeyConversion);
    ghost var done: seq<Tree> := [];
    ContinuesStart(all);
    var items: seq<Bytes> := [];
    var i := 1;
    PrintNoItems(o, indent);
    while i <= max
      invariant 1 <= i <= max + 1 && parents.On() == tables
      invariant Continues(all, done, UnfoldItems(g, entries, i, max, tables, noKeyConversion))
      invariant items == PrintItems(done, o, indent)
    {
      FailingItem(g, entries, i, max, tables, noKeyConversion, all, done);
      var item := EncodeValue(g, Get(entries, NumKey(i)), parents, path, o, noKeyConversion, indent, false);
      if item.Err? {
        return Err(item.error);
      }
      ghost var t := Unfold(g, Get(entries, NumKey(i)), tables, noKeyConversion).value;
      FirstItem(g, entries, i, max, tables, noKeyConversion);
      ContinuesStep(all, done, t, UnfoldItems(g, entries, i + 1, max, tables, noKeyConversion));
      PrintItemsAppends(done, t, o, indent);
      done := done + [t];
      items := items + [item.value];
      i := i + 1;
    }
    AllItems(g, entries, max, tables, noKeyConversion, all, done);
    return Ok(items);
  }

  // The pretty layout's first loop over an object's keys.
  method EncodeKeys(g: Graph, keys: seq<Bytes>, parents: Parents, ghost path: seq<Ref>, o: EncodeOptions,
                    noKeyConversion: bool, indent: Bytes)
    returns (encoded: seq<Bytes>)
    requires WellFormed(g) && parents.On() == Tables(path)
    modifies parents
    ensures |encoded| == |keys|
    ensures forall k :: 0 <= k < |keys| ==> encoded[k] == StringLiteral(keys[k], o.stringsAreUtf8)
    ensures parents.On() == Tables(path)
    decreases |g.Keys - parents.On()|, 0, 2
  {
    hide Unfold, StringLiteral;
    encoded := [];
    var i := 0;
    while i < |keys|
      invariant 0 <= i <= |keys| && |encoded| == i && parents.On() == Tables(path)
      invariant forall k :: 0 <= k < i ==> encoded[k] == StringLiteral(keys[k], o.stringsAreUtf8)
    {
      var key := EncodeValue(g, LStr(keys[i]), parents, path, o, noKeyConversion, indent, true);
      encoded := encoded + [key.value];
      i := i + 1;
    }
  }

  // The loop over an object's keys; the compact layout encodes each key after its value.
  method EncodeEntries(g: Graph, entries: map<Key, LuaValue>, keys: seq<Bytes>, parents: Parents, ghost path: seq<Ref>,
                       o: EncodeOptions, noKeyConversion: bool, indent: Bytes)
    returns (r: Result<seq<Bytes>>)
    requires WellFormed(g) && KnownEntries(g, entries) && parents.On() == Tables(path)
    requires PathToEntries(g, path, entries)
    modifies parents
    ensures var all := UnfoldEntries(g, entries, keys, Tables(path), noKeyConversion);
            r == if all.Err? then Err(all.error) else Ok(PrintEntries(all.value, o, indent))
    ensures r.Ok? ==> parents.On() == Tables(path)
    decreases |g.Keys - parents.On()|, 1, 0
  {
    hide Unfold, StringLiteral, Print, PrintEntries, EntryText, Descends, Tables;
    ghost var tables := Tables(path);
    var encodedKeys: seq<Bytes> := [];
    if o.pretty {
      encodedKeys := EncodeKeys(g, keys, parents, path, o, noKeyConversion, indent);
    }
    var keyIndent := EntryIndent(o, indent);
    ghost var all := UnfoldEntries(g, entries, keys, tables, noKeyConversion);
    ghost var done: seq<Entry> := [];
    ContinuesStart(all);
    var parts: seq<Bytes> := [];
    var i := 0;
    while i < |keys|
      invariant 0 <= i <= |keys| && parents.On() == tables
      invariant Continues(all, done, UnfoldEntries(g, entries, keys[i..], tables, noKeyConversion))
      invariant parts == PrintEntries(done, o, indent)
    {
      var value := Get(entries, StrKey(keys[i]));
      var encodedValue := EncodeValue(g, value, parents, path, o, noKeyConversion, keyIndent, false);
      if encodedValue.Err? {
        return Err(encodedValue.error);
      }
      var encodedKey: Bytes;
      if o.pretty {
        encodedKey := encodedKeys[i];
      } else {
        var encoded := EncodeValue(g, LStr(keys[i]), parents, path, o, noKeyConversion, indent, true);
        encodedKey := encoded.value;
      }
      ghost var e := Entry(keys[i], Unfold(g, Get(entries, StrKey(keys[i])), tables, noKeyConversion).value);
      assert keys[i..][1..] == keys[i + 1..];
      ContinuesStep(all, done, e, UnfoldEntries(g, entries, keys[i + 1..], tables, noKeyConversion));
      PrintEntriesAppends(done, e, o, indent);
      done := done + [e];
      parts := parts + [EntryText(encodedKey, encodedValue.value, o, indent)];
      i := i + 1;
    }
    assert all == Ok(done + []) && done + [] == done;
    return Ok(parts);
  }

  // OBJDEF:encode
  method Encode(g: Graph, v: LuaValue, o: EncodeOptions, noKeyConversion: bool) returns (r: Result<Bytes>)
    requires WellFormed(g) && Known(g, v)
    ensures r == PrintResult(Unfold(g, v, {}, noKeyConversion), o, "")
  {
    var parents := new Parents();
    assert Tables([]) == {};
    r := EncodeValue(g, v, parents, [], o, noKeyConversion, "", false);
  }
}
