/**
 When encode fails: exactly on a reachable cycle, or on a table whose number and string
 keys cannot share an object. Shared subtables are no obstacle.
 */
module JsonCycles {
  import opened LuaText
  import opened JsonPrinter
  import opened JsonEncoder

  // ---- keys

  function DecimalValue(s: Bytes): int {
    if s == "" then 0 else DecimalValue(s[..|s| - 1]) * 10 + (s[|s| - 1] as int - '0' as int)
  }

  lemma {:induction false} DecimalIsInjective(m: nat, n: nat)
    requires Decimal(m) == Decimal(n)
    ensures m == n
  {
    DecimalHasValue(m);
    DecimalHasValue(n);
  }

  lemma {:induction false} DecimalHasValue(n: nat)
    ensures DecimalValue(Decimal(n)) == n
  {
    var s := Decimal(n);
    if n >= 10 {
      DecimalHasValue(n / 10);
      assert s[..|s| - 1] == Decimal(n / 10);
    } else {
      assert s[..|s| - 1] == "";
    }
  }

  // Some number key, written in decimal, is also a string key.
  predicate Collides(entries: map<Key, LuaValue>) {
    exists n :: n in entries && n.NumKey? && StrKey(Decimal(n.n)) in entries
  }

  predicate HasStringKey(entries: map<Key, LuaValue>) {
    exists k :: k in entries && k.StrKey?
  }

  predicate HasNumberKey(entries: map<Key, LuaValue>) {
    exists k :: k in entries && k.NumKey?
  }

  // What AddNumberKeys has put in when it succeeds.
  lemma {:induction false} AddingKeys(entries: map<Key, LuaValue>, numbers: seq<Index>, keys: seq<Bytes>,
                                      remapped: map<Key, LuaValue>)
    requires AscendingNumbers(numbers) && forall n :: n in numbers ==> NumKey(n) in entries
    requires forall k :: k in remapped ==> remapped[k] in entries.Values
    ensures var r := AddNumberKeys(entries, numbers, keys, remapped);
            && (r.Err? ==> r.error == KeyConflict)
            && (r.Err? <==> exists n :: n in numbers && StrKey(Decimal(n)) in remapped)
            && (r.Ok? ==>
                && (forall s :: s in r.value.keys <==> s in keys || exists n :: n in numbers && s == Decimal(n))
                && (forall k :: k in remapped ==> k in r.value.entries && r.value.entries[k] == remapped[k])
                && (forall n :: n in numbers ==>
                    StrKey(Decimal(n)) in r.value.entries && r.value.entries[StrKey(Decimal(n))] == entries[NumKey(n)])
                && (forall k :: k in r.value.entries ==> r.value.entries[k] in entries.Values))
    decreases |numbers|
  {
    if numbers != [] {
      var n := numbers[0];
      var key := Decimal(n);
      assert n in numbers;
      if StrKey(key) !in remapped {
        var remapped' := remapped[StrKey(key) := entries[NumKey(n)]];
        var rest := numbers[1..];
        AddingKeys(entries, rest, keys + [key], remapped');
        assert forall m :: m in numbers <==> m == n || m in rest by { assert numbers == [n] + rest; }
        forall m | m in rest
          ensures StrKey(Decimal(m)) in remapped' <==> StrKey(Decimal(m)) in remapped
        {
          if Decimal(m) == key { DecimalIsInjective(m, n); }
        }
      }
    }
  }

  /** A table can be written as an array or an object unless its keys mix and are forbidden to, or collide. */
  lemma ConvertibleExactly(T: Table, noKeyConversion: bool)
    ensures ShapeOf(T, noKeyConversion).Err? <==> Inconvertible(T, noKeyConversion)
    ensures ShapeOf(T, noKeyConversion).Err? ==> ShapeOf(T, noKeyConversion).error == KeyError(noKeyConversion)
  {
    var strings, numbers := StringKeys(T.entries), NumberKeys(T.entries);
    assert strings != [] <==> HasStringKey(T.entries) by {
      if strings != [] { assert StrKey(strings[0]) in T.entries; }
    }
    assert numbers != [] <==> HasNumberKey(T.entries) by {
      if numbers != [] { assert NumKey(numbers[0]) in T.entries; }
    }
    AddingKeys(T.entries, numbers, strings, T.entries);
    assert Collides(T.entries) <==> exists n :: n in numbers && StrKey(Decimal(n)) in T.entries by {
      if n :| n in numbers && StrKey(Decimal(n)) in T.entries {
        assert NumKey(n) in T.entries;
      }
    }
  }

  // The entries an object shape looks up are the table's, and each of them is looked up.
  lemma ShapeCovers(T: Table, noKeyConversion: bool)
    ensures var s := ShapeOf(T, noKeyConversion);
            s.Ok? ==>
              match s.value
              case ArrayShape(max) => forall k :: k in T.entries ==> k.NumKey? && k.n <= max
              case EmptyShape => T.entries == map[]
              case ObjectShape(keys, entries) =>
                && (forall k :: k in entries ==> entries[k] in T.entries.Values)
                && (forall k :: k in T.entries ==>
                    exists s :: s in keys && StrKey(s) in entries && entries[StrKey(s)] == T.entries[k])
  {
    var strings, numbers := StringKeys(T.entries), NumberKeys(T.entries);
    var shape := ShapeOf(T, noKeyConversion);
    if strings != [] && shape.Ok? {
      hide StringKeys, NumberKeys, AddNumberKeys;
      ObjectCovers(T, noKeyConversion);
    } else if strings == [] {
      hide StringKeys, NumberKeys, AddNumberKeys;
      assert forall k :: k in T.entries ==> k.NumKey? && k.n in numbers;
      if numbers == [] && !T.tag.ObjectTag? {
        assert T.entries.Keys == {};
      }
    }
  }

  lemma ObjectCovers(T: Table, noKeyConversion: bool)
    requires StringKeys(T.entries) != [] && ShapeOf(T, noKeyConversion).Ok?
    ensures var s := ShapeOf(T, noKeyConversion).value;
            s.ObjectShape?
            && (forall k :: k in s.entries ==> s.entries[k] in T.entries.Values)
            && (forall k :: k in T.entries ==>
                exists n :: n in s.keys && StrKey(n) in s.entries && s.entries[StrKey(n)] == T.entries[k])
  {
    hide StringKeys, NumberKeys, AddNumberKeys, Decimal;
    var strings, numbers := StringKeys(T.entries), NumberKeys(T.entries);
    AddingKeys(T.entries, numbers, strings, T.entries);
    var shape := ShapeOf(T, noKeyConversion).value;
    forall k | k in T.entries
      ensures exists s :: s in shape.keys && StrKey(s) in shape.entries && shape.entries[StrKey(s)] == T.entries[k]
    {
      match k
      case StrKey(s) => assert s in shape.keys;
      case NumKey(n) => assert Decimal(n) in shape.keys;
    }
  }

  // ---- cycles

  ghost predicate Walk(g: Graph, w: seq<Ref>) {
    w != [] && forall i :: 0 <= i < |w| - 1 ==> Edge(g, w[i], w[i + 1])
  }

  predicate Repeats(w: seq<Ref>) {
    exists i, j :: 0 <= i < j < |w| && w[i] == w[j]
  }

  // A walk that comes back to a table it has been through.
  ghost predicate CyclicWalk(g: Graph, r: Ref, w: seq<Ref>) {
    Walk(g, w) && w[0] == r && Repeats(w)
  }

  ghost predicate CycleReachable(g: Graph, r: Ref) {
    exists w :: CyclicWalk(g, r, w)
  }

  // The keys of the table mix and may not, or are written alike: see ConvertibleExactly.
  predicate Inconvertible(T: Table, noKeyConversion: bool) {
    HasStringKey(T.entries) && HasNumberKey(T.entries) && (noKeyConversion || Collides(T.entries))
  }

  // A walk to a table that cannot be written.
  ghost predicate StuckWalk(g: Graph, r: Ref, w: seq<Ref>, noKeyConversion: bool) {
    Walk(g, w) && w[0] == r && w[|w| - 1] in g && Inconvertible(g[w[|w| - 1]], noKeyConversion)
  }

  ghost predicate StuckReachable(g: Graph, r: Ref, noKeyConversion: bool) {
    exists w :: StuckWalk(g, r, w, noKeyConversion)
  }

  // The error for the keys of a table.
  function KeyError(noKeyConversion: bool): EncodeError {
    if noKeyConversion then MixedKeys else KeyConflict
  }

  // What encoding a table encodes, in its order: the items from 1 on, or the values of the keys in output order.
  ghost function Children(g: Graph, r: Ref, noKeyConversion: bool): seq<LuaValue>
    requires r in g
  {
    match ShapeOf(g[r], noKeyConversion)
    case Ok(ArrayShape(max)) => seq(max, k requires 0 <= k < max => Get(g[r].entries, NumKey(k + 1)))
    case Ok(ObjectShape(keys, entries)) => seq(|keys|, k requires 0 <= k < |keys| => Get(entries, StrKey(keys[k])))
    case _ => []
  }

  // Each of them is nothing or held by the table.
  lemma ChildKnown(g: Graph, r: Ref, nkc: bool, k: nat)
    requires WellFormed(g) && r in g && k < |Children(g, r, nkc)|
    ensures var c := Children(g, r, nkc)[k]; Known(g, c) && (c.LTable? ==> c.ref in g && Edge(g, r, c.ref))
  {
    var c := Children(g, r, nkc)[k];
    ShapeIsKnown(g, g[r], nkc);
    ShapeCovers(g[r], nkc);
    hide ShapeOf, Edge;
    if c != Nil {
      HeldIsEdge(g, r, c);
    }
  }

  lemma HeldIsEdge(g: Graph, r: Ref, c: LuaValue)
    requires WellFormed(g) && r in g && c in g[r].entries.Values
    ensures Known(g, c) && (c.LTable? ==> Edge(g, r, c.ref))
  {
    var k :| k in g[r].entries && g[r].entries[k] == c;
  }

  lemma {:induction false} ItemFails(g: Graph, entries: map<Key, LuaValue>, i: Index, max: Index, path: set<Ref>,
                                     nkc: bool)
    returns (k: Index)
    requires WellFormed(g) && KnownEntries(g, entries) && UnfoldItems(g, entries, i, max, path, nkc).Err?
    ensures i <= k <= max
    ensures Unfold(g, Get(entries, NumKey(k)), path, nkc) == Err(UnfoldItems(g, entries, i, max, path, nkc).error)
    ensures forall j: Index :: i <= j < k ==> Unfold(g, Get(entries, NumKey(j)), path, nkc).Ok?
    decreases max - i + 1
  {
    hide Unfold;
    if Unfold(g, Get(entries, NumKey(i)), path, nkc).Err? {
      k := i;
    } else {
      k := ItemFails(g, entries, i + 1, max, path, nkc);
    }
  }

  lemma {:induction false} EntryFails(g: Graph, entries: map<Key, LuaValue>, keys: seq<Bytes>, path: set<Ref>,
                                      nkc: bool)
    returns (k: nat)
    requires WellFormed(g) && KnownEntries(g, entries) && UnfoldEntries(g, entries, keys, path, nkc).Err?
    ensures k < |keys|
    ensures Unfold(g, Get(entries, StrKey(keys[k])), path, nkc)
         == Err(UnfoldEntries(g, entries, keys, path, nkc).error)
    ensures forall j :: 0 <= j < k ==> Unfold(g, Get(entries, StrKey(keys[j])), path, nkc).Ok?
    decreases |keys|
  {
    hide Unfold;
    if Unfold(g, Get(entries, StrKey(keys[0])), path, nkc).Err? {
      k := 0;
    } else {
      k := EntryFails(g, entries, keys[1..], path, nkc);
      k := k + 1;
    }
  }

  // The first value in which encoding a convertible table fails.
  lemma ChildFails(g: Graph, r: Ref, path: set<Ref>, nkc: bool) returns (k: nat)
    requires WellFormed(g) && r in g && r !in path && ShapeOf(g[r], nkc).Ok?
    requires Unfold(g, LTable(r), path, nkc).Err?
    ensures var cs := Children(g, r, nkc);
            && k < |cs| && cs[k].LTable? && cs[k].ref in g && Edge(g, r, cs[k].ref)
            && Unfold(g, cs[k], path + {r}, nkc) == Unfold(g, LTable(r), path, nkc)
            && forall j :: 0 <= j < k ==> Known(g, cs[j]) && Unfold(g, cs[j], path + {r}, nkc).Ok?
  {
    hide Unfold, ShapeOf, Edge, Children;
    k := ChildErrs(g, r, path, nkc);
    ChildKnown(g, r, nkc, k);
    assert Children(g, r, nkc)[k].LTable? by { OnlyTablesFail(g, Children(g, r, nkc)[k], path + {r}, nkc); }
  }

  lemma OnlyTablesFail(g: Graph, v: LuaValue, path: set<Ref>, nkc: bool)
    requires WellFormed(g) && Known(g, v) && Unfold(g, v, path, nkc).Err?
    ensures v.LTable?
  {
  }

  lemma ChildErrs(g: Graph, r: Ref, path: set<Ref>, nkc: bool) returns (k: nat)
    requires WellFormed(g) && r in g && r !in path && ShapeOf(g[r], nkc).Ok?
    requires Unfold(g, LTable(r), path, nkc).Err?
    ensures FirstError(g, Children(g, r, nkc), path + {r}, nkc, k, Unfold(g, LTable(r), path, nkc).error)
  {
    PathGrows(g, path, r);
    ShapeIsKnown(g, g[r], nkc);
    hide FirstError, ShapeOf, UnfoldItems, UnfoldEntries;
    match ShapeOf(g[r], nkc).value {
      case ArrayShape(max) => k := ArrayErrs(g, r, path + {r}, nkc, max);
      case ObjectShape(keys, entries) => k := ObjectErrs(g, r, path + {r}, nkc, keys, entries);
    }
  }

  ghost predicate FirstError(g: Graph, cs: seq<LuaValue>, path: set<Ref>, nkc: bool, k: nat, e: EncodeError)
    requires WellFormed(g)
  {
    && k < |cs| && Known(g, cs[k]) && Unfold(g, cs[k], path, nkc) == Err(e)
    && forall j :: 0 <= j < k ==> Known(g, cs[j]) && Unfold(g, cs[j], path, nkc).Ok?
  }

  lemma ArrayErrs(g: Graph, r: Ref, path: set<Ref>, nkc: bool, max: Index) returns (k: nat)
    requires WellFormed(g) && r in g && ShapeOf(g[r], nkc) == Ok(ArrayShape(max))
    requires UnfoldItems(g, g[r].entries, 1, max, path, nkc).Err?
    ensures FirstError(g, Children(g, r, nkc), path, nkc, k, UnfoldItems(g, g[r].entries, 1, max, path, nkc).error)
  {
    hide Unfold, ShapeOf, UnfoldItems;
    var n: int := ItemFails(g, g[r].entries, 1, max, path, nkc);
    k := n - 1;
  }

  lemma ObjectErrs(g: Graph, r: Ref, path: set<Ref>, nkc: bool, keys: seq<Bytes>, entries: map<Key, LuaValue>)
    returns (k: nat)
    requires WellFormed(g) && r in g && ShapeOf(g[r], nkc) == Ok(ObjectShape(keys, entries))
    requires KnownEntries(g, entries) && UnfoldEntries(g, entries, keys, path, nkc).Err?
    ensures FirstError(g, Children(g, r, nkc), path, nkc, k, UnfoldEntries(g, entries, keys, path, nkc).error)
  {
    hide Unfold, ShapeOf, UnfoldEntries;
    k := EntryFails(g, entries, keys, path, nkc);
  }

  // A failure has its reason at the end of a walk: a table of the path again, or a table that cannot be written.
  lemma {:induction false} FailureHasWalk(g: Graph, r: Ref, path: set<Ref>, nkc: bool) returns (w: seq<Ref>)
    requires WellFormed(g) && r in g && Unfold(g, LTable(r), path, nkc).Err?
    ensures Walk(g, w) && w[0] == r
    ensures var e := Unfold(g, LTable(r), path, nkc).error;
            if e == ChildOfItself then Repeats(w) || w[|w| - 1] in path
            else e == KeyError(nkc) && StuckWalk(g, r, w, nkc)
    decreases |g.Keys - path|
  {
    hide ShapeOf, UnfoldItems, UnfoldEntries, Inconvertible;
    if r in path {
      w := [r];
    } else if ShapeOf(g[r], nkc).Err? {
      ConvertibleExactly(g[r], nkc);
      w := [r];
    } else {
      PathGrows(g, path, r);
      var k := ChildFails(g, r, path, nkc);
      var w' := FailureHasWalk(g, Children(g, r, nkc)[k].ref, path + {r}, nkc);
      w := [r] + w';
      LongerWalk(g, r, w');
      if Unfold(g, LTable(r), path, nkc).error == ChildOfItself {
        ExtendWalk(g, r, w', path);
      }
    }
  }

  lemma LongerWalk(g: Graph, r: Ref, w: seq<Ref>)
    requires Walk(g, w) && Edge(g, r, w[0])
    ensures Walk(g, [r] + w)
  {
    hide Edge;
    var w' := [r] + w;
    forall i | 0 <= i < |w'| - 1
      ensures Edge(g, w'[i], w'[i + 1])
    {
      if i > 0 { assert Edge(g, w[i - 1], w[i]); }
    }
  }

  lemma ExtendWalk(g: Graph, r: Ref, w: seq<Ref>, path: set<Ref>)
    requires Walk(g, w) && Edge(g, r, w[0]) && (Repeats(w) || w[|w| - 1] in path + {r})
    ensures var w' := [r] + w; Walk(g, w') && (Repeats(w') || w'[|w'| - 1] in path)
  {
    hide Edge;
    var w' := [r] + w;
    LongerWalk(g, r, w);
    if Repeats(w) {
      var i, j :| 0 <= i < j < |w| && w[i] == w[j];
      assert w'[i + 1] == w'[j + 1];
    } else if w[|w| - 1] == r {
      assert w'[0] == w'[|w'| - 1];
    }
  }

  lemma {:induction false} ItemsSucceed(g: Graph, entries: map<Key, LuaValue>, i: Index, max: Index, path: set<Ref>,
                                        nkc: bool, n: Index)
    requires WellFormed(g) && KnownEntries(g, entries) && UnfoldItems(g, entries, i, max, path, nkc).Ok?
    requires i <= n <= max
    ensures Unfold(g, Get(entries, NumKey(n)), path, nkc).Ok?
    decreases max - i
  {
    hide Unfold;
    if i < n {
      ItemsSucceed(g, entries, i + 1, max, path, nkc, n);
    }
  }

  lemma {:induction false} EntriesSucceed(g: Graph, entries: map<Key, LuaValue>, keys: seq<Bytes>, path: set<Ref>,
                                          nkc: bool, s: Bytes)
    requires WellFormed(g) && KnownEntries(g, entries) && UnfoldEntries(g, entries, keys, path, nkc).Ok? && s in keys
    ensures Unfold(g, Get(entries, StrKey(s)), path, nkc).Ok?
    decreases |keys|
  {
    if s != keys[0] {
      EntriesSucceed(g, entries, keys[1..], path, nkc, s);
    }
  }

  // A table that encodes has encoded each of its subtables.
  lemma ChildSucceeds(g: Graph, r: Ref, path: set<Ref>, nkc: bool, c: Ref)
    requires WellFormed(g) && r in g && Unfold(g, LTable(r), path, nkc).Ok? && Edge(g, r, c)
    ensures r !in path && c in g && Unfold(g, LTable(c), path + {r}, nkc).Ok?
  {
    var T := g[r];
    var k :| k in T.entries && T.entries[k] == LTable(c);
    PathGrows(g, path, r);
    ShapeIsKnown(g, T, nkc);
    ShapeCovers(T, nkc);
    hide ShapeOf;
    match ShapeOf(T, nkc).value {
      case ArrayShape(max) =>
        ItemsSucceed(g, T.entries, 1, max, path + {r}, nkc, k.n);
      case ObjectShape(keys, entries) =>
        var s :| s in keys && StrKey(s) in entries && entries[StrKey(s)] == T.entries[k];
        EntriesSucceed(g, entries, keys, path + {r}, nkc, s);
      case EmptyShape =>
    }
  }

  lemma {:induction false} SuccessHasNoWalk(g: Graph, r: Ref, path: set<Ref>, nkc: bool, w: seq<Ref>)
    requires WellFormed(g) && r in g && Unfold(g, LTable(r), path, nkc).Ok?
    requires Walk(g, w) && w[0] == r
    ensures !Repeats(w) && forall i :: 0 <= i < |w| ==> w[i] !in path
    ensures w[|w| - 1] in g && ShapeOf(g[w[|w| - 1]], nkc).Ok?
    decreases |w|
  {
    hide ShapeOf, UnfoldItems, UnfoldEntries;
    if |w| > 1 {
      assert Edge(g, w[0], w[1]);
      ChildSucceeds(g, r, path, nkc, w[1]);
      var w' := w[1..];
      forall i | 0 <= i < |w'| - 1
        ensures Edge(g, w'[i], w'[i + 1])
      {
        assert Edge(g, w[i + 1], w[i + 1 + 1]);
      }
      SuccessHasNoWalk(g, w[1], path + {r}, nkc, w');
      forall i, j | 0 <= i < j < |w|
        ensures w[i] != w[j]
      {
        assert w'[j - 1] !in path + {r};
        if i > 0 { assert w'[i - 1] != w'[j - 1]; }
      }
      forall i | 0 <= i < |w|
        ensures w[i] !in path
      {
        if i > 0 { assert w'[i - 1] !in path + {r}; }
      }
    }
  }

  /**
   Encoding a table fails exactly when a cycle or a table that cannot be written is reachable
   from it. "Child of itself" is only said of a cycle, and any other error only of such a table;
   where no such table is reachable, "child of itself" is said if and only if a cycle is.
   Shared subtables are no obstacle.
   */
  lemma FailsExactlyOnCycles(g: Graph, r: Ref, nkc: bool)
    requires WellFormed(g) && r in g
    ensures var u := Unfold(g, LTable(r), {}, nkc);
            && (u.Err? <==> CycleReachable(g, r) || StuckReachable(g, r, nkc))
            && (u == Err(ChildOfItself) ==> CycleReachable(g, r))
            && (u.Err? && u.error != ChildOfItself ==> u.error == KeyError(nkc) && StuckReachable(g, r, nkc))
            && (!StuckReachable(g, r, nkc) ==> (u == Err(ChildOfItself) <==> CycleReachable(g, r)))
  {
    hide Inconvertible;
    var u := Unfold(g, LTable(r), {}, nkc);
    if u.Err? {
      var w := FailureHasWalk(g, r, {}, nkc);
      assert if u.error == ChildOfItself then CyclicWalk(g, r, w) else StuckWalk(g, r, w, nkc);
    } else {
      forall w
        ensures !CyclicWalk(g, r, w) && !StuckWalk(g, r, w, nkc)
      {
        SuccessIsNeither(g, r, nkc, w);
      }
    }
  }

  lemma SuccessIsNeither(g: Graph, r: Ref, nkc: bool, w: seq<Ref>)
    requires WellFormed(g) && r in g && Unfold(g, LTable(r), {}, nkc).Ok?
    ensures !CyclicWalk(g, r, w) && !StuckWalk(g, r, w, nkc)
  {
    hide Unfold, Inconvertible;
    if Walk(g, w) && w[0] == r {
      SuccessHasNoWalk(g, r, {}, nkc, w);
      ConvertibleExactly(g[w[|w| - 1]], nkc);
    }
  }

  // { [1] = true, ["1"] = true, x = the table itself }
  function Conflicting(): Table {
    Table(NoTag, map[NumKey(1) := LBool(true), StrKey("1") := LBool(true), StrKey("x") := LTable(0)])
  }

  /**
   Without the condition on reachable tables the last equivalence fails: this table is on a
   cycle, and encoding it fails for its keys before the cycle is met.
   */
  lemma ConflictHidesCycle()
    ensures var g: Graph := map[0 := Conflicting()];
            WellFormed(g) && CycleReachable(g, 0) && Unfold(g, LTable(0), {}, false) == Err(KeyConflict)
  {
    hide Conflicting, CycleReachable, Unfold, ShapeOf;
    var T := Conflicting();
    ConflictingEntries();
    HoldsItself(T);
    OneIsConflict(T);
    StuckAtOnce(map[0 := T], 0, false);
  }

  lemma StuckAtOnce(g: Graph, r: Ref, nkc: bool)
    requires WellFormed(g) && r in g && ShapeOf(g[r], nkc).Err?
    ensures Unfold(g, LTable(r), {}, nkc) == Err(ShapeOf(g[r], nkc).error)
  {
    hide ShapeOf;
  }

  lemma ConflictingEntries()
    ensures KnownEntries(map[0 := Conflicting()], Conflicting().entries) && LTable(0) in Conflicting().entries.Values
    ensures NumKey(1) in Conflicting().entries && StrKey("1") in Conflicting().entries
  {
    assert Conflicting().entries[StrKey("x")] == LTable(0);
  }

  lemma HoldsItself(T: Table)
    requires LTable(0) in T.entries.Values
    ensures CycleReachable(map[0 := T], 0)
  {
    var g: Graph, w: seq<Ref> := map[0 := T], [0, 0];
    assert Edge(g, 0, 0);
    assert w[0] == w[1] && CyclicWalk(g, 0, w);
  }

  lemma OneIsConflict(T: Table)
    requires NumKey(1) in T.entries && StrKey("1") in T.entries
    ensures ShapeOf(T, false) == Err(KeyConflict)
  {
    assert Decimal(1) == "1";
    assert Inconvertible(T, false);
    ConvertibleExactly(T, false);
  }
}
