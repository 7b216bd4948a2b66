/**
 Every value that can be written is stored by some graph of tables, so the round trip of
 encode and decode covers all of them.
 */
module JsonStored {
  import opened LuaText
  import opened JsonGrammar
  import opened JsonDecoder
  import opened JsonPrinter
  import opened JsonPrinting
  import opened JsonSeparators
  import opened JsonDecoding
  import opened JsonEncoder
  import opened JsonRoundTrip

  // The tables of g are tables of h.
  ghost predicate Extends(h: Graph, g: Graph) {
    forall r :: r in g ==> r in h && h[r] == g[r]
  }

  // New tables do not change what the old ones store.
  lemma {:induction false} StillRepresents(g: Graph, h: Graph, lv: LuaValue, v: Value)
    requires Extends(h, g) && Represents(g, lv, v)
    ensures Represents(h, lv, v)
    decreases v
  {
    match v
    case Arr(items) =>
      forall i: nat | i < |items|
        ensures Represents(h, g[lv.ref].entries[NumKey(i + 1)], items[i])
      {
        StillRepresents(g, h, g[lv.ref].entries[NumKey(i + 1)], items[i]);
      }
    case Obj(members) =>
      forall s | s in members
        ensures Represents(h, g[lv.ref].entries[StrKey(s)], members[s])
      {
        StillRepresents(g, h, g[lv.ref].entries[StrKey(s)], members[s]);
      }
    case _ =>
  }

  // The first n items are in entries at 1 to n.
  ghost predicate ItemsStored(g: Graph, entries: map<Key, LuaValue>, items: seq<Value>, n: nat)
    requires n <= |items|
  {
    && (forall k :: k in entries <==> k.NumKey? && k.n <= n)
    && forall i: nat :: i < n ==> Represents(g, entries[NumKey(i + 1)], items[i])
  }

  // The members other than those of left are in entries at their keys.
  ghost predicate MembersStored(g: Graph, entries: map<Key, LuaValue>, members: map<Bytes, Value>, left: set<Bytes>) {
    && (forall k :: k in entries <==> k.StrKey? && k.s in members && k.s !in left)
    && forall s :: s in members && s !in left ==> Represents(g, entries[StrKey(s)], members[s])
  }

  lemma Fresh(s: set<Ref>) returns (r: Ref)
    ensures forall x :: x in s ==> x < r
  {
    r := 0;
    if s != {} {
      var x :| x in s;
      var most := Fresh(s - {x});
      r := if x < most then most else x + 1;
      assert forall y :: y in s ==> y == x || y in s - {x};
    }
  }

  // A table for entries of known values.
  lemma NewTable(g: Graph, T: Table) returns (h: Graph, r: Ref)
    requires WellFormed(g) && KnownEntries(g, T.entries)
    ensures Extends(h, g) && WellFormed(h) && r in h && h[r] == T
  {
    r := Fresh(g.Keys);
    h := g[r := T];
    forall q | q in h
      ensures KnownEntries(h, h[q].entries)
    {
      assert q != r ==> KnownEntries(g, g[q].entries);
    }
  }

  lemma {:induction false} Store(g: Graph, v: Value) returns (h: Graph, lv: LuaValue)
    requires WellFormed(g)
    ensures Extends(h, g) && WellFormed(h) && lv != Nil && Known(h, lv) && Represents(h, lv, v)
    decreases v, 1, 0
  {
    match v {
      case Bool(b) => h, lv := g, LBool(b);
      case Num(lexeme) => h, lv := g, LNum(lexeme);
      case Str(s) => h, lv := g, LStr(s);
      case Arr(items) =>
        var entries, r;
        h, entries := StoreItems(g, v, |items|);
        h, r := Hold(h, Table(ArrayTag, entries), v);
        lv := LTable(r);
      case Obj(members) =>
        var entries, r;
        h, entries := StoreMembers(g, v, {});
        h, r := Hold(h, Table(ObjectTag, entries), v);
        lv := LTable(r);
    }
  }

  lemma Hold(g: Graph, T: Table, v: Value) returns (h: Graph, r: Ref)
    requires WellFormed(g) && KnownEntries(g, T.entries)
    requires v.Arr? ==> T.tag == ArrayTag && ItemsStored(g, T.entries, v.items, |v.items|)
    requires v.Obj? ==> T.tag == ObjectTag && MembersStored(g, T.entries, v.members, {})
    requires v.Arr? || v.Obj?
    ensures Extends(h, g) && WellFormed(h) && r in h && Represents(h, LTable(r), v)
  {
    h, r := NewTable(g, T);
    match v {
      case Arr(items) =>
        forall i: nat | i < |items|
          ensures Represents(h, T.entries[NumKey(i + 1)], items[i])
        {
          StillRepresents(g, h, T.entries[NumKey(i + 1)], items[i]);
        }
      case Obj(members) =>
        forall s | s in members
          ensures Represents(h, T.entries[StrKey(s)], members[s])
        {
          StillRepresents(g, h, T.entries[StrKey(s)], members[s]);
        }
    }
  }

  lemma {:induction false} StoreItems(g: Graph, v: Value, n: nat) returns (h: Graph, entries: map<Key, LuaValue>)
    requires WellFormed(g) && v.Arr? && n <= |v.items|
    ensures Extends(h, g) && WellFormed(h) && KnownEntries(h, entries) && ItemsStored(h, entries, v.items, n)
    decreases v, 0, n
  {
    h, entries := g, map[];
    if n > 0 {
      var before, lv;
      before, entries := StoreItems(g, v, n - 1);
      h, lv := Store(before, v.items[n - 1]);
      forall i: nat | i < n - 1
        ensures Represents(h, entries[NumKey(i + 1)], v.items[i])
      {
        StillRepresents(before, h, entries[NumKey(i + 1)], v.items[i]);
      }
      entries := entries[NumKey(n) := lv];
    }
  }

  lemma {:induction false} StoreMembers(g: Graph, v: Value, left: set<Bytes>)
    returns (h: Graph, entries: map<Key, LuaValue>)
    requires WellFormed(g) && v.Obj? && left <= v.members.Keys
    ensures Extends(h, g) && WellFormed(h) && KnownEntries(h, entries) && MembersStored(h, entries, v.members, left)
    decreases v, 0, |v.members.Keys - left|
  {
    h, entries := g, map[];
    if left != v.members.Keys {
      var s :| s in v.members && s !in left;
      var before, lv;
      assert v.members.Keys - (left + {s}) < v.members.Keys - left;
      before, entries := StoreMembers(g, v, left + {s});
      h, lv := Store(before, v.members[s]);
      forall k | k in v.members && k !in left && k != s
        ensures Represents(h, entries[StrKey(k)], v.members[k])
      {
        StillRepresents(before, h, entries[StrKey(k)], v.members[k]);
      }
      entries := entries[StrKey(s) := lv];
    }
  }

  // The text that encode writes for the value that lv stores in g.
  ghost predicate Writes(g: Graph, lv: LuaValue, v: Value, o: EncodeOptions, nkc: bool, text: Bytes) {
    WellFormed(g) && Known(g, lv) && Represents(g, lv, v) && PrintResult(Unfold(g, lv, {}, nkc), o, "") == Ok(text)
  }

  /**
   Each value that can be written is stored by some graph and written by encode, and each text
   written for it decodes to it.
   */
  lemma EveryValueComesBack(v: Value, o: EncodeOptions, nkc: bool)
    requires CanBeWritten(v) && IsBlank(o.indent)
    ensures exists g, lv, text :: Writes(g, lv, v, o, nkc, text)
    ensures forall g, lv, text :: Writes(g, lv, v, o, nkc, text) ==>
              DecodeSpec(text, Options(true, o.placeholder)) == Decoded(v) && (o.stringsAreUtf8 ==> NoSeparators(text))
  {
    var h, lv := Store(map[], v);
    RoundTrip(h, lv, v, o, nkc);
    assert Writes(h, lv, v, o, nkc, PrintResult(Unfold(h, lv, {}, nkc), o, "").value);
    forall g, lv, text | Writes(g, lv, v, o, nkc, text)
      ensures DecodeSpec(text, Options(true, o.placeholder)) == Decoded(v) && (o.stringsAreUtf8 ==> NoSeparators(text))
    {
      RoundTrip(g, lv, v, o, nkc);
    }
  }
}
