/**
 tabbar.el, cyclic navigation: stepping through the tabs of a group and on to the next
 group walks around the ring of all tabs, and stepping backward undoes a step forward.
 */
module TabCycle {
  import opened Optional
  import opened TabSets
  import opened TabGrouping
  import opened TabStore

  // ---- the ring

  function Flat(gs: seq<seq<Tab>>): seq<Tab> {
    if gs == [] then [] else Flat(gs[..|gs| - 1]) + gs[|gs| - 1]
  }

  // Where group i begins.
  function Offset(gs: seq<seq<Tab>>, i: nat): nat
    requires i <= |gs|
  {
    |Flat(gs[..i])|
  }

  lemma {:induction false} FlatAt(gs: seq<seq<Tab>>, i: nat, j: nat)
    requires i < |gs| && j < |gs[i]|
    ensures Offset(gs, i) + j < |Flat(gs)| && Flat(gs)[Offset(gs, i) + j] == gs[i][j]
  {
    var front := gs[..|gs| - 1];
    if i < |gs| - 1 {
      FlatAt(front, i, j);
      assert front[..i] == gs[..i];
    }
  }

  lemma OffsetSteps(gs: seq<seq<Tab>>, i: nat)
    requires i < |gs|
    ensures Offset(gs, i + 1) == Offset(gs, i) + |gs[i]|
    ensures Offset(gs, 0) == 0 && Offset(gs, |gs|) == |Flat(gs)|
  {
    assert gs[..i + 1][..i] == gs[..i] && gs[..|gs|] == gs;
  }

  // Non-empty groups, without a tab that occurs twice.
  ghost predicate Disjoint(gs: seq<seq<Tab>>) {
    && (forall k :: 0 <= k < |gs| ==> Distinct(gs[k]) && gs[k] != [])
    && forall i, j, t :: 0 <= i < |gs| && 0 <= j < |gs| && i != j && t in gs[i] ==> t !in gs[j]
  }

  lemma {:induction false} FlatMembers(gs: seq<seq<Tab>>, t: Tab)
    ensures t in Flat(gs) <==> exists i :: 0 <= i < |gs| && t in gs[i]
  {
    if gs != [] {
      var front := gs[..|gs| - 1];
      FlatMembers(front, t);
      if i :| 0 <= i < |gs| && t in gs[i] {
        assert i < |gs| - 1 ==> front[i] == gs[i];
      }
    }
  }

  lemma ConcatDistinct(s: seq<Tab>, t: seq<Tab>)
    requires Distinct(s) && Distinct(t) && forall u :: u in s ==> u !in t
    ensures Distinct(s + t)
  {
    forall i, j | 0 <= i < j < |s + t|
      ensures (s + t)[i] != (s + t)[j]
    {
      if i < |s| <= j {
        assert s[i] in s && t[j - |s|] in t;
      }
    }
  }

  lemma {:induction false} FlatDistinct(gs: seq<seq<Tab>>)
    requires Disjoint(gs)
    ensures Distinct(Flat(gs))
  {
    if gs != [] {
      var front, last := gs[..|gs| - 1], gs[|gs| - 1];
      assert forall i :: 0 <= i < |front| ==> front[i] == gs[i];
      FlatDistinct(front);
      forall t | t in Flat(front)
        ensures t !in last
      {
        FlatMembers(front, t);
      }
      ConcatDistinct(Flat(front), last);
    }
  }

  // The next or previous position in a ring of n.
  function Neighbour(k: nat, n: nat, backward: bool): (m: nat)
    requires k < n
    ensures m < n
  {
    if backward then if k == 0 then n - 1 else k - 1 else if k + 1 == n then 0 else k + 1
  }

  // The next or previous element of a ring.
  function Turned(ring: seq<Tab>, tab: Tab, backward: bool): Tab
    requires tab in ring
  {
    ring[Neighbour(Index(ring, tab), |ring|, backward)]
  }

  lemma IndexIs(ring: seq<Tab>, k: nat)
    requires Distinct(ring) && k < |ring|
    ensures Index(ring, ring[k]) == k
  {
  }

  /** Backward undoes forward, and forward undoes backward. */
  lemma TurnedBack(ring: seq<Tab>, tab: Tab, backward: bool)
    requires Distinct(ring) && tab in ring
    ensures Turned(ring, Turned(ring, tab, backward), !backward) == tab
  {
    IndexIs(ring, Index(ring, Turned(ring, tab, backward)));
    forall k | 0 <= k < |ring|
      ensures Index(ring, ring[k]) == k
    {
      IndexIs(ring, k);
    }
  }

  // Stepping inside a group, or from its end to the neighbouring group, is a turn of the ring.
  lemma TurnInside(gs: seq<seq<Tab>>, i: nat, j: nat, backward: bool)
    requires Disjoint(gs) && i < |gs| && j < |gs[i]|
    requires if backward then j > 0 else j + 1 < |gs[i]|
    ensures gs[i][j] in Flat(gs)
    ensures Turned(Flat(gs), gs[i][j], backward) == if backward then gs[i][j - 1] else gs[i][j + 1]
  {
    hide Flat, Offset;
    FlatDistinct(gs);
    FlatAt(gs, i, j);
    IndexIs(Flat(gs), Offset(gs, i) + j);
    FlatAt(gs, i, if backward then j - 1 else j + 1);
  }

  lemma TurnOutside(gs: seq<seq<Tab>>, i: nat, j: nat, backward: bool)
    requires Disjoint(gs) && i < |gs|
    requires j == if backward then 0 else |gs[i]| - 1
    ensures gs[i][j] in Flat(gs)
    ensures var next := gs[Neighbour(i, |gs|, backward)];
      Turned(Flat(gs), gs[i][j], backward) == if backward then next[|next| - 1] else next[0]
  {
    hide Flat, Offset;
    FlatDistinct(gs);
    FlatAt(gs, i, j);
    IndexIs(Flat(gs), Offset(gs, i) + j);
    OffsetSteps(gs, i);
    var n := Neighbour(i, |gs|, backward);
    OffsetSteps(gs, n);
    FlatAt(gs, n, if backward then |gs[n]| - 1 else 0);
  }

  // ---- tabbar-cycle

  datatype Scope = Visible | GroupsOnly | Everything

  // The position after m steps, and where it is when no more than one round has been made.
  function Position(k: nat, n: nat, m: nat, backward: bool): (p: nat)
    requires k < n
    ensures p < n
  {
    if m == 0 then k else Neighbour(Position(k, n, m - 1, backward), n, backward)
  }

  lemma {:induction false} PositionIs(k: nat, n: nat, m: nat, backward: bool)
    requires k < n && m <= n
    ensures Position(k, n, m, backward) ==
      if backward then if m <= k then k - m else k - m + n else if k + m < n then k + m else k + m - n
  {
    if m > 0 {
      PositionIs(k, n, m - 1, backward);
    }
  }

  class Navigator {
    const store: Store
    var current: Buffer             // the current buffer

    constructor (store: Store, current: Buffer)
      ensures this.store == store && this.current == current
    {
      this.store, this.current := store, current;
    }

    // The tabs of the tab sets in the order in which tabbar-map-tabsets lists them: it reverses the order of its visit.
    ghost function Reversed(order: seq<string>): (gs: seq<seq<Tab>>)
      requires forall g :: g in order ==> g in store.table
      reads store`table, store.table.Values`tabs
      ensures |gs| == |order| && forall i :: 0 <= i < |order| ==> gs[i] == store.table[order[|order| - 1 - i]].tabs
    {
      if order == [] then [] else Reversed(order[1..]) + [store.table[order[0]].tabs]
    }

    ghost function Layout(): seq<seq<Tab>>
      requires store.Filed()
      reads store`table, store`order, store.table.Values`tabs
    {
      Reversed(store.order)
    }

    lemma LayoutIsDisjoint()
      requires store.Valid()
      ensures Disjoint(Layout())
    {
      hide NoDuplicates;
      var gs, n := Layout(), |store.order|;
      forall i | 0 <= i < n
        ensures Distinct(gs[i]) && gs[i] != []
        ensures forall t: Tab :: t in gs[i] ==> t.tabset.name == store.order[n - 1 - i]
      {
        assert Sound(store.table[store.order[n - 1 - i]]);
      }
      forall i, j, t | 0 <= i < n && 0 <= j < n && i != j && t in gs[i]
        ensures t !in gs[j]
      {
        NamesDiffer(store.order, n - 1 - i, n - 1 - j);
      }
    }

    // The tabs of tabbar-get-tabsets-tabset, one of each group.
    method SelectedTabs() returns (sels: seq<Tab>)
      requires store.Valid()
      ensures |sels| == |store.order|
      ensures forall i :: 0 <= i < |sels| ==> sels[i] == store.table[store.order[|sels| - 1 - i]].select
      ensures forall i :: 0 <= i < |sels| ==> sels[i] in Layout()[i]
    {
      hide NoDuplicates;
      sels := store.SelectedTabs();
      forall i | 0 <= i < |sels|
        ensures sels[i] in Layout()[i]
      {
        var ts := store.table[store.order[|sels| - 1 - i]];
        assert Sound(ts) && ts.tabs != [];
      }
    }

    // tabbar-tab-next
    method TabNext(tabs: seq<Tab>, tab: Tab, before: bool) returns (r: Tab?)
      ensures var k := Index(tabs, tab);
        r == if k == |tabs| then null
             else if before then (if k > 0 then tabs[k - 1] else null)
             else if k + 1 < |tabs| then tabs[k + 1] else null
    {
      var last: Tab? := null;
      var rest := tabs;
      ghost var k := 0;
      while rest != [] && tab != rest[0]
        invariant 0 <= k <= |tabs| && rest == tabs[k..] && tab !in tabs[..k]
        invariant last == if k > 0 then tabs[k - 1] else null
        decreases |rest|
      {
        last, rest, k := rest[0], rest[1..], k + 1;
      }
      IndexFrom(tabs, k, tab);
      r := if rest == [] then null else if before then last else if |rest| > 1 then rest[1] else null;
    }

    // The search of one list with its fall-back to the other end: the branches of tabbar-cycle for one scope.
    method Around(ring: seq<Tab>, tab: Tab, backward: bool) returns (r: Tab)
      requires tab in ring
      ensures r == Turned(ring, tab, backward)
    {
      var next := TabNext(ring, tab, backward);
      r := if next != null then next else if backward then ring[|ring| - 1] else ring[0];
    }

    // The position of the group in the list of all.
    ghost predicate At(ts: TabSet, i: nat)
      reads store`table, store`order
    {
      && i < |store.order| && store.order[|store.order| - 1 - i] == ts.name
      && ts.name in store.table && store.table[ts.name] == ts
    }

    // Of the selected tabs, only the one of the group itself is its selected tab.
    lemma SelectedOnce(ts: TabSet, i: nat, sels: seq<Tab>)
      requires store.Valid() && At(ts, i) && |sels| == |store.order|
      requires forall k :: 0 <= k < |sels| ==>
        sels[k] == store.table[store.order[|sels| - 1 - k]].select && sels[k] in Layout()[k]
      ensures ts.select in ts.tabs && sels[i] == ts.select && Index(sels, ts.select) == i && Layout()[i] == ts.tabs
    {
      LayoutIsDisjoint();
      assert sels[i] == ts.select;
      assert forall k :: 0 <= k < i ==> sels[k] != sels[i];
    }

    lemma TabsetOf(tab: Tab, k: nat)
      requires store.Valid() && k < |store.order| && tab in Layout()[k]
      ensures tab.tabset.tabs == Layout()[k]
    {
      assert Sound(store.table[store.order[|store.order| - 1 - k]]);
    }

    // The default branch of tabbar-cycle: the tabs of the group, then the neighbouring group.
    method CycleAll(ts: TabSet, ghost i: nat, sels: seq<Tab>, backward: bool) returns (tab: Tab)
      requires store.Valid() && At(ts, i) && |sels| == |store.order|
      requires forall k :: 0 <= k < |sels| ==>
        sels[k] == store.table[store.order[|sels| - 1 - k]].select && sels[k] in Layout()[k]
      ensures ts.select in Flat(Layout()) && tab == Turned(Flat(Layout()), ts.select, backward)
    {
      hide Turned, Flat, Index;
      SelectedOnce(ts, i, sels);
      LayoutIsDisjoint();
      hide Store.Valid, Reversed, Disjoint, Layout, At;
      ghost var j := Index(ts.tabs, ts.select);
      tab := ts.select;
      var next := TabNext(ts.tabs, tab, backward);
      if next != null {
        tab := next;
        TurnInside(Layout(), i, j, backward);
      } else {
        TurnOutside(Layout(), i, j, backward);
        tab := Around(sels, ts.select, backward);
        AroundAt(sels, i, backward);
        TabsetOf(tab, Neighbour(i, |sels|, backward));
        var tabs := tab.tabset.tabs;
        tab := if backward then tabs[|tabs| - 1] else tabs[0];
      }
    }

    // tabbar-cycle, from the selected tab of the tab set
    method Cycle(ts: TabSet, ghost i: nat, backward: bool, scope: Scope) returns (tab: Tab)
      requires store.Valid() && At(ts, i)
      ensures ts.select in ts.tabs
      ensures scope == Visible || (scope == GroupsOnly && |store.order| == 1) ==>
        tab == Turned(ts.tabs, ts.select, backward)
      ensures scope == GroupsOnly && |store.order| > 1 ==>
        var n := |store.order|; tab == store.table[store.order[n - 1 - Neighbour(i, n, backward)]].select
      ensures scope == Everything ==> ts.select in Flat(Layout()) && tab == Turned(Flat(Layout()), ts.select, backward)
    {
      hide Flat, Index, Turned, Reversed, Layout, NoDuplicates, Neighbour, Store.AllSound, Store.NoneEmpty;
      hide Store.Matches, OneEach;
      var sels := SelectedTabs();
      SelectedOnce(ts, i, sels);
      if scope == Visible || (scope == GroupsOnly && |sels| <= 1) {
        tab := Around(ts.tabs, ts.select, backward);
      } else if scope == GroupsOnly {
        tab := Around(sels, ts.select, backward);
        AroundAt(sels, i, backward);
      } else {
        tab := CycleAll(ts, i, sels, backward);
      }
    }

    // ---- going round

    // Every buffer of the list has one group.
    ghost predicate OneGroupEach()
      reads store`buffers
    {
      forall e :: e in store.buffers ==> |e.groups| == 1
    }

    // The buffers of all tabs of all groups.
    ghost function Ring(): seq<Buffer>
      requires store.Filed()
      reads store`table, store`order, store.table.Values`tabs
    {
      Values(Flat(Layout()))
    }

    // A tab in the ring is in the group of its buffer.
    lemma RingTab(t: Tab, e: Entry)
      requires store.Valid() && OneGroupEach() && e in store.buffers && e.buffer == t.value
      ensures t in Flat(Layout()) <==> e.groups[0] in store.table && t in store.table[e.groups[0]].tabs
    {
      hide NoDuplicates, Flat, Values;
      FlatMembers(Layout(), t);
      var n := |store.order|;
      if i :| 0 <= i < n && t in Layout()[i] {
        RingGroup(t, e, store.order[n - 1 - i]);
      }
      if e.groups[0] in store.table && t in store.table[e.groups[0]].tabs {
        var k :| 0 <= k < n && store.order[k] == e.groups[0];
        assert Layout()[n - 1 - k] == store.table[e.groups[0]].tabs;
      }
    }

    lemma RingGroup(t: Tab, e: Entry, g: string)
      requires store.Valid() && OneGroupEach() && e in store.buffers && e.buffer == t.value
      requires g in store.table && t in store.table[g].tabs
      ensures e.groups == [g]
    {
      hide Values;
      ValueOf(store.table[g].tabs, t);
      assert t.value in store.Group(g);
      WantedMembers(store.buffers, g, t.value);
      KeepIsWanted(store.buffers, g, t.value);
      KeepIsMembership(store.buffers, g, e);
    }

    lemma EntryOf(t: Tab) returns (e: Entry)
      requires store.Valid() && t in Flat(Layout())
      ensures e in store.buffers && e.buffer == t.value
    {
      FlatMembers(Layout(), t);
      var i :| 0 <= i < |store.order| && t in Layout()[i];
      var g := store.order[|store.order| - 1 - i];
      ValueOf(store.table[g].tabs, t);
      assert t.value in store.Group(g);
      WantedMembers(store.buffers, g, t.value);
      e :| e in store.buffers && e.buffer == t.value;
    }

    lemma SameValueSameTab(t: Tab, u: Tab)
      requires store.Valid() && OneGroupEach() && t in Flat(Layout()) && u in Flat(Layout()) && t.value == u.value
      ensures t == u
    {
      hide Flat, NoDuplicates;
      var e := EntryOf(t);
      RingTab(t, e);
      RingTab(u, e);
      assert Sound(store.table[e.groups[0]]);
    }

    /** With one group for each buffer, every buffer has exactly one place in the ring. */
    lemma RingIsExact()
      requires store.Valid() && OneGroupEach()
      ensures NoRepeats(Ring())
      ensures forall b :: b in Ring() <==> Find(store.buffers, b).Some?
    {
      hide Store.AllSound, Store.NoneEmpty, Store.Matches, OneGroupEach, Layout, Flat, Find;
      var flat := Flat(Layout());
      LayoutIsDisjoint();
      FlatDistinct(Layout());
      forall p, q | 0 <= p < q < |flat|
        ensures flat[p].value != flat[q].value
      {
        if flat[p].value == flat[q].value {
          SameValueSameTab(flat[p], flat[q]);
        }
      }
      forall b
        ensures b in Ring() <==> Find(store.buffers, b).Some?
      {
        if p :| 0 <= p < |flat| && flat[p].value == b {
          var e := EntryOf(flat[p]);
        }
        if Find(store.buffers, b).Some? {
          BufferInRing(Find(store.buffers, b).value);
        }
      }
    }

    lemma PlaceInRing(b: Buffer) returns (k: nat)
      requires store.Valid() && OneGroupEach() && Find(store.buffers, b).Some?
      ensures NoRepeats(Ring()) && k < |Ring()| && Ring()[k] == b
    {
      RingIsExact();
      k :| k < |Ring()| && Ring()[k] == b;
    }

    lemma BufferInRing(e: Entry)
      requires store.Valid() && OneGroupEach() && e in store.buffers
      ensures e.buffer in Ring()
    {
      hide Flat, NoDuplicates;
      var g := e.groups[0];
      WantedMembers(store.buffers, g, e.buffer);
      assert e.buffer in store.Group(g);
      var i :| 0 <= i < |store.Group(g)| && store.Group(g)[i] == e.buffer;
      var t := store.table[g].tabs[i];
      RingTab(t, e);
      ValueOf(Flat(Layout()), t);
    }

    // tabbar-forward or tabbar-backward, and the switch to the buffer of the tab that was chosen
    method Step(backward: bool, ghost k: nat)
      requires store.Valid() && OneGroupEach() && k < |Ring()| && Ring()[k] == current
      modifies this`current, store, store.bar`trackSelected, store.table.Values
      ensures store.Valid() && OneGroupEach() && store.buffers == old(store.buffers) && Ring() == old(Ring())
      ensures store.table == old(store.table)
      ensures current == Ring()[Neighbour(k, |Ring()|, backward)]
    {
      hide NoDuplicates, Flat, Store.Valid, OneGroupEach, Ring, Layout, At;
      var ts, i := CurrentTabs(k);
      var tab := Cycle(ts, i, backward, Everything);
      RingTurns(k, ts.select, tab, backward);
      current := tab.value;
    }

    // The tab set of the current buffer, which is selected in it.
    method CurrentTabs(ghost k: nat) returns (ts: TabSet, ghost i: nat)
      requires store.Valid() && OneGroupEach() && k < |Ring()| && Ring()[k] == current
      modifies store, store.bar`trackSelected, store.table.Values
      ensures store.Valid() && OneGroupEach() && store.buffers == old(store.buffers) && store.table == old(store.table)
      ensures Ring() == old(Ring()) && At(ts, i) && ts.select != null && ts.select.value == current
    {
      hide NoDuplicates, Flat, Store.AllSound, Store.NoneEmpty, Store.Matches, OneEach, Regrouped, Store.Group;
      RingIsExact();
      ts := store.BufferTabs(store.buffers, current);
      assert Layout() == old(Layout());
      i := PlaceOf(ts, Find(store.buffers, current).value.groups[0]);
    }

    lemma PlaceOf(ts: TabSet, g: string) returns (i: nat)
      requires store.Valid() && g in store.table && store.table[g] == ts
      ensures At(ts, i)
    {
      var p :| 0 <= p < |store.order| && store.order[p] == g;
      i := |store.order| - 1 - p;
    }

    lemma RingTurns(k: nat, t: Tab, u: Tab, backward: bool)
      requires store.Valid() && OneGroupEach() && t in Flat(Layout()) && u == Turned(Flat(Layout()), t, backward)
      requires k < |Ring()| && Ring()[k] == t.value
      ensures u.value == Ring()[Neighbour(k, |Ring()|, backward)]
    {
      hide Store.AllSound, Store.NoneEmpty, Store.Matches, OneGroupEach, Layout, Flat, Find, Reversed;
      RingIsExact();
      assert Ring()[Index(Flat(Layout()), t)] == t.value;
    }

    /** Stepping until the first buffer comes back: every buffer is visited exactly once. */
    method Tour(backward: bool) returns (visited: seq<Buffer>)
      requires store.Valid() && OneGroupEach() && Find(store.buffers, current).Some?
      modifies this`current, store, store.bar`trackSelected, store.table.Values
      ensures store.Valid() && Ring() == old(Ring()) && current == old(current)
      ensures NoRepeats(visited) && forall b :: b in visited <==> b in Ring()
    {
      hide Store.AllSound, Store.NoneEmpty, Store.Matches, Ring, Find, Position, OneEach, NoRepeats, OneGroupEach;
      hide Store.Filed;
      ghost var k := PlaceInRing(current);
      ghost var ring, n := Ring(), |Ring()|;
      var start := current;
      Step(backward, k);
      AfterSteps(k, n, 0, backward);
      visited := [current];
      while current != start
        invariant store.Valid() && OneGroupEach() && store.table == old(store.table)
        invariant store.buffers == old(store.buffers) && Ring() == ring
        invariant 1 <= |visited| <= n && current == ring[Position(k, n, |visited|, backward)]
        invariant forall j :: 0 <= j < |visited| ==> visited[j] == ring[Position(k, n, j + 1, backward)]
        decreases n - |visited|
      {
        PositionIs(k, n, |visited|, backward);
        AfterSteps(k, n, |visited|, backward);
        Step(backward, Position(k, n, |visited|, backward));
        visited := visited + [current];
      }
      FullTurn(ring, k, visited, backward);
    }

    /** A step in one direction undoes a step in the other. */
    method BackAndForth(backward: bool)
      requires store.Valid() && OneGroupEach() && Find(store.buffers, current).Some?
      modifies this`current, store, store.bar`trackSelected, store.table.Values
      ensures store.Valid() && current == old(current) && Ring() == old(Ring())
    {
      hide Store.AllSound, Store.NoneEmpty, Store.Matches, Ring, Find, OneEach, OneGroupEach, Store.Filed;
      ghost var k := PlaceInRing(current);
      ghost var ring := Ring();
      Step(backward, k);
      Step(!backward, Neighbour(k, |ring|, backward));
    }
  }

  lemma AfterSteps(k: nat, n: nat, m: nat, backward: bool)
    requires k < n
    ensures Position(k, n, 0, backward) == k
    ensures Position(k, n, m + 1, backward) == Neighbour(Position(k, n, m, backward), n, backward)
  {
  }

  // The positions of one round are all positions, once each.
  lemma FullTurn(ring: seq<Buffer>, k: nat, visited: seq<Buffer>, backward: bool)
    requires NoRepeats(ring) && k < |ring| && 1 <= |visited| <= |ring|
    requires forall j :: 0 <= j < |visited| ==> visited[j] == ring[Position(k, |ring|, j + 1, backward)]
    requires visited[|visited| - 1] == ring[k]
    ensures NoRepeats(visited) && forall b :: b in visited <==> b in ring
  {
    hide Position;
    var n := |ring|;
    forall m | 1 <= m <= n
      ensures Position(k, n, m, backward)
           == if backward then if m <= k then k - m else k - m + n
              else if k + m < n then k + m else k + m - n
    {
      PositionIs(k, n, m, backward);
    }
    assert Position(k, n, |visited|, backward) == k;
    assert |visited| == n;
    forall p | 0 <= p < n
      ensures ring[p] in visited
    {
      var j := if backward then if p < k then k - p - 1 else k + n - p - 1
               else if p > k then p - k - 1 else p + n - k - 1;
      assert visited[j] == ring[p];
    }
  }

  lemma ValueOf(tabs: seq<Tab>, t: Tab)
    requires t in tabs
    ensures t.value in Values(tabs)
  {
    var i :| 0 <= i < |tabs| && tabs[i] == t;
    assert Values(tabs)[i] == t.value;
  }

  lemma AroundAt(ring: seq<Tab>, i: nat, backward: bool)
    requires i < |ring| && Index(ring, ring[i]) == i
    ensures Turned(ring, ring[i], backward) == ring[Neighbour(i, |ring|, backward)]
  {
  }

  lemma NamesDiffer(names: seq<string>, i: nat, j: nat)
    requires NoDuplicates(names) && i < |names| && j < |names| && i != j
    ensures names[i] != names[j]
  {
  }

  lemma IndexFrom(tabs: seq<Tab>, k: nat, tab: Tab)
    requires k <= |tabs| && tab !in tabs[..k] && (k < |tabs| ==> tabs[k] == tab)
    ensures Index(tabs, tab) == k
  {
    forall j | 0 <= j < k
      ensures tabs[j] != tab
    {
      assert tabs[..k][j] == tabs[j];
    }
  }
}
