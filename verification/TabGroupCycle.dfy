/**
 tabbar.el, cyclic navigation through the groups: tabbar-forward-group and tabbar-backward-group
 walk around the ring of the groups' selected tabs, whether the tab bar shows tabs or groups, and
 with the groups shown every scope leads to the neighbouring group.
 */
module TabGroupCycle {
  import opened Optional
  import opened TabSets
  import opened TabGrouping
  import opened TabStore
  import opened TabLine
  import opened TabCycle

  class GroupNavigator {
    const display: Display
    const nav: Navigator            // the search of lists, and the layout of the store
    var current: Buffer             // the current buffer

    constructor (display: Display, current: Buffer)
      ensures this.display == display && this.current == current && nav.store == display.store
    {
      this.display, this.current := display, current;
      nav := new Navigator(display.store, current);
    }

    ghost predicate Valid()
      reads this, display, display.store, display.store.table.Values, display.groups
    {
      display.Valid() && nav.store == display.store && nav.OneGroupEach()
    }

    // Position k of the ring of groups: mapatoms visits the groups in the order of the store, and the list is reversed.
    ghost function GroupAt(k: nat): string
      requires k < |display.store.order|
      reads display.store`order
    {
      display.store.order[|display.store.order| - 1 - k]
    }

    // The buffer selected in a group.
    ghost function SelectedIn(k: nat): Buffer
      requires display.store.Valid() && k < |display.store.order|
      reads display.store, display.store.table.Values
    {
      IsSound(k);
      display.store.table[GroupAt(k)].select.value
    }

    ghost predicate IsRing(ring: seq<Buffer>)
      requires display.store.Valid()
      reads display.store, display.store.table.Values
    {
      |ring| == |display.store.order| && forall k :: 0 <= k < |ring| ==> ring[k] == SelectedIn(k)
    }

    lemma IsSound(k: nat)
      requires display.store.Valid() && k < |display.store.order|
      ensures GroupAt(k) in display.store.table
      ensures var ts := display.store.table[GroupAt(k)];
              ts.tabs != [] && ts.select != null && ts.select in ts.tabs && Sound(ts) && ts.name == GroupAt(k)
    {
      hide NoDuplicates;
      assert Sound(display.store.table[GroupAt(k)]);
    }

    // The group of a buffer of one of its tabs.
    lemma GroupOf(t: Tab, k: nat)
      requires Valid() && k < |display.store.order| && GroupAt(k) in display.store.table
      requires t in display.store.table[GroupAt(k)].tabs
      ensures Find(display.store.buffers, t.value).Some?
      ensures Find(display.store.buffers, t.value).value.groups == [GroupAt(k)]
    {
      var store := display.store;
      hide NoDuplicates, Values;
      ValueOf(store.table[GroupAt(k)].tabs, t);
      assert t.value in store.Group(GroupAt(k));
      WantedMembers(store.buffers, GroupAt(k), t.value);
      KeepIsWanted(store.buffers, GroupAt(k), t.value);
    }

    // No two groups have one buffer selected.
    lemma SelectedDiffer(ring: seq<Buffer>)
      requires Valid() && IsRing(ring)
      ensures NoRepeats(ring)
    {
      hide NoDuplicates, Find;
      forall i, j | 0 <= i < j < |ring|
        ensures ring[i] != ring[j]
      {
        IsSound(i);
        IsSound(j);
        GroupOf(display.store.table[GroupAt(i)].select, i);
        GroupOf(display.store.table[GroupAt(j)].select, j);
        OrderDiffers(i, j);
      }
    }

    lemma IsStored()
      requires Valid()
      ensures display.store.Valid() && nav.store == display.store && nav.OneGroupEach()
    {
    }

    lemma OrderDiffers(i: nat, j: nat)
      requires display.store.Valid() && i < |display.store.order| && j < |display.store.order| && i != j
      ensures GroupAt(i) != GroupAt(j)
    {
      NamesDiffer(display.store.order, |display.store.order| - 1 - i, |display.store.order| - 1 - j);
    }

    // tabbar-cycle when the tab bar shows the groups: both tab sets it searches are the list of groups.
    method CycleShown(selected: Tab, ghost k: nat, sels: seq<Tab>, backward: bool, scope: Scope) returns (tab: Tab)
      requires k < |sels| && selected == sels[k] && Index(sels, selected) == k
      requires forall t :: t in sels ==> t.tabset.tabs != []
      ensures var m := Neighbour(k, |sels|, backward); var tabs := sels[m].tabset.tabs;
        tab == if scope == Everything && (if backward then k == 0 else k + 1 == |sels|)
               then (if backward then tabs[|tabs| - 1] else tabs[0]) else sels[m]
    {
      hide Index;
      AroundAt(sels, k, backward);
      if scope != Everything {
        tab := nav.Around(sels, selected, backward);
      } else {
        var next := nav.TabNext(sels, selected, backward);
        if next != null {
          tab := next;
        } else {
          tab := if backward then sels[|sels| - 1] else sels[0];
          var tabs := tab.tabset.tabs;
          tab := if backward then tabs[|tabs| - 1] else tabs[0];
        }
      }
    }

    // The tabs of tabbar-get-tabsets-tabset are the selected ones, in the order of the ring.
    lemma GatheredAreSelected(ring: seq<Buffer>, k: nat)
      requires Valid() && IsRing(ring) && k < |ring| && display.OneForEachGroup(display.groups.tabs)
      ensures var sels := display.groups.tabs;
        && |sels| == |ring| && Index(sels, sels[k]) == k
        && forall i :: 0 <= i < |sels| ==> sels[i].value == ring[i] && sels[i] == display.store.table[GroupAt(i)].select
    {
      var sels := display.groups.tabs;
      forall i | 0 <= i < |sels|
        ensures sels[i].value == ring[i] && sels[i] == display.store.table[GroupAt(i)].select
      {
        IsSound(i);
      }
      SelectedDiffer(ring);
      hide Store.Valid;
      assert forall i :: 0 <= i < k ==> sels[i] != sels[k];
    }

    // (tabbar-current-tabset t): the current buffer stays the selected one of its group.
    method Refresh(ghost ring: seq<Buffer>, ghost k: nat) returns (ts: TabSet)
      requires Valid() && IsRing(ring) && k < |ring| && ring[k] == current
      modifies display`current, display.groups
      modifies display.store, display.store.bar`trackSelected, display.store.table.Values
      ensures Valid() && IsRing(ring) && display.store.buffers == old(display.store.buffers)
      ensures display.store.table == old(display.store.table) && display.store.order == old(display.store.order)
      ensures ts.select != null && ts.select.value == current && ts.select in ts.tabs
      ensures if display.showGroups then ts == display.groups && display.OneForEachGroup(ts.tabs)
              else GroupAt(k) in display.store.table && ts == display.store.table[GroupAt(k)]
    {
      IsSound(k);
      GroupOf(display.store.table[GroupAt(k)].select, k);
      hide Display.Valid, Store.Valid, Find;
      ts := display.BufferTabs(display.store.buffers, current);
    }

    // The list of groups, made anew; the selection in it stays.
    method Gather(ghost ring: seq<Buffer>, ghost k: nat) returns (sels: seq<Tab>)
      requires Valid() && IsRing(ring) && k < |ring|
      modifies display.groups`tabs, display.groups`start, display.groups`template
      ensures Valid() && IsRing(ring) && sels == display.groups.tabs && |sels| == |ring| && Index(sels, sels[k]) == k
      ensures Gathered(sels, ring)
      ensures old(display.OneForEachGroup(display.groups.tabs)) ==> sels == old(display.groups.tabs)
    {
      hide Store.Valid, Display.GroupsOk, Distinct;
      display.GatherGroups();
      GatheredAreSelected(ring, k);
      sels := display.groups.tabs;
      forall i | 0 <= i < |sels|
        ensures GroupAt(i) in display.store.table
      {
        IsSound(i);
      }
    }

    // The selected tabs of the groups.
    ghost predicate Gathered(sels: seq<Tab>, ring: seq<Buffer>)
      requires |sels| == |ring| == |display.store.order|
      reads display.store`table, display.store`order, display.store.table.Values`select
    {
      forall i :: 0 <= i < |sels| ==>
        && sels[i].value == ring[i] && GroupAt(i) in display.store.table
        && sels[i] == display.store.table[GroupAt(i)].select
    }

    lemma SelectedAt(ring: seq<Buffer>, k: nat, sels: seq<Tab>, t: Tab)
      requires Valid() && IsRing(ring) && k < |ring| && |sels| == |ring| && Gathered(sels, ring)
      requires t in sels && t.value == ring[k]
      ensures t == sels[k]
    {
      SelectedDiffer(ring);
    }

    // Where a tab of the list of groups is.
    lemma GroupTab(ring: seq<Buffer>, m: nat, sels: seq<Tab>)
      requires Valid() && IsRing(ring) && m < |ring| && |sels| == |ring| && Gathered(sels, ring)
      ensures GroupAt(m) in display.store.table && sels[m].value == SelectedIn(m)
      ensures var ts := display.store.table[GroupAt(m)]; sels[m] in ts.tabs && sels[m].tabset == ts && ts.tabs != []
    {
      IsSound(m);
    }

    // A tab that steps from position k end up at: of the neighbouring group, and the selected one of it unless the ring
    // is closed in the default scope.
    ghost predicate Lands(tab: Tab, k: nat, backward: bool, scope: Scope)
      requires display.store.Valid() && k < |display.store.order|
      reads display.store, display.store.table.Values
    {
      var n := |display.store.order|;
      var m := Neighbour(k, n, backward);
      && GroupAt(m) in display.store.table && tab in display.store.table[GroupAt(m)].tabs
      && (scope != Everything || (if backward then k > 0 else k + 1 < n) ==> tab.value == SelectedIn(m))
    }

    // The tab set to step in, and the list of groups.
    method Look(ghost ring: seq<Buffer>, ghost k: nat) returns (ts: TabSet, sels: seq<Tab>)
      requires Valid() && IsRing(ring) && k < |ring| && ring[k] == current
      modifies display`current, display.groups
      modifies display.store, display.store.bar`trackSelected, display.store.table.Values
      ensures Valid() && IsRing(ring) && display.store.buffers == old(display.store.buffers)
      ensures display.store.table == old(display.store.table) && display.store.order == old(display.store.order)
      ensures |sels| == |ring| && Index(sels, sels[k]) == k && Gathered(sels, ring)
      ensures if display.showGroups then ts.select in sels && ts.select != null && ts.select.value == current
              else GroupAt(k) in display.store.table && ts == display.store.table[GroupAt(k)]
    {
      hide Display.Valid, Store.Valid, IsRing, Gathered;
      ts := Refresh(ring, k);
      sels := Gather(ring, k);
    }

    method StepShown(t: Tab, sels: seq<Tab>, backward: bool, scope: Scope, ghost ring: seq<Buffer>, ghost k: nat)
      returns (tab: Tab)
      requires Valid() && IsRing(ring) && k < |ring| && |sels| == |ring| && Gathered(sels, ring)
      requires t in sels && t.value == ring[k] && Index(sels, sels[k]) == k
      ensures Lands(tab, k, backward, scope)
    {
      hide Display.Valid, Store.Valid, Gathered, Index, SelectedIn;
      IsStored();
      SelectedAt(ring, k, sels, t);
      forall u | u in sels
        ensures u.tabset.tabs != []
      {
        var m :| 0 <= m < |sels| && sels[m] == u;
        GroupTab(ring, m, sels);
      }
      GroupTab(ring, Neighbour(k, |sels|, backward), sels);
      tab := CycleShown(t, k, sels, backward, scope);
    }

    method StepHidden(ts: TabSet, backward: bool, ghost ring: seq<Buffer>, ghost k: nat) returns (tab: Tab)
      requires Valid() && IsRing(ring) && k < |ring| && |ring| > 1
      requires GroupAt(k) in display.store.table && ts == display.store.table[GroupAt(k)]
      ensures Lands(tab, k, backward, GroupsOnly)
    {
      hide Display.Valid, Store.Valid, Index, Sound;
      IsStored();
      IsSound(k);
      IsSound(Neighbour(k, |ring|, backward));
      tab := nav.Cycle(ts, k, backward, GroupsOnly);
    }

    /**
     tabbar-cycle with the switch to the buffer, from the buffer selected in group k, when the groups are shown or
     only they are cycled through: the current buffer is one of the neighbouring group, and the tabs are shown again.
     */
    method Step(backward: bool, scope: Scope, ghost ring: seq<Buffer>, ghost k: nat) returns (tab: Tab)
      requires Valid() && IsRing(ring) && k < |ring| && ring[k] == current
      requires display.showGroups || (scope == GroupsOnly && |ring| > 1)
      modifies this`current, display`current, display`showGroups
      modifies display.store, display.store.bar`trackSelected, display.store.table.Values, display.groups
      ensures Valid() && IsRing(ring) && display.store.buffers == old(display.store.buffers)
      ensures display.store.table == old(display.store.table) && display.store.order == old(display.store.order)
      ensures current == tab.value && Lands(tab, k, backward, scope) && !display.showGroups
    {
      hide Display.Valid, Store.Valid, IsRing, Lands, Gathered;
      var ts, sels := Look(ring, k);
      if display.showGroups {
        tab := StepShown(ts.select, sels, backward, scope, ring, k);
      } else {
        tab := StepHidden(ts, backward, ring, k);
      }
      current := tab.value;
      display.ShowGroups(false);
    }

    lemma LandsOn(tab: Tab, ring: seq<Buffer>, k: nat, backward: bool)
      requires Valid() && IsRing(ring) && k < |ring| && Lands(tab, k, backward, GroupsOnly)
      ensures tab.value == ring[Neighbour(k, |ring|, backward)]
    {
    }

    // tabbar-forward-group or tabbar-backward-group, after any choice between tabs and groups
    method StepGroup(backward: bool, ghost ring: seq<Buffer>, ghost k: nat)
      requires Valid() && IsRing(ring) && |ring| > 1 && k < |ring| && ring[k] == current
      modifies this`current, display`current, display`showGroups
      modifies display.store, display.store.bar`trackSelected, display.store.table.Values, display.groups
      ensures Valid() && IsRing(ring) && current == ring[Neighbour(k, |ring|, backward)]
      ensures display.store.table == old(display.store.table)
    {
      hide Display.Valid, Store.Valid, IsRing, Lands;
      var show: bool := *;
      display.ShowGroups(show);
      var tab := Step(backward, GroupsOnly, ring, k);
      LandsOn(tab, ring, k, backward);
    }

    /** Stepping until the first buffer comes back: the selected buffer of every group is visited exactly once. */
    method TourGroups(backward: bool, ghost ring: seq<Buffer>, ghost k: nat) returns (visited: seq<Buffer>)
      requires Valid() && IsRing(ring) && |ring| > 1 && k < |ring| && ring[k] == current
      modifies this`current, display`current, display`showGroups
      modifies display.store, display.store.bar`trackSelected, display.store.table.Values, display.groups
      ensures Valid() && IsRing(ring) && current == old(current)
      ensures NoRepeats(visited) && forall b :: b in visited <==> b in ring
    {
      SelectedDiffer(ring);
      hide Valid, IsRing, NoRepeats, Visited;
      var start := current;
      StepGroup(backward, ring, k);
      visited := [current];
      VisitedFirst(ring, k, backward);
      while current != start
        invariant Valid() && IsRing(ring) && display.store.table == old(display.store.table)
        invariant Visited(visited, ring, k, backward) && visited != [] && current == visited[|visited| - 1]
        decreases |ring| - |visited|
      {
        ghost var p := VisitedNext(visited, ring, k, backward);
        StepGroup(backward, ring, p);
        visited := visited + [current];
      }
      VisitedAll(visited, ring, k, backward);
    }

    /** A step in one direction undoes a step in the other. */
    method GroupsBackAndForth(backward: bool, ghost ring: seq<Buffer>, ghost k: nat)
      requires Valid() && IsRing(ring) && |ring| > 1 && k < |ring| && ring[k] == current
      modifies this`current, display`current, display`showGroups
      modifies display.store, display.store.bar`trackSelected, display.store.table.Values, display.groups
      ensures Valid() && IsRing(ring) && current == old(current)
    {
      hide Valid, IsRing;
      StepGroup(backward, ring, k);
      StepGroup(!backward, ring, Neighbour(k, |ring|, backward));
    }
  }

  // The buffers come to in the first steps from position k.
  ghost predicate Visited(visited: seq<Buffer>, ring: seq<Buffer>, k: nat, backward: bool)
    requires k < |ring|
  {
    && 1 <= |visited| <= |ring|
    && forall j :: 0 <= j < |visited| ==> visited[j] == ring[Position(k, |ring|, j + 1, backward)]
  }

  lemma VisitedFirst(ring: seq<Buffer>, k: nat, backward: bool)
    requires k < |ring|
    ensures Visited([ring[Neighbour(k, |ring|, backward)]], ring, k, backward)
  {
    AfterSteps(k, |ring|, 0, backward);
  }

  lemma VisitedNext(visited: seq<Buffer>, ring: seq<Buffer>, k: nat, backward: bool) returns (p: nat)
    requires k < |ring| && Visited(visited, ring, k, backward) && visited[|visited| - 1] != ring[k]
    ensures p < |ring| && visited[|visited| - 1] == ring[p] && |visited| < |ring|
    ensures Visited(visited + [ring[Neighbour(p, |ring|, backward)]], ring, k, backward)
  {
    p := Position(k, |ring|, |visited|, backward);
    PositionIs(k, |ring|, |visited|, backward);
    AfterSteps(k, |ring|, |visited|, backward);
  }

  lemma VisitedAll(visited: seq<Buffer>, ring: seq<Buffer>, k: nat, backward: bool)
    requires k < |ring| && NoRepeats(ring) && Visited(visited, ring, k, backward) && visited[|visited| - 1] == ring[k]
    ensures NoRepeats(visited) && forall b :: b in visited <==> b in ring
  {
    FullTurn(ring, k, visited, backward);
  }
}
