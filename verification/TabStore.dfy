/**
 tabbar.el, the store of tab sets: one tab set for each buffer group, brought up to date
 from the list of buffers by adding and deleting single tabs, and navigation through the tabs.
 */
module TabStore {
  import opened Optional
  import opened TabSets
  import opened TabGrouping

  ghost predicate NoDuplicates(names: seq<string>) {
    forall i, j :: 0 <= i < j < |names| ==> names[i] != names[j]
  }

  lemma InsertedOnce(names: seq<string>, k: nat, name: string)
    requires NoDuplicates(names) && k <= |names| && name !in names
    ensures NoDuplicates(names[..k] + [name] + names[k..])
    ensures forall g :: g in names[..k] + [name] + names[k..] <==> g == name || g in names
  {
    var longer := names[..k] + [name] + names[k..];
    assert names == names[..k] + names[k..];
    forall i, j | 0 <= i < j < |longer|
      ensures longer[i] != longer[j]
    {
      assert longer[i] == if i < k then names[i] else if i == k then name else names[i - 1];
      assert longer[j] == if j < k then names[j] else if j == k then name else names[j - 1];
    }
  }

  class Store {
    const bar: Bar
    var table: map<string, TabSet>  // tabbar-tabsets
    var order: seq<string>          // the order in which mapatoms visits it
    var buffers: seq<Entry>         // tabbar--buffers

    constructor (bar: Bar)
      ensures this.bar == bar && Valid() && buffers == [] && table == map[]
    {
      this.bar, table, order, buffers := bar, map[], [], [];
    }

    // ---- what is kept

    ghost predicate Filed()
      reads this`table, this`order
    {
      && (forall g :: g in table ==> table[g].name == g)
      && (forall g :: g in order <==> g in table) && NoDuplicates(order)
    }

    ghost predicate AllSound()
      reads this`table, table.Values
    {
      forall g :: g in table ==> Sound(table[g])
    }

    ghost predicate NoneEmpty()
      reads this`table, table.Values`tabs
    {
      forall g :: g in table ==> table[g].tabs != []
    }

    // The buffers in the tab set of the group; none when there is no tab set.
    ghost function Group(g: string): seq<Buffer>
      reads this`table, table.Values`tabs
    {
      if g in table then Values(table[g].tabs) else []
    }

    // Every group has the buffers that the list gives it.
    ghost predicate Matches(bl: seq<Entry>)
      reads this`table, table.Values`tabs
    {
      forall g, b :: b in Group(g) <==> b in Wanted(bl, g)
    }

    ghost predicate Valid()
      reads this, table.Values
    {
      Filed() && AllSound() && NoneEmpty() && OneEach(buffers) && Matches(buffers)
    }

    // ---- adding

    method NewTabset(name: string, value: Buffer) returns (ts: TabSet)
      ensures fresh(ts) && ts.name == name && Sound(ts) && Values(ts.tabs) == [value] && ts.start == 0
    {
      ts := new TabSet(name);
      var tab := new Tab(value, ts);
      ts.tabs := [tab];
      ts.select := tab;
      ts.start := 0;
    }

    // tabbar-make-tabset with one object, for a name that has no tab set
    method MakeTabset(name: string, value: Buffer)
      requires Filed() && AllSound() && NoneEmpty() && name !in table
      modifies this`table, this`order
      ensures Filed() && AllSound() && NoneEmpty()
      ensures table.Keys == old(table).Keys + {name} && (forall h :: h in old(table) ==> table[h] == old(table)[h])
      ensures fresh(table[name]) && table[name].start == 0
      ensures Group(name) == [value]
    {
      hide NoDuplicates, Sound;
      var ts := NewTabset(name, value);
      table := table[name := ts];
      var k: nat :| k <= |order|;
      InsertedOnce(order, k, name);
      order := order[..k] + [name] + order[k..];
    }

    // One round of the inner loop that adds: a tab for the buffer, unless it is known to be there.
    method AddTo(e: Entry, g: string)
      requires Filed() && AllSound() && NoneEmpty()
      requires g in table && Find(buffers, e.buffer) == Some(e) ==> e.buffer in Group(g)
      modifies this`table, this`order, table.Values`tabs, table.Values`template
      ensures Filed() && AllSound() && NoneEmpty()
      ensures forall h :: h in old(table) ==> h in table && table[h] == old(table)[h]
      ensures forall h :: h in table && h !in old(table) ==> fresh(table[h]) && table[h].start == 0
      ensures Group(g) == old(if e.buffer in Group(g) then Group(g) else Group(g) + [e.buffer])
      ensures forall h :: h != g ==> Group(h) == old(Group(h))
    {
      if g in table {
        if Find(buffers, e.buffer) != Some(e) {
          bar.AddTab(table[g], e.buffer, true);
          table[g].template := None;
        }
      } else {
        MakeTabset(g, e.buffer);
      }
    }

    // The tab sets of the table are the old ones or new.
    twostate predicate Extended()
      reads this`table, table.Values`start
    {
      && (forall h :: h in old(table) ==> h in table && table[h] == old(table)[h])
      && (forall h :: h in table && h !in old(table) ==> fresh(table[h]) && table[h].start == 0)
    }

    // One round of the outer loop.
    method AddEntry(e: Entry)
      requires Filed() && AllSound() && NoneEmpty()
      requires Find(buffers, e.buffer) == Some(e) ==> forall g :: g in e.groups ==> e.buffer in Group(g)
      modifies this`table, this`order, table.Values`tabs, table.Values`template
      ensures Filed() && AllSound() && NoneEmpty() && Extended()
      ensures forall h :: Group(h) == Joined(old(Group(h)), e, h)
    {
      hide Filed, AllSound, NoneEmpty, Find, Group;
      for j := 0 to |e.groups|
        invariant Filed() && AllSound() && NoneEmpty() && Extended()
        invariant forall h ::
          Group(h) == old(Group(h)) + if h in e.groups[..j] && e.buffer !in old(Group(h)) then [e.buffer] else []
      {
        var g := e.groups[j];
        assert e.groups[..j + 1] == e.groups[..j] + [g];
        assert Find(buffers, e.buffer) == Some(e) ==> e.buffer in old(Group(g));
        AddTo(e, g);
      }
      assert e.groups[..|e.groups|] == e.groups;
    }

    // The loop that adds new buffers and updates changed ones.
    method AddAll(bl: seq<Entry>)
      requires Valid() && OneEach(bl)
      modifies this`table, this`order, table.Values`tabs, table.Values`template
      ensures Filed() && AllSound() && NoneEmpty() && Extended()
      ensures forall g :: Group(g) == Grown(old(Group(g)), bl, g)
    {
      hide Filed, AllSound, NoneEmpty, Wanted, Joined;
      for i := 0 to |bl|
        invariant Filed() && AllSound() && NoneEmpty() && Extended()
        invariant forall g :: Group(g) == Grown(old(Group(g)), bl[..i], g)
      {
        var e := bl[i];
        forall g | Find(buffers, e.buffer) == Some(e) && g in e.groups
          ensures e.buffer in Group(g)
        {
          WantedMembers(buffers, g, e.buffer);
          assert e.buffer in old(Group(g));
          GrownKeeps(old(Group(g)), bl[..i], g, e.buffer);
        }
        AddEntry(e);
        assert bl[..i + 1][..i] == bl[..i];
      }
      assert bl[..|bl|] == bl;
    }

    // ---- removing

    // The tab's buffer is still there and still in the group of the tab set.
    predicate Belongs(tab: Tab, ts: TabSet, bl: seq<Entry>)
      reads this`table
    {
      var e := Find(bl, tab.value);
      e.Some? && exists g :: g in e.value.groups && g in table && table[g] == ts
    }

    // The first tab not looked at yet.
    method PruneTab(ts: TabSet, bl: seq<Entry>, ghost kept: seq<Tab>, tab: Tab, ghost after: seq<Tab>)
      requires Sound(ts) && Filed() && ts.name in table && table[ts.name] == ts && ts.tabs == kept + [tab] + after
      modifies bar`trackSelected, ts`tabs, ts`select, ts`template
      ensures Sound(ts) && ts.tabs == if Keep(bl, ts.name, tab.value) then kept + [tab] + after else kept + after
      ensures bar.Steady() && bar.Noted(ts) && bar.NotMade(ts)
    {
      hide Find, Index;
      assert Belongs(tab, ts, bl) == Keep(bl, ts.name, tab.value);
      if !Belongs(tab, ts, bl) {
        PositionOf(ts, kept, tab, after);
        assert tab in ts.tabs;
        bar.DeleteTab(tab);
      }
    }

    // The loop over the tabs of one tab set that removes those that do not belong.
    method PruneTabs(ts: TabSet, bl: seq<Entry>)
      requires Sound(ts) && Filed() && ts.name in table && table[ts.name] == ts
      modifies bar`trackSelected, ts`tabs, ts`select, ts`template
      ensures Sound(ts) && Values(ts.tabs) == Kept(old(Values(ts.tabs)), bl, ts.name)
      ensures bar.Steady() && bar.Noted(ts) && bar.NotMade(ts)
    {
      hide Sound, Filed, Keep, Values;
      var tabs := ts.tabs;
      ghost var kept: seq<Tab> := [];
      NoValues();
      for i := 0 to |tabs|
        invariant Sound(ts) && ts.tabs == kept + tabs[i..] && bar.Steady() && bar.Noted(ts) && bar.NotMade(ts)
        invariant Values(kept) == Kept(Values(tabs[..i]), bl, ts.name)
      {
        var tab := tabs[i];
        ValuesAppend(tabs[..i], tab);
        ValuesAppend(kept, tab);
        assert tabs[..i + 1] == tabs[..i] + [tab];
        assert ts.tabs == kept + [tab] + tabs[i + 1..];
        PruneTab(ts, bl, kept, tab, tabs[i + 1..]);
        KeptAppend(Values(tabs[..i]), tab.value, bl, ts.name);
        if Keep(bl, ts.name, tab.value) {
          kept := kept + [tab];
        }
      }
      assert tabs[..|tabs|] == tabs && ts.tabs == kept;
    }

    // Where the selection differs from these, the rendering is dropped and tracking asked for.
    ghost predicate Followed(sels: map<TabSet, Tab?>, track: bool)
      reads bar`trackSelected, sels.Keys`select, sels.Keys`template
    {
      && (bar.trackSelected == track || bar.trackSelected == bar.autoScroll)
      && forall ts :: ts in sels && ts.select != sels[ts] ==> bar.trackSelected == bar.autoScroll && ts.template == None
    }

    // The result says that no tab is left.
    method PruneGroup(g: string, bl: seq<Entry>, ghost sels: map<TabSet, Tab?>, ghost track: bool) returns (none: bool)
      requires Filed() && AllSound() && g in table && Followed(sels, track)
      modifies bar`trackSelected, table.Values`tabs, table.Values`select, table.Values`template
      ensures Filed() && AllSound()
      ensures Group(g) == Kept(old(Group(g)), bl, g)
      ensures forall h :: h != g ==> Group(h) == old(Group(h))
      ensures none <==> Group(g) == []
      ensures Followed(sels, track)
    {
      hide Kept, Sound, NoDuplicates;
      PruneTabs(table[g], bl);
      none := table[g].tabs == [];
      assert |Group(g)| == |table[g].tabs|;
    }

    // tabbar-map-tabsets over that loop; the names of the tab sets that end up empty are collected.
    method PruneAll(bl: seq<Entry>, ghost sels: map<TabSet, Tab?>, ghost track: bool) returns (empties: seq<string>)
      requires Filed() && AllSound() && Followed(sels, track)
      modifies bar`trackSelected, table.Values`tabs, table.Values`select, table.Values`template
      ensures Filed() && AllSound()
      ensures forall g :: Group(g) == Kept(old(Group(g)), bl, g)
      ensures forall g :: g in empties <==> g in table && Group(g) == []
      ensures Followed(sels, track)
    {
      hide Followed, AllSound, Kept, Keep, Group;
      empties := [];
      forall g | g !in table
        ensures Group(g) == Kept(Group(g), bl, g)
      {
        NoGroup(g, bl);
      }
      for i := 0 to |order|
        invariant Filed() && AllSound() && Followed(sels, track)
        invariant forall g :: Group(g) == if g in order[..i] then Kept(old(Group(g)), bl, g) else old(Group(g))
        invariant forall g :: g in empties <==> g in order[..i] && Group(g) == []
      {
        var g := order[i];
        assert order[..i + 1] == order[..i] + [g];
        assert g !in order[..i] && g in table;
        hide Filed, NoDuplicates;
        var none := PruneGroup(g, bl, sels, track);
        if none {
          empties := empties + [g];
        }
      }
      assert order[..|order|] == order;
    }

    lemma NoGroup(g: string, bl: seq<Entry>)
      requires g !in table
      ensures Group(g) == Kept(Group(g), bl, g)
    {
    }

    // tabbar-delete-tabset; nothing happens when there is none
    method DeleteTabset(g: string)
      requires Filed() && AllSound() && Group(g) == []
      modifies this`table, this`order
      ensures Filed() && AllSound() && table == old(table) - {g}
      ensures forall h :: Group(h) == old(Group(h))
    {
      if g in table {
        var k :| 0 <= k < |order| && order[k] == g;
        table := table - {g};
        order := order[..k] + order[k + 1..];
      }
    }

    method DeleteTabsets(names: seq<string>)
      requires Filed() && AllSound()
      requires forall g :: g in names <==> g in table && Group(g) == []
      modifies this`table, this`order
      ensures Filed() && AllSound() && NoneEmpty()
      ensures forall g :: g in table ==> g in old(table) && table[g] == old(table)[g]
      ensures forall g :: Group(g) == old(Group(g))
    {
      hide Filed, AllSound;
      for i := 0 to |names|
        invariant Filed() && AllSound() && table == old(table) - set g | g in names[..i]
        invariant forall g :: Group(g) == old(Group(g))
      {
        hide Group;
        assert names[..i + 1] == names[..i] + [names[i]];
        DeleteTabset(names[i]);
      }
      assert names[..|names|] == names;
      forall g | g in table
        ensures table[g].tabs != []
      {
        assert |Group(g)| == |table[g].tabs|;
      }
    }

    // ---- tabbar-buffer-update-groups

    lemma EmptyGroups()
      requires NoneEmpty()
      ensures forall g :: g in table <==> Group(g) != []
    {
      forall g
        ensures g in table <==> Group(g) != []
      {
        assert g in table ==> |Group(g)| == |table[g].tabs|;
      }
    }

    // The part that runs when the list has changed.
    method Regroup(bl: seq<Entry>)
      requires Valid() && OneEach(bl)
      modifies this, bar`trackSelected, table.Values
      ensures Filed() && AllSound() && NoneEmpty() && buffers == bl
      ensures forall g :: Group(g) == Regrouped(old(Group(g)), bl, g)
      ensures forall g :: g in table ==>
        (g in old(table) && table[g] == old(table)[g]) || (fresh(table[g]) && table[g].start == 0)
      ensures bar.Steady() && forall g :: g in old(table) ==> bar.Noted(old(table)[g])
    {
      hide Filed, AllSound, NoneEmpty, Group, OneEach, Regrouped, Matches, Kept, Grown;
      ghost var sels, track := map ts | ts in table.Values :: ts.select, bar.trackSelected;
      AddAll(bl);
      var empties := PruneAll(bl, sels, track);
      DeleteTabsets(empties);
      forall g
        ensures Group(g) == Regrouped(old(Group(g)), bl, g)
      {
        UpdateIsRegrouping(old(Group(g)), bl, g);
      }
      buffers := bl;
    }

    /**
     The list of buffers, in name order, becomes the cache; each group keeps what stays and gets the
     newcomers appended.
     */
    method UpdateGroups(bl: seq<Entry>)
      requires Valid() && OneEach(bl)
      modifies this, bar`trackSelected, table.Values
      ensures Valid() && buffers == bl
      ensures forall g :: Group(g) == Regrouped(old(Group(g)), bl, g)
      ensures forall g :: g in table ==>
        (g in old(table) && table[g] == old(table)[g]) || (fresh(table[g]) && table[g].start == 0)
      ensures bar.Steady() && forall g :: g in old(table) ==> bar.Noted(old(table)[g])
      ensures bl == old(buffers) ==> table == old(table) && order == old(order) && unchanged(table.Values)
    {
      hide Filed, AllSound, NoneEmpty, Group, OneEach, Regrouped;
      if bl == buffers {
        forall g
          ensures Group(g) == Regrouped(Group(g), bl, g)
        {
          SettledStays(Group(g), bl, g);
        }
      } else {
        Regroup(bl);
        forall g, b
          ensures b in Group(g) <==> b in Wanted(bl, g)
        {
          RegroupedMembers(old(Group(g)), bl, g, b);
        }
      }
    }

    /**
     After an update, from whatever state, a tab set exists exactly for the groups in use and holds
     their buffers, once each.
     */
    lemma GroupsAreFromScratch(g: string)
      requires Valid()
      ensures g in table <==> Wanted(buffers, g) != []
      ensures NoRepeats(Group(g)) && multiset(Group(g)) == multiset(Wanted(buffers, g))
      ensures forall b :: b in Group(g) <==> exists e :: e in buffers && e.buffer == b && g in e.groups
    {
      EmptyGroups();
      assert g in table ==> Sound(table[g]);
      WantedNoRepeats(buffers, g);
      SameMembersSameCounts(Group(g), Wanted(buffers, g));
      FirstIsMember(Group(g));
      FirstIsMember(Wanted(buffers, g));
      forall b
        ensures b in Group(g) <==> exists e :: e in buffers && e.buffer == b && g in e.groups
      {
        WantedMembers(buffers, g, b);
      }
    }

    // tabbar-get-tabsets-tabset, what it sets: the selected tabs of the existing tab sets
    method SelectedTabs() returns (sels: seq<Tab>)
      requires Valid()
      ensures |sels| == |order|
      ensures forall i :: 0 <= i < |sels| ==> sels[i] == table[order[|sels| - 1 - i]].select
    {
      hide NoDuplicates;
      sels := [];
      for i := 0 to |order|
        invariant |sels| == i
        invariant forall k :: 0 <= k < i ==> sels[k] == table[order[i - 1 - k]].select
      {
        var ts := table[order[i]];
        assert Sound(ts) && ts.tabs != [];
        sels := [ts.select] + sels;
      }
    }

    lemma GroupsApart()
      requires Valid()
      ensures forall g, h :: g in table && h in table && g != h ==> table[g] != table[h]
    {
    }

    // tabbar-buffer-tabs without the list of groups: the tab set of the current buffer's first group, with the current
    // buffer selected
    method BufferTabs(bl: seq<Entry>, current: Buffer) returns (ts: TabSet)
      requires Valid() && OneEach(bl) && Find(bl, current).Some? && Find(bl, current).value.groups != []
      modifies this, bar`trackSelected, table.Values
      ensures Valid() && buffers == bl
      ensures forall g :: Group(g) == Regrouped(old(Group(g)), bl, g)
      ensures var g := Find(bl, current).value.groups[0]; g in table && ts == table[g]
      ensures ts.select != null && ts.select.value == current && ts.select in ts.tabs
      ensures forall g :: g in table ==>
        (g in old(table) && table[g] == old(table)[g]) || (fresh(table[g]) && table[g].start == 0)
      ensures bar.Steady() && forall g :: g in old(table) ==> bar.Noted(old(table)[g])
      ensures bl == old(buffers) ==>
        && table == old(table) && order == old(order)
        && forall g :: g in table ==>
             && table[g].tabs == old(table[g].tabs)
             && (table[g] != ts ==> table[g].select == old(table[g].select))
    {
      hide Valid, Group, Regrouped, OneEach, Find;
      UpdateGroups(bl);
      FirstGroup(current);
      var g := Find(buffers, current).value.groups[0];
      ts := table[g];
      SelectBuffer(g, ts, current);
    }

    lemma FirstGroup(b: Buffer)
      requires Valid() && Find(buffers, b).Some? && Find(buffers, b).value.groups != []
      ensures var g := Find(buffers, b).value.groups[0]; g in table && b in Group(g)
    {
      hide Filed, AllSound, Group;
      WantedMembers(buffers, Find(buffers, b).value.groups[0], b);
      EmptyGroups();
    }

    method SelectBuffer(g: string, ts: TabSet, b: Buffer)
      requires Valid() && b in Group(g) && g in table && ts == table[g]
      modifies bar`trackSelected, ts`select, ts`template
      ensures Valid() && ts.select != null && ts.select.value == b && ts.select in ts.tabs
      ensures bar.Steady() && bar.Noted(ts) && bar.NotMade(ts)
    {
      hide NoDuplicates;
      ghost var i :| 0 <= i < |Group(g)| && Group(g)[i] == b;
      assert ts.tabs[i].value == b && ts.tabs[i] in ts.tabs;
      bar.SelectTabValue(b, ts);
      assert ts.tabs != [] && Sound(ts);
    }
  }

  lemma NoValues()
    ensures Values([]) == []
  {
  }

  lemma KeptAppend(s: seq<Buffer>, b: Buffer, bl: seq<Entry>, g: string)
    ensures Kept(s + [b], bl, g) == Kept(s, bl, g) + if Keep(bl, g, b) then [b] else []
  {
    assert (s + [b])[..|s|] == s;
  }

  lemma ValuesAppend(tabs: seq<Tab>, tab: Tab)
    ensures Values(tabs + [tab]) == Values(tabs) + [tab.value]
  {
  }

  lemma PositionOf(ts: TabSet, before: seq<Tab>, tab: Tab, after: seq<Tab>)
    requires Proper(ts) && ts.tabs == before + [tab] + after
    ensures Index(ts.tabs, tab) == |before| && ts.tabs[..|before|] == before && ts.tabs[|before| + 1..] == after
  {
    var k := Index(ts.tabs, tab);
    assert ts.tabs[|before|] == tab;
    forall j | 0 <= j < |before|
      ensures ts.tabs[j] != tab
    {
      Differ(ts, j, |before|);
    }
  }

  lemma {:induction false} GrownKeeps(s: seq<Buffer>, bl: seq<Entry>, g: string, b: Buffer)
    requires b in s
    ensures b in Grown(s, bl, g)
  {
    if bl != [] {
      GrownKeeps(s, bl[..|bl| - 1], g, b);
    }
  }
}
