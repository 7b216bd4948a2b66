/**
 tabbar.el, the header line: bringing the tab sets up to date, choosing the one to show and
 rendering it unless a rendering is cached, over any run of redisplays, updates, scrolls and
 switches between the tabs of a group and the list of groups.
 */
module TabLine {
  import opened Optional
  import opened TabSets
  import opened TabGrouping
  import opened TabStore

  // What happens to the tab bar: a redisplay or another look at the tabs for the buffers and the current one, a scroll
  // button, and the choice whether to show the groups (the home button and the click on a tab).
  datatype Step =
    | Redisplay(bl: seq<Entry>, buffer: Buffer)
    | Look(bl: seq<Entry>, buffer: Buffer)
    | Scroll(count: int)
    | Groups(show: bool)

  // The current buffer is listed and has a group.
  ghost predicate Listed(bl: seq<Entry>, buffer: Buffer) {
    OneEach(bl) && Find(bl, buffer).Some? && Find(bl, buffer).value.groups != []
  }

  ghost predicate Legal(steps: seq<Step>) {
    forall s :: s in steps ==> (s.Redisplay? ==> Listed(s.bl, s.buffer)) && (s.Look? ==> Listed(s.bl, s.buffer))
  }

  // The buffers that are current at the redisplays.
  function Redisplayed(steps: seq<Step>): seq<Buffer> {
    if steps == [] then []
    else
      var last := steps[|steps| - 1];
      Redisplayed(steps[..|steps| - 1]) + if last.Redisplay? then [last.buffer] else []
  }

  // A line that highlights the buffer, and lists no tab twice.
  ghost predicate Highlights(line: Template, b: Buffer) {
    line.selected != null && line.selected.value == b && Distinct(line.tabs)
  }

  class Display {
    const store: Store
    const groups: TabSet            // tabbar-tabsets-tabset
    var showGroups: bool            // tabbar--buffer-show-groups
    var current: TabSet?            // tabbar-current-tabset

    constructor (store: Store)
      requires store.Valid()
      ensures Valid() && this.store == store && fresh(groups) && !showGroups
    {
      this.store, showGroups, current := store, false, null;
      groups := new TabSet("tabbar-tabsets-tabset");
    }

    ghost predicate GroupsOk()
      reads groups
    {
      Distinct(groups.tabs) && Cached(groups) && groups.start >= 0
    }

    ghost predicate Valid()
      reads this, store, store.table.Values, groups
    {
      && store.Valid() && groups !in store.table.Values && GroupsOk()
      && (current != null ==> if current == groups then groups.tabs != [] else current in store.table.Values)
    }

    // One tab for each group, the selected one.
    ghost predicate OneForEachGroup(tabs: seq<Tab>)
      reads store`table, store`order, store.table.Values`select
    {
      && |tabs| == |store.order|
      && forall i :: 0 <= i < |tabs| ==>
           store.order[|tabs| - 1 - i] in store.table && tabs[i] == store.table[store.order[|tabs| - 1 - i]].select
    }

    lemma GroupTabsDiffer(tabs: seq<Tab>)
      requires store.Valid() && OneForEachGroup(tabs)
      ensures Distinct(tabs)
    {
      forall i, j | 0 <= i < j < |tabs|
        ensures tabs[i] != tabs[j]
      {
        var g, h := store.order[|tabs| - 1 - i], store.order[|tabs| - 1 - j];
        assert Sound(store.table[g]) && Sound(store.table[h]);
        assert tabs[i].tabset.name == g && tabs[j].tabset.name == h && g != h;
      }
    }

    // tabbar-get-tabsets-tabset, when there is a group
    method GatherGroups()
      requires store.Valid() && groups !in store.table.Values && GroupsOk() && store.order != []
      modifies groups`tabs, groups`start, groups`template
      ensures store.Valid() && GroupsOk() && OneForEachGroup(groups.tabs) && groups.tabs != []
      ensures groups.template == None
    {
      hide Distinct, Store.Valid;
      groups.tabs := store.SelectedTabs();
      KeysOfOrder();
      GroupTabsDiffer(groups.tabs);
      store.bar.Scroll(groups, 0);
      groups.template := None;
    }

    lemma KeysOfOrder()
      requires store.Valid()
      ensures forall i :: 0 <= i < |store.order| ==> store.order[i] in store.table
    {
    }

    // ... with the first group whose selected tab is for the buffer
    method SelectGroup(b: Buffer, ghost ts: TabSet)
      requires store.Valid() && groups !in store.table.Values && GroupsOk()
      requires ts in store.table.Values && ts.select != null && ts.select.value == b
      modifies groups`tabs, groups`start, groups`template, groups`select, store.bar`trackSelected
      ensures store.Valid() && GroupsOk() && OneForEachGroup(groups.tabs)
      ensures groups.select != null && groups.select.value == b && groups.select in groups.tabs
      ensures groups.select != old(groups.select) ==>
        store.bar.trackSelected == store.bar.autoScroll && groups.template == None
    {
      hide Store.Valid, Distinct;
      ghost var k := PlaceOf(ts);
      GatherGroups();
      assert groups.tabs[|groups.tabs| - 1 - k] == ts.select;
      store.bar.SelectTabValue(b, groups);
    }

    lemma PlaceOf(ts: TabSet) returns (k: nat)
      requires store.Valid() && ts in store.table.Values
      ensures k < |store.order| && store.order[k] in store.table && store.table[store.order[k]] == ts
    {
      var g :| g in store.table && store.table[g] == ts;
      assert g in store.order;
      k :| k < |store.order| && store.order[k] == g;
    }

    // The tabs of the first group of the buffer, or of all groups.
    ghost predicate Chosen(ts: TabSet, b: Buffer)
      reads this`showGroups, store`table, store`order, store`buffers, store.table.Values`select, groups`tabs
    {
      if showGroups then ts == groups && OneForEachGroup(groups.tabs)
      else
        && Find(store.buffers, b).Some? && Find(store.buffers, b).value.groups != []
        && var g := Find(store.buffers, b).value.groups[0]; g in store.table && ts == store.table[g]
    }

    // tabbar-buffer-tabs
    method BufferTabs(bl: seq<Entry>, b: Buffer) returns (ts: TabSet)
      requires Valid() && Listed(bl, b)
      modifies this`current, store, store.bar`trackSelected, store.table.Values, groups
      ensures Valid() && current == ts && Chosen(ts, b) && store.buffers == bl
      ensures ts.select != null && ts.select.value == b && ts.select in ts.tabs
      ensures forall g :: store.Group(g) == Regrouped(old(store.Group(g)), bl, g)
      ensures forall g :: g in store.table ==>
        (g in old(store.table) && store.table[g] == old(store.table)[g]) || fresh(store.table[g])
      ensures bl == old(store.buffers) ==>
        && store.table == old(store.table) && store.order == old(store.order)
        && forall g :: g in store.table ==>
             && store.table[g].tabs == old(store.table[g].tabs)
             && (g != Find(bl, b).value.groups[0] ==> store.table[g].select == old(store.table[g].select))
      ensures var g := Find(bl, b).value.groups[0];
        g in store.table && store.table[g].select != null && store.table[g].select.value == b
      ensures fresh(ts) ==> ts.start == 0
      ensures !fresh(ts) ==>
        (ts.select != old(ts.select) ==> store.bar.trackSelected == store.bar.autoScroll && ts.template == None)
    {
      hide Store.Valid, Regrouped, Distinct, Cached, GroupsOk, Store.Group, OneEach;
      ts := store.BufferTabs(bl, b);
      store.GroupsApart();
      if showGroups {
        SelectGroup(b, ts);
        ts := groups;
      }
      current := ts;
    }

    // tabbar-line-format for the tab set that is shown
    method Format(ts: TabSet)
      requires Valid() && (ts == groups || ts in store.table.Values) && ts.select in ts.tabs
      modifies store.bar`trackSelected, ts`start, ts`template
      ensures Valid() && ts.template == Some(Rendering(ts))
      ensures old(store.bar.trackSelected) ==> ts.select in View(ts)
      ensures !old(store.bar.trackSelected) ==> ts.start == old(ts.start)
    {
      IsDistinct(ts);
      store.bar.LineFormat(ts);
    }

    lemma IsDistinct(ts: TabSet)
      requires Valid() && (ts == groups || ts in store.table.Values)
      ensures Distinct(ts.tabs) && Distinct(View(ts)) && Cached(ts) && ts.start >= 0
    {
      if ts != groups {
        var g :| g in store.table && store.table[g] == ts;
        assert Sound(ts);
      }
    }

    // tabbar-line, when nothing inhibits it: the cached rendering if there is one
    method Line(bl: seq<Entry>, b: Buffer) returns (line: Template, ts: TabSet)
      requires Valid() && Listed(bl, b)
      modifies this`current, store, store.bar`trackSelected, store.table.Values, groups
      ensures Valid() && store.buffers == bl && current == ts && Chosen(ts, b)
      ensures line == Rendering(ts) && Highlights(line, b)
      ensures fresh(ts) ==> line.selected in line.tabs
      ensures !fresh(ts) ==> (store.bar.autoScroll && ts.select != old(ts.select) ==> line.selected in line.tabs)
      ensures forall g :: store.Group(g) == Regrouped(old(store.Group(g)), bl, g)
      ensures forall g :: g in store.table ==>
        (g in old(store.table) && store.table[g] == old(store.table)[g]) || fresh(store.table[g])
    {
      hide Store.Valid, Regrouped, Distinct, OneEach, Find, Listed, Cached, GroupsOk;
      ts := BufferTabs(bl, b);
      IsDistinct(ts);
      if ts.template == None {
        Format(ts);
      }
      line := ts.template.value;
      IsDistinct(ts);
    }

    // tabbar-buffer-show-groups
    method ShowGroups(show: bool)
      requires Valid()
      modifies this`showGroups
      ensures Valid() && showGroups == show
    {
      showGroups := show;
    }

    // A click on one of the scroll buttons
    method Scrolled(count: int)
      requires Valid() && current != null
      modifies current`start, current`template
      ensures Valid()
    {
      IsDistinct(current);
      store.bar.Scroll(current, count);
    }

    /**
     Any run: the tab sets stay as they should be, and each line that is shown highlights the buffer
     current at that time.
     */
    method Run(steps: seq<Step>) returns (lines: seq<Template>)
      requires Valid() && Legal(steps)
      modifies this`current, this`showGroups, store, store.bar`trackSelected, store.table.Values, groups
      ensures Valid() && |lines| == |Redisplayed(steps)|
      ensures forall i :: 0 <= i < |lines| ==> Highlights(lines[i], Redisplayed(steps)[i])
    {
      hide Store.Valid, GroupsOk, Chosen, Rendering, Highlights, Regrouped, Store.Group;
      lines := [];
      for i := 0 to |steps|
        invariant Valid() && |lines| == |Redisplayed(steps[..i])|
        invariant forall k :: 0 <= k < |lines| ==> Highlights(lines[k], Redisplayed(steps[..i])[k])
        invariant forall g :: g in store.table ==> store.table[g] in old(store.table.Values) || fresh(store.table[g])
      {
        assert steps[..i + 1][..i] == steps[..i];
        match steps[i] {
          case Redisplay(bl, b) =>
            var line, ts := Line(bl, b);
            lines := lines + [line];
          case Look(bl, b) =>
            var ts := BufferTabs(bl, b);
          case Scroll(count) =>
            if current != null {
              Scrolled(count);
            }
          case Groups(show) =>
            ShowGroups(show);
        }
      }
      assert steps[..|steps|] == steps;
    }
  }
}
