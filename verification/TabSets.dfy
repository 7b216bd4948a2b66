/**
 tabbar.el, tab sets: a list of tabs with a selection, the index of the first visible tab
 and a cached rendering. Faces, images and label texts are not modelled; whether the tabs
 fit the window is decided anew, in any way, each time the program asks.
 */
module TabSets {
  import opened Optional

  type Buffer = nat

  // A tab is a fresh cons cell: two tabs of one value are still two tabs.
  class Tab {
    const value: Buffer
    const tabset: TabSet

    constructor (value: Buffer, tabset: TabSet)
      ensures this.value == value && this.tabset == tabset
    {
      this.value, this.tabset := value, tabset;
    }
  }

  // The header line: the tabs it lists, the highlighted one, and whether the scroll buttons are enabled.
  datatype Template = Template(tabs: seq<Tab>, selected: Tab?, left: bool, right: bool)

  class TabSet {
    const name: string
    var tabs: seq<Tab>
    var select: Tab?
    var start: int
    var template: Option<Template>

    constructor (name: string)
      ensures this.name == name && tabs == [] && select == null && start == 0 && template == None
    {
      this.name, tabs, select, start, template := name, [], null, 0, None;
    }
  }

  // ---- lists

  // nthcdr: a negative count drops nothing, a large one everything
  function Drop(tabs: seq<Tab>, start: int): seq<Tab> {
    if start <= 0 then tabs else if start < |tabs| then tabs[start..] else []
  }

  // delq
  function Without(tabs: seq<Tab>, tab: Tab): seq<Tab> {
    if tabs == [] then []
    else (if tabs[0] == tab then [] else [tabs[0]]) + Without(tabs[1..], tab)
  }

  lemma {:induction false} WithoutKeeps(tabs: seq<Tab>, tab: Tab)
    ensures forall t :: t in Without(tabs, tab) <==> t in tabs && t != tab
    ensures tab !in tabs ==> Without(tabs, tab) == tabs
  {
    if tabs != [] {
      WithoutKeeps(tabs[1..], tab);
      assert tabs == [tabs[0]] + tabs[1..];
    }
  }

  ghost predicate Distinct(tabs: seq<Tab>) {
    forall i, j :: 0 <= i < j < |tabs| ==> tabs[i] != tabs[j]
  }

  lemma {:induction false} WithoutSplits(before: seq<Tab>, tab: Tab, after: seq<Tab>)
    requires tab !in before && tab !in after
    ensures Without(before + [tab] + after, tab) == before + after
  {
    var all := before + [tab] + after;
    if before == [] {
      WithoutKeeps(after, tab);
      assert all[1..] == after && before + after == after;
    } else {
      WithoutSplits(before[1..], tab, after);
      assert all[1..] == before[1..] + [tab] + after;
      assert before + after == [before[0]] + (before[1..] + after);
    }
  }

  // The position of the first occurrence, or the length when there is none: memq
  function Index(tabs: seq<Tab>, tab: Tab?): (k: nat)
    ensures k <= |tabs| && (k < |tabs| ==> tabs[k] == tab)
    ensures forall j :: 0 <= j < k ==> tabs[j] != tab
  {
    if tabs == [] || tabs[0] == tab then 0 else 1 + Index(tabs[1..], tab)
  }

  // The first tab with the value: assoc
  function Lookup(tabs: seq<Tab>, value: Buffer): (t: Tab?)
    ensures t == null ==> forall u :: u in tabs ==> u.value != value
    ensures t != null ==> t in tabs && t.value == value
  {
    if tabs == [] then null else if tabs[0].value == value then tabs[0] else Lookup(tabs[1..], value)
  }

  ghost function Values(tabs: seq<Tab>): seq<Buffer> {
    seq(|tabs|, i requires 0 <= i < |tabs| => tabs[i].value)
  }

  // ---- what every operation keeps

  // Every tab belongs to the tab set, and no two have one value.
  ghost predicate Proper(ts: TabSet)
    reads ts`tabs
  {
    && (forall t :: t in ts.tabs ==> t.tabset == ts)
    && forall i, j :: 0 <= i < j < |ts.tabs| ==> ts.tabs[i].value != ts.tabs[j].value
  }

  // A non-empty tab set has one of its tabs selected.
  ghost predicate Selected(ts: TabSet)
    reads ts`tabs, ts`select
  {
    ts.tabs != [] ==> ts.select in ts.tabs
  }

  function View(ts: TabSet): seq<Tab>
    reads ts`tabs, ts`start
  {
    Drop(ts.tabs, ts.start)
  }

  // What the header line should be.
  function Rendering(ts: TabSet): Template
    reads ts`tabs, ts`select, ts`start
  {
    Template(View(ts), ts.select, ts.start > 0, ts.start < |ts.tabs| - 1)
  }

  // The cached rendering, when there is one, is up to date.
  ghost predicate Cached(ts: TabSet)
    reads ts
  {
    ts.template.Some? ==> ts.template.value == Rendering(ts)
  }

  ghost predicate Sound(ts: TabSet)
    reads ts
  {
    Proper(ts) && Selected(ts) && Cached(ts) && ts.start >= 0
  }

  lemma Differ(ts: TabSet, i: nat, j: nat)
    requires Proper(ts) && i < |ts.tabs| && j < |ts.tabs| && i != j
    ensures ts.tabs[i] != ts.tabs[j]
  {
  }

  lemma WithoutFirst(ts: TabSet, tab: Tab)
    requires Proper(ts)
    ensures var k := Index(ts.tabs, tab);
            Without(ts.tabs, tab) == if k < |ts.tabs| then ts.tabs[..k] + ts.tabs[k + 1..] else ts.tabs
    ensures forall t :: t in Without(ts.tabs, tab) <==> t in ts.tabs && t != tab
    ensures var k := Index(ts.tabs, tab); k + 1 < |ts.tabs| ==> ts.tabs[k + 1] in Without(ts.tabs, tab)
  {
    WithoutKeeps(ts.tabs, tab);
    var tabs, k := ts.tabs, Index(ts.tabs, tab);
    hide Without, Index;
    if k < |tabs| {
      forall j | k < j < |tabs|
        ensures tabs[j] != tab
      {
        Differ(ts, k, j);
      }
      WithoutSplits(tabs[..k], tab, tabs[k + 1..]);
      assert tabs == tabs[..k] + [tab] + tabs[k + 1..];
    }
  }

  /**
   The state all tab sets share: whether the selected tab is to be brought into view, and the option
   that decides it.
   */
  class Bar {
    const autoScroll: bool
    var trackSelected: bool

    constructor (autoScroll: bool)
      ensures this.autoScroll == autoScroll && !trackSelected
    {
      this.autoScroll, trackSelected := autoScroll, false;
    }

    // Tracking has been asked for since then, or nothing has changed about it.
    twostate predicate Steady()
      reads this`trackSelected
    {
      trackSelected == old(trackSelected) || trackSelected == autoScroll
    }

    // If the selection has changed since then, the rendering is dropped and tracking asked for.
    twostate predicate Noted(ts: TabSet)
      reads this`trackSelected, ts`select, ts`template
    {
      ts.select != old(ts.select) ==> trackSelected == autoScroll && ts.template == None
    }

    // The rendering has not been made anew since then.
    twostate predicate NotMade(ts: TabSet)
      reads ts`template
    {
      ts.template == old(ts.template) || ts.template == None
    }

    // tabbar-select-tab. A tab counts as a member when it was made for the tab set, even if it has been deleted since.
    method SelectTab(tab: Tab?, ts: TabSet)
      modifies this`trackSelected, ts`select, ts`template
      ensures ts.select == if tab != null && (tab.tabset == ts || tab in ts.tabs) then tab else old(ts.select)
      ensures ts.select != old(ts.select) ==> trackSelected == autoScroll && ts.template == None
      ensures ts.select == old(ts.select) ==> trackSelected == old(trackSelected) && ts.template == old(ts.template)
      ensures old(Cached(ts)) ==> Cached(ts)
      ensures Selected(ts) <==>
        ts.tabs == [] || tab in ts.tabs || ((tab == null || tab.tabset != ts) && old(Selected(ts)))
    {
      if tab != null && (tab.tabset == ts || tab in ts.tabs) {
        if tab != ts.select {
          ts.template := None;
          trackSelected := autoScroll;
        }
        ts.select := tab;
      }
    }

    // tabbar-select-tab-value
    method SelectTabValue(value: Buffer, ts: TabSet)
      modifies this`trackSelected, ts`select, ts`template
      ensures old(Sound(ts)) ==> Sound(ts)
      ensures old(Cached(ts)) ==> Cached(ts)
      ensures ts.select != old(ts.select) ==> trackSelected == autoScroll && ts.template == None
      ensures ts.select == old(ts.select) ==> trackSelected == old(trackSelected) && ts.template == old(ts.template)
      ensures (exists t :: t in ts.tabs && t.value == value) ==> ts.select in ts.tabs
      ensures (exists t :: t in ts.tabs && t.value == value) ==> ts.select != null && ts.select.value == value
      ensures (forall t :: t in ts.tabs ==> t.value != value) ==> ts.select == old(ts.select)
    {
      SelectTab(Lookup(ts.tabs, value), ts);
    }

    // tabbar-add-tab. The selection stays good unless the first tab of an empty tab set is added.
    method AddTab(ts: TabSet, value: Buffer, append: bool)
      requires Proper(ts) && Cached(ts)
      modifies ts`tabs, ts`template
      ensures Proper(ts) && Cached(ts)
      ensures value in old(Values(ts.tabs)) ==> ts.tabs == old(ts.tabs) && ts.template == old(ts.template)
      ensures value !in old(Values(ts.tabs)) ==>
        && Values(ts.tabs) == (if append then old(Values(ts.tabs)) + [value] else [value] + old(Values(ts.tabs)))
        && ts.template == None
      ensures forall t :: t in old(ts.tabs) ==> t in ts.tabs
      ensures value !in old(Values(ts.tabs)) ==> (Selected(ts) <==> old(ts.select in ts.tabs))
    {
      if Lookup(ts.tabs, value) == null {
        var tab := new Tab(value, ts);
        ts.template := None;
        ts.tabs := if append then ts.tabs + [tab] else [tab] + ts.tabs;
      } else {
        var t := Lookup(ts.tabs, value);
        var k :| 0 <= k < |ts.tabs| && ts.tabs[k] == t;
        assert Values(ts.tabs)[k] == value;
      }
    }

    // tabbar-delete-tab
    method DeleteTab(tab: Tab)
      requires Proper(tab.tabset)
      modifies this`trackSelected, tab.tabset`tabs, tab.tabset`select, tab.tabset`template
      ensures Proper(tab.tabset) && tab.tabset.template == None
      ensures var ts := tab.tabset; var k := Index(old(ts.tabs), tab); var rest := ts.tabs;
        && (k < |old(ts.tabs)| ==> rest == old(ts.tabs)[..k] + old(ts.tabs)[k + 1..])
        && (k == |old(ts.tabs)| ==> rest == old(ts.tabs))
        && (old(ts.select) != tab ==> ts.select == old(ts.select))
        && (old(ts.select) == tab ==>
              ts.select == if k + 1 < |old(ts.tabs)| then old(ts.tabs)[k + 1]
                           else if rest != [] then rest[|rest| - 1] else tab)
      ensures old(Selected(tab.tabset)) ==> Selected(tab.tabset)
      ensures trackSelected == if tab.tabset.select != old(tab.tabset.select) then autoScroll else old(trackSelected)
    {
      hide Without, Index, Cached, Rendering, Values;
      var ts := tab.tabset;
      var tabs := ts.tabs;
      var sel := tab == ts.select;
      var k := Index(tabs, tab);
      var next := if sel && k < |tabs| then tabs[k + 1..] else [];
      ts.template := None;
      WithoutFirst(ts, tab);
      tabs := Without(tabs, tab);
      if sel {
        SelectTab(if next != [] then next[0] else if tabs != [] then tabs[|tabs| - 1] else null, ts);
      }
      ts.tabs := tabs;
    }

    // tabbar-scroll; on an empty tab set the view ends up before the first tab
    method Scroll(ts: TabSet, count: int)
      modifies ts`start, ts`template
      ensures ts.start == Scrolled(old(ts.start), count, |ts.tabs|)
      ensures ts.start == old(ts.start) ==> ts.template == old(ts.template)
      ensures old(Cached(ts)) ==> Cached(ts)
    {
      var start := Scrolled(ts.start, count, |ts.tabs|);
      if start != ts.start {
        ts.template := None;
        ts.start := start;
      }
    }

    // The first loop of tabbar-line-format: left until the selected tab is in view.
    method ScrollToSelected(ts: TabSet) returns (tabs: seq<Tab>)
      requires Distinct(ts.tabs) && ts.start >= 0 && ts.select in ts.tabs
      modifies ts`start, ts`template
      ensures tabs == View(ts) && ts.select in tabs && 0 <= ts.start <= Index(ts.tabs, ts.select)
      ensures ts.start
           == if old(ts.start) <= Index(ts.tabs, ts.select) then old(ts.start) else Index(ts.tabs, ts.select)
    {
      var sel := ts.select;
      ghost var k := Index(ts.tabs, sel);
      InView(ts, sel);
      tabs := View(ts);
      while sel !in tabs
        invariant tabs == View(ts) && ts.start >= 0
        invariant sel in tabs <==> ts.start <= k
        invariant if old(ts.start) <= k then ts.start == old(ts.start) else k <= ts.start <= old(ts.start)
        decreases ts.start
      {
        Scroll(ts, -1);
        InView(ts, sel);
        tabs := View(ts);
      }
    }

    // The second loop: the tabs in view up to the selected one, and those after it.
    method Collect(view: seq<Tab>, sel: Tab) returns (elts: seq<Tab>, tabs: seq<Tab>)
      requires sel in view
      ensures elts + tabs == view && elts != [] && elts[|elts| - 1] == sel
    {
      var atsel := false;
      elts, tabs := [], view;
      while tabs != [] && !atsel
        invariant Reverse(elts) + tabs == view
        invariant atsel ==> elts != [] && elts[0] == sel
        invariant !atsel ==> sel in tabs
        decreases |tabs|
      {
        ReverseEnds(elts, tabs[0]);
        assert tabs == [tabs[0]] + tabs[1..];
        elts, atsel, tabs := [tabs[0]] + elts, tabs[0] == sel, tabs[1..];
      }
      ReverseEnds(elts[1..], sel);
      assert elts == [sel] + elts[1..];
      elts := Reverse(elts);
    }

    // The third loop: right for as long as the tabs do not fit, but never past the selected one.
    method Fit(ts: TabSet, all: seq<Tab>, ghost tabs: seq<Tab>) returns (elts: seq<Tab>)
      requires all + tabs == View(ts) && all != [] && ts.start >= 0
      modifies ts`start, ts`template
      ensures elts + tabs == View(ts) && elts != [] && elts[|elts| - 1] == all[|all| - 1]
      ensures old(ts.start) <= ts.start
    {
      elts := all;
      var overflows: bool := *;
      while |elts| > 1 && overflows
        invariant elts != [] && elts[|elts| - 1] == all[|all| - 1]
        invariant elts + tabs == View(ts) && old(ts.start) <= ts.start
        decreases |elts|
      {
        ghost var before := View(ts);
        assert |before| == |ts.tabs| - ts.start;
        Scroll(ts, 1);
        assert View(ts) == before[1..];
        assert before[1..] == elts[1..] + tabs;
        elts := elts[1..];
        overflows := *;
      }
    }

    // What tabbar-line-format does when the selected tab is to be brought into view.
    method Track(ts: TabSet) returns (elts: seq<Tab>, tabs: seq<Tab>)
      requires Distinct(ts.tabs) && ts.start >= 0 && ts.select in ts.tabs
      modifies ts`start, ts`template
      ensures Reverse(elts) + tabs == View(ts) && ts.select in View(ts) && ts.start >= 0
    {
      hide Index, Drop, Distinct, Reverse;
      tabs := ScrollToSelected(ts);
      elts, tabs := Collect(tabs, ts.select);
      elts := Fit(ts, elts, tabs);
      assert (elts + tabs)[|elts| - 1] == ts.select;
      ReverseTwice(elts);
      elts := Reverse(elts);
    }

    // tabbar-line-format
    method LineFormat(ts: TabSet)
      requires Distinct(ts.tabs) && ts.start >= 0 && (trackSelected ==> ts.select in ts.tabs)
      modifies this`trackSelected, ts`start, ts`template
      ensures ts.template == Some(Rendering(ts)) && Cached(ts) && ts.start >= 0 && !trackSelected
      ensures old(trackSelected) ==> ts.select in View(ts)
      ensures !old(trackSelected) ==> ts.start == old(ts.start)
    {
      hide Index, Drop, Distinct;
      var elts, tabs := [], View(ts);
      if trackSelected {
        elts, tabs := Track(ts);
        trackSelected := false;
      }
      while tabs != []
        invariant Reverse(elts) + tabs == View(ts)
        modifies {}
        decreases |tabs|
      {
        ReverseEnds(elts, tabs[0]);
        assert tabs == [tabs[0]] + tabs[1..];
        elts, tabs := [tabs[0]] + elts, tabs[1..];
      }
      assert Reverse(elts) == View(ts);
      ts.template := Some(Template(Reverse(elts), ts.select, ts.start > 0, ts.start < |ts.tabs| - 1));
    }
  }

  lemma InView(ts: TabSet, tab: Tab)
    requires Distinct(ts.tabs) && tab in ts.tabs
    ensures ts.start >= 0 ==> (tab in View(ts) <==> ts.start <= Index(ts.tabs, tab))
  {
    var k := Index(ts.tabs, tab);
    if 0 < ts.start <= k {
      assert View(ts)[k - ts.start] == tab;
    } else if ts.start > k {
      forall j | 0 <= j < |View(ts)|
        ensures View(ts)[j] != tab
      {
        assert View(ts)[j] == ts.tabs[j + ts.start];
      }
    }
  }

  // ---- lists built in reverse

  function Reverse(s: seq<Tab>): seq<Tab> {
    if s == [] then [] else Reverse(s[1..]) + [s[0]]
  }

  lemma {:induction false} ReverseEnds(s: seq<Tab>, t: Tab)
    ensures Reverse(s + [t]) == [t] + Reverse(s)
    ensures Reverse([t] + s) == Reverse(s) + [t]
  {
    assert ([t] + s)[1..] == s;
    if s == [] {
      assert s + [t] == [t];
    } else {
      ReverseEnds(s[1..], t);
      assert (s + [t])[1..] == s[1..] + [t];
    }
  }

  lemma {:induction false} ReverseTwice(s: seq<Tab>)
    ensures Reverse(Reverse(s)) == s && |Reverse(s)| == |s|
  {
    if s != [] {
      ReverseTwice(s[1..]);
      ReverseEnds(Reverse(s[1..]), s[0]);
    }
  }

  function Scrolled(start: int, count: int, length: nat): int {
    var wanted := if start + count > 0 then start + count else 0;
    if wanted < length - 1 then wanted else length - 1
  }

  // A scroll leaves a proper index exactly when there is a tab.
  lemma ScrollStaysInside(start: int, count: int, length: nat)
    ensures 0 <= Scrolled(start, count, length) <==> length > 0
    ensures length > 0 ==> Scrolled(start, count, length) < length
  {
  }

  // ---- when tracking ends

  // The index of the first visible tab after n rounds of the first loop of tabbar-line-format.
  function Backed(start: int, n: nat, length: nat): int {
    if n == 0 then start else Scrolled(Backed(start, n - 1, length), -1, length)
  }

  lemma {:induction false} BackedFalls(start: int, n: nat, length: nat)
    ensures Backed(start, n, length) <= if start > n then start - n else if n == 0 then start else 0
  {
    if n > 0 {
      BackedFalls(start, n - 1, length);
    }
  }

  /** The search for the selected tab ends exactly when that tab is one of the tabs. */
  lemma {:induction false} TrackingEnds(tabs: seq<Tab>, start: nat, sel: Tab?)
    ensures (exists n :: sel in Drop(tabs, Backed(start, n, |tabs|))) <==> sel in tabs
  {
    BackedFalls(start, start, |tabs|);
    assert Drop(tabs, Backed(start, start, |tabs|)) == tabs;
    assert sel in tabs ==> sel in Drop(tabs, Backed(start, start, |tabs|));
  }

  // ---- a selection that does not survive

  /**
   Deleting the only tab and adding another one leaves the deleted tab selected: the invariant that
   AddTab and DeleteTab keep otherwise is lost.
   */
  method LosesSelection(bar: Bar, ts: TabSet, first: Buffer, second: Buffer)
    requires ts.tabs == [] && ts.select == null && ts.template == None && first != second
    modifies bar, ts
    ensures Proper(ts) && ts.tabs != [] && !Selected(ts)
  {
    bar.AddTab(ts, first, true);
    assert Values(ts.tabs) == [first];
    var tab := ts.tabs[0];
    bar.SelectTab(tab, ts);
    bar.DeleteTab(tab);
    bar.AddTab(ts, second, true);
    assert Values(ts.tabs) == [second];
    assert ts.tabs[0].value == second;
  }
}
