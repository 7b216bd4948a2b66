/**
 windata.el: saving the windows of a frame and restoring them. Windows have identities here,
 and the frame is changed by splitting and selecting; the outcome is compared with the
 replay on values.
 */
module Windata {
  import opened Optional
  import opened WindowShapes
  import opened WindowLayout
  import opened WindowSizes

  // ---- the frame

  function NameOf(t: Layout, w: nat): string
    requires w in Ids(t)
    decreases t, 0
  {
    match t
    case Window(_, name) => name
    case Combination(_, children) => NameAmong(children, w)
  }

  function NameAmong(ts: seq<Layout>, w: nat): string
    requires w in IdsAll(ts)
    decreases ts, 1
  {
    if w in Ids(ts[0]) then NameOf(ts[0], w) else NameAmong(ts[1..], w)
  }

  // What a split gives its two windows.
  ghost function AfterSplit(m: Areas, w: nat, n: nat, v: bool, size: nat): Areas
    requires size <= Size(AreaOf(m, w), v)
  {
    m[w := Resized(AreaOf(m, w), v, size)][n := Resized(AreaOf(m, w), v, Size(AreaOf(m, w), v) - size)]
  }

  lemma HalvesFill(v: bool, w: nat, n: nat, name: string, e: Direction, m: Areas, size: nat)
    requires w != n && size <= Size(AreaOf(m, w), v)
    ensures Fills(Halves(v, w, n, name)(e), e, AfterSplit(m, w, n, v, size), AreaOf(m, w))
  {
    var k, a := AfterSplit(m, w, n, v, size), AreaOf(m, w);
    var x, y := Window(w, name), Window(n, name);
    assert Extent(x, k, v) == size && Extent(y, k, v) == Size(a, v) - size;
    assert Extent(x, k, !v) == Extent(y, k, !v) == Size(a, !v);
    FillsAlone(x, Along(v), k);
    FillsAlone(y, Along(v), k);
    TiledAppend([x], [y], k, v, Size(a, !v));
    assert [x] + [y] == [x, y];
    if e != Along(v) {
      var both := Combination(v, [x, y]);
      FillsAlone(both, e, k);
      assert Extent(both, k, v) == Size(a, v) && Extent(both, k, !v) == Size(a, !v);
    }
  }

  datatype Restored = NoRoom | NoWindow | Done

  class Frame {
    const frame: Area           // frame-width and frame-height
    const room: Area            // what the windows share
    const least: Area           // the least size of a window
    var root: Layout
    var selected: nat
    var next: nat
    var areas: Areas

    constructor (name: string, frame: Area, room: Area, least: Area)
      requires frame.width > 0 && frame.height > 0
      ensures Valid() && root == Window(selected, name)
      ensures this.frame == frame && this.room == room && this.least == least
    {
      this.frame, this.room, this.least := frame, room, least;
      root, selected, next, areas := Window(0, name), 0, 1, map[0 := room];
    }

    // The windows cover the room of the frame.
    ghost predicate Valid()
      reads this
    {
      && frame.width > 0 && frame.height > 0
      && selected in Ids(root) && (forall x :: x in Ids(root) ==> x < next)
      && Tiled(root, areas) && Place(root, areas) == room
    }

    // split-window on the selected window
    method SplitWindow(vertical: bool, size: nat) returns (ok: bool, newwin: nat)
      requires Valid()
      modifies this`root, this`next, this`areas
      ensures Valid() && (ok <==> RoomFor(AreaOf(old(areas), selected), vertical, size, least))
      ensures !ok ==> root == old(root) && next == old(next) && areas == old(areas)
      ensures ok ==> newwin == old(next) && next == old(next) + 1 && newwin in Ids(root)
      ensures ok ==>
        && size <= Size(AreaOf(old(areas), selected), vertical)
        && areas == AfterSplit(old(areas), selected, newwin, vertical, size)
      ensures ok ==>
        exists name :: [root] == Grafted(old(root), selected, Halves(vertical, selected, newwin, name), Alone)
    {
      var area := AreaOf(areas, selected);
      newwin := next;
      ok := RoomFor(area, vertical, size, least);
      if !ok {
        return;
      }
      var name := NameOf(root, selected);
      var whole := Grafted(root, selected, Halves(vertical, selected, newwin, name), Alone);
      SplitKeepsIds(vertical, newwin, name);
      SplitKeepsPlaces(vertical, newwin, name, size);
      root, next := whole[0], next + 1;
      areas := areas[selected := Resized(area, vertical, size)]
                    [newwin := Resized(area, vertical, Size(area, vertical) - size)];
    }

    lemma SplitKeepsIds(v: bool, n: nat, name: string)
      requires Valid()
      ensures
        var whole := Grafted(root, selected, Halves(v, selected, n, name), Alone);
        |whole| == 1 && forall x :: x in Ids(whole[0]) <==> x in Ids(root) || x == n
    {
      var g := Halves(v, selected, n, name);
      GraftedAlone(root, selected, g);
      var whole := Grafted(root, selected, g, Alone);
      forall x
        ensures x in IdsAll(whole) <==> x in Ids(root) || x == n
      {
        forall e
          ensures x in IdsAll(g(e)) <==> x == selected || x == n
        {
          HalvesIds(v, selected, n, name, e, x);
        }
        GraftedIds(root, selected, g, Alone, x, x == selected || x == n);
      }
      IdsOfOne(whole[0]);
      assert whole == [whole[0]];
    }

    lemma SplitKeepsPlaces(v: bool, n: nat, name: string, size: nat)
      requires Valid() && n >= next && size <= Size(AreaOf(areas, selected), v)
      ensures Fills(Grafted(root, selected, Halves(v, selected, n, name), Alone), Alone,
                    AfterSplit(areas, selected, n, v, size), room)
    {
      var g := Halves(v, selected, n, name);
      forall e
        ensures Fills(g(e), e, AfterSplit(areas, selected, n, v, size), AreaOf(areas, selected))
      {
        HalvesFill(v, selected, n, name, e, areas, size);
      }
      GraftFills(root, selected, g, Alone, areas, AfterSplit(areas, selected, n, v, size));
    }

    // windata-data-restore-function on the selected window
    method SetBuffer(name: string)
      requires Valid()
      modifies this`root
      ensures Valid() && [root] == Grafted(old(root), selected, BuiltAt(Data(name), selected, next), Alone)
    {
      SetKeepsIds(name);
      SetKeepsPlaces(name);
      var whole := Grafted(root, selected, BuiltAt(Data(name), selected, next), Alone);
      assert whole == [whole[0]];
      root := whole[0];
    }

    lemma SetKeepsIds(name: string)
      requires Valid()
      ensures
        var whole := Grafted(root, selected, BuiltAt(Data(name), selected, next), Alone);
        |whole| == 1 && forall x :: x in Ids(whole[0]) <==> x in Ids(root)
    {
      var g := BuiltAt(Data(name), selected, next);
      GraftedAlone(root, selected, g);
      var whole := Grafted(root, selected, g, Alone);
      forall x
        ensures x in IdsAll(whole) <==> x in Ids(root)
      {
        IdsOfWindow(selected, name);
        GraftedIds(root, selected, g, Alone, x, x == selected);
      }
      IdsOfOne(whole[0]);
      assert whole == [whole[0]];
    }

    lemma SetKeepsPlaces(name: string)
      requires Valid()
      ensures Fills(Grafted(root, selected, BuiltAt(Data(name), selected, next), Alone), Alone, areas, room)
    {
      var g := BuiltAt(Data(name), selected, next);
      forall e
        ensures Fills(g(e), e, areas, AreaOf(areas, selected))
      {
        FillsAlone(Window(selected, name), e, areas);
      }
      GraftFills(root, selected, g, Alone, areas, areas);
    }

    // windata-list->window-tree: what it builds takes the place of the selected window; it fails when a split does
    method Replay(conf: Conf) returns (ok: bool)
      requires Valid()
      modifies this`root, this`selected, this`next, this`areas
      ensures Valid() && (ok <==> Fits(conf, AreaOf(old(areas), old(selected)), frame, least))
      ensures ok ==> next == old(next) + Splits(conf)
      ensures ok ==> [root] == Grafted(old(root), old(selected), BuiltAt(conf, old(selected), old(next)), Alone)
      ensures ok ==>
        Measured(Order(conf, old(selected), old(next)), areas)
        == Measures(conf, AreaOf(old(areas), old(selected)), frame)
      ensures ok ==> forall x: nat :: x != old(selected) && x < old(next) ==> AreaOf(areas, x) == AreaOf(old(areas), x)
      decreases conf
    {
      hide Ids, Grafted, Tiled, Place, Built, Order, Measured, Measures, RestoredSize, AreaOf, AfterSplit, Fits;
      hide RoomFor;
      match conf
      case Data(name) =>
        DataMeasured(name, selected, next, areas, frame, least);
        SetBuffer(name);
        ok := true;
      case Divide(v, share, first, second) =>
        ghost var t0, w, n, m0 := root, selected, next, areas;
        SplitMeasured(conf, w, n, m0, frame, least);
        var size := RestoredSize(share, Size(frame, v));
        var newwin;
        ok, newwin := SplitWindow(v, size);
        if !ok {
          return;
        }
        ghost var name :| [root] == Grafted(t0, w, Halves(v, w, n, name), Alone);
        ghost var t1, m1 := root, areas;
        ok := Replay(first);
        if !ok {
          return;
        }
        ghost var t2, m2 := root, areas;
        StillThere(t1, first, w, n + 1, root, newwin);
        selected := newwin;
        ok := Replay(second);
        if ok {
          BothHalves(t0, conf, w, n, name, t1, t2, root);
          BothMeasured(conf, w, n, m0, m1, m2, areas, frame);
        }
    }

    // windata-current-winconf
    method CurrentWinconf() returns (conf: Conf, path: seq<nat>)
      requires Valid() && Savable(root)
      ensures conf == Saved(root, areas, frame) && Scripts(conf, ShapeOf(root)) && Reaches(root, path, selected)
    {
      conf := Saved(root, areas, frame);
      SavedIsScript(root, areas, frame);
      path := WindowPath(root, selected, []);
      assert path[0..] == path;
    }

    // delete-other-windows
    method DeleteOtherWindows()
      requires Valid()
      modifies this`root, this`areas
      ensures Valid() && root.Window? && root.id == selected && AreaOf(areas, selected) == room
    {
      root := Window(selected, NameOf(root, selected));
      areas := areas[selected := room];
    }

    // windata-restore-winconf on the whole frame; a path that leads to no window is an error, and so is a failing split
    method RestoreWinconf(conf: Conf, path: seq<nat>) returns (r: Restored)
      requires Valid()
      modifies this`root, this`selected, this`next, this`areas
      ensures Valid() && (r == NoRoom <==> !Fits(conf, room, frame, least))
      ensures r != NoRoom ==> ShapeOf(root) == Replayed(conf, Alone)[0]
      ensures r != NoRoom ==> Measured(Ids(root), areas) == Measures(conf, room, frame)
      ensures r == Done ==> Reaches(root, path, selected)
      ensures r == NoWindow ==> forall win :: !Reaches(root, path, win)
    {
      hide Grafted, Tiled, Place, Fits, Measures, Measured;
      DeleteOtherWindows();
      ghost var w, n := selected, next;
      GraftedSelf(root, BuiltAt(conf, w, n));
      var ok := Replay(conf);
      if !ok {
        return NoRoom;
      }
      BuiltShapes(conf, w, n, Alone);
      BuiltOrder(conf, w, n, Alone);
      IdsOfOne(root);
      assert ShapesOf([root])[0] == ShapeOf(root);
      var found := Follow(root, path);
      if found.None? || !found.value.Window? {
        return NoWindow;
      }
      assert Reaches(root, path, found.value.id);
      ReachedIsIn(root, path, found.value.id);
      selected := found.value.id;
      r := Done;
    }
  }

  // The two halves of a split, replayed in turn.
  lemma BothHalves(t0: Layout, conf: Conf, w: nat, n: nat, name: string, t1: Layout, t2: Layout, t3: Layout)
    requires conf.Divide? && w < n && n !in Ids(t0)
    requires [t1] == Grafted(t0, w, Halves(conf.vertical, w, n, name), Alone)
    requires [t2] == Grafted(t1, w, BuiltAt(conf.first, w, n + 1), Alone)
    requires [t3] == Grafted(t2, n, BuiltAt(conf.second, n, n + 1 + Splits(conf.first)), Alone)
    ensures [t3] == Grafted(t0, w, BuiltAt(conf, w, n), Alone)
  {
    hide Ids, Grafted, Built;
    var f, g := Halves(conf.vertical, w, n, name), BuiltAt(conf.first, w, n + 1);
    var h := BuiltAt(conf.second, n, n + 1 + Splits(conf.first));
    Twice(t0, w, f, t1, w, g, t2);
    Twice(t0, w, Then(f, w, g), t2, n, h, t3);
    forall d
      ensures Then(Then(f, w, g), n, h)(d) == BuiltAt(conf, w, n)(d)
    {
      HalvesThenBoth(conf.vertical, conf.share, conf.first, conf.second, w, n, name, d);
    }
    GraftedSame(t0, w, Then(Then(f, w, g), n, h), BuiltAt(conf, w, n), Alone);
  }

  lemma DataMeasured(name: string, w: nat, n: nat, m: Areas, total: Area, least: Area)
    ensures Measured(Order(Data(name), w, n), m) == Measures(Data(name), AreaOf(m, w), total)
    ensures Fits(Data(name), AreaOf(m, w), total, least)
  {
  }

  lemma SplitMeasured(conf: Conf, w: nat, n: nat, m: Areas, total: Area, least: Area)
    requires conf.Divide? && w < n
    ensures Fits(conf, AreaOf(m, w), total, least) ==> RoomFor(AreaOf(m, w), conf.vertical, Cut(conf, total), least)
    ensures RoomFor(AreaOf(m, w), conf.vertical, Cut(conf, total), least) ==>
      var k := AfterSplit(m, w, n, conf.vertical, Cut(conf, total));
      && (Fits(conf, AreaOf(m, w), total, least)
          <==> Fits(conf.first, AreaOf(k, w), total, least) && Fits(conf.second, AreaOf(k, n), total, least))
      && forall x: nat :: x != w && x != n ==> AreaOf(k, x) == AreaOf(m, x)
  {
    hide RestoredSize;
  }

  // The windows of the first half keep their areas while the second is replayed.
  lemma BothMeasured(conf: Conf, w: nat, n: nat, m0: Areas, m1: Areas, m2: Areas, m3: Areas, total: Area)
    requires conf.Divide? && w < n && Cut(conf, total) <= Size(AreaOf(m0, w), conf.vertical)
    requires m1 == AfterSplit(m0, w, n, conf.vertical, Cut(conf, total))
    requires Measured(Order(conf.first, w, n + 1), m2) == Measures(conf.first, AreaOf(m1, w), total)
    requires AreaOf(m2, n) == AreaOf(m1, n)
    requires Measured(Order(conf.second, n, n + 1 + Splits(conf.first)), m3)
          == Measures(conf.second, AreaOf(m2, n), total)
    requires forall x: nat :: x != n && x < n + 1 + Splits(conf.first) ==> AreaOf(m3, x) == AreaOf(m2, x)
    ensures Measured(Order(conf, w, n), m3) == Measures(conf, AreaOf(m0, w), total)
  {
    var ids := Order(conf.first, w, n + 1);
    forall i | 0 <= i < |ids|
      ensures AreaOf(m3, ids[i]) == AreaOf(m2, ids[i])
    {
      OrderIds(conf.first, w, n + 1, ids[i]);
    }
    assert Measured(ids, m3) == Measured(ids, m2);
    MeasuredAppend(ids, Order(conf.second, n, n + 1 + Splits(conf.first)), m3);
  }

  lemma {:induction false} ReachedIsIn(t: Layout, path: seq<nat>, win: nat)
    requires Reaches(t, path, win)
    ensures win in Ids(t)
    decreases path
  {
    if path != [] {
      ReachedIsIn(t.children[path[0]], path[1..], win);
      AmongIds(t.children, path[0], win);
    }
  }

  lemma {:induction false} AmongIds(ts: seq<Layout>, k: nat, x: nat)
    requires k < |ts| && x in Ids(ts[k])
    ensures x in IdsAll(ts)
  {
    if k > 0 {
      AmongIds(ts[1..], k - 1, x);
    }
  }

  // A window that was not replaced is still there.
  lemma StillThere(t: Layout, conf: Conf, w: nat, n: nat, r: Layout, x: nat)
    requires [r] == Grafted(t, w, BuiltAt(conf, w, n), Alone) && x in Ids(t) && x != w
    ensures x in Ids(r)
  {
    var g := BuiltAt(conf, w, n);
    var there := n <= x < n + Splits(conf);
    forall e
      ensures x in IdsAll(g(e)) <==> there
    {
      BuiltIds(conf, w, n, e, x);
    }
    GraftedIds(t, w, g, Alone, x, there);
    IdsOfOne(r);
  }

  lemma Twice(t: Layout, w: nat, g: Direction -> seq<Layout>, t1: Layout, u: nat, h: Direction -> seq<Layout>,
              t2: Layout)
    requires [t1] == Grafted(t, w, g, Alone) && [t2] == Grafted(t1, u, h, Alone) && (u == w || u !in Ids(t))
    ensures [t2] == Grafted(t, w, Then(g, u, h), Alone)
  {
    GraftedTwice(t, w, g, u, h, Alone);
    GraftedOne(t1, u, h, Alone);
  }

  lemma GraftedAlone(t: Layout, w: nat, g: Direction -> seq<Layout>)
    requires |g(Alone)| == 1
    ensures |Grafted(t, w, g, Alone)| == 1
  {
  }

  // ---- paths

  // The path of positions leads from the tree to the window.
  ghost predicate Reaches(t: Layout, path: seq<nat>, win: nat) {
    if path == [] then t.Window? && t.id == win
    else t.Combination? && path[0] < |t.children| && Reaches(t.children[path[0]], path[1..], win)
  }

  // windata-window-path; an empty path also stands for "not found"
  method WindowPath(tree: Layout, win: nat, path: seq<nat>) returns (conf: seq<nat>)
    ensures win !in Ids(tree) ==> conf == []
    ensures win in Ids(tree) ==> path <= conf && Reaches(tree, conf[|path|..], win)
    decreases tree
  {
    if tree.Window? {
      return if tree.id == win then path else [];
    }
    var children := tree.children;
    var i := 0;
    conf := [];
    ghost var found := false;
    assert children == tree.children[0..];
    while children != []
      invariant 0 <= i <= |tree.children|
      invariant !found ==>
        conf == [] && children == tree.children[i..] && (win in Ids(tree) <==> win in IdsAll(children))
      invariant found ==> children == [] && win in Ids(tree) && path <= conf && Reaches(tree, conf[|path|..], win)
      decreases |children|
    {
      assert children[0] == tree.children[i];
      conf := WindowPath(children[0], win, path + [i]);
      if conf != [] {
        assert win in Ids(children[0]);
        assert conf[|path|..][0] == i && conf[|path|..][1..] == conf[|path| + 1..];
        assert path <= path + [i] <= conf;
        found := true;
        children := [];
      } else {
        i := i + 1;
        children := children[1..];
      }
    }
  }

  lemma GraftedSelf(t: Layout, g: Direction -> seq<Layout>)
    requires t.Window?
    ensures Grafted(t, t.id, g, Alone) == g(Alone)
  {
  }

  // The loop that follows the path.
  method Follow(t: Layout, path: seq<nat>) returns (r: Option<Layout>)
    ensures forall win :: Reaches(t, path, win) <==> r.Some? && r.value.Window? && r.value.id == win
  {
    var tree, rest := t, path;
    while rest != []
      invariant forall win :: Reaches(t, path, win) <==> Reaches(tree, rest, win)
      decreases |rest|
    {
      if tree.Window? || rest[0] >= |tree.children| {
        return None;
      }
      tree, rest := tree.children[rest[0]], rest[1..];
    }
    r := Some(tree);
  }

  // Trees of one shape have windows in the same places.
  lemma {:induction false} SamePlaces(t: Layout, u: Layout, path: seq<nat>, win: nat)
    requires ShapeOf(t) == ShapeOf(u) && Reaches(t, path, win)
    ensures exists other :: Reaches(u, path, other)
    decreases path
  {
    if path == [] {
      assert Reaches(u, path, u.id);
    } else {
      SamePlaces(t.children[path[0]], u.children[path[0]], path[1..], win);
      var other :| Reaches(u.children[path[0]], path[1..], other);
      assert Reaches(u, path, other);
    }
  }

  /**
   Saving one frame and restoring into another: unless there is no room for a split, the windows come back
   in their order. The shape comes back if nested combinations alternate in direction, and only then, and with
   it the place of the selected window. Between frames of one size no window loses more than one column and one
   line, all sizes come back if the shares have four decimals, and only then, and there is room when every window
   is bigger than the least one.
   */
  method SaveAndRestore(from: Frame, to: Frame) returns (r: Restored)
    requires from.Valid() && to.Valid() && from != to && Savable(from.root)
    modifies to`root, to`selected, to`next, to`areas
    ensures to.Valid()
    ensures r != NoRoom ==> PanesAll([ShapeOf(to.root)]) == Panes(ShapeOf(from.root))
    ensures r != NoRoom ==> (ShapeOf(to.root) == ShapeOf(from.root) <==> Alternating(ShapeOf(from.root), Alone))
    ensures r != NoRoom && Alternating(ShapeOf(from.root), Alone) ==>
      r == Done && exists path :: Reaches(from.root, path, from.selected) && Reaches(to.root, path, to.selected)
    ensures r != NoRoom && SameSize(from, to) ==>
      && AllLoseOneAtMost(Measured(Ids(from.root), from.areas), Measured(Ids(to.root), to.areas))
      && (Measured(Ids(to.root), to.areas) == Measured(Ids(from.root), from.areas)
          <==> Exact(from.root, from.areas, from.frame))
    ensures SameSize(from, to) && AllBigger(Measured(Ids(from.root), from.areas), to.least) ==> r != NoRoom
  {
    hide Fits, Measures, Measured, Tiled, Place, Exact, AllLoseOneAtMost, Replayed, Panes, PanesAll, Alternating;
    ghost var shape := ShapeOf(from.root);
    var conf, path := from.CurrentWinconf();
    RestoredExactly(conf, shape);
    WindowsKeepOrder(conf, shape);
    if SameSize(from, to) {
      SizesOf(from, to);
    }
    r := to.RestoreWinconf(conf, path);
    ghost var again := Replayed(conf, Alone);
    assert again == [again[0]];
    if r != NoRoom && Alternating(shape, Alone) {
      SamePlaces(from.root, to.root, path, from.selected);
    }
  }

  ghost predicate SameSize(from: Frame, to: Frame) {
    from.frame == to.frame && from.room == to.room && IsTotal(from.frame)
  }

  lemma SizesOf(from: Frame, to: Frame)
    requires from.Valid() && Savable(from.root) && SameSize(from, to)
    ensures
      var conf := Saved(from.root, from.areas, from.frame);
      var before, after := Measured(Ids(from.root), from.areas), Measures(conf, to.room, to.frame);
      && AllLoseOneAtMost(before, after)
      && (AllBigger(before, to.least) ==> Fits(conf, to.room, to.frame, to.least))
      && (Fits(conf, to.room, to.frame, to.least) ==> (after == before <==> Exact(from.root, from.areas, from.frame)))
  {
    var t, m, total, a := from.root, from.areas, from.frame, from.room;
    NoneLosesMore(t, m, total, a);
    if AllBigger(Measured(Ids(t), m), to.least) {
      BiggerFits(t, m, total, a, to.least);
    }
    if Fits(Saved(t, m, total), a, total, to.least) {
      SizesComeBackExactly(t, m, total, a, to.least);
    }
  }
}
