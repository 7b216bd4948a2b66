/**
 The sizes of windows in windata.el: what a script saves of them, and what each window of a
 replay measures. Shares and sizes are floors of exact quotients.
 */
module WindowSizes {
  import opened WindowShapes
  import opened WindowLayout

  datatype Area = Area(width: nat, height: nat)

  // The size that a split divides.
  function Size(a: Area, vertical: bool): nat {
    if vertical then a.height else a.width
  }

  function Resized(a: Area, vertical: bool, n: nat): Area {
    if vertical then a.(height := n) else a.(width := n)
  }

  // ---- one share

  // windata-fix to four decimals of a window's share, and the split of the same total by it
  function SavedShare(size: nat, total: nat): nat
    requires total > 0
  {
    10000 * size / total
  }

  function RestoredSize(share: nat, total: nat): nat {
    share * total / 10000
  }

  /**
   In a frame of at most 10000 columns or lines a size comes back as it was or one less: as it
   was exactly when its share has four decimals.
   */
  lemma SizeComesBack(size: nat, total: nat)
    requires 0 < total <= 10000
    ensures RestoredSize(SavedShare(size, total), total) == if 10000 * size % total == 0 then size else size - 1
  {
    var x := 10000 * size;
    var q, r := x / total, x % total;
    assert x == q * total + r;
    assert q * total == 10000 * size - r;
    if r == 0 {
      assert q * total == 10000 * size;
    } else {
      assert size > 0;
      assert q * total == 10000 * (size - 1) + (10000 - r);
    }
  }

  // ---- the sizes in a tree

  type Areas = map<nat, Area>

  function AreaOf(m: Areas, id: nat): Area {
    if id in m then m[id] else Area(0, 0)
  }

  function Measured(ids: seq<nat>, m: Areas): (r: seq<Area>)
    ensures |r| == |ids| && forall i :: 0 <= i < |r| ==> r[i] == AreaOf(m, ids[i])
  {
    seq(|ids|, i requires 0 <= i < |ids| => AreaOf(m, ids[i]))
  }

  lemma MeasuredAppend(a: seq<nat>, b: seq<nat>, m: Areas)
    ensures Measured(a + b, m) == Measured(a, m) + Measured(b, m)
  {
  }

  // The height or width of a tree, from its edges.
  function Extent(t: Layout, m: Areas, vertical: bool): nat
    decreases t, 0
  {
    match t
    case Window(id, _) => Size(AreaOf(m, id), vertical)
    case Combination(v, children) =>
      if v == vertical then ExtentAll(children, m, vertical)
      else if children == [] then 0 else Extent(children[0], m, vertical)
  }

  function ExtentAll(ts: seq<Layout>, m: Areas, vertical: bool): nat
    decreases ts, 1
  {
    if ts == [] then 0 else Extent(ts[0], m, vertical) + ExtentAll(ts[1..], m, vertical)
  }

  function Place(t: Layout, m: Areas): Area {
    Area(Extent(t, m, false), Extent(t, m, true))
  }

  // The members of a combination have the same size across it.
  ghost predicate Tiled(t: Layout, m: Areas)
    decreases t, 0
  {
    t.Combination? ==> t.children != [] && TiledAll(t.children, m, t.vertical, Extent(t.children[0], m, !t.vertical))
  }

  ghost predicate TiledAll(ts: seq<Layout>, m: Areas, vertical: bool, across: nat)
    decreases ts, 1
  {
    ts == [] || (Tiled(ts[0], m) && Extent(ts[0], m, !vertical) == across && TiledAll(ts[1..], m, vertical, across))
  }

  // Trees that fill a place: alone, or side by side in a combination.
  ghost predicate Fills(ts: seq<Layout>, d: Direction, m: Areas, a: Area) {
    match d
    case Alone => |ts| == 1 && Tiled(ts[0], m) && Place(ts[0], m) == a
    case Along(v) => ts != [] && TiledAll(ts, m, v, Size(a, !v)) && ExtentAll(ts, m, v) == Size(a, v)
  }

  lemma FillsAlone(t: Layout, d: Direction, m: Areas)
    requires Tiled(t, m)
    ensures Fills([t], d, m, Place(t, m))
  {
    hide Tiled, Extent;
    var a := Place(t, m);
    if d.Along? {
      var v := d.vertical;
      assert Size(a, v) == Extent(t, m, v) && Size(a, !v) == Extent(t, m, !v);
      assert [t][1..] == [] && TiledAll([], m, v, Size(a, !v)) && ExtentAll([], m, v) == 0;
    }
  }

  lemma {:induction false} TiledAppend(a: seq<Layout>, b: seq<Layout>, m: Areas, v: bool, across: nat)
    requires TiledAll(a, m, v, across) && TiledAll(b, m, v, across)
    ensures TiledAll(a + b, m, v, across) && ExtentAll(a + b, m, v) == ExtentAll(a, m, v) + ExtentAll(b, m, v)
  {
    hide Tiled, Extent;
    if a == [] {
      assert a + b == b;
    } else {
      TiledAppend(a[1..], b, m, v, across);
      assert (a + b)[1..] == a[1..] + b;
    }
  }

  ghost predicate SameElsewhere(m: Areas, n: Areas, ids: seq<nat>, w: nat) {
    forall x :: x in ids && x != w ==> AreaOf(m, x) == AreaOf(n, x)
  }

  /** Windows that fill the place of one keep the whole tree tiled and its size. */
  lemma {:induction false} GraftFills(t: Layout, w: nat, g: Direction -> seq<Layout>, d: Direction, m: Areas, n: Areas)
    requires Tiled(t, m) && SameElsewhere(m, n, Ids(t), w)
    requires forall e :: Fills(g(e), e, n, AreaOf(m, w))
    ensures Fills(Grafted(t, w, g, d), d, n, Place(t, m))
    decreases t, 0
  {
    match t
    case Window(id, _) =>
      if id != w {
        FillsAlone(t, d, n);
      }
    case Combination(v, children) =>
      GraftFillsAll(children, w, g, v, m, n, Extent(children[0], m, !v));
      FillsAlone(Combination(v, GraftedAll(children, w, g, Along(v))), d, n);
  }

  lemma {:induction false} GraftFillsAll(ts: seq<Layout>, w: nat, g: Direction -> seq<Layout>, v: bool,
                                         m: Areas, n: Areas, across: nat)
    requires TiledAll(ts, m, v, across) && SameElsewhere(m, n, IdsAll(ts), w)
    requires forall e :: Fills(g(e), e, n, AreaOf(m, w))
    ensures TiledAll(GraftedAll(ts, w, g, Along(v)), n, v, across)
    ensures ExtentAll(GraftedAll(ts, w, g, Along(v)), n, v) == ExtentAll(ts, m, v)
    ensures ts != [] ==> GraftedAll(ts, w, g, Along(v)) != []
    decreases ts, 1
  {
    if ts != [] {
      GraftFills(ts[0], w, g, Along(v), m, n);
      GraftFillsAll(ts[1..], w, g, v, m, n, across);
      TiledAppend(Grafted(ts[0], w, g, Along(v)), GraftedAll(ts[1..], w, g, Along(v)), n, v, across);
    }
  }

  // ---- what is saved

  ghost predicate Savable(t: Layout) {
    Proper(ShapeOf(t))
  }

  ghost predicate SavableAll(ts: seq<Layout>) {
    forall s :: s in ShapesOf(ts) ==> Proper(s)
  }

  // windata-window-tree->list
  function Saved(t: Layout, m: Areas, total: Area): Conf
    requires Savable(t) && total.width > 0 && total.height > 0
    decreases t, 0
  {
    match t
    case Window(_, name) => Data(name)
    case Combination(vertical, children) => SavedAll(vertical, children, m, total)
  }

  function SavedAll(vertical: bool, ts: seq<Layout>, m: Areas, total: Area): Conf
    requires |ts| >= 2 && SavableAll(ts) && total.width > 0 && total.height > 0
    decreases ts, 1
  {
    assert ShapesOf(ts)[0] == ShapeOf(ts[0]) && ShapesOf(ts)[1] == ShapeOf(ts[1]);
    Divide(vertical, SavedShare(Extent(ts[0], m, vertical), Size(total, vertical)), Saved(ts[0], m, total),
      if |ts| > 2 then SavedAll(vertical, ts[1..], m, total) else Saved(ts[1], m, total))
  }

  // What is saved is a script of the tree.
  lemma {:induction false} SavedIsScript(t: Layout, m: Areas, total: Area)
    requires Savable(t) && total.width > 0 && total.height > 0
    ensures Scripts(Saved(t, m, total), ShapeOf(t))
    decreases t, 0
  {
    if t.Combination? {
      SavedIsScriptAll(t.vertical, t.children, m, total);
    }
  }

  lemma {:induction false} SavedIsScriptAll(v: bool, ts: seq<Layout>, m: Areas, total: Area)
    requires |ts| >= 2 && SavableAll(ts) && total.width > 0 && total.height > 0
    ensures ScriptsAll(SavedAll(v, ts, m, total), v, ShapesOf(ts))
    decreases ts, 1
  {
    SavedIsScript(ts[0], m, total);
    if |ts| > 2 {
      SavedIsScriptAll(v, ts[1..], m, total);
    } else {
      SavedIsScript(ts[1], m, total);
    }
  }

  // ---- what a replay measures

  // The size that the first half of a split gets, and what is left for the other.
  function Cut(conf: Conf, total: Area): nat
    requires conf.Divide?
  {
    RestoredSize(conf.share, Size(total, conf.vertical))
  }

  function Rest(conf: Conf, a: Area, total: Area): nat
    requires conf.Divide?
  {
    var all, cut := Size(a, conf.vertical), Cut(conf, total);
    if cut <= all then all - cut else 0
  }

  function FirstHalf(conf: Conf, a: Area, total: Area): Area
    requires conf.Divide?
  {
    Resized(a, conf.vertical, Cut(conf, total))
  }

  function SecondHalf(conf: Conf, a: Area, total: Area): Area
    requires conf.Divide?
  {
    Resized(a, conf.vertical, Rest(conf, a, total))
  }

  // split-window fails when one of the halves would be smaller than the least window.
  predicate RoomFor(a: Area, vertical: bool, size: nat, least: Area) {
    Size(least, vertical) <= size && size + Size(least, vertical) <= Size(a, vertical)
  }

  // No split of the replay in a window of area a fails.
  predicate Fits(conf: Conf, a: Area, total: Area, least: Area)
    decreases conf
  {
    conf.Divide? ==>
      && RoomFor(a, conf.vertical, Cut(conf, total), least)
      && Fits(conf.first, FirstHalf(conf, a, total), total, least)
      && Fits(conf.second, SecondHalf(conf, a, total), total, least)
  }

  // The areas of the windows in the place of one of area a, in their order.
  function Measures(conf: Conf, a: Area, total: Area): (r: seq<Area>)
    decreases conf
  {
    match conf
    case Data(_) => [a]
    case Divide(_, _, first, second) =>
      Measures(first, FirstHalf(conf, a, total), total) + Measures(second, SecondHalf(conf, a, total), total)
  }

  function Cells(areas: seq<Area>): nat {
    if areas == [] then 0 else areas[0].width * areas[0].height + Cells(areas[1..])
  }

  lemma {:induction false} CellsAppend(a: seq<Area>, b: seq<Area>)
    ensures Cells(a + b) == Cells(a) + Cells(b)
  {
    if a == [] {
      assert a + b == b;
    } else {
      CellsAppend(a[1..], b);
      assert (a + b)[1..] == a[1..] + b;
    }
  }

  lemma HalvesCover(a: Area, x: Area, y: Area, v: bool)
    requires Size(x, v) + Size(y, v) == Size(a, v) && Size(x, !v) == Size(y, !v) == Size(a, !v)
    ensures x.width * x.height + y.width * y.height == a.width * a.height
  {
    if v {
      assert a.height == x.height + y.height;
    } else {
      assert a.width == x.width + y.width;
    }
  }

  /** Whatever the script says, the windows of a replay fill the place of the one they replace. */
  lemma {:induction false} ReplayFillsTheWindow(conf: Conf, a: Area, total: Area, least: Area)
    requires Fits(conf, a, total, least)
    ensures Cells(Measures(conf, a, total)) == a.width * a.height
    decreases conf
  {
    if conf.Divide? {
      var x, y := FirstHalf(conf, a, total), SecondHalf(conf, a, total);
      ReplayFillsTheWindow(conf.first, x, total, least);
      ReplayFillsTheWindow(conf.second, y, total, least);
      CellsAppend(Measures(conf.first, x, total), Measures(conf.second, y, total));
      hide Cells, Measures, Fits, RestoredSize;
      HalvesCover(a, x, y, conf.vertical);
    } else {
      assert Measures(conf, a, total)[1..] == [];
    }
  }

  // ---- a saved tree replayed

  // Every area may have lost one column and one line, and no more.
  predicate LosesOneAtMost(before: Area, after: Area) {
    before.width <= after.width + 1 && before.height <= after.height + 1
  }

  predicate AllLoseOneAtMost(before: seq<Area>, after: seq<Area>) {
    |before| == |after| && forall i :: 0 <= i < |before| ==> LosesOneAtMost(before[i], after[i])
  }

  lemma LossesAppend(p: seq<Area>, q: seq<Area>, r: seq<Area>, s: seq<Area>)
    requires AllLoseOneAtMost(p, r) && AllLoseOneAtMost(q, s)
    ensures AllLoseOneAtMost(p + q, r + s)
  {
    hide LosesOneAtMost;
  }

  predicate Bigger(a: Area, least: Area) {
    a.width > least.width && a.height > least.height
  }

  predicate AllBigger(areas: seq<Area>, least: Area) {
    forall a :: a in areas ==> Bigger(a, least)
  }

  lemma {:induction false} TreeIsBigger(t: Layout, m: Areas, least: Area)
    requires Savable(t) && Tiled(t, m) && AllBigger(Measured(Ids(t), m), least)
    ensures Bigger(Place(t, m), least)
    decreases t
  {
    if t.Combination? {
      var first := t.children[0];
      FirstIsSavable(t.children);
      FirstIsBigger(t.children, m, least);
      TreeIsBigger(first, m, least);
      assert Extent(t, m, !t.vertical) == Extent(first, m, !t.vertical);
      assert Extent(t, m, t.vertical) == Extent(first, m, t.vertical) + ExtentAll(t.children[1..], m, t.vertical);
    } else {
      assert Measured(Ids(t), m)[0] == AreaOf(m, t.id);
    }
  }

  lemma FirstIsSavable(ts: seq<Layout>)
    requires ts != [] && SavableAll(ts)
    ensures Savable(ts[0]) && SavableAll(ts[1..])
  {
    assert ShapesOf(ts)[0] == ShapeOf(ts[0]);
    assert ShapesOf(ts[1..]) == ShapesOf(ts)[1..];
  }

  lemma FirstIsBigger(ts: seq<Layout>, m: Areas, least: Area)
    requires ts != [] && AllBigger(Measured(IdsAll(ts), m), least)
    ensures AllBigger(Measured(Ids(ts[0]), m), least) && AllBigger(Measured(IdsAll(ts[1..]), m), least)
  {
    hide *;
    MeasuredAppend(Ids(ts[0]), IdsAll(ts[1..]), m);
    IdsOfSome(ts);
    BiggerParts(Measured(Ids(ts[0]), m), Measured(IdsAll(ts[1..]), m), least);
  }

  lemma IdsOfSome(ts: seq<Layout>)
    requires ts != []
    ensures IdsAll(ts) == Ids(ts[0]) + IdsAll(ts[1..])
  {
  }

  lemma BiggerParts(x: seq<Area>, y: seq<Area>, least: Area)
    requires AllBigger(x + y, least)
    ensures AllBigger(x, least) && AllBigger(y, least)
  {
    assert forall a :: a in x ==> a in x + y;
    assert forall a :: a in y ==> a in x + y;
  }

  predicate IsTotal(total: Area) {
    0 < total.width <= 10000 && 0 < total.height <= 10000
  }

  /**
   A tree saved and replayed in a window of its own size or one less: no window loses more than one
   column and one line.
   */
  lemma {:induction false} NoneLosesMore(t: Layout, m: Areas, total: Area, a: Area)
    requires Savable(t) && Tiled(t, m) && IsTotal(total) && LosesOneAtMost(Place(t, m), a)
    ensures AllLoseOneAtMost(Measured(Ids(t), m), Measures(Saved(t, m, total), a, total))
    decreases t, 0
  {
    if t.Combination? {
      NoneLosesMoreAll(t.vertical, t.children, m, total, a, Extent(t.children[0], m, !t.vertical));
    }
  }

  lemma {:induction false} NoneLosesMoreAll(v: bool, ts: seq<Layout>, m: Areas, total: Area, a: Area, across: nat)
    requires |ts| >= 2 && SavableAll(ts) && TiledAll(ts, m, v, across) && IsTotal(total)
    requires ExtentAll(ts, m, v) <= Size(a, v) + 1 && across <= Size(a, !v) + 1
    ensures AllLoseOneAtMost(Measured(IdsAll(ts), m), Measures(SavedAll(v, ts, m, total), a, total))
    decreases ts, 1
  {
    var conf := SavedAll(v, ts, m, total);
    var x, y := FirstHalf(conf, a, total), SecondHalf(conf, a, total);
    FirstIsSavable(ts);
    SizeComesBack(Extent(ts[0], m, v), Size(total, v));
    NoneLosesMore(ts[0], m, total, x);
    if |ts| > 2 {
      NoneLosesMoreAll(v, ts[1..], m, total, y, across);
    } else {
      OneLeft(ts, m, v, across);
      NoneLosesMore(ts[1], m, total, y);
    }
    MeasuredAppend(Ids(ts[0]), IdsAll(ts[1..]), m);
    LossesAppend(Measured(Ids(ts[0]), m), Measured(IdsAll(ts[1..]), m),
      Measures(conf.first, x, total), Measures(conf.second, y, total));
    hide AllLoseOneAtMost, LosesOneAtMost, SavedShare, RestoredSize, Extent, Ids, Tiled, TiledAll, Savable, SavableAll;
  }

  lemma OneLeft(ts: seq<Layout>, m: Areas, v: bool, across: nat)
    requires |ts| == 2 && SavableAll(ts) && TiledAll(ts, m, v, across)
    ensures IdsAll(ts[1..]) == Ids(ts[1]) && ExtentAll(ts[1..], m, v) == Extent(ts[1], m, v)
    ensures Savable(ts[1]) && Tiled(ts[1], m) && Extent(ts[1], m, !v) == across
  {
    assert ts[1..] == [ts[1]] && ts[1..][1..] == [];
    FirstIsSavable(ts);
    FirstIsSavable(ts[1..]);
    IdsOfOne(ts[1]);
  }

  /** Where every window is bigger than the least one, no split of the replay fails. */
  lemma {:induction false} BiggerFits(t: Layout, m: Areas, total: Area, a: Area, least: Area)
    requires Savable(t) && Tiled(t, m) && IsTotal(total) && LosesOneAtMost(Place(t, m), a)
    requires AllBigger(Measured(Ids(t), m), least)
    ensures Fits(Saved(t, m, total), a, total, least)
    decreases t, 0
  {
    if t.Combination? {
      BiggerFitsAll(t.vertical, t.children, m, total, a, Extent(t.children[0], m, !t.vertical), least);
    }
  }

  lemma {:induction false} BiggerFitsAll(v: bool, ts: seq<Layout>, m: Areas, total: Area, a: Area, across: nat,
                                         least: Area)
    requires |ts| >= 2 && SavableAll(ts) && TiledAll(ts, m, v, across) && IsTotal(total)
    requires ExtentAll(ts, m, v) <= Size(a, v) + 1 && across <= Size(a, !v) + 1
    requires AllBigger(Measured(IdsAll(ts), m), least)
    ensures Fits(SavedAll(v, ts, m, total), a, total, least)
    decreases ts, 1
  {
    var conf := SavedAll(v, ts, m, total);
    var x, y := FirstHalf(conf, a, total), SecondHalf(conf, a, total);
    FirstIsSavable(ts);
    FirstIsBigger(ts, m, least);
    SizeComesBack(Extent(ts[0], m, v), Size(total, v));
    TreeIsBigger(ts[0], m, least);
    FirstIsSavable(ts[1..]);
    FirstIsBigger(ts[1..], m, least);
    TreeIsBigger(ts[1], m, least);
    BiggerFits(ts[0], m, total, x, least);
    if |ts| > 2 {
      BiggerFitsAll(v, ts[1..], m, total, y, across, least);
    } else {
      OneLeft(ts, m, v, across);
      BiggerFits(ts[1], m, total, y, least);
    }
  }

  // ---- when the sizes come back

  // The share of every window or combination that another follows has four decimals.
  ghost predicate Exact(t: Layout, m: Areas, total: Area)
    requires IsTotal(total)
    decreases t, 0
  {
    t.Combination? ==> ExactAll(t.vertical, t.children, m, total)
  }

  ghost predicate ExactAll(v: bool, ts: seq<Layout>, m: Areas, total: Area)
    requires IsTotal(total)
    decreases ts, 1
  {
    ts != [] ==>
      && (|ts| > 1 ==> 10000 * Extent(ts[0], m, v) % Size(total, v) == 0)
      && Exact(ts[0], m, total) && ExactAll(v, ts[1..], m, total)
  }

  lemma {:induction false} SameCount(t: Layout, m: Areas, total: Area, a: Area)
    requires Savable(t) && IsTotal(total)
    ensures |Measures(Saved(t, m, total), a, total)| == |Ids(t)|
    decreases t, 0
  {
    if t.Combination? {
      SameCountAll(t.vertical, t.children, m, total, a);
    }
  }

  lemma {:induction false} SameCountAll(v: bool, ts: seq<Layout>, m: Areas, total: Area, a: Area)
    requires |ts| >= 2 && SavableAll(ts) && IsTotal(total)
    ensures |Measures(SavedAll(v, ts, m, total), a, total)| == |IdsAll(ts)|
    decreases ts, 1
  {
    var conf := SavedAll(v, ts, m, total);
    FirstIsSavable(ts);
    SameCount(ts[0], m, total, FirstHalf(conf, a, total));
    if |ts| > 2 {
      SameCountAll(v, ts[1..], m, total, SecondHalf(conf, a, total));
    } else {
      assert ts[1..] == [ts[1]];
      FirstIsSavable(ts[1..]);
      IdsOfOne(ts[1]);
      SameCount(ts[1], m, total, SecondHalf(conf, a, total));
    }
  }

  lemma SameParts(p: seq<Area>, q: seq<Area>, r: seq<Area>, s: seq<Area>)
    requires |p| == |r|
    ensures p + q == r + s <==> p == r && q == s
  {
    if p + q == r + s {
      assert (p + q)[..|p|] == p && (r + s)[..|r|] == r && (p + q)[|p|..] == q && (r + s)[|r|..] == s;
    }
  }

  lemma LastIsExact(v: bool, ts: seq<Layout>, m: Areas, total: Area)
    requires |ts| == 2 && IsTotal(total)
    ensures ExactAll(v, ts[1..], m, total) <==> Exact(ts[1], m, total)
  {
    assert ts[1..] == [ts[1]] && ts[1..][1..] == [];
    hide Exact;
    assert ExactAll(v, ts[1..][1..], m, total);
  }

  /** The sizes come back exactly when the place is as big as before and every share that is used has four decimals. */
  lemma {:induction false} SizesComeBackExactly(t: Layout, m: Areas, total: Area, a: Area, least: Area)
    requires Savable(t) && Tiled(t, m) && IsTotal(total) && Fits(Saved(t, m, total), a, total, least)
    ensures Measures(Saved(t, m, total), a, total) == Measured(Ids(t), m) <==> a == Place(t, m) && Exact(t, m, total)
    decreases t, 0
  {
    if t.Combination? {
      SizesComeBackAll(t.vertical, t.children, m, total, a, Extent(t.children[0], m, !t.vertical), least);
    } else {
      assert Measures(Saved(t, m, total), a, total)[0] == a && Measured(Ids(t), m) == [AreaOf(m, t.id)];
    }
  }

  lemma {:induction false} SizesComeBackAll(v: bool, ts: seq<Layout>, m: Areas, total: Area, a: Area, across: nat,
                                            least: Area)
    requires |ts| >= 2 && SavableAll(ts) && TiledAll(ts, m, v, across) && IsTotal(total)
    requires Fits(SavedAll(v, ts, m, total), a, total, least)
    ensures Measures(SavedAll(v, ts, m, total), a, total) == Measured(IdsAll(ts), m) <==>
              Size(a, v) == ExtentAll(ts, m, v) && Size(a, !v) == across && ExactAll(v, ts, m, total)
    decreases ts, 1
  {
    var conf := SavedAll(v, ts, m, total);
    var x, y := FirstHalf(conf, a, total), SecondHalf(conf, a, total);
    FirstIsSavable(ts);
    SizeComesBack(Extent(ts[0], m, v), Size(total, v));
    SizesComeBackExactly(ts[0], m, total, x, least);
    SameCount(ts[0], m, total, x);
    MeasuredAppend(Ids(ts[0]), IdsAll(ts[1..]), m);
    if |ts| > 2 {
      SizesComeBackAll(v, ts[1..], m, total, y, across, least);
    } else {
      OneLeft(ts, m, v, across);
      LastIsExact(v, ts, m, total);
      SizesComeBackExactly(ts[1], m, total, y, least);
    }
    SameParts(Measures(conf.first, x, total), Measures(conf.second, y, total),
      Measured(Ids(ts[0]), m), Measured(IdsAll(ts[1..]), m));
    hide SavedShare, RestoredSize, Extent, Saved, SavedAll, Ids, IdsAll, Measured, Tiled, TiledAll, Exact, Savable;
    hide SavableAll;
  }

  /** Two windows of 7 and 17 lines in a frame of 24 come back with 6 and 18. */
  lemma SevenLinesBecomeSix()
    ensures
      var t, m := Combination(true, [Window(0, "a"), Window(1, "b")]), map[0 := Area(80, 7), 1 := Area(80, 17)];
      var total := Area(80, 24);
      && Savable(t) && Tiled(t, m) && Place(t, m) == total
      && Measured(Ids(t), m) == [Area(80, 7), Area(80, 17)]
      && Measures(Saved(t, m, total), total, total) == [Area(80, 6), Area(80, 18)]
  {
    var a, b := Window(0, "a"), Window(1, "b");
    var m := map[0 := Area(80, 7), 1 := Area(80, 17)];
    assert [a, b][1..] == [b] && [b][1..] == [];
    assert ShapesOf([a, b]) == [Pane("a"), Pane("b")];
    assert Extent(a, m, true) == 7 && Extent(b, m, true) == 17 && Extent(a, m, false) == Extent(b, m, false) == 80;
    assert ExtentAll([b], m, true) == 17;
    assert TiledAll([b], m, true, 80) && TiledAll([a, b], m, true, 80);
    assert IdsAll([a, b]) == Ids(a) + IdsAll([b]) && IdsAll([b]) == Ids(b) + IdsAll([]);
    assert SavedShare(7, 24) == 2916 && RestoredSize(2916, 24) == 6;
    assert SavedAll(true, [a, b], m, Area(80, 24)) == Divide(true, 2916, Data("a"), Data("b"));
  }
}
