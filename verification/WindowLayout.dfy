/**
 Trees of live windows, and what a replay of windata.el puts in the place of one of them.
 */
module WindowLayout {
  import opened WindowShapes

  // A tree of live windows, each showing a named buffer.
  datatype Layout = Window(id: nat, name: string) | Combination(vertical: bool, children: seq<Layout>)

  function ShapeOf(t: Layout): Shape
    decreases t, 0
  {
    match t
    case Window(_, name) => Pane(name)
    case Combination(v, children) => Box(v, ShapesOf(children))
  }

  function ShapesOf(ts: seq<Layout>): (ss: seq<Shape>)
    ensures |ss| == |ts| && forall i :: 0 <= i < |ts| ==> ss[i] == ShapeOf(ts[i])
    decreases ts, 1
  {
    if ts == [] then [] else [ShapeOf(ts[0])] + ShapesOf(ts[1..])
  }

  lemma ShapesAppend(a: seq<Layout>, b: seq<Layout>)
    ensures ShapesOf(a + b) == ShapesOf(a) + ShapesOf(b)
  {
  }

  lemma ShapesOfOne(t: Layout)
    ensures ShapesOf([t]) == [if t.Window? then Pane(t.name) else Box(t.vertical, ShapesOf(t.children))]
  {
    assert [t][1..] == [];
  }

  // ---- identities

  function Ids(t: Layout): seq<nat>
    decreases t, 0
  {
    match t
    case Window(id, _) => [id]
    case Combination(_, children) => IdsAll(children)
  }

  function IdsAll(ts: seq<Layout>): seq<nat>
    decreases ts, 1
  {
    if ts == [] then [] else Ids(ts[0]) + IdsAll(ts[1..])
  }

  // ---- putting windows in the place of one

  // A window is replaced by windows that depend on the direction of the combination it is in.
  function Grafted(t: Layout, w: nat, g: Direction -> seq<Layout>, d: Direction): seq<Layout>
    decreases t, 0
  {
    match t
    case Window(id, _) => if id == w then g(d) else [t]
    case Combination(v, children) => [Combination(v, GraftedAll(children, w, g, Along(v)))]
  }

  function GraftedAll(ts: seq<Layout>, w: nat, g: Direction -> seq<Layout>, d: Direction): seq<Layout>
    decreases ts, 1
  {
    if ts == [] then [] else Grafted(ts[0], w, g, d) + GraftedAll(ts[1..], w, g, d)
  }

  lemma {:induction false} GraftedAppend(a: seq<Layout>, b: seq<Layout>, w: nat, g: Direction -> seq<Layout>,
                                         d: Direction)
    ensures GraftedAll(a + b, w, g, d) == GraftedAll(a, w, g, d) + GraftedAll(b, w, g, d)
  {
    hide Grafted;
    if a == [] {
      assert a + b == b;
    } else {
      GraftedAppend(a[1..], b, w, g, d);
      assert (a + b)[1..] == a[1..] + b && (a + b)[0] == a[0];
    }
  }

  lemma {:induction false} NotThere(t: Layout, w: nat, g: Direction -> seq<Layout>, d: Direction)
    requires w !in Ids(t)
    ensures Grafted(t, w, g, d) == [t]
    decreases t, 0
  {
    if t.Combination? {
      NotThereAll(t.children, w, g, Along(t.vertical));
    }
  }

  lemma {:induction false} NotThereAll(ts: seq<Layout>, w: nat, g: Direction -> seq<Layout>, d: Direction)
    requires w !in IdsAll(ts)
    ensures GraftedAll(ts, w, g, d) == ts
    decreases ts, 1
  {
    if ts != [] {
      NotThere(ts[0], w, g, d);
      NotThereAll(ts[1..], w, g, d);
      assert ts == [ts[0]] + ts[1..];
    }
  }

  // One graft after another, the second inside what the first put there.
  function Then(g: Direction -> seq<Layout>, w: nat, h: Direction -> seq<Layout>): Direction -> seq<Layout> {
    d => GraftedAll(g(d), w, h, d)
  }

  lemma {:induction false} GraftedTwice(t: Layout, w: nat, g: Direction -> seq<Layout>, u: nat,
                                        h: Direction -> seq<Layout>, d: Direction)
    requires u == w || u !in Ids(t)
    ensures GraftedAll(Grafted(t, w, g, d), u, h, d) == Grafted(t, w, Then(g, u, h), d)
    decreases t, 0
  {
    match t
    case Window(id, _) =>
      if id != w {
        NotThereAll([t], u, h, d);
      }
    case Combination(v, children) =>
      GraftedTwiceAll(children, w, g, u, h, Along(v));
      var inner := GraftedAll(children, w, g, Along(v));
      var whole := Combination(v, inner);
      assert GraftedAll([whole], u, h, d) == Grafted(whole, u, h, d) + GraftedAll([], u, h, d);
  }

  lemma {:induction false} GraftedTwiceAll(ts: seq<Layout>, w: nat, g: Direction -> seq<Layout>, u: nat,
                                           h: Direction -> seq<Layout>, d: Direction)
    requires u == w || u !in IdsAll(ts)
    ensures GraftedAll(GraftedAll(ts, w, g, d), u, h, d) == GraftedAll(ts, w, Then(g, u, h), d)
    decreases ts, 1
  {
    if ts != [] {
      GraftedTwice(ts[0], w, g, u, h, d);
      GraftedTwiceAll(ts[1..], w, g, u, h, d);
      GraftedAppend(Grafted(ts[0], w, g, d), GraftedAll(ts[1..], w, g, d), u, h, d);
    }
  }

  lemma {:induction false} GraftedSame(t: Layout, w: nat, g: Direction -> seq<Layout>, h: Direction -> seq<Layout>,
                                       d: Direction)
    requires forall e :: g(e) == h(e)
    ensures Grafted(t, w, g, d) == Grafted(t, w, h, d)
    decreases t, 0
  {
    if t.Combination? {
      GraftedSameAll(t.children, w, g, h, Along(t.vertical));
    }
  }

  lemma {:induction false} GraftedSameAll(ts: seq<Layout>, w: nat, g: Direction -> seq<Layout>,
                                          h: Direction -> seq<Layout>, d: Direction)
    requires forall e :: g(e) == h(e)
    ensures GraftedAll(ts, w, g, d) == GraftedAll(ts, w, h, d)
    decreases ts, 1
  {
    if ts != [] {
      GraftedSame(ts[0], w, g, h, d);
      GraftedSameAll(ts[1..], w, g, h, d);
    }
  }

  lemma {:induction false} IdsAppend(a: seq<Layout>, b: seq<Layout>)
    ensures IdsAll(a + b) == IdsAll(a) + IdsAll(b)
  {
    hide Ids;
    if a == [] {
      assert a + b == b;
    } else {
      IdsAppend(a[1..], b);
      assert (a + b)[1..] == a[1..] + b && (a + b)[0] == a[0];
    }
  }

  // An identity is there after a graft if it was there and is not the replaced one, or is grafted in.
  lemma {:induction false} GraftedIds(t: Layout, w: nat, g: Direction -> seq<Layout>, d: Direction, x: nat, isNew: bool)
    requires forall e :: x in IdsAll(g(e)) <==> isNew
    ensures x in IdsAll(Grafted(t, w, g, d)) <==> (x in Ids(t) && x != w) || (w in Ids(t) && isNew)
    decreases t, 0
  {
    match t
    case Window(_, _) =>
      assert IdsAll([t]) == Ids(t) + IdsAll([]);
    case Combination(v, children) =>
      GraftedIdsAll(children, w, g, Along(v), x, isNew);
      var c := Combination(v, GraftedAll(children, w, g, Along(v)));
      assert IdsAll([c]) == Ids(c) + IdsAll([]);
  }

  lemma {:induction false} GraftedIdsAll(ts: seq<Layout>, w: nat, g: Direction -> seq<Layout>, d: Direction, x: nat,
                                         isNew: bool)
    requires forall e :: x in IdsAll(g(e)) <==> isNew
    ensures x in IdsAll(GraftedAll(ts, w, g, d)) <==> (x in IdsAll(ts) && x != w) || (w in IdsAll(ts) && isNew)
    decreases ts, 1
  {
    hide Ids, Grafted;
    if ts != [] {
      GraftedIds(ts[0], w, g, d, x, isNew);
      GraftedIdsAll(ts[1..], w, g, d, x, isNew);
      IdsAppend(Grafted(ts[0], w, g, d), GraftedAll(ts[1..], w, g, d));
    }
  }

  // ---- what a replay builds

  function Splits(conf: Conf): nat {
    match conf
    case Data(_) => 0
    case Divide(_, _, first, second) => 1 + Splits(first) + Splits(second)
  }

  // The windows in the place of w, with new identities from n on.
  function Built(conf: Conf, w: nat, n: nat, d: Direction): (r: seq<Layout>)
    ensures r != [] && (d == Alone ==> |r| == 1)
  {
    match conf
    case Data(name) => [Window(w, name)]
    case Divide(v, _, first, second) =>
      var parts := Built(first, w, n + 1, Along(v)) + Built(second, n, n + 1 + Splits(first), Along(v));
      if d == Along(v) then parts else [Combination(v, parts)]
  }

  function BuiltAt(conf: Conf, w: nat, n: nat): Direction -> seq<Layout> {
    d => Built(conf, w, n, d)
  }

  // As values they are what the replay on values gives.
  lemma {:induction false} BuiltShapes(conf: Conf, w: nat, n: nat, d: Direction)
    ensures ShapesOf(Built(conf, w, n, d)) == Replayed(conf, d)
  {
    hide ShapesOf, ShapeOf;
    match conf
    case Data(name) =>
      ShapesOfOne(Window(w, name));
    case Divide(v, _, first, second) =>
      var a, b := Built(first, w, n + 1, Along(v)), Built(second, n, n + 1 + Splits(first), Along(v));
      BuiltShapes(first, w, n + 1, Along(v));
      BuiltShapes(second, n, n + 1 + Splits(first), Along(v));
      ShapesAppend(a, b);
      ShapesOfOne(Combination(v, a + b));
  }

  // The identities of these windows, in their order.
  function Order(conf: Conf, w: nat, n: nat): seq<nat> {
    match conf
    case Data(_) => [w]
    case Divide(_, _, first, second) => Order(first, w, n + 1) + Order(second, n, n + 1 + Splits(first))
  }

  lemma {:induction false} OrderIds(conf: Conf, w: nat, n: nat, x: nat)
    ensures x in Order(conf, w, n) <==> x == w || n <= x < n + Splits(conf)
  {
    if conf.Divide? {
      OrderIds(conf.first, w, n + 1, x);
      OrderIds(conf.second, n, n + 1 + Splits(conf.first), x);
    }
  }

  lemma {:induction false} BuiltOrder(conf: Conf, w: nat, n: nat, d: Direction)
    ensures IdsAll(Built(conf, w, n, d)) == Order(conf, w, n)
  {
    hide Ids, IdsAll;
    match conf
    case Data(name) =>
      IdsOfWindow(w, name);
    case Divide(v, _, first, second) =>
      var a, b := Built(first, w, n + 1, Along(v)), Built(second, n, n + 1 + Splits(first), Along(v));
      BuiltOrder(first, w, n + 1, Along(v));
      BuiltOrder(second, n, n + 1 + Splits(first), Along(v));
      IdsAppend(a, b);
      IdsOfCombination(v, a + b);
  }

  lemma BuiltIds(conf: Conf, w: nat, n: nat, d: Direction, x: nat)
    ensures x in IdsAll(Built(conf, w, n, d)) <==> x == w || n <= x < n + Splits(conf)
  {
    BuiltOrder(conf, w, n, d);
    OrderIds(conf, w, n, x);
  }

  lemma IdsOfWindow(w: nat, name: string)
    ensures IdsAll([Window(w, name)]) == [w]
  {
    IdsOfOne(Window(w, name));
  }

  lemma IdsOfCombination(v: bool, ts: seq<Layout>)
    ensures IdsAll([Combination(v, ts)]) == IdsAll(ts)
  {
    IdsOfOne(Combination(v, ts));
  }

  lemma IdsOfOne(t: Layout)
    ensures IdsAll([t]) == Ids(t)
  {
    assert [t][1..] == [];
  }

  // split-window: the new window, with the same buffer, joins a combination of the direction of the split.
  function Halves(v: bool, w: nat, n: nat, name: string): Direction -> seq<Layout> {
    var both := [Window(w, name), Window(n, name)];
    d => if d == Along(v) then both else [Combination(v, both)]
  }

  lemma HalvesIds(v: bool, w: nat, n: nat, name: string, d: Direction, x: nat)
    ensures x in IdsAll(Halves(v, w, n, name)(d)) <==> x == w || x == n
  {
    var a, b := Window(w, name), Window(n, name);
    assert [a, b][1..] == [b] && [b][1..] == [];
    assert IdsAll([a, b]) == Ids(a) + IdsAll([b]) && IdsAll([b]) == Ids(b) + IdsAll([]);
    assert IdsAll([Combination(v, [a, b])]) == Ids(Combination(v, [a, b])) + IdsAll([]);
  }

  // Both halves replaced in turn.
  lemma HalvesReplaced(w: nat, n: nat, name: string, g: Direction -> seq<Layout>, h: Direction -> seq<Layout>,
                       e: Direction)
    requires w != n && n !in IdsAll(g(e))
    ensures GraftedAll(GraftedAll([Window(w, name), Window(n, name)], w, g, e), n, h, e) == g(e) + h(e)
  {
    hide Ids, IdsAll;
    var a, b := Window(w, name), Window(n, name);
    assert [a] + [b] == [a, b];
    GraftedAppend([a], [b], w, g, e);
    GraftedOne(a, w, g, e);
    GraftedOne(b, w, g, e);
    GraftedAppend(g(e), [b], n, h, e);
    NotThereAll(g(e), n, h, e);
    GraftedOne(b, n, h, e);
  }

  lemma GraftedOne(t: Layout, w: nat, g: Direction -> seq<Layout>, e: Direction)
    ensures GraftedAll([t], w, g, e) == Grafted(t, w, g, e)
  {
    assert [t][1..] == [];
  }

  // Splitting and then replaying both halves is what the whole script builds.
  lemma HalvesThenBoth(v: bool, share: nat, first: Conf, second: Conf, w: nat, n: nat, name: string, d: Direction)
    requires w < n
    ensures
      var g := BuiltAt(first, w, n + 1); var h := BuiltAt(second, n, n + 1 + Splits(first));
      Then(Then(Halves(v, w, n, name), w, g), n, h)(d) == Built(Divide(v, share, first, second), w, n, d)
  {
    hide Ids, IdsAll, GraftedAll;
    var g := BuiltAt(first, w, n + 1);
    var h := BuiltAt(second, n, n + 1 + Splits(first));
    var halves := [Window(w, name), Window(n, name)];
    BuiltIds(first, w, n + 1, Along(v), n);
    HalvesReplaced(w, n, name, g, h, Along(v));
    if d != Along(v) {
      GraftedOne(Combination(v, halves), w, g, d);
      GraftedOne(Combination(v, GraftedAll(halves, w, g, Along(v))), n, h, d);
    }
  }
}
