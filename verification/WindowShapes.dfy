/**
 windata.el on values: a tree of windows becomes a binary script of splits, and a replay of
 the script, where a split in the direction of the surrounding combination joins it, gives
 the tree back. What is said here does not depend on the sizes of the windows.
 */
module WindowShapes {

  // A tree as window-tree gives it, with what windata-data-function saves of each window.
  datatype Shape = Pane(name: string) | Box(vertical: bool, children: seq<Shape>)

  // What windata-window-tree->list returns; the share is that of the first half, in units of four decimals.
  datatype Conf = Data(name: string) | Divide(vertical: bool, share: nat, first: Conf, second: Conf)

  datatype Direction = Alone | Along(vertical: bool)

  // Combinations have at least two members.
  ghost predicate Proper(s: Shape)
    decreases s
  {
    s.Box? ==> |s.children| >= 2 && forall c :: c in s.children ==> Proper(c)
  }

  // The script has the splits and the windows of the tree, with shares of any size.
  ghost predicate Scripts(conf: Conf, s: Shape)
    requires Proper(s)
    decreases s, 0
  {
    match s
    case Pane(name) => conf == Data(name)
    case Box(vertical, children) => ScriptsAll(conf, vertical, children)
  }

  // ... of a combination: the second half is the combination of the others, if there is more than one
  ghost predicate ScriptsAll(conf: Conf, vertical: bool, children: seq<Shape>)
    requires |children| >= 2 && forall c :: c in children ==> Proper(c)
    decreases children, 1
  {
    && conf.Divide? && conf.vertical == vertical && Scripts(conf.first, children[0])
    && if |children| > 2 then ScriptsAll(conf.second, vertical, children[1..]) else Scripts(conf.second, children[1])
  }

  // What a replay makes of one window in a combination of the given direction: the windows that take its place.
  function Replayed(conf: Conf, d: Direction): (r: seq<Shape>)
    ensures r != [] && (d == Alone ==> |r| == 1)
  {
    match conf
    case Data(name) => [Pane(name)]
    case Divide(v, _, first, second) =>
      var parts := Replayed(first, Along(v)) + Replayed(second, Along(v));
      if d == Along(v) then parts else [Box(v, parts)]
  }

  // ---- joining

  // The tree with every combination inside one of its own direction dissolved.
  function Joined(s: Shape, d: Direction): seq<Shape>
    decreases s, 0
  {
    match s
    case Pane(_) => [s]
    case Box(v, children) =>
      if d == Along(v) then JoinedAll(children, Along(v)) else [Box(v, JoinedAll(children, Along(v)))]
  }

  function JoinedAll(ss: seq<Shape>, d: Direction): seq<Shape>
    decreases ss, 1
  {
    if ss == [] then [] else Joined(ss[0], d) + JoinedAll(ss[1..], d)
  }

  // No combination lies directly in one of its own direction.
  ghost predicate Alternating(s: Shape, d: Direction)
    decreases s
  {
    match s
    case Pane(_) => true
    case Box(v, children) => d != Along(v) && forall c :: c in children ==> Alternating(c, Along(v))
  }

  /** The replay of the script of a tree is that tree with combinations of one direction joined. */
  lemma {:induction false} ReplayJoins(conf: Conf, s: Shape, d: Direction)
    requires Proper(s) && Scripts(conf, s)
    ensures Replayed(conf, d) == Joined(s, d)
    decreases s, 0
  {
    if s.Box? {
      ReplayJoinsChildren(conf, s.vertical, s.children);
    }
  }

  lemma {:induction false} ReplayJoinsChildren(conf: Conf, v: bool, ss: seq<Shape>)
    requires |ss| >= 2 && (forall c :: c in ss ==> Proper(c)) && ScriptsAll(conf, v, ss)
    ensures Replayed(conf, Along(v)) == JoinedAll(ss, Along(v))
    ensures forall d :: d != Along(v) ==> Replayed(conf, d) == [Box(v, JoinedAll(ss, Along(v)))]
    decreases ss, 1
  {
    ReplayJoins(conf.first, ss[0], Along(v));
    if |ss| > 2 {
      ReplayJoinsChildren(conf.second, v, ss[1..]);
    } else {
      ReplayJoins(conf.second, ss[1], Along(v));
      assert ss[1..] == [ss[1]] && ss[1..][1..] == [];
      assert JoinedAll(ss[1..], Along(v)) == Joined(ss[1], Along(v)) + JoinedAll([], Along(v));
    }
  }

  // ---- when nothing is joined

  // The number of combinations, and of those that are dissolved.
  function Boxes(s: Shape): nat
    decreases s, 0
  {
    match s
    case Pane(_) => 0
    case Box(_, children) => 1 + BoxesAll(children)
  }

  function BoxesAll(ss: seq<Shape>): nat
    decreases ss, 1
  {
    if ss == [] then 0 else Boxes(ss[0]) + BoxesAll(ss[1..])
  }

  function Dissolved(s: Shape, d: Direction): nat
    decreases s, 0
  {
    match s
    case Pane(_) => 0
    case Box(v, children) => (if d == Along(v) then 1 else 0) + DissolvedAll(children, Along(v))
  }

  function DissolvedAll(ss: seq<Shape>, d: Direction): nat
    decreases ss, 1
  {
    if ss == [] then 0 else Dissolved(ss[0], d) + DissolvedAll(ss[1..], d)
  }

  lemma {:induction false} BoxesAppend(a: seq<Shape>, b: seq<Shape>)
    ensures BoxesAll(a + b) == BoxesAll(a) + BoxesAll(b)
  {
    hide Boxes;
    if a == [] {
      assert a + b == b;
    } else {
      BoxesAppend(a[1..], b);
      assert (a + b)[1..] == a[1..] + b;
    }
  }

  lemma {:induction false} JoiningDissolves(s: Shape, d: Direction)
    ensures BoxesAll(Joined(s, d)) + Dissolved(s, d) == Boxes(s)
    decreases s, 0
  {
    if s.Box? {
      var inner := JoinedAll(s.children, Along(s.vertical));
      JoiningDissolvesAll(s.children, Along(s.vertical));
      assert BoxesAll([Box(s.vertical, inner)]) == Boxes(Box(s.vertical, inner)) + BoxesAll([]);
    }
  }

  lemma {:induction false} JoiningDissolvesAll(ss: seq<Shape>, d: Direction)
    ensures BoxesAll(JoinedAll(ss, d)) + DissolvedAll(ss, d) == BoxesAll(ss)
    decreases ss, 1
  {
    if ss != [] {
      JoiningDissolves(ss[0], d);
      JoiningDissolvesAll(ss[1..], d);
      BoxesAppend(Joined(ss[0], d), JoinedAll(ss[1..], d));
    }
  }

  lemma {:induction false} NothingDissolved(s: Shape, d: Direction)
    ensures Dissolved(s, d) == 0 <==> Alternating(s, d)
    ensures Alternating(s, d) ==> Joined(s, d) == [s]
    decreases s, 0
  {
    if s.Box? {
      NothingDissolvedAll(s.children, Along(s.vertical));
    }
  }

  lemma {:induction false} NothingDissolvedAll(ss: seq<Shape>, d: Direction)
    ensures DissolvedAll(ss, d) == 0 <==> forall c :: c in ss ==> Alternating(c, d)
    ensures (forall c :: c in ss ==> Alternating(c, d)) ==> JoinedAll(ss, d) == ss
    decreases ss, 1
  {
    if ss != [] {
      NothingDissolved(ss[0], d);
      NothingDissolvedAll(ss[1..], d);
      assert ss == [ss[0]] + ss[1..];
    }
  }

  /** A saved tree comes back exactly when nested combinations alternate in direction. */
  lemma RestoredExactly(conf: Conf, s: Shape)
    requires Proper(s) && Scripts(conf, s)
    ensures Replayed(conf, Alone) == [s] <==> Alternating(s, Alone)
  {
    ReplayJoins(conf, s, Alone);
    JoiningDissolves(s, Alone);
    NothingDissolved(s, Alone);
    assert BoxesAll([s]) == Boxes(s) + BoxesAll([]);
  }

  /** Two windows below one another in the lower half of a frame come back as two of three in one combination. */
  lemma NestedIsJoined()
    ensures
      var a, b, c := Pane("a"), Pane("b"), Pane("c");
      var s := Box(true, [a, Box(true, [b, c])]);
      var conf := Divide(true, 5000, Data("a"), Divide(true, 2500, Data("b"), Data("c")));
      Proper(s) && Scripts(conf, s) && Replayed(conf, Alone) == [Box(true, [a, b, c])] != [s]
  {
    var a, b, c := Pane("a"), Pane("b"), Pane("c");
    var inner := Divide(true, 2500, Data("b"), Data("c"));
    assert Scripts(Data("b"), [b, c][0]) && Scripts(Data("c"), [b, c][1]);
    assert Scripts(inner, Box(true, [b, c])) by { assert ScriptsAll(inner, true, [b, c]); }
    assert ScriptsAll(Divide(true, 5000, Data("a"), inner), true, [a, Box(true, [b, c])]);
    assert Replayed(inner, Along(true)) == [b, c];
    assert [a] + [b, c] == [a, b, c];
    assert [a, b, c][2] == c;
  }

  // ---- the order of windows

  function Panes(s: Shape): seq<string>
    decreases s, 0
  {
    match s
    case Pane(name) => [name]
    case Box(_, children) => PanesAll(children)
  }

  function PanesAll(ss: seq<Shape>): seq<string>
    decreases ss, 1
  {
    if ss == [] then [] else Panes(ss[0]) + PanesAll(ss[1..])
  }

  lemma {:induction false} PanesAppend(a: seq<Shape>, b: seq<Shape>)
    ensures PanesAll(a + b) == PanesAll(a) + PanesAll(b)
  {
    hide Panes;
    if a == [] {
      assert a + b == b;
    } else {
      PanesAppend(a[1..], b);
      assert (a + b)[1..] == a[1..] + b;
    }
  }

  lemma {:induction false} JoiningKeepsPanes(s: Shape, d: Direction)
    ensures PanesAll(Joined(s, d)) == Panes(s)
    decreases s, 0
  {
    match s
    case Pane(_) =>
      assert PanesAll([s]) == Panes(s) + PanesAll([]);
    case Box(v, children) =>
      var inner := JoinedAll(children, Along(v));
      JoiningKeepsPanesAll(children, Along(v));
      assert PanesAll([Box(v, inner)]) == Panes(Box(v, inner)) + PanesAll([]);
  }

  lemma {:induction false} JoiningKeepsPanesAll(ss: seq<Shape>, d: Direction)
    ensures PanesAll(JoinedAll(ss, d)) == PanesAll(ss)
    decreases ss, 1
  {
    if ss != [] {
      JoiningKeepsPanes(ss[0], d);
      JoiningKeepsPanesAll(ss[1..], d);
      PanesAppend(Joined(ss[0], d), JoinedAll(ss[1..], d));
    }
  }

  /** Whatever is joined, the windows come back in their order. */
  lemma WindowsKeepOrder(conf: Conf, s: Shape)
    requires Proper(s) && Scripts(conf, s)
    ensures PanesAll(Replayed(conf, Alone)) == Panes(s)
  {
    ReplayJoins(conf, s, Alone);
    JoiningKeepsPanes(s, Alone);
  }
}
