/**
 tags-tree.el: why looking at the most recent child is enough. When files come in order,
 the last one merged lies at the front of every node on its way, and the files that share
 a first directory come one after the other; so no directory is ever split over two nodes.
 */
module TagsTreeOrder {
  import opened Lexicographic
  import opened TagsTree

  // ---- strings in order

  predicate AtMost(a: string, b: string) {
    a == b || Less(a, b)
  }

  lemma {:induction false} StripPrefix(p: string, a: string, b: string)
    ensures AtMost(p + a, p + b) <==> AtMost(a, b)
  {
    if p == "" {
      assert p + a == a && p + b == b;
    } else {
      StripPrefix(p[1..], a, b);
      assert (p + a)[1..] == p[1..] + a && (p + b)[1..] == p[1..] + b;
      assert p + a == [p[0]] + (p[1..] + a) && p + b == [p[0]] + (p[1..] + b);
    }
  }

  // The strings with a given prefix are next to each other.
  lemma {:induction false} Contiguous(p: string, a: string, b: string, c: string)
    requires AtMost(a, b) && AtMost(b, c) && p <= a && p <= c
    ensures p <= b
  {
    if p != "" {
      assert a[0] == p[0] && c[0] == p[0];
      assert b != "" && b[0] == p[0];
      assert a == [a[0]] + a[1..] && b == [b[0]] + b[1..] && c == [c[0]] + c[1..];
      Contiguous(p[1..], a[1..], b[1..], c[1..]);
    }
  }

  // ---- first components

  // Up to the first slash and with it; empty when there is none.
  function First(s: string): (p: string)
    ensures p <= s && (p == "" <==> '/' !in s)
    ensures p != "" ==> p[|p| - 1] == '/' && '/' !in p[..|p| - 1]
  {
    if s == "" then ""
    else if s[0] == '/' then [s[0]]
    else
      var q := First(s[1..]);
      assert s == [s[0]] + s[1..];
      if q == "" then "" else
        assert ([s[0]] + q)[..|q|] == [s[0]] + q[..|q| - 1];
        [s[0]] + q
  }

  // The only prefix of its kind.
  lemma FirstIs(s: string, p: string)
    requires p <= s && p != "" && p[|p| - 1] == '/' && '/' !in p[..|p| - 1]
    ensures First(s) == p
  {
    var q := First(s);
    assert s[|p| - 1] == '/' && '/' in s;
    forall k | 0 <= k < |p| - 1
      ensures s[k] != '/'
    {
      assert p[..|p| - 1][k] == s[k];
    }
    forall k | 0 <= k < |q| - 1
      ensures s[k] != '/'
    {
      assert q[..|q| - 1][k] == s[k];
    }
    assert s[|q| - 1] == '/';
  }

  lemma FirstOfLonger(a: string, b: string)
    requires First(a) != "" && a <= b
    ensures First(b) == First(a)
  {
    FirstIs(b, First(a));
  }

  lemma SlashIsLater(s: string, k: nat)
    requires k < |s| && s[k] == '/'
    ensures |DirPart(s)| > k
  {
    forall j | |DirPart(s)| <= j < |s|
      ensures s[j] != '/'
    {
      assert s[|DirPart(s)|..][j - |DirPart(s)|] == s[j];
    }
  }

  // Both names begin with p.
  lemma CommonAtLeast(a: string, b: string, p: string)
    requires p <= a && p <= b
    ensures p <= Common(a, b)
  {
    forall k | 0 <= k < |p|
      ensures a[k] == b[k]
    {
      assert a[k] == p[k] == b[k];
    }
  }

  // A common path begins with the first component of both.
  lemma SharesFirst(a: string, b: string)
    ensures CommonPath(a, b) != "" <==> First(a) != "" && First(a) == First(b)
    ensures CommonPath(a, b) != "" ==> First(CommonPath(a, b)) == First(a)
  {
    hide Common, DirPart, First;
    var d := CommonPath(a, b);
    if d != "" {
      assert d[|d| - 1] == '/';
      FirstOfLonger(d, a);
      FirstOfLonger(d, b);
    }
    var p := First(a);
    if p != "" && p == First(b) {
      CommonAtLeast(a, b, p);
      SlashIsLater(Common(a, b), |p| - 1);
    }
  }

  lemma CommonGrows(a: string, b: string, d: string, p: string)
    requires d <= a && d <= b && p <= a[|d|..] && p <= b[|d|..] && p != "" && p[|p| - 1] == '/'
    ensures |CommonPath(a, b)| >= |d| + |p|
  {
    hide Common, DirPart;
    assert a == d + a[|d|..] && b == d + b[|d|..];
    CommonAtLeast(a, b, d + p);
    SlashIsLater(Common(a, b), |d + p| - 1);
  }

  // What remains behind the common path shares no component.
  lemma RestsDiffer(a: string, b: string)
    ensures var d := CommonPath(a, b); First(a[|d|..]) == "" || First(a[|d|..]) != First(b[|d|..])
  {
    hide Common, DirPart, First;
    var d := CommonPath(a, b);
    var p := First(a[|d|..]);
    if p != "" && p == First(b[|d|..]) {
      CommonGrows(a, b, d, p);
    }
  }

  // ---- the invariant

  // No two directories among siblings share a first component.
  ghost predicate Apart(ts: seq<Tree>) {
    forall i, j :: 0 <= i < j < |ts| && ts[i].Dir? && ts[j].Dir? ==> First(ts[i].name) != First(ts[j].name)
  }

  // The paths of an earlier sibling come after those of a later one.
  ghost predicate Falling(ts: seq<Tree>) {
    forall i, j, p, q :: 0 <= i < j < |ts| && p in Paths(ts[i], "") && q in Paths(ts[j], "") ==> AtMost(q, p)
  }

  ghost predicate Ordered(t: Tree)
    decreases t
  {
    match t
    case File(name) => '/' !in name
    case Dir(name, children) =>
      && name != "" && name[|name| - 1] == '/' && children != []
      && Apart(children) && Falling(children)
      && forall c :: c in children ==> Ordered(c)
  }

  ghost predicate AllAtMost(t: Tree, file: string) {
    forall p :: p in Paths(t, "") ==> AtMost(p, file)
  }

  // ---- paths of children

  function Add(p: string, s: seq<string>): (r: seq<string>)
    ensures |r| == |s| && forall i :: 0 <= i < |s| ==> r[i] == p + s[i]
  {
    seq(|s|, i requires 0 <= i < |s| => p + s[i])
  }

  lemma {:induction false} PrefixPaths(t: Tree, a: string, b: string)
    ensures Paths(t, a + b) == Add(a, Paths(t, b))
    decreases t, 0
  {
    match t
    case File(name) =>
      assert a + b + name == a + (b + name);
    case Dir(name, children) =>
      assert a + b + name == a + (b + name);
      PrefixPathsOf(children, a, b + name);
  }

  lemma {:induction false} PrefixPathsOf(ts: seq<Tree>, a: string, b: string)
    ensures PathsOf(ts, a + b) == Add(a, PathsOf(ts, b))
    decreases ts, 1
  {
    if ts != [] {
      PrefixPaths(ts[0], a, b);
      PrefixPathsOf(ts[1..], a, b);
    }
  }

  lemma {:induction false} PathsOfMembers(ts: seq<Tree>, prefix: string, p: string)
    ensures p in PathsOf(ts, prefix) <==> exists i :: 0 <= i < |ts| && p in Paths(ts[i], prefix)
  {
    if ts != [] {
      PathsOfMembers(ts[1..], prefix, p);
      if i :| 0 <= i < |ts| && p in Paths(ts[i], prefix) {
        assert i > 0 ==> ts[1..][i - 1] == ts[i];
      }
    }
  }

  // A path of the node is its name and a path of a child.
  lemma ChildPaths(t: Tree, p: string)
    requires t.Dir?
    ensures t.name + p in Paths(t, "") <==> exists i :: 0 <= i < |t.children| && p in Paths(t.children[i], "")
  {
    assert "" + t.name == t.name + "" == t.name;
    PrefixPathsOf(t.children, t.name, "");
    PathsOfMembers(t.children, "", p);
    var below := PathsOf(t.children, "");
    assert Paths(t, "") == Add(t.name, below);
    if t.name + p in Paths(t, "") {
      var k :| 0 <= k < |below| && t.name + below[k] == t.name + p;
      assert below[k] == (t.name + p)[|t.name|..] == p;
    }
    if p in below {
      var k :| 0 <= k < |below| && below[k] == p;
      assert Paths(t, "")[k] == t.name + p;
    }
  }

  lemma {:induction false} HasPath(t: Tree) returns (p: string)
    requires Ordered(t)
    ensures p in Paths(t, "") && t.name <= p && (t.File? ==> p == t.name)
    decreases t
  {
    match t
    case File(name) =>
      p := name;
      assert "" + name == name;
    case Dir(name, children) =>
      var q := HasPath(children[0]);
      p := name + q;
      ChildPaths(t, q);
  }

  // ---- one merge

  lemma OneChild(d: string, f: string)
    requires d != "" && d[|d| - 1] == '/' && '/' !in f
    ensures Ordered(Dir(d, [File(f)]))
  {
    hide Paths;
    assert Ordered(File(f)) && Apart([File(f)]) && Falling([File(f)]);
  }

  lemma ParsedPath(file: string)
    ensures Paths(Parse(file), "") == [file]
  {
    hide Paths, Parse;
    ParseHasOne(file, "");
    assert "" + file == file;
  }

  lemma PlainFile(file: string)
    requires DirPart(file) == ""
    ensures Parse(file) == File(file) && Ordered(File(file))
  {
  }

  lemma ParsedOrdered(file: string)
    ensures Ordered(Parse(file)) && Paths(Parse(file), "") == [file]
    ensures Parse(file).Dir? ==> First(Parse(file).name) == First(file) != ""
  {
    hide Paths, First, Ordered;
    ParsedPath(file);
    var d := DirPart(file);
    if d == "" {
      PlainFile(file);
    } else {
      assert d[|d| - 1] in d;
      FirstOfLonger(d, file);
      OneChild(d, file[|d|..]);
    }
  }

  // What remains of the file behind the name of the node is not before any path of a child.
  lemma ChildrenAtMost(t: Tree, rest: string)
    requires t.Dir? && AllAtMost(t, t.name + rest)
    ensures forall c :: c in t.children ==> AllAtMost(c, rest)
  {
    forall c, q | c in t.children && q in Paths(c, "")
      ensures AtMost(q, rest)
    {
      ChildPaths(t, q);
      StripPrefix(t.name, q, rest);
    }
  }

  // The directory of the file has no node yet among the children but the first.
  lemma OnlyFirstMayShare(ts: seq<Tree>, rest: string, j: nat)
    requires Apart(ts) && Falling(ts) && (forall c :: c in ts ==> Ordered(c) && AllAtMost(c, rest))
    requires 0 < j < |ts| && ts[j].Dir?
    ensures First(ts[j].name) != First(rest)
  {
    hide Ordered, Paths, First;
    var p := First(ts[j].name);
    NameHasFirst(ts[j]);
    if p == First(rest) {
      var x := HasPath(ts[0]);
      var y := HasPath(ts[j]);
      assert AtMost(y, x) && AtMost(x, rest);
      Contiguous(p, y, x, rest);
      FirstIs(x, p);
      NameDecides(ts[0], x);
    }
  }

  lemma NameHasFirst(t: Tree)
    requires Ordered(t) && t.Dir?
    ensures First(t.name) != ""
  {
    assert t.name[|t.name| - 1] in t.name;
  }

  // A path with a directory in it goes through a node that begins with that directory.
  lemma NameDecides(t: Tree, x: string)
    requires Ordered(t) && t.name <= x && (t.File? ==> x == t.name) && First(x) != ""
    ensures t.Dir? && First(t.name) == First(x)
  {
    if t.Dir? {
      NameHasFirst(t);
      FirstOfLonger(t.name, x);
    }
  }

  // The siblings stay apart: a new child in front of them, ...
  lemma PrependKeepsApart(ts: seq<Tree>, rest: string)
    requires Apart(ts) && Falling(ts) && forall c :: c in ts ==> Ordered(c) && AllAtMost(c, rest)
    requires ts != [] && ts[0].Dir? ==> CommonPath(ts[0].name, rest) == ""
    ensures Apart([Parse(rest)] + ts) && Falling([Parse(rest)] + ts)
  {
    hide Ordered, Parse, First, CommonPath;
    var all := [Parse(rest)] + ts;
    ParsedOrdered(rest);
    forall j | 0 <= j < |ts| && ts[j].Dir? && Parse(rest).Dir?
      ensures First(Parse(rest).name) != First(ts[j].name)
    {
      if j == 0 {
        NameHasFirst(ts[0]);
        SharesFirst(ts[0].name, rest);
      } else {
        OnlyFirstMayShare(ts, rest, j);
      }
    }
    forall i, j | 0 <= i < j < |all| && all[i].Dir? && all[j].Dir?
      ensures First(all[i].name) != First(all[j].name)
    {
      assert all[j] == ts[j - 1];
    }
    forall i, j, p, q | 0 <= i < j < |all| && p in Paths(all[i], "") && q in Paths(all[j], "")
      ensures AtMost(q, p)
    {
      var u := ts[j - 1];
      assert all[j] == u && u in ts && AllAtMost(u, rest);
      if i > 0 {
        assert all[i] == ts[i - 1];
      } else {
        assert p == rest;
      }
    }
  }

  // ... or a first child that has grown by a path not before any other.
  lemma GrowthKeepsApart(ts: seq<Tree>, first: Tree, rest: string)
    requires Apart(ts) && Falling(ts) && ts != [] && ts[0].Dir? && first.Dir?
    requires forall c :: c in ts ==> AllAtMost(c, rest)
    requires First(first.name) == First(ts[0].name)
    requires multiset(Paths(first, "")) == multiset(Paths(ts[0], "")) + multiset{rest}
    ensures Apart([first] + ts[1..]) && Falling([first] + ts[1..])
  {
    hide First, Paths;
    var all := [first] + ts[1..];
    forall i, j, p, q | 0 <= i < j < |all| && p in Paths(all[i], "") && q in Paths(all[j], "")
      ensures AtMost(q, p)
    {
      var u := ts[j];
      assert all[j] == u && u in ts && AllAtMost(u, rest);
      if i == 0 {
        assert p in multiset(Paths(first, ""));
        assert p == rest || p in multiset(Paths(ts[0], ""));
      } else {
        assert all[i] == ts[i];
      }
    }
  }

  // The children of the merged node, when the file goes into the first of them.
  lemma DescendKeeps(ts: seq<Tree>, rest: string)
    requires Apart(ts) && Falling(ts) && ts != [] && (forall c :: c in ts ==> Ordered(c) && AllAtMost(c, rest))
    requires ts[0].Dir? && CommonPath(ts[0].name, rest) != ""
    ensures Apart([Merge(ts[0], rest)] + ts[1..]) && Falling([Merge(ts[0], rest)] + ts[1..])
  {
    hide Ordered, First, CommonPath, Apart, Falling, AllAtMost;
    MergeAddsOne(ts[0], rest, "");
    assert "" + rest == rest;
    SharesFirst(ts[0].name, rest);
    GrowthKeepsApart(ts, Merge(ts[0], rest), rest);
  }

  // The node is split: its old children go under what is left of its name.
  lemma SplitStaysOrdered(t: Tree, common: string, re1: string, re2: string)
    requires t.Dir? && Ordered(t) && t.name == common + re1 && re1 != "" && common != "" && common[|common| - 1] == '/'
    requires AllAtMost(t, common + re2) && First(re1) != First(re2)
    ensures Ordered(Dir(common, [Parse(re2), Dir(re1, t.children)]))
  {
    hide Parse, First, Less;
    var lower := Dir(re1, t.children);
    assert re1[|re1| - 1] == t.name[|t.name| - 1];
    assert Ordered(lower);
    ParsedOrdered(re2);
    forall q | q in Paths(lower, "")
      ensures AtMost(q, re2)
    {
      SplitPaths(t, common, re1, q);
      StripPrefix(common, q, re2);
    }
    assert Apart([Parse(re2), lower]) && Falling([Parse(re2), lower]);
  }

  lemma SplitPaths(t: Tree, common: string, re1: string, q: string)
    requires t.Dir? && t.name == common + re1 && q in Paths(Dir(re1, t.children), "")
    ensures common + q in Paths(t, "")
  {
    hide Paths, PathsOf;
    PrefixPaths(Dir(re1, t.children), common, "");
    SplitSame(t, common, re1);
    assert common + "" == common;
  }

  lemma SplitSame(t: Tree, common: string, re1: string)
    requires t.Dir? && t.name == common + re1
    ensures Paths(Dir(re1, t.children), common) == Paths(t, "")
  {
    assert "" + t.name == common + re1;
  }

  /** A file that comes after all files of an ordered tree is merged into an ordered tree. */
  lemma {:induction false} MergeStaysOrdered(t: Tree, file: string)
    requires t.Dir? && Ordered(t) && AllAtMost(t, file) && CommonPath(t.name, file) != ""
    ensures Ordered(Merge(t, file))
    decreases t
  {
    hide CommonPath, Parse, First, AllAtMost, Apart, Falling, Paths;
    var common := CommonPath(t.name, file);
    var re1, re2 := t.name[|common|..], file[|common|..];
    assert common + re2 == file && common + re1 == t.name;
    EndsInSlash(t.name, file);
    if re1 != "" {
      RestsDiffer(t.name, file);
      SplitNameHasFirst(t, re1);
      SplitStaysOrdered(t, common, re1, re2);
    } else {
      assert t.name == common;
      ChildrenAtMost(t, re2);
      var first := t.children[0];
      if first.Dir? && CommonPath(first.name, re2) != "" {
        MergeStaysOrdered(first, re2);
        DescendStaysOrdered(t, file, re2);
      } else {
        PrependStaysOrdered(t, file, re2);
      }
    }
  }

  lemma DescendStaysOrdered(t: Tree, file: string, rest: string)
    requires t.Dir? && Ordered(t) && CommonPath(t.name, file) == t.name != "" && file == t.name + rest
    requires forall c :: c in t.children ==> AllAtMost(c, rest)
    requires t.children[0].Dir? && CommonPath(t.children[0].name, rest) != "" && Ordered(Merge(t.children[0], rest))
    ensures Ordered(Merge(t, file))
  {
    hide CommonPath, Parse, First, AllAtMost, Apart, Falling, Paths;
    assert file[|t.name|..] == rest && t.name[|t.name|..] == "";
    DescendKeeps(t.children, rest);
  }

  lemma PrependStaysOrdered(t: Tree, file: string, rest: string)
    requires t.Dir? && Ordered(t) && CommonPath(t.name, file) == t.name != "" && file == t.name + rest
    requires forall c :: c in t.children ==> AllAtMost(c, rest)
    requires t.children[0].Dir? ==> CommonPath(t.children[0].name, rest) == ""
    ensures Ordered(Merge(t, file))
  {
    hide CommonPath, Parse, First, AllAtMost, Apart, Falling, Paths;
    assert file[|t.name|..] == rest && t.name[|t.name|..] == "";
    ParsedOrdered(rest);
    PrependKeepsApart(t.children, rest);
  }

  lemma EndsInSlash(a: string, b: string)
    requires CommonPath(a, b) != ""
    ensures CommonPath(a, b)[|CommonPath(a, b)| - 1] == '/'
  {
  }

  lemma SplitNameHasFirst(t: Tree, re1: string)
    requires Ordered(t) && t.Dir? && re1 != "" && |re1| <= |t.name| && re1 == t.name[|t.name| - |re1|..]
    ensures First(re1) != ""
  {
    assert re1[|re1| - 1] == '/' && re1[|re1| - 1] in re1;
  }
}
