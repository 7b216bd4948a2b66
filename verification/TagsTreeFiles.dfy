/**
 tags-tree.el: grouping a list of files. They are sorted, merged into one tree, and the
 leaves of the tree are marked with full file names. The sort of siblings for display is
 taken to be any rearrangement: its predicate is not defined for a directory and a file.
 */
module TagsTreeFiles {
  import opened Optional
  import opened Lexicographic
  import opened TagsTree
  import opened TagsTreeOrder

  // The marked tree: the pair of a file's name and its full name at each leaf.
  datatype Marked = Group(name: string, children: seq<Marked>) | Leaf(name: string, path: string)

  // ---- sorting

  ghost predicate Rising(s: seq<string>) {
    forall i, j :: 0 <= i < j < |s| ==> AtMost(s[i], s[j])
  }

  lemma AtMostIsTransitive(a: string, b: string, c: string)
    requires AtMost(a, b) && AtMost(b, c)
    ensures AtMost(a, c)
  {
    if a != b && b != c {
      LessIsTransitive(a, b, c);
    }
  }

  function Place(s: seq<string>, x: string): (r: seq<string>)
    requires Rising(s)
    ensures Rising(r) && multiset(r) == multiset(s) + multiset{x}
    ensures r != [] && (r[0] == x || (s != [] && r[0] == s[0]))
  {
    if s == [] then [x]
    else if AtMost(x, s[0]) then
      assert forall k :: 0 <= k < |s| ==> AtMost(x, s[k]) by {
        forall k | 0 <= k < |s|
          ensures AtMost(x, s[k])
        {
          AtMostIsTransitive(x, s[0], s[k]);
        }
      }
      [x] + s
    else
      assert AtMost(s[0], x) by { LessIsTotal(s[0], x); }
      var t := Place(s[1..], x);
      assert s == [s[0]] + s[1..];
      assert forall k :: 0 <= k < |t| ==> AtMost(s[0], t[k]) by {
        forall k | 0 <= k < |t|
          ensures AtMost(s[0], t[k])
        {
          assert t[k] in multiset(t);
          assert t[k] == x || t[k] in multiset(s[1..]);
        }
      }
      [s[0]] + t
  }

  // sort with string<
  function InOrder(s: seq<string>): (r: seq<string>)
    ensures Rising(r) && multiset(r) == multiset(s)
  {
    if s == [] then []
    else
      assert s == [s[0]] + s[1..];
      Place(InOrder(s[1..]), s[0])
  }

  // ---- building

  // The name of the root begins with the dot and the slash that every file gets.
  ghost predicate Rooted(t: Tree) {
    t.Dir? && "./" <= t.name
  }

  lemma MergeStaysRooted(t: Tree, file: string)
    requires Rooted(t) && "./" <= file
    ensures CommonPath(t.name, file) != "" && Rooted(Merge(t, file))
  {
    hide Common, DirPart;
    CommonAtLeast(t.name, file, "./");
    SlashIsLater(Common(t.name, file), 1);
    var d := CommonPath(t.name, file);
    assert d[0] == t.name[0] == '.' && d[1] == t.name[1] == '/';
  }

  lemma SproutIsGood(file: string)
    requires "./" <= file
    ensures Rooted(Sprout(file)) && Ordered(Sprout(file)) && Paths(Sprout(file), "") == [file]
  {
    hide DirPart, Ordered, Paths;
    SlashIsLater(file, 1);
    var d := DirPart(file);
    assert d[0] == file[0] && d[1] == file[1];
    assert Sprout(file) == Parse(file);
    ParsedOrdered(file);
  }

  lemma NoLater(t: Tree, files: seq<string>, file: string)
    requires multiset(Paths(t, "")) == multiset(files) && Rising(files + [file])
    ensures AllAtMost(t, file)
  {
    forall p | p in Paths(t, "")
      ensures AtMost(p, file)
    {
      assert p in multiset(Paths(t, ""));
      assert p in files;
      var k :| 0 <= k < |files| && files[k] == p;
      assert (files + [file])[k] == p && (files + [file])[|files|] == file;
    }
  }

  // The loop of tags-tree-group-file-by-name
  method Build(files: seq<string>) returns (t: Tree)
    requires files != [] && Rising(files) && forall k :: 0 <= k < |files| ==> "./" <= files[k]
    ensures Rooted(t) && Ordered(t) && multiset(Paths(t, "")) == multiset(files)
  {
    hide Ordered, Paths, Rising, DirPart;
    t := Sprout(files[0]);
    SproutIsGood(files[0]);
    assert files[..1] == [files[0]];
    for i := 1 to |files|
      invariant Rooted(t) && Ordered(t) && multiset(Paths(t, "")) == multiset(files[..i])
    {
      var file := files[i];
      assert files[..i + 1] == files[..i] + [file];
      RisingFront(files, i + 1);
      NoLater(t, files[..i], file);
      MergeStaysRooted(t, file);
      MergeStaysOrdered(t, file);
      MergeAddsOne(t, file, "");
      assert "" + file == file;
      t := Merge(t, file);
    }
    assert files[..|files|] == files;
  }

  lemma RisingFront(s: seq<string>, k: nat)
    requires Rising(s) && k <= |s|
    ensures Rising(s[..k])
  {
  }

  // ---- rearranging siblings

  lemma {:induction false} PathsOfAppend(a: seq<Tree>, b: seq<Tree>, prefix: string)
    ensures PathsOf(a + b, prefix) == PathsOf(a, prefix) + PathsOf(b, prefix)
  {
    hide Paths;
    if a == [] {
      assert a + b == b;
    } else {
      PathsOfAppend(a[1..], b, prefix);
      assert a + b == [a[0]] + (a[1..] + b);
      PathsOfCons(a[0], a[1..] + b, prefix);
    }
  }

  lemma InsertedPaths(ts: seq<Tree>, k: nat, t: Tree, prefix: string)
    requires k <= |ts|
    ensures multiset(PathsOf(ts[..k] + [t] + ts[k..], prefix)) == multiset(PathsOf(ts + [t], prefix))
  {
    assert ts == ts[..k] + ts[k..];
    PathsOfAppend(ts[..k] + [t], ts[k..], prefix);
    PathsOfAppend(ts[..k], [t], prefix);
    PathsOfAppend(ts, [t], prefix);
    PathsOfAppend(ts[..k], ts[k..], prefix);
  }

  lemma InsertedApart(ts: seq<Tree>, k: nat, t: Tree)
    requires k <= |ts| && Apart(ts) && forall u :: u in ts && u.Dir? && t.Dir? ==> First(u.name) != First(t.name)
    ensures Apart(ts[..k] + [t] + ts[k..])
  {
    hide First;
    var all := ts[..k] + [t] + ts[k..];
    forall i, j | 0 <= i < j < |all| && all[i].Dir? && all[j].Dir?
      ensures First(all[i].name) != First(all[j].name)
    {
      assert all[i] == if i < k then ts[i] else if i == k then t else ts[i - 1];
      assert all[j] == if j < k then ts[j] else if j == k then t else ts[j - 1];
    }
  }

  // The call of sort on the children of a node.
  method Rearrange(ts: seq<Tree>, ghost prefix: string) returns (r: seq<Tree>)
    ensures multiset(r) == multiset(ts)
    ensures multiset(PathsOf(r, prefix)) == multiset(PathsOf(ts, prefix))
    ensures Apart(ts) ==> Apart(r)
  {
    hide Paths, PathsOf, First;
    r := [];
    for i := 0 to |ts|
      invariant multiset(r) == multiset(ts[..i])
      invariant multiset(PathsOf(r, prefix)) == multiset(PathsOf(ts[..i], prefix))
      invariant Apart(ts) ==> Apart(r)
    {
      var k: nat :| k <= |r|;
      assert ts[..i + 1] == ts[..i] + [ts[i]];
      InsertedPaths(r, k, ts[i], prefix);
      PathsOfAppend(r, [ts[i]], prefix);
      PathsOfAppend(ts[..i], [ts[i]], prefix);
      if Apart(ts) {
        forall u | u in r && u.Dir? && ts[i].Dir?
          ensures First(u.name) != First(ts[i].name)
        {
          assert u in multiset(ts[..i]);
          var j :| 0 <= j < i && ts[j] == u;
        }
        InsertedApart(r, k, ts[i]);
      }
      assert r == r[..k] + r[k..];
      r := r[..k] + [ts[i]] + r[k..];
    }
    assert ts[..|ts|] == ts;
  }

  // ---- marking

  // Every leaf carries its full name.
  ghost predicate Named(m: Marked, prefix: string)
    decreases m
  {
    match m
    case Leaf(name, path) => path == prefix + name
    case Group(name, children) => forall c :: c in children ==> Named(c, prefix + name)
  }

  function Leaves(m: Marked): seq<string>
    decreases m, 0
  {
    match m
    case Leaf(_, path) => [path]
    case Group(_, children) => LeavesOf(children)
  }

  function LeavesOf(ms: seq<Marked>): seq<string>
    decreases ms, 1
  {
    if ms == [] then [] else LeavesOf(ms[..|ms| - 1]) + Leaves(ms[|ms| - 1])
  }

  // No two groups among siblings begin with the same directory, at any depth.
  ghost predicate Unsplit(m: Marked)
    decreases m
  {
    m.Group? ==>
      && (forall i, j :: 0 <= i < j < |m.children| && m.children[i].Group? && m.children[j].Group? ==>
            First(m.children[i].name) != First(m.children[j].name))
      && forall c :: c in m.children ==> Unsplit(c)
  }

  // Kids correspond to their marked forms.
  ghost predicate Alike(ts: seq<Tree>, ms: seq<Marked>) {
    |ts| == |ms| && forall i :: 0 <= i < |ts| ==> ts[i].name == ms[i].name && (ts[i].Dir? <==> ms[i].Group?)
  }

  lemma UnsplitFrom(ts: seq<Tree>, m: Marked)
    requires m.Group? && Apart(ts) && Alike(ts, m.children) && forall c :: c in m.children ==> Unsplit(c)
    ensures Unsplit(m)
  {
    hide First;
  }

  // tags-tree-mark-file-name
  method MarkFileName(t: Tree, prefix: string) returns (m: Marked)
    requires t.Dir? && Ordered(t)
    ensures m.Group? && m.name == t.name && Named(m, prefix) && Unsplit(m)
    ensures multiset(Leaves(m)) == multiset(Paths(t, prefix))
    decreases t, 1
  {
    var inner := prefix + t.name;
    var kids := Rearrange(t.children, inner);
    m := Group(t.name, []);
    var ms := MarkAll(t, kids, inner);
    m := Group(t.name, ms);
    UnsplitFrom(kids, m);
  }

  method MarkAll(ghost t: Tree, kids: seq<Tree>, inner: string) returns (ms: seq<Marked>)
    requires t.Dir? && Ordered(t) && multiset(kids) == multiset(t.children)
    ensures Alike(kids, ms) && forall c :: c in ms ==> Named(c, inner) && Unsplit(c)
    ensures multiset(LeavesOf(ms)) == multiset(PathsOf(kids, inner))
    decreases t, 0
  {
    hide Paths, PathsOf, First, Ordered, Named, Unsplit, Leaves, LeavesOf;
    ms := [];
    NoLeaves(inner);
    for i := 0 to |kids|
      invariant Alike(kids[..i], ms) && forall c :: c in ms ==> Named(c, inner) && Unsplit(c)
      invariant multiset(LeavesOf(ms)) == multiset(PathsOf(kids[..i], inner))
    {
      var kid := kids[i];
      assert kid in multiset(kids);
      assert kid in t.children;
      ChildOrdered(t, kid);
      var mk := MarkOne(kid, inner);
      assert kids[..i + 1] == kids[..i] + [kid];
      PathsOfAppend(kids[..i], [kid], inner);
      PathsOfOne(kid, inner);
      LeavesAppend(ms, mk);
      ms := ms + [mk];
    }
    assert kids[..|kids|] == kids;
  }

  lemma NoLeaves(prefix: string)
    ensures LeavesOf([]) == PathsOf([], prefix) == []
  {
  }

  lemma LeavesAppend(ms: seq<Marked>, m: Marked)
    ensures LeavesOf(ms + [m]) == LeavesOf(ms) + Leaves(m)
  {
    assert (ms + [m])[..|ms|] == ms;
  }

  lemma ChildOrdered(t: Tree, c: Tree)
    requires t.Dir? && Ordered(t) && c in t.children
    ensures Ordered(c)
  {
  }

  lemma PathsOfOne(t: Tree, prefix: string)
    ensures PathsOf([t], prefix) == Paths(t, prefix)
  {
    assert [t][1..] == [];
  }

  method MarkOne(kid: Tree, inner: string) returns (m: Marked)
    requires Ordered(kid)
    ensures m.name == kid.name && (kid.Dir? <==> m.Group?) && Named(m, inner) && Unsplit(m)
    ensures multiset(Leaves(m)) == multiset(Paths(kid, inner))
    decreases kid, 2
  {
    if kid.Dir? {
      m := MarkFileName(kid, inner);
    } else {
      m := Leaf(kid.name, inner + kid.name);
    }
  }

  // ---- grouping

  lemma {:induction false} AddCounts(p: string, s: seq<string>, x: string)
    ensures multiset(Add(p, s))[p + x] == multiset(s)[x]
  {
    if s != [] {
      var front, last := s[..|s| - 1], s[|s| - 1];
      AddCounts(p, front, x);
      assert s == front + [last] && Add(p, s) == Add(p, front) + [p + last];
      assert p + last == p + x ==> (p + last)[|p|..] == (p + x)[|p|..];
      assert (p + last)[|p|..] == last && (p + x)[|p|..] == x;
    }
  }

  lemma AddIsInjective(p: string, s: seq<string>, t: seq<string>)
    requires multiset(Add(p, s)) == multiset(Add(p, t))
    ensures multiset(s) == multiset(t)
  {
    forall x
      ensures multiset(s)[x] == multiset(t)[x]
    {
      AddCounts(p, s, x);
      AddCounts(p, t, x);
    }
  }

  lemma AddStaysRising(p: string, s: seq<string>)
    requires Rising(s)
    ensures Rising(Add(p, s))
  {
    forall i, j | 0 <= i < j < |s|
      ensures AtMost(Add(p, s)[i], Add(p, s)[j])
    {
      StripPrefix(p, s[i], s[j]);
    }
  }

  // The dot and slash are taken off the root again.
  lemma Unrooted(t: Tree, files: seq<string>)
    requires Rooted(t) && multiset(Paths(t, "")) == multiset(Add("./", files))
    ensures multiset(Paths(Dir(t.name[2..], t.children), "")) == multiset(files)
  {
    var bare := Dir(t.name[2..], t.children);
    PrefixPaths(bare, "./", "");
    assert "./" + "" == "./" && "./" + t.name[2..] == "" + t.name;
    AddIsInjective("./", Paths(bare, ""), files);
  }

  /**
   tags-tree-group-file-by-name: the leaves are marked with exactly the files, and no directory
   has two nodes among siblings. Without a file there is no tree to rename, which is an error.
   */
  method GroupFileByName(files: seq<string>, defaultDirectory: string) returns (r: Option<Marked>)
    ensures r == None <==> files == []
    ensures r.Some? ==> multiset(Leaves(r.value)) == multiset(files) && Unsplit(r.value)
    ensures r.Some? ==> r.value.Group?
    ensures r.Some? ==>
      exists root ::
        Named(Group(root, r.value.children), "") && r.value.name == if root == "" then defaultDirectory else root
  {
    var sorted := InOrder(files);
    if sorted == [] {
      assert |multiset(files)| == 0;
      return None;
    }
    AddStaysRising("./", sorted);
    var t := Build(Add("./", sorted));
    Unrooted(t, sorted);
    var m := MarkChildren(t);
    assert m == Group(m.name, m.children);
    r := Some(Group(if m.name == "" then defaultDirectory else m.name, m.children));
  }

  // The root without the dot and slash, marked.
  method MarkChildren(t: Tree) returns (m: Marked)
    requires Rooted(t) && Ordered(t)
    ensures m.Group? && m.name == t.name[2..] && Named(m, "") && Unsplit(m)
    ensures multiset(Leaves(m)) == multiset(Paths(Dir(t.name[2..], t.children), ""))
  {
    var inner := "" + t.name[2..];
    var kids := Rearrange(t.children, inner);
    var ms := MarkAll(t, kids, inner);
    m := Group(t.name[2..], ms);
    UnsplitFrom(kids, m);
  }

  // ---- when the order matters

  lemma DirPartIs(s: string, d: string)
    requires d <= s && (d != "" ==> d[|d| - 1] == '/') && '/' !in s[|d|..]
    ensures DirPart(s) == d
  {
    var e := DirPart(s);
    assert d != "" ==> s[|d| - 1] == '/';
    forall k | |d| <= k < |s|
      ensures s[k] != '/'
    {
      assert s[|d|..][k - |d|] == s[k];
    }
    forall k | |e| <= k < |s|
      ensures s[k] != '/'
    {
      assert s[|e|..][k - |e|] == s[k];
    }
  }

  lemma FirstMerges()
    ensures Merge(Sprout("./a/x"), "./b") == Dir("./", [File("b"), Dir("a/", [File("x")])])
  {
    hide DirPart, Common;
    DirPartIs("./a/x", "./a/");
    CommonIsLongest("./a/", "./b", 2);
    DirPartIs("./", "./");
    DirPartIs("b", "");
  }

  lemma LastMerge(ts: seq<Tree>)
    requires ts != [] && ts[0].File?
    ensures Merge(Dir("./", ts), "./a/y") == Dir("./", [Dir("a/", [File("y")])] + ts)
  {
    hide DirPart, Common;
    CommonIsLongest("./", "./a/y", 2);
    DirPartIs("./", "./");
    DirPartIs("a/y", "a/");
  }

  /** Merged out of order, a directory is split over two nodes. */
  lemma OutOfOrderSplits()
    ensures var t := Merge(Merge(Sprout("./a/x"), "./b"), "./a/y");
      t == Dir("./", [Dir("a/", [File("y")]), File("b"), Dir("a/", [File("x")])]) && !Apart(t.children)
  {
    hide DirPart, Common, First, Merge, Sprout;
    FirstMerges();
    var ts := [File("b"), Dir("a/", [File("x")])];
    LastMerge(ts);
    var all := [Dir("a/", [File("y")]), File("b"), Dir("a/", [File("x")])];
    assert [Dir("a/", [File("y")])] + ts == all;
    assert all[0].Dir? && all[2].Dir? && First(all[0].name) == First(all[2].name);
  }
}
