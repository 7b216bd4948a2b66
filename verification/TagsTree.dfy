/**
 tags-tree.el, file grouping: files are merged one by one into a tree of directories whose
 chains of single directories are compressed into one node. The option icase is not modelled.
 */
module TagsTree {
  import opened Lexicographic

  // A list whose head names a directory (nil is the empty name), or the name of a file.
  datatype Tree = Dir(name: string, children: seq<Tree>) | File(name: string)

  // ---- names

  // file-name-directory; nil is the empty string
  function DirPart(s: string): (d: string)
    ensures d <= s && (d != "" ==> d[|d| - 1] == '/')
    ensures '/' !in s[|d|..]
    ensures d == "" <==> '/' !in s
  {
    if s == "" then ""
    else if s[|s| - 1] == '/' then s
    else
      assert s == s[..|s| - 1] + [s[|s| - 1]];
      DirPart(s[..|s| - 1])
  }

  // The longest common prefix.
  function Common(a: string, b: string): (c: string)
    ensures c <= a && c <= b
    ensures |c| == |a| || |c| == |b| || a[|c|] != b[|c|]
  {
    if a == "" || b == "" || a[0] != b[0] then "" else [a[0]] + Common(a[1..], b[1..])
  }

  // tags-tree-common-string
  method CommonString(s1: string, s2: string) returns (c: string)
    ensures c == Common(s1, s2)
  {
    var i := 0;
    var len := if |s1| < |s2| then |s1| else |s2|;
    while i < len && s1[i] == s2[i]
      invariant 0 <= i <= len && s1[..i] == s2[..i]
    {
      i := i + 1;
    }
    CommonIsLongest(s1, s2, i);
    c := s1[0..i];
  }

  lemma {:induction false} CommonIsLongest(a: string, b: string, i: nat)
    requires i <= |a| && i <= |b| && a[..i] == b[..i]
    requires i == |a| || i == |b| || a[i] != b[i]
    ensures Common(a, b) == a[..i]
  {
    if i > 0 {
      assert a[0] == a[..i][0] == b[..i][0] == b[0];
      assert a[1..][..i - 1] == a[..i][1..] == b[..i][1..] == b[1..][..i - 1];
      CommonIsLongest(a[1..], b[1..], i - 1);
    }
  }

  // tags-tree-common-path
  function CommonPath(a: string, b: string): (d: string)
    ensures d <= a && d <= b
  {
    DirPart(Common(a, b))
  }

  // ---- merging

  // tags-tree-parse-file
  function Parse(file: string): Tree {
    var dir := DirPart(file);
    if dir == "" then File(file) else Dir(dir, [File(file[|dir|..])])
  }

  // tags-tree-merge-file, for a tree that is not nil
  function Merge(t: Tree, file: string): (r: Tree)
    requires t.Dir?
    ensures r.Dir? && r.name == CommonPath(t.name, file)
    decreases t
  {
    var common := CommonPath(t.name, file);
    var re1, re2 := t.name[|common|..], file[|common|..];
    if re1 == "" then
      if t.children != [] && t.children[0].Dir? && CommonPath(t.children[0].name, re2) != "" then
        Dir(common, [Merge(t.children[0], re2)] + t.children[1..])
      else
        Dir(common, [Parse(re2)] + t.children)
    else
      Dir(common, [Parse(re2), Dir(re1, t.children)])
  }

  // ... and for nil
  function Sprout(file: string): Tree {
    Dir(DirPart(file), [File(file[|DirPart(file)|..])])
  }

  // ---- the leaves

  // The full names of the files below, with the prefix in front of each.
  function Paths(t: Tree, prefix: string): seq<string>
    decreases t, 0
  {
    match t
    case File(name) => [prefix + name]
    case Dir(name, children) => PathsOf(children, prefix + name)
  }

  function PathsOf(ts: seq<Tree>, prefix: string): seq<string>
    decreases ts, 1
  {
    if ts == [] then [] else Paths(ts[0], prefix) + PathsOf(ts[1..], prefix)
  }

  lemma ParseHasOne(file: string, prefix: string)
    ensures Paths(Parse(file), prefix) == [prefix + file]
  {
    var dir := DirPart(file);
    if dir != "" {
      var rest := file[|dir|..];
      assert prefix + dir + rest == prefix + file;
      assert PathsOf([File(rest)], prefix + dir) == Paths(File(rest), prefix + dir) + PathsOf([], prefix + dir);
    }
  }

  lemma PathsOfCons(t: Tree, ts: seq<Tree>, prefix: string)
    ensures PathsOf([t] + ts, prefix) == Paths(t, prefix) + PathsOf(ts, prefix)
  {
    assert ([t] + ts)[1..] == ts;
  }

  lemma ParsedFirst(file: string, ts: seq<Tree>, prefix: string)
    ensures multiset(PathsOf([Parse(file)] + ts, prefix)) == multiset(PathsOf(ts, prefix)) + multiset{prefix + file}
  {
    hide Parse, Paths;
    ParseHasOne(file, prefix);
    PathsOfCons(Parse(file), ts, prefix);
  }

  lemma FirstGrows(first: Tree, more: Tree, rest: seq<Tree>, prefix: string, path: string)
    requires multiset(Paths(more, prefix)) == multiset(Paths(first, prefix)) + multiset{path}
    ensures multiset(PathsOf([more] + rest, prefix)) == multiset(PathsOf([first] + rest, prefix)) + multiset{path}
  {
    hide Paths;
    PathsOfCons(more, rest, prefix);
    PathsOfCons(first, rest, prefix);
  }

  // The node is split above its old children.
  lemma SplitKeeps(re1: string, children: seq<Tree>, prefix: string)
    ensures PathsOf([Dir(re1, children)], prefix) == PathsOf(children, prefix + re1)
  {
    PathsOfCons(Dir(re1, children), [], prefix);
    assert [Dir(re1, children)] + [] == [Dir(re1, children)];
  }

  /** In whatever order files come: a merge adds the leaf of the file, and neither loses nor changes another. */
  lemma {:induction false} MergeAddsOne(t: Tree, file: string, prefix: string)
    requires t.Dir?
    ensures multiset(Paths(Merge(t, file), prefix)) == multiset(Paths(t, prefix)) + multiset{prefix + file}
    decreases t
  {
    hide DirPart, Common, CommonPath, Parse, PathsOf;
    var common := CommonPath(t.name, file);
    var re1, re2 := t.name[|common|..], file[|common|..];
    var inner := prefix + common;
    assert inner + re2 == prefix + file && t.name == common + re1;
    assert inner + re1 == prefix + t.name;
    if re1 != "" {
      ParsedFirst(re2, [Dir(re1, t.children)], inner);
      SplitKeeps(re1, t.children, inner);
      assert [Parse(re2)] + [Dir(re1, t.children)] == [Parse(re2), Dir(re1, t.children)];
    } else if t.children != [] && t.children[0].Dir? && CommonPath(t.children[0].name, re2) != "" {
      var first, rest := t.children[0], t.children[1..];
      MergeAddsOne(first, re2, inner);
      FirstGrows(first, Merge(first, re2), rest, inner, inner + re2);
      assert t.children == [first] + rest && t.name == common;
    } else {
      assert t.name == common;
      ParsedFirst(re2, t.children, inner);
    }
  }
}
