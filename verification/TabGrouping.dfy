/**
 tabbar.el, buffer groups on values: the buffers of a group after an incremental update,
 and why they are the buffers that grouping from scratch would put there.
 */
module TabGrouping {
  import opened Optional
  import opened TabSets

  // One element of tabbar--buffers.
  datatype Entry = Entry(buffer: Buffer, name: string, groups: seq<string>)

  ghost predicate OneEach(bl: seq<Entry>) {
    forall i, j :: 0 <= i < j < |bl| ==> bl[i].buffer != bl[j].buffer
  }

  ghost predicate NoRepeats(s: seq<Buffer>) {
    forall i, j :: 0 <= i < j < |s| ==> s[i] != s[j]
  }

  // The entry of a buffer: assq
  function Find(bl: seq<Entry>, b: Buffer): (e: Option<Entry>)
    ensures e.Some? ==> e.value in bl && e.value.buffer == b
    ensures e == None ==> forall f :: f in bl ==> f.buffer != b
  {
    if bl == [] then None else if bl[0].buffer == b then Some(bl[0]) else Find(bl[1..], b)
  }

  // The buffer still exists and is still in the group.
  predicate Keep(bl: seq<Entry>, g: string, b: Buffer) {
    var e := Find(bl, b);
    e.Some? && g in e.value.groups
  }

  lemma KeepIsMembership(bl: seq<Entry>, g: string, e: Entry)
    requires OneEach(bl) && e in bl
    ensures Find(bl, e.buffer) == Some(e)
    ensures Keep(bl, g, e.buffer) <==> g in e.groups
  {
    var f := Find(bl, e.buffer).value;
    var i :| 0 <= i < |bl| && bl[i] == e;
    var j :| 0 <= j < |bl| && bl[j] == f;
    assert i == j;
  }

  // Grouping from scratch: the buffers of the group, in list order.
  function Wanted(bl: seq<Entry>, g: string): seq<Buffer> {
    if bl == [] then []
    else Wanted(bl[..|bl| - 1], g) + if g in bl[|bl| - 1].groups then [bl[|bl| - 1].buffer] else []
  }

  // What the first loop of tabbar-buffer-update-groups does with one buffer, and with all of them.
  function Joined(s: seq<Buffer>, e: Entry, g: string): seq<Buffer> {
    if g in e.groups && e.buffer !in s then s + [e.buffer] else s
  }

  function Grown(s: seq<Buffer>, bl: seq<Entry>, g: string): seq<Buffer> {
    if bl == [] then s else Joined(Grown(s, bl[..|bl| - 1], g), bl[|bl| - 1], g)
  }

  // What the second loop keeps.
  function Kept(s: seq<Buffer>, bl: seq<Entry>, g: string): seq<Buffer> {
    if s == [] then []
    else Kept(s[..|s| - 1], bl, g) + if Keep(bl, g, s[|s| - 1]) then [s[|s| - 1]] else []
  }

  function Newcomers(s: seq<Buffer>, bl: seq<Entry>, g: string): seq<Buffer> {
    if bl == [] then []
    else
      var e := bl[|bl| - 1];
      Newcomers(s, bl[..|bl| - 1], g) + if g in e.groups && e.buffer !in s then [e.buffer] else []
  }

  // The group after the update: the old buffers that stay, in their order, then the new ones in list order.
  function Regrouped(s: seq<Buffer>, bl: seq<Entry>, g: string): seq<Buffer> {
    Kept(s, bl, g) + Newcomers(s, bl, g)
  }

  lemma {:induction false} WantedMembers(bl: seq<Entry>, g: string, b: Buffer)
    ensures b in Wanted(bl, g) <==> exists e :: e in bl && e.buffer == b && g in e.groups
  {
    if bl != [] {
      var last := bl[|bl| - 1];
      WantedMembers(bl[..|bl| - 1], g, b);
      assert bl == bl[..|bl| - 1] + [last];
      if e :| e in bl && e.buffer == b && g in e.groups {
        assert e == last || e in bl[..|bl| - 1];
      }
    }
  }

  lemma {:induction false} NewcomersMembers(s: seq<Buffer>, bl: seq<Entry>, g: string, b: Buffer)
    ensures b in Newcomers(s, bl, g) <==> b !in s && b in Wanted(bl, g)
  {
    if bl != [] {
      NewcomersMembers(s, bl[..|bl| - 1], g, b);
    }
  }

  lemma {:induction false} KeptMembers(s: seq<Buffer>, bl: seq<Entry>, g: string, b: Buffer)
    ensures b in Kept(s, bl, g) <==> b in s && Keep(bl, g, b)
  {
    if s != [] {
      KeptMembers(s[..|s| - 1], bl, g, b);
      assert s == s[..|s| - 1] + [s[|s| - 1]];
    }
  }

  lemma FrontIsOneEach(bl: seq<Entry>)
    requires OneEach(bl) && bl != []
    ensures OneEach(bl[..|bl| - 1])
    ensures forall e :: e in bl[..|bl| - 1] ==> e.buffer != bl[|bl| - 1].buffer
  {
  }

  lemma NotYetWanted(bl: seq<Entry>, g: string)
    requires OneEach(bl) && bl != []
    ensures bl[|bl| - 1].buffer !in Wanted(bl[..|bl| - 1], g)
  {
    FrontIsOneEach(bl);
    WantedMembers(bl[..|bl| - 1], g, bl[|bl| - 1].buffer);
  }

  lemma {:induction false} WantedNoRepeats(bl: seq<Entry>, g: string)
    requires OneEach(bl)
    ensures NoRepeats(Wanted(bl, g))
  {
    if bl != [] {
      FrontIsOneEach(bl);
      WantedNoRepeats(bl[..|bl| - 1], g);
      NotYetWanted(bl, g);
    }
  }

  // The first loop appends exactly the newcomers.
  lemma {:induction false} GrownIsAppended(s: seq<Buffer>, bl: seq<Entry>, g: string)
    requires OneEach(bl)
    ensures Grown(s, bl, g) == s + Newcomers(s, bl, g)
  {
    if bl == [] {
      assert s + [] == s;
    } else {
      var front, b := bl[..|bl| - 1], bl[|bl| - 1].buffer;
      FrontIsOneEach(bl);
      GrownIsAppended(s, front, g);
      NotYetWanted(bl, g);
      NewcomersMembers(s, front, g, b);
      assert s + Newcomers(s, front, g) + [b] == s + (Newcomers(s, front, g) + [b]);
    }
  }

  lemma {:induction false} KeptAppends(s: seq<Buffer>, t: seq<Buffer>, bl: seq<Entry>, g: string)
    ensures Kept(s + t, bl, g) == Kept(s, bl, g) + Kept(t, bl, g)
  {
    if t == [] {
      assert s + t == s;
    } else {
      var front := t[..|t| - 1];
      KeptAppends(s, front, bl, g);
      assert (s + t)[..|s + t| - 1] == s + front;
      assert (s + t)[|s + t| - 1] == t[|t| - 1];
    }
  }

  lemma {:induction false} AllKept(s: seq<Buffer>, bl: seq<Entry>, g: string)
    requires forall b :: b in s ==> Keep(bl, g, b)
    ensures Kept(s, bl, g) == s
  {
    if s != [] {
      AllKept(s[..|s| - 1], bl, g);
      assert s == s[..|s| - 1] + [s[|s| - 1]];
    }
  }

  lemma KeepIsWanted(bl: seq<Entry>, g: string, b: Buffer)
    requires OneEach(bl)
    ensures Keep(bl, g, b) <==> b in Wanted(bl, g)
  {
    WantedMembers(bl, g, b);
    if b in Wanted(bl, g) {
      var e :| e in bl && e.buffer == b && g in e.groups;
      KeepIsMembership(bl, g, e);
    }
  }

  /**
   Growing the group and then removing what does not belong is the same as keeping what belongs and
   appending the newcomers.
   */
  lemma UpdateIsRegrouping(s: seq<Buffer>, bl: seq<Entry>, g: string)
    requires OneEach(bl)
    ensures Kept(Grown(s, bl, g), bl, g) == Regrouped(s, bl, g)
  {
    var added := Newcomers(s, bl, g);
    GrownIsAppended(s, bl, g);
    KeptAppends(s, added, bl, g);
    forall b | b in added
      ensures Keep(bl, g, b)
    {
      NewcomersMembers(s, bl, g, b);
      KeepIsWanted(bl, g, b);
    }
    AllKept(added, bl, g);
  }

  lemma RegroupedMembers(s: seq<Buffer>, bl: seq<Entry>, g: string, b: Buffer)
    requires OneEach(bl)
    ensures b in Regrouped(s, bl, g) <==> b in Wanted(bl, g)
  {
    KeptMembers(s, bl, g, b);
    NewcomersMembers(s, bl, g, b);
    KeepIsWanted(bl, g, b);
  }

  lemma {:induction false} SameMembersSameCounts(s: seq<Buffer>, t: seq<Buffer>)
    requires NoRepeats(s) && NoRepeats(t) && forall b :: b in s <==> b in t
    ensures multiset(s) == multiset(t)
  {
    forall b
      ensures multiset(s)[b] == multiset(t)[b]
    {
      CountOfOne(s, b);
      CountOfOne(t, b);
    }
  }

  lemma {:induction false} CountOfOne(s: seq<Buffer>, b: Buffer)
    requires NoRepeats(s)
    ensures multiset(s)[b] == if b in s then 1 else 0
  {
    if s != [] {
      var front := s[..|s| - 1];
      CountOfOne(front, b);
      assert s == front + [s[|s| - 1]];
    }
  }

  lemma {:induction false} KeptNoRepeats(s: seq<Buffer>, bl: seq<Entry>, g: string)
    requires NoRepeats(s)
    ensures NoRepeats(Kept(s, bl, g))
  {
    if s != [] {
      KeptNoRepeats(s[..|s| - 1], bl, g);
      KeptMembers(s[..|s| - 1], bl, g, s[|s| - 1]);
    }
  }

  lemma {:induction false} NewcomersNoRepeats(s: seq<Buffer>, bl: seq<Entry>, g: string)
    requires OneEach(bl)
    ensures NoRepeats(Newcomers(s, bl, g))
  {
    if bl != [] {
      FrontIsOneEach(bl);
      NewcomersNoRepeats(s, bl[..|bl| - 1], g);
      NotYetWanted(bl, g);
      NewcomersMembers(s, bl[..|bl| - 1], g, bl[|bl| - 1].buffer);
    }
  }

  lemma ConcatNoRepeats(s: seq<Buffer>, t: seq<Buffer>)
    requires NoRepeats(s) && NoRepeats(t) && forall b :: b in s ==> b !in t
    ensures NoRepeats(s + t)
  {
    forall i, j | 0 <= i < j < |s + t|
      ensures (s + t)[i] != (s + t)[j]
    {
      if i < |s| <= j {
        assert s[i] in s && t[j - |s|] in t;
      }
    }
  }

  /**
   Whatever the group held before, without repeats, the update leaves the buffers that grouping from
   scratch gives.
   */
  lemma SameAsFromScratch(s: seq<Buffer>, bl: seq<Entry>, g: string)
    requires OneEach(bl) && NoRepeats(s)
    ensures NoRepeats(Regrouped(s, bl, g)) && multiset(Regrouped(s, bl, g)) == multiset(Wanted(bl, g))
    ensures s == [] ==> Regrouped(s, bl, g) == Wanted(bl, g)
  {
    KeptNoRepeats(s, bl, g);
    NewcomersNoRepeats(s, bl, g);
    forall b
      ensures b in Kept(s, bl, g) ==> b !in Newcomers(s, bl, g)
      ensures b in Regrouped(s, bl, g) <==> b in Wanted(bl, g)
    {
      KeptMembers(s, bl, g, b);
      NewcomersMembers(s, bl, g, b);
      RegroupedMembers(s, bl, g, b);
    }
    ConcatNoRepeats(Kept(s, bl, g), Newcomers(s, bl, g));
    WantedNoRepeats(bl, g);
    SameMembersSameCounts(Regrouped(s, bl, g), Wanted(bl, g));
    NewcomersToNothing(bl, g);
  }

  lemma {:induction false} NewcomersToNothing(bl: seq<Entry>, g: string)
    ensures Newcomers([], bl, g) == Wanted(bl, g)
  {
    if bl != [] {
      NewcomersToNothing(bl[..|bl| - 1], g);
    }
  }

  lemma FirstIsMember(s: seq<Buffer>)
    ensures s != [] ==> s[0] in s
  {
  }

  // An update with an unchanged list changes nothing.
  lemma SettledStays(s: seq<Buffer>, bl: seq<Entry>, g: string)
    requires OneEach(bl) && forall b :: b in s <==> b in Wanted(bl, g)
    ensures Regrouped(s, bl, g) == s
  {
    forall b | b in s
      ensures Keep(bl, g, b)
    {
      KeepIsWanted(bl, g, b);
    }
    AllKept(s, bl, g);
    forall b
      ensures b !in Newcomers(s, bl, g)
    {
      NewcomersMembers(s, bl, g, b);
    }
    FirstIsMember(Newcomers(s, bl, g));
  }
}
