/**
 setnu.el: the doubly linked chain of line extents that setnu-mode keeps in step with the
 buffer. Extents are Emacs overlays (the overlays the mode makes are the only ones here), line
 numbers are kept as numbers rather than formatted, and the hooks run with the mode on.
 */
module Setnu {
  import opened SetnuLines

  class Extent {
    var beg: nat
    var end: nat
    var next: Extent?        // setnu-next-extent
    var prev: Extent?        // setnu-prev-extent
    var lineNumber: nat      // line-number

    // setnu-make-setnu-extent
    constructor (beg: nat, end: nat)
      ensures this.beg == beg && this.end == end && next == null && prev == null
    {
      this.beg, this.end := beg, end;
      next, prev, lineNumber := null, null, 0;
    }
  }

  // ---- the chain

  ghost function Nth(c: seq<Extent>, k: int): Extent? {
    if 0 <= k < |c| then c[k] else null
  }

  ghost predicate Distinct(c: seq<Extent>) {
    forall i, j :: 0 <= i < j < |c| ==> c[i] != c[j]
  }

  lemma Apart(c: seq<Extent>, j: nat)
    requires Distinct(c) && j < |c|
    ensures forall k :: 0 <= k < |c| && k != j ==> c[k] != c[j]
  {
  }

  ghost predicate NextOk(c: seq<Extent>, k: int)
    requires 0 <= k < |c|
    reads c`next
  {
    c[k].next == Nth(c, k + 1)
  }

  ghost predicate PrevOk(c: seq<Extent>, k: int)
    requires 0 <= k < |c|
    reads c`prev
  {
    c[k].prev == Nth(c, k - 1)
  }

  // prev inverts next along the whole chain.
  ghost predicate Linked(c: seq<Extent>)
    reads c`next, c`prev
  {
    && (forall k :: 0 <= k < |c| ==> NextOk(c, k))
    && (forall k :: 0 <= k < |c| ==> PrevOk(c, k))
  }

  ghost predicate Numbered(c: seq<Extent>)
    reads c`lineNumber
  {
    forall k :: 0 <= k < |c| ==> c[k].lineNumber == k + 1
  }

  ghost predicate Spanned(c: seq<Extent>, s: seq<Span>)
    reads c`beg, c`end
  {
    |c| == |s| && forall k :: 0 <= k < |c| ==> c[k].beg == s[k].beg && c[k].end == s[k].end
  }

  // Linked both ways, numbered from 1, with the given spans.
  ghost predicate Proper(c: seq<Extent>, s: seq<Span>)
    reads c
  {
    Distinct(c) && Linked(c) && Numbered(c) && Spanned(c, s)
  }

  ghost function Members(c: seq<Extent>): set<Extent> {
    set e | e in c
  }

  // ---- the two renumbering loops

  // The end of the chain, and the extent as far before it as ee is before e.
  method LastInStep(start: Extent, startBack: Extent, ghost c: seq<Extent>, ghost i: nat, ghost d: nat)
    returns (e: Extent, ee: Extent)
    requires d <= i < |c| && start == c[i] && startBack == c[i - d]
    requires forall k :: i - d <= k < |c| ==> NextOk(c, k)
    ensures e == c[|c| - 1] && ee == c[|c| - 1 - d]
  {
    e, ee := start, startBack;
    ghost var j := i;
    while e.next != null
      invariant i <= j < |c| && e == c[j] && ee == c[j - d]
      decreases |c| - j
    {
      assert NextOk(c, j) && NextOk(c, j - d);
      e := e.next;
      ee := ee.next;
      j := j + 1;
    }
    assert NextOk(c, j);
  }

  /**
   The numbers of the lines after a deletion: each extent after c[b] takes the number of the
   one b - a places before it, last one first, so that every number is read before it is
   overwritten. Extents c[a+1..b] are being dropped and c[a].next already skips them.
   */
  method CopyNumbersBack(startE: Extent, first: Extent, savedNext: Extent, ghost c: seq<Extent>, ghost a: nat,
                         ghost b: nat)
    requires a < b && b + 1 < |c| && Distinct(c) && Numbered(c)
    requires startE == c[a] && first == c[b + 1] && savedNext == c[a + 1]
    requires forall k :: a < k < |c| ==> NextOk(c, k)
    requires forall k :: 0 <= k < |c| ==> PrevOk(c, k)
    modifies c`lineNumber
    ensures forall k :: 0 <= k < |c| ==> c[k].lineNumber == k + 1 - (if k <= b then 0 else b - a)
  {
    hide Distinct;
    ghost var d := b - a;
    var e: Extent?, ee: Extent? := LastInStep(first, savedNext, c, b + 1, d);
    ghost var j := |c| - 1;
    Apart(c, a);
    while e != null && ee != startE
      invariant b <= j < |c| && e == c[j] && ee == c[j - d]
      invariant forall k :: 0 <= k < |c| ==> c[k].lineNumber == k + 1 - (if k <= j then 0 else d)
      decreases j
    {
      assert PrevOk(c, j) && PrevOk(c, j - d);
      Apart(c, j);
      e.lineNumber := ee.lineNumber;
      e := e.prev;
      ee := ee.prev;
      j := j - 1;
    }
  }

  // Numbers from e = c[j] to the end of the chain, counting on from n.
  method CountOn(start: Extent?, from: nat, ghost c: seq<Extent>, ghost i: nat)
    requires i <= |c| && start == Nth(c, i) && from == i + 1 && Distinct(c) && Linked(c)
    requires forall k :: 0 <= k < i ==> c[k].lineNumber == k + 1
    modifies c`lineNumber
    ensures Numbered(c)
  {
    hide Distinct;
    ghost var j := i;
    var e, n := start, from;
    while e != null
      invariant i <= j <= |c| && e == Nth(c, j) && n == j + 1
      invariant forall k :: 0 <= k < j ==> c[k].lineNumber == k + 1
      decreases |c| - j
    {
      assert NextOk(c, j);
      Apart(c, j);
      e.lineNumber := n;
      e := e.next;
      n := n + 1;
      j := j + 1;
    }
  }

  /**
   The numbers after an insertion that made c[a+1..a+m]: each extent from c[a+1] on takes the
   number of the one m places after it, first one first, and the last m count on from there.
   */
  method CopyNumbersForth(startE: Extent, savedNext: Extent?, ghost c: seq<Extent>, ghost a: nat, ghost m: nat)
    requires m > 0 && a + m < |c| && Distinct(c) && Linked(c) && startE == c[a] && savedNext == Nth(c, a + m + 1)
    requires forall k :: 0 <= k <= a ==> c[k].lineNumber == k + 1
    requires forall k :: a + m < k < |c| ==> c[k].lineNumber == k + 1 - m
    modifies c`lineNumber
    ensures Numbered(c)
  {
    hide Distinct;
    ghost var j := a + 1;
    assert NextOk(c, a);
    var e: Extent? := startE.next;
    var ee: Extent? := savedNext;
    while ee != null
      invariant a < j && j + m <= |c| && e == Nth(c, j) && ee == Nth(c, j + m)
      invariant forall k :: 0 <= k < j ==> c[k].lineNumber == k + 1
      invariant forall k :: j <= k < |c| && k > a + m ==> c[k].lineNumber == k + 1 - m
      decreases |c| - j
    {
      assert NextOk(c, j) && NextOk(c, j + m);
      Apart(c, j);
      e.lineNumber := ee.lineNumber;
      e := e.next;
      ee := ee.next;
      j := j + 1;
    }
    assert PrevOk(c, j);
    CountOn(e, e.prev.lineNumber + 1, c, j);
  }

  // ---- positions

  function BeginningOfLine(text: string, pos: nat): (b: nat)
    requires pos <= |text|
    ensures b <= pos && (b == 0 || text[b - 1] == '\n') && forall p :: b <= p < pos ==> text[p] != '\n'
  {
    if pos == 0 || text[pos - 1] == '\n' then pos else BeginningOfLine(text, pos - 1)
  }

  function ForwardLine(text: string, pos: nat): (b: nat)
    requires pos <= |text|
    ensures pos <= b <= |text|
  {
    var q := NewlineFrom(text, pos, |text|);
    if q == |text| then q else q + 1
  }

  /**
   Whether overlays-in counts an overlay as in pos..pos+1: it holds the character at pos, or it
   is empty and at pos. Later versions of Emacs also count an empty overlay at pos+1 if that is
   the end of the buffer (emptyAtEnd).
   */
  predicate Overlaps(text: string, s: Span, pos: nat, emptyAtEnd: bool) {
    || s.beg <= pos < s.end
    || (s.beg == s.end && (s.beg == pos || (emptyAtEnd && s.beg == pos + 1 == |text|)))
  }

  // The one case in which the later rule finds two extents: at a newline that ends the buffer.
  predicate Ambiguous(text: string, pos: nat, emptyAtEnd: bool) {
    emptyAtEnd && pos + 1 == |text| && text[pos] == '\n'
  }

  lemma OverlapsItsLine(text: string, s: seq<Span>, pos: nat, emptyAtEnd: bool, i: nat)
    requires IsLines(text, s) && pos <= |text| && i < |s| && !Ambiguous(text, pos, emptyAtEnd)
    ensures Overlaps(text, s[i], pos, emptyAtEnd)
            <==> i == LineAt(text, s, pos) && (pos < |text| || s[i].beg == s[i].end)
  {
    var k := LineAt(text, s, pos);
    assert LineOk(text, s[k], k == |s| - 1);
    assert LineOk(text, s[i], i == |s| - 1);
    if i < k { Ordered(text, s, i, k); }
    if k < i { Ordered(text, s, k, i); }
    if i == |s| - 1 && i > 0 {
      assert LineOk(text, s[i - 1], false);
      assert s[i - 1].end == s[i - 1 + 1].beg;
    }
  }

  // In the last line, when it is not empty, the end of the text is found by way of the line's beginning.
  lemma EndOfTextLine(text: string, s: seq<Span>, emptyAtEnd: bool, i: nat)
    requires IsLines(text, s) && i < |s|
    ensures var k, b := |s| - 1, BeginningOfLine(text, |text|);
            && s[k].beg == b && s[k].end == |text| && LineAt(text, s, |text|) == k
            && (s[k].beg < s[k].end ==>
                  ForwardLine(text, b) == |text| && (Overlaps(text, s[i], b, emptyAtEnd) <==> i == k))
  {
    var k, b := |s| - 1, BeginningOfLine(text, |text|);
    assert LineOk(text, s[k], true);
    LineAtIsUnique(text, s, k, LineAt(text, s, |text|), |text|);
    if k > 0 {
      assert LineOk(text, s[k - 1], false);
      assert s[k - 1].end == s[k - 1 + 1].beg;
    }
    if s[k].beg < s[k].end {
      LineAtIsUnique(text, s, k, LineAt(text, s, b), b);
      OverlapsItsLine(text, s, b, emptyAtEnd, i);
    }
  }

  function GrownLines(s: seq<Span>, p: nat, n: nat): (r: seq<Span>)
    ensures |r| == |s|
    ensures forall i :: 0 <= i < |s| ==> r[i] == Span(Grown(s[i].beg, p, n), Grown(s[i].end, p, n))
  {
    seq(|s|, i requires 0 <= i < |s| => Span(Grown(s[i].beg, p, n), Grown(s[i].end, p, n)))
  }

  // Whether the text inserted at p is left out of its line's extent: an overlay does not grow at its end.
  predicate LeftOut(s: Span, p: nat) {
    s.end == p
  }

  lemma GrownIsStretched(text: string, s: seq<Span>, p: nat, n: nat)
    requires IsLines(text, s) && p <= |text|
    ensures var a, g := LineAt(text, s, p), GrownLines(s, p, n);
            && Stretched(s, g[a := Span(s[a].beg, s[a].end + n)], a, n)
            && (!LeftOut(s[a], p) ==> g[a].end == s[a].end + n)
            && p <= s[a].end && g[a].beg == s[a].beg
            && (LeftOut(s[a], p) ==> g[a] == s[a] && a == |s| - 1 && p == |text|)
  {
    var a, g := LineAt(text, s, p), GrownLines(s, p, n);
    assert LineOk(text, s[a], a == |s| - 1);
    forall i | 0 <= i < |s| && i != a
      ensures g[i] == if i < a then s[i] else Span(s[i].beg + n, s[i].end + n)
    {
      if i < a {
        Ordered(text, s, i, a);
      } else {
        Ordered(text, s, a, i);
        assert LineOk(text, s[i], i == |s| - 1);
      }
    }
  }

  // Which extents overlays-in finds at the start of the inserted text.
  lemma FoundAfterInsertion(text: string, s: seq<Span>, p: nat, inserted: string, emptyAtEnd: bool, i: nat)
    requires IsLines(text, s) && p <= |text| && inserted != "" && i < |s|
    ensures var t, g, a := text[..p] + inserted + text[p..], GrownLines(s, p, |inserted|), LineAt(text, s, p);
            if s[a].beg < s[a].end && LeftOut(s[a], p) then
              && !Overlaps(t, g[i], p, emptyAtEnd)
              && BeginningOfLine(t, p) == s[a].beg
              && (Overlaps(t, g[i], s[a].beg, emptyAtEnd) <==> i == a)
            else Overlaps(t, g[i], p, emptyAtEnd) <==> i == a
  {
    var t, g, a, n := text[..p] + inserted + text[p..], GrownLines(s, p, |inserted|), LineAt(text, s, p), |inserted|;
    GrownIsStretched(text, s, p, n);
    assert LineOk(text, s[a], a == |s| - 1);
    assert LineOk(text, s[i], i == |s| - 1);
    if i < a { Ordered(text, s, i, a); }
    if a < i { Ordered(text, s, a, i); }
    if s[a].beg < s[a].end && LeftOut(s[a], p) {
      LineBeginning(text, s, p, inserted);
    }
  }

  lemma LineBeginning(text: string, s: seq<Span>, p: nat, inserted: string)
    requires IsLines(text, s) && p == |text|
    ensures BeginningOfLine(text + inserted, p) == s[|s| - 1].beg
    ensures BeginningOfLine(text[..p] + inserted + text[p..], p) == s[|s| - 1].beg
  {
    var k := |s| - 1;
    assert LineOk(text, s[k], true);
    var t := text + inserted;
    assert t == text[..p] + inserted + text[p..];
    assert forall q :: 0 <= q < p ==> t[q] == text[q];
    if k > 0 {
      assert LineOk(text, s[k - 1], false);
      assert s[k - 1].end == s[k - 1 + 1].beg;
      assert t[s[k].beg - 1] == '\n';
    }
  }

  // ---- the mode

  class Buffer {
    var text: string
    var startExtent: Extent?      // setnu-start-extent
    var overlays: set<Extent>     // the overlays of the buffer
    const emptyAtEnd: bool        // which rule overlays-in follows

    ghost var chain: seq<Extent>
    ghost var lines: seq<Span>

    // The overlays are exactly the chain from startExtent, linked both ways and numbered from 1.
    ghost predicate Chained()
      reads this, chain
    {
      chain != [] && startExtent == chain[0] && overlays == Members(chain) && Proper(chain, lines)
    }

    /** The mode is in step with the text: the chain is what the full scan would build. */
    ghost predicate Valid()
      reads this, chain
    {
      Chained() && lines == ScanFrom(text, 0)
    }

    ghost predicate Off() reads this {
      startExtent == null && overlays == {}
    }

    constructor (text: string, emptyAtEnd: bool)
      ensures this.text == text && this.emptyAtEnd == emptyAtEnd && Off() && chain == []
    {
      this.text, this.emptyAtEnd := text, emptyAtEnd;
      startExtent, overlays, chain, lines := null, {}, [], [];
    }

    predicate Meets(e: Extent, pos: nat)
      reads this, e
    {
      Overlaps(text, Span(e.beg, e.end), pos, emptyAtEnd)
    }

    // setnu-extent-at: some extent that overlays-in finds, if there is one
    method ExtentAt(pos: nat) returns (e: Extent?)
      ensures if e != null then e in overlays && Meets(e, pos) else forall x :: x in overlays ==> !Meets(x, pos)
    {
      var found := set x | x in overlays && Meets(x, pos);
      assert forall x :: x in overlays && Meets(x, pos) ==> x in found;
      if found == {} {
        return null;
      }
      e :| e in found;
    }

    /**
     setnu-extent-at-create. Of its branches for a position without an extent only the one that
     widens the extent of the line is ever taken; those that make a new extent are dead.
     */
    method ExtentAtCreate(pos: nat, ghost k: nat, ghost x: Extent) returns (e: Extent)
      requires pos <= |text| && k < |chain| && x == chain[k] && overlays == Members(chain)
      requires || (forall i :: 0 <= i < |chain| ==> (Meets(chain[i], pos) <==> i == k))
               || ((forall i :: 0 <= i < |chain| ==> !Meets(chain[i], pos)) &&
                   (forall i :: 0 <= i < |chain| ==> (Meets(chain[i], BeginningOfLine(text, pos)) <==> i == k)))
      modifies x`beg, x`end
      ensures e == x
      ensures old(Meets(x, pos)) ==> e.beg == old(x.beg) && e.end == old(x.end)
      ensures !old(Meets(x, pos)) ==>
                e.beg == BeginningOfLine(text, pos) && e.end == ForwardLine(text, BeginningOfLine(text, pos))
    {
      assert chain[k] in overlays;
      var found := ExtentAt(pos);
      if found != null {
        return found;
      }
      var beg := BeginningOfLine(text, pos);
      found := ExtentAt(beg);
      if found == null {
        assert false;
      }
      e := found;
      e.beg, e.end := beg, ForwardLine(text, beg);
    }

    // Removes the extents c[a+1..b] from the buffer, walking their next links.
    method DeleteExtents(first: Extent?, until: Extent?, ghost c: seq<Extent>, ghost i: nat, ghost j: nat)
      requires i <= j <= |c| && first == Nth(c, i) && until == Nth(c, j) && Distinct(c)
      requires forall k :: i <= k < j ==> NextOk(c, k)
      modifies this`overlays
      ensures overlays == old(overlays) - Members(c[i..j])
    {
      ghost var k := i;
      var e: Extent? := first;
      assert c[i..i] == [];
      while e != until
        invariant i <= k <= j && e == Nth(c, k)
        invariant overlays == old(overlays) - Members(c[i..k])
        decreases j - k
      {
        assert NextOk(c, k);
        var ee := e;
        e := e.next;
        overlays := overlays - {ee};
        assert c[i..k + 1] == c[i..k] + [c[k]];
        k := k + 1;
      }
    }

    // setnu-mode-off
    method ModeOff()
      requires Valid()
      modifies this
      ensures Off() && chain == [] && text == old(text)
    {
      if startExtent != null {
        assert forall k :: 0 <= k < |chain| ==> NextOk(chain, k);
        DeleteExtents(startExtent, null, chain, 0, |chain|);
        assert chain[0..|chain|] == chain;
        startExtent := null;
      }
      chain, lines := [], [];
    }

    // The chain as far as setnu-mode-on has built it.
    ghost predicate Built()
      reads this, chain
    {
      startExtent == Nth(chain, 0) && overlays == Members(chain) && Proper(chain, lines)
    }

    // Links a new extent after the last one and numbers it.
    method Append(currE: Extent?, e: Extent, n: nat)
      requires Built() && e !in chain && e.next == null && e.prev == null
      requires currE == Nth(chain, |chain| - 1) && n == |chain| + 1
      modifies this, Members(chain), e
      ensures Built() && chain == old(chain) + [e] && lines == old(lines) + [Span(old(e.beg), old(e.end))]
      ensures text == old(text)
    {
      hide Distinct;
      ghost var c := chain;
      if |c| > 0 { Apart(c, |c| - 1); }
      overlays := overlays + {e};
      if startExtent == null {
        startExtent := e;
      } else {
        currE.next := e;
        e.prev := currE;
      }
      e.lineNumber := n;
      chain, lines := chain + [e], lines + [Span(e.beg, e.end)];
      forall k | 0 <= k < |chain|
        ensures NextOk(chain, k) && PrevOk(chain, k)
      {
        if k < |c| {
          assert old(NextOk(c, k)) && old(PrevOk(c, k));
        }
      }
      DistinctAppends(c, e);
    }

    // setnu-mode-on
    method ModeOn()
      requires Off()
      modifies this
      ensures Valid() && text == old(text) && fresh(Members(chain))
    {
      hide Proper, NewlineFrom, ScanFrom;
      EmptyChain();
      ghost var all := ScanFrom(text, 0);
      ghost var rest := all;
      chain, lines := [], [];
      var done := false;
      var currE: Extent? := null;
      var n := 1;
      var start := 0;
      while !done
        invariant text == old(text) && fresh(Members(chain)) && |chain| == |lines| == n - 1
        invariant Built() && currE == Nth(chain, n - 2) && (done ==> n > 1)
        invariant start <= |text| && lines + rest == all && rest == if done then [] else ScanFrom(text, start)
        decreases if done then 0 else 1 + |text| - start
      {
        var q := NewlineFrom(text, start, |text|);
        done := q == |text|;
        var point := if done then q else q + 1;
        var e := new Extent(start, point);
        ScanStep(text, start);
        rest := if done then [] else ScanFrom(text, point);
        Regroup(lines, Span(start, point), rest);
        assert forall x :: x in Members(chain + [e]) ==> x in Members(chain) || x == e;
        Append(currE, e, n);
        currE := e;
        n := n + 1;
        start := point;
      }
    }

    // ---- deletion

    /**
     The part of setnu-before-change-function that runs when the deletion takes a newline away:
     the extent of the first line is stretched to the end of the last, the lines after it are
     renumbered, and the extents between are deleted.
     */
    method Splice(startE: Extent, endE: Extent, ghost a: nat, ghost b: nat)
      requires Chained() && a < b < |chain| && startE == chain[a] && endE == chain[b]
      modifies this, Members(chain)
      ensures Chained() && text == old(text) && lines == Merged(old(lines), a, b)
      ensures chain == old(chain)[..a + 1] + old(chain)[b + 1..]
    {
      hide Proper, Distinct, NextOk, PrevOk, Merged;
      ghost var c, s := chain, lines;
      NextInChain(c, s, a);
      var savedNext := startE.next;
      Relink(startE, endE, savedNext, c, s, a, b);
      var newNext := startE.next;
      DeleteExtents(savedNext, newNext, c, a + 1, b + 1);
      chain, lines := c[..a + 1] + c[b + 1..], Merged(lines, a, b);
      SplicedMembers(c, a, b);
    }

    /**
     The lines of both ends of a deletion can be told apart from the empty line at the end of
     the buffer. Only the later overlays-in rule can fail this, for a deletion that takes a
     newline away and starts or ends just before the final newline.
     */
    predicate Clear(start: nat, end: nat)
      requires start <= end <= |text|
      reads this
    {
      ClearDeletion(text, start, end, emptyAtEnd)
    }

    // setnu-extent-at-create before a change
    method LineExtent(pos: nat, ghost k: nat, ghost x: Extent) returns (e: Extent)
      requires Valid() && pos <= |text| && !Ambiguous(text, pos, emptyAtEnd)
      requires IsLines(text, lines) && k == LineAt(text, lines, pos) && |chain| == |lines| && x == chain[k]
      modifies x`beg, x`end
      ensures e == x && e.beg == old(x.beg) && e.end == old(x.end)
    {
      hide Linked, Numbered, Distinct;
      assert Spanned(chain, lines);
      forall i | 0 <= i < |chain|
        ensures Meets(chain[i], pos) <==> i == k && (pos < |text| || lines[i].beg == lines[i].end)
        ensures pos == |text| && lines[k].beg < lines[k].end ==>
                  (Meets(chain[i], BeginningOfLine(text, pos)) <==> i == k)
      {
        OverlapsItsLine(text, lines, pos, emptyAtEnd, i);
        EndOfTextLine(text, lines, emptyAtEnd, i);
      }
      EndOfTextLine(text, lines, emptyAtEnd, 0);
      hide Overlaps;
      e := ExtentAtCreate(pos, k, x);
    }

    /**
     setnu-before-change-function: before text[start..end] is deleted, the lines of start and
     end become one, and the lines between are dropped.
     */
    method BeforeChange(start: nat, end: nat, ghost a: nat, ghost b: nat)
      requires Valid() && start <= end <= |text| && Clear(start, end)
      requires IsLines(text, lines) && a == LineAt(text, lines, start) && b == LineAt(text, lines, end)
      requires a <= b && |chain| == |lines|
      modifies this, Members(chain)
      ensures Chained() && text == old(text) && lines == Merged(old(lines), a, b)
      ensures chain == old(chain)[..a + 1] + old(chain)[b + 1..]
    {
      hide Proper;
      NewlineSeparates(text, lines, a, b, start, end);
      if start == end || NewlineFrom(text, start, end) == end {
        assert lines == Merged(lines, a, b);
        assert chain == chain[..a + 1] + chain[b + 1..];
        return;
      }
      var startE := LineExtent(start, a, chain[a]);
      assert Chained();
      var endE := LineExtent(end, b, chain[b]);
      Splice(startE, endE, a, b);
    }

    // Emacs removes text[start..end], and the overlays shrink with it.
    method RemoveText(start: nat, end: nat)
      requires Chained() && start <= end <= |text|
      modifies this, Members(chain)
      ensures Chained() && text == old(text[..start] + text[end..])
      ensures chain == old(chain) && lines == ShrunkLines(old(lines), start, end)
    {
      hide Distinct, Linked, Numbered, Shrunk;
      forall e | e in overlays {
        e.beg := Shrunk(e.beg, start, end);
      }
      forall e | e in overlays {
        e.end := Shrunk(e.end, start, end);
      }
      text := text[..start] + text[end..];
      lines := ShrunkLines(lines, start, end);
    }

    /** A deletion: the hook runs, then the text goes. The chain is again what the full scan would build. */
    method Delete(start: nat, end: nat)
      requires Valid() && start <= end <= |text| && Clear(start, end)
      modifies this, Members(chain)
      ensures Valid() && text == old(text[..start] + text[end..])
      ensures Members(chain) <= old(Members(chain))
    {
      hide Proper, ShrunkLines, Merged;
      ScanFindsLines(text, 0, lines);
      SpannedLength(chain, lines);
      ghost var s, a, b := lines, LineAt(text, lines, start), LineAt(text, lines, end);
      NewlineSeparates(text, s, a, b, start, end);
      BeforeChange(start, end, a, b);
      DeletionLines(text, s, a, b, start, end);
      RemoveText(start, end);
      ScanFindsLines(text, 0, lines);
    }

    // ---- insertion

    // Emacs inserts text at p; an overlay that ends at p does not take it in.
    method InsertText(p: nat, inserted: string)
      requires Chained() && p <= |text|
      modifies this, Members(chain)
      ensures Chained() && text == old(text[..p]) + inserted + old(text[p..])
      ensures chain == old(chain) && lines == GrownLines(old(lines), p, |inserted|)
    {
      hide Distinct, Linked, Numbered, Grown;
      forall e | e in overlays {
        e.beg := Grown(e.beg, p, |inserted|);
      }
      forall e | e in overlays {
        e.end := Grown(e.end, p, |inserted|);
      }
      text := text[..p] + inserted + text[p..];
      lines := GrownLines(lines, p, |inserted|);
    }

    // setnu-extent-at-create after an insertion
    method InsertedExtent(ghost before: string, ghost s: seq<Span>, p: nat, inserted: string, ghost a: nat,
                          ghost x: Extent)
      returns (e: Extent)
      requires Chained() && p <= |before| && inserted != "" && text == before[..p] + inserted + before[p..]
      requires IsLines(before, s) && lines == GrownLines(s, p, |inserted|) && a == LineAt(before, s, p)
      requires |chain| == |s| && x == chain[a]
      modifies x`beg, x`end
      ensures e == x && e.beg == s[a].beg
      ensures if LeftOut(s[a], p) then e.end <= p + |inserted| else e.end == s[a].end + |inserted|
    {
      hide Linked, Numbered, Distinct;
      assert Spanned(chain, lines);
      forall i | 0 <= i < |chain|
        ensures if s[a].beg < s[a].end && LeftOut(s[a], p) then
                  && !Meets(chain[i], p) && BeginningOfLine(text, p) == s[a].beg
                  && (Meets(chain[i], s[a].beg) <==> i == a)
                else Meets(chain[i], p) <==> i == a
      {
        FoundAfterInsertion(before, s, p, inserted, emptyAtEnd, i);
      }
      GrownIsStretched(before, s, p, |inserted|);
      hide Overlaps, GrownLines;
      e := ExtentAtCreate(p, a, x);
    }

    // Ends the extent e at q, after a newline, and starts a new one there.
    method StartPiece(e: Extent, q: nat, ghost made: seq<Extent>, ghost pieces: seq<Span>)
      returns (ee: Extent, ghost pieces': seq<Span>)
      requires InPieces(made, pieces) && e == made[|made| - 1] && made[|made| - 1] in overlays
      modifies this`overlays, e`end, e`next
      ensures fresh(ee) && overlays == old(overlays) + {ee}
      ensures pieces' == pieces[|pieces| - 1 := Span(pieces[|pieces| - 1].beg, q)] + [Span(q, q)]
      ensures InPieces(made + [ee], pieces')
    {
      hide Distinct;
      Apart(made, |made| - 1);
      e.end := q;
      ee := new Extent(q, q);
      overlays := overlays + {ee};
      e.next := ee;
      ee.prev := e;
      pieces' := pieces[|pieces| - 1 := Span(pieces[|pieces| - 1].beg, q)] + [Span(q, q)];
      DistinctAppends(made, ee);
    }

    /**
     Splits the extent that the inserted text is in: the search for newlines goes through
     text[start..end], and each one found ends an extent and starts a new one.
     */
    method MakePieces(startE: Extent, start: nat, end: nat)
      returns (e: Extent, ghost made: seq<Extent>, ghost pieces: seq<Span>)
      requires startE.beg <= start <= end <= |text| && startE in overlays
      requires forall p :: startE.beg <= p < start ==> text[p] != '\n'
      modifies this`overlays, startE`end, startE`next
      ensures InPieces(made, pieces) && made[0] == startE && e == made[|made| - 1]
      ensures overlays == old(overlays) + Members(made)
      ensures fresh(Members(made) - {startE})
      ensures |made| == 1 ==> startE.next == old(startE.next) && startE.end == old(startE.end)
      ensures SplitsUpTo(text, pieces, startE.beg, end)
    {
      e := startE;
      made, pieces := [startE], [Span(startE.beg, startE.beg)];
      FirstPiece(text, startE, start);
      hide NewlineFrom, LineOk, InPieces, SplitsUpTo;
      var point := NewlineFrom(text, start, end);
      SplitsLonger(text, pieces, startE.beg, start, point);
      while point < end
        invariant start <= point <= end && (point < end ==> text[point] == '\n')
        invariant InPieces(made, pieces) && made[0] == startE && e == made[|made| - 1]
        invariant overlays == old(overlays) + Members(made)
        invariant fresh(Members(made) - {startE})
        invariant |made| == 1 ==> startE.next == old(startE.next) && startE.end == old(startE.end)
        invariant SplitsUpTo(text, pieces, startE.beg, point)
        decreases end - point
      {
        SplitsFurther(text, pieces, startE.beg, point);
        var ee: Extent;
        PiecesLength(made, pieces);
        ghost var more;
        ee, more := StartPiece(e, point + 1, made, pieces);
        made, pieces := made + [ee], more;
        e := ee;
        point := NewlineFrom(text, point + 1, end);
      }
    }

    // The first half of setnu-after-change-function: the extent of the line at p takes in the inserted text.
    method TakeIn(ghost before: string, ghost s: seq<Span>, p: nat, inserted: string, ghost a: nat, ghost x: Extent)
      returns (startE: Extent)
      requires Chained() && p <= |before| && inserted != "" && text == before[..p] + inserted + before[p..]
      requires IsLines(before, s) && lines == GrownLines(s, p, |inserted|) && a == LineAt(before, s, p)
      requires |chain| == |s| && x == chain[a]
      modifies x`beg, x`end
      ensures startE == x && x.beg == s[a].beg && x.end == s[a].end + |inserted|
    {
      hide GrownLines, Chained, LinesFrom, Overlaps;
      GrownIsStretched(before, s, p, |inserted|);
      startE := InsertedExtent(before, s, p, inserted, a, x);
      var point := p + |inserted|;
      if startE.end < point {
        startE.end := point;
      }
    }

    method Absorb(ghost before: string, ghost s: seq<Span>, p: nat, inserted: string, ghost a: nat)
      returns (startE: Extent)
      requires Chained() && p <= |before| && inserted != "" && text == before[..p] + inserted + before[p..]
      requires IsLines(before, s) && lines == GrownLines(s, p, |inserted|) && a == LineAt(before, s, p)
      requires |chain| == |s|
      modifies this`lines, Members(chain)
      ensures Chained() && startE == chain[a] && |chain| == |s| && Stretched(s, lines, a, |inserted|)
    {
      ghost var c, g := chain, lines;
      startE := TakeIn(before, s, p, inserted, a, chain[a]);
      GrownIsStretched(before, s, p, |inserted|);
      lines := g[a := Span(s[a].beg, s[a].end + |inserted|)];
      TakenIn(c, g, lines, a);
      hide Proper, GrownLines, Stretched;
    }

    // MakePieces on an extent of the chain leaves the rest of the chain as it was.
    method Cut(startE: Extent, start: nat, end: nat, ghost a: nat)
      returns (e: Extent, ghost made: seq<Extent>, ghost pieces: seq<Span>)
      requires Chained() && a < |chain| == |lines| && startE == chain[a] && startE.beg <= start <= end <= |text|
      requires forall p :: startE.beg <= p < start ==> text[p] != '\n'
      modifies this`overlays, startE`end, startE`next
      ensures InPieces(made, pieces) && made[0] == startE && e == made[|made| - 1]
      ensures overlays == old(overlays) + Members(made) && SplitsUpTo(text, pieces, startE.beg, end)
      ensures forall i :: 1 <= i < |made| ==> fresh(made[i]) && made[i] !in chain
      ensures ProperBut(chain, lines, a)
      ensures |made| == 1 ==> startE.next == old(startE.next) && startE.end == old(startE.end)
    {
      hide Distinct, SplitsUpTo, InPieces;
      Apart(chain, a);
      assert startE in Members(chain);
      e, made, pieces := MakePieces(startE, start, end);
      PiecesApart(made, pieces);
      forall k | 0 <= k < |chain|
        ensures PrevOk(chain, k) && (k != a ==> NextOk(chain, k))
      {
        assert old(PrevOk(chain, k)) && old(NextOk(chain, k));
      }
    }

    /**
     The rest of it: the extent c[a] is split at the newlines of text[start..end], the pieces
     are linked into the chain, and the lines after the first piece are renumbered.
     */
    method SplitLine(startE: Extent, start: nat, end: nat, ghost a: nat) returns (ghost pieces: seq<Span>)
      requires Chained() && a < |chain| == |lines| && startE == chain[a] && lines[a].beg <= start <= end <= |text|
      requires forall p :: lines[a].beg <= p < start ==> text[p] != '\n'
      modifies this, Members(chain)
      ensures Chained() && text == old(text) && fresh(Members(chain) - old(Members(chain)))
      ensures lines == old(lines)[..a] + pieces + old(lines)[a + 1..] && pieces != []
      ensures SplitsUpTo(text, pieces, old(lines[a]).beg, end) && pieces[|pieces| - 1].end == old(lines[a]).end
    {
      hide Proper, ProperBut, Distinct, SplitsUpTo, InPieces;
      ghost var c, r := chain, lines;
      ProperAt(c, r, a);
      var savedNext, savedEnd := startE.next, startE.end;
      var e: Extent;
      ghost var made;
      e, made, pieces := Cut(startE, start, end, a);
      PiecesLength(made, pieces);
      if e == startE {
        OnePiece(c, r, made, pieces, a);
      } else {
        Join(startE, e, savedNext, savedEnd, c, r, a, made, pieces);
      }
      LastPieceEnd(text, pieces, r[a].beg, end, savedEnd);
      pieces := pieces[|pieces| - 1 := Span(pieces[|pieces| - 1].beg, savedEnd)];
      chain, lines := c[..a] + made + c[a + 1..], r[..a] + pieces + r[a + 1..];
      JoinedMembers(c, made, a);
    }

    /**
     setnu-after-change-function, after text was inserted at p and with point at the end of the
     insertion: the line at p takes the text in and is split at its newlines.
     */
    method AfterChange(ghost before: string, ghost s: seq<Span>, p: nat, inserted: string, ghost a: nat)
      requires Chained() && p <= |before| && text == before[..p] + inserted + before[p..]
      requires IsLines(before, s) && lines == GrownLines(s, p, |inserted|) && a == LineAt(before, s, p)
      requires |chain| == |s|
      modifies this, Members(chain)
      ensures Chained() && IsLines(text, lines) && text == old(text)
      ensures fresh(Members(chain) - old(Members(chain)))
    {
      hide Proper, GrownLines, Stretched, SplitsUpTo, LinesFrom;
      if inserted == "" {
        NothingGrows(s, p);
        assert text == before;
        return;
      }
      var startE := Absorb(before, s, p, inserted, a);
      ghost var r := lines;
      StretchedLine(before, s, p, inserted, r, a);
      ProperAt(chain, r, a);
      ghost var pieces := SplitLine(startE, p, p + |inserted|, a);
      InsertionLines(before, s, a, p, inserted, r, pieces);
    }

    /** An insertion: the text goes in, then the hook runs. The chain is again what the full scan would build. */
    method Insert(p: nat, inserted: string)
      requires Valid() && p <= |text|
      modifies this, Members(chain)
      ensures Valid() && text == old(text[..p]) + inserted + old(text[p..])
      ensures fresh(Members(chain) - old(Members(chain)))
    {
      hide Proper, GrownLines, ScanFrom, LinesFrom;
      ScanFindsLines(text, 0, lines);
      SpannedLength(chain, lines);
      ghost var before, s, a := text, lines, LineAt(text, lines, p);
      InsertText(p, inserted);
      SpannedLength(chain, lines);
      AfterChange(before, s, p, inserted, a);
      ScanFindsLines(text, 0, lines);
    }

    method Apply(e: Edit)
      requires Valid() && InRange(text, e) && (e.DeleteEdit? ==> Clear(e.start, e.end))
      modifies this, Members(chain)
      ensures Valid() && text == Edited(old(text), e) && fresh(Members(chain) - old(Members(chain)))
    {
      hide Chained, ScanFrom;
      match e {
        case DeleteEdit(start, end) => Delete(start, end);
        case InsertEdit(p, inserted) => Insert(p, inserted);
      }
    }

    /** Any run of edits leaves the chain as a full scan of the final text would build it. */
    method Run(edits: seq<Edit>)
      requires Valid() && Legal(text, edits, emptyAtEnd)
      modifies this, Members(chain)
      ensures Valid() && text == EditedAll(old(text), edits)
      ensures fresh(Members(chain) - old(Members(chain)))
    {
      hide Valid, Edited, InRange, Legal, EditedAll;
      ghost var all := EditedAll(text, edits);
      assert edits[0..] == edits;
      var i := 0;
      while i < |edits|
        invariant 0 <= i <= |edits| && Valid() && Legal(text, edits[i..], emptyAtEnd)
        invariant EditedAll(text, edits[i..]) == all
        invariant fresh(Members(chain) - old(Members(chain)))
      {
        LegalStep(text, edits, i, emptyAtEnd);
        Apply(edits[i]);
        i := i + 1;
      }
      EditedNone(text, edits);
    }
  }

  // ---- runs of edits

  datatype Edit = DeleteEdit(start: nat, end: nat) | InsertEdit(p: nat, inserted: string)

  predicate InRange(text: string, e: Edit) {
    match e
    case DeleteEdit(start, end) => start <= end <= |text|
    case InsertEdit(p, _) => p <= |text|
  }

  function Edited(text: string, e: Edit): string
    requires InRange(text, e)
  {
    match e
    case DeleteEdit(start, end) => text[..start] + text[end..]
    case InsertEdit(p, inserted) => text[..p] + inserted + text[p..]
  }

  predicate Legal(text: string, edits: seq<Edit>, emptyAtEnd: bool)
    decreases |edits|
  {
    edits == [] ||
    (InRange(text, edits[0])
     && (edits[0].DeleteEdit? ==> ClearDeletion(text, edits[0].start, edits[0].end, emptyAtEnd))
     && Legal(Edited(text, edits[0]), edits[1..], emptyAtEnd))
  }

  function EditedAll(text: string, edits: seq<Edit>): string
    decreases |edits|
  {
    if edits == [] || !InRange(text, edits[0]) then text else EditedAll(Edited(text, edits[0]), edits[1..])
  }

  lemma LegalStep(text: string, edits: seq<Edit>, i: nat, emptyAtEnd: bool)
    requires i < |edits| && Legal(text, edits[i..], emptyAtEnd)
    ensures InRange(text, edits[i])
    ensures edits[i].DeleteEdit? ==>
              edits[i].start <= edits[i].end <= |text| && ClearDeletion(text, edits[i].start, edits[i].end, emptyAtEnd)
    ensures Legal(Edited(text, edits[i]), edits[i + 1..], emptyAtEnd)
    ensures EditedAll(text, edits[i..]) == EditedAll(Edited(text, edits[i]), edits[i + 1..])
  {
    assert edits[i..][1..] == edits[i + 1..];
  }

  lemma EditedNone(text: string, edits: seq<Edit>)
    ensures EditedAll(text, edits[|edits|..]) == text
  {
  }

  // ---- deletions that the later overlays-in rule gets wrong

  predicate ClearDeletion(text: string, start: nat, end: nat, emptyAtEnd: bool)
    requires start <= end <= |text|
  {
    NewlineFrom(text, start, end) < end ==> !Ambiguous(text, start, emptyAtEnd) && !Ambiguous(text, end, emptyAtEnd)
  }

  // Line k is one that setnu-extent-at-create may return for pos.
  ghost predicate MayFind(text: string, s: seq<Span>, pos: nat, emptyAtEnd: bool, k: nat)
    requires pos <= |text|
  {
    k < |s| &&
    (|| Overlaps(text, s[k], pos, emptyAtEnd)
     || ((forall i :: 0 <= i < |s| ==> !Overlaps(text, s[i], pos, emptyAtEnd)) &&
         Overlaps(text, s[k], BeginningOfLine(text, pos), emptyAtEnd)))
  }

  // A deletion that takes a newline away leaves the right lines, whatever the hook may find at its two ends.
  ghost predicate DeletionSafe(text: string, s: seq<Span>, start: nat, end: nat, emptyAtEnd: bool)
    requires start <= end <= |text|
  {
    forall a, b :: MayFind(text, s, start, emptyAtEnd, a) && MayFind(text, s, end, emptyAtEnd, b) ==>
      a <= b && IsLines(text[..start] + text[end..], ShrunkLines(Merged(s, a, b), start, end))
  }

  lemma FindsOnlyItsLine(text: string, s: seq<Span>, pos: nat, emptyAtEnd: bool, k: nat)
    requires IsLines(text, s) && pos <= |text| && !Ambiguous(text, pos, emptyAtEnd)
    ensures MayFind(text, s, pos, emptyAtEnd, k) ==> k == LineAt(text, s, pos)
  {
    if k < |s| {
      OverlapsItsLine(text, s, pos, emptyAtEnd, k);
      var l := LineAt(text, s, pos);
      OverlapsItsLine(text, s, pos, emptyAtEnd, l);
      EndOfTextLine(text, s, emptyAtEnd, k);
    }
  }

  // Merging a wrong number of lines cannot give the lines of the new text.
  lemma WrongMergeFails(text: string, s: seq<Span>, start: nat, end: nat, a: nat, b: nat)
    requires IsLines(text, s) && start <= end <= |text| && a <= b < |s|
    requires b - a != LineAt(text, s, end) - LineAt(text, s, start)
    ensures !IsLines(text[..start] + text[end..], ShrunkLines(Merged(s, a, b), start, end))
  {
    var a', b' := LineAt(text, s, start), LineAt(text, s, end);
    NewlineSeparates(text, s, a', b', start, end);
    DeletionLines(text, s, a', b', start, end);
    var t := text[..start] + text[end..];
    ScanFindsLines(t, 0, ShrunkLines(Merged(s, a', b'), start, end));
    ScanFindsLines(t, 0, ShrunkLines(Merged(s, a, b), start, end));
  }

  lemma LastLineIsEmpty(text: string, s: seq<Span>)
    requires IsLines(text, s) && text != "" && text[|text| - 1] == '\n'
    ensures |s| > 1 && s[|s| - 1] == Span(|text|, |text|)
    ensures LineAt(text, s, |text|) == |s| - 1 && LineAt(text, s, |text| - 1) == |s| - 2
  {
    var k := |s| - 1;
    assert LineOk(text, s[k], true);
    EndOfTextLine(text, s, false, 0);
    if k > 0 {
      assert LineOk(text, s[k - 1], false);
      assert s[k - 1].end == s[k - 1 + 1].beg;
      LineAtIsUnique(text, s, k - 1, LineAt(text, s, |text| - 1), |text| - 1);
    }
  }

  /**
   Under the rule that setnu.el was written for every deletion is safe. Under the later rule
   a deletion that takes a newline away is safe if and only if neither of its ends is just
   before a newline that ends the buffer.
   */
  lemma DeletionSafeExactly(text: string, s: seq<Span>, start: nat, end: nat, emptyAtEnd: bool)
    requires IsLines(text, s) && start <= end <= |text| && NewlineFrom(text, start, end) < end
    ensures DeletionSafe(text, s, start, end, emptyAtEnd) <==> ClearDeletion(text, start, end, emptyAtEnd)
  {
    var a, b := LineAt(text, s, start), LineAt(text, s, end);
    NewlineSeparates(text, s, a, b, start, end);
    if ClearDeletion(text, start, end, emptyAtEnd) {
      forall a', b' | MayFind(text, s, start, emptyAtEnd, a') && MayFind(text, s, end, emptyAtEnd, b')
        ensures a' <= b' && IsLines(text[..start] + text[end..], ShrunkLines(Merged(s, a', b'), start, end))
      {
        FindsOnlyItsLine(text, s, start, emptyAtEnd, a');
        FindsOnlyItsLine(text, s, end, emptyAtEnd, b');
        DeletionLines(text, s, a, b, start, end);
      }
    } else {
      LastLineIsEmpty(text, s);
      var last := |s| - 1;
      if Ambiguous(text, start, emptyAtEnd) {
        assert MayFind(text, s, start, emptyAtEnd, last) && MayFind(text, s, end, emptyAtEnd, last);
        WrongMergeFails(text, s, start, end, last, last);
      } else {
        assert LineOk(text, s[a], a == |s| - 1);
        assert MayFind(text, s, start, emptyAtEnd, a) && MayFind(text, s, end, emptyAtEnd, last);
        WrongMergeFails(text, s, start, end, a, last);
      }
    }
  }

  /** Deleting the first of two newlines, under the later rule. */
  lemma DeletionGoesWrong()
    ensures !DeletionSafe("\n\n", ScanFrom("\n\n", 0), 0, 1, true)
  {
    ScanFindsLines("\n\n", 0, ScanFrom("\n\n", 0));
    DeletionSafeExactly("\n\n", ScanFrom("\n\n", 0), 0, 1, true);
  }

  lemma NothingGrows(s: seq<Span>, p: nat)
    ensures GrownLines(s, p, 0) == s
  {
  }

  lemma FirstPiece(text: string, e: Extent, start: nat)
    requires e.beg <= start <= |text| && forall p :: e.beg <= p < start ==> text[p] != '\n'
    ensures InPieces([e], [Span(e.beg, e.beg)]) && SplitsUpTo(text, [Span(e.beg, e.beg)], e.beg, start)
  {
  }

  lemma SplitsLonger(text: string, pieces: seq<Span>, beg: nat, q: nat, q': nat)
    requires SplitsUpTo(text, pieces, beg, q) && q <= q' <= |text| && forall p :: q <= p < q' ==> text[p] != '\n'
    ensures SplitsUpTo(text, pieces, beg, q')
  {
  }

  lemma PiecesApart(made: seq<Extent>, pieces: seq<Span>)
    requires InPieces(made, pieces)
    ensures forall i :: 1 <= i < |made| ==> made[i] in Members(made) - {made[0]}
  {
  }

  // Proper, except for the end and the next link of c[a].
  ghost predicate ProperBut(c: seq<Extent>, r: seq<Span>, a: nat)
    reads c
  {
    && a < |c| == |r| && Distinct(c) && Numbered(c)
    && (forall k :: 0 <= k < |c| ==> PrevOk(c, k) && (k != a ==> NextOk(c, k)))
    && (forall k :: 0 <= k < |c| ==> c[k].beg == r[k].beg && (k != a ==> c[k].end == r[k].end))
  }

  lemma OnePiece(c: seq<Extent>, r: seq<Span>, made: seq<Extent>, pieces: seq<Span>, a: nat)
    requires ProperBut(c, r, a) && InPieces(made, pieces) && made[|made| - 1] == made[0] == c[a]
    requires |made| == 1 ==> c[a].next == Nth(c, a + 1) && c[a].end == r[a].end
    ensures Proper(c[..a] + made + c[a + 1..],
                   r[..a] + pieces[|pieces| - 1 := Span(pieces[|pieces| - 1].beg, r[a].end)] + r[a + 1..])
  {
    assert |made| == 1;
    assert c[..a] + made + c[a + 1..] == c;
    assert r[..a] + [Span(pieces[0].beg, r[a].end)] + r[a + 1..] == r;
    assert NextOk(c, a);
  }

  lemma LastPieceEnd(text: string, pieces: seq<Span>, beg: nat, q: nat, end: nat)
    requires SplitsUpTo(text, pieces, beg, q)
    ensures SplitsUpTo(text, pieces[|pieces| - 1 := Span(pieces[|pieces| - 1].beg, end)], beg, q)
  {
    var last := |pieces| - 1;
    var pieces' := pieces[last := Span(pieces[last].beg, end)];
    forall i | 0 <= i < last
      ensures LineOk(text, pieces'[i], false) && pieces'[i].end == pieces'[i + 1].beg
    {
      assert LineOk(text, pieces[i], false) && pieces[i].end == pieces[i + 1].beg;
    }
  }

  lemma JoinedMembers(c: seq<Extent>, made: seq<Extent>, a: nat)
    requires a < |c| && made != [] && made[0] == c[a]
    ensures Members(c[..a] + made + c[a + 1..]) == Members(c) + Members(made)
    ensures (c[..a] + made + c[a + 1..])[0] == c[0]
  {
    var c' := c[..a] + made + c[a + 1..];
    forall e
      ensures e in c' <==> e in c || e in made
    {
      if e in c {
        var k :| 0 <= k < |c| && c[k] == e;
        assert c'[if k <= a then k else k + |made| - 1] == e;
      }
      if e in made {
        var k :| 0 <= k < |made| && made[k] == e;
        assert c'[a + k] == e;
      }
    }
  }

  /**
   The pieces take their place in the chain: the last one gets the old end and next link of
   the line, and the numbers after the first piece move up.
   */
  method Join(startE: Extent, e: Extent, savedNext: Extent?, savedEnd: nat, ghost c: seq<Extent>, ghost r: seq<Span>,
              ghost a: nat, ghost made: seq<Extent>, ghost pieces: seq<Span>)
    requires ProperBut(c, r, a) && InPieces(made, pieces) && |made| > 1
    requires startE == made[0] == c[a] && e == made[|made| - 1] && savedNext == Nth(c, a + 1) && savedEnd == r[a].end
    requires forall i :: 1 <= i < |made| ==> made[i] !in c
    modifies Members(c) + Members(made)
    ensures Proper(c[..a] + made + c[a + 1..],
                   r[..a] + pieces[|pieces| - 1 := Span(pieces[|pieces| - 1].beg, savedEnd)] + r[a + 1..])
  {
    hide ProperBut, InPieces, Proper, Distinct, Nth;
    PiecesLength(made, pieces);
    DistinctBut(c, r, a);
    JoinedMembers(c, made, a);
    ghost var c' := c[..a] + made + c[a + 1..];
    ghost var r' := r[..a] + pieces[|pieces| - 1 := Span(pieces[|pieces| - 1].beg, savedEnd)] + r[a + 1..];
    JoinedNth(c, made, a);
    LinkPieces(e, savedNext, savedEnd, c, r, a, made, pieces);
    hide Linked, Spanned;
    RenumberForth(startE, savedNext, c', r', a, |made| - 1);
  }

  method RenumberForth(startE: Extent, savedNext: Extent?, ghost c: seq<Extent>, ghost s: seq<Span>, ghost a: nat,
                       ghost m: nat)
    requires m > 0 && a + m < |c| && Distinct(c) && Linked(c) && Spanned(c, s)
    requires startE == c[a] && savedNext == Nth(c, a + m + 1)
    requires forall k :: 0 <= k <= a ==> c[k].lineNumber == k + 1
    requires forall k :: a + m < k < |c| ==> c[k].lineNumber == k + 1 - m
    modifies c`lineNumber
    ensures Proper(c, s)
  {
    hide Distinct, Linked, Spanned, Numbered;
    CopyNumbersForth(startE, savedNext, c, a, m);
  }

  lemma JoinedNth(c: seq<Extent>, made: seq<Extent>, a: nat)
    requires a < |c| && made != []
    ensures var c' := c[..a] + made + c[a + 1..];
            c'[a] == made[0] && Nth(c', a + |made|) == Nth(c, a + 1) && |c'| == |c| + |made| - 1
  {
  }

  // The last piece takes the old end of the line and its place before the next line.
  method LinkPieces(e: Extent, savedNext: Extent?, savedEnd: nat, ghost c: seq<Extent>, ghost r: seq<Span>,
                    ghost a: nat, ghost made: seq<Extent>, ghost pieces: seq<Span>)
    requires ProperBut(c, r, a) && InPieces(made, pieces) && |made| > 1
    requires made[0] == c[a] && e == made[|made| - 1] && savedNext == Nth(c, a + 1)
    requires forall i :: 1 <= i < |made| ==> made[i] !in c
    modifies Members(c) + Members(made)
    ensures var c', m := c[..a] + made + c[a + 1..], |made| - 1;
            && Distinct(c') && Linked(c')
            && Spanned(c', r[..a] + pieces[|pieces| - 1 := Span(pieces[|pieces| - 1].beg, savedEnd)] + r[a + 1..])
            && (forall k :: 0 <= k <= a ==> c'[k].lineNumber == k + 1)
            && (forall k :: a + m < k < |c'| ==> c'[k].lineNumber == k + 1 - m)
  {
    hide Distinct;
    DistinctPieces(made, pieces);
    DistinctBut(c, r, a);
    Apart(made, |made| - 1);
    e.end := savedEnd;
    e.next := savedNext;
    if savedNext != null {
      Apart(c, a + 1);
      savedNext.prev := e;
    }
    forall k | 0 <= k < |c|
      ensures (k != a ==> NextOk(c, k)) && (k != a + 1 ==> PrevOk(c, k))
    {
      assert old(PrevOk(c, k)) && (k != a ==> old(NextOk(c, k)));
    }
    JoinedChain(c, r, a, made, pieces, savedEnd);
  }

  lemma DistinctPieces(made: seq<Extent>, pieces: seq<Span>)
    requires InPieces(made, pieces)
    ensures Distinct(made)
  {
  }

  lemma DistinctBut(c: seq<Extent>, r: seq<Span>, a: nat)
    requires ProperBut(c, r, a)
    ensures Distinct(c) && a < |c| == |r|
  {
  }

  lemma JoinedChain(c: seq<Extent>, r: seq<Span>, a: nat, made: seq<Extent>, pieces: seq<Span>, savedEnd: nat)
    requires a < |c| == |r| && Distinct(c) && Numbered(c) && |made| == |pieces| > 1 && Distinct(made) && made[0] == c[a]
    requires forall i :: 1 <= i < |made| ==> made[i] !in c
    requires forall k :: 0 <= k < |c| && k != a ==> NextOk(c, k)
    requires forall k :: 0 <= k < |c| && k != a + 1 ==> PrevOk(c, k)
    requires forall k :: 0 <= k < |c| && k != a ==> c[k].beg == r[k].beg && c[k].end == r[k].end
    requires forall i :: 0 <= i < |made| - 1 ==> made[i].next == made[i + 1] && made[i].end == pieces[i].end
    requires forall i :: 1 <= i < |made| ==> made[i].prev == made[i - 1]
    requires forall i :: 0 <= i < |made| ==> made[i].beg == pieces[i].beg
    requires made[|made| - 1].next == Nth(c, a + 1) && made[|made| - 1].end == savedEnd
    requires a + 1 < |c| ==> c[a + 1].prev == made[|made| - 1]
    ensures var c', m := c[..a] + made + c[a + 1..], |made| - 1;
            && Distinct(c') && Linked(c')
            && Spanned(c', r[..a] + pieces[|pieces| - 1 := Span(pieces[|pieces| - 1].beg, savedEnd)] + r[a + 1..])
            && (forall k :: 0 <= k <= a ==> c'[k].lineNumber == k + 1)
            && (forall k :: a + m < k < |c'| ==> c'[k].lineNumber == k + 1 - m)
  {
    var c', m := c[..a] + made + c[a + 1..], |made| - 1;
    DistinctJoined(c, made, a);
    hide Distinct;
    forall k | 0 <= k < |c'|
      ensures NextOk(c', k)
    {
      if k < a {
        assert NextOk(c, k);
      } else if k > a + m {
        assert NextOk(c, k - m);
      } else {
        assert c'[k] == made[k - a];
      }
    }
    forall k | 0 <= k < |c'|
      ensures PrevOk(c', k)
    {
      if k <= a {
        assert PrevOk(c, k);
      } else if k > a + m + 1 {
        assert PrevOk(c, k - m);
      } else if k == a + m + 1 {
        assert c'[k] == c[a + 1] && c'[k - 1] == made[m];
      } else {
        assert c'[k] == made[k - a] && c'[k - 1] == made[k - a - 1];
      }
    }
    hide NextOk, PrevOk;
  }

  lemma DistinctJoined(c: seq<Extent>, made: seq<Extent>, a: nat)
    requires a < |c| && Distinct(c) && Distinct(made) && made != [] && made[0] == c[a]
    requires forall i :: 1 <= i < |made| ==> made[i] !in c
    ensures Distinct(c[..a] + made + c[a + 1..])
  {
    var c', m := c[..a] + made + c[a + 1..], |made| - 1;
    forall i, j | 0 <= i < j < |c'|
      ensures c'[i] != c'[j]
    {
      var x := if i < a then c[i] else if i <= a + m then made[i - a] else c[i - m];
      var y := if j < a then c[j] else if j <= a + m then made[j - a] else c[j - m];
      assert c'[i] == x && c'[j] == y;
    }
  }

  lemma TakenIn(c: seq<Extent>, g: seq<Span>, r: seq<Span>, a: nat)
    requires a < |c| == |g| && Distinct(c) && Linked(c) && Numbered(c)
    requires r == g[a := Span(c[a].beg, c[a].end)]
    requires forall k :: 0 <= k < |c| && k != a ==> c[k].beg == g[k].beg && c[k].end == g[k].end
    ensures Proper(c, r)
  {
    hide Distinct, Linked, Numbered;
  }

  lemma StretchedLine(text: string, s: seq<Span>, p: nat, inserted: string, r: seq<Span>, a: nat)
    requires IsLines(text, s) && InLine(text, s, a, p) && Stretched(s, r, a, |inserted|)
    ensures r[a].beg == s[a].beg <= p && r[a].end == s[a].end + |inserted|
    ensures var t := text[..p] + inserted + text[p..]; forall k :: r[a].beg <= k < p ==> t[k] != '\n'
  {
    assert LineOk(text, s[a], a == |s| - 1);
    var t := text[..p] + inserted + text[p..];
    assert forall k :: 0 <= k < p ==> t[k] == text[k];
  }

  lemma ProperAt(c: seq<Extent>, s: seq<Span>, k: nat)
    requires Proper(c, s) && k < |c|
    ensures |c| == |s| && c[k].next == Nth(c, k + 1) && c[k].beg == s[k].beg && c[k].end == s[k].end
  {
    LinkedAt(c, k);
  }

  // Extents linked one after the other, each ending where the next begins, as far as they are done.
  ghost predicate InPieces(made: seq<Extent>, pieces: seq<Span>)
    reads made
  {
    && |made| == |pieces| > 0 && Distinct(made)
    && (forall i :: 0 <= i < |made| - 1 ==> made[i].next == made[i + 1] && made[i].end == pieces[i].end)
    && (forall i :: 1 <= i < |made| ==> made[i].prev == made[i - 1])
    && (forall i :: 0 <= i < |made| ==> made[i].beg == pieces[i].beg)
  }

  lemma PiecesLength(made: seq<Extent>, pieces: seq<Span>)
    requires InPieces(made, pieces)
    ensures |made| == |pieces| > 0
  {
  }

  lemma SplitsFurther(text: string, pieces: seq<Span>, beg: nat, point: nat)
    requires SplitsUpTo(text, pieces, beg, point) && point < |text| && text[point] == '\n'
    ensures var last := |pieces| - 1;
            var pieces' := pieces[last := Span(pieces[last].beg, point + 1)] + [Span(point + 1, point + 1)];
            && |pieces| > 0
            && forall q :: point + 1 <= q <= |text| && (forall p :: point + 1 <= p < q ==> text[p] != '\n') ==>
              SplitsUpTo(text, pieces', beg, q)
  {
    var last := |pieces| - 1;
    var pieces' := pieces[last := Span(pieces[last].beg, point + 1)] + [Span(point + 1, point + 1)];
    assert LineOk(text, pieces'[last], false);
    forall i | 0 <= i < |pieces'| - 1
      ensures LineOk(text, pieces'[i], false) && pieces'[i].end == pieces'[i + 1].beg
    {
      if i < last {
        assert LineOk(text, pieces[i], false) && pieces[i].end == pieces[i + 1].beg;
      }
    }
  }

  lemma SpannedLength(c: seq<Extent>, s: seq<Span>)
    requires Proper(c, s)
    ensures |c| == |s|
  {
  }

  lemma LinkedAt(c: seq<Extent>, k: nat)
    requires Linked(c) && k < |c|
    ensures c[k].next == Nth(c, k + 1) && c[k].prev == Nth(c, k - 1)
  {
    assert NextOk(c, k) && PrevOk(c, k);
  }

  lemma NextInChain(c: seq<Extent>, s: seq<Span>, k: nat)
    requires Proper(c, s) && k + 1 < |c|
    ensures c[k].next == c[k + 1] && Distinct(c) && |c| == |s|
  {
    LinkedAt(c, k);
  }

  lemma SpannedAt(c: seq<Extent>, s: seq<Span>)
    requires Spanned(c, s)
    ensures |c| == |s| && forall k :: 0 <= k < |c| ==> c[k].beg == s[k].beg && c[k].end == s[k].end
  {
  }

  /**
   The endpoints, links and numbers after the deletion of lines a to b, except that the extents
   c[a+1..b] are still there.
   */
  method Relink(startE: Extent, endE: Extent, savedNext: Extent, ghost c: seq<Extent>, ghost s: seq<Span>, ghost a: nat,
                ghost b: nat)
    requires a < b < |c| && Proper(c, s)
    requires startE == c[a] && endE == c[b] && savedNext == c[a + 1]
    modifies Members(c)
    ensures Distinct(c) && startE.next == Nth(c, b + 1) && forall k :: a < k < b + 1 ==> NextOk(c, k)
    ensures Proper(c[..a + 1] + c[b + 1..], Merged(s, a, b))
  {
    hide Distinct, Spanned, Merged, Linked, NextOk, PrevOk;
    SpannedAt(c, s);
    Stretch(startE, endE, c, a, b);
    Renumber(startE, savedNext, c, a, b);
    SplicedChain(c, s, c[..a + 1] + c[b + 1..], a, b);
  }

  // The lines after a deletion are renumbered, and the first of them linked back to the merged line.
  method Renumber(startE: Extent, savedNext: Extent, ghost c: seq<Extent>, ghost a: nat, ghost b: nat)
    requires a < b < |c| && Distinct(c) && Numbered(c) && startE == c[a] && savedNext == c[a + 1]
    requires startE.next == Nth(c, b + 1) && forall k :: 0 <= k < |c| ==> PrevOk(c, k) && (k != a ==> NextOk(c, k))
    modifies c`lineNumber, c`prev
    ensures forall k :: 0 <= k < |c| ==> c[k].lineNumber == k + 1 - (if k <= b then 0 else b - a)
    ensures forall k :: 0 <= k < |c| ==> (k != b + 1 ==> PrevOk(c, k)) && (k != a ==> NextOk(c, k))
    ensures b + 1 < |c| ==> c[b + 1].prev == c[a]
  {
    hide Distinct;
    var newNext := startE.next;
    if newNext != null {
      CopyNumbersBack(startE, newNext, savedNext, c, a, b);
      Apart(c, b + 1);
      newNext.prev := startE;
      forall k | 0 <= k < |c|
        ensures (k != b + 1 ==> PrevOk(c, k)) && (k != a ==> NextOk(c, k))
      {
        assert old(PrevOk(c, k)) && (k != a ==> old(NextOk(c, k)));
      }
    }
  }

  // The extent of the first line takes over the end and the next link of the last.
  method Stretch(startE: Extent, endE: Extent, ghost c: seq<Extent>, ghost a: nat, ghost b: nat)
    requires a < b < |c| && Distinct(c) && Linked(c) && startE == c[a] && endE == c[b]
    modifies startE`end, startE`next
    ensures startE.end == old(endE.end) && startE.next == Nth(c, b + 1)
    ensures forall k :: 0 <= k < |c| ==> PrevOk(c, k) && (k != a ==> NextOk(c, k))
  {
    hide Distinct;
    Apart(c, a);
    LinkedAt(c, b);
    startE.end := endE.end;
    startE.next := endE.next;
    forall k | 0 <= k < |c|
      ensures PrevOk(c, k) && (k != a ==> NextOk(c, k))
    {
      assert old(NextOk(c, k)) && old(PrevOk(c, k));
    }
  }

  // What is left once c[a+1..b] are dropped is a chain again.
  lemma SplicedChain(c: seq<Extent>, s: seq<Span>, c': seq<Extent>, a: nat, b: nat)
    requires a < b < |c| == |s| && Distinct(c) && c' == c[..a + 1] + c[b + 1..]
    requires c[a].next == Nth(c, b + 1) && (forall k :: 0 <= k < |c| && k != a ==> NextOk(c, k))
    requires (b + 1 < |c| ==> c[b + 1].prev == c[a]) && (forall k :: 0 <= k < |c| && k != b + 1 ==> PrevOk(c, k))
    requires forall k :: 0 <= k < |c| ==> c[k].lineNumber == k + 1 - (if k <= b then 0 else b - a)
    requires forall k :: 0 <= k < |c| ==> c[k].beg == s[k].beg
    requires forall k :: 0 <= k < |c| && k != a ==> c[k].end == s[k].end
    requires c[a].end == s[b].end
    ensures Linked(c') && Numbered(c') && Spanned(c', Merged(s, a, b)) && Proper(c', Merged(s, a, b))
  {
    SplicedMembers(c, a, b);
    forall k | 0 <= k < |c'|
      ensures NextOk(c', k) && PrevOk(c', k)
    {
      var i := if k <= a then k else k + (b - a);
      assert c'[k] == c[i];
      assert i != a ==> NextOk(c, i);
      assert i != b + 1 ==> PrevOk(c, i);
    }
  }

  lemma ScanStep(text: string, b: nat)
    requires b <= |text|
    ensures var q := NewlineFrom(text, b, |text|);
            ScanFrom(text, b) == if q == |text| then [Span(b, q)] + [] else [Span(b, q + 1)] + ScanFrom(text, q + 1)
  {
  }

  lemma Regroup(a: seq<Span>, x: Span, b: seq<Span>)
    ensures a + ([x] + b) == a + [x] + b
  {
  }

  lemma DistinctAppends(c: seq<Extent>, e: Extent)
    requires Distinct(c) && e !in c
    ensures Distinct(c + [e])
  {
  }

  lemma EmptyChain()
    ensures Proper([], []) && Members([]) == {}
  {
  }

  // The extents left when c[a+1..b] are dropped.
  lemma SplicedMembers(c: seq<Extent>, a: nat, b: nat)
    requires Distinct(c) && a < b < |c|
    ensures var c' := c[..a + 1] + c[b + 1..];
            Distinct(c') && Members(c') == Members(c) - Members(c[a + 1..b + 1])
  {
    var c' := c[..a + 1] + c[b + 1..];
    assert forall k :: a < k <= b ==> c[k] in c[a + 1..b + 1] by {
      forall k | a < k <= b
        ensures c[k] in c[a + 1..b + 1]
      {
        assert c[a + 1..b + 1][k - a - 1] == c[k];
      }
    }
    forall e
      ensures e in c' <==> e in c && e !in c[a + 1..b + 1]
    {
      if e in c && e !in c[a + 1..b + 1] {
        var k :| 0 <= k < |c| && c[k] == e;
        assert k <= a || b < k;
        assert c'[if k <= a then k else k - (b - a)] == e;
      }
      if e in c' {
        var k :| 0 <= k < |c'| && c'[k] == e;
        var i := if k <= a then k else k + (b - a);
        Apart(c, i);
        assert c[i] == e;
      }
    }
  }
}
