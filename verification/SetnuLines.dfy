/**
 The lines of a buffer text as the spans that setnu.el gives its extents, and what deleting
 or inserting text does to them. Position 0 is point-min.
 */
module SetnuLines {

  datatype Span = Span(beg: nat, end: nat)

  // The first newline in text[i..limit], or limit: search-forward "\n" with a bound.
  function NewlineFrom(text: string, i: nat, limit: nat): (q: nat)
    requires i <= limit <= |text|
    ensures i <= q <= limit
    ensures q < limit ==> text[q] == '\n'
    ensures forall p :: i <= p < q ==> text[p] != '\n'
    decreases limit - i
  {
    if i == limit || text[i] == '\n' then i else NewlineFrom(text, i + 1, limit)
  }

  // The spans that the full scan of setnu-mode-on makes from b on.
  function ScanFrom(text: string, b: nat): (s: seq<Span>)
    requires b <= |text|
    ensures s != []
    decreases |text| - b
  {
    var q := NewlineFrom(text, b, |text|);
    if q == |text| then [Span(b, q)] else [Span(b, q + 1)] + ScanFrom(text, q + 1)
  }

  // A line ends with its only newline; the last one has none and ends with the text.
  predicate LineOk(text: string, s: Span, last: bool) {
    && s.beg <= s.end <= |text|
    && (if last then s.end == |text| else s.beg < s.end && text[s.end - 1] == '\n')
    && forall p :: s.beg <= p < s.end && text[p] == '\n' ==> !last && p == s.end - 1
  }

  predicate LinesFrom(text: string, b: nat, s: seq<Span>) {
    && s != [] && s[0].beg == b
    && (forall i :: 0 <= i < |s| ==> LineOk(text, s[i], i == |s| - 1))
    && (forall i :: 0 <= i < |s| - 1 ==> s[i].end == s[i + 1].beg)
  }

  predicate IsLines(text: string, s: seq<Span>) {
    LinesFrom(text, 0, s)
  }

  lemma LinesCons(text: string, x: Span, s: seq<Span>)
    requires LineOk(text, x, false) && LinesFrom(text, x.end, s)
    ensures LinesFrom(text, x.beg, [x] + s)
  {
    var r := [x] + s;
    forall i | 0 <= i < |r|
      ensures LineOk(text, r[i], i == |r| - 1)
    {
      if i > 0 { assert LineOk(text, s[i - 1], i - 1 == |s| - 1); }
    }
    hide LineOk;
    forall i | 0 <= i < |r| - 1
      ensures r[i].end == r[i + 1].beg
    {
      if i > 0 { assert s[i - 1].end == s[i - 1 + 1].beg; }
    }
  }

  lemma {:induction false} ScanMakesLines(text: string, b: nat)
    requires b <= |text|
    ensures LinesFrom(text, b, ScanFrom(text, b))
    decreases |text| - b
  {
    var q := NewlineFrom(text, b, |text|);
    if q < |text| {
      ScanMakesLines(text, q + 1);
      LinesCons(text, Span(b, q + 1), ScanFrom(text, q + 1));
    }
  }

  /** The lines of a text are exactly what the full scan finds. */
  lemma {:induction false} ScanFindsLines(text: string, b: nat, s: seq<Span>)
    requires b <= |text|
    ensures LinesFrom(text, b, s) <==> s == ScanFrom(text, b)
    decreases |text| - b
  {
    ScanMakesLines(text, b);
    if LinesFrom(text, b, s) {
      FirstLineEnds(text, b, s);
      if |s| > 1 {
        LinesTail(text, b, s);
        hide LinesFrom, NewlineFrom;
        ScanFindsLines(text, s[0].end, s[1..]);
        assert s == [s[0]] + s[1..];
      }
    }
  }

  lemma FirstLineEnds(text: string, b: nat, s: seq<Span>)
    requires b <= |text| && LinesFrom(text, b, s)
    ensures var q := NewlineFrom(text, b, |text|);
            if q == |text| then s == [Span(b, q)] else |s| > 1 && s[0] == Span(b, q + 1)
  {
    assert LineOk(text, s[0], 0 == |s| - 1);
  }

  lemma LinesTail(text: string, b: nat, s: seq<Span>)
    requires LinesFrom(text, b, s) && |s| > 1
    ensures LinesFrom(text, s[0].end, s[1..])
  {
    var t := s[1..];
    forall i | 0 <= i < |t|
      ensures LineOk(text, t[i], i == |t| - 1)
    {
      assert LineOk(text, s[i + 1], i + 1 == |s| - 1);
    }
    forall i | 0 <= i < |t| - 1
      ensures t[i].end == t[i + 1].beg
    {
      assert s[i + 1].end == s[i + 1 + 1].beg;
    }
  }

  // ---- the line at a position

  // Position pos belongs to line k; the end of the text belongs to the last line.
  predicate InLine(text: string, s: seq<Span>, k: nat, pos: nat) {
    k < |s| && s[k].beg <= pos <= |text| && (k < |s| - 1 ==> pos < s[k].end)
  }

  lemma {:induction false} Ordered(text: string, s: seq<Span>, i: nat, j: nat)
    requires IsLines(text, s) && i < j < |s|
    ensures s[i].end <= s[j].beg && s[i].beg < s[i].end
    decreases j - i
  {
    assert LineOk(text, s[i], false);
    assert s[j - 1].end == s[j - 1 + 1].beg;
    if i < j - 1 {
      Ordered(text, s, i, j - 1);
      assert LineOk(text, s[j - 1], false);
    }
  }

  lemma LineAtIsUnique(text: string, s: seq<Span>, i: nat, j: nat, pos: nat)
    requires IsLines(text, s) && InLine(text, s, i, pos) && InLine(text, s, j, pos)
    ensures i == j
  {
    if i < j { Ordered(text, s, i, j); }
    if j < i { Ordered(text, s, j, i); }
  }

  ghost function LineAt(text: string, s: seq<Span>, pos: nat): (k: nat)
    requires IsLines(text, s) && pos <= |text|
    ensures InLine(text, s, k, pos)
  {
    LineAtFrom(text, s, pos, 0)
  }

  ghost function LineAtFrom(text: string, s: seq<Span>, pos: nat, k: nat): (r: nat)
    requires IsLines(text, s) && k < |s| && s[k].beg <= pos <= |text|
    ensures InLine(text, s, r, pos)
    decreases |s| - k
  {
    assert k < |s| - 1 ==> s[k].end == s[k + 1].beg;
    if k == |s| - 1 || pos < s[k].end then k else LineAtFrom(text, s, pos, k + 1)
  }

  /** A later position is on a later line exactly when a newline is between. */
  lemma NewlineSeparates(text: string, s: seq<Span>, a: nat, b: nat, start: nat, end: nat)
    requires IsLines(text, s) && InLine(text, s, a, start) && InLine(text, s, b, end) && start <= end
    ensures a <= b
    ensures a < b <==> NewlineFrom(text, start, end) < end
  {
    if b < a {
      Ordered(text, s, b, a);
      assert false;
    }
    var q := NewlineFrom(text, start, end);
    assert LineOk(text, s[a], a == |s| - 1);
    if a < b {
      Ordered(text, s, a, b);
      assert text[s[a].end - 1] == '\n';
    }
  }

  // ---- what an edit does to the lines

  // Where the markers of setnu's extents go when text[start..end] is removed.
  function Shrunk(pos: nat, start: nat, end: nat): nat
    requires start <= end
  {
    if pos <= start then pos else if pos <= end then start else pos - (end - start)
  }

  // Where they go when n characters are inserted at p: a marker at p stays.
  function Grown(pos: nat, p: nat, n: nat): nat {
    if pos > p then pos + n else pos
  }

  // Lines a to b as one: setnu-before-change-function stretches a's extent to b's end and drops those between.
  function Merged(s: seq<Span>, a: nat, b: nat): (r: seq<Span>)
    requires a <= b < |s|
    ensures |r| == |s| - (b - a)
  {
    s[..a] + [Span(s[a].beg, s[b].end)] + s[b + 1..]
  }

  function ShrunkLines(s: seq<Span>, start: nat, end: nat): (r: seq<Span>)
    requires start <= end
    ensures |r| == |s|
    ensures forall i :: 0 <= i < |s| ==> r[i] == Span(Shrunk(s[i].beg, start, end), Shrunk(s[i].end, start, end))
  {
    seq(|s|, i requires 0 <= i < |s| => Span(Shrunk(s[i].beg, start, end), Shrunk(s[i].end, start, end)))
  }

  // A line whose text is the same in t, moved by some distance.
  lemma LineMoves(text: string, t: string, s: Span, last: bool, shift: int)
    requires LineOk(text, s, last) && 0 <= s.beg + shift && s.end + shift <= |t| && (last ==> s.end + shift == |t|)
    requires forall p :: s.beg <= p < s.end ==> t[p + shift] == text[p]
    ensures LineOk(t, Span(s.beg + shift, s.end + shift), last)
  {
    forall p | s.beg + shift <= p < s.end + shift && t[p] == '\n'
      ensures !last && p == s.end + shift - 1
    {
      assert t[p - shift + shift] == text[p - shift];
    }
    assert !last ==> t[s.end - 1 + shift] == text[s.end - 1];
  }

  // The line left where lines a to b were, when the text from start in a to end in b is gone.
  lemma LinesJoin(text: string, t: string, sa: Span, sb: Span, last: bool, start: nat, end: nat)
    requires sa.beg <= start <= end <= sb.end <= |text| && sb.beg <= end && t == text[..start] + text[end..]
    requires LineOk(text, sb, last) && (!last ==> end < sb.end)
    requires forall p :: sa.beg <= p < start ==> text[p] != '\n'
    ensures LineOk(t, Span(sa.beg, sb.end - (end - start)), last)
  {
    var d := end - start;
    assert forall p :: 0 <= p < start ==> t[p] == text[p];
    forall p | sa.beg <= p < sb.end - d && t[p] == '\n'
      ensures !last && p == sb.end - d - 1
    {
      assert p >= start;
      assert t[p] == text[p + d];
    }
    if !last {
      assert t[sb.end - d - 1] == text[sb.end - 1];
    }
  }

  lemma JoinedLine(text: string, s: seq<Span>, a: nat, b: nat, start: nat, end: nat)
    requires IsLines(text, s) && start <= end
    requires InLine(text, s, a, start) && InLine(text, s, b, end) && a <= b
    ensures LineOk(text[..start] + text[end..], Span(s[a].beg, s[b].end - (end - start)), b == |s| - 1)
    ensures s[a].beg <= start && end <= s[b].end && (b < |s| - 1 ==> end < s[b].end)
  {
    assert LineOk(text, s[a], a == |s| - 1);
    assert LineOk(text, s[b], b == |s| - 1);
    LinesJoin(text, text[..start] + text[end..], s[a], s[b], b == |s| - 1, start, end);
  }

  lemma OtherLine(text: string, s: seq<Span>, a: nat, b: nat, start: nat, end: nat, k: nat)
    requires IsLines(text, s) && start <= end
    requires InLine(text, s, a, start) && InLine(text, s, b, end) && a <= b
    requires k < a || b < k < |s|
    ensures LineOk(text[..start] + text[end..],
                   Span(Shrunk(s[k].beg, start, end), Shrunk(s[k].end, start, end)), k == |s| - 1)
  {
    var t, d := text[..start] + text[end..], end - start;
    assert LineOk(text, s[k], k == |s| - 1);
    if k < a {
      Ordered(text, s, k, a);
      LineMoves(text, t, s[k], false, 0);
    } else {
      Ordered(text, s, b, k);
      LineMoves(text, t, s[k], k == |s| - 1, -d);
    }
  }

  lemma DeletionLine(text: string, s: seq<Span>, a: nat, b: nat, start: nat, end: nat, i: nat)
    requires IsLines(text, s) && start <= end
    requires InLine(text, s, a, start) && InLine(text, s, b, end) && a <= b
    requires i < |Merged(s, a, b)|
    ensures LineOk(text[..start] + text[end..], ShrunkLines(Merged(s, a, b), start, end)[i], i == |Merged(s, a, b)| - 1)
  {
    if i == a {
      JoinedLine(text, s, a, b, start, end);
    } else {
      var k := if i < a then i else i + (b - a);
      assert Merged(s, a, b)[i] == s[k];
      OtherLine(text, s, a, b, start, end, k);
    }
    hide LineOk, LinesFrom, Merged;
  }

  // Merging the lines of the two ends of a deletion gives the lines of the text that is left.
  lemma DeletionLines(text: string, s: seq<Span>, a: nat, b: nat, start: nat, end: nat)
    requires IsLines(text, s) && start <= end
    requires InLine(text, s, a, start) && InLine(text, s, b, end) && a <= b
    ensures IsLines(text[..start] + text[end..], ShrunkLines(Merged(s, a, b), start, end))
  {
    var m := Merged(s, a, b);
    var r := ShrunkLines(m, start, end);
    forall i | 0 <= i < |r|
      ensures LineOk(text[..start] + text[end..], r[i], i == |r| - 1)
    {
      DeletionLine(text, s, a, b, start, end, i);
    }
    hide LineOk;
    forall i | 0 <= i < |r| - 1
      ensures r[i].end == r[i + 1].beg
    {
      var k := if i < a then i else i + (b - a);
      assert s[k].end == s[k + 1].beg;
    }
  }

  // How the extents lie when the text inserted at p has been given to line a, before it is split.
  predicate Stretched(s: seq<Span>, r: seq<Span>, a: nat, n: nat) {
    && a < |s| && |r| == |s|
    && (forall i :: 0 <= i < a ==> r[i] == s[i])
    && r[a] == Span(s[a].beg, s[a].end + n)
    && (forall i :: a < i < |s| ==> r[i] == Span(s[i].beg + n, s[i].end + n))
  }

  // The pieces that line a is split into: every newline up to q starts another piece.
  predicate SplitsUpTo(text: string, pieces: seq<Span>, beg: nat, q: nat) {
    && pieces != [] && pieces[0].beg == beg
    && (forall i :: 0 <= i < |pieces| - 1 ==> LineOk(text, pieces[i], false) && pieces[i].end == pieces[i + 1].beg)
    && pieces[|pieces| - 1].beg <= q <= |text|
    && forall p :: pieces[|pieces| - 1].beg <= p < q ==> text[p] != '\n'
  }

  lemma InsertionLine(text: string, s: seq<Span>, a: nat, p: nat, inserted: string, r: seq<Span>, i: nat)
    requires IsLines(text, s) && InLine(text, s, a, p) && Stretched(s, r, a, |inserted|) && i < |s| && i != a
    ensures LineOk(text[..p] + inserted + text[p..], r[i], i == |s| - 1)
  {
    var t := text[..p] + inserted + text[p..];
    if i < a {
      Ordered(text, s, i, a);
      LineMoves(text, t, s[i], false, 0);
    } else {
      Ordered(text, s, a, i);
      LineMoves(text, t, s[i], i == |s| - 1, |inserted|);
    }
  }

  // The last piece keeps the end of the line it was split from.
  lemma LastPiece(text: string, s: seq<Span>, a: nat, p: nat, inserted: string, piece: Span)
    requires IsLines(text, s) && InLine(text, s, a, p) && piece.end == s[a].end + |inserted|
    requires piece.beg <= p + |inserted|
    requires var t := text[..p] + inserted + text[p..];
             forall k :: piece.beg <= k < p + |inserted| ==> t[k] != '\n'
    ensures LineOk(text[..p] + inserted + text[p..], piece, a == |s| - 1)
  {
    var t, n := text[..p] + inserted + text[p..], |inserted|;
    assert LineOk(text, s[a], a == |s| - 1);
    forall k | piece.beg <= k < piece.end && t[k] == '\n'
      ensures a != |s| - 1 && k == piece.end - 1
    {
      assert k >= p + n;
      assert t[k] == text[k - n];
    }
    if a != |s| - 1 {
      assert t[piece.end - 1] == text[s[a].end - 1];
    }
  }

  // What inserting into line a makes of the extents: the pieces of a, and the others moved along.
  ghost predicate Splits(text: string, s: seq<Span>, a: nat, p: nat, inserted: string, r: seq<Span>,
                         pieces: seq<Span>) {
    && IsLines(text, s) && InLine(text, s, a, p) && Stretched(s, r, a, |inserted|)
    && SplitsUpTo(text[..p] + inserted + text[p..], pieces, s[a].beg, p + |inserted|)
    && pieces[|pieces| - 1].end == s[a].end + |inserted|
  }

  lemma SplitLine(text: string, s: seq<Span>, a: nat, p: nat, inserted: string, r: seq<Span>, pieces: seq<Span>, i: nat)
    requires Splits(text, s, a, p, inserted, r, pieces) && i < |r| + |pieces| - 1
    ensures LineOk(text[..p] + inserted + text[p..], (r[..a] + pieces + r[a + 1..])[i], i == |r| + |pieces| - 2)
  {
    var l, m := r[..a] + pieces + r[a + 1..], |pieces|;
    hide LineOk, LinesFrom;
    if a <= i < a + m - 1 {
      assert l[i] == pieces[i - a];
    } else if i == a + m - 1 {
      LastPiece(text, s, a, p, inserted, pieces[m - 1]);
    } else {
      InsertionLine(text, s, a, p, inserted, r, if i < a then i else i - m + 1);
    }
  }

  lemma SplitsMeet(text: string, s: seq<Span>, a: nat, p: nat, inserted: string, r: seq<Span>, pieces: seq<Span>,
                   i: nat)
    requires Splits(text, s, a, p, inserted, r, pieces) && i + 1 < |r| + |pieces| - 1
    ensures var l := r[..a] + pieces + r[a + 1..]; l[i].end == l[i + 1].beg
  {
    var m := |pieces|;
    hide LineOk;
    if i < a {
      assert s[i].end == s[i + 1].beg;
    } else if i < a + m - 1 {
      assert pieces[i - a].end == pieces[i - a + 1].beg;
    } else {
      var k := i - m + 1;
      assert s[k].end == s[k + 1].beg;
    }
  }

  lemma InsertionLines(text: string, s: seq<Span>, a: nat, p: nat, inserted: string, r: seq<Span>, pieces: seq<Span>)
    requires Splits(text, s, a, p, inserted, r, pieces)
    ensures IsLines(text[..p] + inserted + text[p..], r[..a] + pieces + r[a + 1..])
  {
    var t, l := text[..p] + inserted + text[p..], r[..a] + pieces + r[a + 1..];
    assert |l| == |r| + |pieces| - 1 > 0 && l[0].beg == 0;
    hide LineOk, Splits;
    forall i | 0 <= i < |l|
      ensures LineOk(t, l[i], i == |l| - 1)
    {
      SplitLine(text, s, a, p, inserted, r, pieces, i);
    }
    forall i | 0 <= i < |l| - 1
      ensures l[i].end == l[i + 1].beg
    {
      SplitsMeet(text, s, a, p, inserted, r, pieces, i);
    }
  }
}
