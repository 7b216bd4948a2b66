/**
 binary_dump.c: binary_dump_with_char lays out bytes that start anywhere in a row of
 sixteen, with a printable form of the row behind it. What goes to stderr is a string here.
 */
module BinaryDump {

  type Byte = n: nat | n < 256
  type Word = n: nat | n < 0x1_0000_0000

  // ---- numbers in hexadecimal

  const DIGITS := "0123456789abcdef"

  function Digit(d: nat): char
    requires d < 16
  {
    DIGITS[d]
  }

  // The last digits of a number: "%02x" of a byte, "%08x" of a word
  function Hex(n: nat, width: nat): (s: string)
    ensures |s| == width
  {
    if width == 0 then "" else Hex(n / 16, width - 1) + [Digit(n % 16)]
  }

  function DigitValue(c: char): nat {
    if '0' <= c <= '9' then c as nat - '0' as nat else if 'a' <= c <= 'f' then c as nat - 'a' as nat + 10 else 0
  }

  function HexValue(s: string): nat {
    if s == "" then 0 else 16 * HexValue(s[..|s| - 1]) + DigitValue(s[|s| - 1])
  }

  function Power16(k: nat): (p: nat)
    ensures p > 0
  {
    if k == 0 then 1 else 16 * Power16(k - 1)
  }

  lemma {:induction false} HexReadsBack(n: nat, width: nat)
    requires n < Power16(width)
    ensures HexValue(Hex(n, width)) == n
  {
    if width > 0 {
      HexReadsBack(n / 16, width - 1);
      var s := Hex(n, width);
      DigitReadsBack(n % 16);
      hide DigitValue, Digit;
      assert s[..|s| - 1] == Hex(n / 16, width - 1) && s[|s| - 1] == Digit(n % 16);
    }
  }

  lemma DigitReadsBack(d: nat)
    requires d < 16
    ensures DigitValue(Digit(d)) == d
  {
  }

  // ---- one character for a byte

  function Printable(b: Byte): (c: char)
    ensures c != '\0' && c != ' '
  {
    if 'a' as nat <= b <= 'z' as nat || 'A' as nat <= b <= 'Z' as nat || '0' as nat <= b <= '9' as nat then b as char
    else if b == 0 then '@'
    else '.'
  }

  // What "%s" prints: up to the terminator
  function CString(s: string): string {
    if s == "" || s[0] == '\0' then "" else [s[0]] + CString(s[1..])
  }

  lemma {:induction false} CStringOf(s: string)
    requires forall i :: 0 <= i < |s| ==> s[i] != '\0'
    ensures CString(s + ['\0']) == s
  {
    if s != "" {
      CStringOf(s[1..]);
      assert (s + ['\0'])[1..] == s[1..] + ['\0'];
    }
  }

  // ---- the layout

  const WIDTH := 76

  // There is a byte at the column of the row.
  predicate Present(gap: nat, size: nat, r: nat, c: nat) {
    gap <= 16 * r + c < gap + size
  }

  function Cell(gap: nat, bytes: seq<Byte>, r: nat, c: nat): (s: string)
    ensures |s| == if c == 15 then 5 else 3
  {
    (if Present(gap, |bytes|, r, c) then Hex(bytes[16 * r + c - gap], 2) else "  ") + if c == 15 then " | " else " "
  }

  function Cells(gap: nat, bytes: seq<Byte>, r: nat, n: nat): (s: string)
    requires n <= 16
    ensures |s| == 3 * n + if n == 16 then 2 else 0
  {
    if n == 0 then "" else Cells(gap, bytes, r, n - 1) + Cell(gap, bytes, r, n - 1)
  }

  function Mark(gap: nat, bytes: seq<Byte>, r: nat, c: nat): char {
    if Present(gap, |bytes|, r, c) then Printable(bytes[16 * r + c - gap]) else ' '
  }

  function Trailer(gap: nat, bytes: seq<Byte>, r: nat): (s: string)
    ensures |s| == 16 && forall c :: 0 <= c < 16 ==> s[c] == Mark(gap, bytes, r, c)
  {
    seq(16, c requires 0 <= c < 16 => Mark(gap, bytes, r, c))
  }

  function Head(base: nat, r: nat): (s: string)
    ensures |s| == 10
  {
    Hex(base + 16 * r, 8) + "  "
  }

  function Row(base: nat, gap: nat, bytes: seq<Byte>, r: nat): (s: string)
    ensures |s| == WIDTH
  {
    Head(base, r) + Cells(gap, bytes, r, 16) + Trailer(gap, bytes, r)
  }

  // The first n rows, each with a line feed.
  function Rows(base: nat, gap: nat, bytes: seq<Byte>, n: nat): (s: string)
    ensures |s| == 77 * n
  {
    if n == 0 then "" else Rows(base, gap, bytes, n - 1) + Row(base, gap, bytes, n - 1) + "\n"
  }

  // The number of rows that the bytes touch.
  function RowCount(gap: nat, size: nat): nat {
    (gap + size + 15) / 16
  }

  // ---- what a reader finds

  lemma {:induction false} RowAt(base: nat, gap: nat, bytes: seq<Byte>, n: nat, r: nat)
    requires r < n
    ensures Rows(base, gap, bytes, n)[77 * r..77 * r + WIDTH] == Row(base, gap, bytes, r)
    ensures Rows(base, gap, bytes, n)[77 * r + WIDTH] == '\n'
  {
    var front, last := Rows(base, gap, bytes, n - 1), Row(base, gap, bytes, n - 1);
    if r < n - 1 {
      RowAt(base, gap, bytes, n - 1, r);
      assert (front + last + "\n")[77 * r..77 * r + WIDTH] == front[77 * r..77 * r + WIDTH];
    } else {
      assert (front + last + "\n")[77 * r..77 * r + WIDTH] == last;
    }
  }

  lemma {:induction false} CellAt(gap: nat, bytes: seq<Byte>, r: nat, n: nat, c: nat)
    requires c < n <= 16
    ensures Cells(gap, bytes, r, n)[3 * c..3 * c + 3] == Cell(gap, bytes, r, c)[..3]
  {
    var front, last := Cells(gap, bytes, r, n - 1), Cell(gap, bytes, r, n - 1);
    if c < n - 1 {
      CellAt(gap, bytes, r, n - 1, c);
      assert (front + last)[3 * c..3 * c + 3] == front[3 * c..3 * c + 3];
    }
  }

  // Row and column of byte k.
  function RowOf(gap: nat, k: nat): nat {
    (gap + k) / 16
  }

  function ColumnOf(gap: nat, k: nat): (c: nat)
    ensures c < 16
  {
    (gap + k) % 16
  }

  // Where in the output the two digits and the character of byte k are.
  function DigitsAt(gap: nat, k: nat): nat {
    77 * RowOf(gap, k) + 10 + 3 * ColumnOf(gap, k)
  }

  function MarkAt(gap: nat, k: nat): nat {
    77 * RowOf(gap, k) + 60 + ColumnOf(gap, k)
  }

  // What binary_dump_with_char prints of some bytes.
  function Dump(offset: nat, bytes: seq<Byte>): (text: string)
    ensures |text| == 77 * RowCount(offset % 16, |bytes|) + 1
  {
    Rows(offset / 16 * 16, offset % 16, bytes, RowCount(offset % 16, |bytes|)) + "\n"
  }

  // The three parts of a row.
  lemma RowParts(base: nat, gap: nat, bytes: seq<Byte>, r: nat)
    ensures var row := Row(base, gap, bytes, r);
      && row[..8] == Hex(base + 16 * r, 8)
      && row[10..60] == Cells(gap, bytes, r, 16) && row[60..] == Trailer(gap, bytes, r)
  {
    hide Cells, Hex;
  }

  lemma SliceOfSlice(s: string, a: nat, b: nat, c: nat, d: nat)
    requires a <= b <= |s| && c <= d <= b - a
    ensures s[a..b][c..d] == s[a + c..a + d]
  {
    assert forall k :: 0 <= k < d - c ==> s[a..b][c..d][k] == s[a + c..a + d][k];
  }

  lemma PlaceInText(offset: nat, bytes: seq<Byte>, r: nat, from: nat, to: nat)
    requires r < RowCount(offset % 16, |bytes|) && from <= to <= WIDTH
    ensures Dump(offset, bytes)[77 * r + from..77 * r + to] == Row(offset / 16 * 16, offset % 16, bytes, r)[from..to]
  {
    hide Rows, Row;
    var n := RowCount(offset % 16, |bytes|);
    RowAt(offset / 16 * 16, offset % 16, bytes, n, r);
    var text, rows := Dump(offset, bytes), Rows(offset / 16 * 16, offset % 16, bytes, n);
    assert text[77 * r + from..77 * r + to] == rows[77 * r + from..77 * r + to];
    assert rows[77 * r + from..77 * r + to] == rows[77 * r..77 * r + WIDTH][from..to];
  }

  /** Every column of every row: the digits and the character of the one byte that belongs there, or blanks. */
  lemma ColumnHolds(offset: nat, bytes: seq<Byte>, r: nat, c: nat)
    requires r < RowCount(offset % 16, |bytes|) && c < 16
    ensures var text, gap := Dump(offset, bytes), offset % 16;
      && text[77 * r + 10 + 3 * c..77 * r + 12 + 3 * c]
         == (if Present(gap, |bytes|, r, c) then Hex(bytes[16 * r + c - gap], 2) else "  ")
      && text[77 * r + 60 + c] == Mark(gap, bytes, r, c)
  {
    hide Rows, Row, Dump, Cells, Hex;
    var base, gap := offset / 16 * 16, offset % 16;
    var row, cells := Row(base, gap, bytes, r), Cells(gap, bytes, r, 16);
    RowParts(base, gap, bytes, r);
    CellAt(gap, bytes, r, 16, c);
    PlaceInText(offset, bytes, r, 10 + 3 * c, 12 + 3 * c);
    SliceOfSlice(row, 10, 60, 3 * c, 3 * c + 3);
    SliceOfSlice(row, 10 + 3 * c, 13 + 3 * c, 0, 2);
    assert Cell(gap, bytes, r, c)[..3][0..2]
        == if Present(gap, |bytes|, r, c) then Hex(bytes[16 * r + c - gap], 2) else "  ";
    PlaceInText(offset, bytes, r, 60 + c, 61 + c);
    assert row[60 + c] == row[60..][c];
    assert Dump(offset, bytes)[77 * r + 60 + c] == Dump(offset, bytes)[77 * r + 60 + c..77 * r + 61 + c][0];
  }

  /** The address at the head of a row is that of its first column. */
  lemma AddressHolds(offset: nat, bytes: seq<Byte>, r: nat)
    requires offset + |bytes| <= 0x1_0000_0000 && r < RowCount(offset % 16, |bytes|)
    ensures HexValue(Dump(offset, bytes)[77 * r..77 * r + 8]) == offset / 16 * 16 + 16 * r
  {
    hide Rows, Row, Dump, HexValue;
    RowParts(offset / 16 * 16, offset % 16, bytes, r);
    PlaceInText(offset, bytes, r, 0, 8);
    PowersOf16();
    HexReadsBack(offset / 16 * 16 + 16 * r, 8);
  }

  lemma PowersOf16()
    ensures Power16(2) == 256 && Power16(8) == 0x1_0000_0000
  {
    assert Power16(4) == 0x1_0000;
  }

  // A byte is in the rows, at a place of its own.
  lemma BytePlace(gap: nat, size: nat, k: nat)
    requires gap < 16 && k < size
    ensures var r, c := RowOf(gap, k), ColumnOf(gap, k);
      r < RowCount(gap, size) && Present(gap, size, r, c) && 16 * r + c - gap == k
  {
  }

  // Reading the dump: the digits of each byte.
  function ReadDump(text: string, gap: nat, size: nat): seq<nat>
    requires forall k :: 0 <= k < size ==> DigitsAt(gap, k) + 2 <= |text|
  {
    seq(size, k requires 0 <= k < size => HexValue(text[DigitsAt(gap, k)..DigitsAt(gap, k) + 2]))
  }

  /** The dump reads back to the bytes, each of which is marked in its row and column. */
  lemma DumpReadsBack(offset: nat, bytes: seq<Byte>)
    ensures var gap, text := offset % 16, Dump(offset, bytes);
      && (forall k :: 0 <= k < |bytes| ==> DigitsAt(gap, k) + 2 <= |text| && MarkAt(gap, k) < |text|)
      && ReadDump(text, gap, |bytes|) == bytes
      && forall k :: 0 <= k < |bytes| ==> text[MarkAt(gap, k)] == Printable(bytes[k])
  {
    hide Dump, HexValue, Hex;
    var gap, text := offset % 16, Dump(offset, bytes);
    forall k | 0 <= k < |bytes|
      ensures DigitsAt(gap, k) + 2 <= |text| && MarkAt(gap, k) < |text|
      ensures HexValue(text[DigitsAt(gap, k)..DigitsAt(gap, k) + 2]) == bytes[k]
      ensures text[MarkAt(gap, k)] == Printable(bytes[k])
    {
      var r, c := RowOf(gap, k), ColumnOf(gap, k);
      BytePlace(gap, |bytes|, k);
      ColumnHolds(offset, bytes, r, c);
      PowersOf16();
      HexReadsBack(bytes[k], 2);
    }
  }

  // ---- the loops

  // Before column j % 16 of row j / 16: what is printed, and what the trailer holds.
  ghost predicate Midway(out: string, tailer: string, base: nat, gap: nat, bytes: seq<Byte>, j: nat) {
    var r, c := j / 16, j % 16;
    && out == Rows(base, gap, bytes, r) + Head(base, r) + Cells(gap, bytes, r, c)
    && |tailer| == 17 && tailer[16] == '\0'
    && forall k :: 0 <= k < 16 ==> tailer[k] == if k < c then Mark(gap, bytes, r, k) else ' '
  }

  // n rows are printed, without the line feed of the last.
  ghost predicate Complete(out: string, base: nat, gap: nat, bytes: seq<Byte>, n: nat) {
    n > 0 && out == Rows(base, gap, bytes, n - 1) + Row(base, gap, bytes, n - 1)
  }

  // At the head of the loop over the bytes.
  ghost predicate State(out: string, tailer: string, offset: nat, base: nat, gap: nat, bytes: seq<Byte>, j: nat) {
    if j < gap + |bytes| || j % 16 != 0 then Midway(out, tailer, base, gap, bytes, j) && offset == base + j / 16 * 16
    else Complete(out, base, gap, bytes, j / 16)
  }

  lemma TailerPrints(tailer: string, gap: nat, bytes: seq<Byte>, r: nat)
    requires |tailer| == 17 && tailer[16] == '\0' && forall k :: 0 <= k < 16 ==> tailer[k] == Mark(gap, bytes, r, k)
    ensures CString(tailer) == Trailer(gap, bytes, r)
  {
    assert tailer == tailer[..16] + ['\0'];
    assert tailer[..16] == Trailer(gap, bytes, r);
    CStringOf(tailer[..16]);
  }

  lemma BeginRow(tailer: string, base: nat, gap: nat, bytes: seq<Byte>, j: nat, out: string)
    requires j % 16 == 0 && j > 0 && Complete(out, base, gap, bytes, j / 16) && tailer == seq(16, i => ' ') + ['\0']
    ensures Midway(out + "\n" + (Hex(base + j, 8) + "  "), tailer, base, gap, bytes, j)
  {
    hide Row, Hex;
    var r := j / 16;
    assert Rows(base, gap, bytes, r) == out + "\n";
    assert Cells(gap, bytes, r, 0) == "";
  }

  lemma EndRow(out: string, tailer: string, base: nat, gap: nat, bytes: seq<Byte>, r: nat)
    requires |tailer| == 17 && tailer[16] == '\0' && forall k :: 0 <= k < 16 ==> tailer[k] == Mark(gap, bytes, r, k)
    requires out == Rows(base, gap, bytes, r) + Head(base, r) + Cells(gap, bytes, r, 16)
    ensures Complete(out + CString(tailer), base, gap, bytes, r + 1)
  {
    hide Rows, Cells, Head;
    TailerPrints(tailer, gap, bytes, r);
  }

  lemma ByteCell(out: string, base: nat, gap: nat, bytes: seq<Byte>, j: nat)
    requires gap <= j < gap + |bytes|
    requires out == Rows(base, gap, bytes, j / 16) + Head(base, j / 16) + Cells(gap, bytes, j / 16, j % 16)
    ensures out + (Hex(bytes[j - gap], 2) + if j % 16 == 15 then " | " else " ") ==
            Rows(base, gap, bytes, j / 16) + Head(base, j / 16) + Cells(gap, bytes, j / 16, j % 16 + 1)
    ensures Mark(gap, bytes, j / 16, j % 16) == Printable(bytes[j - gap])
  {
    hide Rows, Head, Hex;
    var r, c := j / 16, j % 16;
    assert 16 * r + c - gap == j - gap;
    assert Cells(gap, bytes, r, c + 1) == Cells(gap, bytes, r, c) + Cell(gap, bytes, r, c);
  }

  // One byte: its digits and its character, and at the end of a row the trailer and the head of the next row.
  method PutByte(out: string, tailer: array<char>, offset: nat, j: nat, end: nat, b: Byte, ghost base: nat,
                 ghost gap: nat, ghost bytes: seq<Byte>)
    returns (more: string, next: nat)
    requires tailer.Length == 17 && gap <= j < end == gap + |bytes| && b == bytes[j - gap]
    requires State(out, tailer[..], offset, base, gap, bytes, j)
    modifies tailer
    ensures State(more, tailer[..], next, base, gap, bytes, j + 1)
  {
    hide Rows, Row, Cells, Head, Hex, Mark;
    next := offset;
    ByteCell(out, base, gap, bytes, j);
    if (j + 1) % 16 == 0 {
      more := out + (Hex(b, 2) + " | ");
      tailer[15] := Printable(b);
      EndRow(more, tailer[..], base, gap, bytes, j / 16);
      more := more + CString(tailer[..]);
      if j + 1 != end {
        next := offset + 16;
        Blank(tailer);
        BeginRow(tailer[..], base, gap, bytes, j + 1, more);
        more := more + "\n" + (Hex(next, 8) + "  ");
      }
    } else {
      more := out + (Hex(b, 2) + " ");
      tailer[j % 16] := Printable(b);
    }
  }

  // memset and the terminator
  method Blank(tailer: array<char>)
    requires tailer.Length == 17
    modifies tailer
    ensures tailer[..] == seq(16, i => ' ') + ['\0']
  {
    for i := 0 to 16
      invariant forall k :: 0 <= k < i ==> tailer[k] == ' '
    {
      tailer[i] := ' ';
    }
    tailer[16] := '\0';
  }

  // The blank columns behind the last byte, and the trailer.
  method PostGap(out: string, tailer: array<char>, ghost base: nat, ghost gap: nat, ghost bytes: seq<Byte>, end: nat)
    returns (more: string)
    requires tailer.Length == 17 && end == gap + |bytes| && end % 16 != 0
    requires Midway(out, tailer[..], base, gap, bytes, end)
    ensures Complete(more, base, gap, bytes, end / 16 + 1)
  {
    hide Rows, Row, Head;
    more := out;
    ghost var r := end / 16;
    for k := end % 16 to 16
      invariant more == Rows(base, gap, bytes, r) + Head(base, r) + Cells(gap, bytes, r, k)
    {
      assert !Present(gap, |bytes|, r, k);
      more := more + if k + 1 == 16 then "   | " else "   ";
    }
    EndRow(more, tailer[..], base, gap, bytes, r);
    more := more + CString(tailer[..]);
  }

  // What is printed after the last byte.
  method Finish(out: string, tailer: array<char>, ghost start: Word, gap: nat, size: nat, ghost offset: nat,
                ghost bytes: seq<Byte>) returns (all: string)
    requires tailer.Length == 17 && size == |bytes| > 0 && gap == start % 16
    requires State(out, tailer[..], offset, start / 16 * 16, gap, bytes, gap + size)
    ensures all == Dump(start, bytes)
  {
    hide Row, Rows, Hex, CString, Cells, Head, Midway, Complete, Dump;
    all := out;
    if (gap + size) % 16 != 0 {
      all := PostGap(all, tailer, start / 16 * 16, gap, bytes, gap + size);
    }
    CompleteDump(all, start, bytes);
    all := all + "\n\n";
  }

  // binary_dump_with_char; start and size are such that neither the loop index nor the address of a row wraps around
  method BinaryDumpWithChar(start: Word, size: nat, buf: array?<Byte>) returns (out: string)
    requires buf != null ==> size <= buf.Length
    requires start + size <= 0x1_0000_0000 && start % 16 + size < 0x8000_0000
    ensures size == 0 || buf == null ==> out == ""
    ensures size > 0 && buf != null ==> out == Dump(start, buf[..size])
  {
    out := "";
    if size == 0 || buf == null {
      return;
    }
    var tailer := new char[17];
    Blank(tailer);
    var gap := start % 16;
    var offset;
    out, offset := DumpBytes(start / 16 * 16, gap, size, buf, tailer);
    out := Finish(out, tailer, start, gap, size, offset, buf[..size]);
  }

  // The loop over the bytes.
  method DumpBytes(first: nat, gap: nat, size: nat, buf: array<Byte>, tailer: array<char>)
    returns (out: string, offset: nat)
    requires 0 < size <= buf.Length && gap < 16 && first % 16 == 0
    requires tailer.Length == 17 && tailer[..] == seq(16, i => ' ') + ['\0']
    modifies tailer
    ensures State(out, tailer[..], offset, first, gap, buf[..size], gap + size)
    ensures buf[..size] == old(buf[..size])
  {
    hide State;
    offset := first;
    ghost var bytes := buf[..size];
    assert forall k :: 0 <= k < size ==> bytes[k] == buf[k];
    out := PreGap(offset, gap, tailer[..], bytes);
    for j := gap to gap + size
      invariant State(out, tailer[..], offset, first, gap, bytes, j)
    {
      out, offset := PutByte(out, tailer, offset, j, gap + size, buf[j - gap], first, gap, bytes);
    }
  }

  lemma CompleteDump(out: string, start: nat, bytes: seq<Byte>)
    requires Complete(out, start / 16 * 16, start % 16, bytes, RowCount(start % 16, |bytes|))
    ensures out + "\n\n" == Dump(start, bytes)
  {
    hide Row;
    assert out + "\n\n" == out + "\n" + "\n";
  }

  // The address and the blank columns before the first byte.
  method PreGap(offset: nat, gap: nat, ghost tailer: string, ghost bytes: seq<Byte>) returns (out: string)
    requires gap < 16 && offset % 16 == 0 && bytes != [] && tailer == seq(16, i => ' ') + ['\0']
    ensures State(out, tailer, offset, offset, gap, bytes, gap)
  {
    hide Hex;
    out := Hex(offset, 8) + "  ";
    assert out == Head(offset, 0) && Cells(gap, bytes, 0, 0) == "";
    for i := 0 to gap
      invariant out == Head(offset, 0) + Cells(gap, bytes, 0, i)
    {
      hide Head;
      assert !Present(gap, |bytes|, 0, i);
      out := out + "   ";
    }
    assert Rows(offset, gap, bytes, 0) == "";
  }
}
