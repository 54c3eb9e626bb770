/** Reading a table back from its ASCII-box rendering: the header line and the
    data lines are split on '|', every fragment is trimmed, and empty fragments
    are dropped. The text itself comes from the database's pretty printer,
    which is not modelled; the input here is its sequence of lines. */
module PrettyTable {
  import CustomTable

  // ---------------------------------------------------------------------------
  // Whitespace and trimming (`str::trim`)

  /** `char::is_whitespace`: the characters with the Unicode White_Space property. */
  predicate IsWhitespace(c: char)
    ensures c == ' ' || c == '\t' || c == '\n' || c == '\r' ==> IsWhitespace(c)
    ensures IsWhitespace(c) ==> c != '|' && c != '+'
  {
    || c == ' ' || ('\t' <= c <= '\r')
    || c == '\U{0085}' || c == '\U{00A0}' || c == '\U{1680}'
    || ('\U{2000}' <= c <= '\U{200A}')
    || c == '\U{2028}' || c == '\U{2029}' || c == '\U{202F}' || c == '\U{205F}' || c == '\U{3000}'
  }

  /** Every character is whitespace: what `trim().is_empty()` tests (see Trim). */
  predicate AllWhitespace(s: string)
  {
    forall k :: 0 <= k < |s| ==> IsWhitespace(s[k])
  }

  /** Neither begins nor ends with whitespace (the empty string included). */
  ghost predicate IsTrimmed(s: string)
  {
    s == [] || (!IsWhitespace(s[0]) && !IsWhitespace(s[|s| - 1]))
  }

  /** The index of the first character at or after i that is not whitespace,
      or |s| when there is none. */
  function SkipWhitespace(s: string, i: nat): (j: nat)
    requires i <= |s|
    ensures i <= j <= |s|
    ensures forall k :: i <= k < j ==> IsWhitespace(s[k])
    ensures j < |s| ==> !IsWhitespace(s[j])
    decreases |s| - i
  {
    if i == |s| || !IsWhitespace(s[i]) then i else SkipWhitespace(s, i + 1)
  }

  /** Going back from e, the index just after the last character at or after lo
      that is not whitespace, or lo when there is none. */
  function SkipWhitespaceBack(s: string, lo: nat, e: nat): (j: nat)
    requires lo <= e <= |s|
    ensures lo <= j <= e
    ensures forall k :: j <= k < e ==> IsWhitespace(s[k])
    ensures j > lo ==> !IsWhitespace(s[j - 1])
    decreases e
  {
    if e == lo || !IsWhitespace(s[e - 1]) then e else SkipWhitespaceBack(s, lo, e - 1)
  }

  /** How many whitespace characters `Trim` removes from the front. */
  function Leading(s: string): (n: nat)
    ensures n <= |s|
  {
    SkipWhitespace(s, 0)
  }

  /** `str::trim`: s without its leading and trailing whitespace. What it drops
      on either side is whitespace, and what it keeps is a slice of s that
      neither begins nor ends with whitespace, so exactly the leading and the
      trailing whitespace go. The result is empty exactly when s is all
      whitespace. */
  function Trim(s: string): (r: string)
    ensures |r| <= |s| - Leading(s) && r == s[Leading(s)..Leading(s) + |r|]
    ensures forall k :: 0 <= k < Leading(s) ==> IsWhitespace(s[k])
    ensures forall k :: Leading(s) + |r| <= k < |s| ==> IsWhitespace(s[k])
    ensures IsTrimmed(r)
    ensures r == [] <==> AllWhitespace(s)
  {
    var a := Leading(s);
    var b := SkipWhitespaceBack(s, a, |s|);
    s[a..b]
  }

  /** A fragment free of '|' trims to a string free of '|'. */
  lemma TrimNoBar(s: string)
    requires '|' !in s
    ensures '|' !in Trim(s)
  {
  }

  /** Trimming undoes whitespace padding around trimmed text. */
  lemma TrimPadded(w1: string, c: string, w2: string)
    requires AllWhitespace(w1) && AllWhitespace(w2) && IsTrimmed(c)
    ensures Trim(w1 + c + w2) == c
  {
    var s := w1 + c + w2;
    forall k | 0 <= k < |w1| ensures IsWhitespace(s[k]) {
      assert s[k] == w1[k];
    }
    forall k | |w1| + |c| <= k < |s| ensures IsWhitespace(s[k]) {
      assert s[k] == w2[k - |w1| - |c|];
    }
    if c == [] {
      assert AllWhitespace(s);
    } else {
      assert s[|w1|] == c[0];
      assert s[|w1| + |c| - 1] == c[|c| - 1];
      assert Leading(s) == |w1|;
    }
  }

  // ---------------------------------------------------------------------------
  // Splitting on '|' (`str::split('|')`)

  /** The fragments joined back with '|' between them. */
  function Join(parts: seq<string>): string
  {
    if |parts| == 0 then ""
    else if |parts| == 1 then parts[0]
    else parts[0] + "|" + Join(parts[1..])
  }

  /** `str::split('|')`: the '|'-free fragments between the bars, in order, empty
      ones included (JoinSplit: joining them back gives s again). */
  function Split(s: string): (parts: seq<string>)
    ensures |parts| >= 1
    ensures forall k :: 0 <= k < |parts| ==> '|' !in parts[k]
  {
    if |s| == 0 then [""]
    else
      var rest := Split(s[1..]);
      if s[0] == '|' then [""] + rest
      else [[s[0]] + rest[0]] + rest[1..]
  }

  /** Joining the fragments with '|' gives back the line. */
  lemma {:induction false} JoinSplit(s: string)
    ensures Join(Split(s)) == s
  {
    if |s| > 0 {
      JoinSplit(s[1..]);
      var rest := Split(s[1..]);
      if s[0] == '|' {
        assert s == "|" + s[1..];
      } else {
        var parts := [[s[0]] + rest[0]] + rest[1..];
        assert parts[1..] == rest[1..];
        assert s == [s[0]] + s[1..];
        if |rest| > 1 {
          assert Join(parts) == ([s[0]] + rest[0]) + "|" + Join(rest[1..]);
          assert Join(rest) == rest[0] + "|" + Join(rest[1..]);
        }
      }
    }
  }

  lemma {:induction false} SplitNoBar(a: string)
    requires '|' !in a
    ensures Split(a) == [a]
  {
    if |a| > 0 {
      SplitNoBar(a[1..]);
      assert [a[0]] + a[1..] == a;
    }
  }

  lemma {:induction false} SplitAfterBar(a: string, b: string)
    requires '|' !in a
    ensures Split(a + "|" + b) == [a] + Split(b)
    decreases |a|
  {
    var s := a + "|" + b;
    if |a| == 0 {
      assert s[1..] == b;
    } else {
      assert s[1..] == a[1..] + "|" + b;
      SplitAfterBar(a[1..], b);
      assert [a[0]] + a[1..] == a;
    }
  }

  /** Split inverts Join on '|'-free fragments. */
  lemma {:induction false} SplitJoin(parts: seq<string>)
    requires |parts| >= 1
    requires forall k :: 0 <= k < |parts| ==> '|' !in parts[k]
    ensures Split(Join(parts)) == parts
  {
    if |parts| == 1 {
      SplitNoBar(parts[0]);
    } else {
      SplitJoin(parts[1..]);
      SplitAfterBar(parts[0], Join(parts[1..]));
    }
  }

  // ---------------------------------------------------------------------------
  // Cells of one line

  /** What the parser keeps of a fragment: non-empty, free of '|', and trimmed. */
  ghost predicate IsCellText(c: string)
  {
    c != [] && '|' !in c && IsTrimmed(c)
  }

  /** What one fragment leaves: its trimmed text, or nothing when that is empty. */
  function Kept(part: string): (r: seq<string>)
    ensures |r| <= 1
    ensures '|' !in part ==> forall k :: 0 <= k < |r| ==> IsCellText(r[k])
  {
    var t := Trim(part);
    if '|' !in part then TrimNoBar(part); (if t == "" then [] else [t])
    else if t == "" then [] else [t]
  }

  /** Trims every fragment and drops those that end up empty, keeping the order. */
  function KeepTrimmed(parts: seq<string>): (r: seq<string>)
    ensures |r| <= |parts|
    ensures (forall k :: 0 <= k < |parts| ==> '|' !in parts[k]) ==>
              forall k :: 0 <= k < |r| ==> IsCellText(r[k])
  {
    if |parts| == 0 then [] else Kept(parts[0]) + KeepTrimmed(parts[1..])
  }

  lemma {:induction false} KeepTrimmedAppend(a: seq<string>, b: seq<string>)
    ensures KeepTrimmed(a + b) == KeepTrimmed(a) + KeepTrimmed(b)
  {
    if |a| == 0 {
      assert a + b == b;
    } else {
      calc {
        KeepTrimmed(a + b);
        == { assert (a + b)[1..] == a[1..] + b; assert (a + b)[0] == a[0]; }
        Kept(a[0]) + KeepTrimmed(a[1..] + b);
        == { KeepTrimmedAppend(a[1..], b); }
        Kept(a[0]) + (KeepTrimmed(a[1..]) + KeepTrimmed(b));
        ==
        (Kept(a[0]) + KeepTrimmed(a[1..])) + KeepTrimmed(b);
      }
    }
  }

  /** The cells of one line of the box: `split('|')`, `trim`, drop the empty ones. */
  function Cells(line: string): (r: seq<string>)
    ensures |r| <= |Split(line)|
    ensures forall k :: 0 <= k < |r| ==> IsCellText(r[k])
  {
    KeepTrimmed(Split(line))
  }

  /** A fragment that trims to empty leaves no cell: a line with a blank
      fragment has fewer cells than fragments. */
  lemma {:induction false} BlankFragmentDropped(parts: seq<string>, k: nat)
    requires k < |parts| && AllWhitespace(parts[k])
    ensures |KeepTrimmed(parts)| < |parts|
  {
    if k > 0 {
      BlankFragmentDropped(parts[1..], k - 1);
    } else {
      assert Trim(parts[0]) == "";
      assert Kept(parts[0]) == [];
    }
  }

  // ---------------------------------------------------------------------------
  // The whole box (`create_table`)

  /** The printer's border lines (`+----+`) are the ones that start with '+'. */
  predicate IsBorder(line: string)
  {
    |line| > 0 && line[0] == '+'
  }

  /** Data lines are those that are neither borders nor blank; such a line is
      never empty (see DataLineIffTrimmed for the test as the program writes it). */
  predicate IsDataLine(line: string)
    ensures IsDataLine(line) ==> line != [] && line[0] != '+'
  {
    !IsBorder(line) && !AllWhitespace(line)
  }

  /** The data-line test is the program's `!line.starts_with('+') && !line.trim().is_empty()`. */
  lemma DataLineIffTrimmed(line: string)
    ensures IsDataLine(line) <==> !(|line| > 0 && line[0] == '+') && Trim(line) != ""
  {
  }

  /** The rows read from lines j, j + 1, ...: one per data line, in order, each
      read into cells by `read`. */
  function RowsFrom(read: string -> seq<string>, lines: seq<string>, j: nat): (rows: seq<seq<string>>)
    ensures |rows| <= if j < |lines| then |lines| - j else 0
    decreases |lines| - j
  {
    if j >= |lines| then []
    else (if IsDataLine(lines[j]) then [read(lines[j])] else []) + RowsFrom(read, lines, j + 1)
  }

  /** `create_table`: fewer than five lines give the empty table; otherwise the
      headers are the cells of line 1 and the rows those of the data lines from
      line 3 on, and the widths are computed as `Table::new` does. */
  function CreateTable(dw: string -> nat, lines: seq<string>): (t: CustomTable.Table)
    ensures |lines| < 5 ==> t.headers == [] && t.rows == []
    ensures |lines| >= 5 ==> t.headers == Cells(lines[1]) && t.rows == RowsFrom(Cells, lines, 3)
    ensures CustomTable.HasColumnWidths(dw, t)
  {
    if |lines| < 5 then CustomTable.New(dw, [], [])
    else CustomTable.New(dw, Cells(lines[1]), RowsFrom(Cells, lines, 3))
  }

  /** The indices of the data lines from j on, ascending. */
  function DataIndices(lines: seq<string>, j: nat): seq<nat>
    decreases |lines| - j
  {
    if j >= |lines| then []
    else (if IsDataLine(lines[j]) then [j] else []) + DataIndices(lines, j + 1)
  }

  /** Rows correspond one to one, in order, to the data lines from j on: the m-th
      row is the cells of the m-th such line (see DataIndicesExact for which lines
      those are). */
  lemma {:induction false} RowsMatchDataLines(read: string -> seq<string>, lines: seq<string>, j: nat)
    ensures |RowsFrom(read, lines, j)| == |DataIndices(lines, j)|
    ensures forall m :: 0 <= m < |DataIndices(lines, j)| ==>
      DataIndices(lines, j)[m] < |lines| && RowsFrom(read, lines, j)[m] == read(lines[DataIndices(lines, j)[m]])
    decreases |lines| - j
  {
    if j < |lines| {
      RowsMatchDataLines(read, lines, j + 1);
      DataIndicesExact(lines, j + 1);
      var rows, idx := RowsFrom(read, lines, j + 1), DataIndices(lines, j + 1);
      if IsDataLine(lines[j]) {
        assert RowsFrom(read, lines, j) == [read(lines[j])] + rows;
        assert DataIndices(lines, j) == [j] + idx;
      } else {
        assert RowsFrom(read, lines, j) == rows;
        assert DataIndices(lines, j) == idx;
      }
    }
  }

  /** DataIndices(lines, j) lists, in ascending order, exactly the indices from j
      on whose lines are data lines. */
  lemma DataIndicesExact(lines: seq<string>, j: nat)
    ensures forall m :: 0 <= m < |DataIndices(lines, j)| ==>
      j <= DataIndices(lines, j)[m] < |lines| && IsDataLine(lines[DataIndices(lines, j)[m]])
    ensures forall m, m' :: 0 <= m < m' < |DataIndices(lines, j)| ==>
      DataIndices(lines, j)[m] < DataIndices(lines, j)[m']
    ensures forall i :: j <= i < |lines| && IsDataLine(lines[i]) ==> i in DataIndices(lines, j)
  {
    DataIndicesSound(lines, j);
    DataIndicesAscending(lines, j);
    DataIndicesComplete(lines, j);
  }

  lemma {:induction false} DataIndicesSound(lines: seq<string>, j: nat)
    ensures forall m :: 0 <= m < |DataIndices(lines, j)| ==>
      j <= DataIndices(lines, j)[m] < |lines| && IsDataLine(lines[DataIndices(lines, j)[m]])
    decreases |lines| - j
  {
    if j < |lines| {
      DataIndicesSound(lines, j + 1);
      var idx := DataIndices(lines, j + 1);
      if IsDataLine(lines[j]) {
        var all := [j] + idx;
        assert DataIndices(lines, j) == all;
        forall m | 0 < m < |all| ensures j <= all[m] < |lines| && IsDataLine(lines[all[m]]) {
          assert all[m] == idx[m - 1];
        }
      }
    }
  }

  lemma {:induction false} DataIndicesAscending(lines: seq<string>, j: nat)
    ensures forall m, m' :: 0 <= m < m' < |DataIndices(lines, j)| ==>
      DataIndices(lines, j)[m] < DataIndices(lines, j)[m']
    decreases |lines| - j
  {
    if j < |lines| {
      DataIndicesAscending(lines, j + 1);
      DataIndicesSound(lines, j + 1);
      var idx := DataIndices(lines, j + 1);
      if IsDataLine(lines[j]) {
        var all := [j] + idx;
        assert DataIndices(lines, j) == all;
        forall m, m' | 0 <= m < m' < |all| ensures all[m] < all[m'] {
          if m > 0 { assert all[m] == idx[m - 1]; }
          assert all[m'] == idx[m' - 1];
        }
      }
    }
  }

  lemma {:induction false} DataIndicesComplete(lines: seq<string>, j: nat)
    ensures forall i :: j <= i < |lines| && IsDataLine(lines[i]) ==> i in DataIndices(lines, j)
    decreases |lines| - j
  {
    if j < |lines| {
      DataIndicesComplete(lines, j + 1);
    }
  }

  /** No header and no cell is empty, contains '|' or has surrounding whitespace,
      and there are never more rows than lines after the first three. */
  lemma CreateTableClean(dw: string -> nat, lines: seq<string>)
    ensures var t := CreateTable(dw, lines);
      && (forall k :: 0 <= k < |t.headers| ==> IsCellText(t.headers[k]))
      && (forall r, k :: r in t.rows && 0 <= k < |r| ==> IsCellText(r[k]))
      && |t.rows| <= if |lines| < 5 then 0 else |lines| - 3
  {
    if |lines| >= 5 {
      RowsAreCells(lines, 3);
    }
  }

  lemma {:induction false} RowsAreCells(lines: seq<string>, j: nat)
    ensures forall r, k :: r in RowsFrom(Cells, lines, j) && 0 <= k < |r| ==> IsCellText(r[k])
    ensures |RowsFrom(Cells, lines, j)| <= if j < |lines| then |lines| - j else 0
    decreases |lines| - j
  {
    if j < |lines| {
      RowsAreCells(lines, j + 1);
    }
  }

  // ---------------------------------------------------------------------------
  // Round trip through the box layout, and blank cells

  function Spaces(n: nat): (r: string)
    ensures |r| == n && AllWhitespace(r) && '|' !in r
  {
    seq(n, _ => ' ')
  }

  /** How the printer lays out one cell: a space, the text, then `pad` spaces of
      alignment and a closing space. */
  function Segment(c: string, pad: nat): string
  {
    " " + c + Spaces(pad + 1)
  }

  /** The cells laid out between bars, each followed by its closing '|'. */
  function Boxed(cells: seq<string>, pads: seq<nat>): string
    requires |pads| == |cells|
  {
    if |cells| == 0 then "" else Segment(cells[0], pads[0]) + "|" + Boxed(cells[1..], pads[1..])
  }

  /** One row (or the header row) as a line of the box. */
  function BoxLine(cells: seq<string>, pads: seq<nat>): string
    requires |pads| == |cells|
  {
    "|" + Boxed(cells, pads)
  }

  function Padded(cells: seq<string>, pads: seq<nat>): seq<string>
    requires |pads| == |cells|
  {
    if |cells| == 0 then [] else [Segment(cells[0], pads[0])] + Padded(cells[1..], pads[1..])
  }

  /** Text a cell can hold for the round trip: trimmed and free of '|'. */
  ghost predicate Representable(c: string)
  {
    '|' !in c && IsTrimmed(c)
  }

  /** The cells that are not empty, in order. */
  function NonEmpty(cells: seq<string>): seq<string>
  {
    if |cells| == 0 then []
    else (if cells[0] == "" then [] else [cells[0]]) + NonEmpty(cells[1..])
  }

  lemma {:induction false} SplitBoxed(cells: seq<string>, pads: seq<nat>)
    requires |pads| == |cells|
    requires forall k :: 0 <= k < |cells| ==> '|' !in cells[k]
    ensures Split(Boxed(cells, pads)) == Padded(cells, pads) + [""]
  {
    if |cells| > 0 {
      var seg := Segment(cells[0], pads[0]);
      assert '|' !in seg by {
        assert seg == " " + cells[0] + Spaces(pads[0] + 1);
        assert '|' !in Spaces(pads[0] + 1);
      }
      SplitBoxed(cells[1..], pads[1..]);
      calc {
        Split(Boxed(cells, pads));
        == { SplitAfterBar(seg, Boxed(cells[1..], pads[1..])); }
        [seg] + Split(Boxed(cells[1..], pads[1..]));
        ==
        [seg] + (Padded(cells[1..], pads[1..]) + [""]);
        ==
        ([seg] + Padded(cells[1..], pads[1..])) + [""];
      }
    }
  }

  /** The fragments of a box line: an empty one before the first bar, one
      padded segment per cell, and an empty one after the last bar. */
  lemma SplitBoxLine(cells: seq<string>, pads: seq<nat>)
    requires |pads| == |cells|
    requires forall k :: 0 <= k < |cells| ==> '|' !in cells[k]
    ensures Split(BoxLine(cells, pads)) == [""] + Padded(cells, pads) + [""]
  {
    assert BoxLine(cells, pads) == "" + "|" + Boxed(cells, pads);
    SplitAfterBar("", Boxed(cells, pads));
    SplitBoxed(cells, pads);
  }

  lemma {:induction false} KeepPadded(cells: seq<string>, pads: seq<nat>)
    requires |pads| == |cells|
    requires forall k :: 0 <= k < |cells| ==> Representable(cells[k])
    ensures KeepTrimmed(Padded(cells, pads)) == NonEmpty(cells)
  {
    if |cells| > 0 {
      TrimPadded(" ", cells[0], Spaces(pads[0] + 1));
      assert (if cells[0] == "" then [] else [cells[0]]) == Kept(Segment(cells[0], pads[0]));
      KeepPadded(cells[1..], pads[1..]);
    }
  }

  /** As written, `create_table`'s cell reader gives back the non-empty cells of a
      box line: every empty cell (a null value prints as one) disappears, and the
      cells after it move one column to the left. */
  lemma CellsOfBoxLine(cells: seq<string>, pads: seq<nat>)
    requires |pads| == |cells|
    requires forall k :: 0 <= k < |cells| ==> Representable(cells[k])
    ensures Cells(BoxLine(cells, pads)) == NonEmpty(cells)
  {
    SplitBoxLine(cells, pads);
    var padded := Padded(cells, pads);
    KeepTrimmedAppend([""] + padded, [""]);
    KeepTrimmedAppend([""], padded);
    assert KeepTrimmed([""]) == [];
    KeepPadded(cells, pads);
  }

  /** So a box line with no empty cell reads back as its own cells ... */
  lemma CellsRoundTrip(cells: seq<string>, pads: seq<nat>)
    requires |pads| == |cells|
    requires forall k :: 0 <= k < |cells| ==> Representable(cells[k])
    requires NoneEmpty(cells)
    ensures Cells(BoxLine(cells, pads)) == cells
  {
    CellsOfBoxLine(cells, pads);
    NonEmptyIdentity(cells);
  }

  /** ... and one with an empty cell does not. */
  lemma CellsLoseEmpty(cells: seq<string>, pads: seq<nat>)
    requires |pads| == |cells|
    requires forall k :: 0 <= k < |cells| ==> Representable(cells[k])
    requires !NoneEmpty(cells)
    ensures Cells(BoxLine(cells, pads)) != cells
  {
    CellsOfBoxLine(cells, pads);
    NonEmptyIdentity(cells);
  }

  lemma {:induction false} NonEmptyIdentity(cells: seq<string>)
    ensures NonEmpty(cells) == cells <==> NoneEmpty(cells)
  {
    if |cells| > 0 {
      NonEmptyIdentity(cells[1..]);
      NonEmptyShorter(cells[1..]);
      if cells[0] == "" {
        assert |NonEmpty(cells)| < |cells|;
      } else {
        assert NonEmpty(cells) == [cells[0]] + NonEmpty(cells[1..]);
        if NonEmpty(cells) == cells {
          assert NonEmpty(cells[1..]) == cells[1..];
        }
        if forall k :: 0 <= k < |cells| ==> cells[k] != "" {
          assert forall k :: 0 <= k < |cells[1..]| ==> cells[1..][k] != "" by {
            forall k | 0 <= k < |cells[1..]| ensures cells[1..][k] != "" { assert cells[1..][k] == cells[k + 1]; }
          }
          assert [cells[0]] + cells[1..] == cells;
        }
      }
    }
  }

  ghost predicate NoneEmpty(cells: seq<string>)
  {
    forall k :: 0 <= k < |cells| ==> cells[k] != ""
  }

  lemma {:induction false} NonEmptyShorter(cells: seq<string>)
    ensures |NonEmpty(cells)| <= |cells|
  {
    if |cells| > 0 {
      NonEmptyShorter(cells[1..]);
    }
  }

  /** A row whose first cell is empty (a null value) next to a non-empty name
      reads back as just the name, which is then drawn in the first column. */
  lemma {:induction false} BlankCellShiftsLeft(cells: seq<string>, pads: seq<nat>)
    requires |cells| == 2 && |pads| == 2
    requires cells[0] == "" && cells[1] != "" && Representable(cells[1])
    ensures Cells(BoxLine(cells, pads)) == [cells[1]]
  {
    assert forall k :: 0 <= k < |cells| ==> Representable(cells[k]);
    CellsOfBoxLine(cells, pads);
    NonEmptyPair(cells);
  }

  lemma NonEmptyPair(cells: seq<string>)
    requires |cells| == 2 && cells[0] == "" && cells[1] != ""
    ensures NonEmpty(cells) == [cells[1]]
  {
    assert NonEmpty(cells) == NonEmpty(cells[1..]);
    assert cells[1..][1..] == [];
  }

  // ---------------------------------------------------------------------------
  // Reading cells by position

  /** One trimmed string per fragment, blanks kept. */
  function TrimEach(parts: seq<string>): (r: seq<string>)
    ensures |r| == |parts|
    ensures forall k :: 0 <= k < |r| ==> r[k] == Trim(parts[k])
  {
    if |parts| == 0 then [] else [Trim(parts[0])] + TrimEach(parts[1..])
  }

  /** The cells of a box line by position: the fragments between the first and
      the last bar, trimmed, empty ones kept so that every cell stays in its
      column. A line with no bar has no cells. */
  function AlignedCells(line: string): (r: seq<string>)
    ensures |r| == if |Split(line)| < 2 then 0 else |Split(line)| - 2
  {
    var parts := Split(line);
    if |parts| < 2 then [] else TrimEach(parts[1..|parts| - 1])
  }

  /** Reading by position gives back every box line's cells, empty ones included. */
  lemma AlignedCellsRoundTrip(cells: seq<string>, pads: seq<nat>)
    requires |pads| == |cells|
    requires forall k :: 0 <= k < |cells| ==> Representable(cells[k])
    ensures AlignedCells(BoxLine(cells, pads)) == cells
  {
    SplitBoxLine(cells, pads);
    var parts := [""] + Padded(cells, pads) + [""];
    assert parts[1..|parts| - 1] == Padded(cells, pads);
    PaddedTrims(cells, pads);
  }

  lemma {:induction false} PaddedTrims(cells: seq<string>, pads: seq<nat>)
    requires |pads| == |cells|
    requires forall k :: 0 <= k < |cells| ==> Representable(cells[k])
    ensures TrimEach(Padded(cells, pads)) == cells
  {
    if |cells| > 0 {
      TrimPadded(" ", cells[0], Spaces(pads[0] + 1));
      PaddedTrims(cells[1..], pads[1..]);
      assert [cells[0]] + cells[1..] == cells;
    }
  }

  /** `create_table` with cells read by position: the table the box was printed
      from, blank cells included. */
  function CreateTableAligned(dw: string -> nat, lines: seq<string>): (t: CustomTable.Table)
    ensures |lines| < 5 ==> t.headers == [] && t.rows == []
    ensures |lines| >= 5 ==> t.headers == AlignedCells(lines[1]) && t.rows == RowsFrom(AlignedCells, lines, 3)
    ensures CustomTable.HasColumnWidths(dw, t)
  {
    if |lines| < 5 then CustomTable.New(dw, [], [])
    else CustomTable.New(dw, AlignedCells(lines[1]), RowsFrom(AlignedCells, lines, 3))
  }

  // ---------------------------------------------------------------------------
  // A whole printed box

  /** Every row has one padding width per cell. */
  ghost predicate PadsFit(rows: seq<seq<string>>, rpads: seq<seq<nat>>)
  {
    |rpads| == |rows| && forall i :: 0 <= i < |rows| ==> |rpads[i]| == |rows[i]|
  }

  function BoxLines(rows: seq<seq<string>>, rpads: seq<seq<nat>>): (r: seq<string>)
    requires PadsFit(rows, rpads)
    ensures |r| == |rows|
    ensures forall i :: 0 <= i < |rows| ==> r[i] == BoxLine(rows[i], rpads[i])
  {
    if |rows| == 0 then [] else [BoxLine(rows[0], rpads[0])] + BoxLines(rows[1..], rpads[1..])
  }

  /** A box as the printer lays it out: a border, the header line, a border, one
      line per row and a closing border. */
  function Box(headers: seq<string>, hpads: seq<nat>, rows: seq<seq<string>>, rpads: seq<seq<nat>>,
               border: string): (lines: seq<string>)
    requires |hpads| == |headers| && PadsFit(rows, rpads)
    ensures |lines| == |rows| + 4
  {
    [border, BoxLine(headers, hpads), border] + BoxLines(rows, rpads) + [border]
  }

  /** Every cell of the header and of the rows can be printed and read back. */
  ghost predicate Printable(headers: seq<string>, rows: seq<seq<string>>)
  {
    && (forall k :: 0 <= k < |headers| ==> Representable(headers[k]))
    && (forall i, k :: 0 <= i < |rows| && 0 <= k < |rows[i]| ==> Representable(rows[i][k]))
  }

  lemma BoxLineIsData(cells: seq<string>, pads: seq<nat>)
    requires |pads| == |cells|
    ensures IsDataLine(BoxLine(cells, pads))
  {
    assert BoxLine(cells, pads)[0] == '|';
  }

  /** The lines from j up to (not including) e are data lines and those from e on
      are not: the rows read from j are those lines, each read. */
  lemma {:induction false} RowsOfDataRun(read: string -> seq<string>, lines: seq<string>, j: nat, e: nat)
    requires j <= e <= |lines|
    requires forall i :: j <= i < e ==> IsDataLine(lines[i])
    requires forall i :: e <= i < |lines| ==> !IsDataLine(lines[i])
    ensures |RowsFrom(read, lines, j)| == e - j
    ensures forall i :: 0 <= i < e - j ==> RowsFrom(read, lines, j)[i] == read(lines[j + i])
    decreases |lines| - j
  {
    if j < |lines| {
      RowsOfDataRun(read, lines, j + 1, if e == j then e + 1 else e);
      if j < e {
        var rest := RowsFrom(read, lines, j + 1);
        assert RowsFrom(read, lines, j) == [read(lines[j])] + rest;
        forall i | 0 < i < e - j ensures RowsFrom(read, lines, j)[i] == read(lines[j + i]) {
          assert RowsFrom(read, lines, j)[i] == rest[i - 1];
        }
      }
    }
  }

  /** The rows read from a whole box are the lines between the second border and
      the last, each read. */
  lemma BoxRows(read: string -> seq<string>, headers: seq<string>, hpads: seq<nat>,
                rows: seq<seq<string>>, rpads: seq<seq<nat>>, border: string)
    requires |hpads| == |headers| && PadsFit(rows, rpads) && IsBorder(border)
    ensures var got := RowsFrom(read, Box(headers, hpads, rows, rpads, border), 3);
      |got| == |rows| && forall i :: 0 <= i < |rows| ==> got[i] == read(BoxLine(rows[i], rpads[i]))
  {
    var lines := Box(headers, hpads, rows, rpads, border);
    var body := BoxLines(rows, rpads);
    forall i | 3 <= i < |rows| + 3 ensures IsDataLine(lines[i]) {
      assert lines[i] == body[i - 3];
      BoxLineIsData(rows[i - 3], rpads[i - 3]);
    }
    assert lines[|rows| + 3] == border;
    RowsOfDataRun(read, lines, 3, |rows| + 3);
    forall i | 0 <= i < |rows| ensures lines[3 + i] == BoxLine(rows[i], rpads[i]) {
      assert lines[3 + i] == body[i];
    }
  }

  /** The rows a printed box reads back as, as written: its rows' non-empty cells. */
  lemma BoxRowsCells(headers: seq<string>, hpads: seq<nat>,
                     rows: seq<seq<string>>, rpads: seq<seq<nat>>, border: string)
    requires |hpads| == |headers| && PadsFit(rows, rpads) && IsBorder(border)
    requires Printable(headers, rows)
    ensures var got := RowsFrom(Cells, Box(headers, hpads, rows, rpads, border), 3);
      |got| == |rows| && forall i :: 0 <= i < |rows| ==> got[i] == NonEmpty(rows[i])
  {
    BoxRows(Cells, headers, hpads, rows, rpads, border);
    CellsOfBoxLines(rows, rpads);
  }

  lemma CellsOfBoxLines(rows: seq<seq<string>>, rpads: seq<seq<nat>>)
    requires PadsFit(rows, rpads)
    requires forall i, k :: 0 <= i < |rows| && 0 <= k < |rows[i]| ==> Representable(rows[i][k])
    ensures forall i :: 0 <= i < |rows| ==> Cells(BoxLine(rows[i], rpads[i])) == NonEmpty(rows[i])
  {
    forall i | 0 <= i < |rows| ensures Cells(BoxLine(rows[i], rpads[i])) == NonEmpty(rows[i]) {
      CellsOfBoxLine(rows[i], rpads[i]);
    }
  }

  /** As written: reading a printed box gives the non-empty cells of every line,
      and a box without rows gives an empty table (no header either). */
  lemma CreateTableOfBox(dw: string -> nat, headers: seq<string>, hpads: seq<nat>,
                         rows: seq<seq<string>>, rpads: seq<seq<nat>>, border: string)
    requires |hpads| == |headers| && PadsFit(rows, rpads) && IsBorder(border)
    requires Printable(headers, rows)
    ensures var t := CreateTable(dw, Box(headers, hpads, rows, rpads, border));
      && (|rows| == 0 ==> t.headers == [] && t.rows == [])
      && (|rows| > 0 ==> t.headers == NonEmpty(headers) && |t.rows| == |rows|)
      && forall i :: 0 <= i < |t.rows| ==> t.rows[i] == NonEmpty(rows[i])
  {
    if |rows| > 0 {
      BoxHeaderCells(headers, hpads, rows, rpads, border);
      BoxRowsCells(headers, hpads, rows, rpads, border);
    }
  }

  lemma BoxHeaderCells(headers: seq<string>, hpads: seq<nat>,
                       rows: seq<seq<string>>, rpads: seq<seq<nat>>, border: string)
    requires |hpads| == |headers| && PadsFit(rows, rpads)
    requires forall k :: 0 <= k < |headers| ==> Representable(headers[k])
    ensures Cells(Box(headers, hpads, rows, rpads, border)[1]) == NonEmpty(headers)
  {
    assert Box(headers, hpads, rows, rpads, border)[1] == BoxLine(headers, hpads);
    CellsOfBoxLine(headers, hpads);
  }

  /** Corrected: reading a printed box by position gives back its header and its
      rows exactly, once there is at least one row. */
  lemma CreateTableAlignedOfBox(dw: string -> nat, headers: seq<string>, hpads: seq<nat>,
                                rows: seq<seq<string>>, rpads: seq<seq<nat>>, border: string)
    requires |hpads| == |headers| && PadsFit(rows, rpads) && IsBorder(border)
    requires Printable(headers, rows)
    ensures var t := CreateTableAligned(dw, Box(headers, hpads, rows, rpads, border));
      && (|rows| == 0 ==> t.headers == [] && t.rows == [])
      && (|rows| > 0 ==> t.headers == headers && t.rows == rows)
  {
    var lines := Box(headers, hpads, rows, rpads, border);
    if |rows| > 0 {
      assert lines[1] == BoxLine(headers, hpads);
      AlignedCellsRoundTrip(headers, hpads);
      BoxRows(AlignedCells, headers, hpads, rows, rpads, border);
      var got := RowsFrom(AlignedCells, lines, 3);
      forall i | 0 <= i < |rows| ensures got[i] == rows[i] {
        AlignedCellsRoundTrip(rows[i], rpads[i]);
      }
    }
  }
}
