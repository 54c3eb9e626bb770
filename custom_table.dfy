/** The windowed table widget: a grid of strings with one display width per
    column, drawn through a scroll offset into a rectangular area. Display
    width is the terminal width of a string; it is a parameter `dw` here. */
module CustomTable {
  import opened Terminal

  /** The scroll offset: first visible column and first visible row. */
  datatype TableState = TableState(offsetX: U16, offsetY: U16)

  /** `TableState::default`. */
  function DefaultState(): (s: TableState)
    ensures s.offsetX == 0 && s.offsetY == 0
  {
    TableState(0, 0)
  }

  /** Headers, rows, one width per column, and the two styles (body and header). */
  datatype Table = Table(headers: seq<string>, rows: seq<seq<string>>, widths: seq<U16>,
                         style: Style, headerStyle: Style)

  /** The table that holds nothing. */
  const EmptyTable: Table := Table([], [], [], DefaultStyle, DefaultStyle)

  // ---------------------------------------------------------------------------
  // Column widths (Table::new)

  /** Width that a row contributes to column i: the truncated display width of its
      cell there, or 0 when the row is too short to have one. */
  function CellWidth(dw: string -> nat, row: seq<string>, i: nat): (w: U16)
    ensures i >= |row| ==> w == 0
    ensures i < |row| && dw(row[i]) <= U16_MAX ==> w == dw(row[i])
  {
    if i < |row| then TruncU16(dw(row[i])) else 0
  }

  /** w is the largest of the header's width and every row's contribution at column i. */
  ghost predicate IsColumnWidth(dw: string -> nat, header: string, rows: seq<seq<string>>, i: nat, w: int)
  {
    && TruncU16(dw(header)) <= w
    && (forall k :: 0 <= k < |rows| ==> CellWidth(dw, rows[k], i) <= w)
    && (w == TruncU16(dw(header)) || exists k :: 0 <= k < |rows| && w == CellWidth(dw, rows[k], i))
  }

  /** The widths of t are exactly the column widths of its headers and rows. */
  ghost predicate HasColumnWidths(dw: string -> nat, t: Table)
  {
    && |t.widths| == |t.headers|
    && forall i :: 0 <= i < |t.headers| ==> IsColumnWidth(dw, t.headers[i], t.rows, i, t.widths[i])
  }

  /** Largest contribution at column i over all rows; 0 when there are no rows. */
  function MaxCellWidth(dw: string -> nat, rows: seq<seq<string>>, i: nat): (m: U16)
    ensures forall k :: 0 <= k < |rows| ==> CellWidth(dw, rows[k], i) <= m
    ensures m == 0 || exists k :: 0 <= k < |rows| && m == CellWidth(dw, rows[k], i)
  {
    if |rows| == 0 then 0
    else
      var rest := MaxCellWidth(dw, rows[1..], i);
      var here := CellWidth(dw, rows[0], i);
      if here >= rest then here
      else
        assert exists k :: 0 <= k < |rows[1..]| && rest == CellWidth(dw, rows[1..][k], i);
        rest
  }

  function ColumnWidth(dw: string -> nat, header: string, rows: seq<seq<string>>, i: nat): (w: U16)
    ensures IsColumnWidth(dw, header, rows, i, w)
  {
    var h := TruncU16(dw(header));
    var m := MaxCellWidth(dw, rows, i);
    if h >= m then h else m
  }

  /** `Table::new`: keeps headers and rows and computes one width per header. */
  function New(dw: string -> nat, headers: seq<string>, rows: seq<seq<string>>): (t: Table)
    ensures t.headers == headers && t.rows == rows
    ensures t.style == DefaultStyle && t.headerStyle == DefaultStyle
    ensures HasColumnWidths(dw, t)
  {
    var widths := seq(|headers|, i requires 0 <= i < |headers| => ColumnWidth(dw, headers[i], rows, i));
    Table(headers, rows, widths, DefaultStyle, DefaultStyle)
  }

  /** No header and no cell of t is wider than 65535 cells, so `as u16` keeps
      every display width. */
  ghost predicate FitsU16(dw: string -> nat, t: Table)
  {
    && (forall i :: 0 <= i < |t.headers| ==> dw(t.headers[i]) <= U16_MAX)
    && (forall k, i :: 0 <= k < |t.rows| && 0 <= i < |t.rows[k]| ==> dw(t.rows[k][i]) <= U16_MAX)
  }

  /** Every header and cell of t is no wider than its column. */
  ghost predicate WidthsCover(dw: string -> nat, t: Table)
  {
    && (forall i :: 0 <= i < |t.headers| && i < |t.widths| ==> dw(t.headers[i]) <= t.widths[i])
    && (forall k, i :: 0 <= k < |t.rows| && 0 <= i < |t.rows[k]| && i < |t.widths| ==>
          dw(t.rows[k][i]) <= t.widths[i])
  }

  lemma ColumnWidthsCover(dw: string -> nat, t: Table)
    requires HasColumnWidths(dw, t) && FitsU16(dw, t)
    ensures WidthsCover(dw, t)
  {
  }

  // ---------------------------------------------------------------------------
  // Rendering (StatefulWidget::render), specified as the writes it makes

  /** What render needs of a table: one width per header, and no row longer
      than the header row (a longer row would index the widths out of bounds). */
  ghost predicate Renderable(t: Table)
  {
    && |t.widths| == |t.headers|
    && forall k :: 0 <= k < |t.rows| ==> |t.rows[k]| <= |t.headers|
  }

  /** The writes for one line: cells from index i on, the first at column x, each
      followed by a one-cell gap, stopping at the first cell whose column does not
      end by `right`. */
  function ColumnRun(cells: seq<string>, widths: seq<U16>, i: nat, x: nat, right: nat, y: nat, style: Style): seq<Op>
    requires |cells| <= |widths|
    decreases |cells| - i
  {
    if i >= |cells| || x + widths[i] > right then []
    else [Text(x, y, cells[i], style)] + ColumnRun(cells, widths, i + 1, x + widths[i] + 1, right, y, style)
  }

  /** The writes for data rows k, k + 1, ... when the line last written is y. */
  function RowsOps(t: Table, area: Rect, offsetX: nat, k: nat, y: nat): seq<Op>
    requires Renderable(t)
    decreases |t.rows| - k
  {
    if k >= |t.rows| || y >= Bottom(area) - 1 then []
    else
      ColumnRun(t.rows[k], t.widths, offsetX, Left(area), Right(area), y + 1, t.style)
      + RowsOps(t, area, offsetX, k + 1, y + 1)
  }

  /** One step of the row loop: the row drawn on the next line, then the rest. */
  lemma RowsOpsStep(t: Table, area: Rect, offsetX: nat, k: nat, y: nat)
    requires Renderable(t) && k < |t.rows| && y < Bottom(area) - 1
    ensures RowsOps(t, area, offsetX, k, y)
         == ColumnRun(t.rows[k], t.widths, offsetX, Left(area), Right(area), y + 1, t.style)
          + RowsOps(t, area, offsetX, k + 1, y + 1)
  {
  }

  lemma AppendAssoc(a: seq<Op>, b: seq<Op>, c: seq<Op>)
    ensures a + (b + c) == (a + b) + c
  {
  }

  /** All writes render makes: nothing for an empty area; otherwise the background,
      then the header line, then the data rows. */
  function RenderOps(t: Table, area: Rect, state: TableState): seq<Op>
    requires Renderable(t)
  {
    if area.width < 1 || area.height < 1 then []
    else
      [Fill(area, t.style)]
      + ColumnRun(t.headers, t.widths, state.offsetX, Left(area), Right(area), Top(area), t.headerStyle)
      + RowsOps(t, area, state.offsetX, state.offsetY, Top(area))
  }

  /** The u16 sums `x + width` and `x += width + 1` cannot overflow: after the
      right edge there is room for every column and its gap. */
  ghost predicate NoU16Overflow(widths: seq<U16>, area: Rect)
  {
    forall i :: 0 <= i < |widths| ==> Right(area) + widths[i] + 1 <= U16_MAX
  }

  /** `StatefulWidget::render` for a table without a block. */
  method Render(t: Table, area: Rect, buf: Buffer, state: TableState)
    requires Renderable(t) && NoU16Overflow(t.widths, area)
    modifies buf
    ensures buf.ops == old(buf.ops) + RenderOps(t, area, state)
    ensures area.width == 0 || area.height == 0 ==> buf.ops == old(buf.ops)
  {
    if area.width < 1 || area.height < 1 {
      return;
    }
    ghost var header := ColumnRun(t.headers, t.widths, state.offsetX, Left(area), Right(area), Top(area), t.headerStyle);
    ghost var rows := RowsOps(t, area, state.offsetX, state.offsetY, Top(area));
    buf.SetStyle(area, t.style);
    var y: U16 := Top(area);

    // Header line
    DrawLine(t.headers, t.widths, state.offsetX, area, y, t.headerStyle, buf);
    ghost var afterHeader := buf.ops;
    AppendAssoc(old(buf.ops), [Fill(area, t.style)], header);

    // Data rows
    var k: nat := state.offsetY;
    while k < |t.rows|
      invariant buf.ops + RowsOps(t, area, state.offsetX, k, y) == afterHeader + rows
      decreases |t.rows| - k
    {
      if y >= Bottom(area) - 1 {
        break;
      }
      ghost var before := buf.ops;
      RowsOpsStep(t, area, state.offsetX, k, y);
      y := AddU16(y, 1);
      DrawLine(t.rows[k], t.widths, state.offsetX, area, y, t.style, buf);
      AppendAssoc(before, ColumnRun(t.rows[k], t.widths, state.offsetX, Left(area), Right(area), y, t.style),
                  RowsOps(t, area, state.offsetX, k + 1, y));
      k := k + 1;
    }
    assert RowsOps(t, area, state.offsetX, k, y) == [];
    assert buf.ops == afterHeader + rows;
    AppendAssoc(old(buf.ops), [Fill(area, t.style)] + header, rows);
    assert RenderOps(t, area, state) == [Fill(area, t.style)] + header + rows;
  }

  /** One line of the grid (the body of either loop of render): the cells from
      index `from` on, placed left to right from the left edge, each followed by
      a one-cell gap, until the first cell whose column does not end by the
      right edge. */
  method DrawLine(cells: seq<string>, widths: seq<U16>, from: nat, area: Rect, y: U16, style: Style, buf: Buffer)
    requires |cells| <= |widths| && NoU16Overflow(widths, area)
    modifies buf
    ensures buf.ops == old(buf.ops) + ColumnRun(cells, widths, from, Left(area), Right(area), y, style)
  {
    var x: U16 := Left(area);
    var i: nat := from;
    while i < |cells|
      invariant x <= Right(area) + 1
      invariant buf.ops + ColumnRun(cells, widths, i, x, Right(area), y, style)
             == old(buf.ops) + ColumnRun(cells, widths, from, Left(area), Right(area), y, style)
      decreases |cells| - i
    {
      var width := widths[i];
      if AddU16(x, width) > Right(area) {
        break;
      }
      buf.SetString(x, y, cells[i], style);
      x := AddU16(x, AddU16(width, 1));
      i := i + 1;
    }
  }

  // ---------------------------------------------------------------------------
  // Properties of the writes

  /** Cells needed by the columns i .. i + n - 1, each with its one-cell gap. */
  function Span(widths: seq<U16>, i: nat, n: nat): nat
    requires i + n <= |widths|
    decreases n
  {
    if n == 0 then 0 else widths[i] + 1 + Span(widths, i + 1, n - 1)
  }

  /** One line is a contiguous run of columns from index i: the m-th write is cell
      i + m at x + Span(i, m) and ends by `right`; the first column after the run
      (when there is one) does not fit, and the run stops there. */
  lemma {:induction false} ColumnRunLayout(cells: seq<string>, widths: seq<U16>, i: nat, x: nat, right: nat, y: nat, style: Style)
    requires |cells| <= |widths|
    ensures var run := ColumnRun(cells, widths, i, x, right, y, style);
      && (|run| == 0 || i + |run| <= |cells|)
      && (forall m :: 0 <= m < |run| ==>
            && run[m] == Text(x + Span(widths, i, m), y, cells[i + m], style)
            && x + Span(widths, i, m) + widths[i + m] <= right)
      && (i + |run| < |cells| ==> x + Span(widths, i, |run|) + widths[i + |run|] > right)
    decreases |cells| - i
  {
    var run := ColumnRun(cells, widths, i, x, right, y, style);
    if i >= |cells| || x + widths[i] > right {
      assert run == [];
    } else {
      var x' := x + widths[i] + 1;
      var rest := ColumnRun(cells, widths, i + 1, x', right, y, style);
      ColumnRunLayout(cells, widths, i + 1, x', right, y, style);
      assert run == [Text(x, y, cells[i], style)] + rest;
      forall m | 0 < m <= |rest|
        ensures x + Span(widths, i, m) == x' + Span(widths, i + 1, m - 1)
      {
      }
    }
  }

  /** Every write of a line is on line y, starts no further left than x, and its
      text, measured by its display width, ends by `right`, when no cell is
      wider than its column. */
  lemma ColumnRunBounds(dw: string -> nat, cells: seq<string>, widths: seq<U16>, i: nat, x: nat, right: nat, y: nat, style: Style)
    requires |cells| <= |widths|
    requires forall j :: i <= j < |cells| ==> dw(cells[j]) <= widths[j]
    ensures forall n :: 0 <= n < |ColumnRun(cells, widths, i, x, right, y, style)| ==>
      LineOpInBounds(dw, x, right, y, style, ColumnRun(cells, widths, i, x, right, y, style)[n])
  {
    ColumnRunLayout(cells, widths, i, x, right, y, style);
  }

  /** op writes text in the given style on line y, between x and right. */
  ghost predicate LineOpInBounds(dw: string -> nat, x: nat, right: nat, y: nat, style: Style, op: Op)
  {
    && op.Text? && op.y == y && op.style == style
    && x <= op.x && op.x + dw(op.text) <= right
  }

  /** op writes body text below line y, inside the area. */
  ghost predicate RowOpInBounds(dw: string -> nat, t: Table, area: Rect, y: nat, op: Op)
  {
    && op.Text? && op.style == t.style
    && y < op.y < Bottom(area)
    && Left(area) <= op.x && op.x + dw(op.text) <= Right(area)
  }

  /** y-coordinates: every write of the data rows lies strictly below line y and
      above the bottom edge; x-coordinates as for one line. */
  lemma {:induction false} RowsOpsBounds(dw: string -> nat, t: Table, area: Rect, offsetX: nat, k: nat, y: nat)
    requires Renderable(t) && WidthsCover(dw, t)
    ensures forall n :: 0 <= n < |RowsOps(t, area, offsetX, k, y)| ==>
      RowOpInBounds(dw, t, area, y, RowsOps(t, area, offsetX, k, y)[n])
    decreases |t.rows| - k
  {
    if k < |t.rows| && y < Bottom(area) - 1 {
      var row := t.rows[k];
      var line := ColumnRun(row, t.widths, offsetX, Left(area), Right(area), y + 1, t.style);
      var rest := RowsOps(t, area, offsetX, k + 1, y + 1);
      ColumnRunBounds(dw, row, t.widths, offsetX, Left(area), Right(area), y + 1, t.style);
      RowsOpsBounds(dw, t, area, offsetX, k + 1, y + 1);
      var ops := line + rest;
      assert RowsOps(t, area, offsetX, k, y) == ops;
      forall n | 0 <= n < |ops|
        ensures RowOpInBounds(dw, t, area, y, ops[n])
      {
        if n >= |line| {
          assert ops[n] == rest[n - |line|];
          assert RowOpInBounds(dw, t, area, y + 1, rest[n - |line|]);
        } else {
          assert ops[n] == line[n];
        }
      }
    }
  }

  /** Render never writes outside the area, whatever the offsets: the first write
      paints exactly the area, and every later one is a string that starts at or
      right of the left edge, ends by the right edge and lies on a line of the
      area. An empty area gets no writes at all. This holds when no header or
      cell is wider than its column (ColumnWidthsCover gives that for texts of
      at most 65535 cells) and the u16 sums of render do not overflow, which is
      when render here does what the program does. */
  lemma RenderInBounds(dw: string -> nat, t: Table, area: Rect, state: TableState)
    requires Renderable(t) && WidthsCover(dw, t)
    requires WithinU16(area) && NoU16Overflow(t.widths, area)
    ensures var ops := RenderOps(t, area, state);
      && (area.width == 0 || area.height == 0 ==> ops == [])
      && forall n :: 0 <= n < |ops| ==>
           if n == 0 then ops[n] == Fill(area, t.style)
           else
             && ops[n].Text?
             && Left(area) <= ops[n].x && ops[n].x + dw(ops[n].text) <= Right(area)
             && Top(area) <= ops[n].y < Bottom(area)
  {
    if area.width >= 1 && area.height >= 1 {
      var header := ColumnRun(t.headers, t.widths, state.offsetX, Left(area), Right(area), Top(area), t.headerStyle);
      var rows := RowsOps(t, area, state.offsetX, state.offsetY, Top(area));
      ColumnRunBounds(dw, t.headers, t.widths, state.offsetX, Left(area), Right(area), Top(area), t.headerStyle);
      RowsOpsBounds(dw, t, area, state.offsetX, state.offsetY, Top(area));
      var ops := [Fill(area, t.style)] + header + rows;
      forall n | 1 <= n < |ops|
        ensures && ops[n].Text?
                && Left(area) <= ops[n].x && ops[n].x + dw(ops[n].text) <= Right(area)
                && Top(area) <= ops[n].y < Bottom(area)
      {
        if n <= |header| {
          assert ops[n] == header[n - 1];
        } else {
          assert ops[n] == rows[n - 1 - |header|];
        }
      }
    }
  }

  /** How many data rows render draws: rows remaining from offsetY, capped by the
      lines left below the header. */
  function DrawnRows(t: Table, area: Rect, state: TableState): nat
  {
    var avail := Bottom(area) - 1 - Top(area);
    var remaining := |t.rows| - state.offsetY;
    if avail <= 0 || remaining <= 0 then 0
    else if avail < remaining then avail
    else remaining
  }

  /** The writes for data row offsetY + j, placed on line Top + 1 + j. */
  function DataLine(t: Table, area: Rect, state: TableState, j: int): seq<Op>
    requires Renderable(t)
  {
    if 0 <= j && state.offsetY + j < |t.rows| then
      ColumnRun(t.rows[state.offsetY + j], t.widths, state.offsetX, Left(area), Right(area), Top(area) + 1 + j, t.style)
    else []
  }

  function Concat(lines: seq<seq<Op>>): seq<Op>
  {
    if |lines| == 0 then [] else lines[0] + Concat(lines[1..])
  }

  lemma {:induction false} RowsOpsWindow(t: Table, area: Rect, state: TableState, j: nat)
    requires Renderable(t)
    requires j <= DrawnRows(t, area, state)
    ensures RowsOps(t, area, state.offsetX, state.offsetY + j, Top(area) + j)
         == Concat(seq(DrawnRows(t, area, state) - j, m => DataLine(t, area, state, j + m)))
    decreases DrawnRows(t, area, state) - j
  {
    var n := DrawnRows(t, area, state);
    var lines := seq(n - j, m => DataLine(t, area, state, j + m));
    if j < n {
      RowsOpsWindow(t, area, state, j + 1);
      assert state.offsetY + j < |t.rows| && Top(area) + j < Bottom(area) - 1;
      assert lines[0] == DataLine(t, area, state, j);
      assert lines[1..] == seq(n - (j + 1), m => DataLine(t, area, state, j + 1 + m));
      assert Concat(lines) == lines[0] + Concat(lines[1..]);
    } else {
      assert lines == [];
    }
  }

  /** The window render draws: the header line at the top, then data row
      offsetY + j on line Top + 1 + j for each j below DrawnRows, which is never
      more than the area's height minus one nor more than the rows left. */
  lemma RenderWindow(t: Table, area: Rect, state: TableState)
    requires Renderable(t)
    requires area.width >= 1 && area.height >= 1
    ensures DrawnRows(t, area, state) <= area.height - 1
    ensures DrawnRows(t, area, state) == 0 || state.offsetY + DrawnRows(t, area, state) <= |t.rows|
    ensures RenderOps(t, area, state)
         == [Fill(area, t.style)]
          + ColumnRun(t.headers, t.widths, state.offsetX, Left(area), Right(area), Top(area), t.headerStyle)
          + Concat(seq(DrawnRows(t, area, state), j => DataLine(t, area, state, j)))
  {
    RowsOpsWindow(t, area, state, 0);
    assert seq(DrawnRows(t, area, state) - 0, m => DataLine(t, area, state, 0 + m))
        == seq(DrawnRows(t, area, state), j => DataLine(t, area, state, j));
  }
}
