# quackmire table core in Dafny

quackmire is a terminal client for an embedded analytical database. This
project models three parts of it:

- the table widget (`src/custom_table.rs`), which computes one display width
  per column and draws a window of the table, starting at a column and row
  offset, into the terminal buffer;
- the reader (`src/table.rs`), which rebuilds a table from the lines of the
  database's ASCII-box rendering of a result batch;
- the application's scroll and flag state (`src/app.rs`).

Files:

- `terminal.dfy` (module `Terminal`) holds the parts of the terminal library
  the core uses:
  - fixed-width integers and the `as u16` cast;
  - `Rect`, whose right and bottom edges saturate;
  - the character buffer, modelled as the log of `set_style` and `set_string`
    writes made to it;
  - `ScrollbarState`.
- `custom_table.dfy` (module `CustomTable`):
  - `Table::new` is a pure function.
  - `render` is a method with the source's row loop. The column loop, which
    the source writes out twice (for the header and for each row), is the
    method `DrawLine`. Both use the program's u16 arithmetic. They are proved
    against `RenderOps`, a specification function over the writes.
  - Lemmas say where those writes may land and which rows and columns they
    show.
- `pretty_table.dfy` (module `PrettyTable`) holds `create_table` as pure
  functions over the sequence of lines:
  - splitting on `'|'`;
  - Unicode `trim`;
  - dropping empty fragments;
  - picking out the data lines.
  It also holds round-trip lemmas against a model of the box layout.
- `app.dfy` (module `Application`):
  - the `App` class, with the fields that the modelled methods update in
    place;
  - `usize::saturating_add_signed`;
  - lemmas about sequences of scroll steps.

The display width of a string (`unicode-width`) is a parameter
`dw: string -> nat` of every member that needs it. Everything proved holds for
any width function.

## Model

| member | source | states |
|---|---|---|
| Terminal.TruncU16 | src/custom_table.rs:40-42 | `as u16` keeps the value when it fits and is otherwise congruent to it modulo 2^16 |
| Terminal.Buffer.SetStyle | src/custom_table.rs:93 | painting the area appends exactly one Fill write to the buffer's log |
| Terminal.Buffer.SetString | src/custom_table.rs:109 | writing a string appends exactly one Text write at (x, y) in the given style |
| Terminal.AddU16 | src/custom_table.rs:106-127 | u16 `+` as the program uses it for `x + width`, `x += width + 1` and `y += 1`: it requires the sum to fit in a u16, where Rust panics otherwise, and gives exactly the sum |
| Terminal.Right | src/custom_table.rs:106 | the right edge of an area, `Rect::right`: x + width when that fits in a u16, otherwise the largest u16; never left of the area's left edge |
| Terminal.Bottom | src/custom_table.rs:115 | the bottom edge, `Rect::bottom`: y + height when that fits in a u16, otherwise the largest u16; never above the top edge |
| Terminal.WithPosition | src/app.rs:97 | the scrollbar moves to the given position and keeps its content and viewport lengths |
| CustomTable.DefaultState | src/custom_table.rs:15-22 | the default table state has both offsets 0 |
| CustomTable.CellWidth | src/custom_table.rs:42 | a row contributes 0 to a column it has no cell in, and otherwise its cell's display width when that fits in a u16 (the truncated width in general) |
| CustomTable.MaxCellWidth | src/custom_table.rs:41-44 | the largest truncated cell width at column i, taken over all rows: at least every row's contribution (0 for a row with no cell i) and equal to one of them, or 0 when there are no rows |
| CustomTable.ColumnWidth | src/custom_table.rs:38-46 | the width of column i is the larger of the header's truncated width and every row's contribution, and is attained by one of them |
| CustomTable.New | src/custom_table.rs:34-57 | keeps headers and rows, uses default styles, and has exactly one width per header, each the column width of that header and the rows |
| CustomTable.ColumnWidthsCover | src/custom_table.rs:35-47 | with those widths, when every header and cell is at most 65535 cells wide, no header and no cell is wider than its column |
| CustomTable.Render | src/custom_table.rs:78-130 | the loops make exactly the writes of RenderOps: nothing for a zero-width or zero-height area, otherwise the background, then the header line from offset_x, then the data rows from offset_y; every u16 sum is shown not to overflow |
| CustomTable.DrawLine | src/custom_table.rs:99-128 | one pass of either column loop writes exactly the run of ColumnRun for its line, and its u16 sums `x + width` and `x += width + 1` do not overflow |
| CustomTable.ColumnRunLayout | src/custom_table.rs:99-111 | a drawn line is a contiguous run of columns from offset_x; each starts one cell after the previous column's width; each ends by the right edge; the run stops at the first column that does not fit, even if a later one would |
| CustomTable.ColumnRunBounds | src/custom_table.rs:105-109 | every write of a line is on that line, at or right of its start, and its text, measured by its display width, ends by the right edge when no cell is wider than its column |
| CustomTable.RowsOpsBounds | src/custom_table.rs:114-128 | every data-row write lies below the header line and above the bottom edge, and its text, measured by its display width, lies inside the left and right edges |
| CustomTable.RenderInBounds | src/custom_table.rs:88-130 | whatever the offsets, the first write paints exactly the area; every other write is a string whose display width keeps it inside the area horizontally, on one of its lines; an empty area gets no writes. This holds when no text is wider than its column and the u16 sums do not overflow |
| CustomTable.RowsOpsWindow | src/custom_table.rs:114-119 | the row loop draws data rows in order, one per line, stopping at the bottom or at the last row |
| CustomTable.RenderWindow | src/custom_table.rs:95-129 | the header goes on line top; data row offset_y + j goes on line top + 1 + j; at most height - 1 rows are drawn, and never more than the rows left |
| PrettyTable.IsWhitespace | src/table.rs:14 | `char::is_whitespace`, the Unicode White_Space characters that `trim` removes: space, tab, line feed and carriage return among them, and never the bar character or '+' |
| PrettyTable.Trim | src/table.rs:14 | what it drops before and after the result is whitespace, and the result is the slice of the input between them that neither starts nor ends with whitespace, so exactly the leading and trailing whitespace goes; it is empty exactly when the input is all whitespace, which is the blank-line test of line 21 |
| PrettyTable.TrimPadded | src/table.rs:24 | whitespace around text that is already trimmed is all that trim removes |
| PrettyTable.Split | src/table.rs:13 | splitting on the bar character gives at least one fragment, and no fragment contains the bar character |
| PrettyTable.JoinSplit | src/table.rs:13 | joining the fragments with the bar character gives back the line |
| PrettyTable.SplitJoin | src/table.rs:13 | splitting a bar-free join gives back its parts |
| PrettyTable.KeepTrimmedAppend | src/table.rs:14-15 | trimming and filtering fragments commutes with concatenation |
| PrettyTable.Cells | src/table.rs:12-16 | the cells of a line: no more than its fragments; none empty, none containing the bar character, none starting or ending with whitespace |
| PrettyTable.BlankFragmentDropped | src/table.rs:25 | a fragment that trims to empty is dropped, so that line has fewer cells than fragments |
| PrettyTable.IsDataLine | src/table.rs:21 | the filter on the lines after the first three: a line that passes is never empty and never starts with '+' |
| PrettyTable.DataLineIffTrimmed | src/table.rs:21 | a line passes the filter exactly when it does not start with '+' and does not trim to empty |
| PrettyTable.RowsFrom | src/table.rs:18-28 | the rows read from line j on are one per data line, so there are never more than the lines from j on (RowsMatchDataLines says which lines and in what order) |
| PrettyTable.CreateTable | src/table.rs:4-31 | fewer than five lines give a table with no headers and no rows; otherwise headers are the cells of line 1, rows are those of the data lines from line 3 on, and widths are as Table::new computes them |
| PrettyTable.RowsMatchDataLines | src/table.rs:18-28 | rows correspond one to one, in order, to the data lines: the m-th row is the cells of the m-th data line |
| PrettyTable.DataIndicesExact | src/table.rs:20-21 | the lines that are read are exactly those from index 3 on that neither start with '+' nor are blank, taken in ascending order |
| PrettyTable.CreateTableClean | src/table.rs:12-28 | no header or cell is empty, contains the bar character, or has surrounding whitespace; there are at most as many rows as lines after the first three |
| PrettyTable.SplitBoxLine | src/table.rs:13 | a printed box line splits into an empty fragment, one padded segment per cell, and an empty fragment |
| PrettyTable.CellsOfBoxLine | src/table.rs:23-26 | reading a printed box line gives back its non-empty cells only |
| PrettyTable.CellsRoundTrip | src/table.rs:23-26 | a box line with no empty cell reads back as exactly its cells |
| PrettyTable.CellsLoseEmpty | src/table.rs:25 | a box line with an empty cell does not read back as its cells |
| PrettyTable.NonEmptyIdentity | src/table.rs:15 | filtering out empty strings leaves a list unchanged exactly when none is empty |
| PrettyTable.BlankCellShiftsLeft | src/table.rs:25 | a row printed as a blank cell followed by a name reads back as the name alone, which then lands in the first column |
| PrettyTable.AlignedCells | src/table.rs:23-26 | (corrected reader) one trimmed cell per fragment between the first and the last bar, empty ones kept |
| PrettyTable.AlignedCellsRoundTrip | src/table.rs:23-26 | the corrected reader gives back every printed box line's cells, empty ones included |
| PrettyTable.CreateTableAligned | src/table.rs:4-31 | create_table with the corrected reader: the same line selection and widths as CreateTable, but with cells read by position |
| PrettyTable.RowsOfDataRun | src/table.rs:18-28 | when a run of data lines is followed only by non-data lines, the rows are those lines read in order |
| PrettyTable.BoxRows | src/table.rs:18-28 | the rows read from a whole printed box are its row lines, read in order |
| PrettyTable.CreateTableOfBox | src/table.rs:4-31 | as written, a printed box reads back with every header and row stripped of its empty cells; a box with no rows (four lines) reads back as a table with no headers either |
| PrettyTable.CreateTableAlignedOfBox | src/table.rs:4-31 | with the corrected reader, a printed box with at least one row reads back as exactly its headers and rows |
| Application.SaturatingAddSigned | src/app.rs:96 | the offset moved by a signed amount stops at 0 below and at the usize maximum above, and otherwise is the exact sum |
| Application.Clamp | src/app.rs:96 | the clip of an integer into the usize range: unchanged inside it, 0 below it, the maximum above it |
| Application.ScrollAll | src/app.rs:95-105 | the offset after a sequence of scroll calls: never past the start when no step goes forward, never before it when no step goes back |
| Application.StepIsClampedSum | src/app.rs:96 | one saturating step equals the true sum, clipped; it differs from the sum exactly when the sum leaves the usize range |
| Application.BackwardScrollsStopAtZero | src/app.rs:96 | a sequence of non-positive steps ends at the true total, stopped at 0 |
| Application.BackwardScrollsFromZero | src/app.rs:96 | non-positive steps from offset 0 leave it at 0 |
| Application.ForwardScrollsStopAtMax | src/app.rs:96 | a sequence of non-negative steps ends at the true total, stopped at the usize maximum |
| Application.ScrollBack | src/app.rs:96 | a step that was not clipped is undone by the opposite step |
| Application.App.constructor | src/app.rs:34-51 | a new App is running; nothing is typed; there are no results and no error; the popup is hidden; both offsets are 0; both scrollbars are default; the table is empty with a default state |
| Application.App.Quit | src/app.rs:87-89 | running becomes false and nothing else changes |
| Application.App.ToggleErrorPopup | src/app.rs:91-93 | the popup flag is negated and nothing else changes |
| Application.ToggleTwice | src/app.rs:91-93 | two toggles restore the popup flag |
| Application.App.ScrollVertical | src/app.rs:95-98 | the row offset becomes the old one plus the amount, clipped to the usize range; the vertical scrollbar moves to it; the horizontal offset and scrollbar are unchanged; scrollbars that mirrored their offsets still do |
| Application.App.ScrollHorizontal | src/app.rs:100-105 | the same for the column offset and the horizontal scrollbar; the vertical offset and scrollbar are unchanged |

## Left out

- Block rendering (src/custom_table.rs:79-86) and the `block`, `style` and `header_style` builders (src/custom_table.rs:59-72) are not modelled. `Block::inner` and `Block::render` belong to the terminal library, so the model draws into the area as given, which is the case with no block. Styles are opaque handles.
- CustomTable.Render: requires `NoU16Overflow`: the right edge plus any column width plus one fits in a u16. That is enough to keep the u16 sums `x + width` and `x += width + 1` (src/custom_table.rs:106, 110, 123, 127) from overflowing, but it is stronger than needed. It also excludes tables the program draws without overflow: one column 65400 cells wide in `Rect(0, 0, 200, 50)` gives `0 + 65400`, fails the fit test, and only the background is drawn. When a sum does overflow, the program has no check: a debug build panics, and a release build wraps round and can then draw past the right edge. Neither the tables excluded without overflow nor the wrapping case is modelled.
- CustomTable.DrawLine: requires `NoU16Overflow`, with the same excess as for Render above, and that the line has no more cells than there are widths. The program only fails on a longer line when its loop reaches a cell with no width (see the Render line on rows below).
- CustomTable.RenderInBounds: holds only under `NoU16Overflow`, so it says nothing about the tables that bound excludes, nor about the wrapping case. It also assumes the area lies inside the u16 coordinate space (`WithinU16`), as ratatui's `Rect::new` ensures.
- CustomTable.ColumnWidthsCover: needs every header and cell to be at most 65535 cells wide. `as u16` (src/custom_table.rs:40, 42) truncates a wider display width, so such a text can get a column narrower than itself and then runs past the right edge. `New` keeps that truncation.
- CustomTable.Render: requires that no row is longer than the header row. The source has no such precondition. It panics when its column loop reaches a cell index at or past the number of headers, because `self.widths[i]` (src/custom_table.rs:122) is read before the fit test. The loop reaches that index once every earlier cell that `offset_x` does not skip has fitted. With headers `["a"]`, `offset_x = 1` and the row `["p", "q"]`, it panics on its first pass.
- Display width (`unicode-width`) is a parameter, not a definition.
- `pretty_format_batches` (src/table.rs:5) is outside the model. The reader starts from the sequence of lines that `str::lines` gives.
- The printed box in the round-trip lemmas is a model of the printer's layout: one space, the cell text, then padding spaces and one space before each bar. It is not the printer's real code.
- Arrow's exact null and alignment rules are not modelled. Right alignment, which puts padding before the text, is not covered.
- `App::create_table` (src/app.rs:52-81), the database connection, the text area and the file explorer are not modelled, because they call the database and UI libraries. `results[0]` at src/app.rs:58 panics on an empty result. `results` is a field whose batches are given by their printed lines.
- `tick` (src/app.rs:84) does nothing, so it has no model.
- `Table::default()`, used at src/app.rs:48, is not defined in src/custom_table.rs. It is modelled as the empty table `EmptyTable`.
- `usize` and `isize` are taken to be 64 bits wide.
- The user interface, key handling and event loop (src/ui.rs, src/popup.rs, src/handler.rs, src/main.rs) are not part of this model. src/main.rs maps mouse scrolls to steps of ±1, which the scroll contracts cover.
- The program has no batch pagination, so none is modelled. The drawing path shows only `results[0]` (src/ui.rs:78), and `vertical_scroll` is never copied into the table state.

## Findings

| source | as written | input that shows it | evidently intended | confidence | as-written member | corrected member |
|---|---|---|---|---|---|---|
| src/table.rs:23-26 | each data line is split on the bar character, trimmed, and empty fragments are dropped, so a blank cell (a null value prints as one) disappears and the cells after it move one column left | under headers `id` and `name`, a row printed with a blank `id` cell and `bob` as the name reads back as the one cell `bob`, which is then drawn under `id` | keep cells by position, between the first and the last bar, so every value stays under its own header | not executed | PrettyTable.BlankCellShiftsLeft | PrettyTable.CreateTableAligned |
