# Rectangular cell selection for a spreadsheet-style grid

A Dafny model of the selection logic of a data grid: a user presses on a
cell, drags across others and releases; the grid tracks the rectangle of
(row, column) cells between the anchor (the pressed cell) and the cursor,
highlights it, extracts the data under it and can copy that data as
tab-separated text.

The model has three parts, each a module of pure functions over immutable
values:

- `SelectedRange` (`selected_range.dfy`): the range normaliser. It turns two
  corner points into an inclusive rectangle (min and max per axis).
- `Extraction` (`extraction.dfy`) and `SelectableTable` (`selectable_table.dfy`):
  the selection hook. This covers the five-action reducer, the press, enter,
  release and reset handlers, the extraction of the selected rows and columns,
  and the highlight query. `Clipboard` (`clipboard.dfy`) builds the copy text.
- `InlineSelection` (`inline_selection.dfy`): the earlier selection state
  machine written inline in the table component. It has its own press,
  enter, release and click handlers and its own highlight query.

`Agreement` (`agreement.dfy`) relates the two state machines. `Wrappers`
(`wrappers.dfy`) holds the `Option` type that stands for `null`.

Modelling choices:

- A row is a JavaScript object. It is modelled as a sequence of
  `(key, value)` entries in the order `Object.keys` enumerates them. The
  column index of a cell is the position of its key in its own row.
- `row[key]` is `Get`. It returns `Undefined` for a missing key.
- `acc[key] = v` is `Put`. It replaces the value of an existing key in place
  and appends a new key.
- The `reduce` that builds each extracted row is `Collect`. It is proved
  equal to the row's entry slice when keys are distinct, which every
  JavaScript object guarantees.
- `slice` is modelled with its clipping for non-negative indices. A window
  past the end of the rows or keys yields fewer or no entries, not an error.
- A cell value is `Undefined`, `Null`, `Primitive(text)` or `Composite(json)`.
  `Primitive` carries the text `String(v)` gives; `Composite` carries the text
  `JSON.stringify(v)` gives (objects, including dates).
- Each hook handler is a function from the current state (and the table
  rows) to the state after every action it dispatches, in dispatch order.
  For example, a press is `START_DRAGGING` followed by `SET_SELECTED_DATA`.
- The copy action yields the text it would write, or `None` when it writes
  nothing.

Two behaviours of the code that a reader might not expect, both modelled as
written:

- The reset handler dispatches `RESET_SELECTION`, which clears the range and
  the data but keeps `isDragging` (`useSelectableTable.ts:48-49`). A reset
  during a drag therefore leaves the drag flag set with no range, and enters
  are ignored until the next release or press (`SelectableTable.ResetDuringDrag`).
- Extraction selects columns by position in each row's own key order, not by
  a column set shared by all rows. A row that lacks an optional key has its
  later keys at shifted positions.

## Model

| member | source | states |
|---|---|---|
| SelectedRange.GetSelectedRange | src/components/table/getSelectedRange.ts:3-15 | Total on all points. The rectangle is ordered on both axes, holds both corners, and each bound is a coordinate of one of the two corners. |
| SelectedRange.GetSelectedRangeSymmetric | src/components/table/getSelectedRange.ts:9-12 | Swapping start and end gives the identical rectangle. |
| SelectedRange.GetSelectedRangeOfOnePoint | src/components/table/getSelectedRange.ts:9-12 | Equal corners give the one-cell rectangle at that point. |
| SelectedRange.GetSelectedRangeSmallest | src/components/table/getSelectedRange.ts:9-12 | Every rectangle that holds both corners holds the normalised rectangle, so it is the smallest one. |
| SelectedRange.ContainsIffBetween | src/components/table/getSelectedRange.ts:9-12 | A cell is inside the rectangle iff on each axis it lies between the two corners, in either direction. |
| Extraction.Get | src/useSelectableTable.ts:108 | Reading a key the row does not hold gives `undefined`. |
| Extraction.GetFindsEntry | src/useSelectableTable.ts:108 | In a row with distinct keys, reading the key at position i gives the value stored at position i. |
| Extraction.Put | src/useSelectableTable.ts:108 | After `acc[key] = value`, reading key gives value. Existing keys keep their positions, and at most one entry is added. |
| Extraction.PutKeepsOthers | src/useSelectableTable.ts:108 | Writing one key leaves the value read under every other key unchanged. |
| Extraction.PutAppends | src/useSelectableTable.ts:108 | Writing a key the object lacks appends the entry at the end, so it is enumerated last. |
| Extraction.Slice | src/useSelectableTable.ts:100-102 | `slice` never returns more than the array or the window holds. It is empty when the window starts at or past the end, or is empty or inverted. |
| Extraction.SliceCells | src/useSelectableTable.ts:100-102 | Element j of a slice is element from + j of the array, inside the window. A window starting inside the array keeps the elements up to the end of the window or of the array, whichever comes first. |
| Extraction.Collect | src/useSelectableTable.ts:101-112 | The reduce adds at most one entry per key to the accumulator and never removes one. |
| Extraction.CollectReads | src/useSelectableTable.ts:101-112 | After the reduce, every reduced key reads as in the source row, and every other key reads as in the starting accumulator. |
| Extraction.PickColumns | src/useSelectableTable.ts:100-113 | An extracted row never has more entries than its source row. |
| Extraction.CaptureRect | src/useSelectableTable.ts:100-113 | For a rectangle whose rows are in bounds, there is one extracted row per row of the rectangle. There are never more rows than the data has, and none when the rectangle starts past the last row. |
| Extraction.CollectAppends | src/useSelectableTable.ts:101-112 | Reducing `acc[key] = row[key]` over fresh, distinct keys appends one entry per key, in key order, holding that key's value from the row. |
| Extraction.PickColumnsIsSlice | src/useSelectableTable.ts:100-113 | For a row with distinct keys, the extracted row is exactly the row's entries at positions colStart..colEnd, with the same keys, values and order. |
| Extraction.CaptureSelectedData | src/useSelectableTable.ts:93-118 | For in-bounds rows the extraction has exactly rowEnd - rowStart + 1 rows. It never has more rows than the data and is empty when the rectangle starts past the last row. |
| Extraction.CaptureSelectedDataPicks | src/useSelectableTable.ts:100-102 | Extracted row i is built from source row rowStart + i, which exists and lies inside the rectangle. |
| Extraction.CaptureSelectedDataRow | src/useSelectableTable.ts:100-113 | Extracted row i is source row rowStart + i, cut to the column window. |
| Extraction.CaptureSelectedDataCells | src/useSelectableTable.ts:93-118 | Every extracted cell is the data cell at the same place in the rectangle, and every existing data cell inside the rectangle is extracted. |
| Extraction.CaptureOnePoint | src/useSelectableTable.ts:71-77 | Extracting from a point to itself gives exactly the one cell at that point. |
| Clipboard.CellText | src/useSelectableTable.ts:146-151 | `null` and `undefined` copy as the empty string. |
| Clipboard.Cells | src/useSelectableTable.ts:144-152 | A row gives one cell text per header. CellsOfPresentKey and CellsOfMissingKey state what cell j holds. |
| Clipboard.CellsOfPresentKey | src/useSelectableTable.ts:145-151 | In a row with distinct keys, a header the row holds copies as the text of that entry's value. |
| Clipboard.CellsOfMissingKey | src/useSelectableTable.ts:145-151 | A header the row lacks copies as an empty cell. |
| Clipboard.RowLineReadsBack | src/useSelectableTable.ts:144-154 | A row line of tab- and newline-free cells holds no newline, and splitting it on tabs gives the row's cells back in header order. |
| Clipboard.JoinAvoids | src/useSelectableTable.ts:153-156 | Joining parts that avoid a character other than the separator gives a text that avoids it too. |
| Clipboard.SplitJoin | src/useSelectableTable.ts:143-156 | Splitting a tab- or newline-joined text on its separator gives the parts back when no part holds the separator. |
| Clipboard.CopyText | src/useSelectableTable.ts:138-156 | There is no text exactly when there are no rows. Otherwise the text starts with the header line, the first row's keys joined by tabs. |
| Clipboard.CopyTextReadsBack | src/useSelectableTable.ts:143-156 | The text has one line more than there are rows. The first line splits on tabs into the first row's keys. Line i + 1 splits into row i's cell texts in header order, where nullish values are empty, objects are their JSON text, and missing keys are empty. |
| Clipboard.CopyTextNewlineInCell | src/useSelectableTable.ts:143-156 | A cell holding a newline is copied unescaped: one row with the cell `a\nb` under `task` copies as `task\na\nb`, which splits into three lines, not two. |
| Clipboard.CopyTextOfTasks | src/useSelectableTable.ts:138-156 | The two-row task/status example copies as `task\tstatus`, then `A\t{"id":1,"name":"Open"}`, then `B\t{"id":2,"name":"Done"}`. |
| SelectableTable.Reducer | src/useSelectableTable.ts:31-55 | START_DRAGGING sets the flag and a one-point range at the point. STOP_DRAGGING clears the flag. UPDATE_SELECTION moves only the cursor and keeps the anchor, and is the identity without a range. RESET_SELECTION clears range and data. SET_SELECTED_DATA replaces the data. Fields an action does not name keep their values. |
| SelectableTable.Capture | src/useSelectableTable.ts:93-118 | Extraction dispatches only SET_SELECTED_DATA: the data becomes the extraction of the rectangle from start to end, and the drag flag and the range are unchanged. |
| SelectableTable.HandleCellMouseDown | src/useSelectableTable.ts:71-77 | A press starts a drag with anchor = cursor = the point, and extracts the data of that one-point rectangle. |
| SelectableTable.HandleCellMouseEnter | src/useSelectableTable.ts:79-87 | An enter does nothing unless a drag with a range is under way. Otherwise the cursor moves to the point, the anchor stays, and the data is re-extracted from the anchor to the point. |
| SelectableTable.HandleCellMouseUp | src/useSelectableTable.ts:67-69 | A release clears the drag flag and keeps the range and data. |
| SelectableTable.HandleCellReset | src/useSelectableTable.ts:89-91 | After a reset no cell is highlighted and the data is empty. The drag flag is unchanged. |
| SelectableTable.IsCellSelected | src/useSelectableTable.ts:120-136 | False without a range. Otherwise true iff the cell lies between anchor and cursor on both axes, bounds included. |
| SelectableTable.CornersSelected | src/useSelectableTable.ts:120-136 | Whenever there is a range, its anchor and its cursor are highlighted. |
| SelectableTable.CopySelectedCells | src/useSelectableTable.ts:138-142 | Nothing is written exactly when the extracted data is empty. |
| SelectableTable.StepKeepsConsistent | src/useSelectableTable.ts:67-118 | Every handler keeps the extracted data equal to the extraction of the current range, or empty when there is no range. |
| SelectableTable.RunKeepsConsistent | src/useSelectableTable.ts:67-118 | Any sequence of presses, enters, releases and resets keeps the data in step with the range. |
| SelectableTable.HighlightMatchesData | src/useSelectableTable.ts:93-136 | When data and range are in step, an existing cell is highlighted iff the extracted data shows that cell's value at its place in the rectangle. |
| SelectableTable.MouseDownSelectsCell | src/useSelectableTable.ts:71-77 | Right after a press on an existing cell, that cell is highlighted and the data is exactly that one cell. |
| SelectableTable.MouseEnterWhenIdle | src/useSelectableTable.ts:79-87 | An enter before any press leaves the initial state unchanged. |
| SelectableTable.DragThreeByTwo | src/useSelectableTable.ts:67-118 | Press (0,0), enter (2,1), release: the selection is held with anchor (0,0) and cursor (2,1). The data is rows 0 to 2, each cut to its first two entries. |
| SelectableTable.ResetDuringDrag | src/useSelectableTable.ts:48-49 | A reset after a press clears range and data but keeps the drag flag, and a following enter changes nothing. |
| SelectableTable.ResetLeavesNothingToCopy | src/useSelectableTable.ts:138-141 | After a reset, copying writes nothing. |
| InlineSelection.HandleCellMouseDown | src/components/table/index.tsx:81-84 | A press sets anchor = cursor = the point and starts a drag. |
| InlineSelection.HandleCellMouseEnter | src/components/table/index.tsx:86-90 | While dragging, the cursor moves to the point and the anchor stays. Otherwise the state is unchanged. |
| InlineSelection.HandleCellMouseUp | src/components/table/index.tsx:92-94 | A release clears the drag flag and keeps anchor and cursor. |
| InlineSelection.HandleCellClick | src/components/table/index.tsx:96-100 | A click outside a drag selects the one cell. A click during a drag is ignored. |
| InlineSelection.IsCellSelected | src/components/table/index.tsx:102-117 | False while either corner is unset. Otherwise true iff the cell lies between anchor and cursor on both axes. |
| InlineSelection.IsCellSelectedSymmetric | src/components/table/index.tsx:106-116 | Exchanging anchor and cursor highlights the same cells. |
| InlineSelection.IsCellSelectedUsesSelectedRange | src/components/table/index.tsx:106-116 | The inline min/max bounds are those of the shared range normaliser. |
| InlineSelection.CornersSelected | src/components/table/index.tsx:81-117 | Right after a press on a point, that point is highlighted. Anchor and cursor are always highlighted. |
| InlineSelection.RunKeepsValid | src/components/table/index.tsx:75-100 | Every event sequence keeps anchor and cursor set together, and a drag only under way once they are set. |
| Agreement.SameHighlight | src/components/table/index.tsx:102-117 | Corresponding hook and inline states highlight the same cells. |
| Agreement.StepsCorrespond | src/components/table/index.tsx:81-94 | A press, enter or release keeps the hook and the inline machine in correspondence. |
| Agreement.RunsCorrespond | src/components/table/index.tsx:81-94 | Any sequence of presses, enters and releases keeps the two in correspondence. |
| Agreement.SameGesturesSameHighlight | src/components/table/index.tsx:81-117 | From their initial states, the same gestures make the hook and the inline machine highlight the same cells. |

## Left out

- React plumbing (`useReducer`, `useState`, `useCallback` dependency lists) is replaced by explicit state passing. Stale closures and batched updates are not modelled: each handler sees the current state.
- Rendering, styling, column definitions, sorting, filtering, pagination and the page-size menu (`src/components/table/index.tsx:119-310`) are left out. They are user-interface and table-library glue.
- The clipboard write (`navigator.clipboard.writeText`), its success and failure logging, and its asynchrony are left out. The model produces only the text that would be written.
- `String()`, `JSON.stringify` and date formatting are left out. They are foreign encoders, so a cell value carries the text they produce.
- Negative indices are left out, because points are natural numbers. `slice` wrap-around for negative arguments therefore never arises.
- The special enumeration order `Object.keys` uses for integer-like keys is left out. A row's entry order is taken as its key order.
- Clipboard.Join and Clipboard.RowLine: carry no contract of their own. What a join gives is stated by SplitJoin and JoinAvoids, and what a row line gives by RowLineReadsBack.
- Separators inside keys or cells are not escaped by the code, so the copy text reads back as a table only when keys and cells are free of tabs and newlines. Clipboard.CopyTextNewlineInCell shows the three-line text one cell with a newline gives.
- Clipboard.CopyTextReadsBack: stated only for keys and cell texts without tabs or newlines, and for a first row with at least one key. The text does not escape separators, and an empty header line splits into one empty piece.
- Agreement.RunsCorrespond: covers only presses, enters and releases. The inline machine has no reset, and the hook has no click handler.
