/**
 * The selection hook: a reducer over the selection state, the mouse
 * handlers built on it, the per-cell highlight query and the copy action.
 * Each handler takes the current state (and the table's rows) and returns
 * the state after all the actions it dispatches.
 */
module SelectableTable {
  import opened Wrappers
  import opened SelectedRange
  import opened Extraction
  import Clipboard

  /** The two corners of a selection: the anchor where the press began, and the cursor. */
  datatype Range = Range(start: Point, end: Point)

  datatype State = State(isDragging: bool, selectedRange: Option<Range>, selectedCellData: seq<Row>)

  datatype Action =
    | StartDragging(point: Point)
    | StopDragging
    | UpdateSelection(point: Point)
    | ResetSelection
    | SetSelectedData(rows: seq<Row>)

  const InitialState: State := State(false, None, [])

  /**
   * The reducer. Each action establishes its effect and every field it does
   * not name is carried over: only the two drag actions move the drag flag,
   * only reset and set-data replace the extracted data, and an update keeps
   * the anchor and is ignored when there is no range.
   */
  function Reducer(s: State, a: Action): (s': State)
    ensures a.StartDragging? ==> s'.isDragging && s'.selectedRange == Some(Range(a.point, a.point))
    ensures a.StopDragging? ==> !s'.isDragging
    ensures a.UpdateSelection? && s.selectedRange.Some? ==>
              s'.selectedRange == Some(Range(s.selectedRange.value.start, a.point))
    ensures a.UpdateSelection? && s.selectedRange.None? ==> s' == s
    ensures a.ResetSelection? ==> s'.selectedRange.None? && s'.selectedCellData == []
    ensures a.SetSelectedData? ==> s'.selectedCellData == a.rows
    ensures s'.isDragging != s.isDragging ==> a.StartDragging? || a.StopDragging?
    ensures s'.selectedRange != s.selectedRange ==>
              a.StartDragging? || a.UpdateSelection? || a.ResetSelection?
    ensures s'.selectedCellData != s.selectedCellData ==> a.ResetSelection? || a.SetSelectedData?
  {
    match a
    case StartDragging(p) => s.(isDragging := true, selectedRange := Some(Range(p, p)))
    case StopDragging => s.(isDragging := false)
    case UpdateSelection(p) =>
      if s.selectedRange.Some? then s.(selectedRange := Some(s.selectedRange.value.(end := p)))
      else s
    case ResetSelection => s.(selectedRange := None, selectedCellData := [])
    case SetSelectedData(rows) => s.(selectedCellData := rows)
  }

  /** `captureSelectedData`: dispatch the rows of the rectangle spanned by the two points. */
  function Capture(data: seq<Row>, s: State, start: Point, end: Point): (s': State)
    ensures s'.isDragging == s.isDragging && s'.selectedRange == s.selectedRange
    ensures s'.selectedCellData == CaptureSelectedData(data, start, end)
  {
    Reducer(s, SetSelectedData(CaptureSelectedData(data, start, end)))
  }

  /** Press on p: start a drag anchored at p and extract the one cell at once. */
  function HandleCellMouseDown(data: seq<Row>, s: State, p: Point): (s': State)
    ensures s'.isDragging && s'.selectedRange == Some(Range(p, p))
    ensures s'.selectedCellData == CaptureSelectedData(data, p, p)
  {
    Capture(data, Reducer(s, StartDragging(p)), p, p)
  }

  /**
   * The mouse enters p: only while a drag with a range is under way, the
   * cursor moves to p, the anchor stays, and the data is extracted again
   * from the anchor to p. Otherwise nothing changes.
   */
  function HandleCellMouseEnter(data: seq<Row>, s: State, p: Point): (s': State)
    ensures !(s.isDragging && s.selectedRange.Some?) ==> s' == s
    ensures s.isDragging && s.selectedRange.Some? ==>
              && s'.isDragging
              && s'.selectedRange == Some(Range(s.selectedRange.value.start, p))
              && s'.selectedCellData == CaptureSelectedData(data, s.selectedRange.value.start, p)
  {
    if s.isDragging && s.selectedRange.Some? then
      Capture(data, Reducer(s, UpdateSelection(p)), s.selectedRange.value.start, p)
    else s
  }

  /** Release: the drag ends; the selection and its data stay. */
  function HandleCellMouseUp(s: State): (s': State)
    ensures !s'.isDragging
    ensures s'.selectedRange == s.selectedRange && s'.selectedCellData == s.selectedCellData
  {
    Reducer(s, StopDragging)
  }

  /**
   * Reset: the selection and its data are cleared together, so no cell is
   * highlighted and nothing is left to copy. The drag flag is kept.
   */
  function HandleCellReset(s: State): (s': State)
    ensures forall p :: !IsCellSelected(s', p)
    ensures s'.selectedCellData == []
    ensures s'.isDragging == s.isDragging
  {
    Reducer(s, ResetSelection)
  }

  /**
   * Highlight query: false without a range; otherwise true exactly when p
   * lies, on each axis, between anchor and cursor, bounds included.
   */
  function IsCellSelected(s: State, p: Point): (b: bool)
    ensures s.selectedRange.None? ==> !b
    ensures s.selectedRange.Some? ==>
              (b <==> && Between(s.selectedRange.value.start.rowIdx, p.rowIdx, s.selectedRange.value.end.rowIdx)
                      && Between(s.selectedRange.value.start.colIdx, p.colIdx, s.selectedRange.value.end.colIdx))
  {
    if s.selectedRange.None? then false
    else
      var r := GetSelectedRange(s.selectedRange.value.start, s.selectedRange.value.end);
      ContainsIffBetween(s.selectedRange.value.start, s.selectedRange.value.end, p);
      p.rowIdx >= r.rowStart && p.rowIdx <= r.rowEnd && p.colIdx >= r.colStart && p.colIdx <= r.colEnd
  }

  /** Whatever the range, its anchor and its cursor are highlighted. */
  lemma CornersSelected(s: State)
    requires s.selectedRange.Some?
    ensures IsCellSelected(s, s.selectedRange.value.start)
    ensures IsCellSelected(s, s.selectedRange.value.end)
  {
  }

  /** `copySelectedCells`: the text written to the clipboard, or None for no write. */
  function CopySelectedCells(s: State): (text: Option<string>)
    ensures text.None? <==> s.selectedCellData == []
  {
    Clipboard.CopyText(s.selectedCellData)
  }

  /** The mouse events the table forwards to the hook. */
  datatype Event = MouseDown(p: Point) | MouseEnter(p: Point) | MouseUp | Reset

  function Step(data: seq<Row>, s: State, e: Event): State {
    match e
    case MouseDown(p) => HandleCellMouseDown(data, s, p)
    case MouseEnter(p) => HandleCellMouseEnter(data, s, p)
    case MouseUp => HandleCellMouseUp(s)
    case Reset => HandleCellReset(s)
  }

  /** The state after a sequence of events, in order. */
  function Run(data: seq<Row>, s: State, events: seq<Event>): State
    decreases |events|
  {
    if |events| == 0 then s else Run(data, Step(data, s, events[0]), events[1..])
  }

  /**
   * The extracted data is the data of the current range: empty without a
   * range, and otherwise what extraction from anchor to cursor gives.
   */
  predicate Consistent(data: seq<Row>, s: State) {
    s.selectedCellData
    == if s.selectedRange.None? then [] else CaptureSelectedData(data, s.selectedRange.value.start, s.selectedRange.value.end)
  }

  /** Every handler keeps the extracted data in step with the range. */
  lemma StepKeepsConsistent(data: seq<Row>, s: State, e: Event)
    requires Consistent(data, s)
    ensures Consistent(data, Step(data, s, e))
  {
  }

  /** From the initial state, whatever events arrive, data and range stay in step. */
  lemma {:induction false} RunKeepsConsistent(data: seq<Row>, s: State, events: seq<Event>)
    requires Consistent(data, s)
    ensures Consistent(data, Run(data, s, events))
    decreases |events|
  {
    if |events| > 0 {
      StepKeepsConsistent(data, s, events[0]);
      RunKeepsConsistent(data, Step(data, s, events[0]), events[1..]);
    }
  }

  /** The cell p is shown in the extracted data, at its place in the rectangle. */
  predicate ShowsCell(data: seq<Row>, s: State, p: Point)
    requires InBounds(data, p)
  {
    && s.selectedRange.Some?
    && ShowsAt(data, GetSelectedRange(s.selectedRange.value.start, s.selectedRange.value.end),
               s.selectedCellData, p)
  }

  /**
   * In a state whose data is in step with its range, the highlight and the
   * extracted data agree on every existing cell: a cell is highlighted
   * exactly when the extracted data shows it, at its place.
   */
  lemma HighlightMatchesData(data: seq<Row>, s: State, p: Point)
    requires WellFormed(data) && Consistent(data, s) && InBounds(data, p)
    ensures IsCellSelected(s, p) <==> ShowsCell(data, s, p)
  {
    if IsCellSelected(s, p) {
      HighlightedIsShown(data, s, p);
    }
    if ShowsCell(data, s, p) {
      ShownIsHighlighted(data, s, p);
    }
  }

  lemma HighlightedIsShown(data: seq<Row>, s: State, p: Point)
    requires WellFormed(data) && Consistent(data, s) && InBounds(data, p)
    requires IsCellSelected(s, p)
    ensures ShowsCell(data, s, p)
  {
    var a, b := s.selectedRange.value.start, s.selectedRange.value.end;
    ContainsIffBetween(a, b, p);
    CaptureSelectedDataShows(data, a, b, p);
  }

  lemma ShownIsHighlighted(data: seq<Row>, s: State, p: Point)
    requires WellFormed(data) && Consistent(data, s) && InBounds(data, p)
    requires ShowsCell(data, s, p)
    ensures IsCellSelected(s, p)
  {
    var a, b := s.selectedRange.value.start, s.selectedRange.value.end;
    CaptureIsWindow(data, a, b);
    WindowShowsInside(data, GetSelectedRange(a, b), s.selectedCellData, p);
    ContainsIffBetween(a, b, p);
  }

  /** Right after a press on an existing cell, that cell is highlighted and is all the data. */
  lemma MouseDownSelectsCell(data: seq<Row>, s: State, p: Point)
    requires WellFormed(data) && InBounds(data, p)
    ensures IsCellSelected(HandleCellMouseDown(data, s, p), p)
    ensures HandleCellMouseDown(data, s, p).selectedCellData == [[data[p.rowIdx][p.colIdx]]]
  {
    CaptureOnePoint(data, p);
  }

  /** Entering a cell before any press changes nothing. */
  lemma MouseEnterWhenIdle(data: seq<Row>, p: Point)
    ensures HandleCellMouseEnter(data, InitialState, p) == InitialState
  {
  }

  /**
   * Press on (0, 0), drag to (2, 1), release: the selection is held and
   * covers rows 0 to 2 and columns 0 to 1; the data is those three rows,
   * each cut to its first two entries.
   */
  lemma DragThreeByTwo(data: seq<Row>)
    requires WellFormed(data) && |data| >= 3
    requires forall i :: 0 <= i < 3 ==> |data[i]| >= 2
    ensures var s := Run(data, InitialState, [MouseDown(Point(0, 0)), MouseEnter(Point(2, 1)), MouseUp]);
            && !s.isDragging
            && s.selectedRange == Some(Range(Point(0, 0), Point(2, 1)))
            && |s.selectedCellData| == 3
            && forall i :: 0 <= i < 3 ==> s.selectedCellData[i] == data[i][..2]
  {
    var events := [MouseDown(Point(0, 0)), MouseEnter(Point(2, 1)), MouseUp];
    var s1 := Step(data, InitialState, events[0]);
    var s2 := Step(data, s1, events[1]);
    var s3 := Step(data, s2, events[2]);
    assert events[1..][1..][1..] == [];
    assert Run(data, InitialState, events) == s3;
    var out := CaptureSelectedData(data, Point(0, 0), Point(2, 1));
    assert s3.selectedCellData == out;
    forall i | 0 <= i < 3
      ensures out[i] == data[i][..2]
    {
      CaptureSelectedDataRow(data, Point(0, 0), Point(2, 1), i);
    }
  }

  /**
   * A reset in the middle of a drag clears the selection but not the drag
   * flag; further enters are ignored (there is no range to extend) until a
   * release or a new press.
   */
  lemma ResetDuringDrag(data: seq<Row>, p: Point, q: Point)
    ensures var s := Run(data, InitialState, [MouseDown(p), Reset]);
            && s.isDragging && s.selectedRange.None? && s.selectedCellData == []
            && HandleCellMouseEnter(data, s, q) == s
  {
    var events := [MouseDown(p), Reset];
    var s1 := Step(data, InitialState, events[0]);
    var s2 := Step(data, s1, events[1]);
    assert events[1..][1..] == [];
    assert Run(data, s1, events[1..]) == Run(data, s2, []);
    assert Run(data, InitialState, events) == s2;
  }

  /** After a reset nothing is copied. */
  lemma ResetLeavesNothingToCopy(s: State)
    ensures CopySelectedCells(HandleCellReset(s)).None?
  {
  }
}
