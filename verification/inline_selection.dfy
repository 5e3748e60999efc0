/**
 * The selection state machine written inline in the table component: the
 * anchor and the cursor are separately nullable, the drag flag is its own
 * piece of state, a plain click selects one cell, and there is no
 * extracted data.
 */
module InlineSelection {
  import opened Wrappers
  import opened SelectedRange

  datatype Selection = Selection(start: Option<Point>, end: Option<Point>, isDragging: bool)

  const Initial: Selection := Selection(None, None, false)

  /**
   * What every reachable state satisfies: anchor and cursor are set
   * together, and a drag is only under way once they are set.
   */
  predicate Valid(t: Selection) {
    (t.start.Some? <==> t.end.Some?) && (t.isDragging ==> t.start.Some?)
  }

  /** Press on p: one-cell selection at p, and a drag begins. */
  function HandleCellMouseDown(t: Selection, p: Point): (t': Selection)
    ensures t'.start == Some(p) && t'.end == Some(p) && t'.isDragging
    ensures Valid(t')
  {
    Selection(Some(p), Some(p), true)
  }

  /** While dragging, the cursor follows the mouse and the anchor stays; otherwise nothing changes. */
  function HandleCellMouseEnter(t: Selection, p: Point): (t': Selection)
    ensures !t.isDragging ==> t' == t
    ensures t.isDragging ==> t'.start == t.start && t'.end == Some(p) && t'.isDragging
    ensures Valid(t) ==> Valid(t')
  {
    if t.isDragging then t.(end := Some(p)) else t
  }

  /** Release: the drag ends and the selection is held as it is. */
  function HandleCellMouseUp(t: Selection): (t': Selection)
    ensures !t'.isDragging && t'.start == t.start && t'.end == t.end
    ensures Valid(t) ==> Valid(t')
  {
    t.(isDragging := false)
  }

  /** A click outside a drag selects the one cell p; during a drag it is ignored. */
  function HandleCellClick(t: Selection, p: Point): (t': Selection)
    ensures t.isDragging ==> t' == t
    ensures !t.isDragging ==> t' == Selection(Some(p), Some(p), false)
    ensures Valid(t) ==> Valid(t')
  {
    if !t.isDragging then t.(start := Some(p), end := Some(p)) else t
  }

  /**
   * Highlight query: false while either corner is unset; otherwise true
   * exactly when p lies, on each axis, between anchor and cursor.
   */
  function IsCellSelected(t: Selection, p: Point): (b: bool)
    ensures t.start.None? || t.end.None? ==> !b
    ensures t.start.Some? && t.end.Some? ==>
              (b <==> Between(t.start.value.rowIdx, p.rowIdx, t.end.value.rowIdx)
                      && Between(t.start.value.colIdx, p.colIdx, t.end.value.colIdx))
  {
    if t.start.None? || t.end.None? then false
    else
      var start, end := t.start.value, t.end.value;
      var rowStart := Min(start.rowIdx, end.rowIdx);
      var rowEnd := Max(start.rowIdx, end.rowIdx);
      var colStart := Min(start.colIdx, end.colIdx);
      var colEnd := Max(start.colIdx, end.colIdx);
      p.rowIdx >= rowStart && p.rowIdx <= rowEnd && p.colIdx >= colStart && p.colIdx <= colEnd
  }

  /** Exchanging anchor and cursor highlights the same cells. */
  lemma IsCellSelectedSymmetric(t: Selection, p: Point)
    ensures IsCellSelected(t, p) == IsCellSelected(t.(start := t.end, end := t.start), p)
  {
  }

  /** The inline bounds are those of the shared range normaliser. */
  lemma IsCellSelectedUsesSelectedRange(t: Selection, p: Point)
    requires t.start.Some? && t.end.Some?
    ensures IsCellSelected(t, p) == Contains(GetSelectedRange(t.start.value, t.end.value), p)
  {
  }

  /** Right after a press on p, p is highlighted; so are anchor and cursor at any time. */
  lemma CornersSelected(t: Selection, p: Point)
    ensures IsCellSelected(HandleCellMouseDown(t, p), p)
    ensures t.start.Some? && t.end.Some? ==>
              IsCellSelected(t, t.start.value) && IsCellSelected(t, t.end.value)
  {
  }

  datatype Event = MouseDown(p: Point) | MouseEnter(p: Point) | MouseUp | Click(p: Point)

  function Step(t: Selection, e: Event): Selection {
    match e
    case MouseDown(p) => HandleCellMouseDown(t, p)
    case MouseEnter(p) => HandleCellMouseEnter(t, p)
    case MouseUp => HandleCellMouseUp(t)
    case Click(p) => HandleCellClick(t, p)
  }

  function Run(t: Selection, events: seq<Event>): Selection
    decreases |events|
  {
    if |events| == 0 then t else Run(Step(t, events[0]), events[1..])
  }

  /** From the initial state, every sequence of events reaches a valid state. */
  lemma {:induction false} RunKeepsValid(t: Selection, events: seq<Event>)
    requires Valid(t)
    ensures Valid(Run(t, events))
    decreases |events|
  {
    if |events| > 0 {
      RunKeepsValid(Step(t, events[0]), events[1..]);
    }
  }
}
