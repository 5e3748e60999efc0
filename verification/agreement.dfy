/**
 * The hook and the component's inline state machine handle press, enter
 * and release alike: driven by the same mouse events from their initial
 * states, they hold the same anchor, cursor and drag flag, and highlight
 * the same cells.
 */
module Agreement {
  import opened Wrappers
  import opened SelectedRange
  import opened Extraction
  import SelectableTable
  import InlineSelection

  /** The hook state s and the inline state t describe the same selection. */
  predicate Corresponds(s: SelectableTable.State, t: InlineSelection.Selection) {
    && s.isDragging == t.isDragging
    && (s.selectedRange.None? ==> t.start.None? && t.end.None?)
    && (s.selectedRange.Some? ==>
          t.start == Some(s.selectedRange.value.start) && t.end == Some(s.selectedRange.value.end))
  }

  /** The inline event for a mouse event of the hook; reset has none. */
  function ToInline(e: SelectableTable.Event): InlineSelection.Event
    requires !e.Reset?
  {
    match e
    case MouseDown(p) => InlineSelection.MouseDown(p)
    case MouseEnter(p) => InlineSelection.MouseEnter(p)
    case MouseUp => InlineSelection.MouseUp
  }

  /** Corresponding states highlight exactly the same cells. */
  lemma SameHighlight(s: SelectableTable.State, t: InlineSelection.Selection, p: Point)
    requires Corresponds(s, t)
    ensures SelectableTable.IsCellSelected(s, p) == InlineSelection.IsCellSelected(t, p)
  {
  }

  /**
   * One mouse event keeps the two in correspondence. Enter is guarded by
   * the drag flag and the range in the hook and by the flag alone inline;
   * the inline invariant (a drag has corners) makes the guards agree.
   */
  lemma StepsCorrespond(data: seq<Row>, s: SelectableTable.State, t: InlineSelection.Selection,
                        e: SelectableTable.Event)
    requires Corresponds(s, t) && InlineSelection.Valid(t) && !e.Reset?
    ensures Corresponds(SelectableTable.Step(data, s, e), InlineSelection.Step(t, ToInline(e)))
    ensures InlineSelection.Valid(InlineSelection.Step(t, ToInline(e)))
  {
  }

  predicate GesturesOnly(events: seq<SelectableTable.Event>) {
    forall i :: 0 <= i < |events| ==> !events[i].Reset?
  }

  function ToInlineAll(events: seq<SelectableTable.Event>): (r: seq<InlineSelection.Event>)
    requires GesturesOnly(events)
    ensures |r| == |events|
  {
    seq(|events|, i requires 0 <= i < |events| && GesturesOnly(events) => ToInline(events[i]))
  }

  /**
   * Any sequence of presses, enters and releases leaves the two in
   * correspondence, and so every cell is highlighted by both or by neither.
   */
  lemma {:induction false} RunsCorrespond(data: seq<Row>, s: SelectableTable.State,
                                          t: InlineSelection.Selection,
                                          events: seq<SelectableTable.Event>)
    requires Corresponds(s, t) && InlineSelection.Valid(t) && GesturesOnly(events)
    ensures Corresponds(SelectableTable.Run(data, s, events), InlineSelection.Run(t, ToInlineAll(events)))
    ensures InlineSelection.Valid(InlineSelection.Run(t, ToInlineAll(events)))
    decreases |events|
  {
    if |events| > 0 {
      StepsCorrespond(data, s, t, events[0]);
      var rest := events[1..];
      assert ToInlineAll(events)[1..] == ToInlineAll(rest);
      RunsCorrespond(data, SelectableTable.Step(data, s, events[0]),
                     InlineSelection.Step(t, ToInline(events[0])), rest);
    }
  }

  /** From the two initial states, the same gestures highlight the same cells. */
  lemma SameGesturesSameHighlight(data: seq<Row>, events: seq<SelectableTable.Event>, p: Point)
    requires GesturesOnly(events)
    ensures SelectableTable.IsCellSelected(SelectableTable.Run(data, SelectableTable.InitialState, events), p)
            == InlineSelection.IsCellSelected(InlineSelection.Run(InlineSelection.Initial, ToInlineAll(events)), p)
  {
    RunsCorrespond(data, SelectableTable.InitialState, InlineSelection.Initial, events);
    SameHighlight(SelectableTable.Run(data, SelectableTable.InitialState, events),
                  InlineSelection.Run(InlineSelection.Initial, ToInlineAll(events)), p);
  }
}
