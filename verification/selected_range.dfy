/**
 * The range normaliser: two corner points of a drag gesture become one
 * inclusive, axis-aligned rectangle of cells (min and max per axis).
 */
module SelectedRange {

  /** A rendered cell: its row index and its column index. */
  datatype Point = Point(rowIdx: nat, colIdx: nat)

  /** An inclusive rectangle of cells, bounds included on all four sides. */
  datatype Rect = Rect(rowStart: nat, rowEnd: nat, colStart: nat, colEnd: nat)

  function Min(a: nat, b: nat): nat {
    if a <= b then a else b
  }

  function Max(a: nat, b: nat): nat {
    if a <= b then b else a
  }

  /** y lies between x and z, whichever of the two is the smaller. */
  predicate Between(x: nat, y: nat, z: nat) {
    (x <= y <= z) || (z <= y <= x)
  }

  predicate Contains(r: Rect, p: Point) {
    && r.rowStart <= p.rowIdx <= r.rowEnd
    && r.colStart <= p.colIdx <= r.colEnd
  }

  /** Every cell of inner is a cell of outer (for well-ordered rectangles). */
  predicate Within(inner: Rect, outer: Rect) {
    && outer.rowStart <= inner.rowStart && inner.rowEnd <= outer.rowEnd
    && outer.colStart <= inner.colStart && inner.colEnd <= outer.colEnd
  }

  /**
   * `getSelectedRange({start, end})`. Total: every pair of points has a
   * rectangle. Each bound is a coordinate of one of the two points, and the
   * rectangle holds both, so it is the smallest rectangle holding both.
   */
  function GetSelectedRange(start: Point, end: Point): (r: Rect)
    ensures r.rowStart <= r.rowEnd && r.colStart <= r.colEnd
    ensures Contains(r, start) && Contains(r, end)
    ensures (r.rowStart == start.rowIdx || r.rowStart == end.rowIdx)
         && (r.rowEnd == start.rowIdx || r.rowEnd == end.rowIdx)
    ensures (r.colStart == start.colIdx || r.colStart == end.colIdx)
         && (r.colEnd == start.colIdx || r.colEnd == end.colIdx)
  {
    Rect(Min(start.rowIdx, end.rowIdx), Max(start.rowIdx, end.rowIdx),
         Min(start.colIdx, end.colIdx), Max(start.colIdx, end.colIdx))
  }

  /** Swapping the two corners yields the identical rectangle. */
  lemma GetSelectedRangeSymmetric(a: Point, b: Point)
    ensures GetSelectedRange(a, b) == GetSelectedRange(b, a)
  {
  }

  /** A press without a drag selects exactly the one cell. */
  lemma GetSelectedRangeOfOnePoint(p: Point)
    ensures GetSelectedRange(p, p) == Rect(p.rowIdx, p.rowIdx, p.colIdx, p.colIdx)
  {
  }

  /** Any rectangle holding both corners holds the normalised rectangle. */
  lemma GetSelectedRangeSmallest(a: Point, b: Point, r: Rect)
    requires Contains(r, a) && Contains(r, b)
    ensures Within(GetSelectedRange(a, b), r)
  {
  }

  /**
   * A cell is inside the normalised rectangle exactly when, on each axis,
   * it lies between the two corners: the min/max form agrees with the
   * direction-free reference definition.
   */
  lemma ContainsIffBetween(a: Point, b: Point, p: Point)
    ensures Contains(GetSelectedRange(a, b), p)
            <==> Between(a.rowIdx, p.rowIdx, b.rowIdx) && Between(a.colIdx, p.colIdx, b.colIdx)
  {
  }
}
