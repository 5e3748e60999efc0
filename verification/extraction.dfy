/**
 * Rows of the table and the extraction of the selected rectangle's data
 * (`captureSelectedData`). A row is a plain object: its entries in the
 * order `Object.keys` enumerates them, and the column index of a cell is
 * the position of its key in that order.
 */
module Extraction {
  import opened SelectedRange

  type Key = string

  /**
   * A cell value, reduced to what the selection and the clipboard text see
   * of it. `Primitive` carries the text `String(v)` gives for a string,
   * number or boolean; `Composite` carries the text `JSON.stringify(v)`
   * gives for an object (a status record, a date).
   */
  datatype Value =
    | Undefined
    | Null
    | Primitive(text: string)
    | Composite(json: string)

  /** An object: its entries in key-enumeration order. */
  type Row = seq<(Key, Value)>

  function Keys(row: Row): seq<Key> {
    seq(|row|, i requires 0 <= i < |row| => row[i].0)
  }

  /** A JavaScript object never holds one key twice. */
  predicate DistinctKeys(row: Row) {
    forall i, j :: 0 <= i < j < |row| ==> Keys(row)[i] != Keys(row)[j]
  }

  predicate WellFormed(data: seq<Row>) {
    forall i :: 0 <= i < |data| ==> DistinctKeys(data[i])
  }

  /** The cell p names exists in the data. */
  predicate InBounds(data: seq<Row>, p: Point) {
    p.rowIdx < |data| && p.colIdx < |data[p.rowIdx]|
  }

  /** Property read `row[key]`: the value stored under key, else undefined. */
  function Get(row: Row, key: Key): (v: Value)
    ensures key !in Keys(row) ==> v == Undefined
  {
    if |row| == 0 then Undefined
    else if row[0].0 == key then assert Keys(row)[0] == key; row[0].1
    else assert Keys(row[1..]) == Keys(row)[1..]; Get(row[1..], key)
  }

  /**
   * Property write `obj[key] = value`: an existing key keeps its place and
   * takes the new value; a new key is enumerated last.
   */
  function Put(obj: Row, key: Key, value: Value): (r: Row)
    ensures Get(r, key) == value
    ensures |obj| <= |r| <= |obj| + 1
    ensures forall i :: 0 <= i < |obj| ==> r[i].0 == obj[i].0
  {
    if |obj| == 0 then [(key, value)]
    else if obj[0].0 == key then [(key, value)] + obj[1..]
    else [obj[0]] + Put(obj[1..], key, value)
  }

  /**
   * `s.slice(from, to)` for non-negative arguments: both ends are clipped
   * to the length, and an empty or inverted window gives the empty array.
   */
  function Slice<T>(s: seq<T>, from: nat, to: nat): (r: seq<T>)
    ensures |r| <= |s|
    ensures from < to ==> |r| <= to - from
    ensures |s| <= from || to <= from ==> r == []
  {
    var lo := Min(from, |s|);
    var hi := Min(to, |s|);
    if lo <= hi then s[lo..hi] else []
  }

  /** `keys.reduce((acc, key) => { acc[key] = row[key]; return acc; }, acc)`. */
  function Collect(acc: Row, keys: seq<Key>, row: Row): (r: Row)
    ensures |acc| <= |r| <= |acc| + |keys|
    decreases |keys|
  {
    if |keys| == 0 then acc
    else Collect(Put(acc, keys[0], Get(row, keys[0])), keys[1..], row)
  }

  /** One row of the extraction: the keys at positions colStart..colEnd. */
  function PickColumns(row: Row, colStart: nat, colEnd: nat): (r: Row)
    ensures |r| <= |row|
  {
    Collect([], Slice(Keys(row), colStart, colEnd + 1), row)
  }

  /**
   * `captureSelectedData(start, end)`: rows rowStart..rowEnd of the data,
   * each cut down to columns colStart..colEnd, in source order. Indices past
   * the end are clipped, as `slice` clips them.
   */
  function CaptureSelectedData(data: seq<Row>, start: Point, end: Point): (rows: seq<Row>)
    ensures |rows| <= |data|
    ensures GetSelectedRange(start, end).rowEnd < |data| ==>
              |rows| == GetSelectedRange(start, end).rowEnd - GetSelectedRange(start, end).rowStart + 1
    ensures GetSelectedRange(start, end).rowStart >= |data| ==> rows == []
  {
    CaptureRect(data, GetSelectedRange(start, end))
  }

  /** The extraction for an already normalised rectangle r. */
  function CaptureRect(data: seq<Row>, r: Rect): (rows: seq<Row>)
    ensures |rows| <= |data|
    ensures r.rowStart <= r.rowEnd < |data| ==> |rows| == r.rowEnd - r.rowStart + 1
    ensures r.rowStart >= |data| ==> rows == []
  {
    PickEach(Slice(data, r.rowStart, r.rowEnd + 1), r.colStart, r.colEnd)
  }

  /** Each of the rows cut down to columns colStart..colEnd. */
  function PickEach(rows: seq<Row>, colStart: nat, colEnd: nat): (out: seq<Row>)
    ensures |out| == |rows|
    ensures forall i :: 0 <= i < |rows| ==> out[i] == PickColumns(rows[i], colStart, colEnd)
  {
    seq(|rows|, i requires 0 <= i < |rows| => PickColumns(rows[i], colStart, colEnd))
  }

  /** With distinct keys, reading a key finds the entry that holds it. */
  lemma {:induction false} GetFindsEntry(row: Row, i: nat)
    requires DistinctKeys(row) && i < |row|
    ensures Get(row, row[i].0) == row[i].1
  {
    if i > 0 {
      assert Keys(row)[0] != Keys(row)[i];
      assert row[1..][i - 1] == row[i];
      assert Keys(row[1..]) == Keys(row)[1..];
      GetFindsEntry(row[1..], i - 1);
    }
  }

  /** A property write leaves every other key reading as before. */
  lemma {:induction false} PutKeepsOthers(obj: Row, key: Key, value: Value, k: Key)
    requires k != key
    ensures Get(Put(obj, key, value), k) == Get(obj, k)
  {
    if |obj| > 0 && obj[0].0 != key {
      PutKeepsOthers(obj[1..], key, value, k);
      assert Put(obj, key, value)[1..] == Put(obj[1..], key, value);
    }
  }

  /**
   * After the reduce, a key it visited reads as in the source row (repeated
   * keys write the same value again), and every other key reads as in acc.
   */
  lemma {:induction false} CollectReads(acc: Row, keys: seq<Key>, row: Row, k: Key)
    ensures k in keys ==> Get(Collect(acc, keys, row), k) == Get(row, k)
    ensures k !in keys ==> Get(Collect(acc, keys, row), k) == Get(acc, k)
    decreases |keys|
  {
    if |keys| > 0 {
      var acc' := Put(acc, keys[0], Get(row, keys[0]));
      CollectReads(acc', keys[1..], row, k);
      assert keys == [keys[0]] + keys[1..];
      if k != keys[0] {
        PutKeepsOthers(acc, keys[0], Get(row, keys[0]), k);
      }
    }
  }

  /** Writing a key the object does not yet have appends one entry. */
  lemma {:induction false} PutAppends(obj: Row, key: Key, value: Value)
    requires key !in Keys(obj)
    ensures Put(obj, key, value) == obj + [(key, value)]
  {
    if |obj| > 0 {
      assert obj[0].0 == Keys(obj)[0];
      assert Keys(obj[1..]) == Keys(obj)[1..];
      PutAppends(obj[1..], key, value);
      assert obj == [obj[0]] + obj[1..];
    }
  }

  /**
   * Reducing over fresh, distinct keys appends one (key, row[key]) entry
   * per key, in key order.
   */
  lemma {:induction false} CollectAppends(acc: Row, keys: seq<Key>, row: Row)
    requires forall i, j :: 0 <= i < j < |keys| ==> keys[i] != keys[j]
    requires forall i :: 0 <= i < |keys| ==> keys[i] !in Keys(acc)
    ensures Collect(acc, keys, row) == acc + Reads(keys, row)
    decreases |keys|
  {
    if |keys| > 0 {
      var k, rest := keys[0], keys[1..];
      var acc' := acc + [(k, Get(row, k))];
      CollectStep(acc, keys, row);
      FreshAfterStep(acc, keys, Get(row, k));
      CollectAppends(acc', rest, row);
      ReadsCons(keys, row);
      AppendAssoc(acc, [(k, Get(row, k))], Reads(rest, row));
    }
  }

  lemma AppendAssoc<T>(a: seq<T>, b: seq<T>, c: seq<T>)
    ensures a + (b + c) == (a + b) + c
  {
  }

  /** One step of the reduce over a fresh key appends its entry. */
  lemma CollectStep(acc: Row, keys: seq<Key>, row: Row)
    requires |keys| > 0 && keys[0] !in Keys(acc)
    ensures Collect(acc, keys, row) == Collect(acc + [(keys[0], Get(row, keys[0]))], keys[1..], row)
  {
    PutAppends(acc, keys[0], Get(row, keys[0]));
  }

  /** After appending the first of distinct fresh keys, the others are still fresh. */
  lemma FreshAfterStep(acc: Row, keys: seq<Key>, v: Value)
    requires |keys| > 0
    requires forall i, j :: 0 <= i < j < |keys| ==> keys[i] != keys[j]
    requires forall i :: 0 <= i < |keys| ==> keys[i] !in Keys(acc)
    ensures forall i :: 0 <= i < |keys| - 1 ==> keys[1..][i] !in Keys(acc + [(keys[0], v)])
  {
    KeysAppend(acc, (keys[0], v));
    forall i | 0 <= i < |keys| - 1
      ensures keys[1..][i] !in Keys(acc + [(keys[0], v)])
    {
      assert keys[1..][i] == keys[i + 1];
    }
  }

  /** The entries (key, row[key]) for the given keys, in key order. */
  function Reads(keys: seq<Key>, row: Row): seq<(Key, Value)> {
    seq(|keys|, i requires 0 <= i < |keys| => (keys[i], Get(row, keys[i])))
  }

  lemma ReadsCons(keys: seq<Key>, row: Row)
    requires |keys| > 0
    ensures Reads(keys, row) == [(keys[0], Get(row, keys[0]))] + Reads(keys[1..], row)
  {
  }

  lemma KeysAppend(obj: Row, entry: (Key, Value))
    ensures Keys(obj + [entry]) == Keys(obj) + [entry.0]
  {
  }

  /**
   * For a well-formed row, the reduce in `captureSelectedData` produces
   * exactly the row's entries at positions colStart..colEnd: same keys, same
   * values, same order.
   */
  lemma PickColumnsIsSlice(row: Row, colStart: nat, colEnd: nat)
    requires DistinctKeys(row)
    ensures PickColumns(row, colStart, colEnd) == Slice(row, colStart, colEnd + 1)
  {
    var lo := Min(colStart, |row|);
    var hi := Min(colEnd + 1, |row|);
    if hi < lo {
      assert Slice(Keys(row), colStart, colEnd + 1) == [];
    } else {
      var keys := Keys(row)[lo..hi];
      assert Slice(Keys(row), colStart, colEnd + 1) == keys;
      WindowKeys(row, lo, hi);
      CollectAppends([], keys, row);
      WindowEntries(row, lo, hi);
      assert [] + Reads(keys, row) == row[lo..hi];
    }
  }

  /** Reading each key of a window of a well-formed row gives back the window. */
  lemma WindowEntries(row: Row, lo: nat, hi: nat)
    requires DistinctKeys(row) && lo <= hi <= |row|
    ensures Reads(Keys(row)[lo..hi], row) == row[lo..hi]
  {
    var keys := Keys(row)[lo..hi];
    var built := Reads(keys, row);
    WindowKeys(row, lo, hi);
    forall i | 0 <= i < hi - lo
      ensures built[i] == row[lo..hi][i]
    {
      GetFindsEntry(row, lo + i);
      assert row[lo..hi][i] == row[lo + i];
    }
    assert built == row[lo..hi];
  }

  /** The keys of a window of a well-formed row are distinct, in entry order. */
  lemma WindowKeys(row: Row, lo: nat, hi: nat)
    requires DistinctKeys(row) && lo <= hi <= |row|
    ensures forall i :: 0 <= i < hi - lo ==> Keys(row)[lo..hi][i] == row[lo + i].0
    ensures forall i, j :: 0 <= i < j < hi - lo ==> Keys(row)[lo..hi][i] != Keys(row)[lo..hi][j]
  {
  }

  /** The cells of a slice are the cells of the window it clips to. */
  lemma SliceCells<T>(s: seq<T>, from: nat, to: nat)
    ensures forall j :: 0 <= j < |Slice(s, from, to)| ==>
              from + j < |s| && from + j < to && Slice(s, from, to)[j] == s[from + j]
    ensures from <= |s| && from <= to ==> |Slice(s, from, to)| == Min(to, |s|) - from
  {
    var lo := Min(from, |s|);
    var hi := Min(to, |s|);
    if lo <= hi {
      assert Slice(s, from, to) == s[lo..hi];
      if from > |s| {
        assert lo == hi;
      }
    } else {
      assert Slice(s, from, to) == [];
    }
  }

  /** Extracted row i is what the reduce builds from source row rowStart + i. */
  lemma CaptureSelectedDataPicks(data: seq<Row>, a: Point, b: Point, i: nat)
    requires i < |CaptureSelectedData(data, a, b)|
    ensures GetSelectedRange(a, b).rowStart + i < |data|
    ensures GetSelectedRange(a, b).rowStart + i <= GetSelectedRange(a, b).rowEnd
    ensures CaptureSelectedData(data, a, b)[i]
            == PickColumns(data[GetSelectedRange(a, b).rowStart + i],
                           GetSelectedRange(a, b).colStart, GetSelectedRange(a, b).colEnd)
  {
    RectPicks(data, GetSelectedRange(a, b), i);
  }

  lemma RectPicks(data: seq<Row>, r: Rect, i: nat)
    requires i < |CaptureRect(data, r)|
    ensures r.rowStart + i < |data| && r.rowStart + i <= r.rowEnd
    ensures CaptureRect(data, r)[i] == PickColumns(data[r.rowStart + i], r.colStart, r.colEnd)
  {
    SliceCells(data, r.rowStart, r.rowEnd + 1);
  }

  /** Extracted row i is source row rowStart + i cut to the column window. */
  lemma CaptureSelectedDataRow(data: seq<Row>, a: Point, b: Point, i: nat)
    requires WellFormed(data) && i < |CaptureSelectedData(data, a, b)|
    ensures GetSelectedRange(a, b).rowStart + i < |data|
    ensures GetSelectedRange(a, b).rowStart + i <= GetSelectedRange(a, b).rowEnd
    ensures CaptureSelectedData(data, a, b)[i]
            == Slice(data[GetSelectedRange(a, b).rowStart + i],
                     GetSelectedRange(a, b).colStart, GetSelectedRange(a, b).colEnd + 1)
  {
    RectRow(data, GetSelectedRange(a, b), i);
  }

  lemma RectRow(data: seq<Row>, r: Rect, i: nat)
    requires WellFormed(data) && i < |CaptureRect(data, r)|
    ensures r.rowStart + i < |data| && r.rowStart + i <= r.rowEnd
    ensures CaptureRect(data, r)[i] == Slice(data[r.rowStart + i], r.colStart, r.colEnd + 1)
  {
    RectPicks(data, r, i);
    PickedIsSlice(data[r.rowStart + i], CaptureRect(data, r)[i], r.colStart, r.colEnd);
  }

  lemma PickedIsSlice(row: Row, picked: Row, colStart: nat, colEnd: nat)
    requires DistinctKeys(row) && picked == PickColumns(row, colStart, colEnd)
    ensures picked == Slice(row, colStart, colEnd + 1)
  {
    PickColumnsIsSlice(row, colStart, colEnd);
  }

  /**
   * out is the data seen through the window r: one row per data row
   * rowStart..rowEnd that exists, each the slice of its columns
   * colStart..colEnd.
   */
  ghost predicate Window(data: seq<Row>, r: Rect, out: seq<Row>) {
    && |out| == |Slice(data, r.rowStart, r.rowEnd + 1)|
    && forall i :: 0 <= i < |out| ==>
         r.rowStart + i < |data| && r.rowStart + i <= r.rowEnd
         && out[i] == Slice(data[r.rowStart + i], r.colStart, r.colEnd + 1)
  }

  /** The extraction of a well-formed table is the data seen through its rectangle. */
  lemma CaptureIsWindow(data: seq<Row>, a: Point, b: Point)
    requires WellFormed(data)
    ensures Window(data, GetSelectedRange(a, b), CaptureSelectedData(data, a, b))
  {
    RectIsWindow(data, GetSelectedRange(a, b));
  }

  lemma RectIsWindow(data: seq<Row>, r: Rect)
    requires WellFormed(data)
    ensures Window(data, r, CaptureRect(data, r))
  {
    forall i | 0 <= i < |CaptureRect(data, r)| {
      RectRow(data, r, i);
    }
  }

  lemma WindowCell(data: seq<Row>, r: Rect, out: seq<Row>, i: nat, j: nat)
    requires Window(data, r, out) && i < |out| && j < |out[i]|
    ensures CellReadThrough(data, r, out, i, j)
  {
    SliceCells(data[r.rowStart + i], r.colStart, r.colEnd + 1);
  }

  lemma WindowHas(data: seq<Row>, r: Rect, out: seq<Row>, p: Point)
    requires Window(data, r, out) && Contains(r, p) && InBounds(data, p)
    ensures p.rowIdx - r.rowStart < |out|
    ensures p.colIdx - r.colStart < |out[p.rowIdx - r.rowStart]|
  {
    SliceCells(data, r.rowStart, r.rowEnd + 1);
    SliceCells(data[p.rowIdx], r.colStart, r.colEnd + 1);
  }

  /** One extracted cell is the data cell at the same place in the rectangle. */
  lemma CaptureSelectedDataCell(data: seq<Row>, a: Point, b: Point, i: nat, j: nat)
    requires WellFormed(data)
    requires i < |CaptureSelectedData(data, a, b)| && j < |CaptureSelectedData(data, a, b)[i]|
    ensures Contains(GetSelectedRange(a, b),
                     Point(GetSelectedRange(a, b).rowStart + i, GetSelectedRange(a, b).colStart + j))
    ensures InBounds(data, Point(GetSelectedRange(a, b).rowStart + i, GetSelectedRange(a, b).colStart + j))
    ensures CaptureSelectedData(data, a, b)[i][j]
            == data[GetSelectedRange(a, b).rowStart + i][GetSelectedRange(a, b).colStart + j]
  {
    CaptureIsWindow(data, a, b);
    WindowCell(data, GetSelectedRange(a, b), CaptureSelectedData(data, a, b), i, j);
  }

  /**
   * An existing data cell inside the rectangle is extracted, at its place
   * in the rectangle, with its value.
   */
  lemma CaptureSelectedDataShows(data: seq<Row>, a: Point, b: Point, p: Point)
    requires WellFormed(data)
    requires Contains(GetSelectedRange(a, b), p) && InBounds(data, p)
    ensures ShowsAt(data, GetSelectedRange(a, b), CaptureSelectedData(data, a, b), p)
  {
    CaptureIsWindow(data, a, b);
    WindowShows(data, GetSelectedRange(a, b), CaptureSelectedData(data, a, b), p);
  }

  lemma WindowShows(data: seq<Row>, r: Rect, out: seq<Row>, p: Point)
    requires Window(data, r, out) && Contains(r, p) && InBounds(data, p)
    ensures ShowsAt(data, r, out, p)
  {
    WindowHas(data, r, out, p);
    WindowCell(data, r, out, p.rowIdx - r.rowStart, p.colIdx - r.colStart);
  }

  /** A cell the window shows lies inside its rectangle. */
  lemma WindowShowsInside(data: seq<Row>, r: Rect, out: seq<Row>, p: Point)
    requires Window(data, r, out) && InBounds(data, p) && ShowsAt(data, r, out, p)
    ensures Contains(r, p)
  {
    WindowCell(data, r, out, p.rowIdx - r.rowStart, p.colIdx - r.colStart);
  }

  /** out shows the data cell p at its place in the window r. */
  predicate ShowsAt(data: seq<Row>, r: Rect, out: seq<Row>, p: Point)
    requires InBounds(data, p)
  {
    && r.rowStart <= p.rowIdx && r.colStart <= p.colIdx
    && p.rowIdx - r.rowStart < |out|
    && p.colIdx - r.colStart < |out[p.rowIdx - r.rowStart]|
    && out[p.rowIdx - r.rowStart][p.colIdx - r.colStart] == data[p.rowIdx][p.colIdx]
  }

  /**
   * Every cell of out is the data cell at the same place inside r: out is
   * read from the data through the window r and from nowhere else.
   */
  ghost predicate ReadThrough(data: seq<Row>, r: Rect, out: seq<Row>) {
    forall i: nat, j: nat :: i < |out| && j < |out[i]| ==> CellReadThrough(data, r, out, i, j)
  }

  ghost predicate CellReadThrough(data: seq<Row>, r: Rect, out: seq<Row>, i: nat, j: nat)
    requires i < |out| && j < |out[i]|
  {
    && Contains(r, Point(r.rowStart + i, r.colStart + j))
    && InBounds(data, Point(r.rowStart + i, r.colStart + j))
    && out[i][j] == data[r.rowStart + i][r.colStart + j]
  }

  /** Every data cell inside r has its place in out. */
  ghost predicate Covers(data: seq<Row>, r: Rect, out: seq<Row>) {
    forall p :: Contains(r, p) && InBounds(data, p) ==>
      r.rowStart <= p.rowIdx && r.colStart <= p.colIdx
      && p.rowIdx - r.rowStart < |out| && p.colIdx - r.colStart < |out[p.rowIdx - r.rowStart]|
  }

  /**
   * The extracted data is exactly the in-bounds part of the rectangle:
   * every extracted cell is the data cell at the same place inside the
   * rectangle, and every data cell inside the rectangle is extracted.
   */
  lemma CaptureSelectedDataCells(data: seq<Row>, a: Point, b: Point)
    requires WellFormed(data)
    ensures ReadThrough(data, GetSelectedRange(a, b), CaptureSelectedData(data, a, b))
    ensures Covers(data, GetSelectedRange(a, b), CaptureSelectedData(data, a, b))
  {
    CaptureIsWindow(data, a, b);
    WindowReadsThrough(data, GetSelectedRange(a, b), CaptureSelectedData(data, a, b));
    WindowCovers(data, GetSelectedRange(a, b), CaptureSelectedData(data, a, b));
  }

  lemma WindowReadsThrough(data: seq<Row>, r: Rect, out: seq<Row>)
    requires Window(data, r, out)
    ensures ReadThrough(data, r, out)
  {
    forall i: nat, j: nat | i < |out| && j < |out[i]|
      ensures CellReadThrough(data, r, out, i, j)
    {
      WindowCell(data, r, out, i, j);
    }
  }

  lemma WindowCovers(data: seq<Row>, r: Rect, out: seq<Row>)
    requires Window(data, r, out)
    ensures Covers(data, r, out)
  {
    forall p | Contains(r, p) && InBounds(data, p)
      ensures r.rowStart <= p.rowIdx && r.colStart <= p.colIdx
      ensures p.rowIdx - r.rowStart < |out| && p.colIdx - r.colStart < |out[p.rowIdx - r.rowStart]|
    {
      WindowHas(data, r, out, p);
    }
  }

  /** Pressing on an existing cell extracts that one cell and nothing else. */
  lemma CaptureOnePoint(data: seq<Row>, p: Point)
    requires WellFormed(data) && InBounds(data, p)
    ensures CaptureSelectedData(data, p, p) == [[data[p.rowIdx][p.colIdx]]]
  {
    var row := data[p.rowIdx];
    var out := CaptureSelectedData(data, p, p);
    SliceCells(data, p.rowIdx, p.rowIdx + 1);
    assert |out| == 1;
    CaptureSelectedDataRow(data, p, p, 0);
    SliceCells(row, p.colIdx, p.colIdx + 1);
    assert out[0] == Slice(row, p.colIdx, p.colIdx + 1);
    assert |out[0]| == 1 && out[0][0] == row[p.colIdx];
    assert out[0] == [row[p.colIdx]];
    assert out == [out[0]];
  }
}
