/**
 * The text `copySelectedCells` hands to the clipboard: tab-separated
 * values, a header line of keys first, one line per extracted row.
 */
module Clipboard {
  import opened Wrappers
  import opened Extraction

  const Tab: char := '\t'
  const Newline: char := '\n'

  /**
   * The text of one cell: null and undefined become the empty string, an
   * object its JSON text, anything else its default string form.
   */
  function CellText(v: Value): (t: string)
    ensures v.Undefined? || v.Null? ==> t == ""
  {
    match v
    case Undefined => ""
    case Null => ""
    case Primitive(text) => text
    case Composite(json) => json
  }

  /** `parts.join(sep)`. */
  function Join(parts: seq<string>, sep: char): string {
    if |parts| == 0 then ""
    else if |parts| == 1 then parts[0]
    else parts[0] + [sep] + Join(parts[1..], sep)
  }

  /**
   * `s.split(sep)`: the pieces between separators. A string without the
   * separator is one piece, and the empty string is one empty piece.
   */
  function Split(s: string, sep: char): (pieces: seq<string>)
    ensures |pieces| >= 1
  {
    if |s| == 0 then [""]
    else
      var rest := Split(s[1..], sep);
      if s[0] == sep then [""] + rest
      else [[s[0]] + rest[0]] + rest[1..]
  }

  /** One line of the clipboard text: the row's cells under the headers. */
  function RowLine(headers: seq<Key>, row: Row): string {
    Join(Cells(headers, row), Tab)
  }

  /**
   * The cell texts of a row, in header order: one per header.
   */
  function Cells(headers: seq<Key>, row: Row): (cells: seq<string>)
    ensures |cells| == |headers|
  {
    seq(|headers|, j requires 0 <= j < |headers| => CellText(Get(row, headers[j])))
  }

  /** A header the row lacks copies as an empty cell. */
  lemma CellsOfMissingKey(headers: seq<Key>, row: Row, j: nat)
    requires j < |headers| && headers[j] !in Keys(row)
    ensures Cells(headers, row)[j] == ""
  {
    assert forall i :: 0 <= i < |row| ==> Keys(row)[i] == row[i].0;
  }

  /** A header the row holds copies as the text of that entry's value. */
  lemma CellsOfPresentKey(headers: seq<Key>, row: Row, j: nat, i: nat)
    requires DistinctKeys(row) && j < |headers| && i < |row| && headers[j] == row[i].0
    ensures Cells(headers, row)[j] == CellText(row[i].1)
  {
    GetFindsEntry(row, i);
  }

  lemma CellsPlain(headers: seq<Key>, row: Row)
    ensures PlainRow(row) ==>
              forall j :: 0 <= j < |headers| ==> Plain(CellText(Get(row, headers[j])))
  {
    if PlainRow(row) {
      forall j | 0 <= j < |headers|
        ensures Plain(CellText(Get(row, headers[j])))
      {
        GetPlain(row, headers[j]);
      }
    }
  }

  /**
   * A row without separators in its texts makes one line, which splits on
   * tabs back into the row's cells.
   */
  lemma RowLineReadsBack(headers: seq<Key>, row: Row)
    requires PlainRow(row) && |headers| >= 1
    ensures Newline !in RowLine(headers, row)
    ensures Split(RowLine(headers, row), Tab) == Cells(headers, row)
  {
    var cells := Cells(headers, row);
    CellsPlain(headers, row);
    JoinAvoids(cells, Tab, Newline);
    SplitJoin(cells, Tab);
  }

  /**
   * The clipboard text for the extracted rows, or None when there is
   * nothing to copy (the clipboard is then left alone). The headers are the
   * first row's keys; the text opens with the header line.
   */
  function CopyText(rows: seq<Row>): (text: Option<string>)
    ensures text.None? <==> |rows| == 0
    ensures text.Some? ==> Join(Keys(rows[0]), Tab) <= text.value
  {
    if |rows| == 0 then None
    else
      var headers := Keys(rows[0]);
      JoinStartsWithFirst([Join(headers, Tab)] + Lines(headers, rows), Newline);
      Some(Join([Join(headers, Tab)] + Lines(headers, rows), Newline))
  }

  /** The row lines of the clipboard text, one per row, under the same headers. */
  function Lines(headers: seq<Key>, rows: seq<Row>): (lines: seq<string>)
    ensures |lines| == |rows|
  {
    seq(|rows|, i requires 0 <= i < |rows| => RowLine(headers, rows[i]))
  }

  /** Each row line of plain rows is one line that splits back into its cells. */
  lemma LinesReadBack(headers: seq<Key>, rows: seq<Row>)
    requires |headers| >= 1
    requires forall i :: 0 <= i < |rows| ==> PlainRow(rows[i])
    ensures forall i :: 0 <= i < |rows| ==> Newline !in Lines(headers, rows)[i]
    ensures forall i :: 0 <= i < |rows| ==>
              Split(Lines(headers, rows)[i], Tab) == Cells(headers, rows[i])
  {
    forall i | 0 <= i < |rows|
      ensures Newline !in Lines(headers, rows)[i]
      ensures Split(Lines(headers, rows)[i], Tab) == Cells(headers, rows[i])
    {
      RowLineReadsBack(headers, rows[i]);
    }
  }

  lemma JoinStartsWithFirst(parts: seq<string>, sep: char)
    requires |parts| >= 1
    ensures parts[0] <= Join(parts, sep)
  {
  }

  lemma JoinTwo(x: string, y: string, sep: char)
    ensures Join([x, y], sep) == x + [sep] + y
  {
    assert [x, y][1..] == [y];
  }

  lemma JoinThree(x: string, y: string, z: string, sep: char)
    ensures Join([x, y, z], sep) == x + [sep] + y + [sep] + z
  {
    assert [x, y, z][1..] == [y, z];
    JoinTwo(y, z, sep);
  }

  /** Neither separator occurs in s. */
  predicate Plain(s: string) {
    Tab !in s && Newline !in s
  }

  /** No key and no cell text of the row holds a separator. */
  predicate PlainRow(row: Row) {
    forall k :: 0 <= k < |row| ==> Plain(row[k].0) && Plain(CellText(row[k].1))
  }

  /** A string without the separator splits into itself. */
  lemma {:induction false} SplitWithoutSeparator(s: string, sep: char)
    requires sep !in s
    ensures Split(s, sep) == [s]
  {
    if |s| > 0 {
      SplitWithoutSeparator(s[1..], sep);
      assert [s[0]] + s[1..] == s;
    }
  }

  /** Splitting at the first separator peels off the text before it. */
  lemma {:induction false} SplitAtFirst(a: string, b: string, sep: char)
    requires sep !in a
    ensures Split(a + [sep] + b, sep) == [a] + Split(b, sep)
  {
    if |a| == 0 {
      assert a + [sep] + b == [sep] + b;
      assert ([sep] + b)[1..] == b;
    } else {
      assert (a + [sep] + b)[1..] == a[1..] + [sep] + b;
      SplitAtFirst(a[1..], b, sep);
      assert [a[0]] + a[1..] == a;
    }
  }

  /**
   * Splitting the joined text gives the parts back, provided no part holds
   * the separator and there is at least one part.
   */
  lemma {:induction false} SplitJoin(parts: seq<string>, sep: char)
    requires |parts| >= 1
    requires forall i :: 0 <= i < |parts| ==> sep !in parts[i]
    ensures Split(Join(parts, sep), sep) == parts
  {
    if |parts| == 1 {
      SplitWithoutSeparator(parts[0], sep);
    } else {
      SplitJoin(parts[1..], sep);
      SplitAtFirst(parts[0], Join(parts[1..], sep), sep);
      assert [parts[0]] + parts[1..] == parts;
    }
  }

  /** Joining parts that avoid a character c other than sep avoids c. */
  lemma {:induction false} JoinAvoids(parts: seq<string>, sep: char, c: char)
    requires c != sep
    requires forall i :: 0 <= i < |parts| ==> c !in parts[i]
    ensures c !in Join(parts, sep)
  {
    if |parts| > 1 {
      JoinAvoids(parts[1..], sep, c);
    }
  }

  /** Reading a key of a plain row yields plain text. */
  lemma {:induction false} GetPlain(row: Row, key: Key)
    requires PlainRow(row)
    ensures Plain(CellText(Get(row, key)))
  {
    if |row| > 0 && row[0].0 != key {
      assert forall k :: 0 <= k < |row[1..]| ==> row[1..][k] == row[k + 1];
      GetPlain(row[1..], key);
    }
  }

  /**
   * The clipboard text reads back as the table it was built from: split on
   * newlines it has one line more than there are rows; the first line,
   * split on tabs, is the first row's keys; line i + 1, split on tabs, is
   * row i's cells in header order. This needs keys and cells free of tabs
   * and newlines, because the text does not escape them.
   */
  lemma CopyTextReadsBack(rows: seq<Row>)
    requires |rows| > 0 && |rows[0]| > 0
    requires forall i :: 0 <= i < |rows| ==> PlainRow(rows[i])
    ensures var lines := Split(CopyText(rows).value, Newline);
            && |lines| == |rows| + 1
            && Split(lines[0], Tab) == Keys(rows[0])
            && forall i :: 0 <= i < |rows| ==>
                 Split(lines[i + 1], Tab) == Cells(Keys(rows[0]), rows[i])
  {
    var headers := Keys(rows[0]);
    TextSplitsIntoLines(rows);
    SplitJoin(headers, Tab);
    LinesReadBack(headers, rows);
  }

  /** Split on newlines, the text of plain rows is the header line and the row lines. */
  lemma TextSplitsIntoLines(rows: seq<Row>)
    requires |rows| > 0 && |rows[0]| > 0
    requires forall i :: 0 <= i < |rows| ==> PlainRow(rows[i])
    ensures forall j :: 0 <= j < |Keys(rows[0])| ==> Tab !in Keys(rows[0])[j]
    ensures Split(CopyText(rows).value, Newline)
            == [Join(Keys(rows[0]), Tab)] + Lines(Keys(rows[0]), rows)
  {
    var headers := Keys(rows[0]);
    HeaderLine(rows[0]);
    LinesReadBack(headers, rows);
    NoNewlineInAll(Join(headers, Tab), Lines(headers, rows));
    SplitJoin([Join(headers, Tab)] + Lines(headers, rows), Newline);
  }

  /** The header line of a plain row: its keys hold no tab, and the line no newline. */
  lemma HeaderLine(row: Row)
    requires PlainRow(row)
    ensures forall j :: 0 <= j < |Keys(row)| ==> Tab !in Keys(row)[j]
    ensures Newline !in Join(Keys(row), Tab)
  {
    assert forall j :: 0 <= j < |Keys(row)| ==> Plain(Keys(row)[j]);
    JoinAvoids(Keys(row), Tab, Newline);
  }

  lemma NoNewlineInAll(header: string, lines: seq<string>)
    requires Newline !in header
    requires forall i :: 0 <= i < |lines| ==> Newline !in lines[i]
    ensures forall i :: 0 <= i < |[header] + lines| ==> Newline !in ([header] + lines)[i]
  {
    var all := [header] + lines;
    forall i | 0 <= i < |all|
      ensures Newline !in all[i]
    {
      if i > 0 {
        assert all[i] == lines[i - 1];
      }
    }
  }

  /**
   * Cells are not escaped: one row whose cell holds a newline copies as
   * three lines, not two, so the text no longer reads back as one header
   * line and one row line.
   */
  lemma CopyTextNewlineInCell()
    ensures CopyText([[("task", Primitive("a\nb"))]]) == Some("task\na\nb")
    ensures Split(CopyText([[("task", Primitive("a\nb"))]]).value, Newline) == ["task", "a", "b"]
  {
    var row: Row := [("task", Primitive("a\nb"))];
    assert Keys(row) == ["task"];
    assert Lines(["task"], [row]) == ["a\nb"];
    JoinTwo("task", "a\nb", Newline);
    assert "task" + [Newline] + "a\nb" == "task\na\nb";
    SplitTaskText();
  }

  lemma SplitTaskText()
    ensures Split("task\na\nb", Newline) == ["task", "a", "b"]
  {
    assert "a" + [Newline] + "b" == "a\nb";
    assert "task" + [Newline] + "a\nb" == "task\na\nb";
    SplitWithoutSeparator("b", Newline);
    SplitAtFirst("a", "b", Newline);
    SplitAtFirst("task", "a\nb", Newline);
  }

  /**
   * The worked example: two rows of a task and a status object, already
   * cut to the columns task and status, copy as a header line and two
   * tab-separated lines.
   */
  lemma CopyTextOfTasks()
    ensures CopyText([
              [("task", Primitive("A")), ("status", Composite("{\"id\":1,\"name\":\"Open\"}"))],
              [("task", Primitive("B")), ("status", Composite("{\"id\":2,\"name\":\"Done\"}"))]])
            == Some("task\tstatus\n" + ("A" + "\t" + "{\"id\":1,\"name\":\"Open\"}")
                    + "\n" + ("B" + "\t" + "{\"id\":2,\"name\":\"Done\"}"))
  {
    TaskTable("A", "{\"id\":1,\"name\":\"Open\"}", "B", "{\"id\":2,\"name\":\"Done\"}");
  }

  /** Any two rows of a task and a status object, cut to those two columns. */
  lemma TaskTable(task1: string, status1: string, task2: string, status2: string)
    ensures CopyText([
              [("task", Primitive(task1)), ("status", Composite(status1))],
              [("task", Primitive(task2)), ("status", Composite(status2))]])
            == Some("task\tstatus\n" + (task1 + "\t" + status1) + "\n" + (task2 + "\t" + status2))
  {
    var a: Row := [("task", Primitive(task1)), ("status", Composite(status1))];
    var b: Row := [("task", Primitive(task2)), ("status", Composite(status2))];
    assert Keys(a) == ["task", "status"];
    JoinTwo("task", "status", Tab);
    TaskLine(task1, status1);
    TaskLine(task2, status2);
    CopyTextOfTwo(a, b);
    TaskTextShape(task1 + "\t" + status1, task2 + "\t" + status2);
  }

  lemma TaskTextShape(l1: string, l2: string)
    ensures "task" + [Tab] + "status" + [Newline] + l1 + [Newline] + l2 == "task\tstatus\n" + l1 + "\n" + l2
  {
    assert "task" + [Tab] + "status" + [Newline] == "task\tstatus\n";
    assert [Newline] == "\n";
  }

  /** Two rows copy as the header line and the two rows' lines. */
  lemma CopyTextOfTwo(a: Row, b: Row)
    ensures CopyText([a, b]) == Some(Join(Keys(a), Tab) + [Newline] + RowLine(Keys(a), a)
                                     + [Newline] + RowLine(Keys(a), b))
  {
    var headers := Keys(a);
    var lines := Lines(headers, [a, b]);
    assert lines == [RowLine(headers, a), RowLine(headers, b)];
    assert [Join(headers, Tab)] + lines == [Join(headers, Tab), RowLine(headers, a), RowLine(headers, b)];
    JoinThree(Join(headers, Tab), RowLine(headers, a), RowLine(headers, b), Newline);
  }

  /** One line of the worked example: a task name and its status object. */
  lemma TaskLine(task: string, status: string)
    ensures RowLine(["task", "status"], [("task", Primitive(task)), ("status", Composite(status))])
            == task + "\t" + status
  {
    var row: Row := [("task", Primitive(task)), ("status", Composite(status))];
    assert Get(row, "status") == Composite(status);
    assert Cells(["task", "status"], row) == [task, status];
    JoinTwo(task, status, Tab);
    assert task + [Tab] == task + "\t";
  }
}
