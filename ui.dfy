/**
 * What the table shows (src/ui.rs): the header, the column widths and one row
 * of cells per blame line, with a divider cell between neighbouring cells.
 * The commit columns of a row are filled only on the first line of a block of
 * lines from the same commit.  Cells are modelled by their text; styles,
 * colours, the ANSI-to-text conversion of highlighted contents and drawing to
 * the terminal are not modelled.
 */
module Ui {
  import opened Wrappers
  import opened Blame
  import opened Navigation

  /** The divider cell between two columns. */
  const Divider: string := "│"

  /** The empty cell. */
  const Empty: string := ""

  // ---------------------------------------------------------------------
  // insert_between
  // ---------------------------------------------------------------------

  /** `items` with `sep` between every two neighbours. */
  function Interspersed<T>(items: seq<T>, sep: T): (r: seq<T>)
    ensures |items| == 0 ==> r == []
    ensures |items| > 0 ==> |r| == 2 * |items| - 1
  {
    if |items| <= 1 then items else [items[0], sep] + Interspersed(items[1..], sep)
  }

  /** The items sit at the even positions, `sep` at the odd ones. */
  lemma {:induction false} InterspersedAt<T>(items: seq<T>, sep: T, j: nat)
    requires j < |Interspersed(items, sep)|
    ensures j % 2 == 0 ==> Interspersed(items, sep)[j] == items[j / 2]
    ensures j % 2 == 1 ==> Interspersed(items, sep)[j] == sep
    decreases |items|
  {
    if |items| > 1 && j >= 2 {
      InterspersedAt(items[1..], sep, j - 2);
    }
  }

  /** `InterspersedAt` for every position. */
  lemma InterspersedIndex<T>(items: seq<T>, sep: T)
    ensures forall j :: 0 <= j < |Interspersed(items, sep)| && j % 2 == 0 ==> Interspersed(items, sep)[j] == items[j / 2]
    ensures forall j :: 0 <= j < |Interspersed(items, sep)| && j % 2 == 1 ==> Interspersed(items, sep)[j] == sep
  {
    forall j | 0 <= j < |Interspersed(items, sep)| {
      InterspersedAt(items, sep, j);
    }
  }

  /** One more item at the end adds the separator and that item. */
  lemma {:induction false} InterspersedSnoc<T>(items: seq<T>, x: T, sep: T)
    requires |items| > 0
    ensures Interspersed(items + [x], sep) == Interspersed(items, sep) + [sep, x]
    decreases |items|
  {
    if |items| == 1 {
      assert (items + [x])[1..] == [x];
    } else {
      assert (items + [x])[1..] == items[1..] + [x];
      InterspersedSnoc(items[1..], x, sep);
    }
  }

  /** `insert_between`: push each item and a separator, then pop the last
      separator. */
  method InsertBetween<T>(items: seq<T>, newItem: T) returns (out: seq<T>)
    ensures out == Interspersed(items, newItem)
  {
    out := [];
    for i := 0 to |items|
      invariant i == 0 ==> out == []
      invariant i > 0 ==> out == Interspersed(items[..i], newItem) + [newItem]
    {
      if i > 0 {
        assert items[..i + 1] == items[..i] + [items[i]];
        InterspersedSnoc(items[..i], items[i], newItem);
      }
      out := out + [items[i]];
      out := out + [newItem];
    }
    assert items[..|items|] == items;
    if |out| > 0 {
      out := out[..|out| - 1];
    }
  }

  // ---------------------------------------------------------------------
  // Header and widths
  // ---------------------------------------------------------------------

  function Names(columns: seq<Column>): (r: seq<string>)
    ensures |r| == |columns| && forall i :: 0 <= i < |columns| ==> r[i] == columns[i].name
  {
    if |columns| == 0 then [] else [columns[0].name] + Names(columns[1..])
  }

  function Widths(columns: seq<Column>): (r: seq<Constraint>)
    ensures |r| == |columns| && forall i :: 0 <= i < |columns| ==> r[i] == columns[i].width
  {
    if |columns| == 0 then [] else [columns[0].width] + Widths(columns[1..])
  }

  /** The header row: each column's name, dividers between them. */
  function HeaderCells(columns: seq<Column>): seq<string> {
    Interspersed(Names(columns), Divider)
  }

  /** The column widths: each column's width, one cell between them. */
  function ColumnWidths(columns: seq<Column>): seq<Constraint> {
    Interspersed(Widths(columns), Max(1))
  }

  /** Six items with the separator between every two of them. */
  lemma InterspersedSix<T>(a: T, b: T, c: T, d: T, e: T, f: T, sep: T)
    ensures Interspersed([a, b, c, d, e, f], sep) == [a, sep, b, sep, c, sep, d, sep, e, sep, f]
  {
    assert [e, f][1..] == [f];
    assert Interspersed([e, f], sep) == [e, sep, f];
    assert [d, e, f][1..] == [e, f];
    assert Interspersed([d, e, f], sep) == [d, sep, e, sep, f];
    assert [c, d, e, f][1..] == [d, e, f];
    assert Interspersed([c, d, e, f], sep) == [c, sep, d, sep, e, sep, f];
    assert [b, c, d, e, f][1..] == [c, d, e, f];
    assert Interspersed([b, c, d, e, f], sep) == [b, sep, c, sep, d, sep, e, sep, f];
    assert [a, b, c, d, e, f][1..] == [b, c, d, e, f];
  }

  /** With the default columns the header has the six names with a divider
      between every two of them. */
  lemma DefaultHeader()
    ensures HeaderCells(DefaultColumns()) ==
      ["TIME", Divider, "AUTHOR", Divider, "COMMIT", Divider, "MESSAGE", Divider, "LINE", Divider, "CONTENTS"]
  {
    assert Names(DefaultColumns()) == ["TIME", "AUTHOR", "COMMIT", "MESSAGE", "LINE", "CONTENTS"];
    InterspersedSix("TIME", "AUTHOR", "COMMIT", "MESSAGE", "LINE", "CONTENTS", Divider);
  }

  /** With the default columns a one-cell width sits between every two
      column widths. */
  lemma DefaultWidths()
    ensures ColumnWidths(DefaultColumns()) ==
      [Max(10), Max(1), Max(15), Max(1), Max(8), Max(1), Max(30), Max(1), Max(5), Max(1), Fill(1000)]
  {
    assert Widths(DefaultColumns()) == [Max(10), Max(15), Max(8), Max(30), Max(5), Fill(1000)];
    InterspersedSix(Max(10), Max(15), Max(8), Max(30), Max(5), Fill(1000), Max(1));
  }

  // ---------------------------------------------------------------------
  // Rows
  // ---------------------------------------------------------------------

  /** The four commit cells of a row: empty when the line's commit is the one
      of the line above, otherwise the commit's time, author, sha and
      message from the cache. */
  function CommitCells(previousSha: string, line: BlameLine, cache: map<string, Commit>): seq<string>
    requires line.commitSha != previousSha ==> line.commitSha in cache
  {
    if line.commitSha == previousSha then [Empty, Empty, Empty, Empty]
    else
      var commit := cache[line.commitSha];
      [commit.timestamp, commit.author, line.commitSha, commit.commitMessage]
  }

  /** `table_row_for_blame_line`: the commit cells, the line number and the
      contents, with dividers between them. */
  function RowCells(previousSha: string, line: BlameLine, cache: map<string, Commit>): seq<string>
    requires line.commitSha != previousSha ==> line.commitSha in cache
  {
    Interspersed(CommitCells(previousSha, line, cache) + [line.lineNumber, line.contents], Divider)
  }

  /** A row has eleven cells: dividers at the odd positions, the line number
      and the contents last, and the commit's time, author, sha and message
      in front unless the line above has the same commit, when those four
      are empty. */
  lemma RowLayout(previousSha: string, line: BlameLine, cache: map<string, Commit>)
    requires line.commitSha != previousSha ==> line.commitSha in cache
    ensures var r := RowCells(previousSha, line, cache);
      && |r| == 11
      && r[1] == Divider && r[3] == Divider && r[5] == Divider && r[7] == Divider && r[9] == Divider
      && r[8] == line.lineNumber && r[10] == line.contents
      && (line.commitSha == previousSha ==> r[0] == Empty && r[2] == Empty && r[4] == Empty && r[6] == Empty)
      && (line.commitSha != previousSha ==>
            && r[0] == cache[line.commitSha].timestamp && r[2] == cache[line.commitSha].author
            && r[4] == line.commitSha && r[6] == cache[line.commitSha].commitMessage)
  {
    var cells := CommitCells(previousSha, line, cache) + [line.lineNumber, line.contents];
    InterspersedIndex(cells, Divider);
  }

  /** `table_row_for_blame_line`, building the cells as the source does. */
  method TableRowForBlameLine(previousSha: string, line: BlameLine, cache: map<string, Commit>)
    returns (cells: seq<string>)
    requires line.commitSha != previousSha ==> line.commitSha in cache
    ensures cells == RowCells(previousSha, line, cache)
  {
    if line.commitSha == previousSha {
      cells := [Empty, Empty, Empty, Empty];
    } else {
      var commit := cache[line.commitSha];
      cells := [commit.timestamp, commit.author, line.commitSha, commit.commitMessage];
    }
    cells := cells + [line.lineNumber];
    cells := cells + [line.contents];
    assert cells == CommitCells(previousSha, line, cache) + [line.lineNumber, line.contents];
    cells := InsertBetween(cells, Divider);
  }

  /** The commit of the line above line `i`, and "" above the first line. */
  function PreviousSha(lines: seq<BlameLine>, i: nat): string
    requires i <= |lines|
  {
    if i == 0 then "" else lines[i - 1].commitSha
  }

  /** The rows of the first `n` lines, each built from the commit of the
      line before it. */
  function RenderedRows(lines: seq<BlameLine>, n: nat, cache: map<string, Commit>): (r: seq<seq<string>>)
    requires n <= |lines|
    requires forall i :: 0 <= i < |lines| ==> lines[i].commitSha in cache
    ensures |r| == n
  {
    if n == 0 then []
    else RenderedRows(lines, n - 1, cache) + [RowCells(PreviousSha(lines, n - 1), lines[n - 1], cache)]
  }

  /** Row `i` of the rendered rows shows line `i` under the commit of line
      `i - 1`. */
  lemma {:induction false} RenderedRowAt(lines: seq<BlameLine>, n: nat, cache: map<string, Commit>, i: nat)
    requires i < n <= |lines|
    requires forall k :: 0 <= k < |lines| ==> lines[k].commitSha in cache
    ensures RenderedRows(lines, n, cache)[i] == RowCells(PreviousSha(lines, i), lines[i], cache)
    decreases n
  {
    var before := RenderedRows(lines, n - 1, cache);
    assert RenderedRows(lines, n, cache) == before + [RowCells(PreviousSha(lines, n - 1), lines[n - 1], cache)];
    if i < n - 1 {
      RenderedRowAt(lines, n - 1, cache, i);
      assert RenderedRows(lines, n, cache)[i] == before[i];
    }
  }

  /** The row loop of `render`: each row is built from the commit of the
      line before it. */
  method Rows(lines: seq<BlameLine>, cache: map<string, Commit>) returns (rows: seq<seq<string>>)
    requires forall i :: 0 <= i < |lines| ==> lines[i].commitSha in cache
    ensures |rows| == |lines|
    ensures forall i :: 0 <= i < |lines| ==> rows[i] == RowCells(PreviousSha(lines, i), lines[i], cache)
  {
    var previousSha := "";
    rows := [];
    for i := 0 to |lines|
      invariant previousSha == PreviousSha(lines, i)
      invariant rows == RenderedRows(lines, i, cache)
    {
      var row := TableRowForBlameLine(previousSha, lines[i], cache);
      rows := rows + [row];
      previousSha := lines[i].commitSha;
    }
    forall i | 0 <= i < |lines| ensures rows[i] == RowCells(PreviousSha(lines, i), lines[i], cache) {
      RenderedRowAt(lines, |lines|, cache, i);
    }
  }

  /** A row shows its commit exactly when its line starts a block: the first
      line of a block shows time, author, sha and message, every other line
      leaves those four cells empty.  (The first line compares against "", so
      it needs a non-empty sha.) */
  lemma CommitShownAtBlockStarts(lines: seq<BlameLine>, cache: map<string, Commit>, i: nat)
    requires forall k :: 0 <= k < |lines| ==> lines[k].commitSha in cache
    requires i < |lines| && lines[0].commitSha != ""
    ensures
      var row := RowCells(PreviousSha(lines, i), lines[i], cache);
      && (IsBlockStart(lines, i) ==>
            row[0] == cache[lines[i].commitSha].timestamp && row[2] == cache[lines[i].commitSha].author
            && row[4] == lines[i].commitSha && row[6] == cache[lines[i].commitSha].commitMessage)
      && (!IsBlockStart(lines, i) ==> row[0] == Empty && row[2] == Empty && row[4] == Empty && row[6] == Empty)
  {
    RowLayout(PreviousSha(lines, i), lines[i], cache);
  }

  /** What the table widget is given. */
  datatype Table = Table(
    title: string,
    header: seq<string>,
    widths: seq<Constraint>,
    rows: seq<seq<string>>,
    selected: Option<nat>)

  /** `render`, up to the widget: the title names the file and the commit,
      the header and widths follow the columns, and row `i` shows line `i`. */
  method Render(app: App) returns (t: Table)
    requires app.Valid() && app.fileBlame.Some?
    ensures t.title == "Blame for file: " + app.filePath + " at ref: " + app.commitSha
    ensures t.header == HeaderCells(app.columns) && t.widths == ColumnWidths(app.columns)
    ensures |t.rows| == |app.fileBlame.value.blameLines|
    ensures forall i :: 0 <= i < |t.rows| ==>
      t.rows[i] == RowCells(PreviousSha(app.fileBlame.value.blameLines, i), app.fileBlame.value.blameLines[i], app.commitCache)
    ensures t.selected == app.selected
  {
    var header := InsertBetween(Names(app.columns), Divider);
    var rows := Rows(app.fileBlame.value.blameLines, app.commitCache);
    var widths := InsertBetween(Widths(app.columns), Max(1));
    t := Table("Blame for file: " + app.filePath + " at ref: " + app.commitSha, header, widths, rows, app.selected);
  }
}
