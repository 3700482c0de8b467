/** `parseCSV(text, maxRows)` as a whole (src/pages/Upload.jsx:6-57): the
    three phases composed, and the call `parseCSV(text, 100)` that the upload
    page falls back to when the embedded runtime cannot parse the file. */
module CsvPreview {
  import opened CsvLines
  import opened CsvCells
  import opened CsvRecords

  /** The value `{columns, records}` that `parseCSV` returns. */
  datatype Preview = Preview(columns: seq<string>, records: seq<Record>)

  /** The default of the `maxRows` parameter. */
  const DefaultMaxRows: int := 50

  /** The `maxRows` the upload page passes. */
  const FallbackMaxRows: int := 100

  /** The cells of every line, in order. */
  function RowsOf(lines: seq<string>): seq<seq<string>> {
    seq(|lines|, m requires 0 <= m < |lines| => Cells(lines[m]))
  }

  /** The `rows` array of `parseCSV`. */
  function Rows(text: string, maxRows: int): seq<seq<string>> {
    RowsOf(Lines(text, maxRows))
  }

  /** One record per row, in order, all under the same headers. */
  function RecordsOf(headers: seq<string>, rows: seq<seq<string>>): seq<Record> {
    seq(|rows|, m requires 0 <= m < |rows| => RecordOf(headers, rows[m]))
  }

  /** The return value for given rows: nothing for no rows, otherwise the
      first row as the column list and one record per later row. */
  function Assemble(rows: seq<seq<string>>): Preview {
    if |rows| == 0 then Preview([], []) else Preview(rows[0], RecordsOf(rows[0], rows[1..]))
  }

  /** What `parseCSV(text, maxRows)` returns. */
  function Parse(text: string, maxRows: int): Preview {
    Assemble(Rows(text, maxRows))
  }

  /** The `for (const line of lines)` loop. */
  method SplitLines(lines: seq<string>) returns (rows: seq<seq<string>>)
    ensures rows == RowsOf(lines)
  {
    rows := [];
    for m := 0 to |lines|
      invariant |rows| == m
      invariant forall j :: 0 <= j < m ==> rows[j] == Cells(lines[j])
    {
      var cols := SplitCells(lines[m]);
      rows := rows + [cols];
    }
  }

  /** `rows.slice(1).map(...)`, given the rows after the first. */
  method BuildRecords(headers: seq<string>, rows: seq<seq<string>>) returns (records: seq<Record>)
    ensures records == RecordsOf(headers, rows)
  {
    records := [];
    for m := 0 to |rows|
      invariant |records| == m
      invariant forall j :: 0 <= j < m ==> records[j] == RecordOf(headers, rows[j])
    {
      var obj := BuildRecord(headers, rows[m]);
      records := records + [obj];
    }
  }

  /** `parseCSV` itself: scan the lines, split them into rows, and build the
      records. */
  method ParseCsv(text: string, maxRows: int) returns (p: Preview)
    ensures p == Parse(text, maxRows)
  {
    var lines := ScanLines(text, maxRows);
    var rows := SplitLines(lines);
    if |rows| == 0 {
      return Preview([], []);
    }
    var headers := rows[0];
    var records := BuildRecords(headers, rows[1..]);
    p := Preview(headers, records);
  }

  /** The preview the upload page shows when the runtime fails. */
  function FallbackPreview(text: string): Preview {
    Parse(text, FallbackMaxRows)
  }

  /** Every line yields at least one cell. */
  lemma CellsNonEmpty(line: string)
    ensures |Cells(line)| >= 1
  {
  }

  /** Each row is the cells of its line, as many as the line has unquoted
      commas plus one: rows are neither padded nor cut to the header width. */
  lemma RowsNotPadded(text: string, maxRows: int, m: nat)
    requires m < |Rows(text, maxRows)|
    ensures Rows(text, maxRows)[m] == Cells(Lines(text, maxRows)[m])
    ensures |Rows(text, maxRows)[m]| == 1 + SeparatorsFrom(Lines(text, maxRows)[m], 0)
  {
    CellCount(Lines(text, maxRows)[m]);
  }

  /** The result is empty exactly when no line was collected: for an empty
      text, or for a `maxRows` below one with no line-ending newline. */
  lemma ParseEmpty(text: string, maxRows: int)
    ensures Parse(text, maxRows) == Preview([], []) <==> Lines(text, maxRows) == []
    ensures Lines(text, maxRows) == [] <==> text == [] || (maxRows < 1 && |Pieces(text)| == 1)
  {
    NoLines(text, maxRows);
    var lines := Lines(text, maxRows);
    if lines != [] {
      CellsNonEmpty(lines[0]);
    }
  }

  /** The columns are the cells of the first line, as they are (an empty
      header stays empty there), and the records correspond one to one, in
      order, to the later lines. */
  lemma ParseShape(text: string, maxRows: int)
    requires Lines(text, maxRows) != []
    ensures var lines, p := Lines(text, maxRows), Parse(text, maxRows);
      && p.columns == Cells(lines[0])
      && |p.records| == |lines| - 1
      && forall m :: 0 <= m < |p.records| ==> p.records[m] == RecordOf(p.columns, Cells(lines[m + 1]))
  {
    var lines, rows := Lines(text, maxRows), Rows(text, maxRows);
    var p := Assemble(rows);
    assert |rows| == |lines| > 0;
    assert p.columns == rows[0] == Cells(lines[0]);
    forall m | 0 <= m < |p.records| ensures p.records[m] == RecordOf(p.columns, Cells(lines[m + 1])) {
      assert p.records[m] == RecordOf(rows[0], rows[1..][m]);
      assert rows[1..][m] == rows[m + 1] == Cells(lines[m + 1]);
    }
  }

  /** There are never more records than `maxRows - 1`. */
  lemma ParseBound(text: string, maxRows: int)
    ensures |Parse(text, maxRows).records| <= Cap(maxRows) - 1
    ensures 1 <= maxRows ==> |Parse(text, maxRows).records| <= maxRows - 1
  {
    LinesBound(text, maxRows);
  }

  /** The upload page's fallback preview holds at most 99 records. */
  lemma FallbackBound(text: string)
    ensures |FallbackPreview(text).records| <= 99
  {
    ParseBound(text, FallbackMaxRows);
  }

  /** Every record has distinct property names, no more of them than there
      are columns, and under a column whose name is unique (and not
      `__proto__`) the cell of that column, or `""` when the row is short. */
  lemma ParseRecords(text: string, maxRows: int, m: nat, i: nat)
    requires m < |Parse(text, maxRows).records|
    requires i < |Parse(text, maxRows).columns|
    requires var cs := Parse(text, maxRows).columns;
      KeyFor(cs, i) != ProtoKey && forall j :: i < j < |cs| ==> KeyFor(cs, j) != KeyFor(cs, i)
    ensures var p := Parse(text, maxRows);
      && DistinctKeys(p.records[m])
      && |p.records[m]| <= |p.columns|
      && Lookup(p.records[m], KeyFor(p.columns, i)) == Some(CellOr(Rows(text, maxRows)[m + 1], i))
  {
    var p, rows := Parse(text, maxRows), Rows(text, maxRows);
    assert p.records[m] == RecordOf(rows[0], rows[m + 1]);
    RecordShape(rows[0], rows[m + 1]);
    RecordLookup(rows[0], rows[m + 1], i);
  }
}
