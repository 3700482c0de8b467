/** Concrete inputs worked through the model: what the preview of a few
    small files looks like. Each input is a parameter fixed by its
    precondition. */
module CsvScenarios {
  import opened CsvText
  import opened CsvLines
  import opened CsvCells
  import opened CsvRecords
  import opened CsvPreview

  /** Two lines, each trimmed of its newline. */
  lemma TwoLines(text: string)
    requires text == "a\nb"
    ensures Lines(text, DefaultMaxRows) == ["a", "b"]
  {
    var first, rest := text[0..2], text[2..];
    assert !TogglesQuote(text, 0) && !InQuotes(text, 1) && EndsLine(text, 1);
    assert text[2] != '\n';
    assert !EndsLine(text, 2);
    assert PiecesFrom(text, 2, 3) == [rest];
    assert PiecesFrom(text, 0, 1) == [first, rest];
    assert Segments(text, DefaultMaxRows) == [first, rest];
    assert TrimEnd(first) == TrimEnd(first[..1]) == "a";
    assert LeadingSpaces(first) == 0 && LeadingSpaces(rest) == 0;
    assert Trim(first) == "a" && Trim(rest) == "b";
    TrimAllPair(first, rest);
  }

  lemma TrimAllPair(a: string, b: string)
    ensures TrimAll([a, b]) == [Trim(a), Trim(b)]
  {
    assert [a, b][..1] == [a];
    assert [a][..0] == [];
  }

  /** A newline between double quotes stays inside its line. */
  lemma QuotedNewline(text: string)
    requires text == "\"a\nb\"\nc"
    ensures Pieces(text) == ["\"a\nb\"\n", "c"]
  {
    assert TogglesQuote(text, 0) && !TogglesQuote(text, 1) && !TogglesQuote(text, 2) && !TogglesQuote(text, 3);
    assert InQuotes(text, 1);
    assert InQuotes(text, 2);
    assert InQuotes(text, 3);
    assert InQuotes(text, 4);
    assert TogglesQuote(text, 4) && !InQuotes(text, 5);
    assert PiecesFrom(text, 6, 6) == [text[6..]];
    assert PiecesFrom(text, 0, 5) == [text[0..6], text[6..]];
    assert PiecesFrom(text, 0, 4) == PiecesFrom(text, 0, 5);
    assert PiecesFrom(text, 0, 3) == PiecesFrom(text, 0, 4);
    assert PiecesFrom(text, 0, 2) == PiecesFrom(text, 0, 3);
    assert PiecesFrom(text, 0, 1) == PiecesFrom(text, 0, 2);
    assert text[0..6] == "\"a\nb\"\n" && text[6..] == "c";
  }

  /** The line scanner takes a quote after a backslash as escaped, so the
      newline after it is still quoted and the text stays one line. */
  lemma EscapedQuoteKeepsLine(text: string)
    requires text == "\"a\\\"\nb\""
    ensures Pieces(text) == [text]
  {
    assert TogglesQuote(text, 0) && !TogglesQuote(text, 1) && !TogglesQuote(text, 2) && !TogglesQuote(text, 3);
    assert InQuotes(text, 1);
    assert InQuotes(text, 2);
    assert InQuotes(text, 3);
    assert InQuotes(text, 4);
    assert text[0..] == text;
    assert PiecesFrom(text, 0, 7) == [text];
    assert PiecesFrom(text, 0, 6) == PiecesFrom(text, 0, 7);
    assert PiecesFrom(text, 0, 5) == PiecesFrom(text, 0, 6);
    assert PiecesFrom(text, 0, 4) == PiecesFrom(text, 0, 5);
    assert PiecesFrom(text, 0, 3) == PiecesFrom(text, 0, 4);
    assert PiecesFrom(text, 0, 2) == PiecesFrom(text, 0, 3);
    assert PiecesFrom(text, 0, 1) == PiecesFrom(text, 0, 2);
  }

  /** The cell splitter knows no escape: the quote after the backslash closes
      the quoted part, and the comma after it separates two cells. */
  lemma EscapedQuoteSplitsCells(line: string)
    requires line == "\"a\\\",b\""
    ensures Cells(line) == ["a\\", "b"]
  {
    assert Quoted(line, 1) && Quoted(line, 2) && Quoted(line, 3) && !Quoted(line, 4);
    assert FieldsFrom(line, 5, 7) == [line[5..]];
    assert FieldsFrom(line, 5, 5) == FieldsFrom(line, 5, 6);
    assert FieldsFrom(line, 0, 4) == [line[0..4], line[5..]];
    assert FieldsFrom(line, 0, 3) == FieldsFrom(line, 0, 4);
    assert FieldsFrom(line, 0, 2) == FieldsFrom(line, 0, 3);
    assert FieldsFrom(line, 0, 1) == FieldsFrom(line, 0, 2);
    var inner, b := line[1..3], line[5..6];
    assert line[0..4] == ['"'] + inner + ['"'] && line[5..] == b + ['"'];
    assert inner == "a\\" && b == "b";
    QuotedFieldUnwraps(inner);
    RemoveQuotesAppend(b, ['"']);
    RemoveQuotesNone(b);
    assert RemoveQuotes(['"']) == [];
    assert RemoveQuotes(line[0..4]) == "a\\" && RemoveQuotes(line[5..]) == "b";
    RemoveQuotesAllPair(line[0..4], line[5..]);
  }

  /** A comma between double quotes does not split the cell. */
  lemma QuotedComma(line: string)
    requires line == "x,\"y,z\""
    ensures Cells(line) == ["x", "y,z"]
  {
    assert !Quoted(line, 1);
    assert Quoted(line, 3) && Quoted(line, 4) && Quoted(line, 5) && Quoted(line, 6);
    assert FieldsFrom(line, 2, 7) == [line[2..]];
    assert FieldsFrom(line, 2, 6) == FieldsFrom(line, 2, 7);
    assert FieldsFrom(line, 2, 5) == FieldsFrom(line, 2, 6);
    assert FieldsFrom(line, 2, 4) == FieldsFrom(line, 2, 5);
    assert FieldsFrom(line, 2, 3) == FieldsFrom(line, 2, 4);
    assert FieldsFrom(line, 2, 2) == FieldsFrom(line, 2, 3);
    assert FieldsFrom(line, 0, 1) == [line[0..1], line[2..]];
    var inner := line[3..6];
    assert line[2..] == ['"'] + inner + ['"'];
    assert inner == "y,z" && line[0..1] == "x";
    QuotedFieldUnwraps(inner);
    RemoveQuotesNone(line[0..1]);
    RemoveQuotesAllPair(line[0..1], line[2..]);
  }

  lemma RemoveQuotesAllPair(a: string, b: string)
    ensures RemoveQuotesAll([a, b]) == [RemoveQuotes(a), RemoveQuotes(b)]
  {
    assert [a, b][1..] == [b];
    assert [b][1..] == [];
  }

  /** The lines of a header line with an empty first name and one data line
      with a single cell. */
  lemma ShortRowLines(text: string)
    requires text == ",k\n1"
    ensures Lines(text, DefaultMaxRows) == [",k", "1"]
  {
    var first, rest := text[0..3], text[3..];
    assert !TogglesQuote(text, 0) && !TogglesQuote(text, 1) && !InQuotes(text, 1);
    assert !InQuotes(text, 2);
    assert EndsLine(text, 2) && !EndsLine(text, 3) && !EndsLine(text, 1) && !EndsLine(text, 0);
    assert PiecesFrom(text, 3, 4) == [rest];
    assert PiecesFrom(text, 0, 2) == [first, rest];
    assert PiecesFrom(text, 0, 0) == PiecesFrom(text, 0, 2);
    assert Segments(text, DefaultMaxRows) == [first, rest];
    assert TrimEnd(first) == TrimEnd(first[..2]) == ",k";
    assert LeadingSpaces(first) == 0 && LeadingSpaces(rest) == 0;
    assert Trim(first) == ",k" && Trim(rest) == "1";
    TrimAllPair(first, rest);
  }

  /** A leading comma opens an empty cell. */
  lemma ShortRowCells(header: string, data: string)
    requires header == ",k" && data == "1"
    ensures Cells(header) == ["", "k"] && Cells(data) == ["1"]
  {
    assert IsSeparator(header, 0) && !IsSeparator(header, 1) && !IsSeparator(data, 0);
    assert FieldsFrom(header, 1, 2) == [header[1..]];
    assert FieldsFrom(header, 0, 0) == [header[0..0], header[1..]];
    assert FieldsFrom(data, 0, 0) == [data[0..]];
    RemoveQuotesNone(header[1..]);
    RemoveQuotesNone(data);
    assert data[0..] == data && header[1..] == "k";
    RemoveQuotesAllPair(header[0..0], header[1..]);
    assert [data][1..] == [];
  }

  /** The record of the short row: the empty header is named `col_0`, and
      the missing second cell reads as the empty string. */
  lemma ShortRowRecord(headers: seq<string>, row: seq<string>)
    requires headers == ["", "k"] && row == ["1"]
    ensures RecordOf(headers, row) == [Entry("col_0", "1"), Entry("k", "")]
  {
    assert DigitChar(0) == '0';
    assert Decimal(0) == "0";
    var keys := Keys(headers);
    assert keys[0] == "col_0" && keys[1] == "k";
    assert CellOr(row, 0) == "1" && CellOr(row, 1) == "";
    assert RecordUpTo(keys, row, 1) == [Entry("col_0", "1")];
    assert Assign([Entry("col_0", "1")], "k", "") == [Entry("col_0", "1"), Entry("k", "")];
  }

  /** The whole preview of a header line and one short data line. */
  lemma ShortRowAndEmptyHeader(text: string)
    requires text == ",k\n1"
    ensures Parse(text, DefaultMaxRows) == Preview(["", "k"], [[Entry("col_0", "1"), Entry("k", "")]])
  {
    ShortRowLines(text);
    var lines := Lines(text, DefaultMaxRows);
    ShortRowCells(lines[0], lines[1]);
    TwoRows(lines[0], lines[1]);
    ShortRowRecord(Cells(lines[0]), Cells(lines[1]));
  }

  /** The preview of exactly two lines: the first names the columns, the
      second is the one record. */
  lemma TwoRows(header: string, data: string)
    ensures Assemble(RowsOf([header, data])) == Preview(Cells(header), [RecordOf(Cells(header), Cells(data))])
  {
    var rows := RowsOf([header, data]);
    assert rows == [Cells(header), Cells(data)];
    assert rows[1..] == [Cells(data)];
  }
}
