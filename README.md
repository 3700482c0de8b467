# MLight CSV preview parser, modelled in Dafny

MLight loads a tabular dataset in the browser. When its embedded Python
runtime cannot parse an uploaded file, the upload page falls back to a small
JavaScript parser: `parseCSV(text, maxRows)` in `src/pages/Upload.jsx`. The
page calls it with `maxRows = 100`, and the default is 50. This project models
that parser and proves what it does.

The parser works in three phases, each modelled in its own module:

1. **Line scanning** (`CsvLines`, `lines.dfy`). It walks the text with an
   `inQuotes` flag. A `"` flips the flag unless the character before it is a
   backslash. A newline read while the flag is off ends a logical line. The
   line is stored after `trim()`, and scanning stops once `maxRows` lines are
   stored. Whatever is left at the end is stored if it is non-empty and there
   is still room.
2. **Cell splitting** (`CsvCells`, `cells.dfy`). Each line is split at the
   commas that lie outside a second `quoted` flag. Every `"` flips that flag
   and is dropped from the cell text. There is no backslash escape in this
   phase.
3. **Record building** (`CsvRecords`, `records.dfy`). The first row gives the
   column names. Every later row becomes an object whose property `i` is named
   `headers[i]`, or `col_<i>` when that header is empty. Its value is `r[i]`,
   or `''` when the cell is missing or empty.

`CsvPreview` (`preview.dfy`) composes the phases into `parseCSV` and the
fallback call with `maxRows = 100`. `CsvText` (`text.dfy`) holds JavaScript's
`String.prototype.trim` over the ECMAScript white-space set, a string join, and
the decimal rendering used by the template `col_${i}`. `CsvScenarios`
(`scenarios.dfy`) works the model through concrete inputs, such as a quoted
newline, an escaped quote, a quoted comma and a short row under an empty
header.

Each loop of the source is an imperative `method`: `ScanLines`, `SplitCells`,
`BuildRecord`, `SplitLines` and `BuildRecords`. The method `ParseCsv` is the
whole function, which calls them in turn. Each method is proved equal to a
declarative function: `Lines`, `Cells`, `RecordOf`, `RowsOf`, `RecordsOf` and
`Parse`, respectively. The lemmas then state what those functions mean.

A JavaScript object is modelled as the list of its own properties in creation
order. Assignment overwrites an existing property in place and appends a new
one. Assigning a string to `__proto__` creates no property, because the
`Object.prototype` setter ignores it.

A missing or empty cell becomes `''` (src/pages/Upload.jsx:53).

## Model

| member | source | states |
|---|---|---|
| CsvLines.ScanLines | src/pages/Upload.jsx:9-25 | The scanning loop, with its early exit, returns exactly `Lines(text, maxRows)`: every stored segment trimmed. |
| CsvLines.InQuotesParity | src/pages/Upload.jsx:14-17 | `inQuotes` is on exactly when an odd number of the quotes read so far were not preceded by a backslash. A quote after a backslash never counts. |
| CsvLines.PiecesCut | src/pages/Upload.jsx:11-21 | The pieces the scanner cuts, joined, are the whole text. Every piece but the last contains exactly one line-ending newline, its final character, so every other newline in it is read inside quotes. The last piece contains no line-ending newline. |
| CsvLines.SegmentsArePieces | src/pages/Upload.jsx:13-25 | The pushed segments are a prefix of the pieces. None is empty. Each is a complete line, except that the last may be the open rest of the text. |
| CsvLines.SegmentsCoverText | src/pages/Upload.jsx:13-25 | The pushed segments, joined, are a prefix of the text. When `maxRows >= 1` and the text has no more than `maxRows` pieces, they are the whole text. |
| CsvLines.TrimAllAt | src/pages/Upload.jsx:20-25 | Each stored line is its segment trimmed. |
| CsvLines.LinesBound | src/pages/Upload.jsx:22-25 | At most `maxRows` lines are stored when `maxRows >= 1`, and at most one otherwise. |
| CsvLines.NoLines | src/pages/Upload.jsx:11-25 | No line is stored exactly when the text is empty, or when `maxRows < 1` and the text has no line-ending newline. |
| CsvText.TrimCuts | src/pages/Upload.jsx:20 | `trim()` returns the infix of its argument after the leading white space, and only white space follows that infix. |
| CsvText.Trim | src/pages/Upload.jsx:20 | The result of `trim()` neither starts nor ends with white space. |
| CsvText.TrimIdempotent | src/pages/Upload.jsx:20 | Trimming twice is trimming once. |
| CsvText.LeadingSpaces | src/pages/Upload.jsx:20 | Counts the leading white space: everything before the count is white space, and the character at the count is not. |
| CsvCells.SplitCells | src/pages/Upload.jsx:29-45 | The splitting loop for one line returns exactly `Cells(line)`, the quote-free text of each raw field. |
| CsvCells.CellCount | src/pages/Upload.jsx:38-45 | A line has exactly one cell more than it has commas read while `quoted` is off. |
| CsvCells.CellsConcat | src/pages/Upload.jsx:34-43 | The cells, joined, equal the line with every `"` and every unquoted comma removed. The removed text is an independent definition, `KeptFrom`. |
| CsvCells.CellsHaveNoQuotes | src/pages/Upload.jsx:34-36 | No cell contains a double quote. |
| CsvCells.RemoveQuotesContent | src/pages/Upload.jsx:34-43 | Dropping the quotes keeps every other character as often as it occurs. |
| CsvCells.QuotedFieldUnwraps | src/pages/Upload.jsx:34-36 | A field wrapped in one pair of quotes, without inner quotes, reads as its content. |
| CsvRecords.BuildRecord | src/pages/Upload.jsx:52-54 | The loop that fills `obj` returns exactly `RecordOf(headers, row)`: every header's name assigned its cell, in header order. |
| CsvRecords.RecordShape | src/pages/Upload.jsx:52-54 | A record's property names are distinct, and it has no more properties than there are headers. |
| CsvRecords.RecordLookup | src/pages/Upload.jsx:53 | Suppose a header's name is neither `__proto__` nor repeated by a later header. Then the record holds that header's cell under the name, or `''` when the row is short. |
| CsvRecords.RecordLacks | src/pages/Upload.jsx:53 | A name that no header yields, or `__proto__`, is not a property of the record. |
| CsvRecords.EmptyHeaderKeys | src/pages/Upload.jsx:53 | Two empty headers get different `col_<i>` names, and neither is `__proto__`. |
| CsvRecords.RecordExact | src/pages/Upload.jsx:52-54 | When header names are distinct and none is `__proto__`, the record is exactly one property per header, in header order, each holding that header's cell or `''`. |
| CsvRecords.ExtraCellsDropped | src/pages/Upload.jsx:53 | Cells beyond the header count do not affect the record. |
| CsvRecords.MissingCellIsEmpty | src/pages/Upload.jsx:53 | A missing cell gives the same record as an empty one. |
| CsvRecords.AssignLookup | src/pages/Upload.jsx:53 | After `obj[key] = value`, `key` reads back `value` and every other name reads back what it did before. |
| CsvRecords.AssignShape | src/pages/Upload.jsx:53 | An assignment keeps property names distinct. It appends a property the object lacks and does not grow the object otherwise. |
| CsvRecords.LookupNoneIffAbsent | src/pages/Upload.jsx:53 | A name reads back nothing exactly when no property has it. |
| CsvRecords.RecordUpToLookup | src/pages/Upload.jsx:53 | After the first `n` assignments, a name holds the cell of its last assignment. It holds nothing if it is `__proto__` or was never assigned. |
| CsvPreview.ParseCsv | src/pages/Upload.jsx:6-57 | `parseCSV` as a whole returns exactly `Parse(text, maxRows)`: the lines scanned, split into rows and assembled. |
| CsvPreview.SplitLines | src/pages/Upload.jsx:27-47 | The `for (const line of lines)` loop yields one row per line, each the cells of that line, in order. |
| CsvPreview.BuildRecords | src/pages/Upload.jsx:51-55 | `rows.slice(1).map(...)` yields one record per row, in order, each built under the same headers. |
| CsvPreview.ParseEmpty | src/pages/Upload.jsx:49 | The result is `{columns: [], records: []}` exactly when no line was stored. That happens exactly when the text is empty, or when `maxRows < 1` and the text has no line-ending newline. |
| CsvPreview.ParseShape | src/pages/Upload.jsx:50-56 | `columns` is the first row as it is (empty headers stay empty). There is exactly one record per later line, in order, each built from that line's cells under `columns`. |
| CsvPreview.RowsNotPadded | src/pages/Upload.jsx:45-46 | Each row is the cells of its line, as many as the line has unquoted commas plus one. Rows are not padded to the header width. |
| CsvPreview.ParseBound | src/pages/Upload.jsx:51 | The first line is not a record, and the scanner keeps at most `maxRows` lines (lines 22 and 25). So there are at most `maxRows - 1` records when `maxRows >= 1`, and none otherwise. |
| CsvPreview.FallbackBound | src/pages/Upload.jsx:84 | The upload page's fallback preview holds at most 99 records. |
| CsvPreview.ParseRecords | src/pages/Upload.jsx:52-54 | Every record in the result has distinct property names, no more of them than there are columns. Under a column whose name is unique and not `__proto__`, a record holds its row's cell, or `''` when the row is short. |
| CsvScenarios.TwoLines | src/pages/Upload.jsx:19-25 | `"a\nb"` gives the lines `a` and `b`, the newline trimmed away. |
| CsvScenarios.QuotedNewline | src/pages/Upload.jsx:14-19 | In `"a\nb"` followed by a newline and `c`, the quoted newline does not end a line. |
| CsvScenarios.EscapedQuoteKeepsLine | src/pages/Upload.jsx:16-17 | A quote after a backslash does not close the quotes in the line scanner, so the newline after it stays inside the line. |
| CsvScenarios.EscapedQuoteSplitsCells | src/pages/Upload.jsx:34-38 | The cell splitter has no escape: the same quote closes the field, and the comma after it splits. |
| CsvScenarios.QuotedComma | src/pages/Upload.jsx:34-41 | `x,"y,z"` gives the cells `x` and `y,z`. |
| CsvScenarios.ShortRowAndEmptyHeader | src/pages/Upload.jsx:49-56 | `,k` followed by a newline and `1` gives columns `["", "k"]` and one record `{col_0: "1", k: ""}`. |
| CsvScenarios.TwoRows | src/pages/Upload.jsx:49-56 | Two rows give the first row's cells as columns and one record built from the second row. |

## Left out

- `handleFile` (src/pages/Upload.jsx:65-92) is not modelled beyond its call `parseCSV(text, 100)`. The rest of it is file reading, IndexedDB storage and React state, which are I/O and presentation.
- The Python-runtime path (`src/context/DataContext.jsx` and `src/context/DataContext.fixed.jsx`) is not part of this model. It sends Python source to an embedded interpreter whose behaviour is not visible, and its in-memory fallbacks are elided in the source.
- The toast, charting, table and page components are not part of this model. They hold rendering, routing and timers only.
- CsvRecords.RecordOf: JavaScript lists integer-like property names (such as `"1"`) before the others, in ascending order. The model keeps every property in creation order. Which value each name holds is unaffected.
- CsvLines.Lines: `maxRows` is modelled as a mathematical integer. A fractional, `NaN` or non-numeric argument is not modelled. The default is 50 (line 6), and the one call passes 100 (line 84).
- CsvText.IsSpace: JavaScript strings are UTF-16 code units, while here a character is a Unicode scalar value. No character the parser tests is a surrogate, so the phases agree, but `length` counts differ for characters outside the Basic Multilingual Plane.
- CsvLines.ScanLines: the source's `break` at line 22 is written as a `return`, because nothing else runs after the loop in that case (the tail push at line 25 is always refused then).
