/** Second phase of `parseCSV` (src/pages/Upload.jsx:27-47): split each line
    into cells at the commas that are outside double quotes, and drop the
    quote characters. Unlike the line scanner, this pass knows no backslash
    escape: every `"` flips its flag. */
module CsvCells {
  import opened CsvText

  /** The splitter's `quoted` flag once the first `i` characters of the line
      are read. */
  function Quoted(line: string, i: nat): bool
    requires i <= |line|
  {
    if i == 0 then false else Quoted(line, i - 1) != (line[i - 1] == '"')
  }

  /** The comma at index `j` separates two cells. */
  predicate IsSeparator(line: string, j: nat)
    requires j < |line|
  {
    line[j] == ',' && !Quoted(line, j)
  }

  /** The raw fields of `line[start..]` when the current field began at
      `start` and reading has reached `i`; separators belong to no field. */
  function FieldsFrom(line: string, start: nat, i: nat): (fs: seq<string>)
    requires start <= i <= |line|
    ensures |fs| >= 1
    decreases |line| - i
  {
    if i == |line| then [line[start..]]
    else if IsSeparator(line, i) then [line[start..i]] + FieldsFrom(line, i + 1, i + 1)
    else FieldsFrom(line, start, i + 1)
  }

  /** The line cut at its separators. */
  function RawFields(line: string): seq<string> {
    FieldsFrom(line, 0, 0)
  }

  /** `s` without its double-quote characters, the rest in order. */
  function RemoveQuotes(s: string): (r: string)
    ensures |r| <= |s|
  {
    if s == [] then []
    else RemoveQuotes(s[..|s| - 1]) + (if s[|s| - 1] == '"' then [] else [s[|s| - 1]])
  }

  /** Quote removal keeps every other character as often as it occurs. */
  lemma {:induction false} RemoveQuotesContent(s: string)
    ensures multiset(RemoveQuotes(s)) == multiset(s)['"' := 0]
  {
    if s != [] {
      var init, last := s[..|s| - 1], s[|s| - 1];
      assert s == init + [last];
      RemoveQuotesContent(init);
    }
  }

  /** Quote removal works piece by piece. */
  lemma {:induction false} RemoveQuotesAppend(a: string, b: string)
    ensures RemoveQuotes(a + b) == RemoveQuotes(a) + RemoveQuotes(b)
    decreases |b|
  {
    if b == [] {
      assert a + b == a;
    } else {
      var init, last := b[..|b| - 1], b[|b| - 1];
      assert (a + b)[..|a + b| - 1] == a + init;
      RemoveQuotesAppend(a, init);
    }
  }

  /** A string without double quotes is left as it is. */
  lemma {:induction false} RemoveQuotesNone(s: string)
    requires '"' !in s
    ensures RemoveQuotes(s) == s
  {
    if s != [] {
      RemoveQuotesNone(s[..|s| - 1]);
    }
  }

  /** A quoted field without inner quotes reads as its content. */
  lemma QuotedFieldUnwraps(s: string)
    requires '"' !in s
    ensures RemoveQuotes(['"'] + s + ['"']) == s
  {
    RemoveQuotesAppend(['"'] + s, ['"']);
    RemoveQuotesAppend(['"'], s);
    RemoveQuotesNone(s);
    assert ['"'][..0] == [];
  }

  /** Quote removal applied to every field. */
  function RemoveQuotesAll(ss: seq<string>): (r: seq<string>)
    ensures |r| == |ss|
  {
    if ss == [] then [] else [RemoveQuotes(ss[0])] + RemoveQuotesAll(ss[1..])
  }

  lemma {:induction false} RemoveQuotesAllSnoc(ss: seq<string>, s: string)
    ensures RemoveQuotesAll(ss + [s]) == RemoveQuotesAll(ss) + [RemoveQuotes(s)]
  {
    if ss != [] {
      assert (ss + [s])[1..] == ss[1..] + [s];
      RemoveQuotesAllSnoc(ss[1..], s);
    }
  }

  /** The `cols` that `parseCSV` builds for one line. */
  function Cells(line: string): seq<string> {
    RemoveQuotesAll(RawFields(line))
  }

  /** The splitting loop of `parseCSV` for one line. */
  method SplitCells(line: string) returns (cols: seq<string>)
    ensures cols == Cells(line)
  {
    cols := [];
    var cell: string := "";
    var quoted := false;
    ghost var raw: seq<string> := [];
    ghost var start: nat := 0;
    for i := 0 to |line|
      invariant start <= i
      invariant cell == RemoveQuotes(line[start..i])
      invariant quoted == Quoted(line, i)
      invariant RawFields(line) == raw + FieldsFrom(line, start, i)
      invariant cols == RemoveQuotesAll(raw)
    {
      var ch := line[i];
      SplitStep(line, raw, start, i);
      if ch == '"' {
        quoted := !quoted;
      } else if ch == ',' && !quoted {
        CutStep(line, raw, start, i);
        cols := cols + [cell];
        raw := raw + [line[start..i]];
        cell := "";
        start := i + 1;
      } else {
        cell := cell + [ch];
      }
    }
    SplitEnd(line, raw, start);
    cols := cols + [cell];
  }

  /** The end of the line: the last field is what is left. */
  lemma SplitEnd(line: string, raw: seq<string>, start: nat)
    requires start <= |line|
    requires RawFields(line) == raw + FieldsFrom(line, start, |line|)
    ensures Cells(line) == RemoveQuotesAll(raw) + [RemoveQuotes(line[start..|line|])]
  {
    assert line[start..|line|] == line[start..];
    assert FieldsFrom(line, start, |line|) == [line[start..]];
    RemoveQuotesAllSnoc(raw, line[start..]);
  }

  /** One character of the splitting loop: how the flag and the current
      cell change, and that the fields still to come are unchanged unless the
      character separates two cells. */
  lemma SplitStep(line: string, raw: seq<string>, start: nat, i: nat)
    requires start <= i < |line|
    requires RawFields(line) == raw + FieldsFrom(line, start, i)
    ensures Quoted(line, i + 1) == (Quoted(line, i) != (line[i] == '"'))
    ensures RemoveQuotes(line[start..i + 1]) == RemoveQuotes(line[start..i]) + (if line[i] == '"' then [] else [line[i]])
    ensures !(line[i] == ',' && !Quoted(line, i)) ==> RawFields(line) == raw + FieldsFrom(line, start, i + 1)
  {
    assert line[start..i + 1][..i - start] == line[start..i];
  }

  /** A separator in the splitting loop: the field before it is complete and
      the cells gain it without its quotes. */
  lemma CutStep(line: string, raw: seq<string>, start: nat, i: nat)
    requires start <= i < |line|
    requires RawFields(line) == raw + FieldsFrom(line, start, i)
    requires line[i] == ',' && !Quoted(line, i)
    ensures RawFields(line) == (raw + [line[start..i]]) + FieldsFrom(line, i + 1, i + 1)
    ensures RemoveQuotesAll(raw + [line[start..i]]) == RemoveQuotesAll(raw) + [RemoveQuotes(line[start..i])]
    ensures RemoveQuotes(line[i + 1..i + 1]) == []
  {
    assert IsSeparator(line, i);
    RemoveQuotesAllSnoc(raw, line[start..i]);
    assert line[i + 1..i + 1] == [];
  }

  /** How many separators lie at index `i` or later. */
  function SeparatorsFrom(line: string, i: nat): nat
    requires i <= |line|
    decreases |line| - i
  {
    if i == |line| then 0
    else (if IsSeparator(line, i) then 1 else 0) + SeparatorsFrom(line, i + 1)
  }

  /** The characters at index `i` or later that survive splitting: neither a
      quote nor a separator. */
  function KeptFrom(line: string, i: nat): string
    requires i <= |line|
    decreases |line| - i
  {
    if i == |line| then []
    else (if line[i] == '"' || IsSeparator(line, i) then [] else [line[i]]) + KeptFrom(line, i + 1)
  }

  lemma {:induction false} FieldsFromCount(line: string, start: nat, i: nat)
    requires start <= i <= |line|
    ensures |FieldsFrom(line, start, i)| == 1 + SeparatorsFrom(line, i)
    decreases |line| - i
  {
    if i < |line| {
      if IsSeparator(line, i) {
        FieldsFromCount(line, i + 1, i + 1);
      } else {
        FieldsFromCount(line, start, i + 1);
      }
    }
  }

  /** A line has one cell more than it has unquoted commas: rows are never
      padded or cut. */
  lemma CellCount(line: string)
    ensures |Cells(line)| == 1 + SeparatorsFrom(line, 0)
  {
    FieldsFromCount(line, 0, 0);
  }

  lemma {:induction false} FieldsFromConcat(line: string, start: nat, i: nat)
    requires start <= i <= |line|
    ensures Concat(RemoveQuotesAll(FieldsFrom(line, start, i))) == RemoveQuotes(line[start..i]) + KeptFrom(line, i)
    decreases |line| - i
  {
    if i == |line| {
      LastFieldConcat(line, start);
    } else if IsSeparator(line, i) {
      FieldsFromConcat(line, i + 1, i + 1);
      SeparatorConcat(line, start, i);
    } else {
      FieldsFromConcat(line, start, i + 1);
      KeptConcat(line, start, i);
    }
  }

  lemma LastFieldConcat(line: string, start: nat)
    requires start <= |line|
    ensures Concat(RemoveQuotesAll(FieldsFrom(line, start, |line|))) == RemoveQuotes(line[start..|line|]) + KeptFrom(line, |line|)
  {
    var f := line[start..|line|];
    assert f == line[start..];
    assert FieldsFrom(line, start, |line|) == [f];
    assert RemoveQuotesAll([f]) == [RemoveQuotes(f)];
    assert Concat([RemoveQuotes(f)]) == RemoveQuotes(f) + Concat([]);
  }

  lemma KeptConcat(line: string, start: nat, i: nat)
    requires start <= i < |line| && !IsSeparator(line, i)
    requires Concat(RemoveQuotesAll(FieldsFrom(line, start, i + 1))) == RemoveQuotes(line[start..i + 1]) + KeptFrom(line, i + 1)
    ensures Concat(RemoveQuotesAll(FieldsFrom(line, start, i))) == RemoveQuotes(line[start..i]) + KeptFrom(line, i)
  {
    assert FieldsFrom(line, start, i) == FieldsFrom(line, start, i + 1);
    var a, c := line[start..i], line[i];
    var d := if c == '"' then [] else [c];
    assert line[start..i + 1][..i - start] == a;
    assert RemoveQuotes(line[start..i + 1]) == RemoveQuotes(a) + d;
    assert KeptFrom(line, i) == d + KeptFrom(line, i + 1);
  }

  lemma SeparatorConcat(line: string, start: nat, i: nat)
    requires start <= i < |line| && IsSeparator(line, i)
    requires Concat(RemoveQuotesAll(FieldsFrom(line, i + 1, i + 1))) == RemoveQuotes(line[i + 1..i + 1]) + KeptFrom(line, i + 1)
    ensures Concat(RemoveQuotesAll(FieldsFrom(line, start, i))) == RemoveQuotes(line[start..i]) + KeptFrom(line, i)
  {
    var rest := FieldsFrom(line, i + 1, i + 1);
    assert line[i + 1..i + 1] == [];
    assert FieldsFrom(line, start, i) == [line[start..i]] + rest;
    assert RemoveQuotesAll([line[start..i]] + rest) == [RemoveQuotes(line[start..i])] + RemoveQuotesAll(rest);
  }

  /** The cells, joined, are the line with every quote and every separator
      removed: splitting loses nothing else and adds nothing. */
  lemma CellsConcat(line: string)
    ensures Concat(Cells(line)) == KeptFrom(line, 0)
  {
    FieldsFromConcat(line, 0, 0);
    assert line[0..0] == [];
  }

  /** No cell contains a double quote. */
  lemma CellsHaveNoQuotes(line: string)
    ensures forall m :: 0 <= m < |Cells(line)| ==> '"' !in Cells(line)[m]
  {
    forall m | 0 <= m < |Cells(line)| ensures '"' !in Cells(line)[m] {
      RemoveQuotesAllAt(RawFields(line), m);
      RemoveQuotesContent(RawFields(line)[m]);
      var r := Cells(line)[m];
      assert multiset(r)['"'] == 0;
    }
  }

  lemma {:induction false} RemoveQuotesAllAt(ss: seq<string>, m: nat)
    requires m < |ss|
    ensures RemoveQuotesAll(ss)[m] == RemoveQuotes(ss[m])
  {
    if m > 0 {
      RemoveQuotesAllAt(ss[1..], m - 1);
    }
  }
}
