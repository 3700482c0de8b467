/** First phase of `parseCSV` (src/pages/Upload.jsx:9-25): cut the text into
    logical lines at newlines that are not inside double quotes, trim each
    line, and stop after `maxRows` lines. */
module CsvLines {
  import opened CsvText

  /** Whether the scanner flips its `inQuotes` flag on index `j`: every `"`
      does, except one right after a backslash. For `j == 0` the source reads
      `text[-1]`, which is `undefined` and so not a backslash. */
  predicate TogglesQuote(text: string, j: nat)
    requires j < |text|
  {
    text[j] == '"' && (j == 0 || text[j - 1] != '\\')
  }

  /** The `inQuotes` flag once the first `i` characters are scanned. */
  function InQuotes(text: string, i: nat): bool
    requires i <= |text|
  {
    if i == 0 then false
    else if TogglesQuote(text, i - 1) then !InQuotes(text, i - 1)
    else InQuotes(text, i - 1)
  }

  /** The newline at index `j` ends a logical line: it is read while the
      flag is off. */
  predicate EndsLine(text: string, j: nat)
    requires j < |text|
  {
    text[j] == '\n' && !InQuotes(text, j)
  }

  /** The indices below `i` at which the scanner flips its flag. */
  function TogglesBelow(text: string, i: nat): set<nat>
    requires i <= |text|
  {
    set j: nat | j < i && TogglesQuote(text, j)
  }

  /** The flag is on exactly when an odd number of the quotes read so far
      were not preceded by a backslash: a quote after a backslash never
      counts. */
  lemma {:induction false} InQuotesParity(text: string, i: nat)
    requires i <= |text|
    ensures InQuotes(text, i) <==> |TogglesBelow(text, i)| % 2 == 1
  {
    if i > 0 {
      InQuotesParity(text, i - 1);
      var before := TogglesBelow(text, i - 1);
      if TogglesQuote(text, i - 1) {
        assert TogglesBelow(text, i) == before + {i - 1};
        assert i - 1 !in before;
      } else {
        assert TogglesBelow(text, i) == before;
      }
    }
  }

  /** A piece that ends with the only line-ending newline it contains. */
  predicate CompleteLine(s: string) {
    |s| > 0 && EndsLine(s, |s| - 1) && forall j :: 0 <= j < |s| - 1 ==> !EndsLine(s, j)
  }

  /** A piece that contains no line-ending newline. */
  predicate OpenTail(s: string) {
    forall j :: 0 <= j < |s| ==> !EndsLine(s, j)
  }

  /** The raw pieces of `text[start..]` when the current piece began at
      `start` and scanning has reached `i`: each piece runs up to and
      including a line-ending newline, and the last one is what is left. */
  function PiecesFrom(text: string, start: nat, i: nat): (ps: seq<string>)
    requires start <= i <= |text|
    ensures |ps| >= 1
    decreases |text| - i
  {
    if i == |text| then [text[start..]]
    else if EndsLine(text, i) then [text[start..i + 1]] + PiecesFrom(text, i + 1, i + 1)
    else PiecesFrom(text, start, i + 1)
  }

  /** The whole text cut at its line-ending newlines (the newline stays with
      the piece it ends, as in `cur += ch` before the push). */
  function Pieces(text: string): (ps: seq<string>)
    ensures |ps| >= 1
  {
    PiecesFrom(text, 0, 0)
  }

  /** The most lines the scanner keeps: `lines.length >= maxRows` is tested
      only after a push, so a `maxRows` below one still lets one line in. */
  function Cap(maxRows: int): nat {
    if maxRows < 1 then 1 else maxRows
  }

  /** The untrimmed pieces that are pushed: either the scanner stops after
      `Cap(maxRows)` complete lines, or it reaches the end and pushes the
      non-empty rest if `lines.length < maxRows`. */
  function Segments(text: string, maxRows: int): seq<string> {
    var ps := Pieces(text);
    var k := |ps| - 1;
    if k >= Cap(maxRows) then ps[..Cap(maxRows)]
    else ps[..k] + (if ps[k] != [] && k < maxRows then [ps[k]] else [])
  }

  /** Every string of `ss` trimmed, in order. */
  function TrimAll(ss: seq<string>): (r: seq<string>)
    ensures |r| == |ss|
  {
    if ss == [] then [] else TrimAll(ss[..|ss| - 1]) + [Trim(ss[|ss| - 1])]
  }

  /** Each stored line is its segment trimmed. */
  lemma {:induction false} TrimAllAt(ss: seq<string>, m: nat)
    requires m < |ss|
    ensures TrimAll(ss)[m] == Trim(ss[m])
  {
    if m < |ss| - 1 {
      TrimAllAt(ss[..|ss| - 1], m);
    }
  }

  /** The `lines` of `parseCSV`: each segment trimmed. */
  function Lines(text: string, maxRows: int): seq<string> {
    TrimAll(Segments(text, maxRows))
  }

  /** The scanning loop of `parseCSV`, with its early exit. */
  method ScanLines(text: string, maxRows: int) returns (lines: seq<string>)
    ensures lines == Lines(text, maxRows)
  {
    lines := [];
    var cur: string := "";
    var inQuotes := false;
    ghost var segs: seq<string> := [];
    ghost var start: nat := 0;
    var i := 0;
    while i < |text|
      invariant start <= i <= |text|
      invariant cur == text[start..i]
      invariant inQuotes == InQuotes(text, i)
      invariant Pieces(text) == segs + PiecesFrom(text, start, i)
      invariant |segs| < Cap(maxRows)
      invariant lines == TrimAll(segs)
      decreases |text| - i
    {
      var ch := text[i];
      ScanStep(text, segs, start, i);
      cur := cur + [ch];
      if ch == '"' {
        if i == 0 || text[i - 1] != '\\' {
          inQuotes := !inQuotes;
        }
      }
      if ch == '\n' && !inQuotes {
        PushStep(text, maxRows, segs, start, i);
        lines := lines + [Trim(cur)];
        segs := segs + [cur];
        cur := "";
        start := i + 1;
        if |lines| >= maxRows {
          return;
        }
      }
      i := i + 1;
    }
    ScanEnd(text, maxRows, segs, start);
    if cur != [] && |lines| < maxRows {
      lines := lines + [Trim(cur)];
    }
  }

  lemma TrimAllSnoc(ss: seq<string>, s: string)
    ensures TrimAll(ss + [s]) == TrimAll(ss) + [Trim(s)]
  {
    assert (ss + [s])[..|ss|] == ss;
  }

  lemma SegmentsWhenStopped(text: string, maxRows: int, segs: seq<string>, rest: seq<string>)
    requires Pieces(text) == segs + rest && |rest| >= 1
    requires |segs| == Cap(maxRows)
    ensures Segments(text, maxRows) == segs
  {
    assert (segs + rest)[..|segs|] == segs;
  }

  /** The end of the text: the rest is pushed if it is not empty and there
      is room for it. */
  lemma ScanEnd(text: string, maxRows: int, segs: seq<string>, start: nat)
    requires start <= |text|
    requires Pieces(text) == segs + PiecesFrom(text, start, |text|)
    requires |segs| < Cap(maxRows)
    ensures var tail := text[start..|text|];
      Lines(text, maxRows) == TrimAll(segs) + (if tail != [] && |segs| < maxRows then [Trim(tail)] else [])
  {
    var tail := text[start..|text|];
    assert tail == text[start..];
    assert PiecesFrom(text, start, |text|) == [tail];
    assert (segs + [tail])[..|segs|] == segs;
    if tail != [] && |segs| < maxRows {
      assert Segments(text, maxRows) == segs + [tail];
      TrimAllSnoc(segs, tail);
    } else {
      assert Segments(text, maxRows) == segs;
    }
  }

  /** One character of the scanning loop: how the flag and the current
      piece change, and that the pieces still to come are unchanged unless a
      line ends. */
  lemma ScanStep(text: string, segs: seq<string>, start: nat, i: nat)
    requires start <= i < |text|
    requires Pieces(text) == segs + PiecesFrom(text, start, i)
    ensures text[start..i + 1] == text[start..i] + [text[i]]
    ensures InQuotes(text, i + 1) == (InQuotes(text, i) != (text[i] == '"' && (i == 0 || text[i - 1] != '\\')))
    ensures !(text[i] == '\n' && !InQuotes(text, i + 1)) ==> Pieces(text) == segs + PiecesFrom(text, start, i + 1)
  {
  }

  /** A line ending in the scanning loop: the piece up to the newline is
      complete, the collected lines gain it trimmed, and once `maxRows` is
      reached they are all there are. */
  lemma PushStep(text: string, maxRows: int, segs: seq<string>, start: nat, i: nat)
    requires start <= i < |text|
    requires Pieces(text) == segs + PiecesFrom(text, start, i)
    requires |segs| < Cap(maxRows)
    requires text[i] == '\n' && !InQuotes(text, i + 1)
    ensures var seg := text[start..i + 1];
      && Pieces(text) == (segs + [seg]) + PiecesFrom(text, i + 1, i + 1)
      && text[i + 1..i + 1] == []
      && TrimAll(segs + [seg]) == TrimAll(segs) + [Trim(seg)]
      && (|segs| + 1 >= maxRows ==> Lines(text, maxRows) == TrimAll(segs) + [Trim(seg)])
      && (|segs| + 1 < maxRows ==> |segs| + 1 < Cap(maxRows))
  {
    var seg := text[start..i + 1];
    assert EndsLine(text, i);
    assert Pieces(text) == (segs + [seg]) + PiecesFrom(text, i + 1, i + 1);
    TrimAllSnoc(segs, seg);
    if |segs| + 1 >= maxRows {
      SegmentsWhenStopped(text, maxRows, segs + [seg], PiecesFrom(text, i + 1, i + 1));
    }
  }

  /** Quote state is local to a line: a slice of the text that starts where
      the flag is off, and not right after a backslash, is scanned the same
      on its own as inside the whole text. */
  lemma {:induction false} QuotesInSlice(text: string, start: nat, end: nat, j: nat)
    requires start <= end <= |text| && j <= end - start
    requires !InQuotes(text, start) && (start == 0 || text[start - 1] != '\\')
    ensures InQuotes(text[start..end], j) == InQuotes(text, start + j)
  {
    if j > 0 {
      QuotesInSlice(text, start, end, j - 1);
      var slice := text[start..end];
      assert slice[j - 1] == text[start + j - 1];
      assert j - 1 > 0 ==> slice[j - 2] == text[start + j - 2];
      assert TogglesQuote(slice, j - 1) == TogglesQuote(text, start + j - 1);
    }
  }

  lemma EndsLineInSlice(text: string, start: nat, end: nat)
    requires start <= end <= |text|
    requires !InQuotes(text, start) && (start == 0 || text[start - 1] != '\\')
    ensures forall j :: 0 <= j < end - start ==> (EndsLine(text[start..end], j) <==> EndsLine(text, start + j))
  {
    forall j | 0 <= j < end - start
      ensures EndsLine(text[start..end], j) <==> EndsLine(text, start + j)
    {
      QuotesInSlice(text, start, end, j);
    }
  }

  lemma OpenTailFrom(text: string, start: nat)
    requires start <= |text|
    requires !InQuotes(text, start) && (start == 0 || text[start - 1] != '\\')
    requires forall q :: start <= q < |text| ==> !EndsLine(text, q)
    ensures OpenTail(text[start..])
  {
    EndsLineInSlice(text, start, |text|);
    assert text[start..|text|] == text[start..];
  }

  lemma CompleteLineFrom(text: string, start: nat, i: nat)
    requires start <= i < |text|
    requires !InQuotes(text, start) && (start == 0 || text[start - 1] != '\\')
    requires forall q :: start <= q < i ==> !EndsLine(text, q)
    requires EndsLine(text, i)
    ensures CompleteLine(text[start..i + 1])
  {
    EndsLineInSlice(text, start, i + 1);
  }

  lemma {:induction false} PiecesFromCut(text: string, start: nat, i: nat)
    requires start <= i <= |text|
    requires !InQuotes(text, start) && (start == 0 || text[start - 1] != '\\')
    requires forall q :: start <= q < i ==> !EndsLine(text, q)
    ensures var ps := PiecesFrom(text, start, i);
      && Concat(ps) == text[start..]
      && (forall m :: 0 <= m < |ps| - 1 ==> CompleteLine(ps[m]))
      && OpenTail(ps[|ps| - 1])
    decreases |text| - i
  {
    var ps := PiecesFrom(text, start, i);
    if i == |text| {
      OpenTailFrom(text, start);
      assert ps == [text[start..]];
    } else if EndsLine(text, i) {
      var rest := PiecesFrom(text, i + 1, i + 1);
      assert ps == [text[start..i + 1]] + rest;
      assert !InQuotes(text, i + 1);
      PiecesFromCut(text, i + 1, i + 1);
      CompleteLineFrom(text, start, i);
      assert text[start..] == text[start..i + 1] + text[i + 1..];
      forall m | 0 <= m < |ps| - 1 ensures CompleteLine(ps[m]) {
        if m > 0 { assert ps[m] == rest[m - 1]; }
      }
      assert ps[|ps| - 1] == rest[|rest| - 1];
    } else {
      PiecesFromCut(text, start, i + 1);
    }
  }

  /** The pieces are a cut of the whole text into complete lines followed by
      an open rest: a newline inside a piece is read inside quotes, and the
      newline that closes a piece is read outside them. */
  lemma PiecesCut(text: string)
    ensures Concat(Pieces(text)) == text
    ensures forall m :: 0 <= m < |Pieces(text)| - 1 ==> CompleteLine(Pieces(text)[m])
    ensures OpenTail(Pieces(text)[|Pieces(text)| - 1])
  {
    PiecesFromCut(text, 0, 0);
  }

  /** What is pushed is a prefix of the pieces, and no pushed segment is
      empty: each is a complete line, except that the last may be the open
      rest of the text. */
  lemma SegmentsArePieces(text: string, maxRows: int)
    ensures |Segments(text, maxRows)| <= |Pieces(text)|
    ensures Segments(text, maxRows) == Pieces(text)[..|Segments(text, maxRows)|]
    ensures forall m :: 0 <= m < |Segments(text, maxRows)| ==>
      Segments(text, maxRows)[m] != [] &&
      (CompleteLine(Segments(text, maxRows)[m]) ||
       (m == |Segments(text, maxRows)| - 1 && OpenTail(Segments(text, maxRows)[m])))
  {
    PiecesCut(text);
    var ps, segs := Pieces(text), Segments(text, maxRows);
    var k := |ps| - 1;
    if k < Cap(maxRows) && ps[k] != [] && k < maxRows {
      assert segs == ps[..k + 1];
    }
  }

  /** The segments, joined, are a prefix of the text; when the limit of
      `maxRows` lines is never reached, they are the whole text. */
  lemma SegmentsCoverText(text: string, maxRows: int)
    ensures var joined := Concat(Segments(text, maxRows));
      |joined| <= |text| && joined == text[..|joined|]
    ensures 1 <= maxRows && |Pieces(text)| <= maxRows ==> Concat(Segments(text, maxRows)) == text
  {
    PiecesCut(text);
    SegmentsArePieces(text, maxRows);
    var ps, segs := Pieces(text), Segments(text, maxRows);
    ConcatPrefix(ps, |segs|);
    if 1 <= maxRows && |ps| <= maxRows {
      var k := |ps| - 1;
      if ps[k] == [] {
        assert ps[k..] == [[]];
        assert Concat(ps[k..]) == [];
        ConcatPrefix(ps, k);
      } else {
        assert segs == ps;
      }
    }
  }

  /** At most `maxRows` lines are kept (one, when `maxRows` is below one). */
  lemma LinesBound(text: string, maxRows: int)
    ensures |Lines(text, maxRows)| <= Cap(maxRows)
    ensures 1 <= maxRows ==> |Lines(text, maxRows)| <= maxRows
  {
  }

  /** No line is kept exactly when the text is empty, or when `maxRows` is
      below one and the text has no line-ending newline. */
  lemma NoLines(text: string, maxRows: int)
    ensures Lines(text, maxRows) == [] <==> text == [] || (maxRows < 1 && |Pieces(text)| == 1)
  {
    PiecesCut(text);
    var ps := Pieces(text);
    if |ps| == 1 {
      assert Concat(ps) == ps[0] + Concat([]);
    } else {
      assert ps[0] != [];
      assert text == ps[0] + Concat(ps[1..]);
    }
  }
}
