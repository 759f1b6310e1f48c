/** The shape of what `format` returns: one output line per table row, each
    between pipes, and as many rows as the input has lines less a removed
    header (src/MarkdownTableFormat.ts:133-160). */
module Output {
  import opened Text
  import opened Table
  import opened Stages
  import opened Formatter
  import opened FormatProofs

  /** No cell of the grid contains `c`. */
  predicate CellsFreeOf(t: Grid, c: char) {
    forall l, n :: 0 <= l < |t| && 0 <= n < |t[l]| ==> FreeOf(t[l][n], c)
  }

  /** Trimming only removes characters. */
  lemma TrimFreeOf(s: string, c: char)
    requires FreeOf(s, c)
    ensures FreeOf(Trim(s), c)
  {
    var i := LeadingWhitespace(s);
    var rest := s[i..];
    var r := rest[..|rest| - TrailingWhitespace(rest)];
    assert Trim(s) == r;
    forall k | 0 <= k < |r|
      ensures r[k] != c
    {
      assert r[k] == s[i + k];
    }
  }

  lemma TrimCellsContentFreeOf(t: Grid, c: char)
    requires CellsFreeOf(t, c)
    ensures CellsFreeOf(TrimCellsContent(t), c)
  {
    forall l, n | 0 <= l < |t| && 0 <= n < |t[l]|
      ensures FreeOf(Trim(t[l][n]), c)
    {
      TrimFreeOf(t[l][n], c);
    }
  }

  lemma TrimEmptyLinesFreeOf(t: Grid, c: char)
    requires CellsFreeOf(t, c)
    ensures CellsFreeOf(TrimEmptyLines(t), c)
  {
    var r := TrimEmptyLines(t);
    forall l | 0 <= l < |r|
      ensures forall n :: 0 <= n < |r[l]| ==> FreeOf(r[l][n], c)
    {
      assert r[l] in t;
    }
  }

  lemma AddMissingCellsFreeOf(t: Grid, c: char)
    requires CellsFreeOf(t, c)
    ensures CellsFreeOf(AddMissingCells(t), c)
  {
    var r := AddMissingCells(t);
    forall l, n | 0 <= l < |r| && 0 <= n < |r[l]|
      ensures FreeOf(r[l][n], c)
    {
      if n < |t[l]| {
        assert r[l][n] == r[l][..|t[l]|][n];
      }
    }
  }

  /** Widening only appends spaces or dashes. */
  lemma CellsWidthFreeOf(t: Grid, c: char)
    requires c != ' ' && c != '-'
    requires CellsFreeOf(t, c)
    ensures CellsFreeOf(CellsWidth(t), c)
  {
    var r := CellsWidth(t);
    forall l, n, k | 0 <= l < |r| && 0 <= n < |r[l]| && 0 <= k < |r[l][n]|
      ensures r[l][n][k] != c
    {
      if k < |t[l][n]| {
        assert r[l][n][k] == r[l][n][..|t[l][n]|][k];
      }
    }
  }

  /** Padding only adds spaces, and the separator becomes dashes. */
  lemma AddPaddingFreeOf(t: Grid, c: char)
    requires c != ' ' && c != '-'
    requires CellsFreeOf(t, c)
    ensures CellsFreeOf(AddPadding(t), c)
  {
    var r := AddPadding(t);
    forall l, n, k | 0 <= l < |r| && 0 <= n < |r[l]| && 0 <= k < |r[l][n]|
      ensures r[l][n][k] != c
    {
      if !CountsForWidth(t, l) {
        assert AllDashes(r[l][n]);
      } else if t[l][n] != "" {
        assert r[l][n] == [' '] + t[l][n] + [' '];
        if 0 < k < |r[l][n]| - 1 {
          assert r[l][n][k] == t[l][n][k - 1];
        }
      }
    }
  }

  lemma RemoveHeaderFreeOf(t: Grid, c: char)
    requires CellsFreeOf(t, c)
    ensures CellsFreeOf(RemoveHeader(t), c)
  {
    var r := RemoveHeader(t);
    forall l | 0 <= l < |r|
      ensures r[l] == t[|t| - |r| + l]
    {
    }
  }

  /** No stage brings in a line feed. */
  lemma ApplyFreeOfNewline(s: Stage, t: Grid)
    requires CellsFreeOf(t, '\n')
    ensures CellsFreeOf(Apply(s, t), '\n')
  {
    match s
    case TrimCellsContentStage => TrimCellsContentFreeOf(t, '\n');
    case TrimEmptyLinesStage => TrimEmptyLinesFreeOf(t, '\n');
    case AddMissingCellsStage => AddMissingCellsFreeOf(t, '\n');
    case CellsWidthStage => CellsWidthFreeOf(t, '\n');
    case AddPaddingStage => AddPaddingFreeOf(t, '\n');
    case RemoveHeaderStage => RemoveHeaderFreeOf(t, '\n');
  }

  lemma {:induction false} RunStagesFreeOfNewline(stages: seq<Stage>, t: Grid)
    requires CellsFreeOf(t, '\n')
    ensures CellsFreeOf(RunStages(stages, t), '\n')
    decreases |stages|
  {
    if |stages| > 0 {
      ApplyFreeOfNewline(stages[0], t);
      RunStagesFreeOfNewline(stages[1..], Apply(stages[0], t));
    }
  }

  /** Stripping the outer pipes only removes characters. */
  lemma StripOuterPipesFreeOf(line: string, c: char)
    requires FreeOf(line, c)
    ensures FreeOf(StripOuterPipes(line), c)
  {
    var r := StripOuterPipes(line);
    var start := if |line| > 0 && line[0] == '|' then 1 else 0;
    assert r == line[start..start + |r|];
    forall k | 0 <= k < |r|
      ensures r[k] != c
    {
      assert r[k] == line[start + k];
    }
  }

  /** A line without `c` tokenizes into cells without `c`. */
  lemma TokenizeLineFreeOf(line: string, c: char)
    requires c != '|' && FreeOf(line, c)
    ensures forall n :: 0 <= n < |TokenizeLine(line)| ==> FreeOf(TokenizeLine(line)[n], c)
  {
    StripOuterPipesFreeOf(line, c);
    JoinFreeOf(TokenizeLine(line), '|', c);
  }

  /** The cells of one tokenized input line hold no line feed. */
  lemma TokenizeRowFreeOfNewline(input: string, l: nat)
    requires l < |Tokenize(input)|
    ensures forall n :: 0 <= n < |Tokenize(input)[l]| ==> FreeOf(Tokenize(input)[l][n], '\n')
  {
    var lines := Lines(input);
    var line := lines[l];
    NoDelimiterIsFreeOf(line, '\n');
    TokenizeLineFreeOf(line, '\n');
    assert Tokenize(input)[l] == TokenizeLine(line);
  }

  /** The tokenizer's cells hold no line feed: the input was cut at every
      one of them. */
  lemma TokenizeFreeOfNewline(input: string)
    ensures CellsFreeOf(Tokenize(input), '\n')
  {
    forall l | 0 <= l < |Tokenize(input)|
      ensures forall n :: 0 <= n < |Tokenize(input)[l]| ==> FreeOf(Tokenize(input)[l][n], '\n')
    {
      TokenizeRowFreeOfNewline(input, l);
    }
  }

  /** The table `format` serialises has no line feed in any cell. */
  lemma TransformFreeOfNewline(c: Config, input: string)
    ensures CellsFreeOf(Transform(c, input), '\n')
  {
    TokenizeFreeOfNewline(input);
    RunStagesFreeOfNewline(Pipeline(c), Tokenize(input));
  }

  /** The tokenizer never yields a row without cells, so the stage that
      drops such rows leaves its input alone. */
  lemma TrimEmptyLinesNeverFires(input: string)
    ensures TrimEmptyLines(TrimCellsContent(Tokenize(input))) == TrimCellsContent(Tokenize(input))
  {
    var t := TrimCellsContent(Tokenize(input));
    assert forall l :: 0 <= l < |t| ==> |t[l]| == |Tokenize(input)[l]| >= 1;
    TrimEmptyLinesKeepsFullRows(t);
  }

  /** The stages that always run keep one row per tokenized line. */
  lemma NormalizeRowCount(input: string)
    ensures |Normalize(Tokenize(input))| == |Tokenize(input)|
  {
    TrimEmptyLinesNeverFires(input);
  }

  /** Widening and padding keep the row count. */
  lemma LayoutRowCount(c: Config, t: Grid)
    ensures |Layout(c, t)| == |Normalize(t)|
  {
  }

  /** Header removal drops two rows exactly when there is a header. */
  lemma RemoveHeaderRowCount(t: Grid)
    ensures |RemoveHeader(t)| == |t| - (if HasHeader(t) then 2 else 0)
  {
    var r := RemoveHeader(t);
    assert |t[..|t| - |r|]| == |t| - |r|;
  }

  /** Rows out of `format`: one per input line, less the header and its
      separator when header removal is on and the laid-out table has them. */
  lemma TransformRowCount(c: Config, input: string)
    ensures var removed := c.removeHeader && HasHeader(Layout(c, Tokenize(input)));
            |Transform(c, input)| == Count(input, '\n') + 1 - (if removed then 2 else 0)
  {
    var t := Tokenize(input);
    PipelineComposes(c, t);
    NormalizeRowCount(input);
    LayoutRowCount(c, t);
    RemoveHeaderRowCount(Layout(c, t));
  }

  /** Every row of `t` has `m` cells. */
  predicate RowsOfLength(t: Grid, m: nat) {
    forall l :: 0 <= l < |t| ==> |t[l]| == m
  }

  /** Widening changes cell contents, never the number of cells. */
  lemma CellsWidthKeepsRowLength(t: Grid, m: nat)
    requires RowsOfLength(t, m)
    ensures RowsOfLength(CellsWidth(t), m)
  {
  }

  /** Padding changes cell contents, never the number of cells. */
  lemma AddPaddingKeepsRowLength(t: Grid, m: nat)
    requires RowsOfLength(t, m)
    ensures RowsOfLength(AddPadding(t), m)
  {
  }

  /** Every laid-out row has as many cells as the longest normalized row:
      widening and padding keep the rectangle that filling missing cells
      makes. */
  lemma LayoutRowLength(c: Config, t: Grid)
    ensures RowsOfLength(Layout(c, t), MaxRowLength(TrimEmptyLines(TrimCellsContent(t))))
  {
    var base := Normalize(t);
    var m := MaxRowLength(TrimEmptyLines(TrimCellsContent(t)));
    assert RowsOfLength(base, m);
    var widened := if c.consistentCellsWidth then CellsWidth(base) else base;
    assert RowsOfLength(widened, m) by {
      if c.consistentCellsWidth {
        CellsWidthKeepsRowLength(base, m);
      }
    }
    if c.addPadding {
      AddPaddingKeepsRowLength(widened, m);
    }
  }

  /** Whichever stages run, every row of the result has the same number of
      cells. */
  lemma PipelineRectangular(c: Config, t: Grid)
    ensures IsRectangular(RunStages(Pipeline(c), t))
  {
    var laid := Layout(c, t);
    var m := MaxRowLength(TrimEmptyLines(TrimCellsContent(t)));
    assert RowsOfLength(laid, m) by {
      LayoutRowLength(c, t);
    }
    assert RowsOfLength(RunStages(Pipeline(c), t), m) by {
      PipelineComposes(c, t);
      if c.removeHeader {
        RemoveHeaderKeepsRowLength(laid, m);
      }
    }
  }

  /** Header removal drops whole rows, so the rows left keep their length. */
  lemma RemoveHeaderKeepsRowLength(t: Grid, m: nat)
    requires RowsOfLength(t, m)
    ensures RowsOfLength(RemoveHeader(t), m)
  {
  }

  /** Every row of the table `format` renders has the same number of
      cells. */
  lemma TransformRectangular(c: Config, input: string)
    ensures IsRectangular(Transform(c, input))
  {
    PipelineRectangular(c, Tokenize(input));
  }

  /** A rendered row is free of a character other than the pipe exactly
      when its cells are. */
  lemma RenderRowFreeOf(row: Row, c: char)
    requires c != '|'
    ensures FreeOf(RenderRow(row), c) <==> forall n :: 0 <= n < |row| ==> FreeOf(row[n], c)
  {
    JoinFreeOf(row, '|', c);
    var line := RenderRow(row);
    var inner := Join(row, '|');
    assert forall k :: 0 <= k < |inner| ==> line[k + 1] == inner[k];
  }

  /** `format`'s output, split at its line feeds, is exactly the rendered
      rows. A table left without rows (a lone header and separator
      removed) gives the empty string. */
  lemma FormatLines(opts: FormatOptions, input: string)
    ensures var t := Transform(Configure(opts), input);
            && (|t| >= 1 ==> Lines(Format(opts, input)) == RenderRows(t))
            && (|t| == 0 ==> Format(opts, input) == "")
  {
    var t := Transform(Configure(opts), input);
    var lines := RenderRows(t);
    if |t| >= 1 {
      TransformFreeOfNewline(Configure(opts), input);
      forall l | 0 <= l < |lines|
        ensures NoDelimiter(lines[l], '\n', false)
      {
        RenderRowFreeOf(t[l], '\n');
        NoDelimiterIsFreeOf(lines[l], '\n');
      }
      SplitJoinRoundTrip(Serialize(t), lines, '\n', false);
    }
  }

  /** There are as many output lines as the input has lines, less two for a
      removed header; only a table reduced to nothing gives the empty
      string. */
  lemma FormatLineCount(opts: FormatOptions, input: string)
    ensures var c := Configure(opts);
            var removed := c.removeHeader && HasHeader(Layout(c, Tokenize(input)));
            var expected := Count(input, '\n') + 1 - (if removed then 2 else 0);
            && (expected >= 1 ==> |Lines(Format(opts, input))| == expected)
            && (expected >= 1 ==> Format(opts, input) != "")
            && (expected == 0 ==> Format(opts, input) == "")
  {
    var c := Configure(opts);
    TransformRowCount(c, input);
    FormatLines(opts, input);
    var t := Transform(c, input);
    if |t| >= 1 {
      var lines := RenderRows(t);
      assert |lines[|lines| - 1]| >= 2;
      JoinEnd(lines, '\n');
    }
  }

  /** Every line of a non-empty output starts and ends with a pipe. */
  lemma FormatLinesBracketed(opts: FormatOptions, input: string)
    ensures var out := Format(opts, input);
            out == "" || forall k :: 0 <= k < |Lines(out)| ==>
              |Lines(out)[k]| >= 2 && Lines(out)[k][0] == '|' && Lines(out)[k][|Lines(out)[k]| - 1] == '|'
  {
    var t := Transform(Configure(opts), input);
    FormatLines(opts, input);
  }
}
