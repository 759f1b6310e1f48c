/** Properties of the whole formatter: the fold over the transformer list,
    the tokenizer round trip and the shape of the output. */
module FormatProofs {
  import opened Text
  import opened Table
  import opened Stages
  import opened Formatter

  /** Folding a concatenated list is folding the first part, then the
      second. */
  lemma {:induction false} RunStagesAppend(a: seq<Stage>, b: seq<Stage>, t: Grid)
    ensures RunStages(a + b, t) == RunStages(b, RunStages(a, t))
    decreases |a|
  {
    if |a| > 0 {
      assert (a + b)[1..] == a[1..] + b;
      RunStagesAppend(a[1..], b, Apply(a[0], t));
    } else {
      assert a + b == b;
    }
  }

  /** The three stages that always run. */
  function Normalize(t: Grid): Grid {
    AddMissingCells(TrimEmptyLines(TrimCellsContent(t)))
  }

  /** The grid after the optional width and padding stages. */
  function Layout(c: Config, t: Grid): Grid {
    var base := Normalize(t);
    var widened := if c.consistentCellsWidth then CellsWidth(base) else base;
    if c.addPadding then AddPadding(widened) else widened
  }

  lemma RunOptional(s: Stage, on: bool, t: Grid)
    ensures RunStages(Optional(s, on), t) == if on then Apply(s, t) else t
  {
  }

  /** The fold over the transformer list is the composition of the selected
      stages in the fixed order, with header removal last. */
  lemma PipelineComposes(c: Config, t: Grid)
    ensures RunStages(Pipeline(c), t)
            == (if c.removeHeader then RemoveHeader(Layout(c, t)) else Layout(c, t))
  {
    var fixed := [TrimCellsContentStage, TrimEmptyLinesStage, AddMissingCellsStage];
    var w := Optional(CellsWidthStage, c.consistentCellsWidth);
    var p := Optional(AddPaddingStage, c.addPadding);
    var h := Optional(RemoveHeaderStage, c.removeHeader);
    assert Pipeline(c) == fixed + w + p + h;
    RunStagesAppend(fixed + w + p, h, t);
    RunStagesAppend(fixed + w, p, t);
    RunStagesAppend(fixed, w, t);
    assert RunStages(fixed, t) == Normalize(t);
    var base := Normalize(t);
    RunOptional(CellsWidthStage, c.consistentCellsWidth, base);
    var widened := if c.consistentCellsWidth then CellsWidth(base) else base;
    RunOptional(AddPaddingStage, c.addPadding, widened);
    var padded := if c.addPadding then AddPadding(widened) else widened;
    RunOptional(RemoveHeaderStage, c.removeHeader, padded);
  }

  /** Rendering a tokenized line gives back the line with exactly one pipe
      at each end: a line that already has them comes back unchanged, with
      every escaped pipe where it was. */
  lemma TokenizeLineRoundTrip(line: string)
    ensures RenderRow(TokenizeLine(line)) == "|" + StripOuterPipes(line) + "|"
    ensures |line| >= 2 && line[0] == '|' && line[|line| - 1] == '|' ==> RenderRow(TokenizeLine(line)) == line
  {
    if |line| >= 2 && line[0] == '|' && line[|line| - 1] == '|' {
      assert line == "|" + line[1..|line| - 1] + "|";
    }
  }

  /** A row renders to a line that tokenizes back to the same row exactly
      when its cells are the pieces the tokenizer would cut: at least one
      cell, no cell holding a pipe that no backslash precedes, and no cell
      but the last ending in a backslash. */
  lemma RenderRowRoundTrip(row: Row)
    ensures TokenizeLine(RenderRow(row)) == row <==> IsSplitting(row, Join(row, '|'), '|', true)
  {
    var line := RenderRow(row);
    assert StripOuterPipes(line) == Join(row, '|');
    SplitJoinRoundTrip(Join(row, '|'), row, '|', true);
  }
}
