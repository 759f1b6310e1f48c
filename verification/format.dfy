/** `MarkdownTableFormat`: the options merged with their defaults, the
    tokenizer, the fixed chain of transformers and the serialiser
    (src/MarkdownTableFormat.ts:111-161). */
module Formatter {
  import opened Text
  import opened Table
  import opened Stages

  /** One key of the options object handed to the constructor: left out,
      present but `undefined`, or a boolean. */
  datatype Setting = Absent | Undefined | Given(value: bool)

  /** `MarkdownTableFormatOptions`, every key optional. */
  datatype FormatOptions = FormatOptions(consistentCellsWidth: Setting, addPadding: Setting, removeHeader: Setting)

  /** The switches `format` reads once the options are merged. */
  datatype Config = Config(consistentCellsWidth: bool, addPadding: bool, removeHeader: bool)

  /** `defaultMarkdownTableFormatOptions`. */
  const Defaults: Config := Config(true, true, false)

  /** `new MarkdownTableFormat()` or `new MarkdownTableFormat({})`. */
  const NoOptions: FormatOptions := FormatOptions(Absent, Absent, Absent)

  /** One key of `{...defaults, ...opts}`, read as a condition: a key the
      caller left out keeps the default, and a key present with `undefined`
      overrides it with a falsy value. */
  function Override(default: bool, setting: Setting): bool {
    match setting
    case Absent => default
    case Undefined => false
    case Given(b) => b
  }

  /** The constructor's merge of the caller's options over the defaults. */
  function Configure(opts: FormatOptions): (c: Config)
    ensures c.consistentCellsWidth <==> opts.consistentCellsWidth in {Absent, Given(true)}
    ensures c.addPadding <==> opts.addPadding in {Absent, Given(true)}
    ensures c.removeHeader <==> opts.removeHeader == Given(true)
  {
    Config(
      Override(Defaults.consistentCellsWidth, opts.consistentCellsWidth),
      Override(Defaults.addPadding, opts.addPadding),
      Override(Defaults.removeHeader, opts.removeHeader))
  }

  /** The transformer classes. */
  datatype Stage =
    | TrimCellsContentStage
    | TrimEmptyLinesStage
    | AddMissingCellsStage
    | CellsWidthStage
    | AddPaddingStage
    | RemoveHeaderStage

  /** Position of a stage in the fixed order of `format`. */
  function Rank(s: Stage): nat {
    match s
    case TrimCellsContentStage => 0
    case TrimEmptyLinesStage => 1
    case AddMissingCellsStage => 2
    case CellsWidthStage => 3
    case AddPaddingStage => 4
    case RemoveHeaderStage => 5
  }

  /** `transformer.transform(table)`. */
  function Apply(s: Stage, t: Grid): Grid {
    match s
    case TrimCellsContentStage => TrimCellsContent(t)
    case TrimEmptyLinesStage => TrimEmptyLines(t)
    case AddMissingCellsStage => AddMissingCells(t)
    case CellsWidthStage => CellsWidth(t)
    case AddPaddingStage => AddPadding(t)
    case RemoveHeaderStage => RemoveHeader(t)
  }

  /** Every stage of the list comes strictly after the one before it. */
  predicate StrictlyRanked(stages: seq<Stage>) {
    forall i, j :: 0 <= i < j < |stages| ==> Rank(stages[i]) < Rank(stages[j])
  }

  /** Every stage of the list has a rank in `lo..hi`. */
  predicate RankedWithin(stages: seq<Stage>, lo: nat, hi: nat) {
    forall i :: 0 <= i < |stages| ==> lo <= Rank(stages[i]) < hi
  }

  /** Two ranked lists, the first wholly below `bound` and the second wholly
      at or above it, stay ranked when concatenated. */
  lemma RankedAppend(a: seq<Stage>, b: seq<Stage>, bound: nat, top: nat)
    requires StrictlyRanked(a) && RankedWithin(a, 0, bound)
    requires StrictlyRanked(b) && RankedWithin(b, bound, top) && bound <= top
    ensures StrictlyRanked(a + b) && RankedWithin(a + b, 0, top)
  {
    var ab := a + b;
    forall i, j | 0 <= i < j < |ab|
      ensures Rank(ab[i]) < Rank(ab[j])
    {
      if j < |a| {
        assert ab[i] == a[i] && ab[j] == a[j];
      } else if i < |a| {
        assert ab[i] == a[i] && ab[j] == b[j - |a|];
      } else {
        assert ab[i] == b[i - |a|] && ab[j] == b[j - |a|];
      }
    }
    forall i | 0 <= i < |ab|
      ensures Rank(ab[i]) < top
    {
      if i < |a| {
        assert ab[i] == a[i];
      } else {
        assert ab[i] == b[i - |a|];
      }
    }
  }

  /** A stage pushed only when its switch is on. */
  function Optional(s: Stage, on: bool): seq<Stage> {
    if on then [s] else []
  }

  /** The list of transformers `format` builds, in the order it pushes
      them. */
  function Pipeline(c: Config): seq<Stage> {
    [TrimCellsContentStage, TrimEmptyLinesStage, AddMissingCellsStage]
      + Optional(CellsWidthStage, c.consistentCellsWidth)
      + Optional(AddPaddingStage, c.addPadding)
      + Optional(RemoveHeaderStage, c.removeHeader)
  }

  /** The stages are in the fixed order whatever the switches. */
  lemma PipelineRanked(c: Config)
    ensures StrictlyRanked(Pipeline(c))
  {
    var fixed := [TrimCellsContentStage, TrimEmptyLinesStage, AddMissingCellsStage];
    var w := Optional(CellsWidthStage, c.consistentCellsWidth);
    var p := Optional(AddPaddingStage, c.addPadding);
    var h := Optional(RemoveHeaderStage, c.removeHeader);
    assert StrictlyRanked(fixed + w) && RankedWithin(fixed + w, 0, 4) by {
      assert StrictlyRanked(fixed) && RankedWithin(fixed, 0, 3);
      assert StrictlyRanked(w) && RankedWithin(w, 3, 4);
      RankedAppend(fixed, w, 3, 4);
    }
    assert StrictlyRanked(fixed + w + p) && RankedWithin(fixed + w + p, 0, 5) by {
      assert StrictlyRanked(p) && RankedWithin(p, 4, 5);
      RankedAppend(fixed + w, p, 4, 5);
    }
    assert StrictlyRanked(h) && RankedWithin(h, 5, 6);
    RankedAppend(fixed + w + p, h, 5, 6);
  }

  /** The three unconditional stages come first, each optional stage is
      present exactly when its switch is on, and the stages are in the fixed
      order. */
  lemma PipelineShape(c: Config)
    ensures var stages := Pipeline(c);
            && |stages| >= 3 && stages[..3] == [TrimCellsContentStage, TrimEmptyLinesStage, AddMissingCellsStage]
            && (CellsWidthStage in stages <==> c.consistentCellsWidth)
            && (AddPaddingStage in stages <==> c.addPadding)
            && (RemoveHeaderStage in stages <==> c.removeHeader)
            && StrictlyRanked(stages)
  {
    PipelineRanked(c);
    var fixed := [TrimCellsContentStage, TrimEmptyLinesStage, AddMissingCellsStage];
    var w := Optional(CellsWidthStage, c.consistentCellsWidth);
    var p := Optional(AddPaddingStage, c.addPadding);
    var h := Optional(RemoveHeaderStage, c.removeHeader);
    var stages := fixed + w + p + h;
    assert stages[..3] == fixed;
    assert CellsWidthStage in stages <==> CellsWidthStage in w;
    assert AddPaddingStage in stages <==> AddPaddingStage in p;
    assert RemoveHeaderStage in stages <==> RemoveHeaderStage in h;
  }

  /** `transformers.reduce((table, transformer) => transformer.transform(table), table)`. */
  function RunStages(stages: seq<Stage>, t: Grid): Grid
    decreases |stages|
  {
    if |stages| == 0 then t else RunStages(stages[1..], Apply(stages[0], t))
  }

  /** `line.replace(/(^\||\|$)/g, '')`: one pipe is removed from the start
      and one from the end. A lone `|` is removed once, and the last pipe
      goes even when a backslash precedes it. */
  function StripOuterPipes(line: string): (r: string)
    ensures |line| >= 2 && line[0] == '|' && line[|line| - 1] == '|' ==> r == line[1..|line| - 1]
    ensures |line| >= 1 && line[0] == '|' && !(|line| >= 2 && line[|line| - 1] == '|') ==> r == line[1..]
    ensures (|line| == 0 || line[0] != '|') && |line| >= 1 && line[|line| - 1] == '|' ==> r == line[..|line| - 1]
    ensures (|line| == 0 || line[0] != '|') && (|line| == 0 || line[|line| - 1] != '|') ==> r == line
  {
    var rest := if |line| > 0 && line[0] == '|' then line[1..] else line;
    if |rest| > 0 && rest[|rest| - 1] == '|' then rest[..|rest| - 1] else rest
  }

  /** One line of input as a row: `line.split(/(?<!\\)\|/g)` after the
      outer pipes are stripped. The cells are the unique splitting of the
      stripped line at its pipes that no backslash precedes. */
  function TokenizeLine(line: string): (row: Row)
    ensures |row| >= 1
    ensures IsSplitting(row, StripOuterPipes(line), '|', true)
  {
    SplitOnIsSplitting(StripOuterPipes(line), '|', true);
    SplitOn(StripOuterPipes(line), '|', true)
  }

  /** The input split on line feeds. */
  function Lines(input: string): (lines: seq<string>)
    ensures |lines| == Count(input, '\n') + 1
    ensures IsSplitting(lines, input, '\n', false)
  {
    SplitOnCount(input, '\n');
    SplitOnIsSplitting(input, '\n', false);
    SplitOn(input, '\n', false)
  }

  /** The table `format` starts from: one row per input line. */
  function Tokenize(input: string): (t: Grid)
    ensures |t| == Count(input, '\n') + 1
    ensures forall l :: 0 <= l < |t| ==> |t[l]| >= 1 && t[l] == TokenizeLine(Lines(input)[l])
  {
    var lines := Lines(input);
    seq(|lines|, l requires 0 <= l < |lines| => TokenizeLine(lines[l]))
  }

  /** `'|' + line.join('|') + '|'`. */
  function RenderRow(row: Row): (line: string)
    ensures |line| >= 2 && line[0] == '|' && line[|line| - 1] == '|'
  {
    "|" + Join(row, '|') + "|"
  }

  /** Each row rendered on a line of its own. */
  function RenderRows(t: Grid): seq<string> {
    seq(|t|, l requires 0 <= l < |t| => RenderRow(t[l]))
  }

  /** The rows rendered and joined with line feeds. */
  function Serialize(t: Grid): string {
    Join(RenderRows(t), '\n')
  }

  /** The table after every stage `c` selects. */
  function Transform(c: Config, input: string): Grid {
    RunStages(Pipeline(c), Tokenize(input))
  }

  /** `new MarkdownTableFormat(opts).format(input)`. */
  function Format(opts: FormatOptions, input: string): string {
    Serialize(Transform(Configure(opts), input))
  }
}
