/** Worked examples of `format`: the empty input, an input whose output
    does not format to itself (src/MarkdownTableFormat.ts:133-160), and the
    escaped-pipes table of src/MarkdownTableFormat.spec.ts:10-28. */
module Examples {
  import opened Text
  import opened Table
  import opened Stages
  import opened Formatter
  import opened FormatProofs
  import opened Output

  /** Every switch given as `false`. */
  const AllOff: FormatOptions := FormatOptions(Given(false), Given(false), Given(false))

  /** With every switch off only the three unconditional stages run, and the
      row-dropping one has nothing to drop. */
  lemma TransformAllOff(input: string)
    ensures Transform(Configure(AllOff), input) == AddMissingCells(TrimCellsContent(Tokenize(input)))
  {
    PipelineComposes(Configure(AllOff), Tokenize(input));
    TrimEmptyLinesNeverFires(input);
  }

  /** With the default options the header stays and the width and padding
      stages run. */
  lemma TransformDefaults(input: string)
    ensures Transform(Configure(NoOptions), input)
            == AddPadding(CellsWidth(AddMissingCells(TrimCellsContent(Tokenize(input)))))
  {
    PipelineComposes(Configure(NoOptions), Tokenize(input));
    TrimEmptyLinesNeverFires(input);
  }

  /** The line starts and ends with a pipe. */
  predicate IsBracketed(line: string) {
    |line| >= 2 && line[0] == '|' && line[|line| - 1] == '|'
  }

  /** With every switch off, a grid of trimmed cells, as many on every row,
      goes through the stages unchanged. */
  lemma TransformAllOffKeeps(input: string)
    requires forall l, n :: 0 <= l < |Tokenize(input)| && 0 <= n < |Tokenize(input)[l]| ==> IsTrimmed(Tokenize(input)[l][n])
    requires IsRectangular(Tokenize(input))
    ensures Transform(Configure(AllOff), input) == Tokenize(input)
  {
    var t := Tokenize(input);
    TransformAllOff(input);
    assert TrimCellsContent(t) == t by {
      TrimCellsContentKeepsTrimmed(t);
    }
    AddMissingCellsKeepsRectangle(t);
  }

  /** Rows tokenized from lines between pipes render back to those lines. */
  lemma RenderTokenizedRows(lines: seq<string>, t: Grid)
    requires |t| == |lines|
    requires forall l :: 0 <= l < |lines| ==> IsBracketed(lines[l]) && t[l] == TokenizeLine(lines[l])
    ensures RenderRows(t) == lines
  {
    forall l | 0 <= l < |t|
      ensures RenderRows(t)[l] == lines[l]
    {
      TokenizeLineRoundTrip(lines[l]);
    }
  }

  /** With every switch off, a table already written the way `format`
      writes it (every line between pipes, trimmed cells, as many cells on
      every line) comes back unchanged, escaped pipes included. */
  lemma FormattedTableIsKept(input: string)
    requires forall l :: 0 <= l < |Lines(input)| ==> IsBracketed(Lines(input)[l])
    requires forall l, n :: 0 <= l < |Tokenize(input)| && 0 <= n < |Tokenize(input)[l]| ==> IsTrimmed(Tokenize(input)[l][n])
    requires IsRectangular(Tokenize(input))
    ensures Format(AllOff, input) == input
  {
    var lines := Lines(input);
    assert Transform(Configure(AllOff), input) == Tokenize(input) by {
      TransformAllOffKeeps(input);
    }
    assert RenderRows(Tokenize(input)) == lines by {
      RenderTokenizedRows(lines, Tokenize(input));
    }
    assert Join(lines, '\n') == input by {
      SplitJoinRoundTrip(input, lines, '\n', false);
    }
  }

  lemma SerializeOne(row: Row)
    ensures Serialize([row]) == RenderRow(row)
  {
    assert RenderRows([row]) == [RenderRow(row)];
  }

  lemma SerializeTwo(a: Row, b: Row)
    ensures Serialize([a, b]) == RenderRow(a) + "\n" + RenderRow(b)
  {
    var rows := RenderRows([a, b]);
    assert rows == [RenderRow(a), RenderRow(b)];
    assert rows[..1] == [RenderRow(a)];
    assert Join(rows[..1], '\n') == RenderRow(a);
  }

  /** The tokenizer's rows are fixed by the splitting of the input into
      lines and of each line into cells. */
  lemma TokenizeIs(input: string, lines: seq<string>, rows: Grid)
    requires IsSplitting(lines, input, '\n', false)
    requires |rows| == |lines|
    requires forall l :: 0 <= l < |lines| ==> IsSplitting(rows[l], StripOuterPipes(lines[l]), '|', true)
    ensures Tokenize(input) == rows
  {
    SplittingIsUnique(lines, input, '\n', false);
    forall l | 0 <= l < |lines|
      ensures TokenizeLine(lines[l]) == rows[l]
    {
      SplittingIsUnique(rows[l], StripOuterPipes(lines[l]), '|', true);
    }
  }

  lemma RenderEmptyCell()
    ensures RenderRow([""]) == "||"
  {
  }

  lemma RenderSpaceCell()
    ensures RenderRow([" "]) == "| |"
  {
    assert Join([" "], '|') == " ";
  }

  /** The empty input is one line holding one empty cell. */
  lemma TokenizeEmpty()
    ensures Tokenize("") == [[""]]
  {
    assert Lines("") == [""];
    assert StripOuterPipes("") == "";
    assert TokenizeLine("") == [""];
  }

  lemma NormalizeEmptyCell()
    ensures AddMissingCells(TrimCellsContent([[""]])) == [[""]]
  {
    var t := TrimCellsContent([[""]]);
    assert Trim("") == "";
    assert t[0] == [""];
    assert t == [[""]];
    AddMissingCellsKeepsRectangle(t);
  }

  lemma CellsWidthEmptyCell()
    ensures CellsWidth([[""]]) == [[""]]
  {
    var r := CellsWidth([[""]]);
    assert r[0][0] == "";
    assert r[0] == [""];
  }

  lemma AddPaddingEmptyCell()
    ensures AddPadding([[""]]) == [[" "]]
  {
    var r := AddPadding([[""]]);
    assert CountsForWidth([[""]], 0);
    assert r[0][0] == " ";
    assert r[0] == [" "];
  }

  /** The empty input is not left empty: with every switch off it becomes
      one row of one empty cell. */
  lemma FormatEmptyAllOff()
    ensures Format(AllOff, "") == "||"
  {
    TransformAllOff("");
    TokenizeEmpty();
    NormalizeEmptyCell();
    SerializeOne([""]);
    RenderEmptyCell();
  }

  /** With the default options the empty cell is padded to one space. */
  lemma FormatEmptyDefaults()
    ensures Format(NoOptions, "") == "| |"
  {
    TransformDefaults("");
    TokenizeEmpty();
    NormalizeEmptyCell();
    CellsWidthEmptyCell();
    AddPaddingEmptyCell();
    SerializeOne([" "]);
    RenderSpaceCell();
  }

  /** A cell ending in a backslash, followed by a space before the next
      pipe. */
  const Escaping: string := "x\\ |y\na|b"

  /** What `format` makes of it with every switch off: trimming moves the
      backslash next to the pipe. */
  const EscapingOnce: string := "|x\\|y|\n|a|b|"

  /** What `format` makes of that: the pipe now counts as escaped, the first
      line is one cell, and an empty cell is added. */
  const EscapingTwice: string := "|x\\|y||\n|a|b|"

  lemma NoPipe(s: string)
    requires FreeOf(s, '|')
    ensures NoDelimiter(s, '|', true)
  {
    assert forall k :: 0 <= k < |s| ==> !IsDelimiter(s, k, '|', true);
  }

  lemma EscapingLines()
    ensures IsSplitting(["x\\ |y", "a|b"], Escaping, '\n', false)
  {
    NoDelimiterIsFreeOf("x\\ |y", '\n');
    NoDelimiterIsFreeOf("a|b", '\n');
    assert Join(["x\\ |y", "a|b"], '\n') == Join(["x\\ |y"], '\n') + "\n" + "a|b";
  }

  lemma EscapingCells()
    ensures IsSplitting(["x\\ ", "y"], StripOuterPipes("x\\ |y"), '|', true)
    ensures IsSplitting(["a", "b"], StripOuterPipes("a|b"), '|', true)
  {
    NoPipe("x\\ ");
    NoPipe("y");
    NoPipe("a");
    NoPipe("b");
    assert Join(["x\\ ", "y"], '|') == Join(["x\\ "], '|') + "|" + "y";
    assert Join(["a", "b"], '|') == Join(["a"], '|') + "|" + "b";
  }

  lemma TokenizeEscaping()
    ensures Tokenize(Escaping) == [["x\\ ", "y"], ["a", "b"]]
  {
    EscapingLines();
    EscapingCells();
    TokenizeIs(Escaping, ["x\\ |y", "a|b"], [["x\\ ", "y"], ["a", "b"]]);
  }

  lemma TrimBackslashSpace()
    ensures Trim("x\\ ") == "x\\"
  {
    assert LeadingWhitespace("x\\ ") == 0;
    assert TrailingWhitespace("x\\") == 0;
    assert TrailingWhitespace("x\\ ") == 1;
  }

  /** Trimming a two-by-two grid trims its four cells. */
  lemma TrimCellsContentTwoByTwo(a: string, b: string, c: string, d: string,
                                  a': string, b': string, c': string, d': string)
    requires Trim(a) == a' && Trim(b) == b' && Trim(c) == c' && Trim(d) == d'
    ensures TrimCellsContent([[a, b], [c, d]]) == [[a', b'], [c', d']]
  {
    var t := TrimCellsContent([[a, b], [c, d]]);
    assert t[0] == [a', b'];
    assert t[1] == [c', d'];
  }

  lemma TrimKeeps(s: string)
    requires IsTrimmed(s)
    ensures Trim(s) == s
  {
    TrimFixedPoint(s);
  }

  lemma TrimEscaping()
    ensures TrimCellsContent([["x\\ ", "y"], ["a", "b"]]) == [["x\\", "y"], ["a", "b"]]
  {
    TrimBackslashSpace();
    assert Trim("y") == "y" by { TrimKeeps("y"); }
    assert Trim("a") == "a" by { TrimKeeps("a"); }
    assert Trim("b") == "b" by { TrimKeeps("b"); }
    TrimCellsContentTwoByTwo("x\\ ", "y", "a", "b", "x\\", "y", "a", "b");
  }

  lemma NormalizeEscaping()
    ensures AddMissingCells(TrimCellsContent([["x\\ ", "y"], ["a", "b"]])) == [["x\\", "y"], ["a", "b"]]
  {
    TrimEscaping();
    AddMissingCellsKeepsRectangle([["x\\", "y"], ["a", "b"]]);
  }

  lemma RenderEscapingOnce()
    ensures Serialize([["x\\", "y"], ["a", "b"]]) == EscapingOnce
  {
    SerializeTwo(["x\\", "y"], ["a", "b"]);
    assert Join(["x\\", "y"], '|') == Join(["x\\"], '|') + "|" + "y";
    assert Join(["a", "b"], '|') == Join(["a"], '|') + "|" + "b";
  }

  lemma FormatEscaping()
    ensures Format(AllOff, Escaping) == EscapingOnce
  {
    TransformAllOff(Escaping);
    TokenizeEscaping();
    NormalizeEscaping();
    RenderEscapingOnce();
  }

  lemma EscapingOnceLines()
    ensures IsSplitting(["|x\\|y|", "|a|b|"], EscapingOnce, '\n', false)
  {
    NoDelimiterIsFreeOf("|x\\|y|", '\n');
    NoDelimiterIsFreeOf("|a|b|", '\n');
    assert Join(["|x\\|y|", "|a|b|"], '\n') == Join(["|x\\|y|"], '\n') + "\n" + "|a|b|";
  }

  lemma EscapingOnceCells()
    ensures IsSplitting(["x\\|y"], StripOuterPipes("|x\\|y|"), '|', true)
    ensures IsSplitting(["a", "b"], StripOuterPipes("|a|b|"), '|', true)
  {
    var s := "x\\|y";
    assert StripOuterPipes("|x\\|y|") == s;
    assert NoDelimiter(s, '|', true) by {
      assert forall k :: 0 <= k < |s| && k != 2 ==> s[k] != '|';
      assert !IsDelimiter(s, 2, '|', true);
    }
    assert StripOuterPipes("|a|b|") == "a|b";
    NoPipe("a");
    NoPipe("b");
    assert Join(["a", "b"], '|') == Join(["a"], '|') + "|" + "b";
  }

  lemma TokenizeEscapingOnce()
    ensures Tokenize(EscapingOnce) == [["x\\|y"], ["a", "b"]]
  {
    EscapingOnceLines();
    EscapingOnceCells();
    TokenizeIs(EscapingOnce, ["|x\\|y|", "|a|b|"], [["x\\|y"], ["a", "b"]]);
  }

  lemma TrimEscapingOnce()
    ensures TrimCellsContent([["x\\|y"], ["a", "b"]]) == [["x\\|y"], ["a", "b"]]
  {
    var t: Grid := [["x\\|y"], ["a", "b"]];
    assert IsTrimmed(t[0][0]) && IsTrimmed(t[1][0]) && IsTrimmed(t[1][1]);
    TrimCellsContentKeepsTrimmed(t);
  }

  /** The short first row gets one empty cell. */
  lemma AddMissingCellsEscapingOnce()
    ensures AddMissingCells([["x\\|y"], ["a", "b"]]) == [["x\\|y", ""], ["a", "b"]]
  {
    var t: Grid := [["x\\|y"], ["a", "b"]];
    var r := AddMissingCells(t);
    assert MaxRowLength(t) == 2 by {
      assert |t[0]| <= MaxRowLength(t) && |t[1]| <= MaxRowLength(t);
    }
    assert r[0] == ["x\\|y", ""] by {
      assert r[0][..1] == ["x\\|y"] && r[0][1] == "";
    }
    assert r[1] == ["a", "b"] by {
      assert r[1] == r[1][..2];
    }
  }

  lemma NormalizeEscapingOnce()
    ensures AddMissingCells(TrimCellsContent([["x\\|y"], ["a", "b"]])) == [["x\\|y", ""], ["a", "b"]]
  {
    TrimEscapingOnce();
    AddMissingCellsEscapingOnce();
  }

  lemma RenderEscapingTwice()
    ensures Serialize([["x\\|y", ""], ["a", "b"]]) == EscapingTwice
  {
    SerializeTwo(["x\\|y", ""], ["a", "b"]);
    assert Join(["x\\|y", ""], '|') == Join(["x\\|y"], '|') + "|" + "";
    assert Join(["a", "b"], '|') == Join(["a"], '|') + "|" + "b";
  }

  lemma FormatEscapingOnce()
    ensures Format(AllOff, EscapingOnce) == EscapingTwice
  {
    TransformAllOff(EscapingOnce);
    TokenizeEscapingOnce();
    NormalizeEscapingOnce();
    RenderEscapingTwice();
  }

  /** `format` is not idempotent: formatting its own output can change it. */
  lemma FormatNotIdempotent()
    ensures Format(AllOff, Format(AllOff, Escaping)) != Format(AllOff, Escaping)
  {
    FormatEscaping();
    FormatEscapingOnce();
    assert |EscapingTwice| != |EscapingOnce|;
  }

  /** The first case of the repository's test suite
      (src/MarkdownTableFormat.spec.ts:10-28): a formatted table whose cells
      hold escaped pipes, one of them at the very end of a cell. */
  const EscapedPipes: string := "|a1|b1|" + "\n" + "|a\\|2|b2|" + "\n" + "|a3|b\\|3\\||"

  /** Three lines free of line feeds, joined, split back into themselves. */
  lemma ThreeLines(x: string, y: string, z: string)
    requires FreeOf(x, '\n') && FreeOf(y, '\n') && FreeOf(z, '\n')
    ensures IsSplitting([x, y, z], x + "\n" + y + "\n" + z, '\n', false)
  {
    NoDelimiterIsFreeOf(x, '\n');
    NoDelimiterIsFreeOf(y, '\n');
    NoDelimiterIsFreeOf(z, '\n');
    assert Join([x, y], '\n') == x + "\n" + y by {
      assert Join([x, y], '\n') == Join([x], '\n') + "\n" + y;
    }
    assert Join([x, y, z], '\n') == Join([x, y], '\n') + "\n" + z by {
      JoinSnoc([x, y], z, '\n');
      assert [x, y] + [z] == [x, y, z];
    }
  }

  /** Printable ASCII holds no line feed. */
  lemma PrintableIsFreeOfLineFeed(s: string)
    requires forall k :: 0 <= k < |s| ==> ' ' <= s[k] <= '~'
    ensures FreeOf(s, '\n')
  {
  }

  lemma EscapedPipesLines()
    ensures IsSplitting(["|a1|b1|", "|a\\|2|b2|", "|a3|b\\|3\\||"], EscapedPipes, '\n', false)
  {
    var x, y, z := "|a1|b1|", "|a\\|2|b2|", "|a3|b\\|3\\||";
    PrintableIsFreeOfLineFeed(x);
    PrintableIsFreeOfLineFeed(y);
    PrintableIsFreeOfLineFeed(z);
    ThreeLines(x, y, z);
  }

  lemma EscapedPipesFirstCells()
    ensures IsSplitting(["a1", "b1"], StripOuterPipes("|a1|b1|"), '|', true)
  {
    assert StripOuterPipes("|a1|b1|") == "a1|b1";
    NoPipe("a1");
    NoPipe("b1");
    assert Join(["a1", "b1"], '|') == Join(["a1"], '|') + "|" + "b1";
  }

  /** The escaped pipe stays inside the first cell. */
  lemma EscapedPipesSecondCells()
    ensures IsSplitting(["a\\|2", "b2"], StripOuterPipes("|a\\|2|b2|"), '|', true)
  {
    var s := "a\\|2";
    assert StripOuterPipes("|a\\|2|b2|") == "a\\|2|b2";
    assert NoDelimiter(s, '|', true) by {
      assert forall k :: 0 <= k < |s| && k != 2 ==> s[k] != '|';
      assert !IsDelimiter(s, 2, '|', true);
    }
    NoPipe("b2");
    assert Join([s, "b2"], '|') == Join([s], '|') + "|" + "b2";
  }

  /** Both escaped pipes stay inside the last cell; the line's final pipe
      is the outer one and is stripped. */
  lemma EscapedPipesThirdCells()
    ensures IsSplitting(["a3", "b\\|3\\|"], StripOuterPipes("|a3|b\\|3\\||"), '|', true)
  {
    var s := "b\\|3\\|";
    assert StripOuterPipes("|a3|b\\|3\\||") == "a3|b\\|3\\|";
    assert NoDelimiter(s, '|', true) by {
      assert forall k :: 0 <= k < |s| && k != 2 && k != 5 ==> s[k] != '|';
      assert !IsDelimiter(s, 2, '|', true);
      assert !IsDelimiter(s, 5, '|', true);
    }
    NoPipe("a3");
    assert Join(["a3", s], '|') == Join(["a3"], '|') + "|" + s;
  }

  lemma TokenizeEscapedPipes()
    ensures Tokenize(EscapedPipes) == [["a1", "b1"], ["a\\|2", "b2"], ["a3", "b\\|3\\|"]]
  {
    EscapedPipesLines();
    EscapedPipesFirstCells();
    EscapedPipesSecondCells();
    EscapedPipesThirdCells();
    TokenizeIs(EscapedPipes, ["|a1|b1|", "|a\\|2|b2|", "|a3|b\\|3\\||"],
      [["a1", "b1"], ["a\\|2", "b2"], ["a3", "b\\|3\\|"]]);
  }

  /** A cell whose two ends are printable ASCII is trimmed. */
  lemma PrintableEndsTrimmed(s: string)
    requires |s| >= 1 && ' ' < s[0] <= '~' && ' ' < s[|s| - 1] <= '~'
    ensures IsTrimmed(s)
  {
  }

  lemma EscapedPipesTrimmed(t: Grid)
    requires t == [["a1", "b1"], ["a\\|2", "b2"], ["a3", "b\\|3\\|"]]
    ensures forall l, n :: 0 <= l < |t| && 0 <= n < |t[l]| ==> IsTrimmed(t[l][n])
  {
    forall l, n | 0 <= l < |t| && 0 <= n < |t[l]|
      ensures IsTrimmed(t[l][n])
    {
      PrintableEndsTrimmed(t[l][n]);
    }
  }

  lemma RectangularThreeRows(a: Row, b: Row, c: Row)
    requires |a| == |b| == |c|
    ensures IsRectangular([a, b, c])
  {
  }

  /** The test's table meets the conditions of `FormattedTableIsKept`, so
      with every switch off it comes back unchanged. */
  lemma KeptOnSpecTest()
    ensures Format(AllOff, EscapedPipes) == EscapedPipes
  {
    var lines := ["|a1|b1|", "|a\\|2|b2|", "|a3|b\\|3\\||"];
    var t: Grid := [["a1", "b1"], ["a\\|2", "b2"], ["a3", "b\\|3\\|"]];
    assert Lines(EscapedPipes) == lines by {
      EscapedPipesLines();
      SplittingIsUnique(lines, EscapedPipes, '\n', false);
    }
    assert forall l :: 0 <= l < |lines| ==> IsBracketed(lines[l]);
    assert Tokenize(EscapedPipes) == t by {
      TokenizeEscapedPipes();
    }
    EscapedPipesTrimmed(t);
    RectangularThreeRows(t[0], t[1], t[2]);
    assert [t[0], t[1], t[2]] == t;
    FormattedTableIsKept(EscapedPipes);
  }
}
