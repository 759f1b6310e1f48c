/** What the width stage does to the separator row, and the column
    alignment that widening followed by padding produces
    (src/MarkdownTableFormat.ts:1-3, 47-61, 79-97). */
module Header {
  import opened Text
  import opened Table
  import opened Stages

  /** The length of a separator word, piece by piece. */
  function SeparatorLength(lead: nat, leftColon: bool, dashes: nat, rightColon: bool, trail: nat): nat {
    lead + |OptionalColon(leftColon)| + dashes + |OptionalColon(rightColon)| + trail
  }

  /** The word ends in its trailing spaces, and just before them stands the
      right colon, or else the last dash. */
  lemma SeparatorCellEnd(lead: nat, leftColon: bool, dashes: nat, rightColon: bool, trail: nat)
    requires dashes >= 3
    ensures var w := SeparatorCellOf(lead, leftColon, dashes, rightColon, trail);
            && |w| == SeparatorLength(lead, leftColon, dashes, rightColon, trail)
            && (forall k :: |w| - trail <= k < |w| ==> w[k] == ' ')
            && w[|w| - trail - 1] == (if rightColon then ':' else '-')
  {
    var w := SeparatorCellOf(lead, leftColon, dashes, rightColon, trail);
    var body := SeparatorBodyOf(dashes, rightColon, trail);
    var prefix := Repeat(' ', lead) + OptionalColon(leftColon);
    assert w == prefix + body;
    assert body == Repeat('-', dashes) + OptionalColon(rightColon) + Repeat(' ', trail);
    assert forall k :: |body| - trail <= k < |body| ==> body[k] == ' ';
    assert forall k :: |w| - trail <= k < |w| ==> w[k] == body[k - |prefix|];
    assert w[|w| - trail - 1] == body[|body| - trail - 1];
  }

  /** Cutting spaces off the end of a separator word shortens its trail. */
  lemma SeparatorCellDropTrail(lead: nat, leftColon: bool, dashes: nat, rightColon: bool, trail: nat, k: nat)
    requires k <= trail
    ensures SeparatorCellOf(lead, leftColon, dashes, rightColon, trail)
            == SeparatorCellOf(lead, leftColon, dashes, rightColon, trail - k) + Repeat(' ', k)
  {
    assert Repeat(' ', trail) == Repeat(' ', trail - k) + Repeat(' ', k);
  }

  /** Dashes appended to a separator word that ends in a dash lengthen its
      run of dashes. */
  lemma SeparatorCellAddDashes(lead: nat, leftColon: bool, dashes: nat, k: nat)
    ensures SeparatorCellOf(lead, leftColon, dashes, false, 0) + Repeat('-', k)
            == SeparatorCellOf(lead, leftColon, dashes + k, false, 0)
  {
    assert Repeat('-', dashes) + Repeat('-', k) == Repeat('-', dashes + k);
  }

  /** A word of the separator pattern that ends in a dash stays in the
      language when dashes are appended. */
  lemma PatternAddDashes(cell: string, k: nat)
    requires MatchesSeparatorPattern(cell) && |cell| > 0 && cell[|cell| - 1] == '-'
    ensures MatchesSeparatorPattern(cell + Repeat('-', k))
  {
    var lead: nat, leftColon: bool, dashes: nat, rightColon: bool, trail: nat :|
      dashes >= 3 && cell == SeparatorCellOf(lead, leftColon, dashes, rightColon, trail);
    assert trail == 0 && !rightColon by {
      SeparatorCellEnd(lead, leftColon, dashes, rightColon, trail);
    }
    SeparatorCellAddDashes(lead, leftColon, dashes, k);
    assert cell + Repeat('-', k) == SeparatorCellOf(lead, leftColon, dashes + k, false, 0);
  }

  /** Trailing spaces can be dropped from a word of the separator pattern. */
  lemma PatternDropSpaces(cell: string, k: nat)
    requires MatchesSeparatorPattern(cell + Repeat(' ', k))
    ensures MatchesSeparatorPattern(cell)
  {
    var word := cell + Repeat(' ', k);
    var lead: nat, leftColon: bool, dashes: nat, rightColon: bool, trail: nat :|
      dashes >= 3 && word == SeparatorCellOf(lead, leftColon, dashes, rightColon, trail);
    assert k <= trail by {
      SeparatorCellEnd(lead, leftColon, dashes, rightColon, trail);
    }
    SeparatorCellDropTrail(lead, leftColon, dashes, rightColon, trail, k);
    var shorter := SeparatorCellOf(lead, leftColon, dashes, rightColon, trail - k);
    assert cell == word[..|cell|] == shorter;
  }

  /** A separator cell that ends in a dash is still a separator cell after
      the width stage fills it with more dashes. */
  lemma WideningKeepsSeparator(cell: string, k: nat)
    requires IsSeparatorCell(cell) && |cell| > 0 && cell[|cell| - 1] == '-'
    ensures IsSeparatorCell(cell + Repeat('-', k))
  {
    SeparatorCellMatchesPattern(cell);
    PatternAddDashes(cell, k);
    SeparatorCellMatchesPattern(cell + Repeat('-', k));
  }

  /** Spaces appended to a cell that is not a separator never make it one. */
  lemma SpacesKeepNonSeparator(cell: string, k: nat)
    requires IsSeparatorCell(cell + Repeat(' ', k))
    ensures IsSeparatorCell(cell)
  {
    SeparatorCellMatchesPattern(cell + Repeat(' ', k));
    PatternDropSpaces(cell, k);
    SeparatorCellMatchesPattern(cell);
  }

  lemma CenteredSeparatorCell()
    ensures IsSeparatorCell(":---:")
  {
    var cell := ":---:";
    CountLeadingIs(cell, ' ', 0);
    assert cell[0..] == cell;
    var body := cell[1..];
    assert body == "---:";
    CountLeadingIs(body, '-', 3);
    assert body[3..] == ":";
    assert ":"[1..] == "";
  }

  /** A colon followed by a dash ends no separator cell. */
  lemma WidenedCenteredCellIsNotSeparator()
    ensures !IsSeparatorCell(":---:-")
  {
    var cell := ":---:-";
    CountLeadingIs(cell, ' ', 0);
    assert cell[0..] == cell;
    var body := cell[1..];
    assert body == "---:-";
    CountLeadingIs(body, '-', 3);
    assert body[3..] == ":-";
    assert ":-"[1..] == "-";
  }

  /** The widths of a one-column table with a header are those of its
      first row. */
  lemma HeaderColumnWidth(a: string, s: string)
    requires IsSeparatorCell(s)
    ensures ColumnWidths([[a], [s]]) == [|a|]
  {
    var t: Grid := [[a], [s]];
    var widths := ColumnWidths(t);
    assert CountsForWidth(t, 0) && !CountsForWidth(t, 1);
    ColumnWidthsCoverRectangle(t);
    var l :| 0 <= l < |t| && CountsForWidth(t, l) && 0 < |t[l]| && widths[0] == |t[l][0]|;
    assert l == 0;
  }

  /** In a one-column table with a header and a first cell at least three
      long, the separator is filled with dashes up to the first cell's
      length. */
  lemma WidenHeaderColumn(a: string, s: string)
    requires IsSeparatorCell(s) && |s| <= |a| && 3 <= |a|
    ensures CellsWidth([[a], [s]]) == [[a], [s + Repeat('-', |a| - |s|)]]
  {
    var t: Grid := [[a], [s]];
    HeaderColumnWidth(a, s);
    CellsWidthFillsColumns(t);
    var r := CellsWidth(t);
    assert r[0][0] == a by {
      assert r[0][0] == r[0][0][..|a|];
    }
    assert r[1][0] == s + Repeat('-', |a| - |s|) by {
      assert FillChar(t, 1) == '-';
      assert r[1][0] == r[1][0][..|s|] + r[1][0][|s|..];
    }
    assert r[0] == [a] && r[1] == [s + Repeat('-', |a| - |s|)];
  }

  lemma CenteredHeader()
    ensures HasHeader([["abcdef"], [":---:"]])
  {
    var t: Grid := [["abcdef"], [":---:"]];
    CenteredSeparatorCell();
    assert t[1][0] == ":---:";
  }

  lemma WidenCenteredHeader()
    ensures CellsWidth([["abcdef"], [":---:"]]) == [["abcdef"], [":---:-"]]
  {
    var a, s := "abcdef", ":---:";
    assert CellsWidth([[a], [s]]) == [[a], [s + Repeat('-', 1)]] by {
      CenteredSeparatorCell();
      WidenHeaderColumn(a, s);
    }
    assert s + Repeat('-', 1) == ":---:-" by {
      assert Repeat('-', 1) == "-";
    }
  }

  lemma WidenedCenteredNoHeader()
    ensures !HasHeader([["abcdef"], [":---:-"]])
  {
    var r: Grid := [["abcdef"], [":---:-"]];
    WidenedCenteredCellIsNotSeparator();
    assert r[1][0] == ":---:-";
  }

  /** The width stage can destroy the header it has just measured: the
      separator `:---:` of a column six wide is filled with one dash after
      its right colon, and the row it is in no longer reads as a separator,
      so the padding and header-removal stages treat it as data. */
  lemma WideningCanLoseHeader()
    ensures var t: Grid := [["abcdef"], [":---:"]];
            && HasHeader(t)
            && CellsWidth(t) == [["abcdef"], [":---:-"]]
            && !HasHeader(CellsWidth(t))
  {
    CenteredHeader();
    WidenCenteredHeader();
    WidenedCenteredNoHeader();
  }

  /** A widened cell is the original cell followed by fill characters. */
  lemma WidenedCell(t: Grid, l: nat, n: nat)
    requires l < |t| && n < |t[l]|
    ensures var r := CellsWidth(t);
            |t[l][n]| <= |r[l][n]| && r[l][n] == t[l][n] + Repeat(FillChar(t, l), |r[l][n]| - |t[l][n]|)
  {
    var r := CellsWidth(t);
    assert r[l][n] == r[l][n][..|t[l][n]|] + r[l][n][|t[l][n]|..];
  }

  /** Widening never turns a table without a header into one with a header:
      outside a separator row it only appends spaces. */
  lemma WideningKeepsNoHeader(t: Grid)
    requires !HasHeader(t)
    ensures !HasHeader(CellsWidth(t))
  {
    var r := CellsWidth(t);
    if |t| >= 2 {
      var n :| 0 <= n < |t[1]| && !IsSeparatorCell(t[1][n]);
      WidenedCell(t, 1, n);
      assert FillChar(t, 1) == ' ';
      if IsSeparatorCell(r[1][n]) {
        SpacesKeepNonSeparator(t[1][n], |r[1][n]| - |t[1][n]|);
      }
    }
  }

  /** A header whose separator cells all end in a dash (no right-alignment
      colon) survives widening. */
  lemma WideningKeepsDashHeader(t: Grid)
    requires HasHeader(t)
    requires forall n :: 0 <= n < |t[1]| ==> |t[1][n]| > 0 && t[1][n][|t[1][n]| - 1] == '-'
    ensures HasHeader(CellsWidth(t))
  {
    var r := CellsWidth(t);
    forall n | 0 <= n < |r[1]|
      ensures IsSeparatorCell(r[1][n])
    {
      WidenedCell(t, 1, n);
      assert FillChar(t, 1) == '-';
      WideningKeepsSeparator(t[1][n], |r[1][n]| - |t[1][n]|);
    }
  }

  /** The length every cell of column `n` has once a rectangular table has
      been widened and padded. */
  function PaddedWidth(t: Grid, n: nat): nat
    requires n < |ColumnWidths(t)|
  {
    var m := Max(ColumnWidths(t)[n], MinWidth(t));
    if m == 0 then 1 else m + 2
  }

  /** Rows other than the separator keep their role through widening. */
  lemma WidenedRowsCount(t: Grid, l: nat)
    requires l < |t| && (HasHeader(t) <==> HasHeader(CellsWidth(t)))
    ensures CountsForWidth(CellsWidth(t), l) <==> CountsForWidth(t, l)
  {
  }

  /** After widening, each column's width is the widened length. */
  lemma WidenedColumnWidths(t: Grid)
    requires |t| >= 1 && IsRectangular(t) && (HasHeader(t) <==> HasHeader(CellsWidth(t)))
    ensures |ColumnWidths(t)| == |t[0]| == |ColumnWidths(CellsWidth(t))|
    ensures forall n :: 0 <= n < |t[0]| ==>
              ColumnWidths(CellsWidth(t))[n] == Max(ColumnWidths(t)[n], MinWidth(t))
  {
    var w := CellsWidth(t);
    ColumnWidthsCoverRectangle(t);
    CellsWidthFillsColumns(t);
    ColumnWidthsCoverRectangle(w);
    var widths := ColumnWidths(w);
    forall n | 0 <= n < |t[0]|
      ensures widths[n] == Max(ColumnWidths(t)[n], MinWidth(t))
    {
      WidenedRowsCount(t, 0);
      assert WidthAttained(w, |w|, n, widths[n]);
      var l :| 0 <= l < |w| && CountsForWidth(w, l) && n < |w[l]| && widths[n] == |w[l][n]|;
      WidenedRowsCount(t, l);
    }
  }

  /** Every cell of a widened and padded rectangular table has its
      column's padded width, the separator included. */
  lemma PaddedCellWidth(t: Grid, l: nat, n: nat)
    requires |t| >= 1 && IsRectangular(t) && (HasHeader(t) <==> HasHeader(CellsWidth(t)))
    requires l < |t| && n < |t[0]|
    ensures n < |ColumnWidths(t)|
    ensures |AddPadding(CellsWidth(t))[l][n]| == PaddedWidth(t, n)
  {
    var w := CellsWidth(t);
    ColumnWidthsCoverRectangle(t);
    CellsWidthFillsColumns(t);
    WidenedColumnWidths(t);
    WidenedRowsCount(t, l);
    var m := Max(ColumnWidths(t)[n], MinWidth(t));
    if CountsForWidth(w, l) {
      PadCellRoundTrip(w[l][n]);
    } else {
      AddPaddingSeparatorWidth(w);
      assert MinWidth(t) == 3;
    }
  }

  /** With widening and padding both on, every column of a rectangular
      table comes out with cells of one length, provided the header (if
      any) is still a header after widening. */
  lemma PaddedColumnsAligned(t: Grid)
    requires IsRectangular(t)
    requires HasHeader(t) ==> HasHeader(CellsWidth(t))
    ensures ColumnsAligned(AddPadding(CellsWidth(t)))
  {
    var p := AddPadding(CellsWidth(t));
    if |t| >= 1 {
      if !HasHeader(t) {
        WideningKeepsNoHeader(t);
      }
      forall l1, l2, n | 0 <= l1 < |p| && 0 <= l2 < |p| && 0 <= n < |p[l1]| && n < |p[l2]|
        ensures |p[l1][n]| == |p[l2][n]|
      {
        PaddedCellWidth(t, l1, n);
        PaddedCellWidth(t, l2, n);
      }
    }
  }
}
