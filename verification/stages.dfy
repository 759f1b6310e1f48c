/** The six grid transformers of src/MarkdownTableFormat.ts, as pure
    functions from grid to grid (lines 27-109). */
module Stages {
  import opened Text
  import opened Table

  /** TrimCellsContentTransformer: every cell loses its surrounding
      whitespace; the shape of the grid is unchanged. */
  function TrimCellsContent(t: Grid): (r: Grid)
    ensures |r| == |t|
    ensures forall l :: 0 <= l < |t| ==> |r[l]| == |t[l]|
    ensures forall l, n :: 0 <= l < |t| && 0 <= n < |t[l]| ==> r[l][n] == Trim(t[l][n])
    ensures forall l, n :: 0 <= l < |r| && 0 <= n < |r[l]| ==> IsTrimmed(r[l][n])
  {
    seq(|t|, l requires 0 <= l < |t| =>
      seq(|t[l]|, n requires 0 <= n < |t[l]| => Trim(t[l][n])))
  }

  /** Trimming the cells of a grid a second time changes nothing. */
  lemma TrimCellsContentIdempotent(t: Grid)
    ensures TrimCellsContent(TrimCellsContent(t)) == TrimCellsContent(t)
  {
    var once := TrimCellsContent(t);
    var twice := TrimCellsContent(once);
    forall l, n | 0 <= l < |t| && 0 <= n < |t[l]|
      ensures twice[l][n] == once[l][n]
    {
      TrimFixedPoint(t[l][n]);
    }
    assert forall l :: 0 <= l < |t| ==> twice[l] == once[l];
  }

  /** A grid whose cells are all trimmed already is left as it is. */
  lemma TrimCellsContentKeepsTrimmed(t: Grid)
    requires forall l, n :: 0 <= l < |t| && 0 <= n < |t[l]| ==> IsTrimmed(t[l][n])
    ensures TrimCellsContent(t) == t
  {
    var r := TrimCellsContent(t);
    forall l, n | 0 <= l < |t| && 0 <= n < |t[l]|
      ensures r[l][n] == t[l][n]
    {
      TrimFixedPoint(t[l][n]);
    }
    assert forall l :: 0 <= l < |t| ==> r[l] == t[l];
  }

  /** TrimEmptyLinesTransformer: keeps the rows that have at least one cell,
      in their order. */
  function TrimEmptyLines(t: Grid): (r: Grid)
    ensures |r| <= |t|
    ensures forall k :: 0 <= k < |r| ==> |r[k]| > 0
    ensures forall row :: row in r ==> row in t
    ensures forall l :: 0 <= l < |t| && |t[l]| > 0 ==> t[l] in r
  {
    if |t| == 0 then []
    else (if |t[0]| > 0 then [t[0]] else []) + TrimEmptyLines(t[1..])
  }

  /** Filtering distributes over concatenation, so the kept rows keep their
      relative order. */
  lemma {:induction false} TrimEmptyLinesAppend(a: Grid, b: Grid)
    ensures TrimEmptyLines(a + b) == TrimEmptyLines(a) + TrimEmptyLines(b)
    decreases |a|
  {
    if |a| > 0 {
      assert (a + b)[1..] == a[1..] + b;
      TrimEmptyLinesAppend(a[1..], b);
    } else {
      assert a + b == b;
    }
  }

  /** A grid without empty rows passes through unchanged. */
  lemma {:induction false} TrimEmptyLinesKeepsFullRows(t: Grid)
    requires forall l :: 0 <= l < |t| ==> |t[l]| > 0
    ensures TrimEmptyLines(t) == t
    decreases |t|
  {
    if |t| > 0 {
      TrimEmptyLinesKeepsFullRows(t[1..]);
    }
  }

  /** `cellsCount` of AddMissingCellsTransformer: the longest row length,
      0 for a grid without rows. */
  function MaxRowLength(t: Grid): (m: nat)
    ensures forall l :: 0 <= l < |t| ==> |t[l]| <= m
    ensures |t| == 0 ==> m == 0
    ensures |t| > 0 ==> exists l :: 0 <= l < |t| && |t[l]| == m
  {
    if |t| == 0 then 0
    else
      var before := MaxRowLength(t[..|t| - 1]);
      assert forall l :: 0 <= l < |t| - 1 ==> t[..|t| - 1][l] == t[l];
      Max(before, |t[|t| - 1]|)
  }

  /** AddMissingCellsTransformer: every row is extended with empty cells to
      the longest row length; no row loses a cell. */
  function AddMissingCells(t: Grid): (r: Grid)
    ensures |r| == |t|
    ensures forall l :: 0 <= l < |r| ==> |r[l]| == MaxRowLength(t)
    ensures forall l :: 0 <= l < |r| ==> |t[l]| <= |r[l]| && r[l][..|t[l]|] == t[l]
    ensures forall l, n :: 0 <= l < |r| && |t[l]| <= n < |r[l]| ==> r[l][n] == ""
    ensures IsRectangular(r)
  {
    seq(|t|, l requires 0 <= l < |t| => t[l] + seq(MaxRowLength(t) - |t[l]|, _ => ""))
  }

  /** A rectangular grid has no missing cells. */
  lemma AddMissingCellsKeepsRectangle(t: Grid)
    requires IsRectangular(t)
    ensures AddMissingCells(t) == t
  {
    var r := AddMissingCells(t);
    if |t| > 0 {
      assert |t[0]| == MaxRowLength(t);
      forall l | 0 <= l < |t|
        ensures r[l] == t[l]
      {
        assert r[l] == r[l][..|t[l]|];
      }
    }
  }

  /** The width floor of CellsWidthTransformer: 3 under a header, else 0. */
  function MinWidth(t: Grid): nat {
    if HasHeader(t) then 3 else 0
  }

  /** The pad character of row `l`: `-` in a separator at index 1, else a
      space. */
  function FillChar(t: Grid, l: nat): char
    requires l < |t|
  {
    if l == 1 && IsSeparatorRow(t[l]) then '-' else ' '
  }

  /** `Math.max(widths[n], min)`. For a column without a width this is NaN,
      which `padEnd` reads as length 0, so the cell is left as it is. */
  function TargetWidth(widths: seq<nat>, n: nat, min: nat): nat {
    if n < |widths| then Max(widths[n], min) else 0
  }

  /** CellsWidthTransformer: right-pads every cell to its column's width
      (at least the floor), with `-` in the separator row and spaces
      elsewhere. A cell is never shortened: it is a prefix of its result and
      everything after it is the fill character. */
  function CellsWidth(t: Grid): (r: Grid)
    ensures |r| == |t|
    ensures forall l :: 0 <= l < |t| ==> |r[l]| == |t[l]|
    ensures forall l, n :: 0 <= l < |t| && 0 <= n < |t[l]| ==>
              |t[l][n]| <= |r[l][n]| && r[l][n][..|t[l][n]|] == t[l][n]
    ensures forall l, n, k :: 0 <= l < |t| && 0 <= n < |t[l]| && |t[l][n]| <= k < |r[l][n]| ==>
              r[l][n][k] == FillChar(t, l)
  {
    var widths := ColumnWidths(t);
    var min := MinWidth(t);
    seq(|t|, l requires 0 <= l < |t| =>
      seq(|t[l]|, n requires 0 <= n < |t[l]| => PadEnd(t[l][n], TargetWidth(widths, n, min), FillChar(t, l))))
  }

  /** Every two cells have the same length when they share a column. */
  predicate ColumnsAligned(t: Grid) {
    forall l1, l2, n :: 0 <= l1 < |t| && 0 <= l2 < |t| && 0 <= n < |t[l1]| && n < |t[l2]| ==>
      |t[l1][n]| == |t[l2][n]|
  }

  /** On a rectangular grid every cell outside the separator row ends up
      exactly as long as the longest such cell of its column, or the floor
      if that is larger; separator cells reach at least that length. */
  lemma CellsWidthFillsColumns(t: Grid)
    requires IsRectangular(t)
    ensures var r := CellsWidth(t);
            && IsRectangular(r)
            && (forall l, n :: 0 <= l < |t| && CountsForWidth(t, l) && 0 <= n < |t[l]| ==>
                  |r[l][n]| == Max(ColumnWidths(t)[n], MinWidth(t)))
            && (HasHeader(t) ==> forall n :: 0 <= n < |t[1]| ==>
                  |r[1][n]| == Max(|t[1][n]|, Max(ColumnWidths(t)[n], 3)))
  {
    if |t| > 0 {
      ColumnWidthsCoverRectangle(t);
    }
  }

  /** A cell of an ordinary row after padding: one space on each side, or a
      single space for an empty cell. */
  function PadCell(cell: string): string {
    if cell == "" then " " else [' '] + cell + [' ']
  }

  /** Inverse of `PadCell`. */
  function UnpadCell(padded: string): string {
    if |padded| < 2 then "" else padded[1..|padded| - 1]
  }

  lemma PadCellRoundTrip(cell: string)
    ensures UnpadCell(PadCell(cell)) == cell
    ensures |PadCell(cell)| == (if cell == "" then 1 else |cell| + 2)
  {
  }

  predicate AllDashes(s: string) {
    forall k :: 0 <= k < |s| ==> s[k] == '-'
  }

  /** `'---'.padEnd(widths[n] + 2, '-')`. For a column without a width the
      target is NaN and `'---'` is kept as it is. */
  function SeparatorDashes(widths: seq<nat>, n: nat): (r: string)
    ensures AllDashes(r)
    ensures |r| == if n < |widths| then Max(3, widths[n] + 2) else 3
  {
    PadEnd("---", if n < |widths| then widths[n] + 2 else 0, '-')
  }

  /** One row of AddPaddingTransformer: the separator row is replaced by
      dashes, any other row has its cells padded. */
  function PadRow(row: Row, separator: bool, widths: seq<nat>): Row {
    if separator then seq(|row|, n requires 0 <= n < |row| => SeparatorDashes(widths, n))
    else seq(|row|, n requires 0 <= n < |row| => PadCell(row[n]))
  }

  /** AddPaddingTransformer: a separator at index 1 becomes plain dashes
      (its colons are dropped) of at least three characters; every other
      row has each cell padded with a space on both sides. */
  function AddPadding(t: Grid): (r: Grid)
    ensures |r| == |t|
    ensures forall l :: 0 <= l < |t| ==> |r[l]| == |t[l]|
    ensures HasHeader(t) ==> forall n :: 0 <= n < |t[1]| ==> r[1][n] == SeparatorDashes(ColumnWidths(t), n)
    ensures HasHeader(t) ==> forall n :: 0 <= n < |t[1]| ==> AllDashes(r[1][n]) && |r[1][n]| >= 3
    ensures forall l, n :: 0 <= l < |t| && CountsForWidth(t, l) && 0 <= n < |t[l]| ==>
              r[l][n] == PadCell(t[l][n])
  {
    var widths := ColumnWidths(t);
    seq(|t|, l requires 0 <= l < |t| => PadRow(t[l], l == 1 && IsSeparatorRow(t[l]), widths))
  }

  /** On a rectangular grid the padded separator is as wide as the padded
      cells of its column: two more than the column width, at least 3. */
  lemma AddPaddingSeparatorWidth(t: Grid)
    requires IsRectangular(t) && HasHeader(t)
    ensures forall n :: 0 <= n < |t[1]| ==> |AddPadding(t)[1][n]| == Max(3, ColumnWidths(t)[n] + 2)
  {
    ColumnWidthsCoverRectangle(t);
  }

  /** RemoveHeaderTransformer: drops exactly the header row and the
      separator when there is a header, and nothing otherwise; what is left
      is the rest of the grid in order. */
  function RemoveHeader(t: Grid): (r: Grid)
    ensures |r| <= |t| && t[|t| - |r|..] == r
    ensures t[..|t| - |r|] == (if HasHeader(t) then [t[0], t[1]] else [])
  {
    if HasHeader(t) then t[2..] else t
  }
}
