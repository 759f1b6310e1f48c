/** The grid the formatter works on, the separator-row pattern, header
    detection and the column widths (src/MarkdownTableFormat.ts:1-21). */
module Table {
  import opened Text

  type Row = seq<string>
  type Grid = seq<Row>

  /** Length of the longest prefix of `s` made of `c` only. */
  function CountLeading(s: string, c: char): (n: nat)
    ensures n <= |s|
    ensures forall k :: 0 <= k < n ==> s[k] == c
    ensures n < |s| ==> s[n] != c
  {
    if |s| > 0 && s[0] == c then 1 + CountLeading(s[1..], c) else 0
  }

  /** `CountLeading` is determined by its contract. */
  lemma CountLeadingIs(s: string, c: char, n: nat)
    requires n <= |s|
    requires forall k :: 0 <= k < n ==> s[k] == c
    requires n < |s| ==> s[n] != c
    ensures CountLeading(s, c) == n
  {
  }

  /** A string is its leading run of `c` followed by the rest. */
  lemma LeadingRunSplits(s: string, c: char)
    ensures s == Repeat(c, CountLeading(s, c)) + s[CountLeading(s, c)..]
  {
    var n := CountLeading(s, c);
    assert s[..n] == Repeat(c, n);
    assert s == s[..n] + s[n..];
  }

  function OptionalColon(present: bool): string {
    if present then ":" else ""
  }

  predicate AllSpaces(s: string) {
    forall k :: 0 <= k < |s| ==> s[k] == ' '
  }

  /** What may follow the run of dashes: an optional colon, then spaces. */
  predicate IsSeparatorTail(s: string) {
    if |s| > 0 && s[0] == ':' then AllSpaces(s[1..]) else AllSpaces(s)
  }

  /** What may follow the leading spaces and colon: at least three dashes,
      read greedily, then a tail. */
  predicate IsSeparatorBody(s: string) {
    var dashes := CountLeading(s, '-');
    dashes >= 3 && IsSeparatorTail(s[dashes..])
  }

  /** The separator-cell pattern `/^ *:?---+:? *$/`, read left to right: the
      leading spaces, an optional colon, the run of dashes (at least three),
      an optional colon, and nothing but spaces after that. Every piece is
      taken greedily; the pieces use distinct characters, so greedy reading
      and the regular expression agree (see SeparatorCellMatchesPattern). */
  predicate IsSeparatorCell(cell: string) {
    var rest := cell[CountLeading(cell, ' ')..];
    if |rest| > 0 && rest[0] == ':' then IsSeparatorBody(rest[1..]) else IsSeparatorBody(rest)
  }

  /** The part of a separator word from its dashes on. */
  function SeparatorBodyOf(dashes: nat, rightColon: bool, trail: nat): string {
    Repeat('-', dashes) + (OptionalColon(rightColon) + Repeat(' ', trail))
  }

  /** A word of the language of `/^ *:?---+:? *$/`, given by its pieces. */
  function SeparatorCellOf(lead: nat, leftColon: bool, dashes: nat, rightColon: bool, trail: nat): string {
    Repeat(' ', lead) + (OptionalColon(leftColon) + SeparatorBodyOf(dashes, rightColon, trail))
  }

  /** Reference reading of the pattern: some choice of pieces spells `cell`. */
  ghost predicate MatchesSeparatorPattern(cell: string) {
    exists lead: nat, leftColon: bool, dashes: nat, rightColon: bool, trail: nat ::
      dashes >= 3 && cell == SeparatorCellOf(lead, leftColon, dashes, rightColon, trail)
  }

  lemma SeparatorTailSound(s: string) returns (rightColon: bool, trail: nat)
    requires IsSeparatorTail(s)
    ensures s == OptionalColon(rightColon) + Repeat(' ', trail)
  {
    rightColon := |s| > 0 && s[0] == ':';
    trail := |s| - |OptionalColon(rightColon)|;
    if rightColon {
      assert s == [':'] + s[1..];
    }
  }

  lemma SeparatorBodySound(s: string) returns (dashes: nat, rightColon: bool, trail: nat)
    requires IsSeparatorBody(s)
    ensures dashes >= 3 && s == SeparatorBodyOf(dashes, rightColon, trail)
  {
    dashes := CountLeading(s, '-');
    LeadingRunSplits(s, '-');
    rightColon, trail := SeparatorTailSound(s[dashes..]);
  }

  lemma SeparatorRestSound(rest: string) returns (leftColon: bool, dashes: nat, rightColon: bool, trail: nat)
    requires if |rest| > 0 && rest[0] == ':' then IsSeparatorBody(rest[1..]) else IsSeparatorBody(rest)
    ensures dashes >= 3 && rest == OptionalColon(leftColon) + SeparatorBodyOf(dashes, rightColon, trail)
  {
    leftColon := |rest| > 0 && rest[0] == ':';
    var body := rest[|OptionalColon(leftColon)|..];
    assert rest == OptionalColon(leftColon) + body;
    dashes, rightColon, trail := SeparatorBodySound(body);
  }

  lemma SeparatorCellSound(cell: string)
    requires IsSeparatorCell(cell)
    ensures MatchesSeparatorPattern(cell)
  {
    var lead := CountLeading(cell, ' ');
    LeadingRunSplits(cell, ' ');
    var leftColon, dashes, rightColon, trail := SeparatorRestSound(cell[lead..]);
    assert cell == SeparatorCellOf(lead, leftColon, dashes, rightColon, trail);
  }

  lemma SeparatorTailComplete(rightColon: bool, trail: nat)
    ensures IsSeparatorTail(OptionalColon(rightColon) + Repeat(' ', trail))
  {
    var s := OptionalColon(rightColon) + Repeat(' ', trail);
    if rightColon {
      assert s[1..] == Repeat(' ', trail);
    }
  }

  lemma SeparatorBodyComplete(dashes: nat, rightColon: bool, trail: nat)
    requires dashes >= 3
    ensures IsSeparatorBody(SeparatorBodyOf(dashes, rightColon, trail))
  {
    var tail := OptionalColon(rightColon) + Repeat(' ', trail);
    var s := Repeat('-', dashes) + tail;
    CountLeadingIs(s, '-', dashes);
    assert s[dashes..] == tail;
    SeparatorTailComplete(rightColon, trail);
  }

  lemma SeparatorCellComplete(lead: nat, leftColon: bool, dashes: nat, rightColon: bool, trail: nat)
    requires dashes >= 3
    ensures IsSeparatorCell(SeparatorCellOf(lead, leftColon, dashes, rightColon, trail))
  {
    var cell := SeparatorCellOf(lead, leftColon, dashes, rightColon, trail);
    var body := SeparatorBodyOf(dashes, rightColon, trail);
    var rest := OptionalColon(leftColon) + body;
    assert cell == Repeat(' ', lead) + rest;
    CountLeadingIs(cell, ' ', lead);
    assert cell[lead..] == rest;
    SeparatorBodyComplete(dashes, rightColon, trail);
    assert rest[|OptionalColon(leftColon)|..] == body;
  }

  /** The greedy scan accepts exactly the words of `/^ *:?---+:? *$/`. */
  lemma SeparatorCellMatchesPattern(cell: string)
    ensures IsSeparatorCell(cell) <==> MatchesSeparatorPattern(cell)
  {
    if IsSeparatorCell(cell) {
      SeparatorCellSound(cell);
    }
    if MatchesSeparatorPattern(cell) {
      var lead: nat, leftColon: bool, dashes: nat, rightColon: bool, trail: nat :|
        dashes >= 3 && cell == SeparatorCellOf(lead, leftColon, dashes, rightColon, trail);
      SeparatorCellComplete(lead, leftColon, dashes, rightColon, trail);
    }
  }

  /** `isSeparatorLine`: every cell is a separator cell (vacuously true of a
      row without cells). */
  predicate IsSeparatorRow(row: Row) {
    forall n :: 0 <= n < |row| ==> IsSeparatorCell(row[n])
  }

  /** The grid has a header: a second row, and that row is a separator. */
  predicate HasHeader(t: Grid) {
    |t| >= 2 && IsSeparatorRow(t[1])
  }

  predicate IsRectangular(t: Grid) {
    forall l :: 0 <= l < |t| ==> |t[l]| == |t[0]|
  }

  /** Whether row `l` takes part in the width computation: every row except
      a separator at index 1. */
  predicate CountsForWidth(t: Grid, l: nat)
    requires l < |t|
  {
    !(l == 1 && IsSeparatorRow(t[1]))
  }

  /** `w` is the length of the cell in column `n` of some row among
      `t[..count]` that takes part in the width computation. */
  predicate WidthAttained(t: Grid, count: nat, n: nat, w: nat)
    requires count <= |t|
  {
    exists l :: 0 <= l < count && CountsForWidth(t, l) && n < |t[l]| && w == |t[l][n]|
  }

  /** `widths` are the column widths of the rows `t[..count]`: one entry per
      column that some counted row reaches, each the length of the longest
      counted cell of its column. */
  predicate AreColumnWidths(t: Grid, count: nat, widths: seq<nat>)
    requires count <= |t|
  {
    && (forall l :: 0 <= l < count && CountsForWidth(t, l) ==> |t[l]| <= |widths|)
    && (forall l, n :: 0 <= l < count && CountsForWidth(t, l) && 0 <= n < |t[l]| ==> |t[l][n]| <= widths[n])
    && (forall n :: 0 <= n < |widths| ==> WidthAttained(t, count, n, widths[n]))
  }

  /** One step of the inner `forEach`: column `n` takes the cell's length
      when it had no width yet or a smaller one. */
  function WidenWith(widths: seq<nat>, row: Row): (r: seq<nat>)
    ensures |r| == Max(|widths|, |row|)
    ensures forall n :: 0 <= n < |row| ==> r[n] == (if n < |widths| then Max(widths[n], |row[n]|) else |row[n]|)
    ensures forall n :: |row| <= n < |widths| ==> r[n] == widths[n]
  {
    seq(Max(|widths|, |row|), n requires 0 <= n < Max(|widths|, |row|) =>
      if n < |row| && (n >= |widths| || widths[n] < |row[n]|) then |row[n]| else widths[n])
  }

  /** Visiting a counted row keeps the widths those of the rows seen. */
  lemma WidenWithKeepsColumnWidths(t: Grid, count: nat, before: seq<nat>)
    requires 1 <= count <= |t| && CountsForWidth(t, count - 1)
    requires AreColumnWidths(t, count - 1, before)
    ensures AreColumnWidths(t, count, WidenWith(before, t[count - 1]))
  {
    var l := count - 1;
    var widths := WidenWith(before, t[l]);
    forall n | 0 <= n < |widths|
      ensures WidthAttained(t, count, n, widths[n])
    {
      if n < |t[l]| && widths[n] == |t[l][n]| {
        assert 0 <= l < count && CountsForWidth(t, l);
      } else {
        assert WidthAttained(t, count - 1, n, before[n]);
        var l' :| 0 <= l' < count - 1 && CountsForWidth(t, l') && n < |t[l']| && before[n] == |t[l'][n]|;
        assert 0 <= l' < count;
      }
    }
  }

  /** Before the separator row only row 0 has been visited, so each width
      is the length of a cell of row 0. */
  lemma FirstRowWidth(t: Grid, before: seq<nat>, n: nat)
    requires 1 <= |t| && AreColumnWidths(t, 1, before) && n < |before|
    ensures n < |t[0]| && before[n] == |t[0][n]|
  {
    assert WidthAttained(t, 1, n, before[n]);
    var l :| 0 <= l < 1 && CountsForWidth(t, l) && n < |t[l]| && before[n] == |t[l][n]|;
  }

  /** Skipping the separator row keeps the widths those of the rows seen.
      Only row 1 can be skipped, so the rows seen are row 0 alone. */
  lemma SkipKeepsColumnWidths(t: Grid, count: nat, before: seq<nat>)
    requires 1 <= count <= |t| && !CountsForWidth(t, count - 1)
    requires AreColumnWidths(t, count - 1, before)
    ensures AreColumnWidths(t, count, before)
  {
    assert count == 2;
    assert CountsForWidth(t, 0);
    forall n | 0 <= n < |before|
      ensures WidthAttained(t, count, n, before[n])
    {
      FirstRowWidth(t, before, n);
      assert 0 < count && CountsForWidth(t, 0) && n < |t[0]| && before[n] == |t[0][n]|;
    }
  }

  /** The widths after the outer `forEach` has visited rows `0..count`. */
  function WidthsOver(t: Grid, count: nat): (widths: seq<nat>)
    requires count <= |t|
    ensures AreColumnWidths(t, count, widths)
  {
    if count == 0 then []
    else
      var before := WidthsOver(t, count - 1);
      if CountsForWidth(t, count - 1) then
        WidenWithKeepsColumnWidths(t, count, before);
        WidenWith(before, t[count - 1])
      else
        SkipKeepsColumnWidths(t, count, before);
        before
  }

  /** `getCellsWidths`: for every column the length of its longest cell,
      leaving out a separator row at index 1. */
  function ColumnWidths(t: Grid): (widths: seq<nat>)
    ensures AreColumnWidths(t, |t|, widths)
  {
    WidthsOver(t, |t|)
  }

  /** On a non-empty rectangular grid there is a width for every column. */
  lemma ColumnWidthsCoverRectangle(t: Grid)
    requires |t| >= 1 && IsRectangular(t)
    ensures |ColumnWidths(t)| == |t[0]|
  {
    var widths := ColumnWidths(t);
    assert CountsForWidth(t, 0);
    if |widths| > 0 {
      var n := |widths| - 1;
      var w := widths[n];
      assert WidthAttained(t, |t|, n, w);
      var l :| 0 <= l < |t| && CountsForWidth(t, l) && n < |t[l]| && w == |t[l][n]|;
      assert n < |t[0]|;
    }
  }
}
