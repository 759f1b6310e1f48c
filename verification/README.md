# markdown-table-format in Dafny

`MarkdownTableFormat.format` reformats a pipe-delimited markdown table given as text. It works in three steps:

1. It cuts the text into a grid of cells. The text is split at line feeds. One leading and one trailing `|` are stripped from each line. The line is then split at every `|` that no backslash precedes.
2. It folds the grid through a list of transformers in a fixed order:
   - trim every cell;
   - drop rows without cells;
   - pad short rows with empty cells;
   - optionally, pad every cell to its column's width;
   - optionally, put one space around each cell and turn the separator row into dashes;
   - optionally, remove the header row and the separator row.
3. It writes each row between pipes and joins the rows with line feeds.

The constructor merges the caller's options over the defaults. By default `consistentCellsWidth` is on, `addPadding` is on and `removeHeader` is off.

The model is a set of pure functions over `string` (`seq<char>`) and grids (`seq<seq<string>>`). The modules follow the source:

- `Text`: the JavaScript string operations the formatter relies on (`trim`, `padEnd`, `join`, and `split` with and without the backslash look-behind).
- `Table`: the separator pattern, header detection and `getCellsWidths`.
- `Stages`: the six transformers.
- `Formatter`: the options, the transformer list, the tokenizer, the fold and the serialiser.
- `FormatProofs`, `Output`, `Header`: properties of the whole formatter.
- `Examples`: worked examples.

The regular expressions are replaced by hand-written predicates. Only the separator test is proved equal to what its pattern describes:

- `IsSeparatorCell` is proved to accept exactly the words of `/^ *:?---+:? *$/`.
- `IsDelimiter` transcribes `(?<!\\)\|` directly, and `SplitOn` with escapes is proved to be the unique splitting at its positions.

Every stage is total, as in JavaScript, and nothing requires a rectangular grid. On a ragged grid `Math.max(undefined, min)` is `NaN`, and `padEnd(NaN)` leaves the string as it is. This is modelled by `TargetWidth` and `SeparatorDashes`.

Each option key has three possible states: absent, present as `undefined`, or a boolean. A key present as `undefined` overrides the default through the object spread and reads as false.

Three behaviours of the code differ from what one might expect of a formatter. The model follows the code in each case:

- **Empty input is not empty output.** `split` always returns at least one piece, so `""` becomes one row with one empty cell. The result is `"||"` with every option off and `"| |"` with the defaults (`Examples.FormatEmptyAllOff`, `Examples.FormatEmptyDefaults`). The stage that drops rows without cells therefore never fires on tokenizer output (`Output.TrimEmptyLinesNeverFires`).
- **Formatting is not idempotent.** With every option off, the cell `x\ ` is trimmed to `x\`. It is then written as `|x\|y|`, and that text tokenizes to a single cell (`Examples.FormatNotIdempotent`). What does hold is that, with every option off, a table already in the output shape is kept exactly (`Examples.FormattedTableIsKept`).
- **Widening can erase a header.** The width stage pads the separator row with `-` after the cell's text. A cell ending in a colon, such as `:---:`, gains dashes after the colon when its column is wider (`:---:-` in a column six wide), and then no longer matches the separator pattern. The stages after it then treat the separator as an ordinary row (`Header.WideningCanLoseHeader`). Separator cells that end in a dash keep the header (`Header.WideningKeepsDashHeader`). When the header survives, widening followed by padding gives every column a single width (`Header.PaddedColumnsAligned`).

## Model

| member | source | states |
|---|---|---|
| `Text.IsWhitespace` | src/MarkdownTableFormat.ts:30 | Definition of the characters `trim` removes, the ECMAScript WhiteSpace and LineTerminator sets. Specified through `Text.Trim` and `Text.TrimRemovesWhitespace`. |
| `Text.Trim` | src/MarkdownTableFormat.ts:30 | The trimmed cell is no longer than the cell and has no whitespace at either end. |
| `Text.TrimRemovesWhitespace` | src/MarkdownTableFormat.ts:30 | The trimmed cell is a contiguous part of the cell, and everything before and after it is whitespace. |
| `Text.TrimSitsAfterLeadingWhitespace` | src/MarkdownTableFormat.ts:30 | The trimmed cell starts right after the whitespace prefix of the cell, and only whitespace follows it. |
| `Text.TrimFixedPoint` | src/MarkdownTableFormat.ts:30 | Trimming leaves a string unchanged exactly when neither end is whitespace. Trimming twice is trimming once. |
| `Text.PadEnd` | src/MarkdownTableFormat.ts:57 | `padEnd` never truncates. The result is `max(length, target)` long, starts with the original, and continues with the fill character only. |
| `Text.SplitOn` | src/MarkdownTableFormat.ts:153-155 | Definition of `split` at one character, with or without the backslash look-behind. Specified by `Text.SplitOnIsSplitting` and `Text.SplittingIsUnique`. |
| `Text.Join` | src/MarkdownTableFormat.ts:159 | Definition of `join` with a one-character separator. Specified by `Text.SplitJoinRoundTrip` and `Text.JoinFreeOf`. |
| `Text.IsDelimiter` | src/MarkdownTableFormat.ts:155 | Definition of a pipe that no backslash precedes. Specified through `Text.SplitOnIsSplitting` and `Text.SplittingIsUnique`. |
| `Text.SplitOnIsSplitting` | src/MarkdownTableFormat.ts:155 | The pieces of a split join back to the string. No piece contains a delimiter. With escapes, no piece but the last ends in a backslash. |
| `Text.SplittingIsUnique` | src/MarkdownTableFormat.ts:155 | Any non-empty list of pieces with those three properties is the result of the split, so the split cuts at exactly the unescaped pipes. |
| `Text.SplitJoinRoundTrip` | src/MarkdownTableFormat.ts:155 | Joining the pieces of a split gives back the string. Splitting a join gives back the pieces exactly when they form a splitting. |
| `Text.SplitOnCount` | src/MarkdownTableFormat.ts:153 | Splitting at line feeds gives one more piece than there are line feeds. |
| `Text.JoinFreeOf` | src/MarkdownTableFormat.ts:159 | A joined string is free of a character other than the separator exactly when every part is. |
| `Table.IsSeparatorCell` | src/MarkdownTableFormat.ts:2 | Definition of the cell test of `isSeparatorLine` as a greedy scan. Specified by `Table.SeparatorCellMatchesPattern`. |
| `Table.SeparatorCellMatchesPattern` | src/MarkdownTableFormat.ts:2 | The greedy scan accepts a cell exactly when some choice of leading spaces, optional colon, three or more dashes, optional colon and trailing spaces spells it. |
| `Table.IsSeparatorRow` | src/MarkdownTableFormat.ts:1-3 | Definition of `isSeparatorLine`: every cell passes the cell test, so a row without cells passes. Specified cell by cell by `Table.SeparatorCellMatchesPattern`. |
| `Table.HasHeader` | src/MarkdownTableFormat.ts:49 | Definition of `hasHeader`: at least two rows, and the second is a separator row. Specified through `Stages.RemoveHeader` and `Header.WideningCanLoseHeader`. |
| `Table.WidenWith` | src/MarkdownTableFormat.ts:13-17 | One visited row: a column the row reaches takes the larger of its width and the cell length, or the cell length when it had no width. Columns the row does not reach keep their width. |
| `Table.WidenWithKeepsColumnWidths` | src/MarkdownTableFormat.ts:13-17 | Visiting a counted row keeps the widths exact: each bounds every visited cell of its column and is the length of one of them. |
| `Table.SkipKeepsColumnWidths` | src/MarkdownTableFormat.ts:9-11 | Skipping the separator at index 1 keeps the widths exact for the rows visited so far. |
| `Table.WidthsOver` | src/MarkdownTableFormat.ts:8-18 | After visiting rows `0..count`, skipping a separator at index 1, there is one width per column some visited row reaches. Each width bounds every visited cell of its column and is the length of one of them. |
| `Table.ColumnWidths` | src/MarkdownTableFormat.ts:5-21 | `getCellsWidths` gives every column the length of its longest cell, leaving out a separator row at index 1. |
| `Table.ColumnWidthsCoverRectangle` | src/MarkdownTableFormat.ts:5-21 | On a non-empty rectangular grid there is exactly one width per column. |
| `Stages.TrimCellsContent` | src/MarkdownTableFormat.ts:27-33 | The shape of the grid is unchanged, each cell is its own trimmed text, and every resulting cell is trimmed. |
| `Stages.TrimCellsContentIdempotent` | src/MarkdownTableFormat.ts:27-33 | Trimming the cells twice is trimming them once. |
| `Stages.TrimCellsContentKeepsTrimmed` | src/MarkdownTableFormat.ts:27-33 | A grid whose cells are all trimmed comes back unchanged. |
| `Stages.TrimEmptyLines` | src/MarkdownTableFormat.ts:35-45 | Every kept row has a cell and comes from the input. Every input row with a cell is kept. |
| `Stages.TrimEmptyLinesAppend` | src/MarkdownTableFormat.ts:35-45 | The filter distributes over concatenation, so kept rows keep their order. |
| `Stages.TrimEmptyLinesKeepsFullRows` | src/MarkdownTableFormat.ts:35-45 | A grid without empty rows comes back unchanged. |
| `Stages.MaxRowLength` | src/MarkdownTableFormat.ts:65-71 | `cellsCount` bounds every row length, is the length of some row, and is 0 for a grid without rows. |
| `Stages.AddMissingCells` | src/MarkdownTableFormat.ts:63-77 | The row count is unchanged. Every row becomes as long as the longest. Each row is a prefix of its result, the added cells are empty, and the result is rectangular. |
| `Stages.AddMissingCellsKeepsRectangle` | src/MarkdownTableFormat.ts:63-77 | A rectangular grid comes back unchanged. |
| `Stages.MinWidth` | src/MarkdownTableFormat.ts:49-50 | Definition of the width floor: 3 under a header, else 0. Specified by `Stages.CellsWidthFillsColumns`. |
| `Stages.FillChar` | src/MarkdownTableFormat.ts:54 | Definition of the fill character: `-` in a separator row at index 1, a space elsewhere. Specified by `Stages.CellsWidth`. |
| `Stages.TargetWidth` | src/MarkdownTableFormat.ts:57 | Definition of `Math.max(widths[n], min)`, with the NaN of a column without a width read as 0 by `padEnd`. Specified by `Stages.CellsWidth` and `Stages.CellsWidthFillsColumns`. |
| `Stages.CellsWidth` | src/MarkdownTableFormat.ts:47-61 | The shape is unchanged. Every cell is a prefix of its result, and what follows is `-` in a separator at index 1 and a space elsewhere. |
| `Stages.CellsWidthFillsColumns` | src/MarkdownTableFormat.ts:47-61 | On a rectangular grid every counted cell becomes exactly `max(width of its column, 3 under a header else 0)` long. Separator cells reach at least that length. |
| `Stages.PadCell` | src/MarkdownTableFormat.ts:88-94 | Definition of the padding of an ordinary cell. Specified by `Stages.PadCellRoundTrip`. |
| `Stages.PadCellRoundTrip` | src/MarkdownTableFormat.ts:88-94 | Removing the padding gives the cell back. A padded empty cell is one space, and any other cell gains two characters. |
| `Stages.SeparatorDashes` | src/MarkdownTableFormat.ts:85 | A padded separator cell is all dashes, `max(3, width + 2)` long, or `---` for a column without a width. |
| `Stages.PadRow` | src/MarkdownTableFormat.ts:83-95 | Definition of the padding of one row. Specified by `Stages.AddPadding`. |
| `Stages.AddPadding` | src/MarkdownTableFormat.ts:79-97 | The shape is unchanged. A separator at index 1 becomes, cell by cell, `---` extended with dashes to its column width plus two: at least three dashes, with its colons dropped. Every other cell is padded. |
| `Stages.AddPaddingSeparatorWidth` | src/MarkdownTableFormat.ts:81-86 | On a rectangular grid with a header, each padded separator cell is `max(3, column width + 2)` long. |
| `Stages.RemoveHeader` | src/MarkdownTableFormat.ts:99-109 | The result is a suffix of the grid. What is dropped is exactly the header row and the separator when there is a header, and nothing otherwise. |
| `Formatter.Override` | src/MarkdownTableFormat.ts:127-130 | Definition of one key of the object spread read as a condition. Specified by `Formatter.Configure`. |
| `Formatter.Configure` | src/MarkdownTableFormat.ts:117-131 | Width and padding are on unless given as `false` or `undefined`. Header removal is on only when given as `true`. |
| `Formatter.Apply` | src/MarkdownTableFormat.ts:23-25 | Definition of `transformer.transform(table)` for each transformer class. Specified through `FormatProofs.PipelineComposes`. |
| `Formatter.Pipeline` | src/MarkdownTableFormat.ts:134-150 | Definition of the transformer list. Specified by `Formatter.PipelineShape` and `Formatter.PipelineRanked`. |
| `Formatter.PipelineShape` | src/MarkdownTableFormat.ts:134-150 | The three fixed stages come first. Each optional stage is present exactly when its switch is on. All stages are in strictly increasing order. |
| `Formatter.PipelineRanked` | src/MarkdownTableFormat.ts:134-150 | The stage list is strictly ordered by position in the fixed order, whatever the switches. |
| `Formatter.RunStages` | src/MarkdownTableFormat.ts:157 | Definition of the `reduce` over the transformers. Specified by `FormatProofs.RunStagesAppend` and `FormatProofs.PipelineComposes`. |
| `Formatter.StripOuterPipes` | src/MarkdownTableFormat.ts:154 | Exactly one leading and one trailing pipe are removed when present. The trailing one is removed even when escaped, and a lone `|` becomes empty. |
| `Formatter.TokenizeLine` | src/MarkdownTableFormat.ts:154-155 | A line yields at least one cell, and the cells are the splitting of the stripped line at its unescaped pipes. |
| `Formatter.Lines` | src/MarkdownTableFormat.ts:153 | The input yields one line more than it has line feeds, and the lines are its splitting at line feeds. |
| `Formatter.Tokenize` | src/MarkdownTableFormat.ts:152-155 | One row per input line, each with at least one cell, tokenized from that line. |
| `Formatter.RenderRow` | src/MarkdownTableFormat.ts:159 | A rendered row is at least two characters long and starts and ends with a pipe. |
| `Formatter.RenderRows` | src/MarkdownTableFormat.ts:159 | Definition of the row-by-row rendering. Specified by `Output.FormatLines`. |
| `Formatter.Serialize` | src/MarkdownTableFormat.ts:159 | Definition of the final `join` at line feeds. Specified by `Output.FormatLines` and `Output.FormatLineCount`. |
| `Formatter.Transform` | src/MarkdownTableFormat.ts:152-157 | Definition of the table `format` serialises. Specified by `FormatProofs.PipelineComposes`, `Output.TransformRowCount`, `Output.TransformRectangular` and `Output.TransformFreeOfNewline`. |
| `Formatter.Format` | src/MarkdownTableFormat.ts:133-160 | Definition of `format`. Specified by `Output.FormatLines`, `Output.FormatLineCount` and `Output.FormatLinesBracketed`. |
| `FormatProofs.RunStagesAppend` | src/MarkdownTableFormat.ts:157 | Folding a concatenated stage list is folding the first part and then the second. |
| `FormatProofs.PipelineComposes` | src/MarkdownTableFormat.ts:134-157 | The fold is the composition of trim, drop-empty and add-missing, then widening, then padding, then header removal, each optional step applied exactly when its switch is on. |
| `FormatProofs.TokenizeLineRoundTrip` | src/MarkdownTableFormat.ts:154-159 | Rendering a tokenized line gives the stripped line between single pipes. A line already between pipes comes back unchanged, escaped pipes included. |
| `FormatProofs.RenderRowRoundTrip` | src/MarkdownTableFormat.ts:155-159 | A row of at least one cell renders to a line that tokenizes back to the same row exactly when no cell holds an unescaped pipe and no cell but the last ends in a backslash. |
| `Output.TrimCellsContentFreeOf` | src/MarkdownTableFormat.ts:27-33 | Trimming brings no new character into any cell. |
| `Output.CellsWidthFreeOf` | src/MarkdownTableFormat.ts:47-61 | Widening brings in only spaces and dashes. |
| `Output.AddPaddingFreeOf` | src/MarkdownTableFormat.ts:79-97 | Padding brings in only spaces and dashes. |
| `Output.RunStagesFreeOfNewline` | src/MarkdownTableFormat.ts:157 | No list of stages brings a line feed into a cell. |
| `Output.TokenizeFreeOfNewline` | src/MarkdownTableFormat.ts:152-155 | No cell of the tokenized table holds a line feed. |
| `Output.TransformFreeOfNewline` | src/MarkdownTableFormat.ts:152-157 | No cell of the table being serialised holds a line feed. |
| `Output.TrimEmptyLinesNeverFires` | src/MarkdownTableFormat.ts:35-45 | On tokenizer output the drop-empty-rows stage is the identity, because every tokenized row has a cell. |
| `Output.NormalizeRowCount` | src/MarkdownTableFormat.ts:27-77 | On tokenizer output the three fixed stages keep one row per tokenized line. |
| `Output.LayoutRowCount` | src/MarkdownTableFormat.ts:47-97 | Widening and padding keep the row count. |
| `Output.RemoveHeaderRowCount` | src/MarkdownTableFormat.ts:99-109 | Header removal drops two rows when there is a header and none otherwise. |
| `Output.TransformRowCount` | src/MarkdownTableFormat.ts:133-157 | The final table has one row per input line, less two when header removal is on and the laid-out table has a header. |
| `Output.LayoutRowLength` | src/MarkdownTableFormat.ts:47-97 | After the fixed stages, widening and padding, every row has as many cells as the longest row the fixed stages saw. |
| `Output.CellsWidthKeepsRowLength` | src/MarkdownTableFormat.ts:53-59 | Widening keeps every row at the number of cells it had. |
| `Output.AddPaddingKeepsRowLength` | src/MarkdownTableFormat.ts:83-95 | Padding keeps every row at the number of cells it had. |
| `Output.RemoveHeaderKeepsRowLength` | src/MarkdownTableFormat.ts:99-109 | Header removal keeps every remaining row at the number of cells it had. |
| `Output.PipelineRectangular` | src/MarkdownTableFormat.ts:134-157 | Whichever switches are on, every row of the folded table has the same number of cells. Header removal keeps this, because it drops whole rows. |
| `Output.TransformRectangular` | src/MarkdownTableFormat.ts:133-157 | Every row of the table `format` serialises has the same number of cells. |
| `Output.RenderRowFreeOf` | src/MarkdownTableFormat.ts:159 | A rendered row is free of a character other than the pipe exactly when its cells are. |
| `Output.FormatLines` | src/MarkdownTableFormat.ts:152-159 | Split at its line feeds, the output is exactly the rendered rows. A table left without rows gives the empty string. |
| `Output.FormatLineCount` | src/MarkdownTableFormat.ts:133-160 | The output has as many lines as the input, less two for a removed header. Only a table reduced to nothing gives the empty string. |
| `Output.FormatLinesBracketed` | src/MarkdownTableFormat.ts:159 | Every line of a non-empty output starts and ends with a pipe. |
| `Header.WideningKeepsSeparator` | src/MarkdownTableFormat.ts:54-57 | A separator cell ending in a dash is still a separator cell after any number of dashes are appended. |
| `Header.SpacesKeepNonSeparator` | src/MarkdownTableFormat.ts:54-57 | Appending spaces never turns a non-separator cell into a separator cell. |
| `Header.WideningKeepsNoHeader` | src/MarkdownTableFormat.ts:47-61 | Widening never gives a header to a grid without one. |
| `Header.WideningKeepsDashHeader` | src/MarkdownTableFormat.ts:47-61 | A header whose separator cells all end in a dash survives widening. |
| `Header.WideningCanLoseHeader` | src/MarkdownTableFormat.ts:47-61 | The grid `[["abcdef"], [":---:"]]` has a header. Widened, it becomes `[["abcdef"], [":---:-"]]`, which has none. |
| `Header.WidenedColumnWidths` | src/MarkdownTableFormat.ts:47-61 | After widening a rectangular grid whose header status is kept, each column's width is `max(original width, floor)`. |
| `Header.PaddedCellWidth` | src/MarkdownTableFormat.ts:79-97 | On a non-empty rectangular grid whose header status widening keeps (a header before widening exactly when one after), every cell after widening and padding, the separator included, has its column's padded width. |
| `Header.PaddedColumnsAligned` | src/MarkdownTableFormat.ts:47-97 | With widening and padding on, every column of a rectangular grid has cells of one length, provided a header survives widening. |
| `Examples.TransformAllOff` | src/MarkdownTableFormat.ts:133-157 | With every switch off, the table is the tokenized input with cells trimmed and short rows filled. |
| `Examples.TransformDefaults` | src/MarkdownTableFormat.ts:133-157 | With the defaults, the table is then also widened and padded. |
| `Examples.FormattedTableIsKept` | src/MarkdownTableFormat.spec.ts:10-28 | With every switch off, an input whose lines are between pipes, with trimmed cells and as many cells on every line, is returned unchanged. Escaped pipes are included. |
| `Examples.TokenizeEscapedPipes` | src/MarkdownTableFormat.spec.ts:10-28 | The test suite's first table tokenizes to three rows of two cells, each escaped pipe kept inside its cell, including the one that ends a cell. |
| `Examples.KeptOnSpecTest` | src/MarkdownTableFormat.spec.ts:10-28 | The test suite's first table meets the conditions of `Examples.FormattedTableIsKept`, so with every switch off `format` returns it unchanged. |
| `Examples.FormatEmptyAllOff` | src/MarkdownTableFormat.ts:152-159 | `format("")` with every switch off is two pipes: one row holding one empty cell. |
| `Examples.FormatEmptyDefaults` | src/MarkdownTableFormat.ts:152-159 | `format("")` with the defaults is a pipe, a space and a pipe: the empty cell padded to one space. |
| `Examples.FormatNotIdempotent` | src/MarkdownTableFormat.ts:152-159 | With every switch off there is an input (two lines, a cell ending in a backslash and a space) whose output changes when formatted again. |

## Left out

- The React page (src/App.tsx) is not part of this model: its checkboxes, memoisation and clipboard access are browser I/O. It skips `format` on empty text, and that guard lies outside the formatter.
- The build configuration (webpack.config.js) is not part of this model. It contains no logic.
- Strings are sequences of characters, not UTF-16 code units. `length` and `padEnd` count characters, so text outside the Basic Multilingual Plane is measured differently.
- The JavaScript regular-expression engine is replaced by the predicates `IsSeparatorCell` and `IsDelimiter`. `IsSeparatorCell` is proved to agree with a reference description of its pattern's words. `IsDelimiter` transcribes the look-behind directly. `SplitOn` is proved to be the unique splitting at its positions. The engine itself is not modelled.
- `Text.IsWhitespace` lists the ECMAScript WhiteSpace and LineTerminator characters as a fixed set. Unicode's assignment of further space separators is not tracked.
- The `Transformer` interface and the transformer classes become one datatype of stages with an `Apply` function.
- General idempotence of `format` is not claimed, because it does not hold: `Examples.FormatNotIdempotent` exhibits a counterexample. The fixed point that does hold, for all-off options and already-formatted input, is `Examples.FormattedTableIsKept`.
