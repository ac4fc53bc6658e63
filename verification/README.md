# Editable DSV model

This project models `EditableDSVModel` from jupyterlab-tabular-data-editor. It is
the mutable data model behind the spreadsheet-like editor for CSV/TSV files. The
whole document lives in one raw string: a header row of column labels, then the
body rows. The cells' positions come from the parsed view's offset index. Every
edit is a splice of that string:

- `setData` replaces a cell's text.
- `addRow` and `removeRow` insert or cut a whole row.
- `addColumn` and `removeColumn` insert or cut one cell in every body row, from
  the last row up. They then add or remove a label in the header row and keep
  `colHeaderLength`, the length of the header row with its row delimiter, in step.

Offsets are always read from the view as it stood before the operation: the
re-parse only comes afterwards.

Modules:

- `Text` models the JavaScript string built-ins the source uses: `repeat` and
  `lastIndexOf` with its clamping of the start position.
- `Splice` has cut, insert and replace on a buffer, plus several insertions or
  cuts done from the last position to the first. Each has a left-to-right
  reference reading.
- `Geometry` maps a cell coordinate to offsets (`firstIndex`, `lastIndex`,
  `rowEnd`, `getPreviousCell`, `getNextCell`, `isTrimOperation`,
  `isExtensionOperation`, `blankRow`). The view is a value: row and column counts,
  the two delimiters, and the offset function.
- `Header` holds the header-row splices of `addColumn` and `removeColumn`, both as
  written and corrected.
- `Editor` holds the class `EditableDsvModel`. Its fields are the view, `rawData`,
  `colHeaderLength` and the header list, and its methods modify the last three.

Coordinates are those of the offset index. Index row 0 is the header row, and
body row `r` is index row `r + 1`. Column 0 stands for a whole row, and column
`c >= 1` stands for data column `c - 1`.

## Model

| member | source | states |
|---|---|---|
| Editor.EditableDsvModel.constructor | src/model.ts:7-11 | The model starts from the given view and text, with the given header length. |
| Editor.CellMetadata | src/model.ts:37-43 | Every cell's metadata has type `string`, whatever its region or coordinate. |
| Editor.EditableDsvModel.SliceOut | src/model.ts:180-203 | Cuts the span `SliceSpan` picks and returns it. The returned value, put back at the span's start, rebuilds the old text. |
| Editor.EditableDsvModel.InsertAt | src/model.ts:205-218 | The value goes in at `InsertionIndex`. The text before and after that offset is kept. |
| Editor.EditableDsvModel.SetData | src/model.ts:53-76 | Returns true. The body cell's span, from its first offset to its last (as the stale view places it), is replaced by the value, and that span lies inside the text. |
| Editor.EditableDsvModel.AddRow | src/model.ts:78-93 | For any `row`: a blank row is inserted at the start of body row `row` when `row` is below the row count, and at the text's end otherwise. |
| Editor.EditableDsvModel.RemoveRow | src/model.ts:127-142 | An inner row is cut together with the row delimiter after it. The last row is cut together with the row delimiter before it. |
| Editor.EditableDsvModel.InsertColumnDelimiters | src/model.ts:95-101 | The loop that goes from the last row up gives exactly `InsertAll` at the ascending column offsets, which are read from the stale view. |
| Editor.EditableDsvModel.AddColumn | src/model.ts:95-125 | The new text and header length are `ColumnAdded`, with the corrected header splice, and the letter is appended to the header list. A column index at or past the column count is appended at the end of every row. |
| Editor.EditableDsvModel.SliceOutColumn | src/model.ts:144-149 | The loop that goes from the last row up gives exactly `RemoveAll` of the disjoint column spans read from the stale view. |
| Editor.EditableDsvModel.RemoveColumn | src/model.ts:144-178 | The new text and header length are `ColumnRemoved`, with the corrected header trim. The header list is left unchanged. |
| Editor.ColumnAdded | src/model.ts:95-112 | The header length grows by the delimiter's length plus the letter's length. |
| Editor.ColumnAddedHeader | src/model.ts:104-110 | The header row after the edit is the old header text, then `delimiter + letter`, then the old row delimiter. The new header length covers exactly that. |
| Editor.ColumnAddedLength | src/model.ts:99-110 | The text grows by one delimiter per body row, plus the delimiter and the letter in the header. |
| Editor.ColumnCut | src/model.ts:147-149 | The body cut never lengthens the text. |
| Editor.ColumnCutKeepsHeader | src/model.ts:147-149 | Cutting a column's cells leaves everything before the body untouched. |
| Editor.ColumnRemoved | src/model.ts:144-165 | Removing a column never lengthens the text. |
| Editor.ColumnRemovedHeader | src/model.ts:152-165 | The new header is the old header text up to its last delimiter, followed by the row delimiter. The new header length is that delimiter's index plus the row delimiter's length. |
| Editor.SetDataUndone | src/model.ts:51-61 | For every cell of the table: once the re-parsed view places the cell on the new text, writing the old cell text back restores the document. |
| Editor.RemoveRowUndoesAddRow | src/model.ts:78-142 | A row inserted before an existing body row, removed again once the view is re-parsed, leaves the document as it was. |
| Editor.RemoveRowAfterAppendDropsRowDelimiter | src/model.ts:78-142 | A row appended at the row count and then removed takes the `|rowDelimiter|` characters before it: the document loses its last `|rowDelimiter|` characters, which are its final row delimiter when it ends with one. |
| Editor.RemoveOnlyRowCutsHeaderRowDelimiter | src/model.ts:127-142 | Removing the only body row cuts the row delimiter before it, the header's own, so the text ends before the header length. |
| Editor.RemoveColumnUndoesAddColumn | src/model.ts:95-178 | Removing the column just added restores both the text and the header length. The re-parsed view is given only by its offsets (`ReparsedAfterAdd`), and the cut spans follow from `sliceOut`'s choice. |
| Editor.ReparsedSpans | src/model.ts:144-149 | In the re-parsed view, the span `sliceOut` picks in each body row is exactly the delimiter `addColumn` put there: the inner span for an inner column, the trim span for an appended one. |
| Editor.PiecesAt | src/model.ts:99-110 | The delimiter inserted in body row `k + 1` ends up moved right by the header splice and by the `k` delimiters inserted before it. |
| Editor.ColumnRemovedViaCut | src/model.ts:144-165 | Removing a column is cutting the column's spans and then trimming the header. |
| Editor.CutGrown | src/model.ts:99-110 | Cutting the delimiters `addColumn` put into the body leaves the text with only the header splice. |
| Geometry.RowEnd | src/model.ts:251-258 | A row ends one row delimiter before the next row starts, and the last row ends with the text. Its bounds are `RowWithin` and `RowEndsAscend`. |
| Geometry.FirstIndex | src/model.ts:236-239 | A cell starts at the offset of the column before it, and a whole row (column 0) at its first cell. Its bounds are `CellWithin`. |
| Geometry.LastIndex | src/model.ts:241-249 | An inner cell ends one delimiter before the next cell starts, and the last cell or a whole row ends with the row. Its bounds are `CellWithin`. |
| Geometry.IsTrimOperation | src/model.ts:260-265 | The last column, or the whole last row. |
| Geometry.IsExtensionOperation | src/model.ts:268-273 | A column past the column count or a row past the row count. `InsertBeforeInside` shows no cell of the table is one. |
| Geometry.PreviousCell | src/model.ts:275-289 | The cell before in row-major order, never above row 0. Its partner is `NextOfPrevious`. |
| Geometry.NextCell | src/model.ts:291-306 | The cell after in row-major order, never past the last row. Its partner is `PreviousOfNext`. |
| Geometry.SliceSpan | src/model.ts:187-198 | The cell alone when it is kept, from the previous cell's end for a trim, and up to the next cell's start otherwise. `SliceSpanWithin` shows it lies inside the text. |
| Geometry.InsertionIndex | src/model.ts:206-213 | After the previous cell for an extension, and at the cell's start otherwise. `InsertionIndexWithin` shows it lies inside the text. |
| Geometry.BlankRow | src/model.ts:219-230 | The blank row is exactly `Repeat(delimiter, columns - 1)` with the row delimiter in front when `row` is past the row count, and behind it otherwise. |
| Geometry.InsertBeforeInside | src/model.ts:205-213 | Inside the table nothing is an extension, so text goes in at the cell's first offset. |
| Geometry.NeighboursStayInTable | src/model.ts:275-306 | The previous cell is never below the given row, and the next cell's row is at most one further and never past the last row. A data cell's previous and next cells are data cells. |
| Geometry.PreviousOfNext | src/model.ts:275-306 | `getPreviousCell` undoes `getNextCell` on every data cell except the very last one. |
| Geometry.NextOfPrevious | src/model.ts:275-306 | `getNextCell` undoes `getPreviousCell` on every data cell except the very first one. |
| Geometry.RowWithin | src/model.ts:251-258 | A row's cells start inside the text, and its end (before its row delimiter, or the text's end for the last row) is at most the text length. |
| Geometry.RowOffsetsAscend | src/model.ts:236-249 | A row's cells start in ascending order, at least a delimiter apart. |
| Geometry.RowEndsAscend | src/model.ts:251-258 | Row ends ascend. |
| Geometry.CellWithin | src/model.ts:236-249 | Every cell of the table has `0 <= firstIndex <= lastIndex <= length`. |
| Geometry.SliceSpanWithin | src/model.ts:180-198 | Every span `sliceOut` can cut lies inside the text, with its start before its end. |
| Geometry.InsertionIndexWithin | src/model.ts:205-213 | Insertion offsets lie inside the text, for cells in the table, one column past it, and column 0 or 1 of the row past it. |
| Geometry.RemoveRowSpan | src/model.ts:127-129 | Names the exact span `removeRow` cuts. |
| Geometry.AddRowIndex | src/model.ts:78-81 | For any row: `addRow` inserts at the start of body row `row`, or at the text's end when `row` is the row count or more. |
| Geometry.ColumnSpan | src/model.ts:147-149 | An inner column is cut with the delimiter after it, and the last column with the delimiter before it. The cut stays within its own row. |
| Geometry.ColumnSpansDisjoint | src/model.ts:147-149 | The spans of all the rows are disjoint and ascend, and the first one starts in the body. |
| Geometry.ColumnInsertion | src/model.ts:99-101 | For any column from 1: a row's insertion offset is the cell before the column, or the row's end past the last column. It lies between the row's start and its end. |
| Geometry.ColumnInsertionsAscend | src/model.ts:99-101 | The insertion offsets ascend inside the text, and the first one lies in the body. |
| Geometry.ColumnStep | src/model.ts:99-101 | The stale view locates row `row` as it did before the edit, because only rows below it have changed. |
| Header.AddHeaderLabel | src/model.ts:104-110 | `delimiter + letter` goes in before the header's row delimiter. The header length grows by exactly that much, and the body is untouched. |
| Header.AddHeaderLabelSeesHeader | src/model.ts:104-110 | The header splice depends only on the header part of the text. |
| Header.AddHeaderLabelAsWritten | src/model.ts:104-110 | The source's splice, one character before the header length. |
| Header.TrimHeaderLabel | src/model.ts:152-165 | Cuts from the last delimiter that lies wholly inside the header text, and restores the row delimiter. The new header length is that index plus the row delimiter's length, and the body is kept. |
| Header.TrimHeaderLabelSeesHeader | src/model.ts:152-165 | The trim depends only on the header part of the text. |
| Header.TrimHeaderLabelAsWritten | src/model.ts:152-165 | The source's trim, which searches from the header length inclusive and subtracts `sliced - 1`. |
| Header.TrimUndoesAdd | src/model.ts:104-110 | The trim finds the inserted delimiter and restores both the text and the header length exactly. This holds when the header ends with its row delimiter and no delimiter starts inside the letter. |
| Header.AddAgreesForSingleCharRowDelimiter | src/model.ts:104-110 | With a one-character row delimiter, the source's splice equals the corrected one. |
| Header.TrimAgreesForSingleCharRowDelimiter | src/model.ts:152-165 | With a one-character row delimiter, no delimiter in the header's last `|delimiter|` characters and none at the start of the body, the source's trim equals the corrected one. |
| Header.EmptyFirstCellDefeatsTrim | src/model.ts:152-165 | The counterexample to the as-written trim when the first body cell is empty. |
| Header.CrLfSplitByAddedLabel | src/model.ts:104-108 | The counterexample to the as-written splice with the row delimiter `\r\n`. |
| Header.CrLfHeaderLengthShort | src/model.ts:164-165 | The counterexample to the as-written header length with the row delimiter `\r\n`. |
| Text.Repeat | src/model.ts:224 | `s.repeat(k)` has `k` times the length of `s`, and it holds only characters of `s`. |
| Text.RepeatContents | src/model.ts:224 | Character `i` of `s.repeat(k)` is character `i mod |s|` of `s`: the result is `k` copies of `s` in order. |
| Text.LastIndexOf | src/model.ts:152-155 | `lastIndexOf` returns -1 or an index at most `from` (at most 0 when `from` is negative). |
| Text.LastIndexOfFinds | src/model.ts:152-155 | The index found is an occurrence. |
| Text.LastIndexOfIsLast | src/model.ts:152-155 | No occurrence lies between the index found and the start. |
| Text.LastIndexOfPrefix | src/model.ts:152-155 | The search reads only the text below the start plus the pattern's length. |
| Splice.Replace | src/model.ts:60-61 | A replacement is a cut followed by an insertion at the cut's start, and the length changes by the new text's length minus the span's. |
| Splice.Cut | src/model.ts:199-201 | The text around the span is kept, and the cut text put back rebuilds the buffer. |
| Splice.Insert | src/model.ts:214-217 | The inserted text lies at the offset, and the text before and after it is kept. |
| Splice.ReplaceUndo | src/model.ts:60-61 | Replacing the new text by the old one restores the buffer. |
| Splice.CutUndoesInsert | src/model.ts:81 | Cutting out what was just inserted restores the buffer. |
| Splice.InsertAllIsWeave | src/model.ts:99-101 | Inserting from the last offset to the first gives the same text as weaving `t` between the pieces from left to right. |
| Splice.InsertAllLength | src/model.ts:99-101 | Each insertion adds one copy of `t`. |
| Splice.RemoveAllIsKeep | src/model.ts:147-149 | Cutting from the last span to the first leaves exactly the kept pieces between the spans. |
| Splice.InsertAll | src/model.ts:99-101 | Inserting from the last offset to the first never shortens the text and keeps the text before the first offset. Its contents are `InsertAllIsWeave` and its length `InsertAllLength`. |
| Splice.RemoveAll | src/model.ts:147-149 | The text shrinks by the spans' total width, and the text before the first span is kept. |
| Splice.InsertedDisjoint | src/model.ts:99-101 | The copies `InsertAll` puts in lie inside the grown text, in order and apart. |
| Splice.RemoveAllUndoesInsertAll | src/model.ts:95-149 | Cutting out every copy the insertions put in gives the text back. |
| Splice.RemoveAllInsertCommute | src/model.ts:99-110 | Cutting spans that lie after an insertion point commutes with that insertion. |
| Splice.RemoveAllAfterInsertions | src/model.ts:95-149 | After the body insertions and an insertion before them, cutting the body copies leaves only the earlier insertion. |

## Left out

- Parsing is not part of this model. That covers `DSVModel`, its `parseAsync`, `getOffsetIndex`, `rowCount`, `columnCount` and `data`. The parsed view is a value with counts, delimiters and an offset function that obeys `WellFormed`. So `rowCount`, `columnCount` and `data` (src/model.ts:29-47) are not modelled as delegations.
- The undo lemmas (`SetDataUndone`, `RemoveRowUndoesAddRow`, `RemoveColumnUndoesAddColumn`) take the re-parsed view's offsets as hypotheses, because the parser is not modelled.
- Editor.RemoveRowUndoesAddRow: covers a row inserted before an existing body row. Appending at the row count does not round trip: `RemoveRowAfterAppendDropsRowDelimiter` shows the last row delimiter is lost.
- Editor.RemoveColumnUndoesAddColumn: needs the following. The re-parsed view has the same rows and one more column, and each new cell sits on the delimiter inserted in its row (`ReparsedAfterAdd`, stated on offsets). Removing the column is allowed on the re-parsed view (`CanRemoveColumn`), so the column index is at most the old column count. The header ends with its row delimiter. No delimiter starts inside `delimiter + letter` after its first character.
- Offsets and lengths are counted in whatever unit the offset index uses. JavaScript counts UTF-16 code units while a Dafny `char` is a Unicode scalar value, and the model does not relate the two.
- Change notifications (`emitChanged`, `onChangedSignal`) are left out. They carry no state of the model.
- `numberToCharacter` (./_helper) is not part of this model. `AddColumn` takes the new label as a parameter.
- Editor.EditableDsvModel.SetData: the row and column must lie inside the table. Outside it, the source reads offsets the parser does not define. The `value: any` of the source is a string here.
- Editor.EditableDsvModel.RemoveColumn: needs at least two columns and a delimiter inside the header text. With one column, each row's cut takes the row delimiter before it, and for the first body row that is the header's own. The header is then left without a delimiter, so `lastIndexOf` returns -1.
- `removeRow` on the only body row leaves `colHeaderLength` past the end of the text, as `RemoveOnlyRowCutsHeaderRowDelimiter` shows. The model keeps that behaviour: the source does not say what the header length should become.
- Editor.EditableDsvModel.RemoveColumn: like the source, it does not update the header list. Only `addColumn` pushes a label.
- JavaScript `slice` with negative or out-of-range arguments is not modelled. Every splice offset is proved to lie inside the text instead.
- Text.Repeat: `repeat` of a negative count throws in JavaScript. The count is a `nat` here, and `BlankRow` requires at least one column.

## Findings

| source | as written | input that shows it | evidently intended | confidence | as-written member | corrected member |
|---|---|---|---|---|---|---|
| src/model.ts:152-155 | `lastIndexOf(delimiter, colHeaderLength)` searches from the header length inclusive, i.e. from the first character of the body | text "A,B,C\n,x\n,p" after the body cuts, header length 6: it finds the body's leading delimiter at 6, keeps the header, inserts an empty line and sets the header length to 7 | cut the header's last label: "A,B\n,x\n,p", header length 4 | high (not executed) | Header.EmptyFirstCellDefeatsTrim | Header.TrimHeaderLabel |
| src/model.ts:104-108 | the label goes in at `colHeaderLength - 1`, one character before the body | header "A\r\n" (CRLF row delimiter) with letter "B": gives "A\r,B\n" | put `,B` in before the whole row delimiter: "A,B\r\n" | high (not executed) | Header.CrLfSplitByAddedLabel | Header.AddHeaderLabel |
| src/model.ts:164-165 | `colHeaderLength -= slicedHeader.length - 1` presumes a one-character row delimiter | header "A,B\r\n", length 5: the new length is 2, which ends inside "\r\n" | new length is the delimiter's index plus the row delimiter's length: 3 | high (not executed) | Header.CrLfHeaderLengthShort | Header.TrimHeaderLabel |
