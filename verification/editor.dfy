/**
 * The editable DSV model: edits a delimiter-separated document by splicing its
 * single raw text in place, reading cell positions off the parsed view's
 * offset index, and keeps the length of the header region in step when
 * columns come and go.
 */
module Editor {
  import opened Text
  import opened Splice
  import opened Geometry
  import opened Header

  /** The grid regions a cell can belong to. */
  datatype CellRegion = Body | RowHeader | ColumnHeader | CornerHeader

  /** Metadata of a cell, as the grid asks for it. */
  datatype Metadata = Metadata(kind: string)

  /** Every cell, whatever its region or coordinate, is plain text. */
  function CellMetadata(region: CellRegion, row: int, column: int): (m: Metadata)
    ensures m.kind == "string"
  {
    Metadata("string")
  }

  class EditableDsvModel {
    /** The parsed view's counts, delimiters and offset index, as of its last parse. */
    var view: View
    /** The whole document: header row, then body rows. */
    var rawData: string
    /** Length of the header row's text and its row delimiter at the start of `rawData`. */
    var colHeaderLength: int
    /** The parsed view's list of header labels. */
    var header: seq<string>

    constructor (view: View, rawData: string, headerLength: int, header: seq<string>)
      ensures this.view == view && this.rawData == rawData
      ensures colHeaderLength == headerLength && this.header == header
    {
      this.view := view;
      this.rawData := rawData;
      this.colHeaderLength := headerLength;
      this.header := header;
    }

    /**
     * Cuts a span out of the text and returns it: the cell alone when it is
     * kept, otherwise the cell with the delimiter before it (at a row's or the
     * table's end) or after it.
     */
    method SliceOut(cell: Coords, keepingCell: bool) returns (value: string)
      requires Within(SliceSpan(view, |rawData|, cell, keepingCell), |rawData|)
      modifies this`rawData
      ensures var sp := SliceSpan(view, old(|rawData|), cell, keepingCell);
        value == old(rawData)[sp.start..sp.end] && rawData == Cut(old(rawData), sp)
      ensures rawData[..SliceSpan(view, old(|rawData|), cell, keepingCell).start] + value +
        rawData[SliceSpan(view, old(|rawData|), cell, keepingCell).start..] == old(rawData)
    {
      var sliceStart: int;
      var sliceEnd: int;
      if keepingCell {
        sliceStart := FirstIndex(view, cell);
        sliceEnd := LastIndex(view, |rawData|, cell);
      } else if IsTrimOperation(view, cell) {
        var prevCell := PreviousCell(view, cell);
        sliceStart := LastIndex(view, |rawData|, prevCell);
        sliceEnd := LastIndex(view, |rawData|, cell);
      } else {
        sliceStart := FirstIndex(view, cell);
        sliceEnd := FirstIndex(view, NextCell(view, cell));
      }
      value := rawData[sliceStart..sliceEnd];
      rawData := rawData[..sliceStart] + rawData[sliceEnd..];
    }

    /** Puts `value` in before the cell, or after the previous cell when the cell lies past the table. */
    method InsertAt(value: string, cell: Coords)
      requires 0 <= InsertionIndex(view, |rawData|, cell) <= |rawData|
      modifies this`rawData
      ensures rawData == Insert(old(rawData), InsertionIndex(view, old(|rawData|), cell), value)
    {
      var insertionIndex: int;
      if IsExtensionOperation(view, cell) {
        var prevCell := PreviousCell(view, cell);
        insertionIndex := LastIndex(view, |rawData|, prevCell);
      } else {
        insertionIndex := FirstIndex(view, cell);
      }
      rawData := rawData[..insertionIndex] + value + rawData[insertionIndex..];
    }

    /**
     * Replaces the text of body cell (`row`, `column`) by `value`; the cell's
     * bounds are those of the view before the edit, and the text around the
     * cell is kept.
     */
    method SetData(row: nat, column: nat, value: string) returns (ok: bool)
      requires WellFormed(view, |rawData|) && row < view.rows && column < view.columns
      modifies this`rawData
      ensures ok
      ensures var first := view.offset(row + 1, column);
        var last := LastIndex(view, old(|rawData|), Coords(row + 1, column + 1));
        0 <= first <= last <= old(|rawData|) &&
        rawData == Replace(old(rawData), Span(first, last), value)
    {
      var cell := Coords(row + 1, column + 1);
      SliceSpanWithin(view, |rawData|, cell, true);
      var _ := SliceOut(cell, true);
      InsertAt(value, cell);
      ok := true;
    }

    /**
     * Inserts an empty row before body row `row`, or appends it at the end of
     * the text when `row` is the row count or more.
     */
    method AddRow(row: nat)
      requires WellFormed(view, |rawData|)
      modifies this`rawData
      ensures var at := if row < view.rows then view.offset(row + 1, 0) else old(|rawData|);
        0 <= at <= old(|rawData|) &&
        rawData == Insert(old(rawData), at, BlankRow(view, row))
    {
      AddRowIndex(view, |rawData|, row);
      var newRow := BlankRow(view, row);
      InsertAt(newRow, Coords(row + 1, 0));
    }

    /**
     * Removes body row `row` with the row delimiter after it; the last row goes
     * with the row delimiter before it.
     */
    method RemoveRow(row: nat)
      requires WellFormed(view, |rawData|) && row < view.rows
      modifies this`rawData
      ensures row + 1 < view.rows ==>
        0 <= view.offset(row + 1, 0) <= view.offset(row + 2, 0) <= old(|rawData|) &&
        rawData == old(rawData)[..view.offset(row + 1, 0)] + old(rawData)[view.offset(row + 2, 0)..]
      ensures row + 1 == view.rows ==>
        0 <= view.offset(row + 1, 0) - |view.rowDelimiter| <= old(|rawData|) &&
        rawData == old(rawData)[..view.offset(row + 1, 0) - |view.rowDelimiter|]
    {
      RemoveRowSpan(view, |rawData|, row);
      var _ := SliceOut(Coords(row + 1, 0), false);
    }

    /**
     * A delimiter goes in at column `column` (counted from 1) of every body
     * row, from the last row up, so that the stale offsets of the rows still
     * to do stay right.
     */
    method InsertColumnDelimiters(column: nat)
      requires WellFormed(view, |rawData|) && 1 <= column
      modifies this`rawData
      ensures Ascending(ColumnInsertions(view, old(|rawData|), column), old(|rawData|))
      ensures rawData == InsertAll(old(rawData), ColumnInsertions(view, old(|rawData|), column), view.delimiter)
    {
      ghost var raw0 := rawData;
      ghost var n0 := |rawData|;
      ghost var ps := ColumnInsertions(view, n0, column);
      ColumnInsertionsAscend(view, n0, column);
      var row: nat := view.rows;
      while row > 0
        invariant row <= view.rows && (row == view.rows ==> |rawData| == n0)
        invariant Ascending(ps[row..], n0)
        invariant rawData == InsertAll(raw0, ps[row..], view.delimiter)
        modifies this`rawData
      {
        var cell := Coords(row, column);
        ColumnStep(view, n0, |rawData|, row, column);
        InsertAllStep(raw0, ps, view.delimiter, row - 1);
        InsertAt(view.delimiter, cell);
        row := row - 1;
      }
      assert ps[0..] == ps;
    }

    /**
     * Adds a column before data column `column` (after the last one when
     * `column` is the column count or more): a delimiter goes into every body row,
     * from the last row up, and `delimiter + letter` goes into the header row
     * before its row delimiter. The header length grows by exactly that
     * much and `letter` is appended to the header list. `letter` is the label
     * the source derives from the column count.
     */
    method AddColumn(column: nat, letter: string)
      requires CanAddColumn(view, rawData, colHeaderLength, column)
      modifies this`rawData, this`colHeaderLength, this`header
      ensures HeaderEdit(rawData, colHeaderLength) ==
        ColumnAdded(view, old(rawData), old(colHeaderLength), column, letter)
      ensures header == old(header) + [letter]
    {
      InsertColumnDelimiters(column + 1);
      var edit := AddHeaderLabel(rawData, view.delimiter, view.rowDelimiter, colHeaderLength, letter);
      rawData, colHeaderLength := edit.text, edit.headerLength;
      header := header + [letter];
    }

    /**
     * Every body row, from the last row up, loses its cell at column `column`
     * (counted from 1) with one neighbouring delimiter.
     */
    method SliceOutColumn(column: nat)
      requires WellFormed(view, |rawData|) && 1 <= column <= view.columns && view.columns >= 2
      requires BodyStart(view, |rawData|) <= |rawData|
      modifies this`rawData
      ensures rawData == ColumnCut(view, old(rawData), column)
    {
      ghost var raw0 := rawData;
      ghost var n0 := |rawData|;
      ghost var sps := ColumnSpans(view, n0, column);
      ColumnSpansDisjoint(view, n0, column);
      var row: nat := view.rows;
      while row > 0
        invariant row <= view.rows && (row == view.rows ==> |rawData| == n0)
        invariant Disjoint(sps[row..], n0)
        invariant rawData == RemoveAll(raw0, sps[row..])
        modifies this`rawData
      {
        var cell := Coords(row, column);
        ColumnStep(view, n0, |rawData|, row, column);
        RemoveAllStep(raw0, sps, row - 1);
        var _ := SliceOut(cell, false);
        row := row - 1;
      }
      assert sps[0..] == sps;
    }

    /**
     * Removes data column `column`: every body row, from the last row up,
     * loses the column's cell with one neighbouring delimiter; then the header
     * row loses its last label. The header list itself is left as it was.
     */
    method RemoveColumn(column: nat)
      requires CanRemoveColumn(view, rawData, colHeaderLength, column)
      modifies this`rawData, this`colHeaderLength
      ensures HeaderEdit(rawData, colHeaderLength) == ColumnRemoved(view, old(rawData), old(colHeaderLength), column)
    {
      var v, headerLength := view, colHeaderLength;
      ghost var raw0 := rawData;
      ColumnRemovedAt(v, raw0, headerLength, column);
      SliceOutColumn(column + 1);
      var edit := TrimHeaderLabel(rawData, v.delimiter, v.rowDelimiter, headerLength);
      rawData, colHeaderLength := edit.text, edit.headerLength;
    }
  }

  // ---------------------------------------------------------------------------
  // The header edit after the body edit

  /**
   * What adding a column needs: a well-formed view and a header length that
   * covers the header row's delimiter and stops at the body. A column index
   * at or past the column count is appended at the end of every row.
   */
  predicate CanAddColumn(v: View, raw: string, headerLength: int, column: nat) {
    WellFormed(v, |raw|) &&
    |v.rowDelimiter| <= headerLength <= BodyStart(v, |raw|) <= |raw|
  }

  /**
   * The document after adding a column before data column `column`: one
   * delimiter in every body row at that column, then `delimiter + letter`
   * before the header's row delimiter.
   */
  function ColumnAdded(v: View, raw: string, headerLength: int, column: nat, letter: string): (e: HeaderEdit)
    requires CanAddColumn(v, raw, headerLength, column)
    ensures e.headerLength == headerLength + |v.delimiter| + |letter|
  {
    ColumnInsertionsAscend(v, |raw|, column + 1);
    var body := InsertAll(raw, ColumnInsertions(v, |raw|, column + 1), v.delimiter);
    AddHeaderLabel(body, v.delimiter, v.rowDelimiter, headerLength, letter)
  }

  /**
   * What removing a column needs: a well-formed view of at least two columns,
   * a header length that covers a delimiter and the row delimiter and stops
   * at the body, and a delimiter inside the header text.
   */
  predicate CanRemoveColumn(v: View, raw: string, headerLength: int, column: nat) {
    WellFormed(v, |raw|) && column < v.columns && v.columns >= 2 &&
    headerLength <= BodyStart(v, |raw|) <= |raw| &&
    CanTrimHeader(raw, v.delimiter, v.rowDelimiter, headerLength)
  }

  /**
   * The document after removing data column `column`: every body row loses
   * that cell with one delimiter, then the header loses its last label.
   */
  function ColumnRemoved(v: View, raw: string, headerLength: int, column: nat): (e: HeaderEdit)
    requires CanRemoveColumn(v, raw, headerLength, column)
    ensures |e.text| <= |raw|
  {
    var body := ColumnCut(v, raw, column + 1);
    ColumnCutKeepsHeader(v, raw, column + 1, headerLength);
    LastIndexOfPrefix(body, raw, v.delimiter, headerLength - |v.rowDelimiter| - |v.delimiter|, headerLength);
    TrimHeaderLabel(body, v.delimiter, v.rowDelimiter, headerLength)
  }

  /**
   * The body after every body row loses its cell at column `column` (counted
   * from 1) together with one neighbouring delimiter, the last row first.
   */
  function ColumnCut(v: View, raw: string, column: nat): (body: string)
    requires WellFormed(v, |raw|) && 1 <= column <= v.columns && v.columns >= 2
    requires BodyStart(v, |raw|) <= |raw|
    ensures |body| <= |raw|
  {
    ColumnSpansDisjoint(v, |raw|, column);
    RemoveAll(raw, ColumnSpans(v, |raw|, column))
  }

  /** Cutting a column leaves the text before the body, the header row, as it was. */
  lemma ColumnCutKeepsHeader(v: View, raw: string, column: nat, m: int)
    requires WellFormed(v, |raw|) && 1 <= column <= v.columns && v.columns >= 2
    requires 0 <= m <= BodyStart(v, |raw|) <= |raw|
    ensures var body := ColumnCut(v, raw, column);
      m <= |body| && body[..m] == raw[..m]
  {
    ColumnSpansDisjoint(v, |raw|, column);
    RemoveAllKeepsPrefix(raw, ColumnSpans(v, |raw|, column), m);
  }

  /** The column removal spelled out: the body edit, then the header trim on its result. */
  lemma ColumnRemovedAt(v: View, raw: string, headerLength: int, column: nat)
    requires CanRemoveColumn(v, raw, headerLength, column)
    ensures var body := ColumnCut(v, raw, column + 1);
      CanTrimHeader(body, v.delimiter, v.rowDelimiter, headerLength) &&
      ColumnRemoved(v, raw, headerLength, column) == TrimHeaderLabel(body, v.delimiter, v.rowDelimiter, headerLength)
  {
    ColumnCutKeepsHeader(v, raw, column + 1, headerLength);
    LastIndexOfPrefix(ColumnCut(v, raw, column + 1), raw, v.delimiter, headerLength - |v.rowDelimiter| - |v.delimiter|, headerLength);
  }

  /**
   * Adding a column puts `delimiter + letter` just before the header's row
   * delimiter, leaves the rest of the header text as it was and keeps the
   * header length exactly the header's extent.
   */
  lemma ColumnAddedHeader(v: View, raw: string, headerLength: int, column: nat, letter: string)
    requires CanAddColumn(v, raw, headerLength, column)
    ensures var e := ColumnAdded(v, raw, headerLength, column, letter);
      e.text[..e.headerLength] ==
        raw[..headerLength - |v.rowDelimiter|] + v.delimiter + letter + raw[headerLength - |v.rowDelimiter|..headerLength]
  {
    var ps := ColumnInsertions(v, |raw|, column + 1);
    ColumnInsertionsAscend(v, |raw|, column + 1);
    InsertAllKeepsPrefix(raw, ps, v.delimiter, headerLength);
    AddHeaderLabelSeesHeader(InsertAll(raw, ps, v.delimiter), raw, v.delimiter, v.rowDelimiter, headerLength, letter);
  }

  /** Adding a column adds one delimiter per row, the header's included, and the letter. */
  lemma ColumnAddedLength(v: View, raw: string, headerLength: int, column: nat, letter: string)
    requires CanAddColumn(v, raw, headerLength, column)
    ensures |ColumnAdded(v, raw, headerLength, column, letter).text| ==
      |raw| + v.rows * |v.delimiter| + |v.delimiter| + |letter|
  {
    var ps := ColumnInsertions(v, |raw|, column + 1);
    ColumnInsertionsAscend(v, |raw|, column + 1);
    InsertAllLength(raw, ps, v.delimiter);
    assert |ps| == v.rows;
  }

  /**
   * Removing a column cuts the header from its last delimiter inside the header
   * text, which is the one in the text before the edit, and puts the row
   * delimiter back: the header length becomes that delimiter's index plus the
   * row delimiter's length.
   */
  lemma ColumnRemovedHeader(v: View, raw: string, headerLength: int, column: nat)
    requires CanRemoveColumn(v, raw, headerLength, column)
    ensures var e := ColumnRemoved(v, raw, headerLength, column);
      var h := LastIndexOf(raw, v.delimiter, headerLength - |v.rowDelimiter| - |v.delimiter|);
      e.headerLength == h + |v.rowDelimiter| && e.text[..e.headerLength] == raw[..h] + v.rowDelimiter
  {
    ColumnCutKeepsHeader(v, raw, column + 1, headerLength);
    TrimHeaderLabelSeesHeader(raw, ColumnCut(v, raw, column + 1), v.delimiter, v.rowDelimiter, headerLength);
  }

  // ---------------------------------------------------------------------------
  // Undoing edits once the view has been re-parsed

  /** The column cut is the cut of whatever spans the view gives the column. */
  lemma ColumnCutIs(v: View, raw: string, column: nat, sps: seq<Span>)
    requires WellFormed(v, |raw|) && 1 <= column <= v.columns && v.columns >= 2
    requires BodyStart(v, |raw|) <= |raw|
    requires ColumnSpans(v, |raw|, column) == sps
    ensures Disjoint(sps, |raw|) && ColumnCut(v, raw, column) == RemoveAll(raw, sps)
  {
    ColumnSpansDisjoint(v, |raw|, column);
  }

  /**
   * Removing the column just added restores the document and the header
   * length, given the re-parsed view has the new column's cells on the
   * delimiters just inserted (`ReparsedAfterAdd`) and allows the removal, the
   * header ends with its row delimiter and no delimiter starts inside the new
   * label.
   */
  lemma RemoveColumnUndoesAddColumn(v: View, raw: string, headerLength: int, column: nat, letter: string, v1: View)
    requires CanAddColumn(v, raw, headerLength, column)
    requires raw[headerLength - |v.rowDelimiter|..headerLength] == v.rowDelimiter
    requires forall j :: 0 < j <= |letter| ==> !Occurs(v.delimiter + letter, v.delimiter, j)
    requires ReparsedAfterAdd(v, |raw|, column, letter, v1)
    requires var e := ColumnAdded(v, raw, headerLength, column, letter);
      CanRemoveColumn(v1, e.text, e.headerLength, column)
    ensures var e := ColumnAdded(v, raw, headerLength, column, letter);
      ColumnRemoved(v1, e.text, e.headerLength, column) == HeaderEdit(raw, headerLength)
  {
    var ps := ColumnInsertions(v, |raw|, column + 1);
    var e := ColumnAdded(v, raw, headerLength, column, letter);
    ColumnAddedLength(v, raw, headerLength, column, letter);
    ReparsedSpans(v, |raw|, column, letter, v1, |e.text|);
    assert ReparsedAt(v1, e, column, ps, letter);
    ColumnAddedFacts(v, raw, headerLength, column, letter);
    ColumnRoundTrip(v1, raw, headerLength, letter, ps, column);
  }

  /**
   * The view `v1` re-parsed from the text after column `column` was added to a
   * text of length `n` that `v` describes: the same rows, one more column, the
   * same delimiters, and in every body row the new cell sits on the delimiter
   * inserted there, which all earlier insertions have moved right.
   */
  predicate ReparsedAfterAdd(v: View, n: int, column: nat, letter: string, v1: View) {
    var ps := ColumnInsertions(v, n, column + 1);
    v1.rows == v.rows && v1.columns == v.columns + 1 &&
    v1.delimiter == v.delimiter && v1.rowDelimiter == v.rowDelimiter &&
    forall k: nat :: k < |ps| ==> NewCellAt(v, v1, k, column, ps[k] + |v.delimiter| + |letter| + k * |v.delimiter|)
  }

  /**
   * Body row `k + 1` of `v1` has the inserted delimiter at `s`. For an inner
   * column the new, empty cell starts at `s` and the old cell one delimiter
   * later; for a column appended at the row's end the new cell starts one
   * delimiter after `s` and the row ends there.
   */
  predicate NewCellAt(v: View, v1: View, k: nat, column: nat, s: int) {
    if column < v.columns then
      v1.offset(k + 1, column) == s && v1.offset(k + 1, column + 1) == s + |v.delimiter|
    else
      v1.offset(k + 1, column) == s + |v.delimiter| &&
      (k + 1 < v.rows ==> v1.offset(k + 2, 0) - |v.rowDelimiter| == s + |v.delimiter|)
  }

  /** In the re-parsed view, the spans `removeColumn` cuts are exactly the delimiters `addColumn` inserted. */
  lemma ReparsedSpans(v: View, n: int, column: nat, letter: string, v1: View, n1: int)
    requires WellFormed(v, n) && ReparsedAfterAdd(v, n, column, letter, v1)
    requires WellFormed(v1, n1) && column < v1.columns
    requires n1 == n + v.rows * |v.delimiter| + |v.delimiter| + |letter|
    ensures ColumnSpans(v1, n1, column + 1) == Pieces(ColumnInsertions(v, n, column + 1), v.delimiter, letter)
  {
    var sps := ColumnSpans(v1, n1, column + 1);
    var pieces := Pieces(ColumnInsertions(v, n, column + 1), v.delimiter, letter);
    forall k: nat | k < |sps|
      ensures sps[k] == pieces[k]
    {
      ReparsedRow(v, n, column, letter, v1, n1, k);
    }
  }

  /** `ReparsedSpans` for body row `k + 1`. */
  lemma ReparsedRow(v: View, n: int, column: nat, letter: string, v1: View, n1: int, k: nat)
    requires WellFormed(v, n) && ReparsedAfterAdd(v, n, column, letter, v1)
    requires WellFormed(v1, n1) && column < v1.columns && k < v.rows
    requires n1 == n + v.rows * |v.delimiter| + |v.delimiter| + |letter|
    ensures ColumnSpans(v1, n1, column + 1)[k] == Pieces(ColumnInsertions(v, n, column + 1), v.delimiter, letter)[k]
  {
    var ps := ColumnInsertions(v, n, column + 1);
    var s := ps[k] + |v.delimiter| + |letter| + k * |v.delimiter|;
    assert NewCellAt(v, v1, k, column, s);
    if column == v.columns && k + 1 == v.rows {
      LastPieceEndsText(v, n, column, letter, n1);
    }
    PiecesAt(ps, v.delimiter, letter, k);
    ReparsedSpan(v, v1, n1, column, k, s);
  }

  /** A column appended at the row ends: the last row's inserted delimiter ends the grown text. */
  lemma LastPieceEndsText(v: View, n: int, column: nat, letter: string, n1: int)
    requires WellFormed(v, n) && column == v.columns && v.rows >= 1
    requires n1 == n + v.rows * |v.delimiter| + |v.delimiter| + |letter|
    ensures ColumnInsertions(v, n, column + 1)[v.rows - 1] + |v.delimiter| + |letter| +
      (v.rows - 1) * |v.delimiter| + |v.delimiter| == n1
  {
    ColumnInsertion(v, n, v.rows, column + 1);
    assert (v.rows - 1) * |v.delimiter| + |v.delimiter| == v.rows * |v.delimiter|;
  }

  /** Piece `k` is the delimiter inserted at `ps[k]`, moved right by the header splice and the `k` pieces before it. */
  lemma PiecesAt(ps: seq<int>, delimiter: string, letter: string, k: nat)
    requires k < |ps|
    ensures var s := ps[k] + |delimiter| + |letter| + k * |delimiter|;
      |Pieces(ps, delimiter, letter)| == |ps| && Pieces(ps, delimiter, letter)[k] == Span(s, s + |delimiter|)
  {
    InsertedAt(ps, |delimiter|, |delimiter| + |letter|, k);
  }

  /**
   * Body row `k + 1` of the re-parsed view, whose inserted delimiter lies at
   * `s`: `removeColumn` cuts exactly that delimiter.
   */
  lemma ReparsedSpan(v: View, v1: View, n1: int, column: nat, k: nat, s: int)
    requires WellFormed(v1, n1) && v1.rows == v.rows && v1.columns == v.columns + 1 && v.columns >= 1
    requires v1.delimiter == v.delimiter && v1.rowDelimiter == v.rowDelimiter
    requires column < v1.columns && k < v.rows && NewCellAt(v, v1, k, column, s)
    requires column == v.columns && k + 1 == v.rows ==> n1 == s + |v.delimiter|
    ensures SliceSpan(v1, n1, Coords(k + 1, column + 1), false) == Span(s, s + |v.delimiter|)
  {
    ColumnSpan(v1, n1, k + 1, column + 1);
  }

  /**
   * The view `v` read off the edited text `e` has a removable column `column`
   * whose cells are the delimiters inserted at the points `ps`, each moved
   * right by the header splice and by the delimiters inserted before it.
   */
  predicate ReparsedAt(v: View, e: HeaderEdit, column: nat, ps: seq<int>, letter: string) {
    CanRemoveColumn(v, e.text, e.headerLength, column) &&
    ColumnSpans(v, |e.text|, column + 1) == Pieces(ps, v.delimiter, letter)
  }

  /**
   * The spans of the delimiters inserted at the ascending points `ps` once the
   * header has grown by `delimiter + letter`.
   */
  function Pieces(ps: seq<int>, delimiter: string, letter: string): seq<Span> {
    Inserted(ps, |delimiter|, |delimiter| + |letter|)
  }

  /**
   * `raw` with `delimiter` inserted at the ascending points `ps` after the
   * header and `delimiter + letter` inserted before the header's row
   * delimiter, with the grown header length.
   */
  function Grown(raw: string, delimiter: string, rowDelimiter: string, headerLength: int, letter: string,
                 ps: seq<int>): (e: HeaderEdit)
    requires GrowsAt(raw, rowDelimiter, headerLength, ps)
    ensures |e.text| == |InsertAll(raw, ps, delimiter)| + |delimiter| + |letter|
  {
    HeaderEdit(Insert(InsertAll(raw, ps, delimiter), headerLength - |rowDelimiter|, delimiter + letter),
      headerLength + |delimiter| + |letter|)
  }

  /** The header ends inside `raw` and the insertion points ascend after it. */
  predicate GrowsAt(raw: string, rowDelimiter: string, headerLength: int, ps: seq<int>) {
    |rowDelimiter| <= headerLength <= |raw| &&
    Ascending(ps, |raw|) && (ps != [] ==> headerLength - |rowDelimiter| <= ps[0])
  }

  /** Adding a column grows the text at the column's insertion points and splices the header. */
  lemma ColumnAddedFacts(v: View, raw: string, headerLength: int, column: nat, letter: string)
    requires CanAddColumn(v, raw, headerLength, column)
    ensures var ps := ColumnInsertions(v, |raw|, column + 1);
      GrowsAt(raw, v.rowDelimiter, headerLength, ps) &&
      ColumnAdded(v, raw, headerLength, column, letter) == Grown(raw, v.delimiter, v.rowDelimiter, headerLength, letter, ps)
  {
    var ps := ColumnInsertions(v, |raw|, column + 1);
    ColumnInsertionsAscend(v, |raw|, column + 1);
    var body := InsertAll(raw, ps, v.delimiter);
    AddHeaderLabelIsInsert(body, v.delimiter, v.rowDelimiter, headerLength, letter);
  }

  /** The header splice is an insertion of `delimiter + letter` before the header's row delimiter. */
  lemma AddHeaderLabelIsInsert(raw: string, delimiter: string, rowDelimiter: string, headerLength: int, letter: string)
    requires |rowDelimiter| <= headerLength <= |raw|
    ensures AddHeaderLabel(raw, delimiter, rowDelimiter, headerLength, letter) ==
      HeaderEdit(Insert(raw, headerLength - |rowDelimiter|, delimiter + letter), headerLength + |delimiter| + |letter|)
  {
  }

  /** `RemoveColumnUndoesAddColumn` with the grown text's insertion points `ps` named. */
  lemma ColumnRoundTrip(v1: View, raw: string, headerLength: int, letter: string, ps: seq<int>, column: nat)
    requires GrowsAt(raw, v1.rowDelimiter, headerLength, ps)
    requires raw[headerLength - |v1.rowDelimiter|..headerLength] == v1.rowDelimiter
    requires forall j :: 0 < j <= |letter| ==> !Occurs(v1.delimiter + letter, v1.delimiter, j)
    requires ReparsedAt(v1, Grown(raw, v1.delimiter, v1.rowDelimiter, headerLength, letter, ps), column, ps, letter)
    ensures var e := Grown(raw, v1.delimiter, v1.rowDelimiter, headerLength, letter, ps);
      ColumnRemoved(v1, e.text, e.headerLength, column) == HeaderEdit(raw, headerLength)
  {
    var e := Grown(raw, v1.delimiter, v1.rowDelimiter, headerLength, letter, ps);
    var sps := Pieces(ps, v1.delimiter, letter);
    ColumnRemovedViaCut(v1, e.text, e.headerLength, column, sps);
    UndoAdded(raw, v1.delimiter, v1.rowDelimiter, headerLength, letter, ps);
  }

  /** Removing a column whose cells sit at `sps` cuts them out and trims the header. */
  lemma ColumnRemovedViaCut(v: View, raw: string, headerLength: int, column: nat, sps: seq<Span>)
    requires CanRemoveColumn(v, raw, headerLength, column) && ColumnSpans(v, |raw|, column + 1) == sps
    ensures Disjoint(sps, |raw|) && CanTrimHeader(RemoveAll(raw, sps), v.delimiter, v.rowDelimiter, headerLength)
    ensures ColumnRemoved(v, raw, headerLength, column) ==
      TrimHeaderLabel(RemoveAll(raw, sps), v.delimiter, v.rowDelimiter, headerLength)
  {
    ColumnRemovedAt(v, raw, headerLength, column);
    ColumnCutIs(v, raw, column + 1, sps);
    var cut := ColumnCut(v, raw, column + 1);
    var removed := ColumnRemoved(v, raw, headerLength, column);
    var rest := RemoveAll(raw, sps);
    assert rest == cut;
  }

  /**
   * Cutting the pieces `sps` inserted into a grown text and trimming its
   * header gives the text and header length back.
   */
  lemma UndoAdded(raw: string, delimiter: string, rowDelimiter: string, headerLength: int, letter: string,
                  ps: seq<int>)
    requires GrowsAt(raw, rowDelimiter, headerLength, ps)
    requires raw[headerLength - |rowDelimiter|..headerLength] == rowDelimiter
    requires forall j :: 0 < j <= |letter| ==> !Occurs(delimiter + letter, delimiter, j)
    ensures var e := Grown(raw, delimiter, rowDelimiter, headerLength, letter, ps);
      var sps := Pieces(ps, delimiter, letter);
      Disjoint(sps, |e.text|) && CanTrimHeader(RemoveAll(e.text, sps), delimiter, rowDelimiter, e.headerLength) &&
      TrimHeaderLabel(RemoveAll(e.text, sps), delimiter, rowDelimiter, e.headerLength) == HeaderEdit(raw, headerLength)
  {
    var e := Grown(raw, delimiter, rowDelimiter, headerLength, letter, ps);
    var sps := Pieces(ps, delimiter, letter);
    CutGrown(raw, delimiter, rowDelimiter, headerLength, letter, ps);
    var restored := AddHeaderLabel(raw, delimiter, rowDelimiter, headerLength, letter);
    AddHeaderLabelIsInsert(raw, delimiter, rowDelimiter, headerLength, letter);
    TrimUndoesAdd(raw, delimiter, rowDelimiter, headerLength, letter);
    var rest := RemoveAll(e.text, sps);
    assert rest == restored.text && e.headerLength == restored.headerLength;
  }

  /** Cutting the inserted pieces out of a grown text leaves only the header splice. */
  lemma CutGrown(raw: string, delimiter: string, rowDelimiter: string, headerLength: int, letter: string,
                 ps: seq<int>)
    requires GrowsAt(raw, rowDelimiter, headerLength, ps)
    ensures var e := Grown(raw, delimiter, rowDelimiter, headerLength, letter, ps);
      var sps := Pieces(ps, delimiter, letter);
      Disjoint(sps, |e.text|) &&
      RemoveAll(e.text, sps) == Insert(raw, headerLength - |rowDelimiter|, delimiter + letter)
  {
    var at, u := headerLength - |rowDelimiter|, delimiter + letter;
    var body := InsertAll(raw, ps, delimiter);
    RemoveAllAfterInsertions(raw, ps, delimiter, at, u, |u|);
    assert Grown(raw, delimiter, rowDelimiter, headerLength, letter, ps).text == Insert(body, at, u);
  }

  /**
   * Writing a cell's old text back over the new one restores the document,
   * given the re-parsed view places the cell where the new text went.
   */
  lemma SetDataUndone(v: View, raw: string, row: nat, column: nat, value: string, v1: View)
    requires WellFormed(v, |raw|) && row < v.rows && column < v.columns
    requires var cell := Coords(row + 1, column + 1);
      var sp := SliceSpan(v, |raw|, cell, true);
      FirstIndex(v1, cell) == sp.start &&
      LastIndex(v1, |raw| - (sp.end - sp.start) + |value|, cell) == sp.start + |value|
    ensures var cell := Coords(row + 1, column + 1);
      var sp := SliceSpan(v, |raw|, cell, true);
      Within(sp, |raw|) &&
      var raw1 := Replace(raw, sp, value);
      var sp1 := SliceSpan(v1, |raw1|, cell, true);
      sp1 == Span(sp.start, sp.start + |value|) &&
      Within(sp1, |raw1|) &&
      Replace(raw1, sp1, raw[sp.start..sp.end]) == raw
  {
    var cell := Coords(row + 1, column + 1);
    SliceSpanWithin(v, |raw|, cell, true);
    ReplaceUndo(raw, SliceSpan(v, |raw|, cell, true), value);
  }

  /**
   * Removing a row just inserted before body row `row` restores the document,
   * given the re-parsed view has one more row and places the new row where the
   * blank text went.
   */
  lemma RemoveRowUndoesAddRow(v: View, raw: string, row: nat, v1: View)
    requires WellFormed(v, |raw|) && row < v.rows
    requires v1.rows == v.rows + 1 && v1.columns == v.columns
    requires v1.offset(row + 1, 0) == v.offset(row + 1, 0)
    requires v1.offset(row + 2, 0) == v.offset(row + 1, 0) + |BlankRow(v, row)|
    ensures var at := InsertionIndex(v, |raw|, Coords(row + 1, 0));
      at == v.offset(row + 1, 0) && 0 <= at <= |raw| &&
      var raw1 := Insert(raw, at, BlankRow(v, row));
      var sp := SliceSpan(v1, |raw1|, Coords(row + 1, 0), false);
      sp == Span(at, at + |BlankRow(v, row)|) &&
      Within(sp, |raw1|) &&
      Cut(raw1, sp) == raw
  {
    AddRowIndex(v, |raw|, row);
    CutUndoesInsert(raw, v.offset(row + 1, 0), BlankRow(v, row));
  }

  /**
   * Appending a row and then removing it does not restore the document: the
   * blank row is appended after the text's end with its row delimiter behind
   * it, while removing the last row cuts the row delimiter before it. What is
   * left is the document without its last `|rowDelimiter|` characters: its
   * final row delimiter, when it ends with one.
   */
  lemma RemoveRowAfterAppendDropsRowDelimiter(v: View, raw: string, v1: View)
    requires WellFormed(v, |raw|) && |v.rowDelimiter| <= |raw|
    requires v1.rows == v.rows + 1 && v1.rowDelimiter == v.rowDelimiter
    requires v1.offset(v.rows + 1, 0) == |raw|
    ensures var blank := BlankRow(v, v.rows);
      InsertionIndex(v, |raw|, Coords(v.rows + 1, 0)) == |raw| &&
      var raw1 := Insert(raw, |raw|, blank);
      var sp := SliceSpan(v1, |raw1|, Coords(v.rows + 1, 0), false);
      sp == Span(|raw| - |v.rowDelimiter|, |raw1|) &&
      Within(sp, |raw1|) &&
      Cut(raw1, sp) == raw[..|raw| - |v.rowDelimiter|] &&
      (raw[|raw| - |v.rowDelimiter|..] == v.rowDelimiter ==> Cut(raw1, sp) + v.rowDelimiter == raw)
  {
    AddRowIndex(v, |raw|, v.rows);
  }

  /**
   * Removing the only body row cuts the row delimiter before it, which is the
   * header's own: the text is left shorter than the header length.
   */
  lemma RemoveOnlyRowCutsHeaderRowDelimiter(v: View, raw: string, headerLength: int)
    requires WellFormed(v, |raw|) && v.rows == 1 && |v.rowDelimiter| >= 1
    requires headerLength == BodyStart(v, |raw|)
    ensures var sp := SliceSpan(v, |raw|, Coords(1, 0), false);
      sp == Span(headerLength - |v.rowDelimiter|, |raw|) && Within(sp, |raw|) &&
      |Cut(raw, sp)| == headerLength - |v.rowDelimiter| < headerLength
  {
    RemoveRowSpan(v, |raw|, 0);
  }
}
