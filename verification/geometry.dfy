/**
 * The geometry layer of the editable DSV model: from a cell coordinate to
 * character offsets in the raw text, read off the parsed view's offset index.
 *
 * Coordinates are those of the offset index. Row 0 is the header row and body
 * row `r` is index row `r + 1`; `rows` counts body rows, so index rows run
 * from 0 to `rows`. Column 0 stands for a whole row, and column `c >= 1` for
 * data column `c - 1`, which starts at `offset(row, c - 1)`.
 */
module Geometry {
  import opened Text
  import opened Splice

  datatype Coords = Coords(row: nat, column: nat)

  /**
   * What the parsed view offers as of its last parse: body row and column
   * counts, the two delimiters and the offset of each cell's first character.
   * An operation reads it but never changes it; the re-parse comes afterwards.
   */
  datatype View = View(
    rows: nat,
    columns: nat,
    delimiter: string,
    rowDelimiter: string,
    offset: (nat, nat) -> int)

  /**
   * The offset index describes a text of length `n`: cells of a row come in
   * order with a delimiter between neighbours, rows come in order with a row
   * delimiter between them, and the last cell starts inside the text.
   */
  predicate WellFormed(v: View, n: int) {
    v.columns >= 1 &&
    (forall r: nat, c: nat :: r <= v.rows && c < v.columns ==> 0 <= v.offset(r, c)) &&
    (forall r: nat, c: nat :: r <= v.rows && c + 1 < v.columns ==> CellsInOrder(v, r, c)) &&
    (forall r: nat :: r < v.rows ==> RowsInOrder(v, r)) &&
    v.offset(v.rows, v.columns - 1) <= n
  }

  /** Cell `c + 1` of index row `r` starts at least a delimiter after cell `c`. */
  predicate CellsInOrder(v: View, r: nat, c: nat) {
    v.offset(r, c) <= v.offset(r, c + 1) - |v.delimiter|
  }

  /** Index row `r + 1` starts at least a row delimiter after the last cell of row `r`. */
  predicate RowsInOrder(v: View, r: nat) {
    v.columns >= 1 && v.offset(r, v.columns - 1) <= v.offset(r + 1, 0) - |v.rowDelimiter|
  }

  /** Where the body starts: the first body row, or the end of a text with none. */
  function BodyStart(v: View, n: int): int {
    if v.rows >= 1 then v.offset(1, 0) else n
  }

  // ---------------------------------------------------------------------------
  // Offsets of a coordinate

  /** End of a row's text, before its row delimiter; the last row ends with the text. */
  function RowEnd(v: View, n: int, row: nat): int {
    if row < v.rows then v.offset(row + 1, 0) - |v.rowDelimiter| else n
  }

  /** First character of the cell. */
  function FirstIndex(v: View, c: Coords): int {
    v.offset(c.row, if c.column == 0 then 0 else c.column - 1)
  }

  /** One past the last character of the cell: before the next delimiter, or the row's end. */
  function LastIndex(v: View, n: int, c: Coords): int {
    if 0 < c.column < v.columns then v.offset(c.row, c.column) - |v.delimiter|
    else RowEnd(v, n, c.row)
  }

  /** The cell is at the end of its row, or is the whole last row: a cut takes the delimiter before it. */
  predicate IsTrimOperation(v: View, c: Coords) {
    c.column == v.columns || (c.row == v.rows && c.column == 0)
  }

  /** The cell lies past the table: an insertion appends after the previous cell. */
  predicate IsExtensionOperation(v: View, c: Coords) {
    c.column > v.columns || c.row > v.rows
  }

  /** The cell before, in row-major order; column 1 steps back to the last column of the row above. */
  function PreviousCell(v: View, c: Coords): Coords {
    var above := if c.row == 0 then 0 else c.row - 1;
    if c.column == 0 then Coords(above, 0)
    else if c.column == 1 then Coords(above, v.columns)
    else Coords(c.row, c.column - 1)
  }

  /** The cell after, in row-major order; the last column steps on to column 1 of the row below. */
  function NextCell(v: View, c: Coords): Coords {
    var below := if c.row + 1 < v.rows then c.row + 1 else v.rows;
    if c.column == 0 then Coords(below, 0)
    else if c.column == v.columns then Coords(below, 1)
    else Coords(c.row, c.column + 1)
  }

  /**
   * An empty row: `columns - 1` delimiters with the row delimiter in front when
   * the row is appended past the body, behind it otherwise.
   */
  function BlankRow(v: View, row: nat): (r: string)
    requires v.columns >= 1
    ensures |r| == |v.rowDelimiter| + (v.columns - 1) * |v.delimiter|
    ensures row > v.rows ==> r[..|v.rowDelimiter|] == v.rowDelimiter
    ensures row <= v.rows ==> r[|r| - |v.rowDelimiter|..] == v.rowDelimiter
    ensures row > v.rows ==> r[|v.rowDelimiter|..] == Repeat(v.delimiter, v.columns - 1)
    ensures row <= v.rows ==> r[..|r| - |v.rowDelimiter|] == Repeat(v.delimiter, v.columns - 1)
    ensures forall i :: 0 <= i < |r| ==> r[i] in v.delimiter || r[i] in v.rowDelimiter
  {
    var cells := Repeat(v.delimiter, v.columns - 1);
    if row > v.rows then
      assert (v.rowDelimiter + cells)[|v.rowDelimiter|..] == cells;
      v.rowDelimiter + cells
    else
      assert (cells + v.rowDelimiter)[..|cells|] == cells;
      cells + v.rowDelimiter
  }

  /** The span `sliceOut` removes: the cell alone, or the cell with one neighbouring delimiter. */
  function SliceSpan(v: View, n: int, c: Coords, keepingCell: bool): Span {
    if keepingCell then Span(FirstIndex(v, c), LastIndex(v, n, c))
    else if IsTrimOperation(v, c) then Span(LastIndex(v, n, PreviousCell(v, c)), LastIndex(v, n, c))
    else Span(FirstIndex(v, c), FirstIndex(v, NextCell(v, c)))
  }

  /** The offset at which `insertAt` puts text in. */
  function InsertionIndex(v: View, n: int, c: Coords): int {
    if IsExtensionOperation(v, c) then LastIndex(v, n, PreviousCell(v, c)) else FirstIndex(v, c)
  }

  /** The spans `removeColumn` cuts, index row `k + 1` at position `k`. */
  function ColumnSpans(v: View, n: int, column: nat): seq<Span> {
    seq(v.rows, k requires 0 <= k < v.rows => SliceSpan(v, n, Coords(k + 1, column), false))
  }

  /** The offsets at which `addColumn` inserts a delimiter, index row `k + 1` at position `k`. */
  function ColumnInsertions(v: View, n: int, column: nat): seq<int> {
    seq(v.rows, k requires 0 <= k < v.rows => InsertionIndex(v, n, Coords(k + 1, column)))
  }

  // ---------------------------------------------------------------------------
  // Classification and neighbours

  /** Inside the table nothing is an extension: text goes in right before the cell. */
  lemma InsertBeforeInside(v: View, n: int, c: Coords)
    requires c.row <= v.rows && c.column <= v.columns
    ensures !IsExtensionOperation(v, c)
    ensures InsertionIndex(v, n, c) == FirstIndex(v, c)
  {
  }

  /** Neighbours stay in the table: never above row 0, never below the last row. */
  lemma NeighboursStayInTable(v: View, c: Coords)
    requires c.row <= v.rows
    ensures PreviousCell(v, c).row <= c.row
    ensures 1 <= c.column <= v.columns ==> 1 <= PreviousCell(v, c).column <= v.columns
    ensures NextCell(v, c).row <= v.rows
    ensures 1 <= c.column <= v.columns ==> 1 <= NextCell(v, c).column <= v.columns
    ensures c.row < NextCell(v, c).row ==> NextCell(v, c).row == c.row + 1
  {
  }

  /** Stepping forward and then back returns to a data cell, except from the very last one. */
  lemma PreviousOfNext(v: View, c: Coords)
    requires 1 <= c.column <= v.columns
    requires c.column == v.columns ==> c.row < v.rows
    ensures PreviousCell(v, NextCell(v, c)) == c
  {
  }

  /** Stepping back and then forward returns to a data cell, except from the very first one. */
  lemma NextOfPrevious(v: View, c: Coords)
    requires 1 <= c.column <= v.columns && c.row <= v.rows
    requires c.column == 1 ==> c.row >= 1
    ensures NextCell(v, PreviousCell(v, c)) == c
  {
  }

  // ---------------------------------------------------------------------------
  // Offsets stay inside the text

  /** Cells of a row start in ascending order, a delimiter apart. */
  lemma {:induction false} RowOffsetsAscend(v: View, n: int, r: nat, c1: nat, c2: nat)
    requires WellFormed(v, n) && r <= v.rows && c1 <= c2 < v.columns
    ensures v.offset(r, c1) <= v.offset(r, c2)
    ensures c1 < c2 ==> v.offset(r, c1) <= v.offset(r, c2) - |v.delimiter|
    decreases c2 - c1
  {
    if c1 < c2 {
      assert CellsInOrder(v, r, c1);
      RowOffsetsAscend(v, n, r, c1 + 1, c2);
    }
  }

  /** A row lies inside the text: its cells start within it and its end is at most `n`. */
  lemma {:induction false} RowWithin(v: View, n: int, r: nat)
    requires WellFormed(v, n) && r <= v.rows
    ensures 0 <= v.offset(r, 0) <= v.offset(r, v.columns - 1) <= RowEnd(v, n, r) <= n
    decreases v.rows - r
  {
    RowOffsetsAscend(v, n, r, 0, v.columns - 1);
    if r < v.rows {
      assert RowsInOrder(v, r);
      RowWithin(v, n, r + 1);
    }
  }

  /** Rows end in ascending order. */
  lemma {:induction false} RowEndsAscend(v: View, n: int, r1: nat, r2: nat)
    requires WellFormed(v, n) && r1 <= r2 <= v.rows
    ensures RowEnd(v, n, r1) <= RowEnd(v, n, r2)
    decreases r2 - r1
  {
    if r1 < r2 {
      RowWithin(v, n, r1 + 1);
      RowEndsAscend(v, n, r1 + 1, r2);
    }
  }

  /** Every cell of the table begins and ends inside the text, its start before its end. */
  lemma CellWithin(v: View, n: int, c: Coords)
    requires WellFormed(v, n) && c.row <= v.rows && c.column <= v.columns
    ensures 0 <= FirstIndex(v, c) <= LastIndex(v, n, c) <= n
  {
    RowWithin(v, n, c.row);
    var k := if c.column == 0 then 0 else c.column - 1;
    RowOffsetsAscend(v, n, c.row, k, v.columns - 1);
    if 0 < c.column < v.columns {
      RowOffsetsAscend(v, n, c.row, k, c.column);
      RowOffsetsAscend(v, n, c.row, c.column, v.columns - 1);
    }
  }

  /** Every span `sliceOut` may cut lies inside the text, start before end. */
  lemma SliceSpanWithin(v: View, n: int, c: Coords, keepingCell: bool)
    requires WellFormed(v, n) && c.row <= v.rows && c.column <= v.columns
    ensures Within(SliceSpan(v, n, c, keepingCell), n)
  {
    CellWithin(v, n, c);
    if !keepingCell {
      if IsTrimOperation(v, c) {
        var p := PreviousCell(v, c);
        CellWithin(v, n, p);
        if c.column == v.columns && v.columns >= 2 {
          RowOffsetsAscend(v, n, c.row, 0, v.columns - 2);
        } else {
          RowEndsAscend(v, n, p.row, c.row);
        }
      } else {
        var q := NextCell(v, c);
        CellWithin(v, n, q);
        if c.column == 0 {
          RowWithin(v, n, c.row);
        } else {
          RowOffsetsAscend(v, n, c.row, c.column - 1, c.column);
        }
      }
    }
  }

  /**
   * Insertion offsets lie inside the text: within the table, and one row or one
   * column past it.
   */
  lemma InsertionIndexWithin(v: View, n: int, c: Coords)
    requires WellFormed(v, n)
    requires c.row <= v.rows + 1 && c.column <= v.columns + 1
    requires c.row == v.rows + 1 ==> c.column <= 1
    ensures 0 <= InsertionIndex(v, n, c) <= n
  {
    if IsExtensionOperation(v, c) {
      var p := PreviousCell(v, c);
      RowWithin(v, n, p.row);
    } else {
      CellWithin(v, n, c);
    }
  }

  // ---------------------------------------------------------------------------
  // Whole rows and whole columns

  /** `removeRow` cuts a body row with the row delimiter after it, or the last row with the one before it. */
  lemma RemoveRowSpan(v: View, n: int, row: nat)
    requires WellFormed(v, n) && row < v.rows
    ensures SliceSpan(v, n, Coords(row + 1, 0), false) ==
      if row + 1 < v.rows then Span(v.offset(row + 1, 0), v.offset(row + 2, 0))
      else Span(v.offset(v.rows, 0) - |v.rowDelimiter|, n)
    ensures Within(SliceSpan(v, n, Coords(row + 1, 0), false), n)
  {
    SliceSpanWithin(v, n, Coords(row + 1, 0), false);
  }

  /** `addRow` inserts before body row `row`, or at the very end when `row` is the row count or more. */
  lemma AddRowIndex(v: View, n: int, row: nat)
    requires WellFormed(v, n)
    ensures InsertionIndex(v, n, Coords(row + 1, 0)) ==
      if row < v.rows then v.offset(row + 1, 0) else n
    ensures 0 <= InsertionIndex(v, n, Coords(row + 1, 0)) <= n
  {
    if row < v.rows {
      RowWithin(v, n, row + 1);
    }
  }

  /**
   * What `removeColumn` cuts from one index row: an inner column with the
   * delimiter after it, the last column with the delimiter before it. It lies
   * between the end of the row above and the end of its own row.
   */
  lemma ColumnSpan(v: View, n: int, row: nat, column: nat)
    requires WellFormed(v, n) && 1 <= row <= v.rows && 1 <= column <= v.columns && v.columns >= 2
    ensures SliceSpan(v, n, Coords(row, column), false) ==
      if column < v.columns then Span(v.offset(row, column - 1), v.offset(row, column))
      else Span(v.offset(row, v.columns - 1) - |v.delimiter|, RowEnd(v, n, row))
    ensures Within(SliceSpan(v, n, Coords(row, column), false), n)
    ensures v.offset(row, 0) <= SliceSpan(v, n, Coords(row, column), false).start
    ensures SliceSpan(v, n, Coords(row, column), false).end <= RowEnd(v, n, row)
    ensures RowEnd(v, n, row - 1) <= v.offset(row, 0)
  {
    var c := Coords(row, column);
    SliceSpanWithin(v, n, c, false);
    RowWithin(v, n, row);
    RowOffsetsAscend(v, n, row, 0, column - 1);
    if column < v.columns {
      RowOffsetsAscend(v, n, row, column, v.columns - 1);
    } else {
      RowOffsetsAscend(v, n, row, 0, v.columns - 2);
    }
  }

  /** The cut positions of `removeColumn` are disjoint and ascend, the first one after the header. */
  lemma ColumnSpansDisjoint(v: View, n: int, column: nat)
    requires WellFormed(v, n) && 1 <= column <= v.columns && v.columns >= 2
    ensures Disjoint(ColumnSpans(v, n, column), n)
    ensures v.rows >= 1 ==> BodyStart(v, n) <= ColumnSpans(v, n, column)[0].start
  {
    var sps := ColumnSpans(v, n, column);
    forall k | 0 <= k < |sps|
      ensures Within(sps[k], n)
      ensures v.offset(k + 1, 0) <= sps[k].start && sps[k].end <= RowEnd(v, n, k + 1)
    {
      ColumnSpan(v, n, k + 1, column);
    }
    forall j, k | 0 <= j < k < |sps|
      ensures sps[j].end <= sps[k].start
    {
      ColumnSpan(v, n, k + 1, column);
      RowEndsAscend(v, n, j + 1, k);
    }
  }

  /**
   * Where `addColumn` inserts in one index row: before the cell, or at the row's
   * end for a column past the last; between the row's start and its end.
   */
  lemma ColumnInsertion(v: View, n: int, row: nat, column: nat)
    requires WellFormed(v, n) && 1 <= row <= v.rows && 1 <= column
    ensures InsertionIndex(v, n, Coords(row, column)) ==
      if column <= v.columns then v.offset(row, column - 1) else RowEnd(v, n, row)
    ensures v.offset(row, 0) <= InsertionIndex(v, n, Coords(row, column)) <= RowEnd(v, n, row)
    ensures RowEnd(v, n, row - 1) <= v.offset(row, 0)
  {
    RowWithin(v, n, row);
    if column <= v.columns {
      RowOffsetsAscend(v, n, row, 0, column - 1);
      RowOffsetsAscend(v, n, row, column - 1, v.columns - 1);
    }
  }

  /** The insertion offsets of `addColumn` ascend inside the text, the first one after the header. */
  lemma ColumnInsertionsAscend(v: View, n: int, column: nat)
    requires WellFormed(v, n) && 1 <= column
    ensures Ascending(ColumnInsertions(v, n, column), n)
    ensures v.rows >= 1 ==> BodyStart(v, n) <= ColumnInsertions(v, n, column)[0]
  {
    var ps := ColumnInsertions(v, n, column);
    forall k | 0 <= k < |ps|
      ensures 0 <= ps[k] <= n
      ensures v.offset(k + 1, 0) <= ps[k]
    {
      ColumnInsertion(v, n, k + 1, column);
      RowWithin(v, n, k + 1);
    }
    forall j, k | 0 <= j < k < |ps|
      ensures ps[j] <= ps[k]
    {
      ColumnInsertion(v, n, j + 1, column);
      ColumnInsertion(v, n, k + 1, column);
      RowEndsAscend(v, n, j + 1, k);
    }
  }

  /**
   * The stale view locates the cell of index row `row` as it did before any
   * row below it was edited: only the last row's end depends on the current
   * length, and that row is edited first.
   */
  lemma ColumnStep(v: View, n0: int, n: int, row: nat, column: nat)
    requires 1 <= row <= v.rows && (row < v.rows || n == n0)
    ensures SliceSpan(v, n, Coords(row, column), false) == ColumnSpans(v, n0, column)[row - 1]
    ensures InsertionIndex(v, n, Coords(row, column)) == ColumnInsertions(v, n0, column)[row - 1]
  {
  }
}
