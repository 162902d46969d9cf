/** The grid store of src/state/useSpreadsheet.ts. */
module Store {
  import opened Wrappers
  import opened Types

  /** (row, column) names a cell of d: `d[row][column]` exists. */
  predicate InBounds(d: Grid, row: int, column: int) {
    0 <= row < |d| && 0 <= column < |d[row]|
  }

  /** a and b have the same number of rows, and row by row the same number of cells. */
  predicate SameShape(a: Grid, b: Grid) {
    |a| == |b| && forall i :: 0 <= i < |a| ==> |a[i]| == |b[i]|
  }

  /** The matrix after `data[row][column].value = value`. */
  function WithCellValue(d: Grid, row: int, column: int, value: Value): (e: Grid)
    requires InBounds(d, row, column)
    ensures SameShape(d, e)
    ensures e[row][column].value == Some(value)
    ensures e[row][column].(value := d[row][column].value) == d[row][column]
    ensures forall i, j :: InBounds(d, i, j) && (i != row || j != column) ==> e[i][j] == d[i][j]
  {
    d[row := d[row][column := d[row][column].(value := Some(value))]]
  }

  /** One cell of the `map` in setColumnWidth: new width when its stored column matches. */
  function Resize(cell: CellData, column: int, width: int): CellData {
    if cell.column == column then cell.(width := width) else cell
  }

  /** The matrix the nested `map` of setColumnWidth builds. */
  function WithColumnWidth(d: Grid, column: int, width: int): (e: Grid)
    ensures SameShape(d, e)
    ensures forall i, j :: InBounds(d, i, j) && d[i][j].column == column ==> e[i][j] == d[i][j].(width := width)
    ensures forall i, j :: InBounds(d, i, j) && d[i][j].column != column ==> e[i][j] == d[i][j]
  {
    seq(|d|, i requires 0 <= i < |d| =>
      seq(|d[i]|, j requires 0 <= j < |d[i]| => Resize(d[i][j], column, width)))
  }

  /** Every cell's stored `column` is its position in its row. */
  predicate ColumnsIndexed(d: Grid) {
    forall i, j :: 0 <= i < |d| && 0 <= j < |d[i]| ==> d[i][j].column == j
  }

  /** When stored columns match positions, exactly the cells at position `column` are resized. */
  lemma ResizeIndexedColumn(d: Grid, column: int, width: int)
    requires ColumnsIndexed(d)
    ensures forall i, j :: InBounds(d, i, j) ==>
      WithColumnWidth(d, column, width)[i][j].width == if j == column then width else d[i][j].width
  {
  }

  /** The selection goes by the stored field: a cell whose stored column differs is kept, whatever its position. */
  lemma ResizeBySelectedField()
    ensures var d := [[CellData(1, 20, 0, None, 100)]];
      WithColumnWidth(d, 0, 50) == d
  {
    var d := [[CellData(1, 20, 0, None, 100)]];
    assert WithColumnWidth(d, 0, 50)[0] == d[0];
  }

  /** Setting a column width twice is the same as setting it once. */
  lemma ColumnWidthIdempotent(d: Grid, column: int, width: int)
    ensures WithColumnWidth(WithColumnWidth(d, column, width), column, width) == WithColumnWidth(d, column, width)
  {
    var e := WithColumnWidth(d, column, width);
    var f := WithColumnWidth(e, column, width);
    forall i | 0 <= i < |d| ensures f[i] == e[i] {
      assert |f[i]| == |e[i]|;
    }
  }

  /** Writing a value and resizing a column commute: each touches a field the other ignores. */
  lemma ValueAndWidthCommute(d: Grid, row: int, column: int, value: Value, col: int, width: int)
    requires InBounds(d, row, column)
    ensures InBounds(WithColumnWidth(d, col, width), row, column)
    ensures WithColumnWidth(WithCellValue(d, row, column, value), col, width)
         == WithCellValue(WithColumnWidth(d, col, width), row, column, value)
  {
    var a := WithColumnWidth(WithCellValue(d, row, column, value), col, width);
    var b := WithCellValue(WithColumnWidth(d, col, width), row, column, value);
    forall i | 0 <= i < |d| ensures a[i] == b[i] {
      assert |a[i]| == |b[i]|;
    }
  }

  /** The outcome of a cell read: the cell's value, or the TypeError JavaScript throws for a missing cell. */
  datatype Read = Returned(value: Option<Value>) | TypeError

  /** The store's state: the cell matrix and the active cell. */
  class SpreadsheetStore {
    var data: Grid
    var activeCell: (int, int)

    /** The initial state: no cells, and no active cell (-1, -1). */
    constructor ()
      ensures data == [] && activeCell == (-1, -1)
    {
      data := [];
      activeCell := (-1, -1);
    }

    /** Replaces the whole matrix. */
    method SetInitialData(initialData: Grid)
      modifies this
      ensures data == initialData
      ensures activeCell == old(activeCell)
    {
      data := initialData;
    }

    /**
     * `data[row][column].value`, with no bounds check: a missing row or cell
     * makes the property access throw.
     */
    function GetCellValue(row: int, column: int): (r: Read)
      reads this
      ensures r.Returned? <==> InBounds(data, row, column)
      ensures r.Returned? ==> r.value == data[row][column].value
    {
      if InBounds(data, row, column) then Returned(data[row][column].value) else TypeError
    }

    /**
     * Writes a defined value into one cell; an undefined value leaves the matrix
     * alone and never touches the cell. A defined value for a missing cell makes
     * the assignment throw (`thrown`) before anything changes.
     */
    method SetCellValue(row: int, column: int, value: Option<Value>) returns (thrown: bool)
      modifies this
      ensures thrown <==> value.Some? && !InBounds(old(data), row, column)
      ensures value.None? || thrown ==> data == old(data)
      ensures value.Some? && !thrown ==> data == WithCellValue(old(data), row, column, value.value)
      ensures value.Some? && !thrown ==> GetCellValue(row, column) == Returned(value)
      ensures SameShape(old(data), data)
      ensures activeCell == old(activeCell)
    {
      thrown := false;
      if value.Some? {
        if !InBounds(data, row, column) {
          thrown := true;
          return;
        }
        data := WithCellValue(data, row, column, value.value);
      }
    }

    /** Gives every cell whose stored column is `column` the new width, in every row. */
    method SetColumnWidth(column: int, width: int)
      modifies this
      ensures data == WithColumnWidth(old(data), column, width)
      ensures SameShape(old(data), data)
      ensures activeCell == old(activeCell)
    {
      data := WithColumnWidth(data, column, width);
    }

    /** Makes (row, column) the active cell, as given: no clamping, negatives allowed. */
    method SetActiveCell(row: int, column: int)
      modifies this
      ensures activeCell == (row, column)
      ensures data == old(data)
    {
      activeCell := (row, column);
    }
  }

  /**
   * The formula bar reads the active cell's value on every render, and the
   * active cell starts at (-1, -1): that first read throws.
   */
  lemma InitialActiveCellReadThrows(s: SpreadsheetStore)
    requires s.activeCell == (-1, -1)
    ensures s.GetCellValue(s.activeCell.0, s.activeCell.1) == TypeError
  {
  }
}
