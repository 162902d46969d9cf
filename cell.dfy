/** The cell record of src/lib/cell/index.ts. */
module CellRecord {
  import opened Wrappers
  import opened Types

  type Positive = x: int | x > 0 witness 1

  /** The default cell size; its values are not part of this model, only that they are positive. */
  const DefaultCellWidth: Positive
  const DefaultCellHeight: Positive

  /** Horizontal pixel offset of a cell built for the 1-based column `column`. */
  function CellX(column: int): int {
    DefaultCellWidth * column
  }

  /** Vertical pixel offset of a cell built for the 1-based row `row`. */
  function CellY(row: int): int {
    DefaultCellHeight * row
  }

  /** With a positive default size, cells further right (down) have larger x (y). */
  lemma OffsetsIncrease(a: int, b: int)
    requires a < b
    ensures CellX(a) < CellX(b)
    ensures CellY(a) < CellY(b)
  {
  }

  /**
   * `Cell`. The type of formula entities is not defined by the record shapes
   * this model has, so it is a type parameter.
   */
  class Cell<Entity> {
    var formulaEntities: seq<Entity>
    var id: Option<string>
    var result: Value
    var value: string
    var width: int
    var height: int
    var x: int
    var y: int
    var row: int
    var column: int

    /**
     * A cell built from 1-based coordinates: it stores them 0-based, is empty,
     * has the default size, and its offsets use the 1-based arguments.
     */
    constructor (row: int, column: int)
      ensures formulaEntities == [] && id == None
      ensures result == Str("") && value == ""
      ensures this.row == row - 1 && this.column == column - 1
      ensures width == DefaultCellWidth && height == DefaultCellHeight
      ensures x == CellX(column) && y == CellY(row)
      ensures x == width * (this.column + 1) && y == height * (this.row + 1)
    {
      formulaEntities := [];
      id := None;
      result := Str("");
      value := "";
      this.row := row - 1;
      this.column := column - 1;
      width := DefaultCellWidth;
      height := DefaultCellHeight;
      new;
      x := width * column;
      y := height * row;
    }
  }
}
