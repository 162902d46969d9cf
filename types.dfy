/** The record shapes of src/types/index.d.ts. */
module Types {
  import opened Wrappers

  /** `number | string`; numbers are never computed with here, so a `real` stands for them. */
  datatype Value = Num(n: real) | Str(s: string)

  /** `CellData`: the store's cell record; `value` is optional. */
  datatype CellData = CellData(column: int, height: int, row: int, value: Option<Value>, width: int)

  /** The store's matrix: a sequence of rows of cells. */
  type Grid = seq<seq<CellData>>
}
