/** The record shape of the remote scoring table: a record is a list of
    cells, each a column id and a value. Cell values are either text or a
    JavaScript number (modelled as an exact real). */
module Cells {
  datatype Value = Str(s: string) | Num(n: real)

  datatype Cell = Cell(columnId: string, value: Value)

  /** No two cells of the list carry the same column id. */
  predicate DistinctIds(cells: seq<Cell>) {
    forall i, j :: 0 <= i < j < |cells| ==> cells[i].columnId != cells[j].columnId
  }
}
