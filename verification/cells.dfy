/** Table cells as the extractor sees them: a cell is text or absent
    (`None`), a row is a list of cells whose length may differ from row to
    row, and a table is a list of rows. */
module Cells {
  import opened Common
  import opened Strings

  type Cell = Option<string>
  type Row = seq<Cell>
  type Table = seq<Row>

  /** `c is not None and str(c).strip()`: the cell holds visible text. */
  predicate Filled(c: Cell) { c.Some? && !IsBlank(c.value) }

  /** `str(c).strip()` for a present cell, `""` for an absent one. */
  function CellText(c: Cell): (r: string)
    ensures r == [] <==> !Filled(c)
  {
    if c.None? then []
    else
      Strip(c.value)
  }

  /** The row has at least one filled cell. */
  predicate RowFilled(row: Row) { exists i :: 0 <= i < |row| && Filled(row[i]) }

  /** Cell `c` of a row, `None` past its end. */
  function CellAt(row: Row, c: nat): Cell
  {
    if c < |row| then row[c] else None
  }
}
