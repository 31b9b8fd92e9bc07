/** The loaded voter roll: an ordered table whose rows map column names to
    cells, a cell being a text value or missing (pandas' NaN). */
module Table {

  datatype Option<T> = None | Some(value: T)

  type Column = string

  /** One row of the roll. A column the row has no entry for reads as missing. */
  type Record = map<Column, Option<string>>

  /** The columns in sheet order and the rows in sheet order. */
  datatype Table = Table(columns: seq<Column>, rows: seq<Record>)

  /** The voter's name. */
  const NameColumn: Column := "FM_NAME_V2"

  /** The father's or husband's name. */
  const RelationColumn: Column := "RLN_FM_NM_V2"

  /** The long polling-part description, shown apart from the table. */
  const PartColumn: Column := "2025 Part name"

  function Cell(row: Record, c: Column): Option<string> {
    if c in row then row[c] else None
  }

  /** pandas' `DataFrame.empty`: no rows or no columns. */
  predicate IsEmpty(t: Table) {
    t.rows == [] || t.columns == []
  }

  const EmptyTable: Table := Table([], [])
}
