/** The results block: the match count, the table without the long
    part-name column, and the part names listed one per matching row. */
module Results {
  import opened Table
  import opened Sequences
  import Loader

  /** What is shown for a row whose part name is missing. */
  const MissingPart: string := "\U{2014}"

  /** `short_cols`: the columns other than the part-name column, in order. */
  function ShortColumns(columns: seq<Column>): seq<Column> {
    Select(columns, c => c != PartColumn)
  }

  /** The display columns are exactly the table's columns other than the
      part-name column, in their original order. This fixes membership and
      order; that each accepted occurrence is kept once follows from the
      definition of `Select`. */
  lemma ShortColumnsExact(columns: seq<Column>)
    ensures forall c :: c in ShortColumns(columns) <==> c in columns && c != PartColumn
    ensures IsSubsequence(ShortColumns(columns), columns)
  {
    var shown := (c: Column) => c != PartColumn;
    forall c ensures c in Select(columns, shown) <==> c in columns && c != PartColumn {
      SelectMembers(columns, shown, c);
    }
    SelectSubsequence(columns, shown);
  }

  /** Without a part-name column every column is shown. */
  lemma ShortColumnsWithoutPart(columns: seq<Column>)
    requires PartColumn !in columns
    ensures ShortColumns(columns) == columns
  {
    SelectAll(columns, c => c != PartColumn);
  }

  /** One row of `results[short_cols]`: the row's cells for the given columns. */
  function Project(row: Record, columns: seq<Column>): Record {
    map c | c in row && c in columns :: row[c]
  }

  /** One entry of the part-name list: the voter's name and the part name. */
  datatype PartLine = PartLine(name: string, part: string)

  /** The part name as displayed: `"—"` when the cell is missing. */
  function PartText(cell: Option<string>): string {
    match cell
    case None => MissingPart
    case Some(s) => s
  }

  /** The `iterrows` loop: one entry per result row, in order, showing the
      row's name and its part name, or `"—"` where the part name is missing. */
  method ListParts(results: seq<Record>) returns (lines: seq<PartLine>)
    ensures lines == PartLines(results)
    ensures |lines| == |results|
    ensures forall i :: 0 <= i < |results| ==> lines[i].name == Loader.ToText(Cell(results[i], NameColumn))
    ensures forall i :: 0 <= i < |results| && Cell(results[i], PartColumn).None? ==> lines[i].part == MissingPart
    ensures forall i :: 0 <= i < |results| && Cell(results[i], PartColumn).Some? ==>
      lines[i].part == Cell(results[i], PartColumn).value
  {
    lines := [];
    for i := 0 to |results|
      invariant |lines| == i
      invariant forall k :: 0 <= k < i ==>
        lines[k] == PartLine(Loader.ToText(Cell(results[k], NameColumn)), PartText(Cell(results[k], PartColumn)))
    {
      var part := PartText(Cell(results[i], PartColumn));
      lines := lines + [PartLine(Loader.ToText(Cell(results[i], NameColumn)), part)];
    }
  }

  /** The reference the part-name list is built to. The name is shown as the
      f-string `{row['FM_NAME_V2']}` formats the cell, which `Loader.ToText` models. */
  function PartLines(results: seq<Record>): seq<PartLine> {
    seq(|results|, i requires 0 <= i < |results| =>
      PartLine(Loader.ToText(Cell(results[i], NameColumn)), PartText(Cell(results[i], PartColumn))))
  }

  /** What a non-empty result shows: the count, the table without the
      part-name column, and the part-name list when that column exists. */
  datatype Display = Display(count: nat, shown: Table, parts: Option<seq<PartLine>>)

  /** The results block: `None` is the "no matching records" branch. */
  function Present(columns: seq<Column>, results: seq<Record>): (d: Option<Display>)
    ensures d.None? <==> IsEmpty(Table(columns, results))
    ensures d.Some? ==> d.value.count == |results| && |d.value.shown.rows| == |results|
    ensures d.Some? ==> d.value.shown.columns == ShortColumns(columns)
    ensures d.Some? ==> forall i :: 0 <= i < |results| ==>
      d.value.shown.rows[i] == Project(results[i], ShortColumns(columns))
    ensures d.Some? ==> forall i, c :: 0 <= i < |results| ==>
      Cell(d.value.shown.rows[i], c) == if c in columns && c != PartColumn then Cell(results[i], c) else None
    ensures d.Some? ==> (d.value.parts.Some? <==> PartColumn in columns)
    ensures d.Some? && d.value.parts.Some? ==> d.value.parts.value == PartLines(results)
  {
    ShortColumnsExact(columns);
    if IsEmpty(Table(columns, results)) then None
    else
      var short := ShortColumns(columns);
      var rows := seq(|results|, i requires 0 <= i < |results| => Project(results[i], short));
      Some(Display(|results|, Table(short, rows), if PartColumn in columns then Some(PartLines(results)) else None))
  }
}
