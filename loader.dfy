/** `load_data`: the voter roll is read once, and the two search columns are
    turned into text and stripped before any search sees them. */
module Loader {
  import opened Text
  import opened Table

  /** What reading the spreadsheet produced: an error (its message is only
      displayed) or the parsed first sheet. The parsing itself is not modelled. */
  datatype ReadResult = ReadFailed(cause: string) | Read(sheet: Table)

  /** `Loaded` is the table `load_data` returns; `MissingColumn` is the
      `KeyError` raised, outside the `try`, when a search column is absent. */
  datatype LoadOutcome = Loaded(table: Table) | MissingColumn(column: Column)

  /** pandas' `astype(str)` on a text cell of an object-dtype column, the
      default before pandas 3.0: a missing value becomes the text `"nan"`. */
  function ToText(cell: Option<string>): string {
    match cell
    case None => "nan"
    case Some(s) => s
  }

  /** One row after `df[c] = df[c].astype(str).str.strip()`. */
  function NormaliseRow(row: Record, c: Column): Record {
    row[c := Some(Strip(ToText(Cell(row, c))))]
  }

  /** Every row after `df[c] = df[c].astype(str).str.strip()`. */
  function NormaliseColumn(rows: seq<Record>, c: Column): seq<Record> {
    seq(|rows|, i requires 0 <= i < |rows| => NormaliseRow(rows[i], c))
  }

  /** The table `load_data` produces from what was read. */
  function Load(read: ReadResult): LoadOutcome {
    match read
    case ReadFailed(_) => Loaded(EmptyTable)
    case Read(t) =>
      if NameColumn !in t.columns then MissingColumn(NameColumn)
      else if RelationColumn !in t.columns then MissingColumn(RelationColumn)
      else Loaded(Table(t.columns, NormaliseColumn(NormaliseColumn(t.rows, NameColumn), RelationColumn)))
  }

  /** The column assignment `df[c] = df[c].astype(str).str.strip()`, which
      replaces column `c` of every row in place. */
  method NormaliseColumnInPlace(a: array<Record>, c: Column)
    modifies a
    ensures a[..] == NormaliseColumn(old(a[..]), c)
  {
    ghost var before := a[..];
    var normalise := (row: Record) => NormaliseRow(row, c);
    for i := 0 to a.Length
      invariant forall k :: 0 <= k < i ==> a[k] == normalise(before[k])
      invariant forall k :: i <= k < a.Length ==> a[k] == before[k]
    {
      a[i] := normalise(a[i]);
    }
  }

  /** `load_data`: on a read failure an empty table; otherwise the sheet with
      its name column and then its relation column normalised, failing on the
      first of the two that is absent. */
  method LoadData(read: ReadResult) returns (outcome: LoadOutcome)
    ensures outcome == Load(read)
  {
    if read.ReadFailed? {
      return Loaded(EmptyTable);
    }
    var t := read.sheet;
    var a := new Record[|t.rows|](i requires 0 <= i < |t.rows| => t.rows[i]);
    assert a[..] == t.rows;
    if NameColumn !in t.columns {
      return MissingColumn(NameColumn);
    }
    NormaliseColumnInPlace(a, NameColumn);
    if RelationColumn !in t.columns {
      return MissingColumn(RelationColumn);
    }
    NormaliseColumnInPlace(a, RelationColumn);
    outcome := Loaded(Table(t.columns, a[..]));
  }

  /** After a successful load the columns and the row order are those of the
      sheet, each row's name and relation name are the text of the original
      cell with surrounding whitespace removed, and every other cell is as read. */
  lemma LoadNormalises(t: Table, loaded: Table)
    requires Load(Read(t)) == Loaded(loaded)
    ensures loaded.columns == t.columns && |loaded.rows| == |t.rows|
    ensures forall i :: 0 <= i < |t.rows| ==>
      && Cell(loaded.rows[i], NameColumn) == Some(Strip(ToText(Cell(t.rows[i], NameColumn))))
      && Cell(loaded.rows[i], RelationColumn) == Some(Strip(ToText(Cell(t.rows[i], RelationColumn))))
    ensures forall i, c :: 0 <= i < |t.rows| && c != NameColumn && c != RelationColumn ==>
      Cell(loaded.rows[i], c) == Cell(t.rows[i], c)
  {
  }

  /** After a successful load no name or relation name has leading or
      trailing whitespace: each equals its own strip. */
  lemma LoadedColumnsStripped(t: Table, loaded: Table, i: nat)
    requires Load(Read(t)) == Loaded(loaded)
    requires i < |loaded.rows|
    ensures Cell(loaded.rows[i], NameColumn).Some? && Cell(loaded.rows[i], RelationColumn).Some?
    ensures IsStripped(Cell(loaded.rows[i], NameColumn).value)
    ensures Strip(Cell(loaded.rows[i], NameColumn).value) == Cell(loaded.rows[i], NameColumn).value
    ensures IsStripped(Cell(loaded.rows[i], RelationColumn).value)
    ensures Strip(Cell(loaded.rows[i], RelationColumn).value) == Cell(loaded.rows[i], RelationColumn).value
  {
  }

  /** Normalising a column whose cell is already stripped text leaves the row as it is. */
  lemma NormaliseRowFixed(row: Record, c: Column)
    requires Cell(row, c).Some? && IsStripped(Cell(row, c).value)
    ensures NormaliseRow(row, c) == row
  {
    StripFixedIff(Cell(row, c).value);
  }

  /** Loading an already loaded table again changes nothing. */
  lemma LoadIdempotent(t: Table, loaded: Table)
    requires Load(Read(t)) == Loaded(loaded)
    ensures Load(Read(loaded)) == Loaded(loaded)
  {
    LoadNormalises(t, loaded);
    var once := NormaliseColumn(loaded.rows, NameColumn);
    var again := NormaliseColumn(once, RelationColumn);
    forall i | 0 <= i < |loaded.rows| ensures again[i] == loaded.rows[i] {
      LoadedColumnsStripped(t, loaded, i);
      NormaliseRowFixed(loaded.rows[i], NameColumn);
      NormaliseRowFixed(loaded.rows[i], RelationColumn);
    }
    assert again == loaded.rows;
  }

  /** A sheet that cannot be read loads as an empty table, which stops the
      page before any search. */
  lemma LoadFailureIsEmpty(cause: string)
    ensures Load(ReadFailed(cause)).Loaded? && IsEmpty(Load(ReadFailed(cause)).table)
  {
  }
}
