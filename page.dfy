/** One run of the search page: load the roll, stop when it is empty, and on
    a press of the search button validate the query, search, and show the outcome. */
module Page {
  import opened Text
  import opened Table
  import opened Loader
  import opened Matcher
  import opened Results
  import opened Sequences

  /** How a run of the page ends. `Crashed` is an uncaught `KeyError` from
      `load_data`; `NoData`, `EmptyQuery` and `NoMatch` are the three
      `st.stop()`/error exits; `Idle` is a run without a button press. */
  datatype Outcome =
    | Crashed(column: Column)
    | NoData
    | Idle
    | EmptyQuery
    | NoMatch
    | Found(display: Display)

  /** The page as a function of what was read, the two text inputs and
      whether the search button was pressed. */
  function Run(read: ReadResult, voterName: string, relationName: string, pressed: bool): Outcome {
    match Load(read)
    case MissingColumn(c) => Crashed(c)
    case Loaded(t) =>
      if IsEmpty(t) then NoData
      else if !pressed then Idle
      else match ParseQuery(voterName, relationName)
        case None => EmptyQuery
        case Some(q) =>
          match Present(t.columns, Search(t.rows, q))
          case None => NoMatch
          case Some(d) => Found(d)
  }

  /** The page script, step by step. */
  method RunPage(read: ReadResult, voterName: string, relationName: string, pressed: bool)
    returns (outcome: Outcome)
    ensures outcome == Run(read, voterName, relationName, pressed)
  {
    var loaded := LoadData(read);
    if loaded.MissingColumn? {
      return Crashed(loaded.column);
    }
    var t := loaded.table;
    if IsEmpty(t) {
      return NoData;
    }
    if !pressed {
      return Idle;
    }
    var query := ParseQuery(voterName, relationName);
    if query.None? {
      return EmptyQuery;
    }
    var results := RunSearch(t.rows, query.value);
    SearchIsMatching(t.rows, query.value);
    if IsEmpty(Table(t.columns, results)) {
      return NoMatch;
    }
    var short := ShortColumns(t.columns);
    var shown := seq(|results|, i requires 0 <= i < |results| => Project(results[i], short));
    var parts: Option<seq<PartLine>> := None;
    if PartColumn in t.columns {
      var lines := ListParts(results);
      parts := Some(lines);
    }
    outcome := Found(Display(|results|, Table(short, shown), parts));
  }

  /** A sheet that cannot be read stops the page: no search is attempted,
      whatever the inputs. */
  lemma ReadFailureStops(cause: string, voterName: string, relationName: string, pressed: bool)
    ensures Run(ReadFailed(cause), voterName, relationName, pressed) == NoData
  {
  }

  /** With data loaded and the button pressed, the query is rejected exactly
      when both inputs are blank after trimming. */
  lemma EmptyQueryRejected(read: ReadResult, voterName: string, relationName: string)
    requires Load(read).Loaded? && !IsEmpty(Load(read).table)
    ensures Run(read, voterName, relationName, true) == EmptyQuery
        <==> Strip(voterName) == [] && Strip(relationName) == []
  {
  }

  /** With data loaded, the button pressed and the query accepted, the page
      ends in the results block applied to the search result. */
  lemma AcceptedRun(read: ReadResult, voterName: string, relationName: string)
    requires Load(read).Loaded? && !IsEmpty(Load(read).table)
    requires ParseQuery(voterName, relationName).Some?
    ensures var t, q := Load(read).table, ParseQuery(voterName, relationName).value;
      var shown := Present(t.columns, Matching(t.rows, q));
      Run(read, voterName, relationName, true) == if shown.None? then NoMatch else Found(shown.value)
  {
    SearchIsMatching(Load(read).table.rows, ParseQuery(voterName, relationName).value);
  }

  /** With data loaded, the button pressed and the query accepted, the page
      ends either in "no match" or with results; it reports no match exactly
      when no row satisfies the query, and otherwise as many records as there
      are matching rows. */
  lemma SearchOutcome(read: ReadResult, voterName: string, relationName: string)
    requires Load(read).Loaded? && !IsEmpty(Load(read).table)
    requires ParseQuery(voterName, relationName).Some?
    ensures Run(read, voterName, relationName, true).NoMatch? || Run(read, voterName, relationName, true).Found?
    ensures var t, q := Load(read).table, ParseQuery(voterName, relationName).value;
      Run(read, voterName, relationName, true).NoMatch? <==> forall row :: row in t.rows ==> !Satisfies(row, q)
    ensures var t, q := Load(read).table, ParseQuery(voterName, relationName).value;
      Run(read, voterName, relationName, true).Found? ==>
      Run(read, voterName, relationName, true).display.count == |Matching(t.rows, q)| > 0
  {
    AcceptedRun(read, voterName, relationName);
    var t, q := Load(read).table, ParseQuery(voterName, relationName).value;
    var m := Matching(t.rows, q);
    var satisfies := (row: Record) => Satisfies(row, q);
    if m == [] {
      forall row | row in t.rows ensures !Satisfies(row, q) {
        SelectMembers(t.rows, satisfies, row);
      }
    } else {
      SelectMembers(t.rows, satisfies, m[0]);
    }
  }

  /** When the page shows results, the table holds exactly the matching rows,
      in the table's order, with every cell but the part name, and when the
      part-name column exists the list holds each matching row's name and
      part name, `"—"` where the part name is missing. */
  lemma SearchDisplay(read: ReadResult, voterName: string, relationName: string)
    requires Load(read).Loaded? && !IsEmpty(Load(read).table)
    requires ParseQuery(voterName, relationName).Some?
    ensures var t, q := Load(read).table, ParseQuery(voterName, relationName).value;
      Run(read, voterName, relationName, true).Found? ==>
      var d, m := Run(read, voterName, relationName, true).display, Matching(t.rows, q);
      && d.shown.columns == ShortColumns(t.columns)
      && |d.shown.rows| == |m|
      && (forall i, c :: 0 <= i < |m| ==>
            Cell(d.shown.rows[i], c) == if c in t.columns && c != PartColumn then Cell(m[i], c) else None)
      && (d.parts.Some? <==> PartColumn in t.columns)
      && (d.parts.Some? ==> d.parts.value == PartLines(m))
  {
    AcceptedRun(read, voterName, relationName);
  }

  /** A voter whose name cell is missing in the sheet is loaded with the
      name `"nan"` (the text `astype(str)` gives a missing value), so the
      `na=False` of the containment test never applies to it and a name
      fragment such as `"NaN"` finds that row. */
  lemma MissingNameReadsAsNan(row: Record)
    requires Cell(row, NameColumn).None?
    ensures Cell(NormaliseRow(row, NameColumn), NameColumn) == Some("nan")
    ensures CellContains(NormaliseRow(row, NameColumn), NameColumn, "NaN")
  {
    assert Strip("nan") == "nan" by { StripFixedIff("nan"); }
    assert Upper("nan") == "NAN" && Upper("NaN") == "NAN";
    assert OccursAt("NAN", "NAN", 0);
  }
}
