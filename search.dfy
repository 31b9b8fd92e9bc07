/** The search block: both inputs are trimmed, a query with both fragments
    empty is rejected, and otherwise the table is narrowed by each non-empty
    fragment in turn with a case-insensitive literal containment test. */
module Matcher {
  import opened Text
  import opened Table
  import opened Sequences

  /** The trimmed name fragment and relation-name fragment of an accepted query. */
  datatype Query = Query(name: string, relation: string)

  /** Trims both inputs; `None` when both are then empty, which is the
      warning and `st.stop()` of the search block. */
  function ParseQuery(voterName: string, relationName: string): (r: Option<Query>)
    ensures r.None? <==> Strip(voterName) == [] && Strip(relationName) == []
    ensures r.Some? ==> r.value.name == Strip(voterName) && r.value.relation == Strip(relationName)
    ensures r.Some? ==> IsStripped(r.value.name) && IsStripped(r.value.relation)
    ensures r.Some? ==> r.value.name != [] || r.value.relation != []
  {
    var name := Strip(voterName);
    var relation := Strip(relationName);
    if name == [] && relation == [] then None else Some(Query(name, relation))
  }

  /** `safe_contains` on one row: the cell contains the fragment ignoring
      case, and a missing cell never does (`na=False`). Loading turns every
      missing name and relation name into the text `"nan"`, so on the two
      searched columns of a loaded table the missing case does not arise. */
  predicate CellContains(row: Record, c: Column, fragment: string) {
    match Cell(row, c)
    case None => false
    case Some(s) => ContainsIgnoreCase(s, fragment)
  }

  /** `results[safe_contains(results[c], fragment)]`: the rows whose column
      `c` contains `fragment`, in their order. */
  function FilterColumn(rows: seq<Record>, c: Column, fragment: string): seq<Record> {
    Select(rows, row => CellContains(row, c, fragment))
  }

  /** The search block on an accepted query: all rows, then the name filter
      if the name fragment is non-empty, then the relation filter if the
      relation fragment is non-empty. */
  function Search(rows: seq<Record>, q: Query): seq<Record> {
    var byName := if q.name != [] then FilterColumn(rows, NameColumn, q.name) else rows;
    if q.relation != [] then FilterColumn(byName, RelationColumn, q.relation) else byName
  }

  /** What a matching row is, independently of how the filters are applied:
      each non-empty fragment is contained in its column; an empty one asks nothing. */
  predicate Satisfies(row: Record, q: Query) {
    && (q.name != [] ==> CellContains(row, NameColumn, q.name))
    && (q.relation != [] ==> CellContains(row, RelationColumn, q.relation))
  }

  /** Reference selection in one pass: the rows that satisfy the query, in order. */
  function Matching(rows: seq<Record>, q: Query): seq<Record> {
    Select(rows, row => Satisfies(row, q))
  }

  /** The search block's successive filters select exactly the rows that
      satisfy the query, in their original order. */
  lemma SearchIsMatching(rows: seq<Record>, q: Query)
    ensures Search(rows, q) == Matching(rows, q)
  {
    var byName := (row: Record) => CellContains(row, NameColumn, q.name);
    var byRelation := (row: Record) => CellContains(row, RelationColumn, q.relation);
    var satisfies := (row: Record) => Satisfies(row, q);
    if q.name != [] && q.relation != [] {
      SelectBoth(rows, byName, byRelation, satisfies);
    } else if q.name != [] {
      SelectExtensional(rows, byName, satisfies);
    } else if q.relation != [] {
      SelectExtensional(rows, byRelation, satisfies);
    } else {
      SelectAll(rows, satisfies);
    }
  }

  /** The two column filters can be applied in either order. */
  lemma FilterColumnsCommute(rows: seq<Record>, c1: Column, f1: string, c2: Column, f2: string)
    ensures FilterColumn(FilterColumn(rows, c1, f1), c2, f2) == FilterColumn(FilterColumn(rows, c2, f2), c1, f1)
  {
    var p1 := (row: Record) => CellContains(row, c1, f1);
    var p2 := (row: Record) => CellContains(row, c2, f2);
    var both := (row: Record) => p1(row) && p2(row);
    SelectBoth(rows, p1, p2, both);
    SelectBoth(rows, p2, p1, both);
  }

  /** Soundness and completeness of the search: a row is returned exactly
      when it is in the table, its name contains a non-empty name fragment
      and its relation name contains a non-empty relation fragment, both
      ignoring case. The result keeps the table's order. Membership and order
      do not fix how often a repeated row is returned: `SearchIsMatching`
      does, by equating the search with the one-pass `Matching`. */
  lemma SearchSoundAndComplete(rows: seq<Record>, q: Query)
    ensures forall row :: row in Search(rows, q) <==>
      && row in rows
      && (q.name != [] ==> CellContains(row, NameColumn, q.name))
      && (q.relation != [] ==> CellContains(row, RelationColumn, q.relation))
    ensures IsSubsequence(Search(rows, q), rows)
  {
    SearchIsMatching(rows, q);
    var satisfies := (row: Record) => Satisfies(row, q);
    forall row ensures row in Matching(rows, q) <==> row in rows && Satisfies(row, q) {
      SelectMembers(rows, satisfies, row);
    }
    SelectSubsequence(rows, satisfies);
  }

  /** A fragment whose first character never appears in a value is not contained in it. */
  lemma FirstCharAbsent(s: string, p: string)
    requires p != [] && p[0] !in s
    ensures !Contains(s, p)
  {
  }

  /** A one-voter roll: a search by that voter's name finds the record, and
      adding a relation name that does not occur in it finds nothing. */
  lemma OneVoterScenario()
    ensures var row: Record := map[NameColumn := Some("ராமு"), RelationColumn := Some("முருகேசன்")];
      && Search([row], Query("ராமு", "")) == [row]
      && Search([row], Query("ராமு", "வேறு")) == []
  {
    var row: Record := map[NameColumn := Some("ராமு"), RelationColumn := Some("முருகேசன்")];
    var name, relation := "ராமு", "முருகேசன்";
    assert Upper(name) == name;
    assert Upper(relation) == relation;
    assert Upper("வேறு") == "வேறு";
    assert name[0..|name|] == name;
    ContainsIgnoreCaseInfix(name, 0, |name|);
    assert CellContains(row, NameColumn, name);
    FirstCharAbsent(relation, "வேறு");
    assert !CellContains(row, RelationColumn, "வேறு");
    SelectSingleton(row, (r: Record) => CellContains(r, NameColumn, name));
    SelectSingleton(row, (r: Record) => CellContains(r, RelationColumn, "வேறு"));
  }

  /** `results = results[safe_contains(results[c], fragment)]` as a scan over the rows. */
  method FilterColumnScan(rows: seq<Record>, c: Column, fragment: string) returns (kept: seq<Record>)
    ensures kept == FilterColumn(rows, c, fragment)
  {
    ghost var contains := (row: Record) => CellContains(row, c, fragment);
    kept := [];
    for i := 0 to |rows|
      invariant kept == Select(rows[..i], contains)
    {
      assert rows[..i + 1][..i] == rows[..i];
      if CellContains(rows[i], c, fragment) {
        kept := kept + [rows[i]];
      }
    }
    assert rows[..|rows|] == rows;
  }

  /** The search block on an accepted query: `results` is rebound first to
      the whole table and then through each active filter. */
  method RunSearch(rows: seq<Record>, q: Query) returns (results: seq<Record>)
    ensures results == Matching(rows, q)
  {
    results := rows;
    if q.name != [] {
      results := FilterColumnScan(results, NameColumn, q.name);
    }
    if q.relation != [] {
      results := FilterColumnScan(results, RelationColumn, q.relation);
    }
    SearchIsMatching(rows, q);
  }
}
