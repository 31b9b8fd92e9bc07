# Voter-roll search (Pollachi AC, 2002 roll)

This project models the one piece of logic in the search page `search_old_app.py`, a
Streamlit page that searches a voter roll by voter's name and by father's or husband's
name. The model has four parts:

- **Loading** (`Loader`, `loader.dfy`). The sheet is read once. The name column
  `FM_NAME_V2` and the relation column `RLN_FM_NM_V2` are turned into text and stripped
  of surrounding whitespace. A read error gives an empty table. A sheet that has no such
  column raises an uncaught `KeyError`, modelled as the outcome `MissingColumn`.
- **Query validation and matching** (`Matcher`, `search.dfy`). Both inputs are trimmed.
  If both are then empty, the query is rejected. Otherwise the whole table is narrowed,
  first by the name fragment if it is non-empty, then by the relation fragment if it is
  non-empty. Each filter is a case-insensitive literal substring test. The test's
  `na=False` would make a missing cell fail it, but loading has already turned every missing
  name and relation name into the text `"nan"`, so on a loaded table that case never arises.
- **Result shaping** (`Results`, `results.dfy`). This part produces the record count, the
  table without the `"2025 Part name"` column, and the list of part names, where a missing
  part name reads `"—"`. An empty result is the "no matching records" outcome.
- **The page run** (`Page`, `page.dfy`). This composes the three parts above, with the
  `st.stop()` exits returned as values of `Outcome`.

Supporting modules hold the text operations, the mask selection and the records. `Text`
(`text.dfy`) has Python's `str.strip()`, upper-casing, and `in` on strings. `Sequences`
(`sequences.dfy`) has `Select`, which keeps the elements a test accepts in their order.
This is how indexing a table with a boolean mask is modelled. It also has the subsequence
relation. `Table` (`table.dfy`) has the records:
each row is a map from column name to an optional string, and `None` stands for pandas'
missing value.

The source works step by step in three places, and the model keeps each as a method with
a loop:
- the two column assignments in `load_data` overwrite an array of rows in place
  (`NormaliseColumnInPlace`);
- `results` is rebound through each filter by a scan (`FilterColumnScan`, `RunSearch`);
- the `iterrows` loop builds the part-name list (`ListParts`).

Each method is proved equal to a pure function. The properties are proved about those
functions. `Matching`, a one-pass selection by the combined condition `Satisfies`, is the
reference that the two-filter search is shown equal to.

Notes on the source's behaviour:
- pandas' `str.contains(value, case=False, regex=False)` compares `value.upper()` with the
  cell's `upper()`. The model does the same, with `UpperChar`.
- `astype(str)` on an object-dtype text column, which is pandas' behaviour before version
  3.0, turns a missing name into the text `"nan"` before `na=False` could apply.
  So after loading, a missing name is the string `"nan"`, and a search for `"NaN"` matches
  it (`Page.MissingNameReadsAsNan`).
- `DataFrame.empty` holds when there are no rows or no columns (`Table.IsEmpty`).

## Model

| member | source | states |
|---|---|---|
| `Text.Strip` | search_old_app.py:67-68 | the result has no leading or trailing whitespace, using Python's whitespace set |
| `Text.StripFrame` | search_old_app.py:67-68 | stripping removes only whitespace: the input is the result with a run of whitespace before it and a run after it |
| `Text.StripUnique` | search_old_app.py:96-97 | any stripped infix framed by whitespace on both sides is the strip, so there is exactly one way to strip a string |
| `Text.StripFixedIff` | search_old_app.py:67-68 | a string equals its own strip if and only if it has no leading or trailing whitespace |
| `Text.StripIdempotent` | search_old_app.py:67-68 | stripping twice gives the same result as stripping once |
| `Text.Contains` | search_old_app.py:105-106 | the literal (`regex=False`) containment test is true exactly when the fragment occurs at some index of the value |
| `Text.ContainsIgnoreCaseUpper` | search_old_app.py:105-106 | the `case=False` test gives the same answer when the value, the fragment, or both are upper-cased first |
| `Text.ContainsIgnoreCaseInfix` | search_old_app.py:105-106 | every fragment cut from a value is found in it by the case-insensitive test |
| `Loader.NormaliseColumnInPlace` | search_old_app.py:67-68 | overwriting a column in place leaves each row as its normalised version, at the same position |
| `Loader.LoadData` | search_old_app.py:60-70 | a read failure gives the empty table; a missing name or relation column (in that order) is the `KeyError`; otherwise both columns are normalised |
| `Loader.LoadNormalises` | search_old_app.py:67-68 | after loading, the columns and row order are unchanged; each name and relation name is the stripped text of its original cell; every other cell is untouched |
| `Loader.LoadedColumnsStripped` | search_old_app.py:67-68 | every loaded name and relation name is present, has no leading or trailing whitespace, and equals its own strip |
| `Loader.LoadIdempotent` | search_old_app.py:67-68 | loading an already loaded table again yields the same table |
| `Loader.LoadFailureIsEmpty` | search_old_app.py:61-65 | a read failure loads as an empty table |
| `Matcher.ParseQuery` | search_old_app.py:96-101 | the query is rejected exactly when both trimmed inputs are empty; an accepted query holds the two trimmed inputs, neither has surrounding whitespace, and at least one is non-empty |
| `Matcher.SearchIsMatching` | search_old_app.py:103-112 | applying the name filter and then the relation filter, each only when its fragment is non-empty, gives exactly the rows that satisfy both active conditions, in table order |
| `Sequences.SelectBoth` | search_old_app.py:108-112 | narrowing by one mask and then by a second is the same as selecting once by both conditions |
| `Sequences.SelectMembers` | search_old_app.py:109 | an element is kept exactly when it occurs in the sequence and passes the test |
| `Sequences.SelectSubsequence` | search_old_app.py:109 | mask selection keeps the original order |
| `Matcher.FilterColumnsCommute` | search_old_app.py:108-112 | the two column filters give the same result in either order |
| `Matcher.SearchSoundAndComplete` | search_old_app.py:103-112 | a row is in the search result exactly when it is in the table, its name contains a non-empty name fragment, and its relation name contains a non-empty relation fragment, ignoring case; an empty fragment imposes nothing; the result is a subsequence of the table |
| `Matcher.OneVoterScenario` | search_old_app.py:108-112 | on a one-voter roll, searching by that voter's Tamil name finds the record; adding a relation name that does not occur in it finds nothing |
| `Matcher.FilterColumnScan` | search_old_app.py:105-109 | the scan over the rows keeps exactly the rows the column filter keeps, in order |
| `Matcher.RunSearch` | search_old_app.py:103-112 | rebinding `results` through the active filters yields exactly the rows that satisfy the query, in order |
| `Results.ShortColumnsExact` | search_old_app.py:121-122 | the display columns are exactly the table's columns other than `"2025 Part name"`, as a subsequence in original order |
| `Results.ShortColumnsWithoutPart` | search_old_app.py:121-122 | when there is no part-name column, every column is displayed |
| `Results.ListParts` | search_old_app.py:128-140 | there is one part-name entry per result row, in order, holding the row's name and its part name, or `"—"` where the part name is missing |
| `Results.Present` | search_old_app.py:117-143 | the no-match branch is taken exactly when the result is empty; otherwise the reported count equals the number of rows, the shown table has one row per result row, in order, holding every cell of that row except the part name, and the part-name list is present exactly when the column exists and then holds each row's name and part name, with `"—"` for a missing part name |
| `Table.IsEmpty` | search_old_app.py:73 | defines `DataFrame.empty`: no rows or no columns; `Loader.LoadFailureIsEmpty` and `Page.ReadFailureStops` use it |
| `Text.UpperChar` | search_old_app.py:106 | defines `str.upper` on one character as used by `case=False`: `a`–`z` become `A`–`Z`, every other character is unchanged |
| `Text.Upper` | search_old_app.py:106 | defines `str.upper` on a string, character by character; `Text.ContainsIgnoreCaseUpper` shows the test is unaffected by it |
| `Text.ContainsIgnoreCase` | search_old_app.py:105-106 | defines `str.contains(value, case=False, regex=False)` on one value as `value.upper() in cell.upper()`; its properties are `Text.ContainsIgnoreCaseUpper` and `Text.ContainsIgnoreCaseInfix` |
| `Loader.ToText` | search_old_app.py:67-68 | defines `astype(str)` on a text cell: text stays as it is and a missing value becomes `"nan"` |
| `Loader.NormaliseRow` | search_old_app.py:67-68 | defines one row after a column assignment: the column holds the stripped text of its old cell; `Loader.NormaliseRowFixed` shows a stripped cell is left alone |
| `Loader.NormaliseColumn` | search_old_app.py:67-68 | defines a column assignment on every row, position by position; `Loader.NormaliseColumnInPlace` is proved equal to it |
| `Loader.Load` | search_old_app.py:60-70 | defines `load_data`: the empty table on a read error, the `KeyError` for a missing name column and then a missing relation column, otherwise both columns normalised; its properties are `Loader.LoadNormalises`, `Loader.LoadIdempotent` and `Loader.LoadFailureIsEmpty` |
| `Matcher.CellContains` | search_old_app.py:105-106 | defines `safe_contains` on one row: the cell contains the fragment ignoring case, and a missing cell fails (`na=False`) |
| `Matcher.FilterColumn` | search_old_app.py:109 | defines `results[safe_contains(results[c], fragment)]` as the mask selection of the rows whose column `c` contains the fragment; `Matcher.FilterColumnScan` is proved equal to it |
| `Matcher.Search` | search_old_app.py:103-112 | defines the search block: the name filter when the name fragment is non-empty, then the relation filter when the relation fragment is non-empty; `Matcher.SearchIsMatching` and `Matcher.SearchSoundAndComplete` state what it returns |
| `Results.ShortColumns` | search_old_app.py:121-122 | defines `short_cols` as the selection of the columns other than `"2025 Part name"`; `Results.ShortColumnsExact` states what it holds |
| `Results.PartText` | search_old_app.py:132-134 | defines the displayed part name: the cell's text, or `"—"` when it is missing |
| `Results.PartLines` | search_old_app.py:131-139 | defines the part-name list, one entry per result row in order; `Results.ListParts` is proved equal to it |
| `Page.Run` | search_old_app.py:72-143 | defines one run of the page as the composition of load, emptiness check, button, query check, search and results; `Page.RunPage` is proved equal to it |
| `Page.RunPage` | search_old_app.py:72-143 | the page script, step by step, ends with the same outcome as the composed load, check, search and shaping |
| `Page.ReadFailureStops` | search_old_app.py:61-74 | when the sheet cannot be read, the page stops before any search, whatever the inputs |
| `Page.EmptyQueryRejected` | search_old_app.py:94-101 | with data loaded and the button pressed, the page rejects the query exactly when both trimmed inputs are empty |
| `Page.AcceptedRun` | search_old_app.py:103-143 | with data loaded, the button pressed and the query accepted, the page ends in the results block applied to the rows that satisfy the query |
| `Page.SearchOutcome` | search_old_app.py:103-143 | with data loaded, the button pressed and the query accepted, the page ends in "no match" or with results; it reports no match exactly when no row satisfies the query, and otherwise a count equal to the number of matching rows |
| `Page.SearchDisplay` | search_old_app.py:117-140 | when the page shows results, the table holds exactly the matching rows in order with every cell except the part name, and when the part-name column exists the list holds each matching row's name and part name, with `"—"` for a missing part name |
| `Page.MissingNameReadsAsNan` | search_old_app.py:67 | a missing name is loaded as the text `"nan"`, and the name fragment `"NaN"` matches it |

## Left out

- Streamlit page setup, CSS, titles, text inputs, the button widget and all rendering. These
  are presentation only. The button press is an input flag, and the `st.stop()` exits and
  their messages are `Outcome` values.
- `pd.read_excel` and the spreadsheet format. Parsing happens in a library, so the model
  takes either an already-parsed table or a read error. The error message is only
  displayed, so the model ignores it.
- `@st.cache_data` memoisation. The model treats the load as happening once per run.
- `Text.UpperChar`, `Text.Upper`: upper-case only the Latin letters `a`–`z`. Python's full Unicode
  `str.upper` is not modelled (for example `é`); `Text.Upper` keeps the length of its input, so a
  mapping to several characters, such as `ß` becoming `SS`, cannot be expressed. Tamil script has no
  case, so for Tamil text the model gives the same result.
- `Loader.ToText`: `astype(str)` is modelled only on text and missing cells, with the
  object-dtype behaviour of pandas before 3.0 (a missing value becomes `"nan"`). Under pandas
  3's default string dtype a missing value stays missing; that variant is not modelled.
  Other cell types (numbers, dates) are not modelled.
- The exact-match variant of the search. It is not in `search_old_app.py`, so it is not
  part of this model.
