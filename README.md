# Dependent-filter cascade of the Île-de-France lycées dashboard

This project models the filtering logic of a small Dash dashboard. The dashboard
shows the lycées of Île-de-France on a map. The user narrows the map with four
dropdowns: académie, département, commune and établissement. Two callbacks carry
the logic, and both are modelled here as pure functions over a sequence of rows:

- `update_map` keeps the rows whose `Academie`, `Departement`, `Nom_commune` and
  `Nom_etablissement` equal the chosen values. A dropdown left empty (None or the
  empty string, both falsy in Python) filters nothing.
- `update_dropdowns` recomputes the options of the three dependent dropdowns
  along the chain académie → département → commune → établissement. Each list is
  the sorted distinct values of its column over the rows left by the filters
  before it. A chosen département or commune that is not among its fresh options
  is reset to None, and only a value that survives that check narrows the next
  list. The établissement value is always reset to None.

The initial option lists of the sidebar are the sorted distinct values of each
column over the whole table.

Files:

- `ordering.dfy` (module `StringOrder`): Python's `<` on strings, which
  compares code points lexicographically, proved to be a strict total order.
  Also `SortedDistinct`, the `sorted(column.unique())` idiom, and the fact that a
  strictly ascending list is determined by its set of values.
- `table.dfy` (module `Table`): the row record, the four filter columns, the
  one-column mask selection `df[df[c] == v]`, the falsy-skipping step
  `if sel: df = df[df[c] == sel]`, and a one-pass reference filter `Matching`
  with its lemmas.
- `dashboard.dfy` (module `Dashboard`): the initial option lists, `UpdateMap`,
  `UpdateDropdowns` and the properties that relate them.

Where the specification of the dashboard and `main.py` disagree, the model
follows `main.py`:

- The specification speaks of a specialty filter, a year filter and a success-rate
  series for a chart. `main.py` has no code for any of them: the `barchart` and
  `pie_year` graphs have no callback.
- The specification says the établissement value is reset whenever an upstream
  filter changes. `main.py` returns None for it on every run of the callback,
  whatever changed.
- The specification asks for idempotence on the same selection. The model proves
  the form `main.py` gives: feeding the callback its own corrected values
  reproduces its whole output.
- `selected_dept in departements` is a plain membership test. So an empty-string
  département that happens to be among the options is kept as the returned
  value, but being falsy it does not narrow the communes. The model keeps this.

## Model

| member | source | states |
|---|---|---|
| `StringOrder.SortedDistinct` | main.py:126 | the result is strictly ascending under Python's string order (so it holds no duplicates), holds exactly the values of the input, and is no longer than it |
| `StringOrder.SortedDistinctBySet` | main.py:18-21 | `sorted(...unique())` depends only on the set of values in the column, not on row order or repetitions |
| `Table.Where` | main.py:76 | the mask selection `df[df[c] == v]` keeps exactly the rows of the table whose column `c` equals `v`, and never more rows than the table has |
| `Table.Narrow` | main.py:75-76 | a falsy selection leaves the frame unchanged; a truthy one keeps exactly the rows whose column equals it |
| `Table.MatchingOfMatching` | main.py:75-85 | filtering a filtered view again by a selection that keeps every active filter is the same as filtering the table by that selection directly |
| `Table.MatchingIsSubsequence` | main.py:73-85 | a filtered view is a subsequence of the table: rows are only removed, never reordered or repeated |
| `Dashboard.Options` | main.py:126 | an option list is strictly ascending and holds exactly the values the column takes over the given rows |
| `Dashboard.Initial` | main.py:18-21 | each initial list is strictly ascending and holds exactly the values its column takes somewhere in the whole table |
| `Dashboard.UpdateMap` | main.py:72-85 | a row is in the map subset exactly when it is in the table and equals every truthy selection on its column |
| `Dashboard.Recenters` | main.py:97-103 | the map is re-centred exactly when some row of the table matches every active filter |
| `Dashboard.UpdateMapIsMatching` | main.py:73-85 | the four successive filters give the same sequence as one pass that keeps the rows satisfying all active filters at once |
| `Dashboard.UpdateMapSubsequence` | main.py:73-85 | the map subset keeps table order, and with every dropdown falsy it is the whole table |
| `Dashboard.UpdateMapMonotone` | main.py:75-85 | setting more map filters, keeping the others, yields the previous subset filtered further, hence a subsequence of it |
| `Dashboard.Retain` | main.py:128 | the returned value is the selection when the selection is among the options, and None otherwise |
| `Dashboard.UpdateDropdowns` | main.py:119-145 | the three option lists are strictly ascending; département options are the départements of rows matching the académie; the département is kept exactly when among them; commune options come from rows matching the académie and the corrected département; the commune is kept exactly when among them; établissement options come from rows matching the académie, corrected département and corrected commune; the établissement value is None |
| `Dashboard.DropdownsFollowMap` | main.py:119-145 | each returned option list equals the sorted distinct column of the map subset for the corrected selections earlier in the chain |
| `Dashboard.DepartementOptionsWithinInitial` | main.py:122-127 | département options are always among the initial département list, and equal it when no académie is chosen |
| `Dashboard.StaleDepartementDoesNotNarrow` | main.py:128-134 | a département not among its options is returned as None, and the commune options are then those of the académie alone |
| `Dashboard.EtablissementLeavesWithItsDepartement` | main.py:128-145 | an établissement found only in one département is not offered after another legal département is chosen, and the établissement value is None |
| `Dashboard.ChainIndependence` | main.py:122-136 | the département options do not depend on the chosen département or commune, and the commune options do not depend on the chosen commune |
| `Dashboard.UpdateDropdownsIdempotent` | main.py:119-145 | calling the cascade again with the same académie and its own returned département and commune returns the same six outputs |
| `Dashboard.InitialIsFixedPoint` | main.py:18-21 | with nothing chosen, the cascade offers exactly the sidebar's initial département, commune and établissement lists and keeps both values None |
| `Dashboard.SingleRowScenario` | main.py:119-128 | on a one-row table with nothing chosen, the map shows that row and the only département option is its département |

## Left out

- Loading the two CSV files, the merge on the establishment identifier and the
  static filter on region and establishment type (main.py:9-15): file I/O and a
  library join. The working table is a parameter of every function.
- The Dash application, the sidebar and content layout, and starting the server
  (main.py:24-62, main.py:148-160): user-interface and server plumbing.
- The Plotly figure (main.py:87-95): a foreign rendering library.
- Recenters: models only whether the map is re-centred; the centre itself is a
  floating-point mean of latitude and longitude and is not modelled.
- The order in which Dash triggers the two callbacks, and the moment when the map
  callback still sees a département that the dropdown callback is about to reset:
  this is framework event wiring.
- Missing values (NaN) and non-string column types in the pandas frame: every
  filtered column is modelled as a string. `sorted` over a column with NaN or
  mixed types behaves differently in Python and is not covered.
- The pandas row index and every column of the join other than the identifier,
  the four filter columns and the year: the filters never read them.
