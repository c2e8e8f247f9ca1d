# Debutants dashboard: a Dafny model of the debut-record pipeline

The dashboard loads a spreadsheet of football players' debut records. It renames the columns
and derives a few fields: the debut year, a relabelled German "1. Bundesliga", and a
competition/country key and selector label. It adds a percent change between the market
value at debut and the current value. It drops rows without a valid age, then narrows the
table through five user filters: competition, month, year, maximum age and minimum minutes.
It shows the result sorted by debut date, latest first, projected onto a fixed list of
display columns. The current market value cell is highlighted green or red, and the money
and percent cells are formatted.

This project models that pipeline on values. A table is a list of column names plus a
sequence of `Row` records. A missing cell (NaN, NaT, None) is `None`. A check such as
`'Age at Debut' in data.columns` becomes `AgeCol in t.columns`. The stages that reassign the
table step by step are methods: `Loading.Load`, `Dashboard.AddPercentChange`,
`Filtering.DropInvalidAges`, `Filtering.ApplyFilters`, `Presentation.SortForDisplay` and
`Dashboard.Run`. Each one is proved against the specification functions beside it.

Modules, in pipeline order:

- `Wrappers`: `Option`.
- `Text`: Python's `str.replace`, `isdigit`, `int` and `str` on naturals.
- `Records`: `Row`, `Table`, the column names, renaming, and the cell values of the view.
- `Loading`: the loader.
- `Metrics`: the percent change.
- `Filtering`: boolean-mask row selection, the age clean-up and the five filters.
- `Selectors`: the choices the competition and year filters offer.
- `Presentation`: sort, projection, highlight and formatters.
- `Dashboard`: one full run.

The code does not do the following, and neither does the model:

- The code does not normalise the case or whitespace of month names.
- The code offers months in alphabetical order, not calendar order.
- The code does not build hyperlinks from profile URLs.
- The code highlights only the current market value cell, not the percent-change cell.
- The code does not promise a stable sort.

## Model

| member | source | states |
|---|---|---|
| `Records.RenameColumns` | py_github_debutants_01.py:61-84 | each header is replaced by its display name when it is one of the 19 source names, else kept; positions and count unchanged |
| `Records.RenameIsInjective` | py_github_debutants_01.py:61-84 | no two source columns are renamed to the same display column |
| `Records.WithColumn` | py_github_debutants_01.py:88 | assigning a derived column adds it exactly once, at the end, keeping every existing column in place |
| `Loading.Load` | py_github_debutants_01.py:86-101 | the load fails (None) exactly when the renamed sheet lacks Debut Date, Competition or Country; otherwise every row is the derived row of its raw row and the three derived columns are added |
| `Loading.BundesligaRelabelled` | py_github_debutants_01.py:90-96 | no loaded row is Bundesliga/Germany; such rows read "1. Bundesliga" in competition, key and label; every other competition and every country is unchanged |
| `Loading.DerivedIsIdempotent` | py_github_debutants_01.py:86-96 | recomputing the derived fields of a loaded row changes nothing |
| `Loading.KeyAndLabelAgree` | py_github_debutants_01.py:95-96 | key is Competition + "\|\|" + Country-or-"" and label is Competition + " (" + Country-or-"" + ")"; both are missing exactly when the competition is |
| `Loading.LabelToKeyInvertsLabel` | py_github_debutants_01.py:243 | the label-to-key conversion applied to a label gives back the key, when neither field contains " (" or ")" |
| `Loading.KeyIsInjective` | py_github_debutants_01.py:95 | equal filter keys come from equal competitions and countries, when competitions contain no '\|' |
| `Loading.LoadedLabelSelectsOwnKey` | py_github_debutants_01.py:95-96 | for a loaded row with such clean fields, its label converts back to its own key |
| `Text.ShowNat` | py_github_debutants_01.py:197 | the decimal rendering of a year is a non-empty digit string without a leading zero |
| `Text.ShowNatRoundTrip` | py_github_debutants_01.py:252 | `int(str(n)) == n` |
| `Metrics.PercentChange` | py_github_debutants_01.py:137-142 | undefined exactly when the value at debut or the current value is missing or the value at debut is 0; otherwise the change times the value at debut is (current - debut) * 100 |
| `Metrics.PercentChangeRecoversCurrent` | py_github_debutants_01.py:142 | a defined change applied to the value at debut gives back the current value |
| `Metrics.PercentChangeSign` | py_github_debutants_01.py:137-142 | for a positive value at debut the change is positive, negative or zero exactly when the value rose, fell or stayed |
| `Dashboard.AddPercentChange` | py_github_debutants_01.py:162 | adds "% Change" to every row; it is missing exactly when a value is missing (an absent column reads as missing) or the value at debut is 0 |
| `Dashboard.PreparedRowFacts` | py_github_debutants_01.py:90-96 | a prepared row is never Bundesliga/Germany and carries the key and label of its own fields |
| `Filtering.Sieve` | py_github_debutants_01.py:239-261 | the kept rows are exactly the rows satisfying every criterion, as a subsequence of the input (order kept, nothing added), and every copy of a kept row is kept |
| `Filtering.SieveWithoutCriteria` | py_github_debutants_01.py:239 | with no criterion the copy equals the input |
| `Filtering.SieveStep` | py_github_debutants_01.py:239-261 | one more mask applied to a filtered table equals filtering once by the longer list of criteria |
| `Filtering.SieveIdempotent` | py_github_debutants_01.py:239-261 | re-applying the same criteria changes nothing |
| `Filtering.HoldsWhen` | py_github_debutants_01.py:242-261 | a step that is switched off passes every row; a step that is on passes exactly the rows that satisfy its criterion |
| `Filtering.AgeCleanupHolds` | py_github_debutants_01.py:164-165 | a row passing the clean-up of a sheet with an age column has an age, and it is at least 0 |
| `Filtering.DropInvalidAges` | py_github_debutants_01.py:164-165 | with an age column, the rows kept are exactly those with an age of at least 0 (a missing age is dropped); without one the table is unchanged |
| `Filtering.Narrow` | py_github_debutants_01.py:242-244 | one `if active: filtered = filtered[mask]` step extends the applied criteria by that mask when active and keeps the rows sieved by them |
| `Filtering.ApplyFilters` | py_github_debutants_01.py:239-261 | the five steps leave the columns unchanged and yield exactly the reference filter of the selection |
| `Filtering.ActiveCriteriaHold` | py_github_debutants_01.py:241-261 | a row satisfies the active criteria of a selection iff it passes each dimension that is switched on |
| `Filtering.FilterMembership` | py_github_debutants_01.py:241-261 | a row is shown iff it is in the table and passes each active dimension: picked key, month, year (each bypassed when nothing or "All" is picked), age at most the maximum and minutes at least the minimum (each when the column exists; missing values fail) |
| `Filtering.FilterIdempotent` | py_github_debutants_01.py:239-261 | filtering the filtered table again with the same selection changes nothing |
| `Filtering.NonNumericYearsShowNothing` | py_github_debutants_01.py:250-253 | a year selection without "All" and with no all-digit label yields zero rows |
| `Selectors.PickedLabelKeepsRow` | py_github_debutants_01.py:241-244 | picking a loaded row's own label (clean fields) makes its key one of the selected keys |
| `Selectors.OfferedLabelsSelectTheirRows` | py_github_debutants_01.py:175-178 | picking offered competition labels without "All" keeps a row iff its own label was picked, when every row has clean names and its own key and label |
| `Selectors.WholeYearsWhenNoneMissing` | py_github_debutants_01.py:88 | when no loaded row lacks a year, the year choices are the whole-number labels |
| `Selectors.FloatLabelIsNotDigits` | py_github_debutants_01.py:252 | a label such as "2020.0" is not all digits |
| `Selectors.AsWrittenYearPicksShowNothing` | py_github_debutants_01.py:196-197 | when one loaded row lacks a debut year (a float64 column), any pick of offered year labels without "All" shows no row of the working set |
| `Selectors.AsWrittenYearPickCounterexample` | py_github_debutants_01.py:196-197 | a dated and an undated row: the offered years are {"All", "2020.0"}, and picking "2020.0" gives zero rows |
| `Selectors.PickedYearsKeepTheirRows` | py_github_debutants_01.py:250-253 | with whole-number year labels, a row passes the year step iff the label of its year was picked |
| `Presentation.Insert` | py_github_debutants_01.py:265 | inserting a row adds exactly that row to the multiset |
| `Presentation.InsertKeepsOrder` | py_github_debutants_01.py:265 | inserting into a latest-first list keeps it latest first |
| `Presentation.SortByDate` | py_github_debutants_01.py:265 | the result is a permutation of the input, ordered by debut date non-increasing with missing dates last |
| `Presentation.SortForDisplay` | py_github_debutants_01.py:263-265 | a non-empty table with a date column becomes a latest-first permutation of itself; otherwise it is unchanged; columns unchanged |
| `Presentation.PresentColumns` | py_github_debutants_01.py:286 | keeps exactly the allowlisted columns present in the table, in allowlist order |
| `Presentation.ShownColumnsInDisplayOrder` | py_github_debutants_01.py:268-286 | the view header is the present display columns, in display order, each once |
| `Presentation.Project` | py_github_debutants_01.py:286-287 | one view row per table row; each cell is that row's value in that header column |
| `Presentation.HighlightRule` | py_github_debutants_01.py:125-132 | only current-market-value cells are styled: green iff both values present and current > debut, red iff current < debut, empty otherwise |
| `Presentation.NoHighlightWithoutBothColumns` | py_github_debutants_01.py:127 | without both value columns every style is empty |
| `Presentation.RenderedNulls` | py_github_debutants_01.py:294-312 | a missing money cell shows "€0", a missing change shows "", every other column keeps its default rendering; the two null conventions differ |
| `Dashboard.WorkingSetAgesValid` | py_github_debutants_01.py:164-165 | with an age column, every working-set row has an age of at least 0 |
| `Dashboard.WorkingSetCompetitions` | py_github_debutants_01.py:90-96 | no working-set row is Bundesliga/Germany, and each carries its own key and label |
| `Dashboard.HighlightMatchesPercentChange` | py_github_debutants_01.py:125-142 | for a positive value at debut, the market value cell is green iff the change is positive and red iff it is negative |
| `Dashboard.Run` | py_github_debutants_01.py:155-314 | fails exactly when loading fails; otherwise shows a latest-first permutation of the filtered working set, its projection, styles and formatting. Year picks come from the offered choices: when a loaded year is missing a year pick shows nothing, otherwise every shown row's year is a picked label. With clean names and offered competition picks, every shown row's label is picked |

## Findings

| source | as written | input that shows it | evidently intended | confidence | as-written member | corrected member |
|---|---|---|---|---|---|---|
| py_github_debutants_01.py:196-197 | year choices are `str(yr)` of the `Debut Year` column. That column is float64 as soon as one debut date is NaT, so the labels read "2020.0". Line 252 keeps only `isdigit()` labels, so it drops all of them | one row dated 2020 and one with an unparseable date; pick "2020.0" | the label "2020" selects the 2020 debutants | not executed | `Selectors.AsWrittenYearPicksShowNothing` | `Selectors.PickedYearsKeepTheirRows` |

With whole-number labels (`Selectors.YearOptions`), picking years keeps exactly the debutants
of those years. `Dashboard.Run` takes its year picks from the choices as built
(`Dashboard.YearChoices`). It shows both outcomes: no row when a loaded year is missing, and
the rows of the picked years otherwise.

## Left out

- Page layout, widgets, buttons, messages, session state and the Clear callback are UI and framework state. The model takes the user's choices as a `Selection` value.
- Slider bounds (lines 203-223) are left out. The chosen maximum age and minimum minutes are inputs.
- Login and authentication (lines 23-45) are left out. They read an external secret store.
- The download, spreadsheet reading and caching are left out (lines 50-57 and 60). The model starts from the header row and the rows already read.
- The Excel export (lines 317-326) is file I/O and is not modelled.
- Date parsing (`pd.to_datetime(errors='coerce')`) is not modelled. A raw row already holds an optional `Date`.
- The `DD.MM.YYYY` rendering after sorting (line 266) is not modelled. The view keeps the date value.
- The digits of a present amount or percentage (`€{x:,.0f}`, `{x:+.1f}%`) are not modelled. They are the abstract `Shown.Euro` and `Shown.Signed`. Only the null branches are literal.
- Floating point is not modelled. Amounts, ages and percentages are exact reals. Integer columns are unbounded.
- Ties in the date sort are not modelled. `sort_values` is not stable, so `SortByDate` is one admissible order. The contract promises only the permutation and the order by date.
- The order in which choices are offered (the `sorted(...)` calls at lines 176, 186 and 196) is not modelled. Choices are modelled as sets. The month choices are not modelled at all.
- Failures other than a missing required column are not modelled. For example, a non-text competition value turning `+` into a TypeError would also make the loader return None.
- Each source name maps to one display name, and columns are a list. Duplicate column names, which pandas permits, are not modelled.
- `Text.IsDigits` models only the ASCII digits. Python's `isdigit()` also accepts other Unicode digit characters, which `int()` may then reject.
- `Selectors.OfferedLabelsSelectTheirRows`: stated only for names without " (", ")" and, in the competition, '|'. Other names can map two labels to one key.
- `Loading.LabelToKeyInvertsLabel`: stated only for competitions and countries without " (" or ")". For other names the conversion at line 243 can produce a different key.
