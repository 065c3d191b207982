# Mortality dashboard core, modelled in Dafny

`src/app.py` builds a dashboard of the non-fetal deaths, of all ages,
registered in Colombia in 2019. It loads the mortality sheet into a data frame and
normalises the column labels (`upper().strip()`). A resolver then binds
each semantic role (cause code, cause description, municipality, month,
year, sex, department) to the first column whose label contains one of
that role's substrings. A gate stops the script unless the cause,
municipality, month and year roles are bound. After the gate the script
computes seven tables for the charts:

1. deaths per department and coordinates;
2. the five municipalities with the most homicides (cause codes starting
   with `X95`);
3. deaths per month, in month order, each month then named through
   `pd.to_datetime(str(m), format="%m")`;
4. the ten municipalities with the fewest deaths;
5. the ten most frequent (code, description) causes, relabelled;
6. deaths per department and sex label (`Sexo_texto`, derived from the
   sex code);
7. deaths per age category (`Grupo_edad_categoria`, derived from the
   age-group code by `clasificar_grupo`), most frequent first.

The model has these modules (one file each):

- `Text`: `strip`, `upper`, substring tests, `str(n)` and `int(s)`.
- `Cells`: a cell value, what `astype(str)` and `int()` make of it, and
  pandas' key order.
- `Frames`: the frame as a value. A `DataFrame` class represents the
  script's `df`, whose labels and columns are updated in place.
- `Columns`: the resolver and the gate.
- `Classify`: the age-group and sex classifiers.
- `GroupBy`: `groupby(...).size()`, `sort_values` on the count, and
  `head(n)`.
- `Tables`: result tables, `dropna` and `rename`.
- `Dashboard`: the seven tables, the whole script as a function, and
  `RunDashboard`, the script as a method over the `DataFrame`.
- `Samples`: a worked instance of the homicide ranking.

Points of the code's behaviour that the model keeps:

- **Missing keys.** `groupby` with pandas' defaults (`dropna=True`) drops
  every row whose key has a missing cell, so the counts of a table add up
  to the number of rows with a complete key (`Tables.GroupedRows`). Only
  the age table, whose key is derived for every row, counts all rows.
- **Tie order.** `sort_values` uses an unstable sort and no tie-break, so
  the order of equal counts is unspecified. The rankings are specified up
  to that order (`GroupBy.IsRanking`).
- **`MUNICIPIO` vs `CIUDAD`.** The homicide and low-mortality tables group
  by the literal column `MUNICIPIO`, not by the detected municipality
  column. A sheet whose municipality column is `CIUDAD` and which has the
  department columns (`NOM_DEPARTAMENTO`, `LATITUD`, `LONGITUD`) passes
  the gate and then stops with `KeyError('MUNICIPIO')`
  (`Dashboard.MunicipalityLabelRequired`).
- **Month names.** Naming a month parses `str(m)` with the format `%m`,
  which accepts only `1` to `12`, with or without a leading zero. Any other
  month key (0, 13, a text such as `enero`) stops the script with
  `ValueError` (`Dashboard.MonthNumbers`, `Dashboard.MonthOfCell`).

A failure of the script is an `Error` value:

- `MissingColumns` holds the four detected values, for the gate's
  `ValueError`.
- `KeyError(label)` is for a column that `df[...]` or `groupby` cannot find.
- `ValueError(text)` holds the month text the month-name step cannot read.

## Model

| member | source | states |
|---|---|---|
| Text.Strip | src/app.py:11 | `strip()` returns the slice of the label left once whitespace is removed from both ends: only whitespace is cut, and the result neither starts nor ends with whitespace |
| Text.NormalizeIdempotent | src/app.py:11 | normalising a normalised label changes nothing, and a normalised label has no lower-case ASCII letter |
| Frames.DataFrame.NormalizeColumns | src/app.py:11 | the frame's labels become the normalised labels, one for one; no cell changes |
| Columns.Detect | src/app.py:14-20 | the detected column is None exactly when no label contains a substring of the role; otherwise it is the first such label in column order |
| Columns.DetectedIsNonEmptyColumn | src/app.py:14-20 | a detected label is one of the frame's columns and is never empty, so a bound role is truthy |
| Columns.Validate | src/app.py:24-26 | the gate fails exactly when the cause, municipality, month or year role is unbound; the error carries the four detected values; on success all seven roles are as resolved |
| Columns.DescriptionNotAfterCause | src/app.py:14-15 | whenever a cause column is detected, a description column is detected too, at the same position or earlier (`MUERTE` occurs in `COD_MUERTE`) |
| Columns.CodeShadowsDescription | src/app.py:14-15 | when the first label contains `COD_MUERTE`, it is detected as both the cause and its description |
| Columns.ExactLabelDetected | src/app.py:14-20 | a column labelled exactly as one of a role's substrings guarantees that the role is bound |
| Text.ParseDecimal | src/app.py:245 | `int(str(n)) == n` for every integer `n` |
| Cells.RenderIntConverts | src/app.py:245 | an integer cell and its text convert to the same integer code |
| Cells.KeyLessTransitive | src/app.py:35-37 | the order of grouped keys is transitive |
| Cells.KeyLessTotal | src/app.py:35-37 | any two distinct keys are ordered one way or the other |
| Cells.KeyLessIrreflexive | src/app.py:35-37 | no key comes before itself |
| Classify.ClassifyGroup | src/app.py:243-251 | the loop returns the label of the first range containing the converted code; it returns "No especificado" when conversion fails or no range contains the code |
| Classify.ClassifyColumn | src/app.py:254 | `apply(clasificar_grupo)` gives each record the category of its own age-group cell |
| Classify.AgeGroupsDisjoint | src/app.py:228-240 | no code lies in two of the eleven ranges |
| Classify.AgeGroupsCover | src/app.py:228-240 | a code lies in some range exactly when it is between 0 and 29 |
| Classify.AgeCategoryInDomain | src/app.py:228-251 | every code 0..29 gets the label of the one range that contains it |
| Classify.NotSpecifiedExactly | src/app.py:243-251 | the classifier answers "No especificado" exactly when `int()` fails or the code is outside 0..29 |
| Classify.SexLabel | src/app.py:193-194 | 1, 2 and 3 map to Masculino, Femenino and Indeterminado, each label for exactly its code; every other value, missing included, maps to "Desconocido" |
| Frames.Lookup | src/app.py:67 | `df[name]` finds the column exactly when the label is present, at its first position; otherwise the error is `KeyError(name)` |
| Frames.LookupAll | src/app.py:35 | the key columns are found exactly when all are present, each at its position; otherwise the error names the first absent one |
| Frames.WithColumn | src/app.py:194 | after `df[name] = values` the column `name` holds the values (appended when new), and every other column keeps its label, position and cells |
| Frames.DataFrame.SetColumn | src/app.py:194 | the in-place assignment leaves the frame equal to `WithColumn` of the old frame |
| Frames.WithColumnKeepsIndex | src/app.py:254 | adding a column moves no existing column |
| GroupBy.InsertCounts | src/app.py:36 | counting one more row adds one to its key's count and to the total, and changes no other count |
| GroupBy.GroupSizeIsGrouping | src/app.py:35-37 | `size()` lists each key once, in increasing key order, with its exact number of rows (at least one); every key has a group; the counts add up to the number of rows |
| GroupBy.SortByCountContents | src/app.py:75 | sorting by count only reorders the groups (same multiset, same total) |
| GroupBy.SortByCountSorted | src/app.py:75 | the sorted table is ordered by count in the requested direction and keeps keys distinct |
| GroupBy.SortByKeyOfSorted | src/app.py:104 | sorting a table that is already in key order changes nothing |
| GroupBy.SortedGrouping | src/app.py:261 | sorting the grouped counts keeps every key with its exact count, in count order, and keeps the total |
| GroupBy.SortHeadIsRanking | src/app.py:75-76 | `sort_values(...).head(n)` gives at most `n` distinct keys with exact counts in count order; a key is left out only when `n` were kept, none ranking below it |
| Tables.DropnaCounts | src/app.py:35-36 | a key is counted once per row carrying it, unless one of its cells is missing |
| Tables.CountKeysGroups | src/app.py:35-37 | grouping counts exactly the rows whose key has no missing cell, in key order |
| Tables.GroupCounts | src/app.py:35-37 | `groupby(names).size()` succeeds exactly when every key column exists; otherwise its error is the lookup's |
| Tables.GroupCountsRows | src/app.py:35-37 | the counts are those of the rows' keys at the named columns |
| Tables.Rename | src/app.py:154-157 | `rename(columns=...)` relabels the named columns and changes no row or count |
| Dashboard.NumericCodesAreNotHomicides | src/app.py:67 | only a text cell can count as a homicide: `str()` of an integer, of a float or of NaN never starts with `X95` |
| Dashboard.HomicideRowsExact | src/app.py:67 | the homicide subset keeps each homicide row as often as it occurs, and no other row |
| Dashboard.HomicidesExact | src/app.py:67 | every row of `df_hom` has an X95 cause, and it has each such row of `df` as often as `df` does |
| Dashboard.DepartmentTotals | src/app.py:34-38 | the department table exists exactly when its three key columns do; its labels are those of `reset_index(name="TOTAL_MUERTES")` |
| Dashboard.DepartmentTotalsSucceeds | src/app.py:35 | the department table is built exactly when `NOM_DEPARTAMENTO`, `LATITUD` and `LONGITUD` are columns |
| Dashboard.DepartmentTotalsRows | src/app.py:34-38 | the department table counts the rows per (department, latitude, longitude), in key order |
| Dashboard.HomicideRanking | src/app.py:67-77 | the ranking fails exactly when the cause column or `MUNICIPIO` is missing, with the error of the first missing one |
| Dashboard.HomicideRankingIsRanking | src/app.py:71-77 | at most five municipalities by decreasing homicide count, each with its exact count; one is left out only when five were kept, none with fewer homicides |
| Dashboard.MonthlyTotals | src/app.py:103-104 | the month table fails exactly when the month column is missing |
| Dashboard.MonthlyTotalsAscending | src/app.py:103-104 | the month table lists each month once, in increasing month order, with its number of rows |
| Dashboard.MonthOfCell | src/app.py:107-109 | a month read from a key is 1 to 12 and equals `int()` of its text; an integer key is read exactly when it is 1 to 12; a float or NaN key is never read |
| Dashboard.DecimalMonth | src/app.py:107-109 | `str(n)` is accepted by the `%m` format exactly for the integers 1 to 12 |
| Dashboard.MonthNumbers | src/app.py:107-109 | naming the months succeeds exactly when every key reads as a month, giving each row its month; otherwise the error is `ValueError` with the text of the first key that does not |
| Dashboard.MonthNamesSucceed | src/app.py:103-109 | the month names of the month table are built exactly when every month cell of the sheet is missing or reads as a month |
| Dashboard.LowMortality | src/app.py:123-129 | the low-mortality table fails exactly when `MUNICIPIO` is missing |
| Dashboard.LowMortalityIsRanking | src/app.py:123-129 | at most ten municipalities by increasing count; one is left out only when ten were kept, none with more deaths |
| Dashboard.TopCauses | src/app.py:145-157 | the cause table exists exactly when `COD_MUERTE` and `MUERTE` do; its labels are `Código`, `Descripción`, `Total_muertes` |
| Dashboard.TopCausesSucceeds | src/app.py:146 | the cause table is built exactly when `COD_MUERTE` and `MUERTE` are columns |
| Dashboard.TopCausesIsRanking | src/app.py:145-157 | at most ten causes by decreasing count, each with its exact count; one is left out only when ten were kept, none with fewer deaths |
| Dashboard.SexByDepartment | src/app.py:193-201 | the sex table fails exactly when the sex or department column is missing, reading the sex column first |
| Dashboard.SexByDepartmentRows | src/app.py:193-201 | the sex table counts the rows per (department, sex label), in key order; every label is Masculino, Femenino, Indeterminado or Desconocido |
| Dashboard.AgeHistogram | src/app.py:254-262 | the age table fails exactly when `GRUPO_EDAD1` is missing |
| Dashboard.AgeHistogramOrdered | src/app.py:254-262 | one group per age category that occurs, by decreasing count, with exact counts adding up to the number of rows (no row is dropped) |
| Dashboard.RankedCounts | src/app.py:71-76 | ranking the counts of a key column gives a ranking of the keys that survive `dropna` |
| Dashboard.GatedStepsSucceed | src/app.py:34-262 | past the gate, the seven tables can be built exactly when the seven hard-coded labels are columns and a sex and a department column were detected |
| Dashboard.GatedMonthsNamed | src/app.py:103-109 | past the gate the month table is built, and its months are named exactly when every month cell is missing or a month |
| Dashboard.DashboardOutcome | src/app.py:24-262 | the script completes exactly when the gate passes, the seven hard-coded labels are columns, every month cell is missing or a month, and a sex and a department column were detected; a gate failure is reported as such |
| Dashboard.MunicipalityLabelRequired | src/app.py:16-72 | a sheet that passes the gate and has the department columns but no `MUNICIPIO` column stops with `KeyError('MUNICIPIO')` |
| Dashboard.DepartmentIsNotDerived | src/app.py:194-198 | the detected department column is never the derived `Sexo_texto` |
| Dashboard.SexColumnKeys | src/app.py:194-198 | after `Sexo_texto` is added, each row's grouping key is its department cell and its sex label |
| Dashboard.AgeColumnKept | src/app.py:194-254 | adding `Sexo_texto` leaves `GRUPO_EDAD1` where it was, with its cells |
| Dashboard.AgeColumnKeys | src/app.py:254-258 | after `Grupo_edad_categoria` is added, grouping by it sees each row's category |
| Dashboard.AgeHistogramKept | src/app.py:194-262 | the age table is the same whether or not `Sexo_texto` was added first |
| Dashboard.SexStep | src/app.py:193-201 | adding `Sexo_texto` in place and grouping gives the sex table of the frame as it was; the frame gains exactly that column, or is unchanged when the sex column is missing |
| Dashboard.AgeStep | src/app.py:243-262 | classifying in place and grouping gives the age table of the frame as it was; the frame gains exactly the category column, or is unchanged when `GRUPO_EDAD1` is missing |
| Dashboard.RunDashboard | src/app.py:8-262 | the script, run step by step on a mutable data frame, gives the same result or error as `Dashboard` on the normalised frame |
| Samples.SampleRanking | src/app.py:67-77 | with cause codes X95A, X95B, Y10, X95A in municipalities M1, M2, M3, M1, the ranking is M1 with 2 and M2 with 1 |

## Left out

- Reading the workbook (`pd.read_excel`) is out of scope. `RunDashboard` receives the sheet's labels and rows as parameters.
- The month names themselves (`strftime("%B")` at `src/app.py:109`) depend on the locale and are not modelled; the model keeps the month number each name is derived from, and the `ValueError` the parse can raise.
- Every plotly figure and the Dash layout and server are not modelled: they are presentation only.
- Latitude and longitude are opaque key cells. No arithmetic is done on them, and floating point is not modelled beyond a float's text and its `int()` value.
- `Text.UpperChar`: `str.upper` is modelled for ASCII letters, the Latin-1 letters from U+00E0 to U+00FF and the micro sign `µ` only. Other scripts, and letters whose upper case is longer than one character (such as `ß`), are left as they are.
- `Text.ParseInt`: `int()` is modelled for ASCII digits. Python also accepts other Unicode decimal digits; those texts fail in the model.
- `Cells.CellLess`: the order pandas gives keys of mixed kinds (integers next to texts in one column) is abstracted: the model orders cells by kind (integers, floats, texts, missing) and floats by their text, not by value. Sorting such a month table by its month column (`src/app.py:104`) would raise `TypeError` in Python; the model does not.
- `Cells.Cell`: booleans, dates and other cell types, and a float NaN as a key, are not separate cases. A missing cell is `Missing`, shown as `nan` by `astype(str)`.
- `Cells.Cell`: a `Float` cell is assumed consistent: its `int()` value `trunc` is None exactly for `inf` and `-inf` and is the truncation of its text otherwise, and its value is not integral (integral floats are `Int`). The type constrains only the shape of the text, so a `Float` built against this assumption classifies differently from Python.
- `Cells.Render`: an integral float is folded into `Int`, so its text is `n` where `astype(str)` gives `n.0`. No integer or float text starts with `X95`, so the homicide filter is unaffected, but the month-name step is (next line).
- `Dashboard.DashboardOutcome`: the model cannot see two failures of the script. (1) A numeric month column with a missing cell is stored as floats, so `str(m)` is `1.0` and the month-name step raises `ValueError`; the model reads the folded `Int(1)` as January and succeeds. (2) A header cell that is not text becomes NaN after `.str.upper()`, and the `in` tests of `src/app.py:14-20` raise `TypeError`; column labels are `string` in the model.
- Frames.Lookup: duplicate column labels are not modelled. `df[name]` then returns a frame; the model uses the first column with that label.
- GroupBy.SortByCount: the order among groups with equal counts is not the one pandas' unstable sort gives. The rankings' contracts are stated up to that order.
- Only the first failure is modelled: the script stops at its first exception, and later tables are not built.
