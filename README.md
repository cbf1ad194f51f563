# Irrigation scheduling core, modelled in Dafny

This project models the core of a small irrigation-scheduling application.
The application keeps agricultural fields (name, crop factor Kc, fertilizer
week) and daily reference evapotranspiration (ET0) in a store. It computes
the crop evapotranspiration ETc = ET0 × Kc for every field and requested
day, and saves one ETc row per field and day, replacing older rows for the
same pair. It renders the results as a markdown grid.

Modules, one per source file plus four of shared vocabulary:

- `Wrappers`: `Option` and `Result`.
- `Seqs`: the elements of a sequence and repeat-freedom.
- `Text`: Python's `str.strip()` with its exact whitespace set, `str.join`, `str.split`, and code-point string order. The order is that of Python's `sorted` on names and of SQLite's binary collation on dates and timestamps.
- `Sorting`: one insertion sort by a string key, ascending or descending. It serves both Python's `sorted` on field names and `ORDER BY calculated_at DESC`.
- `Models` (models.py): the two validated value types and their validating constructors.
- `Calculator` (calculator.py): ETc for one field and day, and for all fields over all days, as a function and as the source's nested loop.
- `EtcRecords` (the ETc table of database.py): rows, the batch-replacement relation, and the history query.
- `Database` (database.py): a `Store` class whose three fields are the three tables. Its methods change them as the SQL statements do.
- `Formatter` (formatter.py): the markdown grid, built by loops and specified by a function.
- `App` (app.py): the input validators, the calculate-and-save step, and the two checks the ETc view makes.

Writes to the store do not validate: the tables carry no CHECK constraints.
Reads rebuild values through the validating constructors, so a read fails
when it meets a row that a constructor rejects. The model keeps that
behaviour: every reading operation returns a `Result`.

Python's `float()`, `int()` and `f"{v:.2f}"` are function parameters
(`parseFloat`, `parseInt`, `fmt2`). The clock reading is a parameter
(`calculatedAt`, `now`).

## Notes on the code

- The calculate-and-save step filters fields by `crop_factor >= 0` (app.py:123-129). The ETc view also lists fields with a negative crop factor (app.py:346-354). Neither can ever act: `get_all_fields` rebuilds every row through `Field(...)`, which raises on a negative crop factor (database.py:162, models.py:27-28). So one corrupted row makes the whole run fail, rather than that field being left out. The model follows the code.
  - `App.CalculateAndSaveEtcForDates` states the exact success condition. Its filter branch is proved unreachable.
  - `App.ConstructedFieldsAllValid` and `App.ConstructedFieldsNoneInvalid` state that the filter and the invalid-field list are inert on fields that were read back.
- The run succeeds only when the request names each date once and every requested date is stored (`App.CoverageTest`). A request that repeats a date therefore always fails.

## Model

| member | source | states |
|---|---|---|
| Models.NewField | models.py:23-30 | a field is built exactly when its name has a non-whitespace character, its crop factor is not negative and its week is at least 1; values are kept as given (the name is not trimmed); each error is reported exactly when its check is the first to fail |
| Models.NewWeatherData | models.py:45-53 | an observation is built exactly when its date has ten characters with `-` at positions 4 and 7 and its ET0 is not negative; malformed date takes precedence over negative ET0 |
| Models.PaddedNameKept | models.py:25 | a name with trailing whitespace is accepted and stored with that whitespace |
| Models.DigitsNotChecked | models.py:50-51 | the date check is shape only: `abcd-ef-gh` is accepted |
| Calculator.CalculateEtc | calculator.py:9-22 | ETc is not negative for valid inputs, is 0 when Kc or ET0 is 0, and equals ET0 when Kc is 1 |
| Calculator.DateRow | calculator.py:43-45 | one field's inner map has exactly the weather dates as keys |
| Calculator.EtcTable | calculator.py:39-47 | the results have exactly the field names as keys, and every inner map has exactly the weather dates as keys |
| Calculator.DateRowLastWins | calculator.py:43-45 | for a repeated date the last observation's ETc is kept |
| Calculator.EtcTableLastWins | calculator.py:41-42 | for a repeated field name the last field's row is kept |
| Calculator.EtcTableCell | calculator.py:39-47 | with distinct names and dates, the cell of field i and day j is ETc(field i, day j) |
| Calculator.CalculateEtcForAllFields | calculator.py:25-47 | the nested loop returns the results table `EtcTable(fields, weather)` |
| EtcRecords.NewRow | database.py:403-407 | the row a batch inserts carries its field, its date and the batch timestamp |
| EtcRecords.BatchPairs | database.py:393-396 | a (field, date) pair is written exactly when the field is in the results, the date is in its inner map and the date is in the weather list |
| EtcRecords.ReplacedNothing | database.py:393-396 | a batch that touches no pair leaves the rows as they were |
| EtcRecords.ReplacedStep | database.py:398-407 | deleting one more pair's rows and appending its new row extends a replacement to that pair |
| EtcRecords.ReplacedTouched | database.py:381-382 | after a batch every touched pair has exactly one row, holding its result and the batch timestamp |
| EtcRecords.ReplacedOthers | database.py:398-402 | the rows of every untouched pair are unchanged, in content and order |
| EtcRecords.ReplacedTwice | database.py:381-382 | saving the same results twice equals saving them once with the later timestamp |
| EtcRecords.AppendAddsRow | database.py:368-371 | a single save adds one row to its pair without deleting any, so repeated single saves accumulate |
| EtcRecords.Matching | database.py:428-437 | the history filter keeps every matching row with its multiplicity and nothing else; `None` and the empty string both mean no filter |
| EtcRecords.MatchingPair | database.py:431-437 | filtering on a non-empty name and a non-empty date selects exactly that pair's rows |
| EtcRecords.SortNewestFirst | database.py:439 | the same rows, ordered by timestamp, most recent first |
| EtcRecords.EtcHistory | database.py:413-451 | the history is newest first and holds exactly the matching rows with their multiplicities |
| EtcRecords.HistoryAfterBatch | database.py:381-382 | after a batch the history of a touched pair is its single fresh row |
| Database.DefaultFieldsValid | database.py:108-112 | the three default fields DF1B, SS2B and MF8B all read back as valid fields |
| Database.LoadField | database.py:162 | reading a stored row succeeds exactly when it is a valid field, and then gives back the stored values |
| Database.SortedDates | database.py:325 | `ORDER BY date` lists each selected date once, strictly ascending |
| Database.ListingOfKeys | database.py:160-162 | one field per stored key, no name twice, every row valid |
| Database.Store.constructor | database.py:28-88 | `init_database` on a new database file: three empty tables |
| Database.Store.InitializeDefaultFields | database.py:91-119 | the defaults are seeded only into an empty field table; otherwise nothing changes |
| Database.Store.FieldExists | database.py:242-259 | true exactly when a row with that name is stored |
| Database.Store.GetField | database.py:167-190 | an absent name gives no field; a present one gives its stored values, or fails when they are invalid |
| Database.Store.CreateField | database.py:122-144 | an existing name is rejected as a duplicate and leaves the store unchanged; otherwise exactly that row is added and reads back when valid |
| Database.Store.GetAllFields | database.py:147-164 | succeeds exactly when every stored row is valid, and then lists every stored field once; on failure it names a rejected row |
| Database.Store.UpdateField | database.py:193-217 | an absent name is rejected and nothing changes; otherwise only that row's values are replaced |
| Database.Store.DeleteField | database.py:220-239 | the name is absent afterwards; the result says whether a row was removed; ETc rows are kept |
| Database.Store.SaveWeatherData | database.py:262-280 | insert-or-replace: the date maps to the new ET0 and nothing else changes |
| Database.Store.GetWeatherDataByDate | database.py:283-303 | an absent date gives none; a present one gives its stored ET0, or fails when the row is invalid |
| Database.Store.LoadWeather | database.py:324-329 | the selected rows, each once, ascending by date, or a failure naming an invalid row |
| Database.Store.GetWeatherDataByDates | database.py:306-331 | an empty request reads nothing; otherwise the stored rows of requested dates, each once, ascending; unstored dates are absent |
| Database.Store.GetAllWeatherData | database.py:334-351 | every stored row once, ascending by date, or a failure naming an invalid row |
| Database.Store.SaveEtcCalculation | database.py:354-374 | appends one row and changes nothing else |
| Database.Store.SaveEtcCalculationsBatch | database.py:377-410 | the new ETc rows are the old ones with every touched pair's rows deleted, followed by exactly one fresh row per touched pair; fields and weather unchanged |
| Formatter.SortByName | formatter.py:31-32 | the same fields, ascending by name |
| Formatter.Cells | formatter.py:50-56 | one cell per date, the rendered value when the results hold one and `N/A` otherwise |
| Formatter.TableShape | formatter.py:37-58 | a header, a separator and one row per field; the rows follow the fields ascending by name, which are the given fields with the same multiplicities |
| Formatter.SeparatorHasCells | formatter.py:44-45 | the separator has one ` --- ` cell per date plus one |
| Formatter.LinesRoundTrip | formatter.py:60 | splitting the output at newlines gives back its lines (2 + number of fields) when no name, date or value holds a newline |
| Formatter.CellsOfComputedTable | formatter.py:51-56 | on the calculator's own results no cell is `N/A`: each shows its field's ETc for that day |
| Formatter.SingleCellExample | formatter.py:40-58 | DF1B with Kc 0.8 and ET0 5.0 on 2024-06-01 renders as the header, the separator and a row with the cells DF1B and 4.00 |
| Formatter.RenderRow | formatter.py:49-57 | the row is the field name followed by one cell per date, between bars, as the grid specifies it |
| Formatter.FormatEtcTable | formatter.py:9-60 | no fields gives the no-fields message, even with no weather; otherwise no weather gives the no-data message; otherwise the grid's lines joined by newlines |
| App.Et0InputAgreesWithModel | app.py:49-55 | an ET0 input is accepted exactly when it parses to a value the observation constructor accepts, and the parsed value is returned |
| App.CropFactorInputAgreesWithModel | app.py:67-73 | a crop-factor input is accepted exactly when it parses to a value the field constructor accepts, and the parsed value is returned |
| App.FertilizerWeekInputAgreesWithModel | app.py:85-91 | a week input is accepted exactly when it parses to a value the field constructor accepts, and the parsed value is returned |
| App.ValidatorsIgnorePadding | app.py:154-155 | stripping before validating, as the callers do, does not change any validator's answer |
| App.AddFieldInputsBuildField | app.py:208-240 | a non-empty stripped name with accepted crop factor and week always builds a valid field |
| App.ValidFields | app.py:123-126 | the kept fields are exactly those with a crop factor that is not negative |
| App.InvalidNames | app.py:346-349 | a name is listed exactly when some field carrying it has a negative crop factor |
| App.FilterPartition | app.py:346-349 | every field is kept by the filter or listed as invalid, never both |
| App.ConstructedFieldsAllValid | app.py:122-129 | fields that were read back all survive the crop-factor filter |
| App.ConstructedFieldsNoneInvalid | app.py:345-351 | no field that was read back is listed as invalid |
| App.Missing | app.py:335-338 | a date is reported missing exactly when it was requested and no weather row has it |
| App.NothingMissing | app.py:340-343 | nothing is missing exactly when every requested date has a weather row |
| App.MissingMeansNotStored | app.py:330-338 | on the rows read for the request, a date is missing exactly when no ET0 is stored for it |
| App.MissingDates | app.py:334-338 | the loop returns exactly the missing dates, in request order |
| App.InvalidFieldNames | app.py:345-349 | the loop returns exactly the invalid names, in field order |
| App.CoverageTest | app.py:113-120 | the length and date-set tests pass exactly when no date is requested twice and every requested date is stored |
| App.CalculateAndSaveEtcForDates | app.py:93-140 | succeeds exactly when every field row is valid and there is one, every requested weather row is valid, and the dates are distinct and stored; a failure changes nothing; on success the results are the calculator's table for the stored fields and requested days, saved as one batch |
| App.RunRecordsEveryCell | app.py:131-137 | after a successful run, the history of each field and requested date is the single row holding that ETc, stamped with the run's time |
| App.SameTable | calculator.py:39-47 | any two listings of the same field table give the same ETc results, whatever order `get_all_fields` returned them in |
| App.WeatherListingUnique | database.py:325 | a weather listing ascending by date over a given date set is unique |
| App.RunTwice | app.py:93-140 | two successful runs for the same dates on an unchanged store read the same weather and compute the same results; the ETc table ends as one batch of them at the second run's time, with exactly one row per field and date |
| Sorting.SortBy | formatter.py:31-32 | the same elements with their multiplicities, ordered by the key, ascending or descending |
| Text.Strip | models.py:25 | the result is the input with a whitespace prefix and a whitespace suffix cut off; it is empty exactly when the input is all whitespace, and otherwise neither starts nor ends with whitespace |
| Text.StripIdempotent | app.py:154-155 | stripping twice is stripping once |
| Text.SplitJoin | formatter.py:60 | splitting a newline-joined list of lines without newlines gives back the lines |
| Seqs.DistinctCard | app.py:118-119 | a list's set is as large as the list exactly when the list has no repeats |

## Left out

- SQLite plumbing is not modelled: connections, cursors, SQL text, row factories and the indexes of `init_database`. The store is three abstract tables.
- `Database.Store.constructor` models `init_database` only on a new database file. On an existing file `CREATE TABLE IF NOT EXISTS` keeps all three tables as they are (database.py:40-86). That case is a `Store` already holding those tables; the model has no operation that re-opens one.
- Storage failures and rollback are not modelled: every store operation completes. The only failures modelled are the rejected writes and the rows a read cannot rebuild.
- The auto-increment ids of the weather and ETc tables are not modelled: no operation reads them.
- SQLite column type affinity is not modelled: a crop factor or week is stored and read back as given.
- The interactive shell is not modelled: `run`, the menu, the prompt loops of `add_field`, `edit_field`, `delete_field` and `input_weather_data`, `display_fields`, the printing in `view_etc_table`, `input()`, `print()` and `sys.exit`. Its decisions are calls to operations modelled here.
- `view_etc_table` catches neither the exception `get_all_fields` may raise (app.py:325) nor the one `get_weather_data_by_dates` may raise (app.py:332). Only its two checks are modelled.
- `get_next_three_dates` and `datetime.now()` read the clock; dates and timestamps are parameters.
- Floating point is modelled as `real`, with no rounding, infinities or NaN. In Python, `float("nan") < 0` is false, so the validators accept NaN; the model has no NaN.
- Python's `float()` and `int()` string parsing, and the `:.2f` rendering, are function parameters and are not defined here.
- The `isinstance` checks of the constructors are enforced by Dafny's static types; a `bool` passed as an `int` has no counterpart.
- The history query returns dictionaries; the model returns the rows themselves.
- EtcRecords.EtcHistory: rows with equal timestamps may come in any order, as SQLite leaves them unspecified.
- Database.Store.SaveEtcCalculationsBatch: does not fix the order of the appended rows, because it follows Python's dict iteration order, which the model does not track. It states the rows' contents and that each touched pair has exactly one.
- Database.Store.GetAllFields: does not fix the order of the listed fields; the query has no `ORDER BY`.
