# Rolling scenario tables of the real-time dashboard

This project models the data core of the real-time scenario dashboard in
`dashboard_with_table.py`. A generator overwrites a CSV snapshot: one row per
symbol (`X`, `Y`, `Z`), and metric columns `Value1` to `Value6` that hold
percentage text such as `"12%"`. On each timer tick the dashboard polls the
file's modification time. When the file is new, it ingests the snapshot into
six rolling per-metric tables and rebuilds the six scenario views the charts
and the table page show.

The model has five modules:

- `Tables` — one metric table is a sequence of rows. Each row is a timestamp
  and a map from lower-cased symbol to the cell text. Appending does three
  things in order:
  - concatenates the new rows;
  - keeps only the last row of each timestamp;
  - drops the single oldest row when more than 50 rows remain.

  The table invariant is at most 50 rows with pairwise distinct timestamps
  (`WellFormed`).
- `Ingest` — `append_to_dataframes` as a function of the tables, the snapshot
  and the file timestamp. It loops over the metric columns in order. For
  each one it pivots the snapshot into one row keyed by the timestamp, with
  the symbols lower-cased, and appends that row to the metric's table. The
  loop stops at the first exception. There are two:
  - pivoting fails: the pivot at line 40 raises when a symbol repeats, and
    `reset_index` at line 42 raises when a symbol lower-cases to `timestamp`;
    this happens at the first column, before any change;
  - a metric column has no table (a `KeyError`); the columns before it have
    already been appended.
- `Percent` — cell text and numbers:
  - the generator writes a cell as the integer followed by `%`;
  - the view strips `%` and divides by 100;
  - the table page multiplies by 100 again and rounds to two decimals.

  Fractions are exact rationals.
- `View` — `prepare_scenario_data` takes the last 20 rows of each table and
  converts each cell to its fraction. The results are keyed
  `"Scenario 1"` .. `"Scenario 6"`. `ServeTable` is the line-231 conversion
  back to percentage numbers.
- `Dashboard`:
  - `class Dashboard` holds the two module globals, `value_dataframes` and
    `previous_modified`, as fields.
  - `AppendToDataframes` updates the tables in place, one metric column per
    loop iteration. It is proved equal to `Ingest.Ingest`.
  - `UpdateCharts` is one timer tick. It is proved equal to the pure
    transition `PollStep`.
  - The lemmas about `PollStep` state the polling protocol. Ingestion happens
    exactly on the first tick or when the modification time has not been
    committed yet. The time is committed only on success. A failed poll of a
    modification time not yet committed is retried on the next tick.

The model takes these as inputs rather than computing them:

- the file's modification time, an abstract integer, or `None` when the file
  is missing;
- the outcome of reading the file: parsed contents plus the file timestamp,
  an empty file, or another read error. The file timestamp is the file's
  modification time formatted to the second (lines 31-33, 120), not the time
  of ingestion. Re-reading an unchanged file therefore gives the same key, and
  its row replaces the earlier one (`Tables.AppendReplaces`).

The code and its comment disagree on the row cap. The comment at
`dashboard_with_table.py:23` says the tables hold 100 rows. The code trims at
50 (line 48), and the model follows the code (`Tables.MaxRows`).

## Model

| member | source | states |
|---|---|---|
| Tables.KeepLast | dashboard_with_table.py:46 | de-duplication keeps one row per timestamp, and for each timestamp it is the last row carrying it: the result has pairwise distinct timestamps, holds only input rows, carries exactly the timestamps of the input, and keeps every row that no later row shares a timestamp with |
| Tables.KeepLastAppend | dashboard_with_table.py:45-46 | de-duplicating a table with distinct timestamps plus one row gives the table without that row's timestamp, followed by the row |
| Tables.AppendRows | dashboard_with_table.py:45-49 | concatenate, keep the last row of each timestamp, drop the oldest row when more than 50 remain: the result has distinct timestamps, holds only old or new rows, and has at most 50 rows when at most 51 went in |
| Tables.AppendKeepsInvariant | dashboard_with_table.py:45-49 | a table with at most 50 rows and distinct timestamps keeps both after an append of the (at most one) pivoted row; the count changes by at most one; every row is an old one or the new one |
| Tables.AppendReplaces | dashboard_with_table.py:45-46 | appending a row whose timestamp is already present replaces that row: the others keep their order, the new row is last, the count is unchanged |
| Tables.AppendFresh | dashboard_with_table.py:48-49 | appending a new timestamp adds the row at the end; on a full table exactly the oldest row is evicted and the rest keep their order |
| Tables.AppendEndsWith | dashboard_with_table.py:45-46 | after an append the appended row is the last row, whatever the table held |
| Tables.AppendIdempotent | dashboard_with_table.py:45-49 | appending the same row twice leaves what one append left |
| Tables.AppendNothing | dashboard_with_table.py:45-46 | a pivot with no rows (a snapshot without data rows) leaves a table unchanged |
| Tables.AccumulateKeepsNewest | dashboard_with_table.py:45-49 | ingesting rows with distinct timestamps one by one into an empty table leaves exactly the newest min(50, n) of them, in arrival order |
| Ingest.Lower | dashboard_with_table.py:41 | lower-casing keeps the length; each capital A-Z becomes the small letter at the same place in the alphabet and every other character is kept |
| Ingest.PivotRow | dashboard_with_table.py:36-42 | the pivoted row is keyed by the file timestamp; its columns are exactly the symbols lower-cased, none of them "timestamp"; each holds that symbol's text for the metric |
| Ingest.PivotRows | dashboard_with_table.py:38-42 | the pivot yields no row for a snapshot without data rows and otherwise one row, carrying the file timestamp |
| Ingest.Ingest | dashboard_with_table.py:35-49 | ingestion keeps the set of tables; it raises the pivot error exactly when there is a metric column and the pivot fails, and then changes nothing; a missing table is reported by a name that is a metric column without a table |
| Ingest.IngestFailsIff | dashboard_with_table.py:37-49 | ingestion raises exactly when there is a metric column and either the pivot fails or some metric column has no table |
| Ingest.IngestUntouched | dashboard_with_table.py:37-45 | a table not named by any metric column of the snapshot is left unchanged |
| Ingest.IngestSuccess | dashboard_with_table.py:37-49 | on success, every metric column's table is its old table with that column's pivoted rows appended |
| Ingest.IngestFailure | dashboard_with_table.py:37-49 | a failing pivot changes no table; a column without a table is reported by name, the columns before it are appended and the ones after it untouched |
| Ingest.IngestKeepsInvariant | dashboard_with_table.py:45-49 | every table keeps the table invariant through an ingestion, whether it succeeds or raises |
| Ingest.IngestNewRowLast | dashboard_with_table.py:39-49 | after a successful ingestion of a snapshot with data rows, each metric table ends with its pivoted row, the only row carrying the file timestamp |
| Percent.FormatCell | generator2.py:13-18 | a generated cell ends with its only '%' character |
| Percent.StripPercent | dashboard_with_table.py:59 | removing '%' keeps exactly the other characters and never lengthens the text; text without '%' is returned unchanged |
| Percent.StripPercentConcat | dashboard_with_table.py:59 | stripping works piecewise: stripping a concatenation is the concatenation of the stripped parts, so the other characters keep their order |
| Percent.ParseCell | dashboard_with_table.py:59 | a cell reads as a number exactly when what is left after removing every '%' is an optionally signed run of digits; a negative number comes from a leading '-'; text without '%' reads as the numeral itself |
| Percent.ParseCellIgnoresPercent | dashboard_with_table.py:59 | a '%' anywhere in a cell is ignored: "1%2" reads like "12" |
| Percent.ToFraction | dashboard_with_table.py:59 | the fraction times 100 is the percentage number |
| Percent.RoundHalfEven | dashboard_with_table.py:231 | rounding moves a value by at most one half, leaves integers unchanged, and on an exact half picks the even neighbour |
| Percent.Round2 | dashboard_with_table.py:231 | rounding to two decimals gives a whole number of hundredths within 0.005 of the value, and on an exact half-hundredth the even one |
| Percent.IntTextRoundTrip | generator2.py:13-18 | the decimal text of an integer reads back as that integer |
| Percent.CellRoundTrip | dashboard_with_table.py:59 | every cell the generator writes ("<n>%") reads back as the number n |
| Percent.DisplayOfFraction | dashboard_with_table.py:231 | multiplying the fraction by 100 and rounding to two decimals gives back the percentage number exactly |
| Percent.CellDisplayRoundTrip | dashboard_with_table.py:231 | generator text, then view fraction, then displayed number, is the identity on the number |
| View.ConvertRow | dashboard_with_table.py:57-59 | converting a row succeeds exactly when every cell parses; then it keeps the timestamp and columns and each cell times 100 is the parsed percentage number |
| View.ConvertRows | dashboard_with_table.py:57-59 | converting a window succeeds exactly when every cell of every row parses, and then converts row by row without reordering |
| View.ScenarioView | dashboard_with_table.py:55-59 | a view that converts has min(20, n) rows, carrying the timestamps of the newest rows of its table in order |
| View.Scenarios | dashboard_with_table.py:53-60 | the views filled in so far are keyed by exactly the first n scenario names |
| View.TableViews | dashboard_with_table.py:54-58 | the views the loop computes, one per metric table in the order `Value1` .. `Value6` |
| View.ScenariosAt | dashboard_with_table.py:54-60 | when the names are distinct, the entry keyed by name i is view i: scenario i gets the view of metric table i |
| View.PrepareScenarioData | dashboard_with_table.py:52-61 | the views are prepared exactly when no window fails to convert, and are then keyed by exactly the six scenario names |
| View.PrepareScenarioDataSpec | dashboard_with_table.py:52-61 | the views are prepared exactly when every window converts; then they are keyed "Scenario 1" .. "Scenario 6", scenario i being the view of table "Value i" |
| View.ScenarioViewShape | dashboard_with_table.py:55-59 | a view that converts has min(20, n) rows, the newest rows of its table in the same order, with the same timestamps and columns; each cell is its percentage number divided by 100 |
| View.ScenarioViewFails | dashboard_with_table.py:55-59 | a view fails exactly when some cell among the newest 20 rows is not percentage text |
| View.OneRowView | dashboard_with_table.py:54-59 | a one-row table whose cells all parse has a one-row view with the same timestamp and columns, each cell its number divided by 100 |
| View.DisplayView | dashboard_with_table.py:229-231 | the table page's conversion keeps rows, timestamps and columns; each shown cell is a whole number of hundredths within 0.005 of the fraction times 100 |
| View.DisplayRecoversPercent | dashboard_with_table.py:229-231 | the table page's conversion of a view that converts has the same rows and columns and shows each cell's percentage number exactly |
| View.ServeTable | dashboard_with_table.py:219-231 | the table page has content exactly when the views are prepared, and then one table per scenario name |
| View.ServeTableScenario | dashboard_with_table.py:219-231 | the table page for scenario i is the view of table "Value i" scaled back by 100 |
| Dashboard.PollStep | dashboard_with_table.py:107-159 | a poll keeps the set of tables; charts carry exactly the six scenario names, and are produced only for an existing, read file whose modification time then becomes the committed one |
| Dashboard.IngestKeepsConsistent | dashboard_with_table.py:45-49 | an ingestion keeps all six tables present and well formed |
| Dashboard.PollKeepsConsistent | dashboard_with_table.py:107-159 | a poll keeps all six tables present and well formed |
| Dashboard.PollIngestsIff | dashboard_with_table.py:111-159 | a poll attempts ingestion exactly when the file exists and it is the first tick or the modification time is not the committed one; a missing file gives not found; an existing file the poll condition rejects gives no update with the state unchanged; an empty file or a read error leaves the state unchanged and reports empty or failed; a poll that reads the file leaves exactly the tables `Ingest.Ingest` gives, and produces charts exactly when that ingestion succeeds and the views of the new tables are prepared, the charts then being those views |
| Dashboard.PollCommitsOnSuccess | dashboard_with_table.py:149-157 | the committed modification time becomes the polled one exactly when charts are produced, and stays as it was on every error path |
| Dashboard.PollNoRepeatAfterSuccess | dashboard_with_table.py:117-159 | after a successful poll, a later tick on the unchanged file returns no update and changes nothing |
| Dashboard.PollRetriesAfterFailure | dashboard_with_table.py:117-157 | after a failed poll of a new modification time, the next tick on the same file attempts ingestion again |
| Dashboard.FirstIngestion | dashboard_with_table.py:24-49 | the first ingestion into the six empty tables leaves each metric's table holding exactly its pivoted row |
| Dashboard.ExampleCells | dashboard_with_table.py:59 | the cells "10%", "12%" and "-5%" read as 10, 12 and -5 |
| Dashboard.ExampleView | dashboard_with_table.py:54-59 | a one-row table with cells "10%", "12%", "-5%" has the view 0.10, 0.12, -0.05 under the same columns and timestamp |
| Dashboard.ExampleSnapshot | dashboard_with_table.py:36-42 | the snapshot with rows X,10% / Y,12% / Z,-5% under column Value1 is one the pivot accepts |
| Dashboard.PivotRowOfThree | dashboard_with_table.py:38-42 | the pivoted row of a three-symbol snapshot maps each lower-cased symbol to its own cell |
| Dashboard.ExampleIngest | dashboard_with_table.py:24-49 | ingesting that snapshot into the six empty tables succeeds, and table Value1 then holds one row whose columns x, y and z (X, Y and Z lower-cased) carry "10%", "12%" and "-5%" |
| Dashboard.ExampleEndToEnd | dashboard_with_table.py:35-61 | from the snapshot rows X,10% / Y,12% / Z,-5%, through ingestion into the empty tables, the view of table Value1 is one row with x, y and z holding 0.10, 0.12 and -0.05 |
| Dashboard.Dashboard.constructor | dashboard_with_table.py:21-24 | the process starts with six empty metric tables and no committed modification time |
| Dashboard.Dashboard.AppendToDataframes | dashboard_with_table.py:35-49 | the in-place loop over the metric columns leaves exactly the tables `Ingest.Ingest` describes and reports the same failure; consistent tables stay consistent; the committed time is unchanged |
| Dashboard.Dashboard.UpdateCharts | dashboard_with_table.py:107-159 | one timer tick changes the tables and the committed time exactly as `PollStep` says, returns its outcome, and keeps the class invariant |

## Left out

- File I/O is not modelled; its results are inputs. This covers `os.path.getmtime`, `pd.read_csv` and the `strftime` timestamp formatting (lines 27-33, 112, 119-120). An exception other than a missing file from `getmtime` propagates out of the callback and is not modelled.
- The Dash and Flask wiring, the layout, the Plotly figure building (lines 124-147), the HTML of the table page and `generate_tables` are user interface. `ChartsOutcome.Charts` carries the six views instead of figures.
- The button callback that spawns scripts with `subprocess.run` is process control and is not modelled.
- `generator2.py` is not modelled beyond the cell format (`FormatCell`). Its random values, file writes and sleep loop are randomness and I/O.
- Percent.ParseCell: every `%` is removed wherever it stands, as `str.replace` does, and what is left must be an optionally signed run of decimal digits. `astype(float)` also accepts decimals, exponents, surrounding blanks, `nan`, `inf` and non-ASCII digits; those cells are not part of this model.
- Percent.Round2: fractions are exact rationals and rounding is ties-to-even on them. The binary floating-point arithmetic of `/ 100`, `* 100` and `.round(2)` is not modelled. Neither is the text `str` gives a float (the page shows `12.0%`; the model shows the number 12).
- Ingest.Lower: lower-cases ASCII letters only; `str.lower` also folds other scripts.
- Ingest.Ingest: requires that symbols which differ still differ after lower-casing (`CaseSafe`). Two columns that collide after renaming are not modelled.
- Ingest.Ingest: requires a rectangular snapshot whose metric column names are distinct (`WellShaped`). `read_csv` renames duplicate header names, and the file always has a `Symbol` column first.
- pandas' error behaviour in pivoting is reduced to two failure cases: a repeated symbol (the pivot at line 40 raises), and a symbol that lower-cases to `timestamp` (`reset_index` at line 42 raises because the column already exists).
- A symbol missing from some rows leaves a missing cell (NaN in pandas). The model keeps it absent from the row's map and the view passes it through as absent. Any other NaN handling is not modelled.
- Each `update_charts` call and each `serve_table` request is modelled as one atomic step, the steps taken one after another. The server started at line 263 handles requests on threads. So a table page can read `value_dataframes` while `append_to_dataframes` is part-way through its loop, and show some metrics with the new row and others without it. Also, two overlapping ticks can both pass the check at line 117 before either commits at line 149. `ServeTable` and `PollNoRepeatAfterSuccess` describe only the sequential case.
- Dashboard.PollStep: assumes building the figures (lines 124-147) never raises. In the source such a raise is caught at lines 155-157 before line 149 runs, so the time is not committed. The model always commits on its `Charts` path.
- `pd.to_datetime` (line 56) is not modelled: a view row keeps the timestamp text.
- Every cell is taken as text. `read_csv` (lines 28, 119) gives a metric column whose cells are all bare numbers a numeric type. Then `.str.replace` at line 59 raises, and lines 155-157 catch it without committing the time. When the table column already holds text, `.str` turns the numeric cells into NaN instead. The model reads a cell `"12"` as 12 in both cases. Likewise a `Symbol` column of bare numbers is read as numbers; `symbol.lower()` at line 41 then raises at the first metric column, before any table changes, and lines 155-157 catch it. The model lower-cases the text `"1"`, ingests and commits the time.

