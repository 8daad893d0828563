# E-commerce ETL transform, modelled in Dafny

This project models `run_transform_and_clean`, the transform step of a daily
e-commerce pipeline. The step takes two tables produced by the extract tasks.
One holds line items from the transactional store. The other holds daily
GBP→THB exchange rates. It works in two parts:

1. It reshapes the data:
   - left-joins each line item to the rate of its `join_date`;
   - replaces missing rates by the fallback 42.0;
   - computes `thb_amount = total_amount × gbp_thb`;
   - renames the merge's `date_x` back to `date` and formats timestamps as `YYYY-MM-DD`;
   - selects the eleven output columns.
2. It runs the data-quality checks:
   - drops repeated `(transaction_id, product_id)` keys, keeping the first row;
   - drops rows with a negative price, a null transaction id or a null date;
   - produces the counts that the summary message reports.

The model works on two levels.

- **Columns.** Column names are the `Columns.Column` datatype. `WithSuffix(c, X|Y)` is pandas' `c_x`/`c_y`. Reading a column that is not there gives `Err(KeyError(...))`, as pandas raises `KeyError`.
- **Rows.** Rows are typed records (`Records.TxRow`, `RateRow`, `JoinedRow`, `OutRow`). Every cell that can be null is an `Option`.

Boolean-mask selection (`df[mask]`) is defined once, as `Masks.Mask`. It is characterised through `Masks.Positions`, the increasing list of the mask's true indices. Duplicate removal and the bad-row filter are both instances of it.

The modules are:

- `Wrappers`: `Option` and `Result`.
- `Dates`: the date cell values and `strftime('%Y-%m-%d')` with its parser.
- `Masks`: boolean masks.
- `Columns`: column names and the merge, rename and select steps on them.
- `Records`: the row types and the constants.
- `Stages`: each transform stage on rows.
- `TransformLogic`: the driver and the end-to-end lemmas.

The driver `TransformLogic.RunTransformAndClean` is a method with local
variables, as the source is. It states its result against the pure stage
functions: `Projected` for the reshaping and `RowFilter(DropDuplicates(...))`
for the cleaning. Lemmas about those functions carry the properties.

## Model

| member | source | states |
|---|---|---|
| Columns.MergeColumns | dags/transform_logic.py:32 | a merge raises exactly when a key column is absent (the left key first); otherwise the result holds exactly the names found on one side only, a key both sides join on under the same name once, and every other name both sides share as `_x` and `_y` |
| TransformLogic.MergedSchema | dags/transform_logic.py:32 | merging the extract with the (`date`, `gbp_thb`) rate table fails exactly when `join_date` is missing, with that key as the error; otherwise it has `gbp_thb` unless the extract had its own, keeps the extract's columns, and has `date_x`/`date_y` when the extract has a `date` |
| TransformLogic.MergedKeepsDataColumns | dags/transform_logic.py:32 | the merge keeps all nine data columns of the extract exactly when the extract has them |
| TransformLogic.EmptyExtractRaises | dags/gcp_project.py:108-110 | the placeholder table written for an empty store (`date`, `price`, `quantity`) makes the merge raise on `join_date` |
| Stages.JoinRow | dags/transform_logic.py:32 | a left merge gives every line item at least one row, each carrying that line item and no THB amount yet |
| Stages.LeftJoin | dags/transform_logic.py:32 | the merged table has at least as many rows as the extract |
| Stages.JoinRowUnmatched | dags/transform_logic.py:32 | a line item with no rate row of its date gets exactly one row, with null rate and rate date |
| Stages.JoinRowMatched | dags/transform_logic.py:32 | a matched line item gets one row per rate row of its date, in rate-table order, each with that row's date and rate |
| Stages.LeftJoinKeepsEveryTransaction | dags/transform_logic.py:32 | the join keeps every line item and produces no row whose line item was not in the input |
| Stages.RateOn | dags/transform_logic.py:32 | the lookup finds the first rate row of the line item's date, and finds none exactly when the rate table has none |
| Stages.LeftJoinUniqueDates | dags/transform_logic.py:32 | with unique rate dates the join is row-for-row: row i is line item i with the rate of its date, or nulls |
| Stages.FillRate | dags/transform_logic.py:35 | after the fill no rate is null; a present rate is kept, a missing one becomes 42.0, and nothing else changes |
| Stages.Times | dags/transform_logic.py:36 | a product of two nullable numbers is null exactly when either factor is, else their product |
| Stages.Convert | dags/transform_logic.py:36 | `thb_amount` of each row is its total times its rate (null-propagating), other fields unchanged |
| Stages.FilledConversion | dags/transform_logic.py:35-36 | after fill then conversion, `thb_amount` is the total times the matched rate or 42.0, and is null only when the total is |
| TransformLogic.ConvertedRows | dags/transform_logic.py:32-36 | with unique rate dates, after join, fill and conversion, row i is line item i, its rate is the matched rate or the fallback, and its THB amount is its total times that rate |
| Columns.RenameColumn | dags/transform_logic.py:39 | renaming moves exactly one name to another and leaves the others alone |
| TransformLogic.RenamedSchema | dags/transform_logic.py:36-39 | once `thb_amount` is assigned and `date_x` renamed, `date` and `thb_amount` exist, `date_x` is gone, and the extract's columns are untouched |
| Stages.DateColumn | dags/transform_logic.py:39 | the output `date` is the extract's date when the extract had one, else the rate table's date |
| Stages.FormatDates | dags/transform_logic.py:40-41 | a column of timestamps becomes `YYYY-MM-DD` texts of the same calendar day with nulls kept; any other column is left as it is |
| Dates.Digits | dags/transform_logic.py:41 | a zero-padded field has the requested width and only digits |
| Dates.ValueOfDigits | dags/transform_logic.py:41 | reading a zero-padded field back gives the number, when it fits the width |
| Dates.FormatYmd | dags/transform_logic.py:41 | the formatted date is ten characters: four digits, `-`, two digits, `-`, two digits |
| Dates.FormatYmdRoundTrip | dags/transform_logic.py:41 | parsing a formatted date returns the year, month and day it was formatted from |
| Dates.FormatYmdInjective | dags/transform_logic.py:41 | two different days never format to the same text |
| Columns.SelectColumns | dags/transform_logic.py:44-49 | selection succeeds exactly when every target is present, then yields the targets in order; otherwise it reports only absent targets |
| TransformLogic.SelectTargets | dags/transform_logic.py:44-49 | the selection succeeds exactly when the extract's nine data columns are present, and gives the eleven output columns in order, without `join_date`, `gbp_thb` or the rate date |
| Stages.Project | dags/transform_logic.py:44-49 | each output row keeps its joined row's fields and its formatted date, one for one |
| TransformLogic.ProjectedRows | dags/transform_logic.py:32-49 | with unique rate dates the projected table has one row per line item, in order, with its own fields and THB amount = total × (matched rate or 42.0) |
| TransformLogic.ProjectedDates | dags/transform_logic.py:39-41 | with unique rate dates and a `date` column in the extract, each output date is the line item's own date, formatted when the column holds timestamps |
| TransformLogic.Projected | dags/transform_logic.py:32-49 | the projected table has at least one row per line item (row by row in `ProjectedRows` and `ProjectedDates`) |
| TransformLogic.FallbackRatesConvert | dags/gcp_project.py:134-139 | with the one-row fallback rate table, every THB amount is the total times 42.0 |
| Masks.Mask | dags/transform_logic.py:60-71 | `df[mask]` has as many rows as the mask has true entries, never more than the table (which rows, in `MaskSpec`) |
| Masks.PositionsSpec | dags/transform_logic.py:71 | the kept positions are increasing, one per true entry, and include every true entry |
| Masks.MaskSpec | dags/transform_logic.py:71 | `df[mask]` is the rows at the mask's true positions, in order |
| Masks.CountTrueNot | dags/transform_logic.py:59-60 | kept rows plus flagged rows add up to all rows |
| Stages.Duplicated | dags/transform_logic.py:58-59 | a row is flagged exactly when an earlier row has the same `(transaction_id, product_id)`, null keys equal to null keys |
| Stages.DropDuplicates | dags/transform_logic.py:60 | the kept rows and the flagged rows add up to the table, so the rows dropped are `duplicated(...).sum()` (which rows, in `DropDuplicatesSpec`) |
| Stages.DropDuplicatesSpec | dags/transform_logic.py:58-63 | after removal keys are unique; removed count = flagged count; every key survives; exactly the first occurrences are kept, in order |
| Stages.DropDuplicatesUnflagged | dags/transform_logic.py:58-60 | when no row is flagged, removal changes nothing, so skipping it is the same |
| Stages.DropDuplicatesOfUnique | dags/transform_logic.py:58-60 | a table with unique keys has no flagged rows and is left unchanged |
| Stages.DropDuplicatesIdempotent | dags/transform_logic.py:60 | removing duplicates twice is the same as once |
| Stages.DuplicateScenario | dags/transform_logic.py:58-60 | two identical items of transaction 1 and one of transaction 2 give one duplicate and keep the first and third rows |
| Stages.MaskKeepsKeysUnique | dags/transform_logic.py:71 | any selection from a table with unique keys still has unique keys |
| Stages.RowFilter | dags/transform_logic.py:66-71 | every row kept passes `Good` (price present and ≥ 0, transaction id present, date present), and as many rows are kept as pass it (which rows, in `RowFilterSpec`) |
| Stages.RowFilterSpec | dags/transform_logic.py:66-71 | the filter keeps exactly the good rows, in their original order |
| Stages.RowFilterIdempotent | dags/transform_logic.py:66-71 | filtering twice is the same as once |
| Stages.FilterKeepsBadQuantityAndAmount | tests/test_transform.py:10-32 | the four rows of the reference test (quantities 0 and −5, a negative THB amount) all pass the pipeline's own filter |
| TransformLogic.Clean | dags/transform_logic.py:58-71 | after duplicate removal then the filter, keys are unique, every row passes the filter, and no step adds rows |
| TransformLogic.QualityChecks | dags/transform_logic.py:51-75 | the rows left are `Clean` of the input; the counts are the input size, the number of flagged duplicates, the size after duplicate removal, the final size and the bad rows removed, with the skipped drop when nothing is flagged giving the same result |
| TransformLogic.CleanIdempotent | dags/transform_logic.py:58-71 | a cleaned table is a fixed point of duplicate removal, of the filter, and of the whole cleaning |
| TransformLogic.RunTransformAndClean | dags/transform_logic.py:23-94 | raises exactly when `join_date`, one of the nine data columns is missing, or the extract has its own `gbp_thb`; otherwise returns the eleven columns and the cleaned projection, with unique keys, only good rows, and the summary counts: initial = projected size, duplicates = the flagged count, after dedup = size of the deduplicated table, final = output size, bad rows = after dedup − final ≥ 0; with unique rate dates initial = number of line items |

## Left out

- The Discord notifier `send_discord_warning` is left out (a network post, best effort). So are its webhook lookup and the log calls. The summary message is modelled as the four counts of `DqReport`.
- Reading and writing Parquet files (`read_parquet`, `to_parquet`) is left out. The inputs are the two tables and the output is the cleaned table. The returned path is not modelled.
- Floating point is modelled as exact `real` arithmetic, so rounding in `total_amount × gbp_thb` and NaN comparisons beyond nulls are not captured.
- Column dtypes are fixed by the row types. Pandas' coercions (a key column of mixed types, strings in `price`) are not modelled.
- The rate table is assumed to have exactly the columns `date` and `gbp_thb`, as both rate-extract paths in `dags/gcp_project.py` write. An extract table with other extra columns is not modelled: the column vocabulary is the pipeline's thirteen names plus merge suffixes.
- Stages.FormatDates: years are limited to 1000–9999, and a day is any of 1–31 whatever the month.
- Stages.DateColumn: when the extract has no `date` column, the merged `date` is the rate's date for matched rows and null otherwise. It is kept as text and never reformatted.
- The DAG wiring in `dags/gcp_project.py` is not part of this model: the SQL extract, the API fetch, the upload tasks and the alerts. The rate fallback appears only as the table `FallbackRates` and the empty-store placeholder only in `EmptyExtractRaises`.
- The merge conflict markers in the import block of `dags/transform_logic.py`, and the DAG's call of the transform with two arguments where three are required, would stop the module or the task before any transform runs. They are not modelled.
- `tests/test_transform.py:21-23` filters on `thb_amount >= 0` and `quantity > 0`. The function itself filters on price, transaction id and date (`dags/transform_logic.py:66-70`). The model follows the function; `FilterKeepsBadQuantityAndAmount` shows that the test's rejected rows pass it.
- When the store returns no rows, the extract writes a placeholder with only `date`, `price` and `quantity` (`dags/gcp_project.py:108-110`). The merge rejects it with `KeyError` on `join_date`, and the model does the same (`EmptyExtractRaises`).
- Selecting the target columns raises `KeyError` when one is missing (`dags/transform_logic.py:49`), and the model does the same (`SelectTargets`, `RunTransformAndClean`).
- A merge input that already has a column named like a merge result (an extract column `date_x`, say) is not modelled: pandas then refuses the duplicate column name, while `Columns.MergeColumns` lets the two names coincide in its set of columns. The extract never has such a column.
