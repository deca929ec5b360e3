# FX history table engine, modelled in Dafny

The FX tool keeps a wide table of European Central Bank reference rates. Each
rate is "1 EUR = X units of the currency". The table has one row per date and
one column per currency code ever seen, and is persisted as a CSV file.

The model covers the table engine of `main.py` and `backfill_90d.py`:

- **Loading and saving the history** (`load_history`, `save_history`).
  Currency names are upper-cased and rows are sorted by date. A missing file
  gives an empty table.
- **The daily merge** (`upsert_daily_row`). Today's row is inserted only when
  its date is new. Currencies that today's row brings for the first time
  become columns of the caller's frame, and are missing on every older row.
- **The 90-day batch merge** (`upsert_90d_into_history`).
  - `DataFrame.update` merges cell by cell: a present batch value wins, and a
    missing one never overwrites.
  - Batch rows on new dates are then appended, and the table is re-sorted.
- **The PLN cross rates** (`compute_pln_rates`, the same code in both files).
  - The euro's price in złoty is the PLN rate.
  - Any other target's price is the PLN rate divided by its own rate.
  - Dates with no price at all are dropped.

A date is a day number, and a cell is `Option<real>`, where `None` is pandas'
NaN. A table is a list of distinct column codes plus rows. Each row carries
its date and one cell per column (`Tables.Table.Valid`). pandas' separate
`date` column is the row's date.

The code that changes frames in place becomes methods on the class
`Frames.Frame`:
- `frame[c] = values` is `Frame.SetColumn`;
- `frame.update(other)` is `Frame.Update`, a loop over the columns.

`DailyMerge.UpsertDailyRow`, `BatchMerge.UpsertBatch` and
`CrossRates.ComputePlnRates` follow the source's statements. Each is proved
equal to a function (`UpsertDaily`, `MergeBatch`, `PlnRates`), and the
properties are lemmas about those functions.

Three facts about the code that the model makes explicit:
- **Re-merging a batch is not always a no-op.** It is idempotent when the
  batch brings no currency the history lacks, or no date the history lacks
  (`BatchMerge.MergeBatchIdempotent`). It is not idempotent when the batch
  brings both a new date and a new currency with a value on a date the
  history already had. The new column arrives only with the rows appended
  for the new dates, so on the old dates it is missing after the first
  merge and filled by the second (`BatchMerge.MergeBatchNotIdempotentWhen`,
  `BatchMerge.MergeBatchNotIdempotent`).
- **The euro as a target.** `EUR_PLN`, equal to the PLN rate, is emitted
  whenever `EUR` is among the targets.
- **Zero rates.** Dividing by a zero rate gives pandas' infinity, not a
  missing value. The model therefore requires non-zero rates.

## Model

| member | source | states |
|---|---|---|
| Sorting.SortByDate | main.py:81 | the sorted rows are a permutation of the input rows |
| Sorting.SortByDateSorted | main.py:106 | the result of sorting is in ascending date order |
| Sorting.SortByDateOfSorted | backfill_90d.py:32 | sorting rows already in date order leaves them unchanged |
| Sorting.SortByDateStrict | backfill_90d.py:88 | rows with distinct dates sort into strictly ascending order |
| Sorting.SortByDateRowAt | backfill_90d.py:88 | with distinct dates, sorting keeps the same row at every date |
| Tables.Concat | backfill_90d.py:87 | `pd.concat` has the first table's columns followed by the second's new ones; every row is padded with missing cells to that column list; validity is preserved |
| Tables.Pad | main.py:105 | a padded row keeps its date and cells, has exactly the given columns, and is missing on the ones it lacked |
| Tables.Minus | main.py:100-101 | the columns of one list absent from another, with no duplicates |
| HistoryStore.Upper | main.py:80 | upper-casing keeps the length, turns each lower-case ASCII letter into its upper-case letter, leaves every other character as it is, and so yields upper-case text |
| HistoryStore.UpperAll | backfill_90d.py:27 | name `i` of the result is name `i` of the header upper-cased; the count is kept, and all-upper-case lists are unchanged |
| HistoryStore.LoadHistory | main.py:76-83 | no file gives a table with no columns and no rows; otherwise the columns are the upper-cased header, the rows are exactly the file's lines read under those columns (as a multiset), and they are sorted by date |
| HistoryStore.SaveHistory | backfill_90d.py:31-32 | the written file has the table's columns as header, one line per row, and lines in ascending date order |
| HistoryStore.RowRecordRoundTrip | backfill_90d.py:26 | a row written as a line and read back under the same header is the same row |
| HistoryStore.LoadSaveRoundTrip | backfill_90d.py:24-32 | saving a table with upper-case names and loading it back gives the same table sorted by date |
| HistoryStore.LoadSaveLoad | backfill_90d.py:24-32 | load normalisation is idempotent: saving a loaded table and loading it again changes nothing |
| Frames.Frame.SetColumn | main.py:102 | `frame[c] = values` replaces column `c` if present and appends it otherwise; row `k` gets `values[k]` in `c`, and nothing else changes |
| Frames.Frame.Update | backfill_90d.py:84 | `update` leaves the columns unchanged; each cell takes the other frame's value at the same date and column when that value is present, and keeps its own otherwise |
| DailyMerge.UpsertDaily | main.py:86-106 | empty today table, or today's date already present: the history unchanged; otherwise an error exactly when the history has a column today lacks, naming exactly those columns |
| DailyMerge.UpsertDailyRow | main.py:86-106 | returns `UpsertDaily` of the history as it was; the caller's frame is unchanged when nothing is inserted, and otherwise gains today's new columns, missing on every old row, even when the insertion then fails |
| DailyMerge.AddMissingColumns | main.py:100-102 | the frame gains each of today's columns it lacks, in today's order, missing on every existing row; its other columns and cells are unchanged and it stays valid |
| DailyMerge.WidenAddColumn | main.py:100-102 | adding one more new column sets it to missing on every existing row |
| DailyMerge.Missing | main.py:102 | `pd.Series(dtype="float")` aligned to the rows is missing everywhere |
| DailyMerge.UpsertDailyInsertShape | main.py:100-106 | an insertion succeeds when today has every history column; the result is valid, with the history's columns then today's new ones, one row more per row of today, sorted by date |
| DailyMerge.UpsertDailyInsertRows | main.py:100-106 | today's rows appear unchanged; every old row survives with all its cells and is missing on today's new columns |
| DailyMerge.UpsertDailyDates | main.py:94-106 | strictly ascending history dates stay strictly ascending, and the dates become the history's plus today's |
| BatchMerge.NewDateRows | backfill_90d.py:85-87 | the batch rows on dates the history lacks, and only those; distinct dates stay distinct |
| BatchMerge.MergeBatch | backfill_90d.py:80-81 | a history with no rows is replaced by the batch, columns included; the result is always a valid table |
| BatchMerge.UpsertBatch | backfill_90d.py:79-89 | a frame updated in place by the batch, then extended by the new-date rows and sorted, equals `MergeBatch` |
| BatchMerge.MergeBatchHistoryDates | backfill_90d.py:84 | on a history date, a history column takes the batch value when the batch has that date and column and the value is present, and keeps its old value otherwise; a column added by the batch is missing there |
| BatchMerge.MergeBatchNewDates | backfill_90d.py:85-87 | on a date only the batch has, the row carries the batch's cells and is missing on the history-only columns |
| BatchMerge.MergeBatchShape | backfill_90d.py:85-89 | the dates are the union of the history's and the batch's, in strictly ascending order; the batch's new columns are added exactly when it has a date the history lacks |
| BatchMerge.UpdatedRowTwice | backfill_90d.py:84 | updating a row twice with the same frame is updating it once |
| BatchMerge.MergeBatchFixed | backfill_90d.py:79-89 | merging a batch into a sorted table that has all its dates and agrees with every present batch cell changes nothing |
| BatchMerge.MergeBatchIdempotent | backfill_90d.py:79-89 | re-merging the same batch changes nothing when the batch has no column the history lacks, or no date the history lacks |
| BatchMerge.MergeBatchNewCurrencyOldDate | backfill_90d.py:84-87 | a concrete USD history and a batch bringing GBP on a date the history has: re-merging changes nothing |
| BatchMerge.MergeBatchNotIdempotentWhen | backfill_90d.py:84-87 | a batch with a new date, and a new currency with a value on an existing date, makes the second merge differ from the first |
| BatchMerge.MergeBatchNotIdempotent | backfill_90d.py:84-87 | a concrete USD history and USD/GBP batch that the merge does not treat idempotently |
| CrossRates.OutName | main.py:128 | `f"{t}_PLN"`, from which `Base` recovers the target |
| CrossRates.Div | main.py:128 | the quotient of two cells is present exactly when both are, and times the divisor gives the dividend |
| CrossRates.Quoted | main.py:123-127 | the targets assigned in the loop are exactly the targets other than `EUR` that the rates have a column for |
| CrossRates.Written | main.py:120-127 | a target gets an output column exactly when it is `EUR` or the rates have a column for it |
| CrossRates.Dedup | main.py:119-128 | the distinct assigned names, each once, and no other names |
| CrossRates.DedupOrder | main.py:119-128 | the names appear in the order in which they are first assigned, so the output columns keep the order of assignment |
| CrossRates.KeepPriced | main.py:130 | `dropna(how="all")` keeps exactly the rows with some price present, and keeps dates distinct |
| CrossRates.PlnRates | main.py:116-130 | an error exactly when the rates have no PLN column; otherwise a valid table sorted by date, with no more rows than the rates |
| CrossRates.ComputePlnRates | main.py:110-130 | the frame built column by column, with rows lacking prices dropped and the rest sorted, equals `PlnRates` |
| CrossRates.AssignPrice | main.py:120-128 | assigning a target's price column turns the frame derived for the targets so far into the frame derived for them and that target, a repeated name replacing its column in place |
| CrossRates.AssignQuoted | main.py:123-128 | the loop over the targets leaves the frame with exactly the columns and prices derived for every written target |
| CrossRates.PlnRatesColumns | main.py:120-128 | the output columns are exactly `<t>_PLN` for each target `t` that is `EUR` or has a rates column, with `EUR_PLN` first when the euro is a target |
| CrossRates.DedupFirst | main.py:120-121 | the first assigned name stays the first column |
| CrossRates.PlnRatesKept | main.py:130 | with distinct dates, a date of the rates has an output row exactly when its PLN rate is present and either the euro is a target or some other present target has a rate |
| CrossRates.PlnRatesPrices | main.py:120-128 | on a kept date, `EUR_PLN` is the PLN rate and `<t>_PLN` is PLN divided by `t`'s rate |
| CrossRates.DerivedRowPrices | main.py:120-128 | a derived row holds `EUR_PLN` as the PLN rate and each quoted target's quotient |
| CrossRates.PlnRatesMissingPln | main.py:128-130 | a date whose PLN rate is missing has no output row |
| CrossRates.PlnRatesDates | main.py:130 | the output dates are dates of the rates; they are strictly ascending when the rates' dates are distinct |

## Left out

- Fetching and parsing the ECB XML feeds is out: HTTP and ElementTree. Their output appears as preconditions on the merges: the batch has distinct dates, and for the idempotence lemma it is sorted. An unparsable rate is a `None` cell.
- The Plotly dashboard, `main()`, `ensure_dirs`, printing and `sys.exit` are out: rendering and process plumbing.
- CSV reading and writing are out. A file is given as its header and records, or `None` when it does not exist.
- Rates are reals, so floating-point rounding is not modelled. The `datetime64` parsing of dates is not modelled either: dates are day numbers.
- Dtype coercion is not modelled.
- HistoryStore.LoadHistory: requires the upper-cased header to be free of duplicates, because pandas' handling of duplicate column names is not modelled.
- HistoryStore.Upper: upper-cases ASCII letters only, not the full Unicode case mapping of `str.upper`.
- Sorting.SortByDate: a stable insertion sort. pandas' default sort is not stable, so the two can differ in the order of rows that share a date. `SortByDateOfSorted` and the equalities built on it (`HistoryStore.LoadSaveRoundTrip`, `HistoryStore.LoadSaveLoad`, `BatchMerge.MergeBatchFixed`, `BatchMerge.MergeBatchIdempotent`) hold for the stable sort of the model; for pandas they hold only for tables whose dates are distinct.
- CrossRates.PlnRates: requires every rate of a target other than the euro to be non-zero. pandas gives an infinite price there, and `dropna` keeps it; a cell cannot hold infinity.
- CrossRates.PlnRates: a target named `date` is treated as a currency the rates lack. pandas would try to divide the PLN rates by the date column and raise.
- BatchMerge.MergeBatch: requires the batch dates to be distinct, where `update` would raise on duplicates. The element-wise merges are stated for histories with distinct dates.
- DailyMerge.UpsertDailyDates: stated for a today table of at most one row, which is what the daily fetch produces. `UpsertDaily` itself handles any number of rows.
