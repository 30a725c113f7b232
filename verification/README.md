# Truncating the flight-prices CSV to its middle day: a Dafny model

The repository shrinks a large flight-prices CSV to one representative day. It
makes two streaming passes over the file, both in chunks of `--chunksize` rows:

1. `compute_daily_counts` reads only the date column. It counts each distinct
   date in every chunk with `value_counts` and adds those counts into a running
   `dict`. It then returns the entries sorted by date.
2. `get_middle_date` sorts that table by date and picks the date at index
   `len // 2`. In `main`, a truthy `--middle-date` override replaces it.
3. `write_truncated_day` reads the whole file again and keeps the rows whose
   date cell string-equals the target. It writes each chunk that has matches
   to the output file. The first such chunk truncates the file and writes the
   header; later ones append without a header.

`data_mining_flight/truncate_data.py` and `data_mining_flight/turncate_data.py`
are byte-identical, with the same line numbers. Every row of the table below
cites `truncate_data.py`, and the same lines of `turncate_data.py` say the same
thing.

Files and modules:

| file | module | contents |
|---|---|---|
| `wrappers.dfy` | `Wrappers` | `Option` (a missing cell, an absent argument) and `Result` (an exception) |
| `lexical.dfy` | `Lexical` | Python's `str` order (code-point lexicographic) and its order laws |
| `frame.dfy` | `Frame` | parsed CSV (`Csv`, `Row`), the raised errors, chunking (`Concat`, `Split`, `ReadChunks`), the row filter `Matching`, `DatesOf`, `DatedCount` |
| `count_table.dfy` | `CountTable` | the `(date, count)` table, sortedness, insertion |
| `daily_counts.dfy` | `DailyCounts` | the counting pass: `Tally` (what `value_counts` computes), the merge loop, the chunk loop, `sorted(counts.items())`, conservation |
| `middle.dfy` | `Middle` | `sort_values` + `iloc[len // 2]`, the rank of the chosen date, and the errors `get_middle_date` raises |
| `extract.dfy` | `Extract` | the output file (`Header`/`Record` lines), the trace of `to_csv` writes, the extraction loop |
| `pipeline.dfy` | `Pipeline` | `main`: error order, override choice, cross-check between the two passes |

Modelling choices:

- A row is a `map<string, Option<string>>`. `None` is a missing cell, and a
  column the row lacks also reads as missing.
- A chunking is any `seq<seq<Row>>`. Its meaning is the concatenation of its
  chunks. Empty chunks are allowed, so the properties proved for every chunking
  cover more cases than pandas can produce.
- `Frame.Split` models pandas' own chunk reader: consecutive slices of
  `chunksize` rows. A file with a header and no data rows still yields one empty
  chunk. A chunk size below 1 is refused before anything is read
  (`BadChunkSize`).
- The output path is modelled as a `File` value: `None` when no file exists,
  otherwise a sequence of lines. Each `to_csv` call is one `Write` (mode `w` or
  `a`, a header flag, rows). `before` is whatever the path held before the run.
- Every exception is an `Err` of `Frame.Error`:
  - `BadChunkSize`: pandas rejects a chunk size below 1.
  - `NoColumns`: pandas' `EmptyDataError` when the file has no header line.
  - `MissingColumn`: raised by `usecols` in the counting pass, or by line 63 in
    the extraction pass.
  - `DuplicateLabel`: with `--date-column count`, line 49 builds a frame whose
    two columns are both labelled `count`, and `sort_values` at line 54 raises
    `ValueError`.
  - `EmptyTable`: the `IndexError` of `iloc` when there is no date to pick.

Two consequences of the code:

- `value_counts` drops missing values, so the daily counts sum to the number
  of rows whose date cell is present, not to the number of rows
  (`DailyCounts.TallyConservation`).
- The counting pass reads with `usecols=[date_column]` (truncate_data.py:39-45),
  which already raises `MissingColumn` for an absent column. In a full run the
  extraction pass therefore never raises `MissingColumn` (`Pipeline.Truncate`).

## Model

| member | source | states |
|---|---|---|
| `Frame.Split` | data_mining_flight/truncate_data.py:39-45 | the chunks concatenate back to the rows; there is at least one chunk (one empty chunk for a header-only file); no chunk exceeds the chunk size; every chunk but the last has exactly that size; with data rows, no chunk is empty |
| `Frame.ReadChunks` | data_mining_flight/truncate_data.py:61 | opening the chunked reader fails with `BadChunkSize` when the chunk size is below 1, and otherwise with `NoColumns` when the file has no header; it fails in no other case, and its chunks concatenate to the file's rows |
| `Frame.Matching` | data_mining_flight/truncate_data.py:64 | a row is kept exactly when it is in the input and its date cell is present and equal to the target; each kept row occurs as often as in the input and every other row not at all; never more rows than the input |
| `Frame.MatchingAppend` | data_mining_flight/truncate_data.py:61-64 | filtering two consecutive blocks chunk by chunk gives the filter of their concatenation, in order |
| `Frame.DatesOf` | data_mining_flight/truncate_data.py:46 | a date is among the column's values exactly when at least one row matches it (missing cells contribute no date) |
| `DailyCounts.Tally` | data_mining_flight/truncate_data.py:46 | `value_counts()`: every date's count, reading an absent date as 0, is the number of rows whose cell holds it; only dates with a positive count are listed |
| `DailyCounts.TallyAppend` | data_mining_flight/truncate_data.py:46-48 | per-date counts are additive over consecutive blocks: for every date, the count over both blocks is the sum of the two counts, reading an absent date as 0 (`get(d, 0)`) |
| `DailyCounts.MergeStep` | data_mining_flight/truncate_data.py:46-48 | merging a chunk's counts into the running counts of the rows seen so far gives exactly the counts of the rows seen plus that chunk |
| `DailyCounts.MergeCounts` | data_mining_flight/truncate_data.py:47-48 | the `counts[d] = counts.get(d, 0) + c` loop yields the key union, with each date's count the sum of the running and the chunk count |
| `DailyCounts.CountDates` | data_mining_flight/truncate_data.py:39-48 | chunk invariance: for every chunking, the running counts end equal to the per-date counts of the concatenated rows |
| `DailyCounts.SortedItems` | data_mining_flight/truncate_data.py:49 | the table lists exactly the map's keys, in strictly ascending string order, each with its mapped count |
| `DailyCounts.ListingUnique` | data_mining_flight/truncate_data.py:49 | two strictly sorted listings of the same counts are equal, so the table is determined by the rows alone, whatever the chunk size |
| `DailyCounts.TallyConservation` | data_mining_flight/truncate_data.py:46-49 | the counts of the table sum to the number of rows whose date cell is present |
| `DailyCounts.ComputeDailyCounts` | data_mining_flight/truncate_data.py:37-50 | `BadChunkSize` for a chunk size below 1, then `NoColumns` for a file without a header, then `MissingColumn` for an absent column, otherwise success; on success the table is the sorted listing of the per-date counts, every count is at least 1 and equals the number of rows with that date, every listed date occurs in the input, counts sum to the dated rows, and the table is empty exactly when no row has a date |
| `CountTable.InsertStrictlySorted` | data_mining_flight/truncate_data.py:49 | inserting an entry with a new date keeps a table strictly ascending |
| `Middle.SortByDate` | data_mining_flight/truncate_data.py:54 | `sort_values` returns a permutation of the table (same multiset of entries), ascending by date |
| `Middle.SortCounts` | data_mining_flight/truncate_data.py:54 | sorting preserves how many entries fall strictly below, and at or below, any date |
| `Middle.MiddleDate` | data_mining_flight/truncate_data.py:53-56 | on a non-empty table the result is one of its dates; at most `len // 2` entries are strictly below it, and more than `len // 2` are at or below it |
| `Middle.MiddleOfSortedTable` | data_mining_flight/truncate_data.py:53-56 | on a date-sorted table, such as the one the counting pass returns, the date picked after re-sorting is the date of the entry at index `len // 2`; for an even length this is the first date of the upper half |
| `Middle.CountBelowExact` | data_mining_flight/truncate_data.py:55-56 | in a strictly ascending table exactly `m` dates lie below the date at index `m`, so the middle date has exactly `len // 2` dates before it |
| `Middle.GetMiddleDate` | data_mining_flight/truncate_data.py:49-56 | with `--date-column count` the shared label makes `sort_values` raise `DuplicateLabel`, whatever the table; otherwise an empty table raises `EmptyTable`; in every other case the result is a date of the table with the middle rank |
| `Extract.WriteTruncatedDay` | data_mining_flight/truncate_data.py:59-68 | fails with `MissingColumn` exactly when the column is absent and there is a chunk, leaving the file untouched; otherwise the writes carry exactly the input rows filtered by the target, in source order, for every chunking; the first write truncates and writes the header, later ones append without it, no write is empty; with no match nothing is written and the file is left as it was; with a match the file is the header followed by the matching rows |
| `Extract.Perform` | data_mining_flight/truncate_data.py:67 | after one `to_csv` the file exists; its length is the prior lines for mode `a` (none for mode `w`), plus one for the header when asked, plus one line per row |
| `Extract.PerformEffect` | data_mining_flight/truncate_data.py:67 | after one `to_csv` in mode `a` the prior lines are a prefix of the file; the header, when asked, sits right before the records; the written rows' records end the file |
| `Extract.WriteStep` | data_mining_flight/truncate_data.py:65-68 | writing one more matching chunk under the `first` flag keeps the header discipline and extends the file by exactly that chunk's records |
| `Extract.PerformAllContent` | data_mining_flight/truncate_data.py:65-68 | a non-empty sequence of writes that keeps the header discipline leaves, whatever the path held before, the header followed by every written row in order |
| `Extract.HeaderFirstAndOnce` | data_mining_flight/truncate_data.py:67 | the written file's first line is the header, and it holds exactly one header line |
| `Extract.RerunIdempotent` | data_mining_flight/truncate_data.py:67-68 | because the first write uses mode `w`, replaying the same writes over their own output gives the same file |
| `Pipeline.SelectTarget` | data_mining_flight/truncate_data.py:117 | a truthy override (present and non-empty) is used as given, and nothing can fail; an empty or absent one falls back to the middle date, which fails with `DuplicateLabel` for a date column named `count`, then with `EmptyTable` for an empty table, and otherwise is a date of the table with the middle rank |
| `Pipeline.Truncate` | data_mining_flight/truncate_data.py:113-120 | errors in source order (`BadChunkSize`, `NoColumns`, `MissingColumn`, then, without a truthy override, `DuplicateLabel` and `EmptyTable`), and success exactly when none applies; the daily table is saved exactly when the counting pass succeeds, even if a later step raises, and it lists the per-date counts; on success: the target is the override or the table's middle entry; the written rows are the source rows of the target date; for a computed target, that date's count in the table equals the number of rows written and is at least 1; a target absent from the data writes nothing and leaves the file as it was |

## Left out

- `resolve_paths`, the output directory, and the file names built with
  `os.path.join` (truncate_data.py:11-34, 105-108, 114, 119) are filesystem
  lookups and path strings. The model receives the parsed file and the prior
  content of the truncated file's path as parameters.
- `daily_counts.to_csv` (line 115) is represented by returning the saved
  table. The CSV text it would produce is not modelled.
- Pipeline.Truncate: does not model `OSError` from either `to_csv` call
  (lines 67 and 115). Whether a write succeeds depends on the filesystem,
  which the model does not hold. One such case: a target date containing `/`,
  such as `04/16/2022`, makes the path built at line 119 name a directory
  that usually does not exist, so the first write raises while the model
  reports success.
- `plot_counts` (lines 71-82) and the `print` calls are plotting and console
  output.
- `data_mining_flight/data_fetching.py` is not part of this model. It is a
  network download followed by pandas parsing and random sampling.
- Argument parsing with `argparse` is not modelled. `Pipeline.Args` holds the
  already-parsed values.
- CSV tokenisation and pandas type inference are not modelled. The counting
  pass reads the date column with dtype `"string"` (line 42); the extraction
  pass does not (line 61). The model assumes that both passes see the date cell
  as the same string. An empty field is a missing cell in pandas, and the model
  takes rows as already parsed.
- The memory bound that the chunk size provides is not modelled. Only the chunk
  boundaries are kept, and the counting and filtering results are proved
  independent of them.
