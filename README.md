# CSV → SQLite cleaning pipeline, modelled in Dafny

This project models the `etl_csv` batch loader. The driver (`main`) finds every `*.csv`
file in the data directory and visits them in name order. Each file is read in slices of
`CHUNK_SIZE` (50,000) rows. `clean_df` cleans each slice on its own:

1. `standardize_columns` strips each label, lower-cases it, and turns every maximal run of
   non-word characters into one `_`.
2. `enforce_types` applies the fixed `DTYPE_MAP`: `order_date` becomes a datetime, `price`
   a float64 and `qty` an int64.
3. `drop_dupes_na` drops duplicates (on `order_id` when that column exists), then drops the
   rows that are entirely missing.

Each cleaned slice is appended to the table `sales_raw`. After the last file, `add_indices`
is meant to create `idx_sales_raw_order_id` when the table has an `order_id` column. As
written it never does: it looks for `order_id` among the column ids rather than the column
names (see Findings below).

Modules:

- `Frames` — a DataFrame as column labels plus rows of optional cells. A missing cell
  stands for NaN, NaT or None.
- `ColumnNames` — `standardize_columns`.
- `TypeCoercion` — `enforce_types`, written as a method with a loop over the schema, proved
  against a fold (`ApplySchema`). pandas' `to_datetime` and `astype` are parameters
  (`Converters`): a parse and a cast that may fail. The parse also receives the value
  `to_datetime` infers the column's format from: the column's first cell that is present
  and is not an empty text, a spelling of NaT, "now" or "today".
- `Dedupe` — `drop_dupes_na`. It rests on `RowFilters`, which holds order-preserving
  filtering and "keep the first of each key".
- `FileOrder` — `sorted(glob("*.csv"))`.
- `Etl` — the rest of the driver:
  - `clean_df`;
  - chunked reading;
  - the database, as the class `Warehouse`, whose methods are `csv_to_sqlite` and
    `add_indices`;
  - `main`, as `RunPipeline`.

Normalized column labels are not necessarily unique; the model follows the code:

- Normalized column labels are not necessarily unique. `"A b"` and `"a-b"` both become
  `"a_b"` (`ColumnNames.ExampleCollision`), so a frame may carry a label twice. The
  de-duplication model handles repeated labels. The coercion model does not follow the
  program when a label in `DTYPE_MAP` is repeated: there the program raises (for
  `order_date`) or casts per storage block (for `price` and `qty`); see "Left out" below.

On chunking: a CSV file with a header and no data rows still yields one slice, because
pandas produces an empty first chunk that carries the header. It is cleaned and appended,
so it can create the table (`Etl.ChunksSizes`).

## Model

| member | source | states |
|---|---|---|
| `ColumnNames.ToLower` | etl_csv/clean_rules.py:16 | the result is never an upper-case letter; upper-case ASCII letters map to their lower-case counterparts, every other character is unchanged |
| `ColumnNames.TrimStart` | etl_csv/clean_rules.py:15 | the result is a suffix of the input, everything cut is whitespace, and it does not start with whitespace |
| `ColumnNames.TrimEnd` | etl_csv/clean_rules.py:15 | the result is a prefix of the input, everything cut is whitespace, and it does not end with whitespace |
| `ColumnNames.Strip` | etl_csv/clean_rules.py:15 | the result is the contiguous slice of the label left after cutting only whitespace at both ends, and it neither starts nor ends with whitespace |
| `ColumnNames.StripNoSpaceAtEnds` | etl_csv/clean_rules.py:15 | a label that neither starts nor ends with whitespace is not changed by stripping |
| `ColumnNames.Lower` | etl_csv/clean_rules.py:16 | defines `.str.lower()` as `ToLower` on every character; `ColumnNames.ExampleOrderIdLower` and `ColumnNames.NormalizeAlphabet` state its effect |
| `ColumnNames.ReplaceRuns` | etl_csv/clean_rules.py:17 | defines the left-to-right scan behind `.str.replace(r"[^\w]+", "_")`, remembering whether it is inside a run of non-word characters; `ColumnNames.ReplaceRunsOfWord`, `ColumnNames.ReplaceRunsOfRun` and `ColumnNames.ReplaceRunsKeepsAlnums` state what it does |
| `ColumnNames.ReplaceNonWordRuns` | etl_csv/clean_rules.py:17 | defines the replacement as the scan started outside a run; `ColumnNames.ReplaceNonWordRunsWordPrefix` and `ColumnNames.ReplaceNonWordRunsMaximalRun` state that word characters pass and each maximal non-word run becomes one `_` |
| `ColumnNames.Normalize` | etl_csv/clean_rules.py:15-17 | defines one label's standardization as strip, then lower, then the run replacement, in that order; `ColumnNames.NormalizeAlphabet`, `ColumnNames.NormalizeKeepsAlnums`, `ColumnNames.NormalizeFixedPointIff` and `ColumnNames.NormalizeIdempotent` state its properties |
| `ColumnNames.NormalizeAll` | etl_csv/clean_rules.py:13-18 | defines the `.str` chain applied to the whole label index, one normalized label per input label; its properties are stated by `ColumnNames.NormalizeIdempotent` and `ColumnNames.StandardizeColumnsIdempotent` |
| `ColumnNames.StandardizeColumns` | etl_csv/clean_rules.py:8-19 | the new frame has the same rows, the same number of labels, each label normalized in place, and stays well formed |
| `ColumnNames.ReplaceRunsAlphabet` | etl_csv/clean_rules.py:17 | on text without upper-case letters, the run replacement yields only lower-case letters, digits and `_`, and is no longer than its input |
| `ColumnNames.NormalizeAlphabet` | etl_csv/clean_rules.py:15-17 | a standardized label has only lower-case letters, digits and `_`: no whitespace, no upper case, no punctuation; it is never longer than the raw label |
| `ColumnNames.ReplaceRunsOfWord` | etl_csv/clean_rules.py:17 | a block of word characters is copied through the replacement and ends any run |
| `ColumnNames.ReplaceRunsOfRun` | etl_csv/clean_rules.py:17 | a block of non-word characters yields one `_`, or nothing when it continues a run |
| `ColumnNames.ReplaceNonWordRunsWordPrefix` | etl_csv/clean_rules.py:17 | word characters at the front pass through unchanged |
| `ColumnNames.ReplaceNonWordRunsMaximalRun` | etl_csv/clean_rules.py:17 | a maximal run of non-word characters becomes exactly one `_` |
| `ColumnNames.ReplaceRunsKeepsAlnums` | etl_csv/clean_rules.py:17 | the letters and digits of the text survive in order, and no other letter or digit appears |
| `ColumnNames.NormalizeKeepsAlnums` | etl_csv/clean_rules.py:15-17 | the letters and digits of a standardized label are those of the stripped, lower-cased label, in order |
| `ColumnNames.NormalizeFixedPoint` | etl_csv/clean_rules.py:15-17 | a label over lower-case letters, digits and `_` is its own normal form |
| `ColumnNames.NormalizeFixedPointIff` | etl_csv/clean_rules.py:15-17 | a label is its own normal form if and only if it consists of lower-case letters, digits and `_` |
| `ColumnNames.NormalizeIdempotent` | etl_csv/clean_rules.py:15-17 | normalizing an already normalized label returns it unchanged |
| `ColumnNames.StandardizeColumnsIdempotent` | etl_csv/clean_rules.py:8-19 | standardizing a frame twice equals standardizing it once |
| `ColumnNames.StandardizeColumnsFixedPoint` | etl_csv/clean_rules.py:13-18 | a frame whose labels use only lower-case letters, digits and `_` comes out of standardization unchanged |
| `ColumnNames.ExampleOrderId` | etl_csv/clean_rules.py:15-17 | `"  Order ID! "` becomes `"order_id_"`: whitespace is stripped before the trailing `!` is replaced |
| `ColumnNames.ExampleOrderIdStrip` | etl_csv/clean_rules.py:15 | stripping `"  Order ID! "` gives `"Order ID!"` |
| `ColumnNames.ExampleOrderIdTrimStart` | etl_csv/clean_rules.py:15 | cutting the leading whitespace of `"  Order ID! "` gives `"Order ID! "` |
| `ColumnNames.ExampleOrderIdTrimEnd` | etl_csv/clean_rules.py:15 | cutting the trailing whitespace of `"Order ID! "` gives `"Order ID!"` |
| `ColumnNames.ExampleOrderIdLower` | etl_csv/clean_rules.py:16 | lower-casing `"Order ID!"` gives `"order id!"` |
| `ColumnNames.ExampleOrderIdReplace` | etl_csv/clean_rules.py:17 | the run replacement turns `"order id!"` into `"order_id_"` |
| `ColumnNames.ExampleSpaceIdReplace` | etl_csv/clean_rules.py:17 | the run replacement turns `" id!"` into `"_id_"` |
| `ColumnNames.ExampleIdReplace` | etl_csv/clean_rules.py:17 | the run replacement turns `"id!"` into `"id_"` |
| `ColumnNames.ExampleCollision` | etl_csv/clean_rules.py:15-17 | `"A b"` and `"a-b"` both become `"a_b"`, so normalized labels can collide |
| `ColumnNames.ExampleSpaceSeparated` | etl_csv/clean_rules.py:15-17 | `"A b"` becomes `"a_b"` |
| `ColumnNames.ExampleDashSeparated` | etl_csv/clean_rules.py:15-17 | `"a-b"` becomes `"a_b"` |
| `ColumnNames.ExamplePunctuationAndBlank` | etl_csv/clean_rules.py:15-17 | `"?!-"` becomes `"_"` and a blank label becomes the empty label |
| `ColumnNames.ExamplePunctuation` | etl_csv/clean_rules.py:15-17 | `"?!-"` becomes `"_"` |
| `ColumnNames.ExampleBlank` | etl_csv/clean_rules.py:15-17 | a label of whitespace only becomes the empty label |
| `TypeCoercion.IsDatetimeType` | etl_csv/clean_rules.py:30 | defines `dtype.startswith("datetime")` as the prefix test; `TypeCoercion.ApplySchemaDatetime` and `TypeCoercion.ApplySchemaCast` state the two branches it selects |
| `TypeCoercion.ParseCell` | etl_csv/clean_rules.py:31 | defines `to_datetime(errors="coerce")` on one cell of a column whose format is inferred from a given first value: missing stays missing, a value becomes its parse in that format or missing when it does not parse; stated per cell by `TypeCoercion.ApplySchemaDatetime` |
| `TypeCoercion.FormatBearing` | etl_csv/clean_rules.py:31 | defines the cells the format can be inferred from: present, and not the empty text, `NaT`, `nat`, `NAT`, `nan`, `NaN`, `NAN`, `now` or `today`, which `to_datetime` passes over; used by `TypeCoercion.FirstFormatValue` |
| `TypeCoercion.FirstFormatValue` | etl_csv/clean_rules.py:31 | the value the format is inferred from: none exactly when no cell can bear a format, otherwise a format-bearing cell with none above it |
| `TypeCoercion.FirstIndex` | etl_csv/clean_rules.py:31 | the model reads `df[col]` as the first column labelled `col`: a position holding `col` with no earlier position holding it; on a repeated `order_date` label the program raises instead (see Left out) |
| `TypeCoercion.ColumnCells` | etl_csv/clean_rules.py:31 | defines the cells of `df[col]`, top to bottom; `TypeCoercion.ColumnCellsAgree` states that they depend only on that column |
| `TypeCoercion.FormatSource` | etl_csv/clean_rules.py:31 | defines the value `to_datetime` infers the column's format from, the first format-bearing cell of the column; `TypeCoercion.ApplySchemaDatetime`, `TypeCoercion.ExampleFormatFromFirstValue` and `TypeCoercion.ExampleNowIsSkipped` state its role |
| `TypeCoercion.ColumnCellsAgree` | etl_csv/clean_rules.py:31 | frames that agree on the cells labelled `col` have the same `df[col]`, hence the same inferred format |
| `TypeCoercion.Castable` | etl_csv/clean_rules.py:33 | defines when `astype` succeeds on a column: every cell under the label casts; `TypeCoercion.ApplySchemaCast` states that the column is cast exactly when it holds and left alone otherwise (`errors="ignore"`) |
| `TypeCoercion.CastCell` | etl_csv/clean_rules.py:33 | defines one cell's cast, applied only when the whole column is castable; stated by `TypeCoercion.ApplySchemaCast` |
| `TypeCoercion.MapCells` | etl_csv/clean_rules.py:31 | defines the assignment `df[col] = ...` on one row: the cells labelled `col` are replaced by their conversion; `TypeCoercion.CoerceColumnLocal` and `TypeCoercion.ApplySchemaUntouched` state what that does and does not touch |
| `TypeCoercion.MapColumn` | etl_csv/clean_rules.py:31 | defines the assignment `df[col] = ...` on the frame, row by row; `TypeCoercion.CoerceColumnLocal` and `TypeCoercion.ApplySchemaUntouched` state its properties |
| `TypeCoercion.CoerceColumn` | etl_csv/clean_rules.py:28-33 | one schema entry keeps the labels, the row count and every row's width, and changes no cell outside the column it names |
| `TypeCoercion.ApplySchema` | etl_csv/clean_rules.py:22-34 | the whole schema keeps the labels, the row count and every row's width |
| `TypeCoercion.EnforceTypes` | etl_csv/clean_rules.py:22-34 | the loop over the schema items computes the fold of the entries in schema order |
| `TypeCoercion.CoerceColumnLocal` | etl_csv/clean_rules.py:30-33 | what one entry does to its column depends only on that column's cells |
| `TypeCoercion.ApplySchemaUntouched` | etl_csv/clean_rules.py:28-29 | a column the schema does not name comes out unchanged, cell by cell |
| `TypeCoercion.ApplySchemaAgreesOff` | etl_csv/clean_rules.py:28-29 | schema entries for other columns leave a column's cells as they were |
| `TypeCoercion.ApplySchemaEntry` | etl_csv/clean_rules.py:28-33 | with distinct keys, a schema column ends up exactly as its own entry alone would leave it |
| `TypeCoercion.ApplySchemaDatetime` | etl_csv/clean_rules.py:30-31 | for a datetime target, each cell becomes its value parsed in the format inferred from the column's format source, or missing when it does not parse in that format or was missing |
| `TypeCoercion.ExampleFormatFromFirstValue` | etl_csv/clean_rules.py:31 | in a column holding a missing cell, then `a`, then `b`, both values are parsed in the format inferred from `a`, or from `b` when `a` is a skipped text, or with no inferred format when both are skipped |
| `TypeCoercion.ExampleNowIsSkipped` | etl_csv/clean_rules.py:31 | a leading `now` does not fix the format: the columns `now, 2024-01-02, 01/03/2024` and `now, 01/02/2024, 01/03/2024` take their formats from their second cells |
| `TypeCoercion.NowThenValue` | etl_csv/clean_rules.py:31 | after a leading `now`, a ten-character date text is the format source |
| `TypeCoercion.ThreeRowCells` | etl_csv/clean_rules.py:31 | `df["order_date"]` of a one-column, three-row frame is its three cells |
| `TypeCoercion.FirstFormatValueOfThree` | etl_csv/clean_rules.py:31 | the format source of three cells is the first of them that can bear a format |
| `TypeCoercion.DatetimeOnlyColumn` | etl_csv/clean_rules.py:30-31 | on a frame labelled only `order_date`, the datetime entry parses that column in the format of its format source |
| `TypeCoercion.ParseThreeRows` | etl_csv/clean_rules.py:31 | parsing the column of a three-row frame parses each cell with the same format source |
| `TypeCoercion.ApplySchemaCast` | etl_csv/clean_rules.py:32-33 | for any other target, the column is cast in full exactly when every cell casts, and otherwise stays exactly as it was |
| `TypeCoercion.ApplySchemaNoColumns` | etl_csv/clean_rules.py:28-29 | schema keys that are not in the table are skipped: the frame is unchanged and nothing fails |
| `RowFilters.FilterSpec` | etl_csv/clean_rules.py:43 | the filter behind `dropna` keeps an order-preserving subsequence holding exactly the elements that pass |
| `RowFilters.FilterKeepsAll` | etl_csv/clean_rules.py:43 | when every element passes, the filter returns the sequence unchanged |
| `RowFilters.FilterKeepsNone` | etl_csv/clean_rules.py:43 | when no element passes, the filter returns nothing |
| `RowFilters.FilterDistinct` | etl_csv/clean_rules.py:42-43 | filtering keeps keys pairwise distinct |
| `RowFilters.KeepFirstSpec` | etl_csv/clean_rules.py:42 | the walk behind `drop_duplicates` returns an order-preserving subsequence with pairwise distinct keys, whose keys are exactly the input's keys not seen before |
| `RowFilters.KeepFirstAfterPrefix` | etl_csv/clean_rules.py:42 | the first occurrences of `p + s` are those of `p` followed by the walk over `s` that starts with the keys of `p` seen |
| `RowFilters.KeepFirstIsFirstOccurrences` | etl_csv/clean_rules.py:42 | the walk from no seen keys equals the independent definition "keep an element when no earlier element has its key" |
| `RowFilters.KeepFirstOfDistinct` | etl_csv/clean_rules.py:42 | a sequence whose keys are distinct and unseen is kept whole |
| `RowFilters.KeepFirstThenFilter` | etl_csv/clean_rules.py:42-43 | de-duplication then filtering yields a subsequence with distinct keys whose elements all pass, equal to the filter over the first occurrences |
| `Dedupe.Project` | etl_csv/clean_rules.py:42 | defines a row's cells in the columns whose label is in the subset, in column order; `Dedupe.ProjectTwoColumns` shows it on a two-column frame |
| `Dedupe.RowKey` | etl_csv/clean_rules.py:42 | defines what `drop_duplicates(subset)` compares: the whole row without a subset, the projected cells with one; `Dedupe.DropDupesNaSpec` states distinctness on it |
| `Dedupe.DropDuplicates` | etl_csv/clean_rules.py:42 | defines `drop_duplicates(subset)` as keeping the first row of every key with the labels kept; `RowFilters.KeepFirstSpec`, `RowFilters.KeepFirstIsFirstOccurrences` and `Dedupe.KeptIsFirst` state its properties |
| `Dedupe.DropAllMissing` | etl_csv/clean_rules.py:43 | defines `dropna(how="all")` as keeping the rows that have a value; `RowFilters.FilterSpec` and `Dedupe.DropDupesNaSpec` state its properties |
| `Dedupe.MissingLabels` | etl_csv/clean_rules.py:42 | lists exactly the subset labels that are not columns of the frame |
| `Dedupe.DropDupesNa` | etl_csv/clean_rules.py:37-43 | fails (pandas' KeyError) if and only if the frame is not empty and some subset label is not a column |
| `Dedupe.IsEmpty` | etl_csv/clean_rules.py:42 | defines pandas' `DataFrame.empty` (no rows or no columns), on which `drop_duplicates` returns a copy without looking at the subset; used by `Dedupe.DropDupesNa` and `Dedupe.DropDupesNaEmpty` |
| `Dedupe.DropDupesNaEmpty` | etl_csv/clean_rules.py:41-43 | on an empty well-formed frame `drop_dupes_na` succeeds whatever the subset, with the labels kept and no rows, which is `dropna(how="all")` of the frame itself |
| `Dedupe.ExampleMissingSubsetLabel` | etl_csv/clean_rules.py:42 | subset `order_id` on a frame labelled `qty` raises KeyError naming `order_id` when the frame has a row, and returns the frame without rows when it has none |
| `Dedupe.DropDupesNaSpec` | etl_csv/clean_rules.py:41-43 | on success, the labels are kept; the rows are an order-preserving subsequence, pairwise distinct on the key (whole row or subset cells), none all missing, and they are exactly the first occurrences of each key with the all-missing ones then removed (duplicates go first, empty rows after) |
| `Dedupe.DropDupesNaKeeps` | etl_csv/clean_rules.py:42-43 | a row that is the first of its key and has a value is kept; under whole-row comparison, every row with a value is kept |
| `Dedupe.FirstOfKey` | etl_csv/clean_rules.py:42 | a kept row whose key is that of a first-of-its-key row is that very row |
| `Dedupe.KeptIsFirst` | etl_csv/clean_rules.py:42 | a row kept by the de-duplication is the first row of its key in the input |
| `Dedupe.KeptIsFirstFrom` | etl_csv/clean_rules.py:42 | the same, for de-duplication that starts from a set of keys already seen |
| `Dedupe.DropDupesNaIdempotent` | etl_csv/clean_rules.py:37-43 | applying `drop_dupes_na` twice with the same subset equals applying it once |
| `Dedupe.ExampleFirstOccurrences` | etl_csv/clean_rules.py:42-43 | rows A, B, A, C, B become A, B, C |
| `Dedupe.ExampleSubsetDuplicates` | etl_csv/clean_rules.py:42 | with a subset, rows that differ outside the subset are still duplicates and the first wins |
| `Dedupe.ProjectTwoColumns` | etl_csv/clean_rules.py:42 | with columns `order_id`, `qty` and subset `order_id`, a row's key is its first cell |
| `Dedupe.ExampleDedupeBeforeFilter` | etl_csv/clean_rules.py:42-43 | de-duplicating before dropping empty rows can remove a row that the other order would keep |
| `FileOrder.IsCsvName` | etl_csv/etl.py:87 | defines the `*.csv` pattern as a name ending in `.csv`; `Etl.RunOrder` states that exactly those entries are loaded |
| `FileOrder.SortByName` | etl_csv/etl.py:87 | defines `sorted` on the file names as insertion sort; `FileOrder.SortByNameSpec` states that it is in name order and a permutation of its input |
| `FileOrder.NameLe` | etl_csv/etl.py:87 | defines Python's `str` ordering (lexicographic by code point, a prefix first) used by `sorted`; `FileOrder.NameLeTotal`, `FileOrder.NameLeTransitive` and `Etl.RunOrder` use it |
| `FileOrder.NameLeTotal` | etl_csv/etl.py:87 | any two file names are ordered one way or the other |
| `FileOrder.NameLeTransitive` | etl_csv/etl.py:87 | the name order is transitive |
| `FileOrder.InsertPerm` | etl_csv/etl.py:87 | inserting a file adds exactly that file |
| `FileOrder.InsertFrom` | etl_csv/etl.py:87 | inserting keeps a lower bound on names |
| `FileOrder.InsertSorted` | etl_csv/etl.py:87 | inserting into a sorted list keeps it sorted |
| `FileOrder.SortByNameSpec` | etl_csv/etl.py:87 | the sorted list is in name order and is a permutation of the input |
| `Etl.DedupSubset` | etl_csv/etl.py:51 | defines the subset: `["order_id"]` when the frame has that label, none otherwise; `Etl.CleanedKey` and `Etl.NormalizedKey` state when each is chosen |
| `Etl.Typed` | etl_csv/etl.py:48-49 | defines the first two steps of `clean_df`, `standardize_columns` then `enforce_types(DTYPE_MAP)`; `Etl.CleanedKey`, `Etl.CleanedParsesNormalizedDateLabel` and `Etl.TypedId` state its properties |
| `Etl.Cleaned` | etl_csv/etl.py:44-53 | defines one cleaned slice: standardize, coerce, de-duplicate on the subset, drop all-missing rows; `Etl.CleanDf`, `Etl.CleanedDropDupesNa` and `Etl.CleanedSpec` state its properties |
| `Etl.CleanDf` | etl_csv/etl.py:44-53 | `clean_df` standardizes, then enforces `DTYPE_MAP`, then de-duplicates and filters; the de-duplication step never fails |
| `Etl.CleanedDropDupesNa` | etl_csv/etl.py:50-52 | the `drop_dupes_na` call inside `clean_df` succeeds and returns the cleaned slice: its subset names only a label the frame has |
| `Etl.CleanedKey` | etl_csv/etl.py:51-52 | the de-duplication subset is `["order_id"]` exactly when some raw label normalizes to `order_id`, and whole-row comparison is used exactly when none does |
| `Etl.NormalizedKey` | etl_csv/etl.py:51 | for any raw header, `order_id` is among the normalized labels exactly when some raw label normalizes to it; otherwise no subset is chosen |
| `Etl.CleanedColumns` | etl_csv/etl.py:48-52 | a cleaned slice carries the normalized header |
| `Etl.CleanedSpec` | etl_csv/etl.py:48-52 | a cleaned slice has the normalized labels; its rows are an order-preserving subsequence of the coerced rows, no more than the slice had, pairwise distinct on the chosen key, none all missing; a well-formed slice stays well formed |
| `Etl.CleanedParsesNormalizedDateLabel` | etl_csv/etl.py:48-49 | labels are normalized before coercion, so a column whose raw label normalizes to `order_date` is parsed as dates, each cell in the format inferred from that column's format source in the same slice (its first cell that is present and not a skipped text) |
| `Etl.Chunks` | etl_csv/etl.py:61 | defines `read_csv(chunksize=CHUNK_SIZE)` as consecutive slices of the rows; `Etl.ChunksConcat`, `Etl.ChunksSizes` and `Etl.ChunksCount` state its properties |
| `Etl.FileRows` | etl_csv/etl.py:56-64 | defines what `csv_to_sqlite` appends for one file: the cleaned slices, end to end; `Etl.Warehouse.LoadCsv` and `Etl.FileRowsAtMost` state its properties |
| `Etl.CsvFilesInOrder` | etl_csv/etl.py:87 | defines `sorted(DATA_DIR.glob("*.csv"))` as the `.csv` entries sorted by name; `Etl.RunOrder` states its order and coverage |
| `Etl.ConcatCons` | etl_csv/etl.py:61 | joining slices end to end distributes over a leading slice |
| `Etl.ChunksConcat` | etl_csv/etl.py:61 | the slices of a file, joined end to end, give back its rows in order |
| `Etl.ChunksSizes` | etl_csv/etl.py:61 | there is at least one slice; each holds at most the chunk size, all but the last exactly the chunk size, and only a file without data rows yields an empty slice |
| `Etl.ChunksCount` | etl_csv/etl.py:61 | a file of n > 0 rows yields the least number of slices that can hold n rows (ceil(n / size)) |
| `Etl.ExampleThreeSlices` | etl_csv/etl.py:28 | 120,000 rows are read as three slices of at most 50,000 |
| `Etl.LoadedRows` | etl_csv/etl.py:61-63 | defines the rows the loop over the slices appends: each slice cleaned with the file's header, in order; `Etl.LoadedRowsSnoc`, `Etl.LoadedRowsAtMost` and `Etl.Warehouse.LoadCsv` state its properties |
| `Etl.LoadedRowsAtMost` | etl_csv/etl.py:61-63 | cleaning slice by slice never yields more rows than the slices hold |
| `Etl.LoadedRowsSnoc` | etl_csv/etl.py:61-63 | cleaning one more slice appends exactly that slice's cleaned rows |
| `Etl.FileRowsAtMost` | etl_csv/etl.py:56-64 | loading a file never appends more rows than the file has |
| `Etl.TypedId` | etl_csv/etl.py:48-49 | a frame whose only label is `id` passes normalization and coercion unchanged |
| `Etl.StandardizeId` | etl_csv/etl.py:48 | the label `id` is already standard |
| `Etl.SchemaSkipsId` | etl_csv/etl.py:49 | no `DTYPE_MAP` entry touches a frame labelled only `id` |
| `Etl.CleanedIdRows` | etl_csv/etl.py:51-52 | with the single label `id`, cleaning one row or two equal rows leaves that one row |
| `Etl.ExampleDuplicatesAcrossSlices` | etl_csv/etl.py:61-63 | de-duplication stops at slice boundaries: with one row per slice, a file holding the same row twice appends it twice, while a single slice of both keeps it once |
| `Etl.SlicesOfOne` | etl_csv/etl.py:61-63 | the same row in two slices is appended twice |
| `Etl.SliceOfTwo` | etl_csv/etl.py:61-63 | the same row twice in one slice is appended once |
| `Etl.TableInfo` | etl_csv/etl.py:73 | defines the rows of `PRAGMA table_info`: one per table column, in order, field 0 the column id and field 1 the name, none without a table; `Etl.AddIndicesMissesKeyColumn` and `Etl.IndexesAfter` state what reading each field yields |
| `Etl.Field` | etl_csv/etl.py:73 | defines the comprehension `[c[i] for c in rows]`; `Etl.IndexesAfterAsWritten` (field 0) and `Etl.IndexesAfter` (field 1) state the outcome of each choice |
| `Etl.AddIndexIf` | etl_csv/etl.py:74-77 | defines the test and the `CREATE INDEX IF NOT EXISTS`: the index name is added when the text `order_id` is in the collected list; its properties are those of `Etl.IndexesAfterAsWritten` and `Etl.IndexesAfter` |
| `Etl.IndexesAfterAsWritten` | etl_csv/etl.py:73-77 | `add_indices` as written collects the column ids, none of which is the text `order_id`, so the index set is always left exactly as it was |
| `Etl.IndexesAfter` | etl_csv/etl.py:72-77 | the evidently intended `add_indices`, collecting column names: `idx_sales_raw_order_id` exists afterwards if and only if it already did or `order_id` is a table column; no other index is added or removed |
| `Etl.IndexesAfterIdempotent` | etl_csv/etl.py:76 | `IF NOT EXISTS`: a second intended `add_indices` leaves the index set unchanged |
| `Etl.AddIndicesMissesKeyColumn` | etl_csv/etl.py:73-74 | on every table with an `order_id` column and no index yet, the code as written creates no index while the intended code creates it |
| `Etl.ExampleIndexNeverCreated` | etl_csv/etl.py:73-77 | for a table with columns `order_id`, `qty` and no index, the code as written leaves no index and the intended code creates `idx_sales_raw_order_id` |
| `Etl.Warehouse.constructor` | etl_csv/etl.py:39-40 | a fresh database has no table, no rows and no index |
| `Etl.Warehouse.AppendChunk` | etl_csv/etl.py:63 | the first append creates the table with the slice's labels; every append adds the rows at the end and leaves the indexes alone |
| `Etl.Warehouse.LoadSlice` | etl_csv/etl.py:62-63 | one loop pass appends exactly the cleaned slice, and a table created here gets the normalized header |
| `Etl.Warehouse.LoadCsv` | etl_csv/etl.py:56-64 | the table becomes the old table followed by each cleaned slice in file order, so it only grows; a new table gets the file's normalized header; indexes are untouched |
| `Etl.Warehouse.LoadFiles` | etl_csv/etl.py:92-93 | the files are loaded one after another, in the given order |
| `Etl.Warehouse.AddIndices` | etl_csv/etl.py:67-78 | `add_indices` as written: the index set becomes `IndexesAfterAsWritten` of the table's current labels, which is the old index set; the table is unchanged |
| `Etl.LoadedFiles` | etl_csv/etl.py:92-93 | defines the rows `main`'s loop appends: each file's `FileRows`, in order; `Etl.LoadedFilesStep`, `Etl.LoadedFilesAtMost`, `Etl.Warehouse.LoadFiles` and `Etl.RunPipeline` state its properties |
| `Etl.ColumnsAfterFiles` | etl_csv/etl.py:63 | defines the table's labels after a run of loads: those of an existing table, or else the normalized header of the first file, whose first `to_sql` creates the table; `Etl.Warehouse.LoadFiles` and `Etl.RunPipeline` state it |
| `Etl.LoadedFilesStep` | etl_csv/etl.py:92-93 | loading one more file appends exactly that file's rows after those of the files before it |
| `Etl.LoadStepsStep` | etl_csv/etl.py:92-93 | loading one more file adds exactly its `Loaded` step after those of the files before it |
| `Etl.ExitStatus` | etl_csv/etl.py:83-85 | the status is non-zero exactly for the missing-directory outcome |
| `Etl.RunPipeline` | etl_csv/etl.py:82-96 | a missing directory ends in a configuration error and a directory without `.csv` files ends normally, both leaving the database exactly as it was; otherwise every `.csv` file is loaded in name order, the table grows by exactly their cleaned rows, and `add_indices` runs once, after the last file, leaving the index set as it was |
| `Etl.RunOrder` | etl_csv/etl.py:87-95 | in a complete run's trace, the loads come in name order and cover each `.csv` entry exactly once and nothing else, and the index step comes once, last |
| `Etl.LoadedFilesAtMost` | etl_csv/etl.py:92-93 | a run never appends more rows than its files hold |

## Findings

| source | as written | input that shows it | evidently intended | confidence | as-written member | corrected member |
|---|---|---|---|---|---|---|
| etl_csv/etl.py:73 | `cols = [c[0] for c in ...PRAGMA table_info...]` collects field 0 of each row, the integer column id, so `"order_id" in cols` never holds and `add_indices` never creates the index | a run that loads one file with header `order_id,qty`: afterwards the table has an `order_id` column and no index | `c[1]`, the column name: `idx_sales_raw_order_id` is created when the table has an `order_id` column | high; not executed | `Etl.IndexesAfterAsWritten`, `Etl.Warehouse.AddIndices`, `Etl.AddIndicesMissesKeyColumn`, `Etl.ExampleIndexNeverCreated` | `Etl.IndexesAfter`, `Etl.IndexesAfterIdempotent` |

## Left out

- Reading and writing. Parsing the CSV text (`read_csv`'s delimiter, quoting and type
  inference) is not modelled. A file is given as its name, its header and its rows of
  cells. Read failures, which abort the run, are not modelled either.
- SQLite and SQLAlchemy. The engine and transactions are not modelled, and of the rows of
  `PRAGMA table_info` only the column id and the name are. The database is the `Warehouse` object: table labels, rows and index names.
- Etl.Warehouse.AppendChunk: appends by position, not by column name. `to_sql` with
  `if_exists="append"` inserts by name into an existing table: a slice whose labels are
  the table's in another order, or a subset of them, is inserted with each value under its
  own column and NULL in the columns it lacks, while a label the table lacks makes the
  insert fail and aborts the run. The model puts the cells in table order as they come and
  never fails; `Etl.Warehouse.LoadCsv`, `Etl.Warehouse.LoadFiles` and `Etl.RunPipeline`
  inherit this. Duplicate labels, which SQLite refuses when it creates the table, are not
  checked either.
- pandas' conversions. `to_datetime(errors="coerce")` and `astype(..., errors="ignore")`
  are the `parse` and `cast` parameters. The datetime and float values themselves are
  opaque. How `to_datetime` turns the format source into a format (and falls back when it
  cannot guess one, or when the source is not a text) is inside `parse`; the model fixes
  only which value is the format source: the column's first cell in the slice that is
  present and not an empty text, a spelling of NaT, "now" or "today".
- TypeCoercion.EnforceTypes: does not model the failure on a repeated `order_date` label.
  When normalization yields `order_date` twice, `df[col]` is a DataFrame and
  `pd.to_datetime` raises ValueError ("cannot assemble with duplicate keys"), which aborts
  the run; the model instead parses every column with that label, cell by cell, and
  `TypeCoercion.ApplySchema`, `Etl.CleanDf` and `Etl.RunPipeline` report a result where
  the program raises.
- TypeCoercion.ApplySchema: a repeated `price` or `qty` label is cast all or nothing. On
  the DataFrame `df[col]`, `astype(errors="ignore")` works per dtype block, so one of the
  same-labelled columns may be cast while another is left; the model casts all of them
  exactly when every cell under the label casts.
- Unicode. Whitespace, lower-casing and `\w` follow their ASCII meaning. Python's
  Unicode-aware rules for non-ASCII characters are not modelled.
- Mangled header names. `read_csv` renames duplicate header names (`a`, `a.1`). The model
  takes the header as `read_csv` reports it.
- Environment setup. Logging, the log format and creating the `sqlite/` directory are
  left out.
- Files in the directory. The directory's entries are given as a list. An entry named
  `*.csv` that is not a readable file is not modelled.
- Full paths. Paths are compared by file name only. All entries sit in one directory, so
  this is how `sorted` orders them.
