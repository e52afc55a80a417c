/**
  The driver `etl.py`: every `*.csv` file of the data directory, in name order, is read
  in slices of CHUNK_SIZE rows; each slice is cleaned on its own (`clean_df`) and
  appended to the table `sales_raw`; after the last file `add_indices` runs, meant to
  create an index on `order_id` when the table has that column (as written it never
  does: see IndexesAfterAsWritten and IndexesAfter).
 */
module Etl {
  import opened Wrappers
  import opened Frames
  import ColumnNames
  import TypeCoercion
  import Dedupe
  import RowFilters
  import FileOrder

  // ---------------------------------------------------------------- configuration

  const TABLE: string := "sales_raw"
  /** The column `clean_df` de-duplicates on and `add_indices` indexes. */
  const KEY_COLUMN: string := "order_id"
  const INDEX_NAME: string := "idx_" + TABLE + "_order_id"
  const CHUNK_SIZE: nat := 50000
  const DTYPE_MAP: TypeCoercion.Schema :=
    [("order_date", "datetime64[ns]"), ("price", "float64"), ("qty", "int64")]

  // ---------------------------------------------------------------- clean_df

  /** The `subset` handed to `drop_dupes_na`: the key column when the (normalized)
      frame has it, otherwise whole-row comparison. */
  function DedupSubset(columns: seq<string>): Option<seq<string>>
  {
    if KEY_COLUMN in columns then Some([KEY_COLUMN]) else None
  }

  /** A slice after normalization and coercion, before de-duplication. */
  function Typed(chunk: Frame, conv: TypeCoercion.Converters): Frame
  {
    TypeCoercion.ApplySchema(ColumnNames.StandardizeColumns(chunk), DTYPE_MAP, conv)
  }

  /** What `clean_df` returns for one slice: the coerced slice without the repeated
      keys and then without the all-missing rows. */
  function Cleaned(chunk: Frame, conv: TypeCoercion.Converters): Frame
  {
    var typed := Typed(chunk, conv);
    Dedupe.DropAllMissing(Dedupe.DropDuplicates(typed, DedupSubset(typed.columns)))
  }

  /** Inside `clean_df` the call to `drop_dupes_na` cannot raise KeyError: its only
      subset label is one the frame has. */
  lemma CleanedDropDupesNa(chunk: Frame, conv: TypeCoercion.Converters)
    ensures var typed := Typed(chunk, conv);
      Dedupe.DropDupesNa(typed, DedupSubset(typed.columns)) == Success(Cleaned(chunk, conv))
  {
    assert forall l :: l in [KEY_COLUMN] ==> l == KEY_COLUMN;
  }

  /** `clean_df(df)`: standardize the labels, enforce DTYPE_MAP, then drop duplicates
      (on `order_id` when present) and all-missing rows. */
  method CleanDf(chunk: Frame, conv: TypeCoercion.Converters) returns (r: Frame)
    ensures r == Cleaned(chunk, conv)
  {
    var df := ColumnNames.StandardizeColumns(chunk);
    df := TypeCoercion.EnforceTypes(df, DTYPE_MAP, conv);
    var subset := DedupSubset(df.columns);
    var res := Dedupe.DropDupesNa(df, subset);
    CleanedDropDupesNa(chunk, conv);
    r := res.value;
  }

  /** The de-duplication key is `order_id` exactly when some raw label normalizes to
      `order_id`; a raw "Order ID" therefore counts. */
  lemma CleanedKey(chunk: Frame, conv: TypeCoercion.Converters)
    ensures var cols := Typed(chunk, conv).columns;
      && cols == ColumnNames.NormalizeAll(chunk.columns)
      && (DedupSubset(cols) == Some([KEY_COLUMN]) <==>
          exists j :: 0 <= j < |chunk.columns| && ColumnNames.Normalize(chunk.columns[j]) == KEY_COLUMN)
      && (DedupSubset(cols).None? <==>
          forall j :: 0 <= j < |chunk.columns| ==> ColumnNames.Normalize(chunk.columns[j]) != KEY_COLUMN)
  {
    assert Typed(chunk, conv).columns == ColumnNames.NormalizeAll(chunk.columns);
    NormalizedKey(chunk.columns);
  }

  /** The key is chosen exactly when some raw label normalizes to `order_id`. */
  lemma NormalizedKey(labels: seq<string>)
    ensures DedupSubset(ColumnNames.NormalizeAll(labels)) == Some([KEY_COLUMN]) <==>
      exists j :: 0 <= j < |labels| && ColumnNames.Normalize(labels[j]) == KEY_COLUMN
    ensures DedupSubset(ColumnNames.NormalizeAll(labels)).None? <==>
      forall j :: 0 <= j < |labels| ==> ColumnNames.Normalize(labels[j]) != KEY_COLUMN
  {
    var cols := ColumnNames.NormalizeAll(labels);
    if KEY_COLUMN in cols {
      var j :| 0 <= j < |cols| && cols[j] == KEY_COLUMN;
      assert ColumnNames.Normalize(labels[j]) == KEY_COLUMN;
    }
  }

  /** A cleaned slice carries the normalized header. */
  lemma CleanedColumns(chunk: Frame, conv: TypeCoercion.Converters)
    ensures Cleaned(chunk, conv).columns == ColumnNames.NormalizeAll(chunk.columns)
  {
    var typed := Typed(chunk, conv);
    assert typed.columns == ColumnNames.NormalizeAll(chunk.columns);
  }

  /**
    A cleaned slice has the normalized labels; its rows are an order-preserving
    subsequence of the coerced rows (so never more than the slice had), pairwise
    distinct on the de-duplication key, and none of them all missing.
   */
  lemma CleanedSpec(chunk: Frame, conv: TypeCoercion.Converters)
    ensures var typed := Typed(chunk, conv);
      var r := Cleaned(chunk, conv);
      var key := Dedupe.RowKey(r.columns, DedupSubset(r.columns));
      && r.columns == ColumnNames.NormalizeAll(chunk.columns)
      && RowFilters.IsSubsequence(r.rows, typed.rows)
      && |r.rows| <= |chunk.rows|
      && (forall i, j :: 0 <= i < j < |r.rows| ==> key(r.rows[i]) != key(r.rows[j]))
      && (forall i :: 0 <= i < |r.rows| ==> !AllMissing(r.rows[i]))
      && (WellFormed(chunk) ==> WellFormed(r))
  {
    var typed := Typed(chunk, conv);
    assert typed.columns == ColumnNames.NormalizeAll(chunk.columns);
    CleanedDropDupesNa(chunk, conv);
    Dedupe.DropDupesNaSpec(typed, DedupSubset(typed.columns));
    RowFilters.SubsequenceMembers(Cleaned(chunk, conv).rows, typed.rows);
  }

  /** Labels are normalized before coercion: a column whose raw label normalizes to
      `order_date` (say "Order Date") is parsed as a date, in the format inferred from the
      format source of that column in this slice. */
  lemma CleanedParsesNormalizedDateLabel(chunk: Frame, conv: TypeCoercion.Converters, i: int, j: int)
    requires WellFormed(chunk) && 0 <= i < |chunk.rows| && 0 <= j < |chunk.columns|
    requires ColumnNames.Normalize(chunk.columns[j]) == "order_date"
    ensures Typed(chunk, conv).rows[i][j] ==
      match chunk.rows[i][j]
      case None => None
      case Some(v) => conv.parse(TypeCoercion.FormatSource(ColumnNames.StandardizeColumns(chunk), "order_date"), v)
  {
    var s := ColumnNames.StandardizeColumns(chunk);
    assert TypeCoercion.DistinctColumns(DTYPE_MAP);
    assert TypeCoercion.IsDatetimeType(DTYPE_MAP[0].1);
    TypeCoercion.ApplySchemaDatetime(s, DTYPE_MAP, conv, 0, i, j);
  }

  // ---------------------------------------------------------------- read_csv(chunksize=...)

  /**
    `read_csv(path, chunksize=size)`: consecutive slices of `size` rows, the last one
    shorter. The first slice is produced even when the file has no data rows, as an
    empty frame carrying the header.
   */
  function Chunks(rows: seq<Row>, size: nat): seq<seq<Row>>
    requires size > 0
    decreases |rows|
  {
    if |rows| <= size then [rows] else [rows[..size]] + Chunks(rows[size..], size)
  }

  /** The slices laid end to end. */
  function Concat<T>(xss: seq<seq<T>>): seq<T>
  {
    if xss == [] then [] else Concat(xss[..|xss| - 1]) + xss[|xss| - 1]
  }

  lemma {:induction false} ConcatCons<T>(xs: seq<T>, xss: seq<seq<T>>)
    ensures Concat([xs] + xss) == xs + Concat(xss)
    decreases |xss|
  {
    if xss != [] {
      var init := xss[..|xss| - 1];
      ConcatCons(xs, init);
      assert ([xs] + xss)[..|xss|] == [xs] + init;
    }
  }

  /** The slices laid end to end give back the file's rows. */
  lemma {:induction false} ChunksConcat(rows: seq<Row>, size: nat)
    requires size > 0
    ensures Concat(Chunks(rows, size)) == rows
    decreases |rows|
  {
    if |rows| <= size {
      assert Concat([rows]) == Concat([]) + rows;
    } else {
      var rest := rows[size..];
      ChunksConcat(rest, size);
      ConcatCons(rows[..size], Chunks(rest, size));
      assert rows[..size] + rest == rows;
    }
  }

  /** Each slice holds at most `size` rows and every one but the last exactly `size`;
      only a file without data rows gives an empty slice (its only one). */
  lemma {:induction false} ChunksSizes(rows: seq<Row>, size: nat)
    requires size > 0
    ensures var cs := Chunks(rows, size);
      && |cs| >= 1
      && (forall k :: 0 <= k < |cs| ==> |cs[k]| <= size)
      && (forall k :: 0 <= k < |cs| - 1 ==> |cs[k]| == size)
      && (forall k :: 0 <= k < |cs| ==> cs[k] != [] || rows == [])
    decreases |rows|
  {
    if |rows| > size {
      var rest := rows[size..];
      var cs := Chunks(rest, size);
      ChunksSizes(rest, size);
      assert Chunks(rows, size) == [rows[..size]] + cs;
      assert forall k :: 1 <= k < |cs| + 1 ==> Chunks(rows, size)[k] == cs[k - 1];
    }
  }

  /** A file of n > 0 rows gives ceil(n / size) slices: the least count whose slices can
      hold n rows. */
  lemma {:induction false} ChunksCount(rows: seq<Row>, size: nat)
    requires size > 0
    ensures var n := |Chunks(rows, size)|;
      rows != [] ==> (n - 1) * size < |rows| <= n * size
    decreases |rows|
  {
    if |rows| > size {
      var rest := rows[size..];
      var n := |Chunks(rest, size)|;
      ChunksCount(rest, size);
      assert (n + 1) * size == n * size + size;
      assert |rows| == |rest| + size;
    }
  }

  /** A file of 120,000 rows is read as three slices. */
  lemma ExampleThreeSlices(rows: seq<Row>)
    requires |rows| == 120000
    ensures |Chunks(rows, CHUNK_SIZE)| == 3
  {
    ChunksCount(rows, CHUNK_SIZE);
  }

  // ---------------------------------------------------------------- csv_to_sqlite

  /** A CSV file: its name, its header as `read_csv` reports it, and its data rows. */
  datatype CsvFile = CsvFile(name: string, header: seq<string>, rows: seq<Row>)

  /** The rows appended for the given slices of one file, slice after slice. */
  function LoadedRows(header: seq<string>, slices: seq<seq<Row>>, conv: TypeCoercion.Converters): seq<Row>
  {
    if slices == [] then []
    else LoadedRows(header, slices[..|slices| - 1], conv) + Cleaned(Frame(header, slices[|slices| - 1]), conv).rows
  }

  lemma LoadedRowsSnoc(header: seq<string>, slices: seq<seq<Row>>, k: int, conv: TypeCoercion.Converters)
    requires 0 <= k < |slices|
    ensures LoadedRows(header, slices[..k + 1], conv)
         == LoadedRows(header, slices[..k], conv) + Cleaned(Frame(header, slices[k]), conv).rows
  {
    assert slices[..k + 1][..k] == slices[..k];
  }

  /** The rows `csv_to_sqlite(file)` appends. */
  function FileRows(file: CsvFile, conv: TypeCoercion.Converters): seq<Row>
  {
    LoadedRows(file.header, Chunks(file.rows, CHUNK_SIZE), conv)
  }

  lemma {:induction false} LoadedRowsAtMost(header: seq<string>, slices: seq<seq<Row>>, conv: TypeCoercion.Converters)
    ensures |LoadedRows(header, slices, conv)| <= |Concat(slices)|
    decreases |slices|
  {
    if slices != [] {
      LoadedRowsAtMost(header, slices[..|slices| - 1], conv);
      CleanedSpec(Frame(header, slices[|slices| - 1]), conv);
    }
  }

  /** Loading a file never appends more rows than the file has. */
  lemma FileRowsAtMost(file: CsvFile, conv: TypeCoercion.Converters)
    ensures |FileRows(file, conv)| <= |file.rows|
  {
    ChunksConcat(file.rows, CHUNK_SIZE);
    LoadedRowsAtMost(file.header, Chunks(file.rows, CHUNK_SIZE), conv);
  }

  /** A frame with the one label `id`, which normalization keeps and no DTYPE_MAP
      entry names, comes out of normalization and coercion as it went in. */
  lemma TypedId(rows: seq<Row>, conv: TypeCoercion.Converters)
    ensures Typed(Frame(["id"], rows), conv) == Frame(["id"], rows)
  {
    StandardizeId(rows);
    SchemaSkipsId(rows, conv);
  }

  lemma StandardizeId(rows: seq<Row>)
    ensures ColumnNames.StandardizeColumns(Frame(["id"], rows)) == Frame(["id"], rows)
  {
    var f := Frame(["id"], rows);
    assert ColumnNames.IsNameChar("id"[0]) && ColumnNames.IsNameChar("id"[1]);
    ColumnNames.StandardizeColumnsFixedPoint(f);
  }

  lemma SchemaSkipsId(rows: seq<Row>, conv: TypeCoercion.Converters)
    ensures TypeCoercion.ApplySchema(Frame(["id"], rows), DTYPE_MAP, conv) == Frame(["id"], rows)
  {
    assert forall k :: 0 <= k < |DTYPE_MAP| ==> DTYPE_MAP[k].0 !in ["id"];
    TypeCoercion.ApplySchemaNoColumns(Frame(["id"], rows), DTYPE_MAP, conv);
  }

  /** One text column `id`: cleaning only removes the repeated row. */
  lemma CleanedIdRows(v: Value, rows: seq<Row>, conv: TypeCoercion.Converters)
    requires rows == [[Some(v)]] || rows == [[Some(v)], [Some(v)]]
    ensures Cleaned(Frame(["id"], rows), conv) == Frame(["id"], [[Some(v)]])
  {
    var row: Row := [Some(v)];
    var f := Frame(["id"], rows);
    TypedId(rows, conv);
    assert DedupSubset(["id"]).None?;
    var key := Dedupe.RowKey(["id"], None);
    assert RowFilters.KeepFirst(rows, key, {}) == [row] by {
      assert {} + {key(row)} == {key(row)};
      assert RowFilters.KeepFirst([row], key, {key(row)}) == [];
    }
    assert Dedupe.HasValue(row) by {
      assert !row[0].None?;
    }
    assert RowFilters.Filter([row], Dedupe.HasValue) == [row];
    assert Dedupe.DropDupesNa(f, None) == Success(Frame(["id"], [row]));
  }

  /**
    De-duplication stops at slice boundaries: with one row per slice, a file holding the
    same row twice appends it twice, while one slice of both rows keeps it once.
   */
  lemma ExampleDuplicatesAcrossSlices(v: Value, conv: TypeCoercion.Converters)
    ensures var row: Row := [Some(v)];
      && LoadedRows(["id"], Chunks([row, row], 1), conv) == [row, row]
      && LoadedRows(["id"], Chunks([row, row], 2), conv) == [row]
  {
    SlicesOfOne(v, conv);
    SliceOfTwo(v, conv);
  }

  lemma SlicesOfOne(v: Value, conv: TypeCoercion.Converters)
    ensures var row: Row := [Some(v)];
      LoadedRows(["id"], Chunks([row, row], 1), conv) == [row, row]
  {
    var row: Row := [Some(v)];
    var one := Cleaned(Frame(["id"], [row]), conv);
    CleanedIdRows(v, [row], conv);
    assert [row, row][..1] == [row] && [row, row][1..] == [row];
    assert Chunks([row], 1) == [[row]];
    var slices := Chunks([row, row], 1);
    assert slices == [[row], [row]];
    assert slices[..1] == [[row]];
    assert LoadedRows(["id"], [[row]], conv) == one.rows;
    assert LoadedRows(["id"], slices, conv) == one.rows + one.rows;
  }

  lemma SliceOfTwo(v: Value, conv: TypeCoercion.Converters)
    ensures var row: Row := [Some(v)];
      LoadedRows(["id"], Chunks([row, row], 2), conv) == [row]
  {
    var row: Row := [Some(v)];
    CleanedIdRows(v, [row, row], conv);
    assert Chunks([row, row], 2) == [[row, row]];
    assert LoadedRows(["id"], [[row, row]], conv) == Cleaned(Frame(["id"], [row, row]), conv).rows;
  }

  // ---------------------------------------------------------------- the warehouse

  /** What the run did, in order: one file loaded, or the index step. */
  datatype Step = Loaded(file: string) | Indexed

  /** A value in a row SQLite returns: an integer or a text. */
  datatype SqlValue = SqlInt(i: int) | SqlText(s: string)

  /** `PRAGMA table_info(sales_raw)`: one row per table column, in column order, whose
      field 0 is the column id `cid` (0, 1, ...) and field 1 the column name; no rows
      when the table does not exist. */
  function TableInfo(columns: Option<seq<string>>): (r: seq<seq<SqlValue>>)
    ensures columns.None? ==> r == []
    ensures columns.Some? ==> |r| == |columns.value|
    ensures columns.Some? ==> forall k :: 0 <= k < |r| ==> r[k] == [SqlInt(k), SqlText(columns.value[k])]
  {
    match columns
    case None => []
    case Some(cs) => seq(|cs|, k requires 0 <= k < |cs| => [SqlInt(k), SqlText(cs[k])])
  }

  /** `[c[i] for c in rows]`: field `i` of every row, in order. */
  function Field(rows: seq<seq<SqlValue>>, i: nat): (r: seq<SqlValue>)
    requires forall k :: 0 <= k < |rows| ==> i < |rows[k]|
    ensures |r| == |rows|
    ensures forall k :: 0 <= k < |r| ==> r[k] == rows[k][i]
  {
    seq(|rows|, k requires 0 <= k < |rows| => rows[k][i])
  }

  /** The test and the `CREATE INDEX IF NOT EXISTS` of `add_indices`: the index is
      added when the text `order_id` is among `cols`. */
  function AddIndexIf(cols: seq<SqlValue>, indexes: set<string>): set<string>
  {
    if SqlText(KEY_COLUMN) in cols then indexes + {INDEX_NAME} else indexes
  }

  /** `add_indices` as written: it collects field 0 of every `table_info` row, the
      integer column ids, among which the text `order_id` never is, so the index set
      never changes. */
  function IndexesAfterAsWritten(columns: Option<seq<string>>, indexes: set<string>): (r: set<string>)
    ensures r == indexes
  {
    var cids := Field(TableInfo(columns), 0);
    assert forall k :: 0 <= k < |cids| ==> cids[k].SqlInt?;
    AddIndexIf(cids, indexes)
  }

  /** `add_indices` as evidently intended, collecting field 1, the column names: the
      index on `order_id` is there exactly when it was already or the table has the
      column, and no other index comes or goes. */
  function IndexesAfter(columns: Option<seq<string>>, indexes: set<string>): (r: set<string>)
    ensures INDEX_NAME in r <==> INDEX_NAME in indexes || (columns.Some? && KEY_COLUMN in columns.value)
    ensures forall n :: n != INDEX_NAME ==> (n in r <==> n in indexes)
  {
    var names := Field(TableInfo(columns), 1);
    assert SqlText(KEY_COLUMN) in names <==> columns.Some? && KEY_COLUMN in columns.value by {
      if columns.Some? && KEY_COLUMN in columns.value {
        var k :| 0 <= k < |columns.value| && columns.value[k] == KEY_COLUMN;
        assert names[k] == SqlText(KEY_COLUMN);
      }
    }
    AddIndexIf(names, indexes)
  }

  /** `CREATE INDEX IF NOT EXISTS`: a second intended `add_indices` changes nothing. */
  lemma IndexesAfterIdempotent(columns: Option<seq<string>>, indexes: set<string>)
    ensures IndexesAfter(columns, IndexesAfter(columns, indexes)) == IndexesAfter(columns, indexes)
  {
  }

  /** Wherever the intended `add_indices` would create the index, the code as written
      does not: on a table with an `order_id` column and no index yet, the two differ. */
  lemma AddIndicesMissesKeyColumn(columns: Option<seq<string>>, indexes: set<string>)
    requires columns.Some? && KEY_COLUMN in columns.value && INDEX_NAME !in indexes
    ensures INDEX_NAME !in IndexesAfterAsWritten(columns, indexes)
    ensures INDEX_NAME in IndexesAfter(columns, indexes)
  {
  }

  /** A run that loads one file with the header `order_id,qty` into a fresh database:
      as written no index is created; as intended `idx_sales_raw_order_id` is. */
  lemma ExampleIndexNeverCreated()
    ensures IndexesAfterAsWritten(Some([KEY_COLUMN, "qty"]), {}) == {}
    ensures IndexesAfter(Some([KEY_COLUMN, "qty"]), {}) == {INDEX_NAME}
  {
    AddIndicesMissesKeyColumn(Some([KEY_COLUMN, "qty"]), {});
  }

  /** The SQLite database: the table `sales_raw` (its labels once created, and its rows
      in insertion order) and the names of its indexes. */
  class Warehouse {
    var columns: Option<seq<string>>
    var rows: seq<Row>
    var indexes: set<string>
    /** The file loads and the index step performed on this database, in order. */
    ghost var steps: seq<Step>

    /** A fresh database file: no table, no index. */
    constructor ()
      ensures columns == None && rows == [] && indexes == {} && steps == []
    {
      columns := None;
      rows := [];
      indexes := {};
      steps := [];
    }

    /** `to_sql(TABLE, engine, if_exists="append", index=False)`: the first append
        creates the table from the frame's labels; every append adds the rows at the
        end. */
    method AppendChunk(chunk: Frame)
      modifies this
      ensures columns == if old(columns).None? then Some(chunk.columns) else old(columns)
      ensures rows == old(rows) + chunk.rows
      ensures indexes == old(indexes) && steps == old(steps)
    {
      if columns.None? {
        columns := Some(chunk.columns);
      }
      rows := rows + chunk.rows;
    }

    /** One pass of the loop in `csv_to_sqlite`: clean the slice and append it. */
    method LoadSlice(header: seq<string>, slice: seq<Row>, conv: TypeCoercion.Converters)
      modifies this
      ensures rows == old(rows) + Cleaned(Frame(header, slice), conv).rows
      ensures columns == if old(columns).None? then Some(ColumnNames.NormalizeAll(header)) else old(columns)
      ensures indexes == old(indexes) && steps == old(steps)
    {
      var chunk := Frame(header, slice);
      var cleaned := CleanDf(chunk, conv);
      CleanedColumns(chunk, conv);
      AppendChunk(cleaned);
    }

    /** `csv_to_sqlite(file)`: the table becomes the old table followed by the cleaned
        slices in file order; a file read into a database without the table creates it
        with the file's normalized header. */
    method LoadCsv(file: CsvFile, conv: TypeCoercion.Converters)
      modifies this
      ensures rows == old(rows) + FileRows(file, conv)
      ensures columns == if old(columns).None? then Some(ColumnNames.NormalizeAll(file.header)) else old(columns)
      ensures indexes == old(indexes)
      ensures steps == old(steps) + [Loaded(file.name)]
    {
      var slices := Chunks(file.rows, CHUNK_SIZE);
      for k := 0 to |slices|
        invariant rows == old(rows) + LoadedRows(file.header, slices[..k], conv)
        invariant columns == if k == 0 || old(columns).Some? then old(columns) else Some(ColumnNames.NormalizeAll(file.header))
        invariant indexes == old(indexes) && steps == old(steps)
      {
        ghost var loaded := LoadedRows(file.header, slices[..k], conv);
        ghost var more := Cleaned(Frame(file.header, slices[k]), conv).rows;
        LoadSlice(file.header, slices[k], conv);
        LoadedRowsSnoc(file.header, slices, k, conv);
        RowFilters.AppendAssoc(old(rows), loaded, more);
      }
      assert slices[..|slices|] == slices;
      steps := steps + [Loaded(file.name)];
    }

    /** The loop of `main` over the files, in the order given. */
    method LoadFiles(files: seq<CsvFile>, conv: TypeCoercion.Converters)
      modifies this
      ensures rows == old(rows) + LoadedFiles(files, conv)
      ensures columns == ColumnsAfterFiles(old(columns), files)
      ensures indexes == old(indexes)
      ensures steps == old(steps) + LoadSteps(files)
    {
      for k := 0 to |files|
        invariant rows == old(rows) + LoadedFiles(files[..k], conv)
        invariant columns == ColumnsAfterFiles(old(columns), files[..k])
        invariant indexes == old(indexes)
        invariant steps == old(steps) + LoadSteps(files[..k])
      {
        ghost var rowsBefore := rows;
        ghost var stepsBefore := steps;
        LoadCsv(files[k], conv);
        LoadedFilesStep(files, k, conv, old(rows), rowsBefore, rows);
        LoadStepsStep(files, k, old(steps), stepsBefore, steps);
      }
      assert files[..|files|] == files;
    }

    /** `add_indices()` as written: it collects field 0 of every `PRAGMA table_info`
        row, the integer column ids, and tests the text `order_id` against them; the
        test never holds, so no index is created. The table is untouched. */
    method AddIndices()
      modifies this
      ensures indexes == IndexesAfterAsWritten(old(columns), old(indexes))
      ensures indexes == old(indexes) && columns == old(columns) && rows == old(rows)
      ensures steps == old(steps) + [Indexed]
    {
      var cols := Field(TableInfo(columns), 0);
      indexes := AddIndexIf(cols, indexes);
      steps := steps + [Indexed];
    }
  }

  // ---------------------------------------------------------------- main

  predicate IsCsvFile(file: CsvFile)
  {
    FileOrder.IsCsvName(file.name)
  }

  /** `sorted(DATA_DIR.glob("*.csv"))` over the directory's entries. */
  function CsvFilesInOrder(entries: seq<CsvFile>): seq<CsvFile>
  {
    FileOrder.SortByName(RowFilters.Filter(entries, IsCsvFile), (f: CsvFile) => f.name)
  }

  /** The rows a run appends for the given files, file after file. */
  function LoadedFiles(files: seq<CsvFile>, conv: TypeCoercion.Converters): seq<Row>
  {
    if files == [] then [] else LoadedFiles(files[..|files| - 1], conv) + FileRows(files[|files| - 1], conv)
  }

  /** Appending the next file's rows extends the rows appended for the files before it. */
  lemma LoadedFilesStep(files: seq<CsvFile>, k: int, conv: TypeCoercion.Converters,
                        rows0: seq<Row>, before: seq<Row>, after: seq<Row>)
    requires 0 <= k < |files|
    requires before == rows0 + LoadedFiles(files[..k], conv)
    requires after == before + FileRows(files[k], conv)
    ensures after == rows0 + LoadedFiles(files[..k + 1], conv)
  {
    assert files[..k + 1][..k] == files[..k];
    RowFilters.AppendAssoc(rows0, LoadedFiles(files[..k], conv), FileRows(files[k], conv));
  }

  /** The table's labels after loading the files: set by the first file when the table
      did not exist yet. */
  function ColumnsAfterFiles(columns: Option<seq<string>>, files: seq<CsvFile>): Option<seq<string>>
  {
    if columns.Some? || files == [] then columns else Some(ColumnNames.NormalizeAll(files[0].header))
  }

  /** The load steps for the given files, in order. */
  function LoadSteps(files: seq<CsvFile>): seq<Step>
  {
    seq(|files|, k requires 0 <= k < |files| => Loaded(files[k].name))
  }

  /** Loading one more file adds its `Loaded` step after the earlier ones. */
  lemma LoadStepsStep(files: seq<CsvFile>, k: int, steps0: seq<Step>, before: seq<Step>, after: seq<Step>)
    requires 0 <= k < |files|
    requires before == steps0 + LoadSteps(files[..k])
    requires after == before + [Loaded(files[k].name)]
    ensures after == steps0 + LoadSteps(files[..k + 1])
  {
    assert LoadSteps(files[..k + 1]) == LoadSteps(files[..k]) + [Loaded(files[k].name)];
    RowFilters.AppendAssoc(steps0, LoadSteps(files[..k]), [Loaded(files[k].name)]);
  }

  /** How `main` ends. */
  datatype Outcome = ConfigError | NothingToLoad | Complete

  /** The process status: `sys.exit(1)` for a missing directory, 0 otherwise. */
  function ExitStatus(outcome: Outcome): (status: int)
    ensures status != 0 <==> outcome == ConfigError
  {
    if outcome == ConfigError then 1 else 0
  }

  /**
    `main()` against the database `w`, with `dataDir` the data directory's entries or
    None when it does not exist. A missing directory and a directory without `.csv`
    files leave the database as it was; otherwise every `.csv` file is loaded in name
    order and `add_indices` runs once, after the last file, leaving the indexes as they
    were (see IndexesAfterAsWritten).
   */
  method RunPipeline(w: Warehouse, dataDir: Option<seq<CsvFile>>, conv: TypeCoercion.Converters)
    returns (outcome: Outcome)
    modifies w
    ensures ExitStatus(outcome) == 1 <==> dataDir.None?
    ensures dataDir.None? ==> outcome == ConfigError && unchanged(w)
    ensures dataDir.Some? && CsvFilesInOrder(dataDir.value) == [] ==> outcome == NothingToLoad && unchanged(w)
    ensures dataDir.Some? && CsvFilesInOrder(dataDir.value) != [] ==>
      var files := CsvFilesInOrder(dataDir.value);
      && outcome == Complete
      && w.rows == old(w.rows) + LoadedFiles(files, conv)
      && w.columns == ColumnsAfterFiles(old(w.columns), files)
      && w.indexes == old(w.indexes)
      && w.steps == old(w.steps) + LoadSteps(files) + [Indexed]
  {
    if dataDir.None? {
      return ConfigError;
    }
    var files := CsvFilesInOrder(dataDir.value);
    if files == [] {
      return NothingToLoad;
    }
    w.LoadFiles(files, conv);
    w.AddIndices();
    outcome := Complete;
  }

  /**
    In a complete run's trace the files come in name order, each `.csv` entry exactly
    once and nothing else, and the index step comes once, last.
   */
  lemma RunOrder(entries: seq<CsvFile>)
    ensures var files := CsvFilesInOrder(entries);
      var steps := LoadSteps(files) + [Indexed];
      && steps[|steps| - 1] == Indexed
      && (forall k :: 0 <= k < |steps| - 1 ==> steps[k] == Loaded(files[k].name))
      && (forall k, m :: 0 <= k < m < |files| ==> FileOrder.NameLe(files[k].name, files[m].name))
      && multiset(files) == multiset(RowFilters.Filter(entries, IsCsvFile))
      && (forall f :: f in files <==> f in entries && IsCsvFile(f))
  {
    var csv := RowFilters.Filter(entries, IsCsvFile);
    var files := CsvFilesInOrder(entries);
    FileOrder.SortByNameSpec(csv, (f: CsvFile) => f.name);
    RowFilters.FilterSpec(entries, IsCsvFile);
    forall f ensures f in files <==> f in csv {
      assert f in files <==> f in multiset(files);
      assert f in csv <==> f in multiset(csv);
    }
  }

  /** A run never appends more rows than its files hold. */
  lemma {:induction false} LoadedFilesAtMost(files: seq<CsvFile>, conv: TypeCoercion.Converters)
    ensures |LoadedFiles(files, conv)| <= RowCount(files)
    decreases |files|
  {
    if files != [] {
      LoadedFilesAtMost(files[..|files| - 1], conv);
      FileRowsAtMost(files[|files| - 1], conv);
    }
  }

  /** The number of data rows in the files. */
  function RowCount(files: seq<CsvFile>): nat
  {
    if files == [] then 0 else RowCount(files[..|files| - 1]) + |files[|files| - 1].rows|
  }
}
