/**
  `enforce_types`: walks the schema (column -> dtype, in the dict's order) over a copy
  of the frame. A datetime target parses the column with one format, inferred from its
  first present value that is not empty, a spelling of NaT, "now" or "today", and a cell
  that does not parse becomes missing; any other target casts the whole column or, when
  the cast fails, leaves it as it was. On a label that is not repeated nothing is raised; on a repeated label the
  program behaves otherwise (a datetime target raises, a cast acts per dtype block), which
  this module does not follow.
 */
module TypeCoercion {
  import opened Wrappers
  import opened Frames

  /** A pandas dtype name such as "datetime64[ns]", "float64" or "int64". */
  type DType = string

  /** A schema dict as its (column, dtype) items, in insertion order. */
  type Schema = seq<(string, DType)>

  /** The two pandas conversions, left abstract. `parse(first, v)` is `to_datetime` on one
      present value `v` of a column whose format is inferred from `first`, the column's format
      source (see FormatSource; None: `v` does not parse in that format); `cast` is `astype(dtype)` on
      one cell (None: the cast raises for that cell). */
  datatype Converters = Converters(parse: (Option<Value>, Value) -> Option<Value>, cast: (Cell, DType) -> Option<Cell>)

  /** `dtype.startswith("datetime")`. */
  predicate IsDatetimeType(dtype: DType)
  {
    "datetime" <= dtype
  }

  /** `to_datetime(errors="coerce")` on one cell of a column whose format source is
      `first`: missing stays missing, a value that does not parse becomes missing. */
  function ParseCell(parse: (Option<Value>, Value) -> Option<Value>, first: Option<Value>, c: Cell): Cell
  {
    match c
    case None => None
    case Some(v) => parse(first, v)
  }

  /** The texts `to_datetime` passes over when it looks for the value to infer the format
      from: the empty text, the spellings of NaT, "now" and "today". */
  const SKIPPED_FOR_FORMAT: set<string> := {"", "NaT", "nat", "NAT", "nan", "NaN", "NAN", "now", "today"}

  /** A cell the format can be inferred from: present and not a skipped text. */
  predicate FormatBearing(c: Cell)
  {
    c.Some? && !(c.value.Text? && c.value.s in SKIPPED_FOR_FORMAT)
  }

  /** The first cell of `cells` the format can be inferred from, if any. */
  function FirstFormatValue(cells: seq<Cell>): (r: Option<Value>)
    ensures r.None? <==> forall i :: 0 <= i < |cells| ==> !FormatBearing(cells[i])
    ensures r.Some? ==> exists i ::
      && 0 <= i < |cells| && cells[i] == r && FormatBearing(cells[i])
      && forall h :: 0 <= h < i ==> !FormatBearing(cells[h])
  {
    if cells == [] then None
    else if FormatBearing(cells[0]) then cells[0]
    else
      var r := FirstFormatValue(cells[1..]);
      assert forall i :: 1 <= i < |cells| ==> cells[i] == cells[1..][i - 1];
      r
  }

  /** The position of the first column labelled `col`. */
  function FirstIndex(columns: seq<string>, col: string): (j: nat)
    requires col in columns
    ensures j < |columns| && columns[j] == col
    ensures forall h :: 0 <= h < j ==> columns[h] != col
  {
    if columns[0] == col then 0 else 1 + FirstIndex(columns[1..], col)
  }

  /** The cells of the column `df[col]`, top to bottom (the first such column when the
      label is repeated). */
  function ColumnCells(f: Frame, col: string): seq<Cell>
    requires col in f.columns
  {
    var j := FirstIndex(f.columns, col);
    seq(|f.rows|, i requires 0 <= i < |f.rows| => if j < |f.rows[i]| then f.rows[i][j] else None)
  }

  /** The value `to_datetime` infers the column's format from: the first cell of `df[col]`
      that is present and not a skipped text. */
  function FormatSource(f: Frame, col: string): Option<Value>
    requires col in f.columns
  {
    FirstFormatValue(ColumnCells(f, col))
  }

  /** The cast of one cell, used only once every cell of the column is known to cast. */
  function CastCell(cast: (Cell, DType) -> Option<Cell>, dtype: DType, c: Cell): Cell
  {
    match cast(c, dtype)
    case Some(d) => d
    case None => c
  }

  /** Cell `j` of a row belongs to a column labelled `col`. */
  predicate InColumn(columns: seq<string>, j: int, col: string)
  {
    0 <= j < |columns| && columns[j] == col
  }

  /** A row with `g` applied to the cells of every column labelled `col`. */
  function MapCells(columns: seq<string>, row: Row, col: string, g: Cell -> Cell): (r: Row)
    ensures |r| == |row|
    ensures forall j :: 0 <= j < |row| ==> r[j] == if InColumn(columns, j, col) then g(row[j]) else row[j]
  {
    seq(|row|, j requires 0 <= j < |row| => if InColumn(columns, j, col) then g(row[j]) else row[j])
  }

  /** `df[col] = g(df[col])`: the frame with `g` applied to every cell labelled `col`. */
  function MapColumn(f: Frame, col: string, g: Cell -> Cell): (r: Frame)
    ensures r.columns == f.columns && |r.rows| == |f.rows|
    ensures forall i :: 0 <= i < |f.rows| ==> r.rows[i] == MapCells(f.columns, f.rows[i], col, g)
  {
    Frame(f.columns, seq(|f.rows|, i requires 0 <= i < |f.rows| => MapCells(f.columns, f.rows[i], col, g)))
  }

  /** `astype(dtype)` succeeds on the column: every one of its cells casts. */
  predicate Castable(f: Frame, col: string, dtype: DType, cast: (Cell, DType) -> Option<Cell>)
  {
    forall i, j :: 0 <= i < |f.rows| && 0 <= j < |f.rows[i]| && InColumn(f.columns, j, col) ==>
      cast(f.rows[i][j], dtype).Some?
  }

  /** One schema entry: the body of the loop in `enforce_types`. It keeps the labels, the
      row count and every row's width, and changes no cell outside the columns labelled
      `col`. */
  function CoerceColumn(f: Frame, col: string, dtype: DType, conv: Converters): (r: Frame)
    ensures r.columns == f.columns && |r.rows| == |f.rows|
    ensures forall i :: 0 <= i < |f.rows| ==> |r.rows[i]| == |f.rows[i]|
    ensures forall i, j :: 0 <= i < |f.rows| && 0 <= j < |f.rows[i]| && !InColumn(f.columns, j, col) ==>
      r.rows[i][j] == f.rows[i][j]
  {
    if col !in f.columns then f
    else if IsDatetimeType(dtype) then
      var first := FormatSource(f, col);
      MapColumn(f, col, c => ParseCell(conv.parse, first, c))
    else if Castable(f, col, dtype, conv.cast) then MapColumn(f, col, c => CastCell(conv.cast, dtype, c))
    else f
  }

  /** The whole schema applied in order: the specification of EnforceTypes. */
  function ApplySchema(f: Frame, schema: Schema, conv: Converters): (r: Frame)
    ensures r.columns == f.columns && |r.rows| == |f.rows|
    ensures forall i :: 0 <= i < |f.rows| ==> |r.rows[i]| == |f.rows[i]|
  {
    if schema == [] then f
    else
      var last := schema[|schema| - 1];
      CoerceColumn(ApplySchema(f, schema[..|schema| - 1], conv), last.0, last.1, conv)
  }

  /** `enforce_types(df, schema)`: the loop over the schema items on a copy of the frame. */
  method EnforceTypes(f: Frame, schema: Schema, conv: Converters) returns (r: Frame)
    ensures r == ApplySchema(f, schema, conv)
  {
    r := f;
    for k := 0 to |schema|
      invariant r == ApplySchema(f, schema[..k], conv)
    {
      assert schema[..k + 1][..k] == schema[..k];
      var (col, dtype) := schema[k];
      if col in r.columns {
        if IsDatetimeType(dtype) {
          var first := FormatSource(r, col);
          r := MapColumn(r, col, c => ParseCell(conv.parse, first, c));
        } else if Castable(r, col, dtype, conv.cast) {
          r := MapColumn(r, col, c => CastCell(conv.cast, dtype, c));
        }
      }
    }
    assert schema[..|schema|] == schema;
  }

  // ---------------------------------------------------------------- lemmas

  /** The labels a schema names. */
  function SchemaColumns(schema: Schema): set<string>
  {
    set k | 0 <= k < |schema| :: schema[k].0
  }

  /** A dict has distinct keys. */
  predicate DistinctColumns(schema: Schema)
  {
    forall k, m :: 0 <= k < m < |schema| ==> schema[k].0 != schema[m].0
  }

  /** `f` and `g` have the same labels and row count and agree on every cell of the
      columns labelled `col`. */
  ghost predicate AgreeOn(f: Frame, g: Frame, col: string)
  {
    && f.columns == g.columns
    && |f.rows| == |g.rows|
    && forall i, j :: 0 <= i < |f.rows| && 0 <= j < |f.rows[i]| && j < |g.rows[i]| && InColumn(f.columns, j, col) ==>
         f.rows[i][j] == g.rows[i][j]
  }

  /** What one entry does to the cells of column `col` depends on those cells only. */
  lemma CoerceColumnLocal(f: Frame, g: Frame, col: string, dtype: DType, conv: Converters)
    requires WellFormed(f) && WellFormed(g) && AgreeOn(f, g, col)
    ensures AgreeOn(CoerceColumn(f, col, dtype, conv), CoerceColumn(g, col, dtype, conv), col)
  {
    if col in f.columns && IsDatetimeType(dtype) {
      ColumnCellsAgree(f, g, col);
    }
    assert Castable(f, col, dtype, conv.cast) <==> Castable(g, col, dtype, conv.cast) by {
      if Castable(f, col, dtype, conv.cast) {
        forall i, j | 0 <= i < |g.rows| && 0 <= j < |g.rows[i]| && InColumn(g.columns, j, col)
          ensures conv.cast(g.rows[i][j], dtype).Some?
        {
          assert f.rows[i][j] == g.rows[i][j];
        }
      }
      if Castable(g, col, dtype, conv.cast) {
        forall i, j | 0 <= i < |f.rows| && 0 <= j < |f.rows[i]| && InColumn(f.columns, j, col)
          ensures conv.cast(f.rows[i][j], dtype).Some?
        {
          assert f.rows[i][j] == g.rows[i][j];
        }
      }
    }
  }

  /** Frames that agree on column `col` have the same cells under `df[col]`, hence the
      same format source. */
  lemma ColumnCellsAgree(f: Frame, g: Frame, col: string)
    requires WellFormed(f) && WellFormed(g) && AgreeOn(f, g, col) && col in f.columns
    ensures ColumnCells(f, col) == ColumnCells(g, col)
  {
    var j := FirstIndex(f.columns, col);
    assert InColumn(f.columns, j, col);
  }

  /** A column the schema does not name comes out exactly as it went in; in particular
      schema entries whose column is absent change nothing. */
  lemma {:induction false} ApplySchemaUntouched(f: Frame, schema: Schema, conv: Converters, j: int)
    requires WellFormed(f) && 0 <= j < |f.columns|
    requires f.columns[j] !in SchemaColumns(schema)
    ensures forall i :: 0 <= i < |f.rows| ==> ApplySchema(f, schema, conv).rows[i][j] == f.rows[i][j]
    decreases |schema|
  {
    if schema != [] {
      var init := schema[..|schema| - 1];
      var last := schema[|schema| - 1];
      assert SchemaColumns(init) <= SchemaColumns(schema) by {
        forall c | c in SchemaColumns(init) ensures c in SchemaColumns(schema) {
          var k :| 0 <= k < |init| && init[k].0 == c;
          assert schema[k] == init[k];
        }
      }
      assert last.0 in SchemaColumns(schema);
      ApplySchemaUntouched(f, init, conv, j);
    }
  }

  /** Schema entries for other columns do not disturb the cells of column `col`. */
  lemma {:induction false} ApplySchemaAgreesOff(f: Frame, schema: Schema, conv: Converters, col: string)
    requires WellFormed(f)
    requires col !in SchemaColumns(schema)
    ensures AgreeOn(ApplySchema(f, schema, conv), f, col)
  {
    forall j | 0 <= j < |f.columns| && f.columns[j] == col
      ensures forall i :: 0 <= i < |f.rows| ==> ApplySchema(f, schema, conv).rows[i][j] == f.rows[i][j]
    {
      ApplySchemaUntouched(f, schema, conv, j);
    }
  }

  /** With distinct keys, the cells of a schema column end up exactly as that column's own
      entry alone would leave them: entries are applied independently of each other. */
  lemma {:induction false} ApplySchemaEntry(f: Frame, schema: Schema, conv: Converters, k: int)
    requires WellFormed(f) && DistinctColumns(schema) && 0 <= k < |schema|
    ensures AgreeOn(ApplySchema(f, schema, conv), CoerceColumn(f, schema[k].0, schema[k].1, conv), schema[k].0)
    decreases |schema|
  {
    var col, dtype := schema[k].0, schema[k].1;
    var init := schema[..|schema| - 1];
    var last := schema[|schema| - 1];
    var g := ApplySchema(f, init, conv);
    if k == |schema| - 1 {
      assert col !in SchemaColumns(init);
      ApplySchemaAgreesOff(f, init, conv, col);
      CoerceColumnLocal(g, f, col, dtype, conv);
    } else {
      assert init[k] == schema[k];
      assert DistinctColumns(init) by {
        forall a, b | 0 <= a < b < |init| ensures init[a].0 != init[b].0 {
          assert init[a] == schema[a] && init[b] == schema[b];
        }
      }
      ApplySchemaEntry(f, init, conv, k);
      assert last.0 != col;
    }
  }

  /** For a datetime target, each cell of the column is parsed in the format inferred from
      the column's format source: the parsed value, or missing when the value does
      not parse in that format or was missing. */
  lemma ApplySchemaDatetime(f: Frame, schema: Schema, conv: Converters, k: int, i: int, j: int)
    requires WellFormed(f) && DistinctColumns(schema) && 0 <= k < |schema|
    requires IsDatetimeType(schema[k].1)
    requires 0 <= i < |f.rows| && 0 <= j < |f.columns| && f.columns[j] == schema[k].0
    ensures ApplySchema(f, schema, conv).rows[i][j] ==
      match f.rows[i][j]
      case None => None
      case Some(v) => conv.parse(FormatSource(f, schema[k].0), v)
  {
    ApplySchemaEntry(f, schema, conv, k);
  }

  /** For any other target, the column is either cast in full (every cell to its cast)
      or left exactly as it was; it is cast exactly when every cell casts. */
  lemma ApplySchemaCast(f: Frame, schema: Schema, conv: Converters, k: int, j: int)
    requires WellFormed(f) && DistinctColumns(schema) && 0 <= k < |schema|
    requires !IsDatetimeType(schema[k].1)
    requires 0 <= j < |f.columns| && f.columns[j] == schema[k].0
    ensures var r := ApplySchema(f, schema, conv);
      if Castable(f, schema[k].0, schema[k].1, conv.cast) then
        forall i :: 0 <= i < |f.rows| ==> Some(r.rows[i][j]) == conv.cast(f.rows[i][j], schema[k].1)
      else
        forall i :: 0 <= i < |f.rows| ==> r.rows[i][j] == f.rows[i][j]
  {
    var col, dtype := schema[k].0, schema[k].1;
    ApplySchemaEntry(f, schema, conv, k);
    assert InColumn(f.columns, j, col);
    if !Castable(f, col, dtype, conv.cast) {
      assert CoerceColumn(f, col, dtype, conv) == f;
    }
  }

  /** The cells of a one-column frame of three rows. */
  lemma ThreeRowCells(x: Cell, y: Cell, z: Cell)
    ensures ColumnCells(Frame(["order_date"], [[x], [y], [z]]), "order_date") == [x, y, z]
  {
    assert FirstIndex(["order_date"], "order_date") == 0;
  }

  /** The format value of three cells is the first of them that can bear a format. */
  lemma FirstFormatValueOfThree(x: Cell, y: Cell, z: Cell)
    ensures FirstFormatValue([x, y, z]) ==
      if FormatBearing(x) then x else if FormatBearing(y) then y else if FormatBearing(z) then z else None
  {
    assert [z][1..] == [];
    assert FirstFormatValue([z]) == if FormatBearing(z) then z else None;
    assert [y, z][1..] == [z];
    assert FirstFormatValue([y, z]) == if FormatBearing(y) then y else FirstFormatValue([z]);
    assert [x, y, z][1..] == [y, z];
  }

  /** On a frame whose only label is `order_date`, the schema entry for it parses the
      column in the format inferred from the column's format source. */
  lemma DatetimeOnlyColumn(f: Frame, conv: Converters)
    requires f.columns == ["order_date"]
    ensures ApplySchema(f, [("order_date", "datetime64[ns]")], conv)
      == MapColumn(f, "order_date", c => ParseCell(conv.parse, FormatSource(f, "order_date"), c))
  {
    var schema := [("order_date", "datetime64[ns]")];
    assert schema[..0] == [];
    assert IsDatetimeType("datetime64[ns]");
  }

  /** The format is inferred once per frame: in a column holding a missing cell, then `a`,
      then `b`, both values are parsed in the format inferred from `a`, or from `b` when
      `a` is a skipped text, or with no inferred format when both are. */
  lemma ExampleFormatFromFirstValue(conv: Converters, a: Value, b: Value)
    ensures var f := Frame(["order_date"], [[None], [Some(a)], [Some(b)]]);
      var first := if FormatBearing(Some(a)) then Some(a) else if FormatBearing(Some(b)) then Some(b) else None;
      ApplySchema(f, [("order_date", "datetime64[ns]")], conv).rows
        == [[None], [conv.parse(first, a)], [conv.parse(first, b)]]
  {
    var f := Frame(["order_date"], [[None], [Some(a)], [Some(b)]]);
    var first := if FormatBearing(Some(a)) then Some(a) else if FormatBearing(Some(b)) then Some(b) else None;
    ThreeRowCells(None, Some(a), Some(b));
    FirstFormatValueOfThree(None, Some(a), Some(b));
    assert FormatSource(f, "order_date") == first;
    DatetimeOnlyColumn(f, conv);
    ParseThreeRows(conv.parse, first, None, Some(a), Some(b));
  }

  /** Parsing the only column of a three-row frame parses each of its cells. */
  lemma ParseThreeRows(parse: (Option<Value>, Value) -> Option<Value>, first: Option<Value>, x: Cell, y: Cell, z: Cell)
    ensures MapColumn(Frame(["order_date"], [[x], [y], [z]]), "order_date", c => ParseCell(parse, first, c)).rows
      == [[ParseCell(parse, first, x)], [ParseCell(parse, first, y)], [ParseCell(parse, first, z)]]
  {
    var r := MapColumn(Frame(["order_date"], [[x], [y], [z]]), "order_date", c => ParseCell(parse, first, c));
    assert InColumn(["order_date"], 0, "order_date");
    assert r.rows[0] == [ParseCell(parse, first, x)];
    assert r.rows[1] == [ParseCell(parse, first, y)];
    assert r.rows[2] == [ParseCell(parse, first, z)];
  }

  /** A leading "now" does not fix the format: with cells "now", "2024-01-02", "01/03/2024"
      the format comes from "2024-01-02", and with "now", "01/02/2024", "01/03/2024" from
      "01/02/2024", so "01/03/2024" may parse in one slice and not in the other. */
  lemma ExampleNowIsSkipped()
    ensures FormatSource(Frame(["order_date"], [[Some(Text("now"))], [Some(Text("2024-01-02"))], [Some(Text("01/03/2024"))]]), "order_date")
      == Some(Text("2024-01-02"))
    ensures FormatSource(Frame(["order_date"], [[Some(Text("now"))], [Some(Text("01/02/2024"))], [Some(Text("01/03/2024"))]]), "order_date")
      == Some(Text("01/02/2024"))
  {
    NowThenValue(Text("2024-01-02"), Text("01/03/2024"));
    NowThenValue(Text("01/02/2024"), Text("01/03/2024"));
  }

  /** The format source of the column "now", `a`, `b`, for a ten-character text `a`. */
  lemma NowThenValue(a: Value, b: Value)
    requires a.Text? && |a.s| == 10
    ensures FormatSource(Frame(["order_date"], [[Some(Text("now"))], [Some(a)], [Some(b)]]), "order_date") == Some(a)
  {
    ThreeRowCells(Some(Text("now")), Some(a), Some(b));
    FirstFormatValueOfThree(Some(Text("now")), Some(a), Some(b));
    assert "now" in SKIPPED_FOR_FORMAT;
    assert forall t :: t in SKIPPED_FOR_FORMAT ==> |t| <= 5;
  }

  /** A schema none of whose columns is in the frame leaves the frame as it is. */
  lemma {:induction false} ApplySchemaNoColumns(f: Frame, schema: Schema, conv: Converters)
    requires forall k :: 0 <= k < |schema| ==> schema[k].0 !in f.columns
    ensures ApplySchema(f, schema, conv) == f
    decreases |schema|
  {
    if schema != [] {
      ApplySchemaNoColumns(f, schema[..|schema| - 1], conv);
    }
  }
}
