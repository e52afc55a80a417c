/**
  The table that flows through the cleaning pipeline: a pandas DataFrame reduced to
  its column labels and its rows of cells.
 */
module Frames {
  import opened Wrappers

  /** A cell value. Floats and timestamps are opaque tags: their conversions are
      parameters of the model (see TypeCoercion.Converters). */
  datatype Value = Text(s: string) | Integer(i: int) | Decimal(d: real) | Timestamp(t: int)

  /** `None` is pandas' missing value (NaN, NaT, None). */
  type Cell = Option<Value>

  type Row = seq<Cell>

  /** One DataFrame: column labels in order (labels need not be unique) and rows. */
  datatype Frame = Frame(columns: seq<string>, rows: seq<Row>)

  /** Every row has one cell per column, as in any DataFrame. */
  predicate WellFormed(f: Frame)
  {
    forall i :: 0 <= i < |f.rows| ==> |f.rows[i]| == |f.columns|
  }

  /** A row in which every cell is missing (what `dropna(how="all")` removes). */
  predicate AllMissing(row: Row)
  {
    forall j :: 0 <= j < |row| ==> row[j].None?
  }
}
