/**
  `drop_dupes_na`: first `drop_duplicates(subset)` keeps the first row of every key (the
  whole row, or its cells in the `subset` columns; missing equals missing), then
  `dropna(how="all")` drops the rows whose every cell is missing.
 */
module Dedupe {
  import opened Wrappers
  import opened Frames
  import RowFilters

  /** `drop_duplicates` raises KeyError for subset labels that are not columns. */
  datatype DedupeError = KeyError(missing: seq<string>)

  /** The cells of `row` in the columns whose label is in `subset`, in column order. */
  function Project(columns: seq<string>, subset: seq<string>, row: Row): seq<Cell>
  {
    if columns == [] || row == [] then []
    else (if columns[0] in subset then [row[0]] else []) + Project(columns[1..], subset, row[1..])
  }

  /** What two rows are compared on: the whole row, or its cells in the subset columns. */
  function RowKey(columns: seq<string>, subset: Option<seq<string>>): Row -> seq<Cell>
  {
    match subset
    case None => (row: Row) => row
    case Some(s) => (row: Row) => Project(columns, s, row)
  }

  /** The rows `dropna(how="all")` keeps. */
  predicate HasValue(row: Row)
  {
    !AllMissing(row)
  }

  /** `drop_duplicates(subset)`, keeping the first row of every key. */
  function DropDuplicates(f: Frame, subset: Option<seq<string>>): Frame
  {
    Frame(f.columns, RowFilters.KeepFirst(f.rows, RowKey(f.columns, subset), {}))
  }

  /** `dropna(how="all")`. */
  function DropAllMissing(f: Frame): Frame
  {
    Frame(f.columns, RowFilters.Filter(f.rows, HasValue))
  }

  /** The subset labels that are not columns of the frame. */
  function MissingLabels(columns: seq<string>, subset: Option<seq<string>>): (r: seq<string>)
    ensures forall l :: l in r <==> subset.Some? && l in subset.value && l !in columns
  {
    match subset
    case None => []
    case Some(s) =>
      RowFilters.FilterSpec(s, l => l !in columns);
      RowFilters.Filter(s, l => l !in columns)
  }

  /** pandas' `DataFrame.empty`: no rows or no columns. */
  predicate IsEmpty(f: Frame)
  {
    f.rows == [] || f.columns == []
  }

  /** `drop_dupes_na(df, subset)`: fails exactly when the frame is not empty and a subset
      label is not a column (`drop_duplicates` returns a copy of an empty frame before it
      looks at the subset; see DropDupesNaEmpty for what is returned then). */
  function DropDupesNa(f: Frame, subset: Option<seq<string>>): (r: Result<Frame, DedupeError>)
    ensures r.Failure? <==> !IsEmpty(f) && subset.Some? && exists l :: l in subset.value && l !in f.columns
  {
    var missing := MissingLabels(f.columns, subset);
    if !IsEmpty(f) && missing != [] then
      assert missing[0] in missing;
      Failure(KeyError(missing))
    else Success(DropAllMissing(DropDuplicates(f, subset)))
  }

  // ---------------------------------------------------------------- lemmas

  /**
    On success the result keeps the labels; its rows are an order-preserving subsequence
    of the input's, pairwise distinct on the key, none of them all missing, and they are
    exactly the first occurrences of each key with the all-missing ones then removed:
    de-duplication runs before the empty-row filter.
   */
  lemma DropDupesNaSpec(f: Frame, subset: Option<seq<string>>)
    requires DropDupesNa(f, subset).Success?
    ensures var r := DropDupesNa(f, subset).value;
      var key := RowKey(f.columns, subset);
      && r.columns == f.columns
      && RowFilters.IsSubsequence(r.rows, f.rows)
      && (forall i, j :: 0 <= i < j < |r.rows| ==> key(r.rows[i]) != key(r.rows[j]))
      && (forall i :: 0 <= i < |r.rows| ==> !AllMissing(r.rows[i]))
      && r.rows == RowFilters.Filter(RowFilters.FirstOccurrences(f.rows, key), HasValue)
      && (WellFormed(f) ==> WellFormed(r))
  {
    var key := RowKey(f.columns, subset);
    var out := RowFilters.Filter(RowFilters.KeepFirst(f.rows, key, {}), HasValue);
    assert DropDupesNa(f, subset).value == Frame(f.columns, out);
    RowFilters.KeepFirstThenFilter(f.rows, key, HasValue);
    assert RowFilters.DistinctKeys(out, key);
    assert forall i :: 0 <= i < |out| ==> HasValue(out[i]);
    if WellFormed(f) {
      RowFilters.SubsequenceMembers(out, f.rows);
      forall i | 0 <= i < |out| ensures |out[i]| == |f.columns| {
        assert out[i] in f.rows;
      }
    }
  }

  /** A row that is the first of its key and has a value is always kept; with whole-row
      comparison that is every row that has a value. */
  lemma DropDupesNaKeeps(f: Frame, subset: Option<seq<string>>, i: int)
    requires DropDupesNa(f, subset).Success?
    requires 0 <= i < |f.rows| && HasValue(f.rows[i])
    requires subset.None? || forall j :: 0 <= j < i ==> RowKey(f.columns, subset)(f.rows[j]) != RowKey(f.columns, subset)(f.rows[i])
    ensures f.rows[i] in DropDupesNa(f, subset).value.rows
  {
    var key := RowKey(f.columns, subset);
    var x := f.rows[i];
    var kept := RowFilters.KeepFirst(f.rows, key, {});
    RowFilters.KeepFirstSpec(f.rows, key, {});
    RowFilters.FilterSpec(kept, HasValue);
    assert x in f.rows;
    assert key(x) in RowFilters.KeysOf(f.rows, key);
    assert key(x) in RowFilters.KeysOf(kept, key);
    var y :| y in kept && key(y) == key(x);
    if subset.None? {
      assert y == x;
    } else {
      RowFilters.SubsequenceMembers(kept, f.rows);
      FirstOfKey(f.rows, key, i, y);
      KeptIsFirst(f.rows, key, y);
    }
  }

  /** The only row of `xs` with the key of its first occurrence at `i`, that is kept
      by KeepFirst, is `xs[i]` itself. */
  lemma FirstOfKey(xs: seq<Row>, key: Row -> seq<Cell>, i: int, y: Row)
    requires 0 <= i < |xs|
    requires forall j :: 0 <= j < i ==> key(xs[j]) != key(xs[i])
    requires y in RowFilters.KeepFirst(xs, key, {}) && key(y) == key(xs[i])
    ensures y == xs[i]
  {
    KeptIsFirst(xs, key, y);
    var m :| 0 <= m < |xs| && xs[m] == y && forall j :: 0 <= j < m ==> key(xs[j]) != key(y);
    assert m == i;
  }

  /** Every row KeepFirst keeps is the first row of its key. */
  lemma KeptIsFirst(xs: seq<Row>, key: Row -> seq<Cell>, y: Row)
    requires y in RowFilters.KeepFirst(xs, key, {})
    ensures exists m :: 0 <= m < |xs| && xs[m] == y && forall j :: 0 <= j < m ==> key(xs[j]) != key(y)
  {
    KeptIsFirstFrom(xs, key, {}, y);
  }

  lemma {:induction false} KeptIsFirstFrom(xs: seq<Row>, key: Row -> seq<Cell>, seen: set<seq<Cell>>, y: Row)
    requires y in RowFilters.KeepFirst(xs, key, seen)
    ensures key(y) !in seen
    ensures exists m :: 0 <= m < |xs| && xs[m] == y && forall j :: 0 <= j < m ==> key(xs[j]) != key(y)
    decreases |xs|
  {
    var tail := xs[1..];
    if key(xs[0]) in seen {
      KeptIsFirstFrom(tail, key, seen, y);
      var m :| 0 <= m < |tail| && tail[m] == y && forall j :: 0 <= j < m ==> key(tail[j]) != key(y);
      assert xs[m + 1] == y;
      assert forall j :: 1 <= j < m + 1 ==> xs[j] == tail[j - 1];
    } else if y == xs[0] {
      assert xs[0] == y;
    } else {
      var seen' := seen + {key(xs[0])};
      KeptIsFirstFrom(tail, key, seen', y);
      var m :| 0 <= m < |tail| && tail[m] == y && forall j :: 0 <= j < m ==> key(tail[j]) != key(y);
      assert xs[m + 1] == y;
      assert forall j :: 1 <= j < m + 1 ==> xs[j] == tail[j - 1];
    }
  }

  /** Applying `drop_dupes_na` a second time with the same subset changes nothing. */
  lemma DropDupesNaIdempotent(f: Frame, subset: Option<seq<string>>)
    requires DropDupesNa(f, subset).Success?
    ensures DropDupesNa(DropDupesNa(f, subset).value, subset) == DropDupesNa(f, subset)
  {
    var r := DropDupesNa(f, subset).value;
    DropDupesNaSpec(f, subset);
    RowFilters.SubsequenceMembers(r.rows, f.rows);
    assert !IsEmpty(r) ==> !IsEmpty(f);
    assert DropDupesNa(r, subset) == Success(DropAllMissing(DropDuplicates(r, subset)));
    var key := RowKey(f.columns, subset);
    assert RowKey(r.columns, subset) == key;
    RowFilters.KeepFirstOfDistinct(r.rows, key, {});
    RowFilters.FilterKeepsAll(r.rows, HasValue);
  }

  /**
    On an empty frame `drop_dupes_na` succeeds whatever the subset, and the result is
    `dropna(how="all")` of the frame itself: no rows at all (a row of no cells has no
    value).
   */
  lemma DropDupesNaEmpty(f: Frame, subset: Option<seq<string>>)
    requires WellFormed(f) && IsEmpty(f)
    ensures DropDupesNa(f, subset) == Success(DropAllMissing(f))
    ensures DropAllMissing(f) == Frame(f.columns, [])
  {
    var key := RowKey(f.columns, subset);
    var kept := RowFilters.KeepFirst(f.rows, key, {});
    RowFilters.KeepFirstSpec(f.rows, key, {});
    RowFilters.SubsequenceMembers(kept, f.rows);
    assert forall i :: 0 <= i < |f.rows| ==> |f.rows[i]| == 0;
    assert forall i :: 0 <= i < |kept| ==> kept[i] in f.rows;
    RowFilters.FilterKeepsNone(kept, HasValue);
    RowFilters.FilterKeepsNone(f.rows, HasValue);
  }

  /** A subset naming no column fails on a frame with rows and columns, and succeeds
      with no rows on a frame without rows. */
  lemma ExampleMissingSubsetLabel(row: Row)
    requires |row| == 1
    ensures DropDupesNa(Frame(["qty"], [row]), Some(["order_id"])) == Failure(KeyError(["order_id"]))
    ensures DropDupesNa(Frame(["qty"], []), Some(["order_id"])) == Success(Frame(["qty"], []))
  {
    DropDupesNaEmpty(Frame(["qty"], []), Some(["order_id"]));
    assert MissingLabels(["qty"], Some(["order_id"])) == ["order_id"] by {
      var m := MissingLabels(["qty"], Some(["order_id"]));
      assert m == RowFilters.Filter(["order_id"], l => l !in ["qty"]);
      assert ["order_id"][1..] == [];
    }
  }

  // ---------------------------------------------------------------- worked examples

  /** Rows A, B, A, C, B compared whole become A, B, C: first occurrences, in order. */
  lemma ExampleFirstOccurrences(columns: seq<string>, a: Row, b: Row, c: Row)
    requires a != b && b != c && a != c
    requires HasValue(a) && HasValue(b) && HasValue(c)
    ensures DropDupesNa(Frame(columns, [a, b, a, c, b]), None) == Success(Frame(columns, [a, b, c]))
  {
    var key := RowKey(columns, None);
    assert key(a) == a && key(b) == b && key(c) == c;
    var rows := [a, b, a, c, b];
    assert rows[1..] == [b, a, c, b] && [b, a, c, b][1..] == [a, c, b];
    assert [a, c, b][1..] == [c, b] && [c, b][1..] == [b] && [b][1..] == [];
    assert RowFilters.KeepFirst([b], key, {a, b, c}) == [];
    assert {a, b} + {c} == {a, b, c};
    assert RowFilters.KeepFirst([c, b], key, {a, b}) == [c];
    assert RowFilters.KeepFirst([a, c, b], key, {a, b}) == [c];
    assert {} + {a} == {a} && {a} + {b} == {a, b};
    assert RowFilters.KeepFirst([b, a, c, b], key, {a}) == [b, c];
    assert RowFilters.KeepFirst(rows, key, {}) == [a, b, c];
    RowFilters.FilterKeepsAll([a, b, c], HasValue);
  }

  /** With a subset, rows that differ only outside the subset are duplicates. */
  lemma ExampleSubsetDuplicates(id: Value, x: Value, y: Value)
    requires x != y
    ensures DropDupesNa(Frame(["order_id", "qty"], [[Some(id), Some(x)], [Some(id), Some(y)]]), Some(["order_id"]))
         == Success(Frame(["order_id", "qty"], [[Some(id), Some(x)]]))
  {
    var columns := ["order_id", "qty"];
    var subset := ["order_id"];
    var key := RowKey(columns, Some(subset));
    var r1, r2: Row := [Some(id), Some(x)], [Some(id), Some(y)];
    ProjectTwoColumns(columns, subset, r1);
    ProjectTwoColumns(columns, subset, r2);
    assert key(r1) == [Some(id)] == key(r2);
    assert [r1, r2][1..] == [r2] && [r2][1..] == [];
    assert {} + {key(r1)} == {key(r1)};
    assert RowFilters.KeepFirst([r2], key, {key(r1)}) == [];
    assert RowFilters.KeepFirst([r1, r2], key, {}) == [r1];
    assert HasValue(r1) by { assert r1[0].Some?; }
    RowFilters.FilterKeepsAll([r1], HasValue);
  }

  /** The key of a two-column row on subset `order_id` (first column) is its first cell. */
  lemma ProjectTwoColumns(columns: seq<string>, subset: seq<string>, row: Row)
    requires columns == ["order_id", "qty"] && subset == ["order_id"] && |row| == 2
    ensures Project(columns, subset, row) == [row[0]]
  {
    assert columns[1..] == ["qty"] && "qty" !in subset && columns[1..][1..] == [];
    assert Project(columns[1..][1..], subset, row[1..][1..]) == [];
    assert Project(columns[1..], subset, row[1..]) == [];
  }

  /**
    Why the order of the two phases matters: with subset `order_id`, an all-missing first
    row shadows a later row with the same (missing) `order_id`; de-duplication drops the
    later row and the empty-row filter then drops the first, so nothing is left, while
    filtering first would have kept the later row.
   */
  lemma ExampleDedupeBeforeFilter(v: Value)
    ensures var f := Frame(["order_id", "qty"], [[None, None], [None, Some(v)]]);
      && DropDupesNa(f, Some(["order_id"])) == Success(Frame(f.columns, []))
      && DropDuplicates(DropAllMissing(f), Some(["order_id"])).rows == [[None, Some(v)]]
  {
    var columns := ["order_id", "qty"];
    var subset := ["order_id"];
    var key := RowKey(columns, Some(subset));
    var r1, r2: Row := [None, None], [None, Some(v)];
    ProjectTwoColumns(columns, subset, r1);
    ProjectTwoColumns(columns, subset, r2);
    assert key(r1) == [None] == key(r2);
    assert [r1, r2][1..] == [r2] && [r2][1..] == [];
    assert {} + {key(r1)} == {key(r1)};
    assert RowFilters.KeepFirst([r2], key, {key(r1)}) == [];
    assert RowFilters.KeepFirst([r1, r2], key, {}) == [r1];
    assert AllMissing(r1);
    assert [r1][1..] == [];
    assert RowFilters.Filter([r1], HasValue) == [];
    assert HasValue(r2) by { assert r2[1].Some?; }
    assert RowFilters.Filter([r1, r2], HasValue) == [r2];
    assert RowFilters.KeepFirst([r2], key, {}) == [r2];
  }
}
