/**
  The order in which the driver visits its input files: `sorted(DATA_DIR.glob("*.csv"))`.
  Paths in one directory compare by their names, code point by code point.
 */
module FileOrder {

  /** Lexicographic order on strings by code point; a proper prefix comes first. */
  predicate NameLe(a: string, b: string)
  {
    a == [] || (b != [] && (a[0] < b[0] || (a[0] == b[0] && NameLe(a[1..], b[1..]))))
  }

  lemma {:induction false} NameLeTotal(a: string, b: string)
    ensures NameLe(a, b) || NameLe(b, a)
  {
    if a != [] && b != [] && a[0] == b[0] {
      NameLeTotal(a[1..], b[1..]);
    }
  }

  lemma {:induction false} NameLeTransitive(a: string, b: string, c: string)
    requires NameLe(a, b) && NameLe(b, c)
    ensures NameLe(a, c)
  {
    if a != [] && a[0] == b[0] && b[0] == c[0] {
      NameLeTransitive(a[1..], b[1..], c[1..]);
    }
  }

  /** Names in non-decreasing order. */
  ghost predicate SortedBy<T>(xs: seq<T>, name: T -> string)
  {
    forall i, j :: 0 <= i < j < |xs| ==> NameLe(name(xs[i]), name(xs[j]))
  }

  /** Puts `x` into the sorted `xs` before the first element it does not follow. */
  function Insert<T>(x: T, xs: seq<T>, name: T -> string): seq<T>
  {
    if xs == [] then [x]
    else if NameLe(name(x), name(xs[0])) then [x] + xs
    else [xs[0]] + Insert(x, xs[1..], name)
  }

  /** Insertion sort by name: the model of `sorted`. */
  function SortByName<T>(xs: seq<T>, name: T -> string): seq<T>
  {
    if xs == [] then [] else Insert(xs[0], SortByName(xs[1..], name), name)
  }

  /** `glob("*.csv")`: the name ends with `.csv` (the `*` may match nothing). */
  predicate IsCsvName(name: string)
  {
    |name| >= 4 && name[|name| - 4..] == ".csv"
  }

  /** Every name in `xs` is at least `b`. */
  ghost predicate AllFrom<T>(b: string, xs: seq<T>, name: T -> string)
  {
    forall i :: 0 <= i < |xs| ==> NameLe(b, name(xs[i]))
  }

  lemma {:induction false} InsertPerm<T>(x: T, xs: seq<T>, name: T -> string)
    ensures multiset(Insert(x, xs, name)) == multiset(xs) + multiset{x}
    decreases |xs|
  {
    if xs != [] && !NameLe(name(x), name(xs[0])) {
      InsertPerm(x, xs[1..], name);
      assert xs == [xs[0]] + xs[1..];
    }
  }

  lemma {:induction false} InsertFrom<T>(b: string, x: T, xs: seq<T>, name: T -> string)
    requires NameLe(b, name(x)) && AllFrom(b, xs, name)
    ensures AllFrom(b, Insert(x, xs, name), name)
    decreases |xs|
  {
    if xs != [] && !NameLe(name(x), name(xs[0])) {
      var tail := xs[1..];
      assert AllFrom(b, tail, name) by {
        forall i | 0 <= i < |tail| ensures NameLe(b, name(tail[i])) {
          assert tail[i] == xs[i + 1];
        }
      }
      InsertFrom(b, x, tail, name);
    }
  }

  lemma {:induction false} InsertSorted<T>(x: T, xs: seq<T>, name: T -> string)
    requires SortedBy(xs, name)
    ensures SortedBy(Insert(x, xs, name), name)
    decreases |xs|
  {
    if xs == [] {
    } else if NameLe(name(x), name(xs[0])) {
      var r := [x] + xs;
      forall i, j | 0 <= i < j < |r| ensures NameLe(name(r[i]), name(r[j])) {
        if i == 0 && j > 1 {
          NameLeTransitive(name(x), name(xs[0]), name(xs[j - 1]));
        }
      }
    } else {
      var tail := xs[1..];
      assert SortedBy(tail, name) by {
        forall i, j | 0 <= i < j < |tail| ensures NameLe(name(tail[i]), name(tail[j])) {
          assert tail[i] == xs[i + 1] && tail[j] == xs[j + 1];
        }
      }
      InsertSorted(x, tail, name);
      NameLeTotal(name(x), name(xs[0]));
      assert AllFrom(name(xs[0]), tail, name) by {
        forall i | 0 <= i < |tail| ensures NameLe(name(xs[0]), name(tail[i])) {
          assert tail[i] == xs[i + 1];
        }
      }
      InsertFrom(name(xs[0]), x, tail, name);
    }
  }

  /** The sorted list is in name order and holds exactly the same files. */
  lemma {:induction false} SortByNameSpec<T>(xs: seq<T>, name: T -> string)
    ensures SortedBy(SortByName(xs, name), name)
    ensures multiset(SortByName(xs, name)) == multiset(xs)
    decreases |xs|
  {
    if xs != [] {
      var tail := xs[1..];
      var sorted := SortByName(tail, name);
      SortByNameSpec(tail, name);
      assert SortByName(xs, name) == Insert(xs[0], sorted, name);
      InsertSorted(xs[0], sorted, name);
      InsertPerm(xs[0], sorted, name);
      assert xs == [xs[0]] + tail;
      assert multiset(xs) == multiset(tail) + multiset{xs[0]};
    }
  }
}
