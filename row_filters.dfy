/**
  Order-preserving filters over a sequence of rows, generic in the row type:
  keeping the first row of every key (what `drop_duplicates` does) and keeping
  the rows that satisfy a predicate (what `dropna` does).
 */
module RowFilters {

  /** Appending in two steps is appending the joined tail. */
  lemma AppendAssoc<T>(x: seq<T>, y: seq<T>, z: seq<T>)
    ensures x + (y + z) == (x + y) + z
  {
  }

  /** `a` is obtained from `b` by deleting elements; the order of what is kept is unchanged. */
  ghost predicate IsSubsequence<T>(a: seq<T>, b: seq<T>)
    decreases |b|
  {
    a == [] || (b != [] && ((a[0] == b[0] && IsSubsequence(a[1..], b[1..])) || IsSubsequence(a, b[1..])))
  }

  /** The set of keys of the elements of `xs`. */
  ghost function KeysOf<T, K>(xs: seq<T>, key: T -> K): set<K>
  {
    set x | x in xs :: key(x)
  }

  /** No two elements of `xs` share a key. */
  ghost predicate DistinctKeys<T, K>(xs: seq<T>, key: T -> K)
  {
    forall i, j :: 0 <= i < j < |xs| ==> key(xs[i]) != key(xs[j])
  }

  /** The elements of `xs` that satisfy `keep`, in their original order. */
  function Filter<T>(xs: seq<T>, keep: T -> bool): seq<T>
  {
    if xs == [] then []
    else (if keep(xs[0]) then [xs[0]] else []) + Filter(xs[1..], keep)
  }

  /** Walks `xs` left to right and keeps an element exactly when its key has not
      been seen before; `seen` holds the keys met so far. */
  function KeepFirst<T, K(==)>(xs: seq<T>, key: T -> K, seen: set<K>): seq<T>
  {
    if xs == [] then []
    else if key(xs[0]) in seen then KeepFirst(xs[1..], key, seen)
    else [xs[0]] + KeepFirst(xs[1..], key, seen + {key(xs[0])})
  }

  /** Reference definition of "first occurrences", written the other way round:
      the last element is kept exactly when no earlier element has its key. */
  ghost function FirstOccurrences<T, K>(xs: seq<T>, key: T -> K): seq<T>
  {
    if xs == [] then []
    else
      var p, x := xs[..|xs| - 1], xs[|xs| - 1];
      FirstOccurrences(p, key) + (if exists j :: 0 <= j < |p| && key(p[j]) == key(x) then [] else [x])
  }

  // ---------------------------------------------------------------- subsequences

  lemma {:induction false} SubsequenceTransitive<T>(a: seq<T>, b: seq<T>, c: seq<T>)
    requires IsSubsequence(a, b) && IsSubsequence(b, c)
    ensures IsSubsequence(a, c)
    decreases |c|
  {
    if a != [] {
      if b[0] == c[0] && IsSubsequence(b[1..], c[1..]) {
        if a[0] == b[0] && IsSubsequence(a[1..], b[1..]) {
          SubsequenceTransitive(a[1..], b[1..], c[1..]);
        } else {
          SubsequenceTransitive(a, b[1..], c[1..]);
        }
      } else {
        SubsequenceTransitive(a, b, c[1..]);
      }
    }
  }

  lemma {:induction false} SubsequenceMembers<T>(a: seq<T>, b: seq<T>)
    requires IsSubsequence(a, b)
    ensures |a| <= |b|
    ensures forall x :: x in a ==> x in b
    decreases |b|
  {
    if a != [] {
      if a[0] == b[0] && IsSubsequence(a[1..], b[1..]) {
        SubsequenceMembers(a[1..], b[1..]);
        assert forall x :: x in a ==> x == a[0] || x in a[1..];
      } else {
        SubsequenceMembers(a, b[1..]);
      }
    }
  }

  /** Putting the same element in front of both sides keeps a subsequence one. */
  lemma SubsequenceCons<T>(x: T, a: seq<T>, b: seq<T>)
    requires IsSubsequence(a, b)
    ensures IsSubsequence([x] + a, [x] + b)
  {
    assert ([x] + a)[1..] == a && ([x] + b)[1..] == b;
  }

  /** Adding an element in front of the longer side keeps a subsequence one. */
  lemma SubsequenceSkip<T>(x: T, a: seq<T>, b: seq<T>)
    requires IsSubsequence(a, b)
    ensures IsSubsequence(a, [x] + b)
  {
    assert ([x] + b)[1..] == b;
  }

  // ---------------------------------------------------------------- keys

  lemma KeysOfCons<T, K>(x: T, xs: seq<T>, key: T -> K)
    ensures KeysOf([x] + xs, key) == {key(x)} + KeysOf(xs, key)
  {
    assert forall y :: y in [x] + xs <==> y == x || y in xs;
  }

  lemma KeysOfSnoc<T, K>(xs: seq<T>, x: T, key: T -> K)
    ensures KeysOf(xs + [x], key) == KeysOf(xs, key) + {key(x)}
  {
    assert forall y :: y in xs + [x] <==> y in xs || y == x;
  }

  /** A key is among the keys of `xs` exactly when some element of `xs` has it. */
  lemma KeysOfIndex<T, K>(xs: seq<T>, key: T -> K, k: K)
    ensures k in KeysOf(xs, key) <==> exists j :: 0 <= j < |xs| && key(xs[j]) == k
  {
    if k in KeysOf(xs, key) {
      var x :| x in xs && key(x) == k;
      var j :| 0 <= j < |xs| && xs[j] == x;
    }
  }

  /** Distinctness of keys, one element at a time. */
  lemma DistinctKeysCons<T, K>(x: T, xs: seq<T>, key: T -> K)
    requires key(x) !in KeysOf(xs, key) && DistinctKeys(xs, key)
    ensures DistinctKeys([x] + xs, key)
  {
    var ys := [x] + xs;
    forall i, j | 0 <= i < j < |ys|
      ensures key(ys[i]) != key(ys[j])
    {
      if i == 0 {
        assert ys[j] == xs[j - 1] && xs[j - 1] in xs;
      } else {
        assert ys[i] == xs[i - 1] && ys[j] == xs[j - 1];
      }
    }
  }

  // ---------------------------------------------------------------- Filter

  /** Filter keeps exactly the elements that satisfy the predicate, in order. */
  lemma {:induction false} FilterSpec<T>(xs: seq<T>, keep: T -> bool)
    ensures IsSubsequence(Filter(xs, keep), xs)
    ensures forall x :: x in Filter(xs, keep) ==> x in xs && keep(x)
    ensures forall x :: x in xs && keep(x) ==> x in Filter(xs, keep)
    decreases |xs|
  {
    if xs != [] {
      var rest := Filter(xs[1..], keep);
      FilterSpec(xs[1..], keep);
      assert forall x :: x in xs <==> x == xs[0] || x in xs[1..];
      assert xs == [xs[0]] + xs[1..];
      if keep(xs[0]) {
        SubsequenceCons(xs[0], rest, xs[1..]);
      } else {
        assert Filter(xs, keep) == rest;
        SubsequenceSkip(xs[0], rest, xs[1..]);
      }
    }
  }

  /** Filtering a sequence whose every element is kept gives it back. */
  lemma {:induction false} FilterKeepsAll<T>(xs: seq<T>, keep: T -> bool)
    requires forall i :: 0 <= i < |xs| ==> keep(xs[i])
    ensures Filter(xs, keep) == xs
    decreases |xs|
  {
    if xs != [] {
      FilterKeepsAll(xs[1..], keep);
      assert xs == [xs[0]] + xs[1..];
    }
  }

  /** Filtering a sequence none of whose elements is kept gives nothing. */
  lemma {:induction false} FilterKeepsNone<T>(xs: seq<T>, keep: T -> bool)
    requires forall i :: 0 <= i < |xs| ==> !keep(xs[i])
    ensures Filter(xs, keep) == []
    decreases |xs|
  {
    if xs != [] {
      FilterKeepsNone(xs[1..], keep);
    }
  }

  /** Filtering cannot make two kept elements share a key. */
  lemma {:induction false} FilterDistinct<T, K>(xs: seq<T>, keep: T -> bool, key: T -> K)
    requires DistinctKeys(xs, key)
    ensures DistinctKeys(Filter(xs, keep), key)
    decreases |xs|
  {
    if xs != [] {
      var tail := xs[1..];
      var rest := Filter(tail, keep);
      assert DistinctKeys(tail, key) by {
        forall i, j | 0 <= i < j < |tail| ensures key(tail[i]) != key(tail[j]) {
          assert tail[i] == xs[i + 1] && tail[j] == xs[j + 1];
        }
      }
      FilterDistinct(tail, keep, key);
      if keep(xs[0]) {
        FilterSpec(tail, keep);
        assert key(xs[0]) !in KeysOf(rest, key) by {
          forall y | y in rest
            ensures key(y) != key(xs[0])
          {
            assert y in tail;
            var j :| 0 <= j < |tail| && tail[j] == y;
            assert tail[j] == xs[j + 1];
          }
        }
        DistinctKeysCons(xs[0], rest, key);
      }
    }
  }

  // ---------------------------------------------------------------- KeepFirst

  /**
    What KeepFirst keeps: a subsequence of its input whose keys are pairwise distinct,
    avoid `seen`, and are exactly the input's keys that were not seen already.
   */
  lemma {:induction false} KeepFirstSpec<T, K>(xs: seq<T>, key: T -> K, seen: set<K>)
    ensures IsSubsequence(KeepFirst(xs, key, seen), xs)
    ensures DistinctKeys(KeepFirst(xs, key, seen), key)
    ensures KeysOf(KeepFirst(xs, key, seen), key) == KeysOf(xs, key) - seen
    decreases |xs|
  {
    if xs == [] {
    } else {
      var x := xs[0];
      assert xs == [x] + xs[1..];
      KeysOfCons(x, xs[1..], key);
      if key(x) in seen {
        KeepFirstSpec(xs[1..], key, seen);
        SubsequenceSkip(x, KeepFirst(xs[1..], key, seen), xs[1..]);
      } else {
        var rest := KeepFirst(xs[1..], key, seen + {key(x)});
        KeepFirstSpec(xs[1..], key, seen + {key(x)});
        SubsequenceCons(x, rest, xs[1..]);
        DistinctKeysCons(x, rest, key);
        KeysOfCons(x, rest, key);
      }
    }
  }

  /** Prefix form of the first-occurrence characterisation. */
  lemma {:induction false} KeepFirstAfterPrefix<T, K>(p: seq<T>, s: seq<T>, key: T -> K)
    ensures FirstOccurrences(p + s, key) == FirstOccurrences(p, key) + KeepFirst(s, key, KeysOf(p, key))
    decreases |s|
  {
    if s == [] {
      assert p + s == p;
    } else {
      var x := s[0];
      var p' := p + [x];
      assert p + s == p' + s[1..];
      KeepFirstAfterPrefix(p', s[1..], key);
      assert p'[..|p'| - 1] == p && p'[|p'| - 1] == x;
      KeysOfSnoc(p, x, key);
      KeysOfIndex(p, key, key(x));
      var seen := KeysOf(p, key);
      if key(x) in seen {
        assert KeysOf(p', key) == seen;
        assert FirstOccurrences(p', key) == FirstOccurrences(p, key);
        assert KeepFirst(s, key, seen) == KeepFirst(s[1..], key, seen);
      } else {
        assert FirstOccurrences(p', key) == FirstOccurrences(p, key) + [x];
        assert KeepFirst(s, key, seen) == [x] + KeepFirst(s[1..], key, seen + {key(x)});
      }
    }
  }

  /** KeepFirst from an empty `seen` keeps exactly the first occurrence of every key. */
  lemma KeepFirstIsFirstOccurrences<T, K>(xs: seq<T>, key: T -> K)
    ensures KeepFirst(xs, key, {}) == FirstOccurrences(xs, key)
  {
    KeepFirstAfterPrefix([], xs, key);
    assert [] + xs == xs;
    assert KeysOf([], key) == {};
  }

  /** A sequence whose keys are already distinct and unseen is kept whole. */
  lemma {:induction false} KeepFirstOfDistinct<T, K>(xs: seq<T>, key: T -> K, seen: set<K>)
    requires DistinctKeys(xs, key)
    requires forall i :: 0 <= i < |xs| ==> key(xs[i]) !in seen
    ensures KeepFirst(xs, key, seen) == xs
    decreases |xs|
  {
    if xs != [] {
      assert forall i :: 1 <= i < |xs| ==> key(xs[i]) != key(xs[0]);
      assert DistinctKeys(xs[1..], key) by {
        forall i, j | 0 <= i < j < |xs[1..]| ensures key(xs[1..][i]) != key(xs[1..][j]) {
          assert xs[1..][i] == xs[i + 1] && xs[1..][j] == xs[j + 1];
        }
      }
      KeepFirstOfDistinct(xs[1..], key, seen + {key(xs[0])});
      assert xs == [xs[0]] + xs[1..];
    }
  }

  /**
    De-duplication followed by a filter: the result is a subsequence of the input whose
    keys are pairwise distinct and whose elements all pass the filter, and it is the
    filter applied to the first occurrences.
   */
  lemma KeepFirstThenFilter<T, K>(xs: seq<T>, key: T -> K, keep: T -> bool)
    ensures var out := Filter(KeepFirst(xs, key, {}), keep);
      && IsSubsequence(out, xs)
      && DistinctKeys(out, key)
      && (forall i :: 0 <= i < |out| ==> keep(out[i]))
      && out == Filter(FirstOccurrences(xs, key), keep)
  {
    var kept := KeepFirst(xs, key, {});
    var out := Filter(kept, keep);
    KeepFirstSpec(xs, key, {});
    FilterSpec(kept, keep);
    SubsequenceTransitive(out, kept, xs);
    FilterDistinct(kept, keep, key);
    KeepFirstIsFirstOccurrences(xs, key);
    forall i | 0 <= i < |out| ensures keep(out[i]) {
      assert out[i] in out;
    }
  }
}
