/**
  `standardize_columns`: every column label is stripped of surrounding whitespace,
  lower-cased, and each maximal run of non-word characters is replaced by one `_`.
  Characters are classified with ASCII rules (see IsSpace, IsUpper, IsWordChar).
 */
module ColumnNames {
  import opened Frames
  import RowFilters

  /** The ASCII characters `str.strip()` removes: tab, line feed, vertical tab, form feed,
      carriage return, the separators 0x1C-0x1F, and the space. */
  predicate IsSpace(c: char)
  {
    c == ' ' || 9 <= c as int <= 13 || 28 <= c as int <= 31
  }

  predicate IsUpper(c: char)
  {
    'A' <= c <= 'Z'
  }

  /** A regular-expression word character (`\w`): letter, digit or underscore. */
  predicate IsWordChar(c: char)
  {
    'a' <= c <= 'z' || 'A' <= c <= 'Z' || '0' <= c <= '9' || c == '_'
  }

  /** A letter or digit, i.e. a word character other than the underscore. */
  predicate IsAlnum(c: char)
  {
    IsWordChar(c) && c != '_'
  }

  /** What a standardized label is made of: lower-case letters, digits and `_`. */
  predicate IsNameChar(c: char)
  {
    'a' <= c <= 'z' || '0' <= c <= '9' || c == '_'
  }

  function ToLower(c: char): (r: char)
    ensures !IsUpper(r)
    ensures IsUpper(c) ==> r as int == c as int + 32
    ensures !IsUpper(c) ==> r == c
  {
    if IsUpper(c) then (c as int + 32) as char else c
  }

  /** `str.lstrip()`: drops the leading whitespace and nothing else. */
  function TrimStart(s: string): (r: string)
    ensures |r| <= |s| && r == s[|s| - |r|..]
    ensures forall k :: 0 <= k < |s| - |r| ==> IsSpace(s[k])
    ensures r == [] || !IsSpace(r[0])
  {
    if s != [] && IsSpace(s[0]) then TrimStart(s[1..]) else s
  }

  /** `str.rstrip()`: drops the trailing whitespace and nothing else. */
  function TrimEnd(s: string): (r: string)
    ensures |r| <= |s| && r == s[..|r|]
    ensures forall k :: |r| <= k < |s| ==> IsSpace(s[k])
    ensures r == [] || !IsSpace(r[|r| - 1])
  {
    if s != [] && IsSpace(s[|s| - 1]) then TrimEnd(s[..|s| - 1]) else s
  }

  /** `str.strip()`: the slice of `s` left after cutting the leading whitespace (its
      length is |s| - |TrimStart(s)|) and the trailing whitespace; it neither starts
      nor ends with whitespace. */
  function Strip(s: string): (r: string)
    ensures |TrimStart(s)| <= |s| && |r| <= |TrimStart(s)|
    ensures r == s[|s| - |TrimStart(s)|..|s| - |TrimStart(s)| + |r|]
    ensures forall k :: 0 <= k < |s| - |TrimStart(s)| ==> IsSpace(s[k])
    ensures forall k :: |s| - |TrimStart(s)| + |r| <= k < |s| ==> IsSpace(s[k])
    ensures r == [] || (!IsSpace(r[0]) && !IsSpace(r[|r| - 1]))
  {
    var t := TrimStart(s);
    var r := TrimEnd(t);
    StripSlice(s, t, r);
    r
  }

  /** A prefix `r` of a suffix `t` of `s`, followed in `t` by whitespace only, is a
      slice of `s` followed in `s` by whitespace only. */
  lemma StripSlice(s: string, t: string, r: string)
    requires |t| <= |s| && t == s[|s| - |t|..]
    requires |r| <= |t| && r == t[..|r|]
    requires forall k :: |r| <= k < |t| ==> IsSpace(t[k])
    ensures var i := |s| - |t|;
      && r == s[i..i + |r|]
      && (forall k :: i + |r| <= k < |s| ==> IsSpace(s[k]))
  {
    var i := |s| - |t|;
    assert forall j :: 0 <= j < |t| ==> t[j] == s[i + j];
    forall k | i + |r| <= k < |s|
      ensures IsSpace(s[k])
    {
      assert s[k] == t[k - i];
    }
  }

  /** A label that neither starts nor ends with whitespace is left as it is. */
  lemma StripNoSpaceAtEnds(s: string)
    requires s == [] || (!IsSpace(s[0]) && !IsSpace(s[|s| - 1]))
    ensures Strip(s) == s
  {
    assert TrimStart(s) == s;
    assert TrimEnd(s) == s;
  }

  /** `str.lower()` on ASCII letters. */
  function Lower(s: string): string
  {
    seq(|s|, i requires 0 <= i < |s| => ToLower(s[i]))
  }

  /** Scans `s` left to right: word characters are copied, and a non-word character
      emits `_` only when it starts a run (`inRun` says the previous character was
      non-word), so that every maximal run of non-word characters becomes one `_`. */
  function ReplaceRuns(s: string, inRun: bool): string
  {
    if s == [] then []
    else if IsWordChar(s[0]) then [s[0]] + ReplaceRuns(s[1..], false)
    else (if inRun then [] else "_") + ReplaceRuns(s[1..], true)
  }

  /** `re.sub(r"[^\w]+", "_", s)`. */
  function ReplaceNonWordRuns(s: string): string
  {
    ReplaceRuns(s, false)
  }

  /** One column label through strip, lower and the run replacement, in that order. */
  function Normalize(name: string): string
  {
    ReplaceNonWordRuns(Lower(Strip(name)))
  }

  function NormalizeAll(names: seq<string>): (r: seq<string>)
    ensures |r| == |names|
    ensures forall j :: 0 <= j < |names| ==> r[j] == Normalize(names[j])
  {
    seq(|names|, j requires 0 <= j < |names| => Normalize(names[j]))
  }

  /** `standardize_columns`: a new frame whose labels are normalized, one for one and in
      the same order, with the rows untouched. */
  function StandardizeColumns(f: Frame): (r: Frame)
    ensures r.rows == f.rows
    ensures |r.columns| == |f.columns|
    ensures forall j :: 0 <= j < |f.columns| ==> r.columns[j] == Normalize(f.columns[j])
    ensures WellFormed(f) ==> WellFormed(r)
  {
    Frame(NormalizeAll(f.columns), f.rows)
  }

  // ---------------------------------------------------------------- lemmas

  /** The output of the run replacement consists of word characters only; lower case
      and digits stay lower case and digits. */
  lemma {:induction false} ReplaceRunsAlphabet(s: string, inRun: bool)
    requires forall k :: 0 <= k < |s| ==> !IsUpper(s[k])
    ensures forall k :: 0 <= k < |ReplaceRuns(s, inRun)| ==> IsNameChar(ReplaceRuns(s, inRun)[k])
    ensures |ReplaceRuns(s, inRun)| <= |s|
    decreases |s|
  {
    if s != [] {
      var b := !IsWordChar(s[0]);
      ReplaceRunsAlphabet(s[1..], b);
    }
  }

  /** A standardized label contains only lower-case ASCII letters, digits and `_`:
      no whitespace, no upper case, no punctuation. */
  lemma NormalizeAlphabet(name: string)
    ensures forall k :: 0 <= k < |Normalize(name)| ==> IsNameChar(Normalize(name)[k])
    ensures forall k :: 0 <= k < |Normalize(name)| ==>
      !IsSpace(Normalize(name)[k]) && !IsUpper(Normalize(name)[k])
    ensures |Normalize(name)| <= |name|
  {
    ReplaceRunsAlphabet(Lower(Strip(name)), false);
  }

  /** A word character is copied and ends any run. */
  lemma ReplaceRunsWordHead(c: char, rest: string, inRun: bool)
    requires IsWordChar(c)
    ensures ReplaceRuns([c] + rest, inRun) == [c] + ReplaceRuns(rest, false)
  {
    assert ([c] + rest)[0] == c && ([c] + rest)[1..] == rest;
  }

  /** A string made of word characters passes the run replacement unchanged. */
  lemma {:induction false} ReplaceRunsOfWord(w: string, rest: string, inRun: bool)
    requires forall k :: 0 <= k < |w| ==> IsWordChar(w[k])
    ensures ReplaceRuns(w + rest, inRun) == if w == [] then ReplaceRuns(rest, inRun) else w + ReplaceRuns(rest, false)
    decreases |w|
  {
    if w == [] {
      assert w + rest == rest;
    } else {
      var v := w[1..];
      assert w == [w[0]] + v;
      RowFilters.AppendAssoc([w[0]], v, rest);
      ReplaceRunsWordHead(w[0], v + rest, inRun);
      ReplaceRunsOfWord(v, rest, false);
      var tail := ReplaceRuns(rest, false);
      if v == [] {
        assert w == [w[0]];
      } else {
        RowFilters.AppendAssoc([w[0]], v, tail);
      }
    }
  }

  /** A non-empty run of non-word characters yields at most one `_`: exactly one when it
      does not continue a run. */
  lemma {:induction false} ReplaceRunsOfRun(n: string, rest: string, inRun: bool)
    requires n != []
    requires forall k :: 0 <= k < |n| ==> !IsWordChar(n[k])
    ensures ReplaceRuns(n + rest, inRun) == (if inRun then "" else "_") + ReplaceRuns(rest, true)
    decreases |n|
  {
    assert (n + rest)[0] == n[0] && (n + rest)[1..] == n[1..] + rest;
    if |n| > 1 {
      ReplaceRunsOfRun(n[1..], rest, true);
    } else {
      assert n[1..] + rest == rest;
    }
  }

  /** Word characters are copied through the replacement. */
  lemma ReplaceNonWordRunsWordPrefix(w: string, rest: string)
    requires forall k :: 0 <= k < |w| ==> IsWordChar(w[k])
    ensures ReplaceNonWordRuns(w + rest) == w + ReplaceNonWordRuns(rest)
  {
    ReplaceRunsOfWord(w, rest, false);
    assert [] + ReplaceNonWordRuns(rest) == ReplaceNonWordRuns(rest);
  }

  /** A maximal run of non-word characters (one followed by a word character or by the
      end) becomes exactly one `_`. */
  lemma ReplaceNonWordRunsMaximalRun(n: string, rest: string)
    requires n != []
    requires forall k :: 0 <= k < |n| ==> !IsWordChar(n[k])
    requires rest == [] || IsWordChar(rest[0])
    ensures ReplaceNonWordRuns(n + rest) == "_" + ReplaceNonWordRuns(rest)
  {
    ReplaceRunsOfRun(n, rest, false);
  }

  /** Letters and digits survive the replacement in order, and no other letter or digit
      appears: only underscores are added or merged. */
  lemma {:induction false} ReplaceRunsKeepsAlnums(s: string, inRun: bool)
    ensures RowFilters.Filter(ReplaceRuns(s, inRun), IsAlnum) == RowFilters.Filter(s, IsAlnum)
    decreases |s|
  {
    if s != [] {
      ReplaceRunsKeepsAlnums(s[1..], !IsWordChar(s[0]));
      var tail := ReplaceRuns(s[1..], !IsWordChar(s[0]));
      if IsWordChar(s[0]) {
        assert ([s[0]] + tail)[0] == s[0] && ([s[0]] + tail)[1..] == tail;
      } else if !inRun {
        assert ("_" + tail)[0] == '_' && ("_" + tail)[1..] == tail;
      } else {
        assert [] + tail == tail;
      }
    }
  }

  lemma NormalizeKeepsAlnums(name: string)
    ensures RowFilters.Filter(Normalize(name), IsAlnum) == RowFilters.Filter(Lower(Strip(name)), IsAlnum)
  {
    ReplaceRunsKeepsAlnums(Lower(Strip(name)), false);
  }

  /** A label already made of lower-case letters, digits and `_` is its own normal form. */
  lemma NormalizeFixedPoint(name: string)
    requires forall k :: 0 <= k < |name| ==> IsNameChar(name[k])
    ensures Normalize(name) == name
  {
    assert TrimStart(name) == name;
    assert TrimEnd(name) == name;
    assert Lower(name) == name;
    ReplaceRunsOfWord(name, [], false);
    assert name + [] == name;
  }

  /** The fixed points of Normalize are exactly the labels over lower-case letters,
      digits and `_`. */
  lemma NormalizeFixedPointIff(name: string)
    ensures Normalize(name) == name <==> forall k :: 0 <= k < |name| ==> IsNameChar(name[k])
  {
    NormalizeAlphabet(name);
    if forall k :: 0 <= k < |name| ==> IsNameChar(name[k]) {
      NormalizeFixedPoint(name);
    }
  }

  /** Standardizing an already standardized label changes nothing. */
  lemma NormalizeIdempotent(name: string)
    ensures Normalize(Normalize(name)) == Normalize(name)
  {
    NormalizeAlphabet(name);
    NormalizeFixedPoint(Normalize(name));
  }

  /** Standardizing a frame twice is the same as once, and keeps rows and column count. */
  lemma StandardizeColumnsIdempotent(f: Frame)
    ensures StandardizeColumns(StandardizeColumns(f)) == StandardizeColumns(f)
  {
    var g := StandardizeColumns(f);
    forall j | 0 <= j < |f.columns|
      ensures Normalize(g.columns[j]) == g.columns[j]
    {
      NormalizeIdempotent(f.columns[j]);
    }
  }

  /** A frame whose labels are already over lower-case letters, digits and `_` is left
      as it is. */
  lemma StandardizeColumnsFixedPoint(f: Frame)
    requires forall j, k :: 0 <= j < |f.columns| && 0 <= k < |f.columns[j]| ==> IsNameChar(f.columns[j][k])
    ensures StandardizeColumns(f) == f
  {
    var g := StandardizeColumns(f);
    forall j | 0 <= j < |f.columns|
      ensures g.columns[j] == f.columns[j]
    {
      NormalizeFixedPoint(f.columns[j]);
    }
  }

  // ---------------------------------------------------------------- worked examples

  /** Whitespace is stripped before the run replacement, so the trailing `!` still
      becomes `_`. */
  lemma ExampleOrderId()
    ensures Normalize("  Order ID! ") == "order_id_"
  {
    ExampleOrderIdStrip();
    ExampleOrderIdLower();
    ExampleOrderIdReplace();
  }

  lemma ExampleOrderIdReplace()
    ensures ReplaceNonWordRuns("order id!") == "order_id_"
  {
    ExampleSpaceIdReplace();
    assert "order" + " id!" == "order id!";
    ReplaceNonWordRunsWordPrefix("order", " id!");
  }

  lemma ExampleSpaceIdReplace()
    ensures ReplaceNonWordRuns(" id!") == "_id_"
  {
    ExampleIdReplace();
    assert " " + "id!" == " id!";
    ReplaceNonWordRunsMaximalRun(" ", "id!");
  }

  lemma ExampleIdReplace()
    ensures ReplaceNonWordRuns("id!") == "id_"
  {
    ReplaceNonWordRunsMaximalRun("!", "");
    assert "!" + "" == "!";
    assert "id" + "!" == "id!";
    ReplaceNonWordRunsWordPrefix("id", "!");
  }

  lemma ExampleOrderIdStrip()
    ensures Strip("  Order ID! ") == "Order ID!"
  {
    ExampleOrderIdTrimStart();
    ExampleOrderIdTrimEnd();
  }

  lemma ExampleOrderIdTrimStart()
    ensures TrimStart("  Order ID! ") == "Order ID! "
  {
    var s := "  Order ID! ";
    assert IsSpace(s[0]) && s[1..] == " Order ID! ";
    assert IsSpace(s[1..][0]) && s[1..][1..] == "Order ID! ";
    assert !IsSpace("Order ID! "[0]);
  }

  lemma ExampleOrderIdTrimEnd()
    ensures TrimEnd("Order ID! ") == "Order ID!"
  {
    var t := "Order ID! ";
    assert IsSpace(t[|t| - 1]) && t[..|t| - 1] == "Order ID!";
    assert !IsSpace("Order ID!"[8]);
  }

  lemma ExampleOrderIdLower()
    ensures Lower("Order ID!") == "order id!"
  {
  }

  /** Normalized labels need not be unique: two different labels can collide. */
  lemma ExampleCollision()
    ensures Normalize("A b") == Normalize("a-b") == "a_b"
  {
    ExampleSpaceSeparated();
    ExampleDashSeparated();
  }

  lemma ExampleSpaceSeparated()
    ensures Normalize("A b") == "a_b"
  {
    StripNoSpaceAtEnds("A b");
    assert Lower("A b") == "a b";
    ReplaceNonWordRunsWordPrefix("b", "");
    ReplaceNonWordRunsMaximalRun(" ", "b");
    ReplaceNonWordRunsWordPrefix("a", " b");
  }

  lemma ExampleDashSeparated()
    ensures Normalize("a-b") == "a_b"
  {
    StripNoSpaceAtEnds("a-b");
    assert Lower("a-b") == "a-b";
    ReplaceNonWordRunsWordPrefix("b", "");
    ReplaceNonWordRunsMaximalRun("-", "b");
    ReplaceNonWordRunsWordPrefix("a", "-b");
  }

  /** A label of punctuation only becomes a single `_`; a blank label becomes empty. */
  lemma ExamplePunctuationAndBlank()
    ensures Normalize("?!-") == "_"
    ensures Normalize(" \t ") == ""
  {
    ExamplePunctuation();
    ExampleBlank();
  }

  lemma ExamplePunctuation()
    ensures Normalize("?!-") == "_"
  {
    StripNoSpaceAtEnds("?!-");
    assert Lower("?!-") == "?!-";
    ReplaceNonWordRunsMaximalRun("?!-", "");
  }

  lemma ExampleBlank()
    ensures Normalize(" \t ") == ""
  {
    assert Strip(" \t ") == "";
  }
}
