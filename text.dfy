/** `TextColumn`: the counters of a column of strings. Python's `str`
    predicates are modelled over ASCII: whitespace is what `str.isspace`
    accepts below code 128 (tab to carriage return, the four separators
    0x1c-0x1f, and space), letters are `a`-`z` and `A`-`Z`, digits `0`-`9`.
    A missing row makes every `.str` predicate NaN, which `sum()` skips. */
module Text {
  import opened Sequences
  import opened Column
  import Frequency

  predicate IsSpace(c: char) { 9 <= c as int <= 13 || 28 <= c as int <= 32 }
  predicate IsLowerChar(c: char) { 'a' <= c <= 'z' }
  predicate IsUpperChar(c: char) { 'A' <= c <= 'Z' }
  predicate IsDigitChar(c: char) { '0' <= c <= '9' }
  predicate IsAlphaChar(c: char) { IsLowerChar(c) || IsUpperChar(c) }

  /** `str.isspace()`: non-empty and whitespace only. */
  predicate IsWhitespace(s: string)
  {
    |s| > 0 && forall i :: 0 <= i < |s| ==> IsSpace(s[i])
  }

  /** `str.islower()`: some cased character, and every cased one lower. */
  predicate IsLower(s: string)
  {
    (exists i :: 0 <= i < |s| && IsLowerChar(s[i])) && forall i :: 0 <= i < |s| ==> !IsUpperChar(s[i])
  }

  /** `str.isupper()`: some cased character, and every cased one upper. */
  predicate IsUpper(s: string)
  {
    (exists i :: 0 <= i < |s| && IsUpperChar(s[i])) && forall i :: 0 <= i < |s| ==> !IsLowerChar(s[i])
  }

  /** `str.isalpha()`: non-empty and letters only. */
  predicate IsAlpha(s: string)
  {
    |s| > 0 && forall i :: 0 <= i < |s| ==> IsAlphaChar(s[i])
  }

  /** `str.isdigit()`: non-empty and digits only. */
  predicate IsDigit(s: string)
  {
    |s| > 0 && forall i :: 0 <= i < |s| ==> IsDigitChar(s[i])
  }

  predicate HasSpace(s: string) { exists i :: 0 <= i < |s| && IsSpace(s[i]) }

  /** `str.lstrip()`: drops the leading whitespace, keeping the rest. */
  function LStrip(s: string): (r: string)
    ensures |r| <= |s| && r == s[|s| - |r|..]
    ensures forall i :: 0 <= i < |s| - |r| ==> IsSpace(s[i])
    ensures |r| > 0 ==> !IsSpace(r[0])
  {
    if |s| > 0 && IsSpace(s[0]) then
      var r := LStrip(s[1..]);
      assert s[1..][|s| - 1 - |r|..] == s[|s| - |r|..];
      assert forall i :: 1 <= i < |s| ==> s[i] == s[1..][i - 1];
      r
    else s
  }

  /** `str.rstrip()`: drops the trailing whitespace, keeping the rest. */
  function RStrip(s: string): (r: string)
    ensures |r| <= |s| && r == s[..|r|]
    ensures forall i :: |r| <= i < |s| ==> IsSpace(s[i])
    ensures |r| > 0 ==> !IsSpace(r[|r| - 1])
  {
    if |s| > 0 && IsSpace(s[|s| - 1]) then
      var r := RStrip(s[..|s| - 1]);
      assert s[..|s| - 1][..|r|] == s[..|r|];
      assert forall i :: 0 <= i < |s| - 1 ==> s[i] == s[..|s| - 1][i];
      r
    else s
  }

  /** `str.strip()`: drops whitespace at both ends. The result is a slice
      of `s` that neither starts nor ends with whitespace, and everything
      before and after that slice is whitespace. */
  function Strip(s: string): (r: string)
    ensures |r| <= |s|
    ensures |r| > 0 ==> !IsSpace(r[0]) && !IsSpace(r[|r| - 1])
    ensures exists a :: (0 <= a <= |s| - |r| && r == s[a..][..|r|] &&
      (forall i :: 0 <= i < a ==> IsSpace(s[i])) && (forall i :: a + |r| <= i < |s| ==> IsSpace(s[i])))
  {
    var l := LStrip(s);
    var r := RStrip(l);
    BetweenSpaces(s, l, r);
    r
  }

  /** A prefix `r` of a suffix `l` of `s`, with only whitespace cut off on
      either side, is a slice of `s` between two runs of whitespace. */
  lemma BetweenSpaces(s: string, l: string, r: string)
    requires |l| <= |s| && l == s[|s| - |l|..]
    requires forall i :: 0 <= i < |s| - |l| ==> IsSpace(s[i])
    requires |r| <= |l| && r == l[..|r|]
    requires forall i :: |r| <= i < |l| ==> IsSpace(l[i])
    ensures exists a :: (0 <= a <= |s| - |r| && r == s[a..][..|r|] &&
      (forall i :: 0 <= i < a ==> IsSpace(s[i])) && (forall i :: a + |r| <= i < |s| ==> IsSpace(s[i])))
  {
    var a := |s| - |l|;
    forall i | a + |r| <= i < |s| ensures IsSpace(s[i]) {
      assert s[i] == l[i - a];
    }
    assert r == s[a..][..|r|];
  }

  /** Stripping leaves nothing exactly when the string is empty or made of
      whitespace only. */
  lemma StripEmpty(s: string)
    ensures Strip(s) == "" <==> s == "" || IsWhitespace(s)
  {
    var l := LStrip(s);
    if Strip(s) == "" && |l| > 0 {
      assert false;
    }
    if IsWhitespace(s) && |l| > 0 {
      assert false;
    }
  }

  /** `get_empty` as written: `(serie.str.strip().values == "").sum()`, which
      also counts the whitespace-only strings. */
  function EmptyAsWritten(col: Series<string>): (r: nat)
    ensures r == CountIf(col, s => s == "") + Whitespace(col)
  {
    forall s: string ensures (Strip(s) == "") == (s == "" || IsWhitespace(s)) {
      StripEmpty(s);
    }
    CountIfSplit(col, s => Strip(s) == "", s => s == "", IsWhitespace);
    CountIf(col, s => Strip(s) == "")
  }

  /** The number of rows holding the empty string, which is what the method's
      name and its test ask for. */
  function Empty(col: Series<string>): (r: nat)
    ensures r == |set i | 0 <= i < |col| && col[i] == Some("")|
    ensures r + Whitespace(col) <= NonMissing(col)
  {
    var e := (s: string) => s == "";
    assert Indices(col, Holds(e)) == set i | 0 <= i < |col| && col[i] == Some("");
    CountIfDisjoint(col, e, IsWhitespace);
    CountIf(col, e)
  }

  /** The as-written count exceeds the empty-string count by exactly the
      whitespace-only rows. */
  lemma EmptyAsWrittenOvercounts(col: Series<string>)
    ensures EmptyAsWritten(col) == Empty(col) + Whitespace(col)
  {
    assert Empty(col) == CountIf(col, s => s == "");
  }

  /** A single-space column: the as-written count reports one empty row
      where there is none. */
  lemma EmptyAsWrittenCountsSpace()
    ensures EmptyAsWritten([Some(" ")]) == 1
    ensures Empty([Some(" ")]) == 0
  {
    var col: Series<string> := [Some(" ")];
    assert IsWhitespace(" ");
    assert (set i | 0 <= i < |col| && col[i] == Some("")) == {};
    assert CountIf(col, s => s == "") == 0;
    assert Whitespace(col) == 1 by {
      assert col[..0] == [];
    }
  }

  /** `str.isspace().sum()`: the non-empty, whitespace-only rows. */
  function Whitespace(col: Series<string>): (r: nat)
    ensures r == |set i | 0 <= i < |col| && col[i].Some? && IsWhitespace(col[i].value)|
    ensures r <= NonMissing(col)
  {
    assert Indices(col, Holds(IsWhitespace)) == set i | 0 <= i < |col| && col[i].Some? && IsWhitespace(col[i].value);
    CountIf(col, IsWhitespace)
  }

  /** `str.islower().sum()`. */
  function Lowercase(col: Series<string>): (r: nat)
    ensures r == |set i | 0 <= i < |col| && col[i].Some? && IsLower(col[i].value)|
  {
    assert Indices(col, Holds(IsLower)) == set i | 0 <= i < |col| && col[i].Some? && IsLower(col[i].value);
    CountIf(col, IsLower)
  }

  /** `str.isupper().sum()`. */
  function Uppercase(col: Series<string>): (r: nat)
    ensures r == |set i | 0 <= i < |col| && col[i].Some? && IsUpper(col[i].value)|
  {
    assert Indices(col, Holds(IsUpper)) == set i | 0 <= i < |col| && col[i].Some? && IsUpper(col[i].value);
    CountIf(col, IsUpper)
  }

  /** `str.isalpha().sum()`. */
  function Alphabet(col: Series<string>): (r: nat)
    ensures r == |set i | 0 <= i < |col| && col[i].Some? && IsAlpha(col[i].value)|
  {
    assert Indices(col, Holds(IsAlpha)) == set i | 0 <= i < |col| && col[i].Some? && IsAlpha(col[i].value);
    CountIf(col, IsAlpha)
  }

  /** `str.isdigit().sum()`. */
  function Digit(col: Series<string>): (r: nat)
    ensures r == |set i | 0 <= i < |col| && col[i].Some? && IsDigit(col[i].value)|
  {
    assert Indices(col, Holds(IsDigit)) == set i | 0 <= i < |col| && col[i].Some? && IsDigit(col[i].value);
    CountIf(col, IsDigit)
  }

  /** Both case counters need a cased character, so no string is counted
      by both, nor is any whitespace-only string. */
  lemma CaseCounts(col: Series<string>)
    ensures Lowercase(col) + Uppercase(col) <= NonMissing(col)
    ensures Lowercase(col) + Whitespace(col) <= NonMissing(col)
    ensures Uppercase(col) + Whitespace(col) <= NonMissing(col)
  {
    forall s: string ensures !(IsLower(s) && IsUpper(s)) {
      if IsLower(s) {
        var i :| 0 <= i < |s| && IsLowerChar(s[i]);
      }
    }
    CountIfDisjoint(col, IsLower, IsUpper);
    forall s: string ensures !(IsLower(s) && IsWhitespace(s)) {
      if IsLower(s) {
        var i :| 0 <= i < |s| && IsLowerChar(s[i]);
      }
    }
    CountIfDisjoint(col, IsLower, IsWhitespace);
    forall s: string ensures !(IsUpper(s) && IsWhitespace(s)) {
      if IsUpper(s) {
        var i :| 0 <= i < |s| && IsUpperChar(s[i]);
      }
    }
    CountIfDisjoint(col, IsUpper, IsWhitespace);
  }

  /** Letters and digits exclude each other, and neither counter counts a
      string holding whitespace. */
  lemma ClassCounts(col: Series<string>)
    ensures Alphabet(col) + Digit(col) <= NonMissing(col)
    ensures Alphabet(col) + CountIf(col, HasSpace) <= NonMissing(col)
    ensures Digit(col) + CountIf(col, HasSpace) <= NonMissing(col)
  {
    forall s: string ensures !(IsAlpha(s) && IsDigit(s)) {
      if IsAlpha(s) {
        assert IsAlphaChar(s[0]);
      }
    }
    CountIfDisjoint(col, IsAlpha, IsDigit);
    forall s: string ensures !(IsAlpha(s) && HasSpace(s)) {
      if HasSpace(s) {
        var i :| 0 <= i < |s| && IsSpace(s[i]);
      }
    }
    CountIfDisjoint(col, IsAlpha, HasSpace);
    forall s: string ensures !(IsDigit(s) && HasSpace(s)) {
      if HasSpace(s) {
        var i :| 0 <= i < |s| && IsSpace(s[i]);
      }
    }
    CountIfDisjoint(col, IsDigit, HasSpace);
  }

  /** Python's string order: code point by code point, a proper prefix
      first. */
  predicate Less(a: string, b: string)
  {
    if |a| == 0 then |b| > 0
    else if |b| == 0 then false
    else if a[0] != b[0] then a[0] < b[0]
    else Less(a[1..], b[1..])
  }

  lemma {:induction false} LessIrreflexive(a: string)
    ensures !Less(a, a)
  {
    if |a| > 0 {
      LessIrreflexive(a[1..]);
    }
  }

  lemma {:induction false} LessTransitive(a: string, b: string, c: string)
    requires Less(a, b) && Less(b, c)
    ensures Less(a, c)
  {
    if |a| > 0 && |b| > 0 && |c| > 0 && a[0] == b[0] && b[0] == c[0] {
      LessTransitive(a[1..], b[1..], c[1..]);
    }
  }

  lemma {:induction false} LessTotal(a: string, b: string)
    requires a != b
    ensures Less(a, b) || Less(b, a)
  {
    if |a| > 0 && |b| > 0 && a[0] == b[0] {
      assert a[1..] != b[1..];
      LessTotal(a[1..], b[1..]);
    }
  }

  predicate StrictlySorted(s: seq<string>)
  {
    forall i, j :: 0 <= i < j < |s| ==> Less(s[i], s[j])
  }

  /** Puts `x` into its place in a strictly sorted sequence, unless it is
      already there. */
  function InsertSorted(x: string, s: seq<string>): (r: seq<string>)
    requires StrictlySorted(s)
    ensures StrictlySorted(r)
    ensures forall v :: v in r <==> v == x || v in s
  {
    if |s| == 0 then [x]
    else if x == s[0] then s
    else if Less(x, s[0]) then
      forall j | 0 < j < |s| ensures Less(x, s[j]) {
        LessTransitive(x, s[0], s[j]);
      }
      [x] + s
    else
      LessTotal(x, s[0]);
      var rest := InsertSorted(x, s[1..]);
      assert forall v :: v in s <==> v == s[0] || v in s[1..] by {
        assert s == [s[0]] + s[1..];
      }
      forall v | v in rest ensures Less(s[0], v) {
        if v != x {
          var j :| 0 <= j < |s[1..]| && s[1..][j] == v;
          assert s[j + 1] == v;
        }
      }
      [s[0]] + rest
  }

  /** The distinct elements of `s` in Python's string order. */
  function SortedSet(s: seq<string>): (r: seq<string>)
    ensures StrictlySorted(r)
    ensures forall v :: v in r <==> v in s
  {
    if |s| == 0 then []
    else
      var k := |s| - 1;
      assert s == s[..k] + [s[k]];
      InsertSorted(s[k], SortedSet(s[..k]))
  }

  /** The largest number of occurrences of any value (0 when none). */
  function TopCount(col: Series<string>): (m: nat)
    ensures forall v :: Some(v) in col ==> Occurrence(col, v) <= m
    ensures NonMissing(col) > 0 ==> exists v :: Some(v) in col && Occurrence(col, v) == m
  {
    var es := Frequency.Occurrences(col);
    if |es| == 0 then 0
    else
      forall v | Some(v) in col ensures Occurrence(col, v) <= es[0].occurrence {
        var i :| 0 <= i < |es| && es[i].value == v;
        if i > 0 {
          assert es[0].occurrence >= es[i].occurrence;
        }
      }
      assert es[0].occurrence == Occurrence(col, es[0].value) > 0;
      assert es[0].value in multiset(Present(col));
      es[0].occurrence
  }

  /** `serie.mode(dropna=True)`: every value whose number of occurrences is
      the largest, in sorted order; empty when the column holds no value. */
  function Modes(col: Series<string>): (r: seq<string>)
    ensures StrictlySorted(r)
    ensures forall v :: v in r <==>
      Some(v) in col && forall w :: Some(w) in col ==> Occurrence(col, w) <= Occurrence(col, v)
    ensures r == [] <==> NonMissing(col) == 0
  {
    var m := TopCount(col);
    var p := Present(col);
    var top := FilterBy(p, p, v => Occurrence(col, v) == m);
    var r := SortedSet(top);
    if NonMissing(col) > 0 then
      TopCountReached(col, r, m);
      r
    else r
  }

  lemma TopCountReached(col: Series<string>, r: seq<string>, m: nat)
    requires NonMissing(col) > 0
    requires exists v :: Some(v) in col && Occurrence(col, v) == m
    requires forall v :: v in r <==> Some(v) in col && Occurrence(col, v) == m
    ensures r != []
  {
    var v :| Some(v) in col && Occurrence(col, v) == m;
    assert v in r;
  }

  /** An empty or all-missing column has no counts, no mode and an empty
      frequency table. */
  lemma {:induction false} NoValues(col: Series<string>)
    requires forall i :: 0 <= i < |col| ==> col[i].None?
    ensures Missing(col) == |col| && Unique(col) == 0
    ensures EmptyAsWritten(col) == 0 && Whitespace(col) == 0
    ensures Lowercase(col) == 0 && Uppercase(col) == 0 && Alphabet(col) == 0 && Digit(col) == 0
    ensures Modes(col) == [] && Frequency.Top(col) == []
  {
    assert forall v :: Some(v) !in col;
    if NonMissing(col) > 0 {
      SomeValue(col);
      assert false;
    }
    assert Lowercase(col) == CountIf(col, IsLower);
    assert Uppercase(col) == CountIf(col, IsUpper);
    assert Alphabet(col) == CountIf(col, IsAlpha);
    assert Digit(col) == CountIf(col, IsDigit);
  }
}
