/** The frequency summariser shared by the three column analysers:
    `value_counts()` (occurrences per distinct non-missing value, most
    frequent first), `value_counts(normalize=True)` (the same as a fraction of
    the non-missing rows) and `get_frequent`, which joins the two on the value,
    sorts by occurrence descending and keeps the first `n_head` rows.

    pandas leaves the order of equally frequent values unspecified. This model
    fixes one: equally frequent values keep the order of their first appearance
    in the column (the tally is built in that order and the ranking is a stable
    insertion sort). No contract depends on that choice; they state only that
    occurrences never increase from one row to the next. */
module Frequency {
  import opened Sequences
  import opened Column

  /** One line of `value_counts()`. */
  datatype Entry<T> = Entry(value: T, occurrence: nat)

  /** One line of the table `get_frequent` returns. */
  datatype Row<T> = Row(value: T, occurrence: nat, percentage: real)

  function Values<T>(es: seq<Entry<T>>): set<T>
  {
    set e | e in es :: e.value
  }

  /** No value is listed twice. */
  predicate DistinctValues<T(==)>(es: seq<Entry<T>>)
  {
    forall i, j :: 0 <= i < j < |es| ==> es[i].value != es[j].value
  }

  predicate Positive<T>(es: seq<Entry<T>>)
  {
    forall i :: 0 <= i < |es| ==> es[i].occurrence > 0
  }

  /** Occurrences never increase from one line to a later one. */
  predicate SortedDesc<T>(es: seq<Entry<T>>)
  {
    forall i, j :: 0 <= i < j < |es| ==> es[i].occurrence >= es[j].occurrence
  }

  /** The occurrence recorded for `v`, 0 when `v` is not listed. */
  function Lookup<T(==)>(es: seq<Entry<T>>, v: T): nat
  {
    if |es| == 0 then 0
    else if es[0].value == v then es[0].occurrence
    else Lookup(es[1..], v)
  }

  function SumOcc<T>(es: seq<Entry<T>>): nat
  {
    if |es| == 0 then 0 else es[0].occurrence + SumOcc(es[1..])
  }

  /** `es` is a complete count of `s`: every value of `s` is listed once,
      with the number of times it occurs in `s`. */
  ghost predicate Tallies<T>(es: seq<Entry<T>>, s: seq<T>)
  {
    && DistinctValues(es)
    && (forall i :: 0 <= i < |es| ==> es[i].occurrence == multiset(s)[es[i].value] > 0)
    && (forall v :: v in s ==> v in Values(es))
  }

  lemma ValuesCons<T>(e: Entry<T>, es: seq<Entry<T>>)
    ensures Values([e] + es) == {e.value} + Values(es)
  {
    assert forall x :: x in [e] + es <==> x == e || x in es;
  }

  lemma DistinctCons<T>(e: Entry<T>, es: seq<Entry<T>>)
    requires DistinctValues(es)
    requires e.value !in Values(es)
    ensures DistinctValues([e] + es)
  {
    var r := [e] + es;
    forall i, j | 0 <= i < j < |r| ensures r[i].value != r[j].value {
      if i == 0 {
        assert r[j] == es[j - 1] && r[j] in es;
      } else {
        assert r[i] == es[i - 1] && r[j] == es[j - 1];
      }
    }
  }

  lemma {:induction false} LookupEntry<T>(es: seq<Entry<T>>, i: int)
    requires DistinctValues(es) && 0 <= i < |es|
    ensures Lookup(es, es[i].value) == es[i].occurrence
  {
    if i > 0 {
      assert es[0].value != es[i].value;
      assert DistinctValues(es[1..]) by {
        forall a, b | 0 <= a < b < |es| - 1 ensures es[1..][a].value != es[1..][b].value {
          assert es[1..][a] == es[a + 1] && es[1..][b] == es[b + 1];
        }
      }
      LookupEntry(es[1..], i - 1);
    }
  }

  lemma {:induction false} DistinctTail<T>(es: seq<Entry<T>>)
    requires |es| > 0 && DistinctValues(es)
    ensures DistinctValues(es[1..]) && es[0].value !in Values(es[1..])
  {
    forall a, b | 0 <= a < b < |es| - 1 ensures es[1..][a].value != es[1..][b].value {
      assert es[1..][a] == es[a + 1] && es[1..][b] == es[b + 1];
    }
    forall e | e in es[1..] ensures e.value != es[0].value {
      var j :| 0 <= j < |es| - 1 && es[1..][j] == e;
      assert es[j + 1] == e;
    }
  }

  /** Records one more occurrence of `x`. */
  function Bump<T(==,!new)>(es: seq<Entry<T>>, x: T): (r: seq<Entry<T>>)
    requires DistinctValues(es) && Positive(es)
    ensures DistinctValues(r) && Positive(r)
    ensures Values(r) == Values(es) + {x}
    ensures forall v :: Lookup(r, v) == Lookup(es, v) + (if v == x then 1 else 0)
    ensures SumOcc(r) == SumOcc(es) + 1
  {
    if |es| == 0 then
      ValuesCons(Entry(x, 1), []);
      [Entry(x, 1)]
    else
      DistinctTail(es);
      ValuesCons(es[0], es[1..]);
      assert es == [es[0]] + es[1..];
      if es[0].value == x then
        var r := [Entry(x, es[0].occurrence + 1)] + es[1..];
        ValuesCons(r[0], es[1..]);
        DistinctCons(r[0], es[1..]);
        r
      else
        var rest := Bump(es[1..], x);
        ValuesCons(es[0], rest);
        DistinctCons(es[0], rest);
        [es[0]] + rest
  }

  /** `value_counts()` before sorting: the values in order of first
      appearance, each with its number of occurrences. */
  function Tally<T(==,!new)>(s: seq<T>): (r: seq<Entry<T>>)
    ensures DistinctValues(r) && Positive(r)
    ensures Values(r) == set v | v in s
    ensures forall v :: Lookup(r, v) == multiset(s)[v]
    ensures SumOcc(r) == |s|
  {
    if |s| == 0 then []
    else
      var k := |s| - 1;
      assert s == s[..k] + [s[k]];
      Bump(Tally(s[..k]), s[k])
  }

  lemma TallyTallies<T(!new)>(s: seq<T>)
    ensures Tallies(Tally(s), s)
  {
    var es := Tally(s);
    forall i | 0 <= i < |es| ensures es[i].occurrence == multiset(s)[es[i].value] > 0 {
      LookupEntry(es, i);
      assert es[i] in es;
    }
    forall v | v in s ensures v in Values(es) {
      assert v in (set v | v in s);
    }
  }

  /** Places `e` before the first line that occurs less often than it. */
  function Insert<T>(e: Entry<T>, es: seq<Entry<T>>): (r: seq<Entry<T>>)
    ensures multiset(r) == multiset(es) + multiset{e}
    ensures |r| == |es| + 1
  {
    if |es| == 0 || e.occurrence >= es[0].occurrence then
      [e] + es
    else
      assert es == [es[0]] + es[1..];
      [es[0]] + Insert(e, es[1..])
  }

  /** Every line of a sorted sequence occurs at most as often as its first. */
  lemma FirstIsLargest<T>(es: seq<Entry<T>>, x: Entry<T>)
    requires SortedDesc(es) && x in es
    ensures es[0].occurrence >= x.occurrence
  {
    var k :| 0 <= k < |es| && es[k] == x;
    if k > 0 {
      assert es[0].occurrence >= es[k].occurrence;
    }
  }

  lemma SortedTail<T>(es: seq<Entry<T>>)
    requires |es| > 0 && SortedDesc(es)
    ensures SortedDesc(es[1..])
    ensures forall x :: x in es[1..] ==> es[0].occurrence >= x.occurrence
  {
    forall i, j | 0 <= i < j < |es| - 1 ensures es[1..][i].occurrence >= es[1..][j].occurrence {
      assert es[1..][i] == es[i + 1] && es[1..][j] == es[j + 1];
    }
    forall x | x in es[1..] ensures es[0].occurrence >= x.occurrence {
      var k :| 0 <= k < |es| - 1 && es[1..][k] == x;
      assert es[0].occurrence >= es[k + 1].occurrence;
    }
  }

  /** A bound on every line and on the inserted one bounds every line of
      the result. */
  lemma InsertBounded<T>(e: Entry<T>, es: seq<Entry<T>>, b: nat)
    requires b >= e.occurrence
    requires forall x :: x in es ==> b >= x.occurrence
    ensures forall x :: x in Insert(e, es) ==> b >= x.occurrence
  {
    forall x | x in Insert(e, es) ensures b >= x.occurrence {
      assert x in multiset(Insert(e, es));
      if x != e {
        assert x in multiset(es);
      }
    }
  }

  lemma {:induction false} InsertSorted<T>(e: Entry<T>, es: seq<Entry<T>>)
    requires SortedDesc(es)
    ensures SortedDesc(Insert(e, es))
  {
    var r := Insert(e, es);
    if |es| == 0 || e.occurrence >= es[0].occurrence {
      forall i, j | 0 <= i < j < |r| ensures r[i].occurrence >= r[j].occurrence {
        if i == 0 {
          assert r[j] in es;
          FirstIsLargest(es, r[j]);
        } else {
          assert r[i] == es[i - 1] && r[j] == es[j - 1];
        }
      }
    } else {
      var rest := Insert(e, es[1..]);
      SortedTail(es);
      InsertSorted(e, es[1..]);
      InsertBounded(e, es[1..], es[0].occurrence);
      forall i, j | 0 <= i < j < |r| ensures r[i].occurrence >= r[j].occurrence {
        if i == 0 {
          assert r[j] == rest[j - 1] && r[j] in rest;
        } else {
          assert r[i] == rest[i - 1] && r[j] == rest[j - 1];
        }
      }
    }
  }

  lemma {:induction false} InsertSum<T>(e: Entry<T>, es: seq<Entry<T>>)
    ensures SumOcc(Insert(e, es)) == e.occurrence + SumOcc(es)
  {
    if |es| > 0 && e.occurrence < es[0].occurrence {
      InsertSum(e, es[1..]);
    }
  }

  lemma ValuesOfPermutation<T>(a: seq<Entry<T>>, b: seq<Entry<T>>)
    requires multiset(a) == multiset(b)
    ensures Values(a) == Values(b)
  {
    forall v | v in Values(a) ensures v in Values(b) {
      var e :| e in a && e.value == v;
      assert e in multiset(b);
    }
    forall v | v in Values(b) ensures v in Values(a) {
      var e :| e in b && e.value == v;
      assert e in multiset(a);
    }
  }

  /** Stable insertion sort by occurrence, most frequent first. */
  function Rank<T>(es: seq<Entry<T>>): (r: seq<Entry<T>>)
    ensures SortedDesc(r)
    ensures multiset(r) == multiset(es)
    ensures |r| == |es|
    ensures SumOcc(r) == SumOcc(es)
  {
    if |es| == 0 then []
    else
      var rest := Rank(es[1..]);
      assert es == [es[0]] + es[1..];
      InsertSorted(es[0], rest);
      InsertSum(es[0], rest);
      Insert(es[0], rest)
  }

  /** Ranking keeps every value listed once. */
  lemma {:induction false} RankDistinct<T>(es: seq<Entry<T>>)
    requires DistinctValues(es)
    ensures DistinctValues(Rank(es))
  {
    if |es| > 0 {
      DistinctTail(es);
      RankDistinct(es[1..]);
      var rest := Rank(es[1..]);
      ValuesOfPermutation(rest, es[1..]);
      InsertDistinct(es[0], rest);
    }
  }

  lemma {:induction false} InsertDistinct<T>(e: Entry<T>, es: seq<Entry<T>>)
    requires SortedDesc(es) && DistinctValues(es) && e.value !in Values(es)
    ensures DistinctValues(Insert(e, es))
  {
    if |es| == 0 || e.occurrence >= es[0].occurrence {
      DistinctCons(e, es);
    } else {
      DistinctTail(es);
      ValuesCons(es[0], es[1..]);
      assert es == [es[0]] + es[1..];
      InsertDistinct(e, es[1..]);
      var rest := Insert(e, es[1..]);
      ValuesOfPermutation(rest, es[1..] + [e]);
      assert Values(es[1..] + [e]) == Values(es[1..]) + {e.value} by {
        assert forall x :: x in es[1..] + [e] <==> x in es[1..] || x == e;
      }
      DistinctCons(es[0], rest);
    }
  }

  lemma {:induction false} DistinctCard<T>(es: seq<Entry<T>>)
    requires DistinctValues(es)
    ensures |Values(es)| == |es|
  {
    if |es| > 0 {
      DistinctTail(es);
      DistinctCard(es[1..]);
      ValuesCons(es[0], es[1..]);
      assert es == [es[0]] + es[1..];
    }
  }

  /** `value_counts()` (numeric `_get_occurrences`): every distinct
      non-missing value exactly once, with its number of occurrences, most
      frequent first; one line per distinct value, and the occurrences add up
      to the non-missing count. */
  function Occurrences<T(==,!new)>(col: Series<T>): (r: seq<Entry<T>>)
    ensures SortedDesc(r)
    ensures DistinctValues(r)
    ensures forall i :: 0 <= i < |r| ==> r[i].occurrence == Occurrence(col, r[i].value) > 0
    ensures forall v :: Some(v) in col ==> v in Values(r)
    ensures |r| == Unique(col)
    ensures SumOcc(r) == NonMissing(col)
  {
    var s := Present(col);
    var t := Tally(s);
    TallyTallies(s);
    DistinctCard(t);
    var r := Rank(t);
    RankDistinct(t);
    ValuesOfPermutation(r, t);
    PermutedTally(s, t, r);
    r
  }

  /** Reordering a complete count keeps every line's count right. */
  lemma PermutedTally<T(!new)>(s: seq<T>, t: seq<Entry<T>>, r: seq<Entry<T>>)
    requires Tallies(t, s) && multiset(r) == multiset(t)
    ensures forall i :: 0 <= i < |r| ==> r[i].occurrence == multiset(s)[r[i].value] > 0
  {
    forall i | 0 <= i < |r| ensures r[i].occurrence == multiset(s)[r[i].value] > 0 {
      assert r[i] in multiset(t);
      var j :| 0 <= j < |t| && t[j] == r[i];
    }
  }

  lemma {:induction false} MultisetBound<T>(s: seq<T>, v: T)
    ensures multiset(s)[v] <= |s|
  {
    if |s| > 0 {
      MultisetBound(s[1..], v);
      assert s == [s[0]] + s[1..];
    }
  }

  /** `value_counts(normalize=True)` (numeric `_get_percentages`, before its
      4-decimal rounding): each distinct non-missing value's share of the
      non-missing rows, a fraction in (0, 1]. */
  function Percentages<T(==,!new)>(col: Series<T>): (r: map<T, real>)
    ensures r.Keys == Distinct(col)
    ensures forall v :: v in r ==> 0.0 < r[v] <= 1.0
    ensures forall v :: v in r ==> r[v] == (Occurrence(col, v) as real) / (NonMissing(col) as real)
  {
    var m := map v | v in Distinct(col) :: (Occurrence(col, v) as real) / (NonMissing(col) as real);
    PercentagesFacts(col, m);
    m
  }

  lemma PercentagesFacts<T(!new)>(col: Series<T>, m: map<T, real>)
    requires forall v :: v in m ==>
      v in Distinct(col) && m[v] == (Occurrence(col, v) as real) / (NonMissing(col) as real)
    ensures forall v :: v in m ==> 0.0 < m[v] <= 1.0
  {
    forall v | v in m ensures 0.0 < m[v] <= 1.0 {
      var o := Occurrence(col, v);
      var t := NonMissing(col);
      MultisetBound(Present(col), v);
      assert v in multiset(Present(col));
      ShareBounds(o, t);
    }
  }

  lemma ShareBounds(o: nat, t: nat)
    requires 0 < o <= t
    ensures 0.0 < (o as real) / (t as real) <= 1.0
  {
  }

  lemma OccurrencesInPercentages<T(!new)>(col: Series<T>)
    ensures forall i :: 0 <= i < |Occurrences(col)| ==> Occurrences(col)[i].value in Percentages(col)
  {
    var occ := Occurrences(col);
    forall i | 0 <= i < |occ| ensures occ[i].value in Percentages(col) {
      assert occ[i].value in multiset(Present(col));
    }
  }

  /** The whole ranked table: `value_counts()` joined with
      `value_counts(normalize=True)` on the value. It has one line per
      distinct value and is ranked: each line carries its value's count and
      its share of the non-missing rows. */
  function Table<T(==,!new)>(col: Series<T>): (r: seq<Row<T>>)
    ensures |r| == Unique(col)
    ensures Ranked(col, r)
  {
    OccurrencesInPercentages(col);
    JoinFacts(col);
    Join(Occurrences(col), Percentages(col))
  }

  /** Pairs each line of the counts with its value's share. */
  function Join<T>(es: seq<Entry<T>>, pct: map<T, real>): seq<Row<T>>
    requires forall i :: 0 <= i < |es| ==> es[i].value in pct
  {
    if |es| == 0 then []
    else [Row(es[0].value, es[0].occurrence, pct[es[0].value])] + Join(es[1..], pct)
  }

  /** The join keeps the lines of the counts, in order, each with the share
      of its own value. */
  lemma {:induction false} JoinLines<T>(es: seq<Entry<T>>, pct: map<T, real>)
    requires forall i :: 0 <= i < |es| ==> es[i].value in pct
    ensures |Join(es, pct)| == |es|
    ensures forall i :: 0 <= i < |es| ==>
      Join(es, pct)[i].value == es[i].value && Join(es, pct)[i].occurrence == es[i].occurrence &&
      Join(es, pct)[i].percentage == pct[es[i].value]
  {
    if |es| > 0 {
      JoinLines(es[1..], pct);
      forall i | 1 <= i < |es| ensures Join(es, pct)[i] == Join(es[1..], pct)[i - 1] && es[i] == es[1..][i - 1] {
      }
    }
  }

  /** The join has a line per distinct value and is ranked. */
  lemma JoinFacts<T(!new)>(col: Series<T>)
    requires forall i :: 0 <= i < |Occurrences(col)| ==> Occurrences(col)[i].value in Percentages(col)
    ensures |Join(Occurrences(col), Percentages(col))| == Unique(col)
    ensures Ranked(col, Join(Occurrences(col), Percentages(col)))
  {
    var occ := Occurrences(col);
    var pct := Percentages(col);
    var r := Join(occ, pct);
    JoinLines(occ, pct);
    JoinRanked(col, r);
  }

  /** Joining the ranked counts with the shares, line by line, gives a
      ranked table. */
  lemma JoinRanked<T(!new)>(col: Series<T>, r: seq<Row<T>>)
    requires |r| == |Occurrences(col)|
    requires forall i :: 0 <= i < |r| ==>
      r[i].value == Occurrences(col)[i].value && r[i].occurrence == Occurrences(col)[i].occurrence
    requires forall i :: 0 <= i < |r| ==>
      r[i].value in Percentages(col) && r[i].percentage == Percentages(col)[r[i].value]
    ensures Ranked(col, r)
  {
    JoinOrder(Occurrences(col), r);
    forall i | 0 <= i < |r|
      ensures r[i].occurrence == Occurrence(col, r[i].value) > 0
      ensures NonMissing(col) > 0 && 0.0 < r[i].percentage <= 1.0
      ensures r[i].percentage == (r[i].occurrence as real) / (NonMissing(col) as real)
    {
      JoinLine(col, r[i], Occurrences(col)[i]);
    }
  }

  /** The joined lines keep the counts' order and distinct values. */
  lemma JoinOrder<T>(occ: seq<Entry<T>>, r: seq<Row<T>>)
    requires SortedDesc(occ) && DistinctValues(occ)
    requires |r| == |occ|
    requires forall i :: 0 <= i < |r| ==> r[i].value == occ[i].value && r[i].occurrence == occ[i].occurrence
    ensures forall i, j :: 0 <= i < j < |r| ==> r[i].occurrence >= r[j].occurrence
    ensures forall i, j :: 0 <= i < j < |r| ==> r[i].value != r[j].value
  {
  }

  /** One joined line carries its value's true count and share. */
  lemma JoinLine<T(!new)>(col: Series<T>, line: Row<T>, e: Entry<T>)
    requires e.occurrence == Occurrence(col, e.value) > 0
    requires line.value == e.value && line.occurrence == e.occurrence
    requires line.value in Percentages(col) && line.percentage == Percentages(col)[line.value]
    ensures line.occurrence == Occurrence(col, line.value) > 0
    ensures NonMissing(col) > 0 && 0.0 < line.percentage <= 1.0
    ensures line.percentage == (line.occurrence as real) / (NonMissing(col) as real)
  {
    assert line.value in Distinct(col);
    assert |Present(col)| > 0;
  }

  /** Every line of `r` carries its value's share of the non-missing rows of
      `col`, a fraction in (0, 1]. */
  ghost predicate Shares<T(!new)>(col: Series<T>, r: seq<Row<T>>)
  {
    forall i :: 0 <= i < |r| ==>
      && NonMissing(col) > 0
      && 0.0 < r[i].percentage <= 1.0
      && r[i].percentage == (r[i].occurrence as real) / (NonMissing(col) as real)
  }

  /** What every line of a frequency table of `col` satisfies: each line
      is a distinct value of the column with its true number of occurrences
      and its share, and occurrences never increase from one line to a later
      one. */
  ghost predicate Ranked<T(!new)>(col: Series<T>, r: seq<Row<T>>)
  {
    && (forall i, j :: 0 <= i < j < |r| ==> r[i].occurrence >= r[j].occurrence)
    && (forall i, j :: 0 <= i < j < |r| ==> r[i].value != r[j].value)
    && (forall i :: 0 <= i < |r| ==> r[i].occurrence == Occurrence(col, r[i].value) > 0)
    && Shares(col, r)
  }

  /** Each line of the table is the matching line of `Occurrences`. */
  lemma TableLines<T(!new)>(col: Series<T>)
    ensures |Table(col)| == |Occurrences(col)|
    ensures forall i :: 0 <= i < |Table(col)| ==>
      Table(col)[i].value == Occurrences(col)[i].value &&
      Table(col)[i].occurrence == Occurrences(col)[i].occurrence
  {
    OccurrencesInPercentages(col);
    var occ := Occurrences(col);
    var pct := Percentages(col);
    JoinLines(occ, pct);
  }

  /** Every prefix of a ranked table is ranked. */
  lemma RankedPrefix<T(!new)>(col: Series<T>, rows: seq<Row<T>>, k: nat)
    requires Ranked(col, rows) && k <= |rows|
    ensures Ranked(col, rows[..k])
  {
    assert forall i :: 0 <= i < k ==> rows[..k][i] == rows[i];
  }

  /** The whole table lists every value present in the column. */
  lemma TableComplete<T(!new)>(col: Series<T>, v: T)
    requires Some(v) in col
    ensures exists i :: 0 <= i < |Table(col)| && Table(col)[i].value == v
  {
    var occ := Occurrences(col);
    TableLines(col);
    assert v in Values(occ);
    var e :| e in occ && e.value == v;
    var i :| 0 <= i < |occ| && occ[i] == e;
    assert Table(col)[i].value == v;
  }

  /** `get_frequent(n_head)`: the first `n_head` lines of the ranked table.
      For `n_head >= 0` it has `min(n_head, distinct values)` lines; every
      line is a distinct value present in the column with its true count and
      share; occurrences never increase; a column with no value gives an
      empty table. */
  function Frequent<T(==,!new)>(col: Series<T>, n: int): (r: seq<Row<T>>)
    ensures n >= 0 ==> |r| == if n < Unique(col) then n else Unique(col)
    ensures |r| <= Unique(col)
    ensures NonMissing(col) == 0 ==> r == []
    ensures Ranked(col, r)
    ensures Dominates(col, r)
  {
    var t := Table(col);
    var r := Head(t, n);
    RankedPrefix(col, t, |r|);
    TableValues(col);
    PrefixDominates(col, t, |r|);
    r
  }

  /** No value of the column left out of `r` occurs more often than any
      line of `r`: `r` holds the most frequent values. */
  ghost predicate Dominates<T(!new)>(col: Series<T>, r: seq<Row<T>>)
  {
    forall v, i :: 0 <= i < |r| && Some(v) in col && (forall j :: 0 <= j < |r| ==> r[j].value != v) ==>
      Occurrence(col, v) <= r[i].occurrence
  }

  /** Every leading part of a ranked table that lists every value of the
      column holds the most frequent values. */
  lemma PrefixDominates<T(!new)>(col: Series<T>, t: seq<Row<T>>, m: nat)
    requires Ranked(col, t) && m <= |t|
    requires forall v :: Some(v) in col ==> exists k :: 0 <= k < |t| && t[k].value == v
    ensures Dominates(col, t[..m])
  {
    var r := t[..m];
    forall v, i | 0 <= i < |r| && Some(v) in col && (forall j :: 0 <= j < |r| ==> r[j].value != v)
      ensures Occurrence(col, v) <= r[i].occurrence
    {
      var k :| 0 <= k < |t| && t[k].value == v;
      assert forall j :: 0 <= j < m ==> t[j].value != v by {
        forall j | 0 <= j < m ensures t[j].value != v {
          assert r[j] == t[j];
        }
      }
      BelowPrefix(t, m, k, i);
      assert r[i] == t[i];
    }
  }

  /** In rows sorted by descending occurrence, a line whose value is not
      among the first `m` comes after them and occurs no more often. */
  lemma BelowPrefix<T>(t: seq<Row<T>>, m: nat, k: nat, i: nat)
    requires forall a, b :: 0 <= a < b < |t| ==> t[a].occurrence >= t[b].occurrence
    requires i < m <= |t| && k < |t|
    requires forall j :: 0 <= j < m ==> t[j].value != t[k].value
    ensures t[i].occurrence >= t[k].occurrence
  {
  }

  /** The returned lines are the first lines of the whole table. */
  lemma FrequentPrefix<T(!new)>(col: Series<T>, n: int)
    ensures Frequent(col, n) == Table(col)[..|Frequent(col, n)|]
  {
  }

  function SumPct<T>(rows: seq<Row<T>>): real
  {
    if |rows| == 0 then 0.0 else rows[0].percentage + SumPct(rows[1..])
  }

  function SumRowOcc<T>(rows: seq<Row<T>>): nat
  {
    if |rows| == 0 then 0 else rows[0].occurrence + SumRowOcc(rows[1..])
  }

  /** The percentages add up to the occurrences divided by the total. */
  lemma {:induction false} SumPctShares<T>(rows: seq<Row<T>>, t: real)
    requires t > 0.0
    requires forall i :: 0 <= i < |rows| ==> rows[i].percentage == (rows[i].occurrence as real) / t
    ensures SumPct(rows) == (SumRowOcc(rows) as real) / t
  {
    if |rows| > 0 {
      SumPctShares(rows[1..], t);
      var a := rows[0].occurrence as real;
      var b := SumRowOcc(rows[1..]) as real;
      assert a / t + b / t == (a + b) / t;
    }
  }

  /** A prefix of non-negative percentages sums to at most the whole. */
  lemma {:induction false} SumPctPrefix<T>(rows: seq<Row<T>>, k: nat)
    requires k <= |rows|
    requires forall i :: 0 <= i < |rows| ==> rows[i].percentage >= 0.0
    ensures SumPct(rows[..k]) <= SumPct(rows)
  {
    if k == 0 {
      if |rows| > 0 {
        SumPctPrefix(rows[1..], 0);
      }
    } else {
      SumPctPrefix(rows[1..], k - 1);
      assert rows[..k][1..] == rows[1..][..k - 1];
    }
  }

  lemma {:induction false} SumRowOccTable<T(!new)>(col: Series<T>)
    ensures SumRowOcc(Table(col)) == NonMissing(col)
  {
    var occ := Occurrences(col);
    var r := Table(col);
    TableLines(col);
    SumRowOccMatches(r, occ);
  }

  lemma {:induction false} SumRowOccMatches<T>(rows: seq<Row<T>>, es: seq<Entry<T>>)
    requires |rows| == |es|
    requires forall i :: 0 <= i < |rows| ==> rows[i].occurrence == es[i].occurrence
    ensures SumRowOcc(rows) == SumOcc(es)
  {
    if |rows| > 0 {
      SumRowOccMatches(rows[1..], es[1..]);
    }
  }

  /** Whenever the column has a value, the whole table's percentages add
      up to exactly 1. */
  lemma TableSumsToOne<T(!new)>(col: Series<T>)
    requires NonMissing(col) > 0
    ensures SumPct(Table(col)) == 1.0
  {
    SumRowOccTable(col);
    SharesSumToOne(col, Table(col));
  }

  /** Lines carrying their shares of all the non-missing rows, whose counts
      add up to those rows, have shares adding up to 1. */
  lemma SharesSumToOne<T(!new)>(col: Series<T>, rows: seq<Row<T>>)
    requires NonMissing(col) > 0
    requires Shares(col, rows)
    requires SumRowOcc(rows) == NonMissing(col)
    ensures SumPct(rows) == 1.0
  {
    var t := NonMissing(col) as real;
    assert forall i :: 0 <= i < |rows| ==> rows[i].percentage == (rows[i].occurrence as real) / t;
    SumPctShares(rows, t);
    WholeShare(t);
  }

  lemma WholeShare(t: real)
    requires t > 0.0
    ensures t / t == 1.0
  {
  }

  /** Every line of the whole table holds a value present in the column. */
  lemma TableLinePresent<T(!new)>(col: Series<T>)
    ensures forall i :: 0 <= i < |Table(col)| ==> Some(Table(col)[i].value) in col
  {
    TableLines(col);
    var occ := Occurrences(col);
    forall i | 0 <= i < |Table(col)| ensures Some(Table(col)[i].value) in col {
      assert occ[i].occurrence == Occurrence(col, occ[i].value) > 0;
      assert occ[i].value in multiset(Present(col));
    }
  }

  /** The whole table lists exactly the values present in the column. */
  lemma TableValues<T(!new)>(col: Series<T>)
    ensures forall v :: Some(v) in col <==> exists i :: 0 <= i < |Table(col)| && Table(col)[i].value == v
  {
    var r := Table(col);
    forall v ensures Some(v) in col <==> exists i :: 0 <= i < |r| && r[i].value == v {
      if exists i :: 0 <= i < |r| && r[i].value == v {
        var i :| 0 <= i < |r| && r[i].value == v;
        TableLinePresent(col);
      }
      if Some(v) in col {
        TableComplete(col, v);
      }
    }
  }

  /** Untruncated, the table's percentages add up to exactly 1 whenever the
      column has a value, and it lists every distinct value. */
  lemma FullTableSumsToOne<T(!new)>(col: Series<T>, n: int)
    requires NonMissing(col) > 0
    requires n >= Unique(col)
    ensures SumPct(Frequent(col, n)) == 1.0
    ensures forall v :: Some(v) in col <==> exists i :: 0 <= i < |Frequent(col, n)| && Frequent(col, n)[i].value == v
  {
    FrequentPrefix(col, n);
    assert Frequent(col, n) == Table(col);
    TableSumsToOne(col);
    TableValues(col);
  }

  /** The returned (possibly truncated) table's percentages add up to at
      most 1. */
  lemma FrequentSumAtMostOne<T(!new)>(col: Series<T>, n: int)
    ensures SumPct(Frequent(col, n)) <= 1.0
  {
    FrequentPrefix(col, n);
    PrefixSumAtMostOne(col, |Frequent(col, n)|);
  }

  /** The first `k` lines of the whole table have shares adding up to at
      most 1. */
  lemma PrefixSumAtMostOne<T(!new)>(col: Series<T>, k: nat)
    requires k <= |Table(col)|
    ensures SumPct(Table(col)[..k]) <= 1.0
  {
    var full := Table(col);
    if NonMissing(col) == 0 {
      assert full[..k] == [];
    } else {
      TableSumsToOne(col);
      SumPctPrefix(full, k);
    }
  }

  /** The number of lines the text and date analysers keep. */
  const TopRows := 20

  /** `get_frequent()` of the text and date analysers: the first 20 lines of
      the ranked table. Its percentages add up to at most 1, and to exactly
      1 when the column has a value and at most 20 distinct values. */
  function Top<T(==,!new)>(col: Series<T>): (r: seq<Row<T>>)
    ensures |r| == if Unique(col) < TopRows then Unique(col) else TopRows
    ensures Ranked(col, r)
    ensures Dominates(col, r)
    ensures SumPct(r) <= 1.0
    ensures 0 < NonMissing(col) && Unique(col) <= TopRows ==> SumPct(r) == 1.0
  {
    FrequentSumAtMostOne(col, TopRows);
    if 0 < NonMissing(col) && Unique(col) <= TopRows then
      FullTableSumsToOne(col, TopRows);
      Frequent(col, TopRows)
    else
      Frequent(col, TopRows)
  }
}
