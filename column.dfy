/** A pandas Series as the analysers see it: an ordered sequence of cells,
    each holding a value or missing (NaN / NaT / None). The counters shared by
    `NumericColumn`, `TextColumn` and `DateColumn` live here. */
module Column {
  import opened Sequences

  datatype Option<T> = None | Some(value: T)

  /** A column: one optional value per row. */
  type Series<T> = seq<Option<T>>

  /** The non-missing values in row order (pandas `dropna()`): each value
      occurs as often as there are rows holding it. */
  function Present<T(==,!new)>(col: Series<T>): (r: seq<T>)
    ensures |r| <= |col|
    ensures forall v :: v in r <==> Some(v) in col
    ensures forall v :: multiset(r)[v] == |Rows(col, v)|
  {
    if |col| == 0 then []
    else
      var k := |col| - 1;
      var rest := Present(col[..k]);
      assert col == col[..k] + [col[k]];
      forall v ensures |Rows(col, v)| == |Rows(col[..k], v)| + (if col[k] == Some(v) then 1 else 0) {
        RowsSnoc(col, v);
      }
      if col[k].Some? then rest + [col[k].value] else rest
  }

  /** The rows holding `v`: the reference for how often a value occurs. */
  ghost function Rows<T>(col: Series<T>, v: T): set<int>
  {
    set i | 0 <= i < |col| && col[i] == Some(v)
  }

  lemma RowsSnoc<T>(col: Series<T>, v: T)
    requires |col| > 0
    ensures var k := |col| - 1;
      |Rows(col, v)| == |Rows(col[..k], v)| + (if col[k] == Some(v) then 1 else 0)
  {
    var k := |col| - 1;
    assert Rows(col, v) == Rows(col[..k], v) + (if col[k] == Some(v) then {k} else {});
  }

  /** How many rows hold a value. */
  function NonMissing<T(==,!new)>(col: Series<T>): nat
  {
    |Present(col)|
  }

  /** `isna().sum()`: rows that hold no value; with the non-missing rows they
      make up the whole column. */
  function Missing<T(==,!new)>(col: Series<T>): (r: nat)
    ensures r + NonMissing(col) == |col|
    ensures r == |Indices(col, IsNone)|
  {
    if |col| == 0 then 0
    else
      var k := |col| - 1;
      assert col == col[..k] + [col[k]];
      CountSnoc(col[..k], col[k], IsNone);
      Missing(col[..k]) + (if col[k].None? then 1 else 0)
  }

  predicate IsNone<T(==,!new)>(o: Option<T>) { o.None? }

  /** Lifts a predicate on values to cells; a missing cell never matches,
      as a pandas comparison or `str` predicate on NaN is false. */
  function Holds<T(==,!new)>(p: T -> bool): Option<T> -> bool
  {
    (o: Option<T>) => o.Some? && p(o.value)
  }

  /** `(predicate).sum()` over a column: counts the present values that
      satisfy `p`. It agrees with counting the raw cells in which missing
      never matches, and never exceeds the non-missing count. */
  function CountIf<T(==,!new)>(col: Series<T>, p: T -> bool): (r: nat)
    ensures r == Count(col, Holds(p))
    ensures r <= NonMissing(col)
  {
    if |col| == 0 then 0
    else
      var k := |col| - 1;
      assert col == col[..k] + [col[k]];
      CountSnoc(col[..k], col[k], Holds(p));
      CountIf(col[..k], p) + (if col[k].Some? && p(col[k].value) then 1 else 0)
  }

  /** Two predicates no value satisfies together count at most the
      non-missing rows between them. */
  lemma CountIfDisjoint<T(!new)>(col: Series<T>, p: T -> bool, q: T -> bool)
    requires forall x :: !(p(x) && q(x))
    ensures CountIf(col, p) + CountIf(col, q) <= NonMissing(col)
  {
    var both := x => p(x) || q(x);
    CountSplit(col, Holds(both), Holds(p), Holds(q));
    assert CountIf(col, both) == Count(col, Holds(both));
  }

  /** A predicate that is the disjoint union of two others counts what the
      two count together. */
  lemma CountIfSplit<T(!new)>(col: Series<T>, p: T -> bool, q: T -> bool, r: T -> bool)
    requires forall x :: p(x) == (q(x) || r(x))
    requires forall x :: !(q(x) && r(x))
    ensures CountIf(col, p) == CountIf(col, q) + CountIf(col, r)
  {
    CountSplit(col, Holds(p), Holds(q), Holds(r));
  }

  /** A predicate and its negation together count every non-missing row. */
  lemma {:induction false} CountIfComplement<T(!new)>(col: Series<T>, p: T -> bool, q: T -> bool)
    requires forall x :: q(x) == !p(x)
    ensures CountIf(col, p) + CountIf(col, q) == NonMissing(col)
  {
    if |col| > 0 {
      var k := |col| - 1;
      CountIfComplement(col[..k], p, q);
    }
  }

  /** The distinct non-missing values. */
  function Distinct<T(==,!new)>(col: Series<T>): set<T>
  {
    set v | v in Present(col)
  }

  /** How often `v` occurs among the non-missing values. */
  function Occurrence<T(==,!new)>(col: Series<T>, v: T): nat
  {
    multiset(Present(col))[v]
  }

  lemma {:induction false} DistinctBound<T(!new)>(s: seq<T>)
    ensures |set v | v in s| <= |s|
    ensures |s| > 0 ==> |set v | v in s| > 0
  {
    if |s| > 0 {
      var k := |s| - 1;
      DistinctBound(s[..k]);
      assert (set v | v in s) == (set v | v in s[..k]) + {s[k]} by {
        assert s == s[..k] + [s[k]];
      }
      assert s[k] in (set v | v in s);
    }
  }

  /** `nunique()`: the number of distinct values, missing excluded. It is at
      most the non-missing count, and zero exactly when every row is
      missing. */
  function Unique<T(==,!new)>(col: Series<T>): (r: nat)
    ensures r == |set i | 0 <= i < |col| && col[i].Some? :: col[i].value|
    ensures r <= NonMissing(col)
    ensures r == 0 <==> NonMissing(col) == 0
    ensures forall v :: v in Distinct(col) <==> Some(v) in col
  {
    DistinctBound(Present(col));
    assert Distinct(col) == set i | 0 <= i < |col| && col[i].Some? :: col[i].value by {
      forall v | v in Distinct(col) ensures exists i :: 0 <= i < |col| && col[i] == Some(v) {
        assert Some(v) in col;
      }
    }
    |Distinct(col)|
  }

  /** A column with at least one value has one. */
  lemma SomeValue<T(!new)>(col: Series<T>)
    requires NonMissing(col) > 0
    ensures exists v :: Some(v) in col
  {
    assert Present(col)[0] in Present(col);
  }

  /** `le` orders all values: any two compare, and comparison chains. */
  ghost predicate TotalOrder<T(!new)>(le: (T, T) -> bool)
  {
    && (forall a, b :: le(a, b) || le(b, a))
    && (forall a, b, c :: le(a, b) && le(b, c) ==> le(a, c))
  }

  /** The least value of a column that holds one, under the order `le`, with
      missing rows skipped (pandas `min()`; `max()` is the reversed order). */
  function Least<T(==,!new)>(col: Series<T>, le: (T, T) -> bool): (m: T)
    requires NonMissing(col) > 0
    requires TotalOrder(le)
    ensures Some(m) in col
    ensures forall v :: Some(v) in col ==> le(m, v)
  {
    var k := |col| - 1;
    assert col == col[..k] + [col[k]];
    SomeValue(col);
    if NonMissing(col[..k]) > 0 then
      var m := Least(col[..k], le);
      if col[k].Some? && !le(m, col[k].value) then col[k].value else m
    else
      assert forall v :: Some(v) !in col[..k];
      col[k].value
  }
}
