/** `NumericColumn`: the counters and extremes of a numeric column. Values
    are modelled as exact reals; the unique and missing counts are
    `Column.Unique` and `Column.Missing`, and the frequency table is
    `Frequency.Frequent`. */
module Numeric {
  import opened Sequences
  import opened Column
  import opened Frequency

  /** `(serie == 0).sum()`: the rows holding exactly zero; a missing row
      compares unequal to everything and is never counted. */
  function Zeros(col: Series<real>): (r: nat)
    ensures r == |set i | 0 <= i < |col| && col[i] == Some(0.0)|
    ensures r <= NonMissing(col)
  {
    var z := (x: real) => x == 0.0;
    assert Indices(col, Holds(z)) == set i | 0 <= i < |col| && col[i] == Some(0.0);
    CountIf(col, z)
  }

  /** `(serie < 0).sum()`: the rows holding a negative value; missing rows
      are never counted. */
  function Negatives(col: Series<real>): (r: nat)
    ensures r == |set i | 0 <= i < |col| && col[i].Some? && col[i].value < 0.0|
    ensures r <= NonMissing(col)
  {
    var neg := (x: real) => x < 0.0;
    assert Indices(col, Holds(neg)) == set i | 0 <= i < |col| && col[i].Some? && col[i].value < 0.0;
    CountIf(col, neg)
  }

  /** No value is both zero and negative, so the two counts together never
      exceed the non-missing rows. */
  lemma ZerosNegativesDisjoint(col: Series<real>)
    ensures Zeros(col) + Negatives(col) <= NonMissing(col)
  {
    var z := (x: real) => x == 0.0;
    var neg := (x: real) => x < 0.0;
    CountIfDisjoint(col, z, neg);
    assert Zeros(col) == CountIf(col, z);
    assert Negatives(col) == CountIf(col, neg);
  }

  /** `serie.min()`: the smallest value, skipping missing rows; `None`
      (pandas NaN) exactly when the column holds no value. */
  function Min(col: Series<real>): (r: Option<real>)
    ensures r.None? <==> NonMissing(col) == 0
    ensures r.Some? ==> Some(r.value) in col
    ensures r.Some? ==> forall v :: Some(v) in col ==> r.value <= v
  {
    if NonMissing(col) > 0 then Some(Least(col, (a: real, b: real) => a <= b)) else None
  }

  /** `serie.max()`: the largest value, skipping missing rows; `None`
      exactly when the column holds no value. */
  function Max(col: Series<real>): (r: Option<real>)
    ensures r.None? <==> NonMissing(col) == 0
    ensures r.Some? ==> Some(r.value) in col
    ensures r.Some? ==> forall v :: Some(v) in col ==> v <= r.value
  {
    if NonMissing(col) > 0 then Some(Least(col, (a: real, b: real) => a >= b)) else None
  }

  /** With a value present, the minimum never exceeds the maximum. */
  lemma MinAtMostMax(col: Series<real>)
    requires NonMissing(col) > 0
    ensures Min(col).Some? && Max(col).Some? && Min(col).value <= Max(col).value
  {
    var v := Present(col)[0];
    assert v in Present(col);
    assert Min(col).value <= v <= Max(col).value;
  }

  /** A column with no value (empty or all missing) reports every row as
      missing and zero for every other counter, no extremes, and an empty
      frequency table. */
  lemma {:induction false} NoValues(col: Series<real>, n: int)
    requires forall i :: 0 <= i < |col| ==> col[i].None?
    ensures Missing(col) == |col| && Unique(col) == 0
    ensures Zeros(col) == 0 && Negatives(col) == 0
    ensures Min(col).None? && Max(col).None?
    ensures Frequent(col, n) == []
  {
    assert forall v :: Some(v) !in col;
    if NonMissing(col) > 0 {
      SomeValue(col);
      assert false;
    }
  }
}
