/** `Dataset`: a loaded table and the summaries the explorer shows about it.
    A table is a sequence of distinct column names, one dtype per column
    and a sequence of rows, each row one optional cell per column. */
module Data {
  import opened Sequences
  import opened Column

  /** The dtype families `select_dtypes` distinguishes: `np.number`,
      `object` (text), `np.datetime64`, and anything else (bool,
      category, ...). */
  datatype Kind = Number | Object | Datetime64 | Other

  /** A cell: a number, a string or a timestamp in seconds since
      1970-01-01. */
  datatype Cell = Num(x: real) | Str(s: string) | Time(t: int)

  type Row = seq<Option<Cell>>

  datatype Dataset = Dataset(name: string, columns: seq<string>, kinds: seq<Kind>, rows: seq<Row>)

  /** Every row has one cell per column, every column one dtype, and the
      column names are distinct (`read_csv` renames repeated headers). */
  predicate Valid(d: Dataset)
  {
    && |d.kinds| == |d.columns|
    && (forall i :: 0 <= i < |d.rows| ==> |d.rows[i]| == |d.columns|)
    && (forall i, j :: 0 <= i < j < |d.columns| ==> d.columns[i] != d.columns[j])
  }

  /** `shape[1]`: every row and the dtype list have this length. */
  function NCols(d: Dataset): (r: nat)
    requires Valid(d)
    ensures r == |d.kinds|
    ensures forall i :: 0 <= i < |d.rows| ==> |d.rows[i]| == r
  {
    |d.columns|
  }

  /** `dtypes.to_dict()`: maps each column name to its dtype. */
  function ColsDtype(d: Dataset): (m: map<string, Kind>)
    requires Valid(d)
    ensures m.Keys == set c | c in d.columns
    ensures forall j :: 0 <= j < |d.columns| ==> m[d.columns[j]] == d.kinds[j]
  {
    DtypeMap(d.columns, d.kinds)
  }

  function DtypeMap(names: seq<string>, kinds: seq<Kind>): (m: map<string, Kind>)
    requires |kinds| == |names|
    requires forall i, j :: 0 <= i < j < |names| ==> names[i] != names[j]
    ensures m.Keys == set c | c in names
    ensures forall j :: 0 <= j < |names| ==> m[names[j]] == kinds[j]
  {
    if |names| == 0 then map[]
    else
      var k := |names| - 1;
      assert names == names[..k] + [names[k]];
      DtypeMap(names[..k], kinds[..k])[names[k] := kinds[k]]
  }

  /** `duplicated().sum()`: the rows equal to some earlier row (missing
      cells compare equal to each other, as in pandas). */
  function NDuplicates(d: Dataset): (r: nat)
    ensures r == |set i | 0 <= i < |d.rows| && d.rows[i] in d.rows[..i]|
    ensures r <= |d.rows|
  {
    Duplicates(d.rows)
  }

  function Duplicates(rows: seq<Row>): (r: nat)
    ensures r == |set i | 0 <= i < |rows| && rows[i] in rows[..i]|
    ensures r <= |rows|
  {
    if |rows| == 0 then 0
    else
      var k := |rows| - 1;
      DuplicateIndicesSnoc(rows);
      Duplicates(rows[..k]) + (if rows[k] in rows[..k] then 1 else 0)
  }

  lemma DuplicateIndicesSnoc(rows: seq<Row>)
    requires |rows| > 0
    ensures var k := |rows| - 1;
      (set i | 0 <= i < |rows| && rows[i] in rows[..i]) ==
      (set i | 0 <= i < k && rows[..k][i] in rows[..k][..i]) + (if rows[k] in rows[..k] then {k} else {})
  {
    var k := |rows| - 1;
    forall i | 0 <= i < k ensures rows[..k][..i] == rows[..i] && rows[..k][i] == rows[i] {
    }
  }

  /** Each row is either the first copy of its contents or a duplicate, so
      the duplicates are the rows minus the distinct rows. */
  lemma {:induction false} DuplicatesDistinct(rows: seq<Row>)
    ensures Duplicates(rows) + |set r | r in rows| == |rows|
  {
    if |rows| > 0 {
      var k := |rows| - 1;
      DuplicatesDistinct(rows[..k]);
      assert rows == rows[..k] + [rows[k]];
      var before := set x | x in rows[..k];
      assert (set x | x in rows) == before + {rows[k]};
      if rows[k] in rows[..k] {
        assert before + {rows[k]} == before;
      } else {
        assert |before + {rows[k]}| == |before| + 1;
      }
    }
  }

  /** `isnull().any(axis=1).sum()`: the rows with at least one missing
      cell. */
  function NMissing(d: Dataset): (r: nat)
    ensures r == |set i | 0 <= i < |d.rows| && None in d.rows[i]|
    ensures r <= |d.rows|
  {
    var gap := (row: Row) => None in row;
    assert Indices(d.rows, gap) == set i | 0 <= i < |d.rows| && None in d.rows[i];
    Count(d.rows, gap)
  }

  /** `head(n)`: the same columns over the first `n` rows (all but the last
      `-n` for a negative `n`). */
  function HeadRows(d: Dataset, n: int): (r: Dataset)
    requires Valid(d)
    ensures Valid(r)
    ensures r.name == d.name && r.columns == d.columns && r.kinds == d.kinds
    ensures n >= 0 ==> |r.rows| == if n < |d.rows| then n else |d.rows|
    ensures |r.rows| <= |d.rows| && r.rows == d.rows[..|r.rows|]
  {
    d.(rows := Head(d.rows, n))
  }

  /** `tail(n)`: the same columns over the last `n` rows (all but the first
      `-n` for a negative `n`). */
  function TailRows(d: Dataset, n: int): (r: Dataset)
    requires Valid(d)
    ensures Valid(r)
    ensures r.name == d.name && r.columns == d.columns && r.kinds == d.kinds
    ensures n >= 0 ==> |r.rows| == if n < |d.rows| then n else |d.rows|
    ensures |r.rows| <= |d.rows| && r.rows == d.rows[|d.rows| - |r.rows|..]
  {
    var t := Tail(d.rows, n);
    assert t == d.rows[|d.rows| - |t|..];
    d.(rows := t)
  }

  /** The names of the columns of dtype `k`, in table order
      (`select_dtypes(...).columns.tolist()`). */
  function ColumnsOf(d: Dataset, k: Kind): (r: seq<string>)
    requires Valid(d)
    ensures IsSubsequence(r, d.columns)
    ensures forall j :: 0 <= j < |d.columns| ==> (d.columns[j] in r <==> d.kinds[j] == k)
  {
    FilterBy(d.columns, d.kinds, (x: Kind) => x == k)
  }

  function NumericColumns(d: Dataset): (r: seq<string>)
    requires Valid(d)
    ensures IsSubsequence(r, d.columns)
    ensures forall j :: 0 <= j < |d.columns| ==> (d.columns[j] in r <==> d.kinds[j] == Number)
  {
    ColumnsOf(d, Number)
  }

  function TextColumns(d: Dataset): (r: seq<string>)
    requires Valid(d)
    ensures IsSubsequence(r, d.columns)
    ensures forall j :: 0 <= j < |d.columns| ==> (d.columns[j] in r <==> d.kinds[j] == Object)
  {
    ColumnsOf(d, Object)
  }

  function DateColumns(d: Dataset): (r: seq<string>)
    requires Valid(d)
    ensures IsSubsequence(r, d.columns)
    ensures forall j :: 0 <= j < |d.columns| ==> (d.columns[j] in r <==> d.kinds[j] == Datetime64)
  {
    ColumnsOf(d, Datetime64)
  }

  /** No column is listed under two dtypes. */
  lemma KindListsDisjoint(d: Dataset, c: string)
    requires Valid(d)
    ensures !(c in NumericColumns(d) && c in TextColumns(d))
    ensures !(c in NumericColumns(d) && c in DateColumns(d))
    ensures !(c in TextColumns(d) && c in DateColumns(d))
  {
    if c in NumericColumns(d) || c in TextColumns(d) || c in DateColumns(d) {
      SubsequenceMember(NumericColumns(d), d.columns, c);
      SubsequenceMember(TextColumns(d), d.columns, c);
      SubsequenceMember(DateColumns(d), d.columns, c);
      var j :| 0 <= j < |d.columns| && d.columns[j] == c;
    }
  }

  /** An element of a subsequence is an element of the whole. */
  lemma {:induction false} SubsequenceMember(sub: seq<string>, s: seq<string>, x: string)
    requires IsSubsequence(sub, s)
    ensures x in sub ==> x in s
  {
    if |sub| > 0 && |s| > 0 {
      if sub[0] == s[0] && IsSubsequence(sub[1..], s[1..]) {
        SubsequenceMember(sub[1..], s[1..], x);
        assert sub == [sub[0]] + sub[1..];
      } else {
        SubsequenceMember(sub, s[1..], x);
      }
    }
  }

  /** `drop` raises `KeyError` naming the selected labels that are not
      columns; `reindex` raises `ValueError` on repeated labels. */
  datatype ConvertError = UnknownColumns(names: set<string>) | DuplicateLabels

  datatype Result<T> = Success(value: T) | Failure(error: ConvertError)

  /** Column `j` is selected, the table has a row, and every present cell
      of the column parses. On a table with no rows `DataFrame.apply`
      returns its input unchanged, so nothing is converted. */
  predicate Converts(d: Dataset, selected: seq<string>, parse: Cell -> Option<int>, j: nat)
    requires Valid(d) && j < |d.columns|
  {
    |d.rows| > 0 &&
    d.columns[j] in selected &&
    forall i | 0 <= i < |d.rows| :: d.rows[i][j].Some? ==> parse(d.rows[i][j].value).Some?
  }

  /** A present cell becomes the timestamp it parses to; missing stays
      missing (NaT). */
  function ToTime(o: Option<Cell>, parse: Cell -> Option<int>): Option<Cell>
    requires o.Some? ==> parse(o.value).Some?
  {
    if o.Some? then Some(Time(parse(o.value).value)) else None
  }

  /** `convert_to_datetime(columns)`: drops the selected columns, applies
      `pd.to_datetime(errors="ignore")` to each of them and puts the table
      back in its original column order; on a table with no rows the
      `apply` leaves every column as it is. `parse` stands for
      `pd.to_datetime` on one cell. A selected name that is not a column
      fails as `drop` does; a name selected twice fails as the final
      `reindex` does on repeated labels. Otherwise each selected column
      whose present cells all parse becomes a date column, and every other
      column is returned unchanged. */
  function ConvertToDatetime(d: Dataset, selected: seq<string>, parse: Cell -> Option<int>): (r: Result<Dataset>)
    requires Valid(d)
    ensures r.Failure? && r.error.UnknownColumns? <==> exists c :: c in selected && c !in d.columns
    ensures r.Failure? && r.error.UnknownColumns? ==> forall c :: c in r.error.names <==> c in selected && c !in d.columns
    ensures r.Failure? && r.error.DuplicateLabels? <==>
      (forall c :: c in selected ==> c in d.columns) &&
      exists i, j :: 0 <= i < j < |selected| && selected[i] == selected[j]
    ensures r.Success? ==> Valid(r.value)
    ensures r.Success? ==> r.value.name == d.name && r.value.columns == d.columns && |r.value.rows| == |d.rows|
    ensures r.Success? ==> forall j :: 0 <= j < |d.columns| && !Converts(d, selected, parse, j) ==>
      r.value.kinds[j] == d.kinds[j] && forall i :: 0 <= i < |d.rows| ==> r.value.rows[i][j] == d.rows[i][j]
    ensures r.Success? ==> forall j :: 0 <= j < |d.columns| && Converts(d, selected, parse, j) ==>
      r.value.kinds[j] == Datetime64 &&
      forall i :: 0 <= i < |d.rows| ==> r.value.rows[i][j] == ToTime(d.rows[i][j], parse)
  {
    var unknown := set c | c in selected && c !in d.columns;
    if unknown != {} then
      Failure(UnknownColumns(unknown))
    else if exists i, j | 0 <= i < j < |selected| :: selected[i] == selected[j] then
      assert forall c | c in selected :: c in d.columns by {
        assert forall c | c in selected && c !in d.columns :: c in unknown;
      }
      Failure(DuplicateLabels)
    else
      assert forall c | c in selected :: c in d.columns by {
        assert forall c | c in selected && c !in d.columns :: c in unknown;
      }
      var conv := seq(|d.columns|, j requires 0 <= j < |d.columns| => Converts(d, selected, parse, j));
      var kinds := seq(|d.columns|, j requires 0 <= j < |d.columns| => if conv[j] then Datetime64 else d.kinds[j]);
      var rows := seq(|d.rows|, i requires 0 <= i < |d.rows| =>
        seq(|d.columns|, j requires 0 <= j < |d.columns| =>
          if conv[j] then ToTime(d.rows[i][j], parse) else d.rows[i][j]));
      Success(Dataset(d.name, d.columns, kinds, rows))
  }

  /** Converting no column returns the table unchanged. */
  lemma ConvertNothing(d: Dataset, parse: Cell -> Option<int>)
    requires Valid(d)
    ensures ConvertToDatetime(d, [], parse) == Success(d)
  {
    var r := ConvertToDatetime(d, [], parse);
    assert r.Success?;
    forall j | 0 <= j < |d.columns| ensures !Converts(d, [], parse, j) {
    }
    assert r.value.kinds == d.kinds;
    forall i | 0 <= i < |d.rows| ensures r.value.rows[i] == d.rows[i] {
      assert |r.value.rows[i]| == |d.rows[i]|;
    }
    assert r.value.rows == d.rows;
    assert r.value == d;
  }

  /** A table with no rows comes back unchanged from any selection that
      does not fail: no column becomes a date column. */
  lemma ConvertNoRows(d: Dataset, selected: seq<string>, parse: Cell -> Option<int>)
    requires Valid(d) && |d.rows| == 0
    requires ConvertToDatetime(d, selected, parse).Success?
    ensures ConvertToDatetime(d, selected, parse) == Success(d)
  {
    var r := ConvertToDatetime(d, selected, parse).value;
    assert r.kinds == d.kinds;
    assert r.rows == d.rows;
  }

  /** After a successful conversion, every converted column is listed
      among the date columns. */
  lemma ConvertedAreDates(d: Dataset, selected: seq<string>, parse: Cell -> Option<int>, j: nat)
    requires Valid(d) && j < |d.columns|
    requires ConvertToDatetime(d, selected, parse).Success?
    requires Converts(d, selected, parse, j)
    ensures d.columns[j] in DateColumns(ConvertToDatetime(d, selected, parse).value)
  {
    var r := ConvertToDatetime(d, selected, parse).value;
    assert r.kinds[j] == Datetime64;
  }
}
