# Column statistics of the data explorer

This project models the statistics engine of the data explorer web app. The
app loads a CSV file into a `Dataset` and summarises each column with a
`NumericColumn`, `TextColumn` or `DateColumn` analyser. Everything the engine
computes is a pandas expression over an immutable series or frame, so the
model is written as datatypes, functions and lemmas:

- `Sequences`: counting by predicate, with a reference definition by index
  sets, plus pandas `head`/`tail` slicing (negative `n` included) and an
  order-preserving filter.
- `Column`: a series is `seq<Option<T>>`, with `None` standing for
  NaN/NaT. It defines the counters every analyser shares: missing,
  non-missing, unique, counts by predicate, and the least/greatest value.
- `Frequency`: the frequency table that all three analysers build
  (`value_counts`, normalised shares, sort by occurrence, `head(n)`). It is
  defined once here and reused by all three.
- `Numeric`, `Text`, `Datetime`: the counters of each analyser.
- `Data`: the dataset wrapper. It covers shape, dtypes, duplicate and
  missing rows, head and tail, dtype partitions and `convert_to_datetime`.

Modelling choices:

- Numbers are exact reals.
- Timestamps are whole seconds since 1970-01-01. The day is the floor of
  `t / 86400`, and the weekday is `(day + 3) % 7` with Monday as 0.
- The current time (`datetime.today()`) is a parameter of `Future`.
- `pd.to_datetime` on one cell is a parameter `parse: Cell -> Option<int>`,
  which returns `None` when the cell does not parse.
- Python's string predicates and `strip` are modelled over ASCII.
- The order of equally frequent values in the frequency table is left
  unspecified by pandas. The model breaks such ties by first appearance,
  and no contract depends on that choice.
- The pandas behaviour modelled is that of pandas 1.x. There, comparing
  `dt.date` with a `Timestamp` compares calendar dates, and `to_datetime`
  parses a column cell by cell.
- Text and date analysers: the model follows the code, not the newer
  interface their tests use. `get_frequent` keeps a fixed 20 rows and takes
  no `n_head`, and `get_mode` returns every mode.

## Model

| member | source | states |
|---|---|---|
| Sequences.Count | src/numeric.py:40-46 | the `(predicate).sum()` count equals the number of positions whose element satisfies the predicate, and never exceeds the length |
| Sequences.CountSplit | src/text.py:34-46 | counting by a predicate that is the disjoint union of two others gives the sum of their counts |
| Sequences.Head | src/data.py:53-55 | `head(n)`: `min(n, len)` leading elements for `n >= 0`, all but the last `-n` for negative `n`; the result is a prefix |
| Sequences.Tail | src/data.py:57-59 | `tail(n)`: `min(n, len)` trailing elements for `n >= 0`, all but the first `-n` for negative `n`; each element is the matching one at the end |
| Sequences.FilterBy | src/data.py:65-75 | keeping the elements whose tag passes gives an order-preserving subsequence holding exactly those elements |
| Column.Present | src/numeric.py:32-34 | `dropna()`: the present values are exactly the values of the non-missing rows, each occurring as often as there are rows holding it |
| Column.Missing | src/numeric.py:36-38 | `isna().sum()` plus the non-missing count equals the column length, and equals the number of missing positions |
| Column.CountIf | src/numeric.py:40-46 | summing a value predicate counts matching cells, never a missing one, and is at most the non-missing count |
| Column.CountIfDisjoint | src/numeric.py:40-46 | two predicates no value satisfies together count at most the non-missing rows between them |
| Column.CountIfSplit | src/text.py:34-46 | a predicate that is the disjoint union of two others counts their sum |
| Column.CountIfComplement | src/datetime.py:34-44 | a predicate and its negation together count exactly the non-missing rows |
| Column.DistinctBound | src/numeric.py:32-34 | a sequence has at most as many distinct elements as its length, and a non-empty one has at least one |
| Column.Unique | src/numeric.py:32-34 | `nunique()` equals the number of different values held by non-missing rows; it is at most the non-missing count and zero exactly when every row is missing |
| Column.Least | src/numeric.py:56-62 | under a total order, the chosen value occurs in the column and is below or equal to every present value |
| Frequency.Bump | src/numeric.py:68-70 | adding one occurrence of a value to a tally raises that value's count by one and keeps values distinct and counts positive |
| Frequency.Tally | src/numeric.py:68-70 | the tally of a sequence lists each of its distinct elements once, with its multiplicity, and the counts add up to the length |
| Frequency.Insert | src/numeric.py:109 | inserting a line keeps every line (a permutation) and grows the table by one |
| Frequency.InsertSorted | src/numeric.py:109 | inserting into a table sorted by descending occurrence keeps it sorted |
| Frequency.Rank | src/numeric.py:109 | the result is sorted by descending occurrence and is a permutation of its input with the same total |
| Frequency.RankDistinct | src/numeric.py:109 | ranking a tally whose values are all different gives a table whose values are all different |
| Frequency.Occurrences | src/numeric.py:68-70 | `value_counts()`: every distinct present value exactly once with its true count, most frequent first; one line per distinct value; counts add up to the non-missing rows |
| Frequency.Percentages | src/numeric.py:72-78 | `value_counts(normalize=True)`: keyed by exactly the distinct present values; each share is occurrence over non-missing count and lies in (0, 1] |
| Frequency.Table | src/numeric.py:106-109 | the joined and sorted table has one line per distinct present value, no value twice, each line carrying its true count and its share of the non-missing rows (in (0, 1]), with counts never increasing |
| Frequency.PrefixDominates | src/numeric.py:109-110 | the first lines of a ranked table that lists every present value leave out no value that occurs more often than a line they keep |
| Frequency.TableValues | src/numeric.py:106-109 | the joined table lists exactly the values present in the column |
| Frequency.Frequent | src/numeric.py:104-112 | `get_frequent(n_head)`: `min(n_head, distinct values)` lines for `n_head >= 0`, at most the distinct count always, empty for a column without values, every line ranked as in `Frequency.Table`, and no value left out occurs more often than a listed line |
| Frequency.RankedPrefix | src/numeric.py:110 | cutting a ranked table to its first lines keeps it ranked |
| Frequency.SumPctShares | src/numeric.py:72-78 | percentages that are occurrence over a total add up to the summed occurrences over that total |
| Frequency.TableSumsToOne | src/numeric.py:72-78 | the full table's percentages add up to exactly 1 when the column has a value |
| Frequency.FullTableSumsToOne | src/numeric.py:104-112 | with `n_head` at least the distinct count, the percentages add up to 1 and the table lists exactly the present values |
| Frequency.FrequentSumAtMostOne | src/numeric.py:104-112 | the possibly truncated table's percentages add up to at most 1 |
| Frequency.PrefixSumAtMostOne | src/numeric.py:104-112 | the first k lines of the ranked table have percentages adding up to at most 1 |
| Frequency.Top | src/text.py:105-125 | text and date `get_frequent()`: 20 lines or the distinct count if fewer, ranked, holding the most frequent values, with percentages summing to at most 1 and to exactly 1 when all values fit |
| Datetime.FrequentWithinRange | src/datetime.py:103-123 | date `get_frequent()` (the 20-line table of `Frequency.Top`): every line is a date of the column, between its minimum and maximum |
| Numeric.Zeros | src/numeric.py:40-42 | `(serie == 0).sum()` counts exactly the rows holding 0, never a missing one |
| Numeric.Negatives | src/numeric.py:44-46 | `(serie < 0).sum()` counts exactly the rows holding a negative value, never a missing one |
| Numeric.ZerosNegativesDisjoint | src/numeric.py:40-46 | zeros plus negatives never exceed the non-missing count |
| Numeric.Min | src/numeric.py:56-58 | `min()` is NaN exactly when no value is present; otherwise it occurs in the column and is at most every value |
| Numeric.Max | src/numeric.py:60-62 | `max()` is NaN exactly when no value is present; otherwise it occurs in the column and is at least every value |
| Numeric.MinAtMostMax | src/numeric.py:56-62 | with a value present, min is at most max |
| Numeric.NoValues | src/test/test_numeric.py:290-384 | an empty or all-missing column has missing equal to its length, unique, zeros and negatives 0, no min or max, and an empty table |
| Text.LStrip | src/text.py:38-40 | the left-stripped string is a suffix, everything removed is whitespace, and it does not start with whitespace |
| Text.RStrip | src/text.py:38-40 | the right-stripped string is a prefix, everything removed is whitespace, and it does not end with whitespace |
| Text.Strip | src/text.py:39 | `strip()` gives a slice of the string that neither starts nor ends with whitespace, with only whitespace before and after it |
| Text.StripEmpty | src/text.py:38-40 | `strip()` gives `""` exactly for the empty string and the whitespace-only strings |
| Text.EmptyAsWritten | src/text.py:34-41 | as written, the empty count is the count of `""` plus the whitespace-only count |
| Text.Empty | src/text.py:34-37 | corrected: the rows holding exactly `""`; with the whitespace rows they never exceed the non-missing count |
| Text.EmptyAsWrittenOvercounts | src/text.py:34-46 | the as-written count exceeds the corrected one by exactly the whitespace-only rows |
| Text.EmptyAsWrittenCountsSpace | src/text.py:38-40 | on the column `[" "]` the as-written count is 1 and the corrected count 0 |
| Text.Whitespace | src/text.py:42-46 | `str.isspace().sum()` counts exactly the non-empty whitespace-only rows, never `""` or a missing row |
| Text.Lowercase | src/text.py:48-52 | `str.islower().sum()` counts exactly the rows with a lower-case letter and no upper-case letter |
| Text.Uppercase | src/text.py:54-58 | `str.isupper().sum()` counts exactly the rows with an upper-case letter and no lower-case letter |
| Text.Alphabet | src/text.py:60-64 | `str.isalpha().sum()` counts exactly the non-empty rows made of letters |
| Text.Digit | src/text.py:66-70 | `str.isdigit().sum()` counts exactly the non-empty rows made of digits |
| Text.CaseCounts | src/text.py:48-58 | no row is both lower and upper case, nor cased and whitespace-only, so each pair of those counts is at most the non-missing count |
| Text.ClassCounts | src/text.py:60-70 | no row is both alphabetic and numeric, and neither counter counts a row holding whitespace |
| Text.InsertSorted | src/text.py:76 | inserting a string into a strictly sorted list keeps it strictly sorted and adds exactly that string |
| Text.SortedSet | src/text.py:76 | the distinct elements in strictly ascending string order |
| Text.TopCount | src/text.py:76 | the largest number of occurrences: no value occurs more often, and some value reaches it when any is present |
| Text.Modes | src/text.py:72-76 | `mode(dropna=True)`: exactly the values no other value outnumbers, strictly sorted, empty exactly when no value is present |
| Text.NoValues | src/text.py:21-76 | an empty or all-missing column has every counter 0, missing equal to its length, no mode and an empty table |
| Datetime.Day | src/datetime.py:52-62 | the calendar day of a timestamp is the one whose seconds range holds it |
| Datetime.Weekday | src/datetime.py:34-44 | `dt.weekday` is between 0 and 6 |
| Datetime.WeekdayNextDay | src/datetime.py:34-44 | one day later the weekday advances by one, Sunday wrapping to Monday |
| Datetime.Anchors | src/datetime.py:52-62 | 1970-01-01 was a Thursday and 1900-01-01 a Monday |
| Datetime.Weekend | src/datetime.py:34-38 | `dt.weekday.isin([5, 6]).sum()` counts exactly the Saturdays and Sundays |
| Datetime.WeekdayAsWritten | src/datetime.py:40-44 | as written, counts exactly the rows with weekday 1 to 5 (Tuesday to Saturday), at most the non-missing count |
| Datetime.Weekdays | src/datetime.py:40-43 | corrected: Monday to Friday; with the weekend count it makes up exactly the non-missing rows |
| Datetime.WeekdayAsWrittenMiscounts | src/datetime.py:44 | as written, one Saturday counts twice (weekend and weekday) and one Monday counts as neither |
| Datetime.Future | src/datetime.py:46-50 | counts exactly the values strictly after the given current time, never a missing row |
| Datetime.SameDay | src/datetime.py:52-62 | a timestamp is on a given day exactly when it lies in that day's range of seconds |
| Datetime.OnDay | src/datetime.py:52-62 | counts the values anywhere within a given calendar day, whatever their time of day |
| Datetime.Empty1900 | src/datetime.py:52-56 | counts the values on 1900-01-01 at any time of day |
| Datetime.Empty1970 | src/datetime.py:58-62 | counts the values on 1970-01-01 at any time of day |
| Datetime.Min | src/datetime.py:64-68 | the earliest value: NaT exactly when none is present, otherwise a value of the column and no later than any |
| Datetime.Max | src/datetime.py:70-74 | the latest value: NaT exactly when none is present, otherwise a value of the column and no earlier than any |
| Datetime.MinAtMostMax | src/datetime.py:64-74 | with a value present, the earliest is no later than the latest |
| Datetime.NoValues | src/test/test_datetime.py:325-332 | an empty or all-missing column has every counter 0, no extremes and an empty table |
| Data.NCols | src/data.py:33-35 | `shape[1]` is the number of dtypes and the length of every row |
| Data.ColsDtype | src/data.py:41-43 | the dtype map's keys are exactly the column names, each mapped to the kind (number, object, datetime or other) of that column |
| Data.Duplicates | src/data.py:45-47 | counts exactly the rows equal to an earlier row |
| Data.NDuplicates | src/data.py:45-47 | `duplicated().sum()` counts exactly the rows equal to an earlier row, at most the row count |
| Data.DuplicatesDistinct | src/data.py:45-47 | duplicates plus distinct rows make up all the rows |
| Data.NMissing | src/data.py:49-51 | counts exactly the rows with a missing cell, at most the row count |
| Data.HeadRows | src/data.py:53-55 | same name, columns and dtypes over the first `min(n, rows)` rows, in order |
| Data.TailRows | src/data.py:57-59 | same name, columns and dtypes over the last `min(n, rows)` rows, in order |
| Data.ColumnsOf | src/data.py:65-75 | the columns of one dtype, as an order-preserving subsequence of the column list |
| Data.NumericColumns | src/data.py:65-67 | an order-preserving subsequence holding exactly the number columns |
| Data.TextColumns | src/data.py:69-71 | an order-preserving subsequence holding exactly the object columns |
| Data.DateColumns | src/data.py:73-75 | an order-preserving subsequence holding exactly the datetime columns |
| Data.KindListsDisjoint | src/data.py:65-75 | no column appears in two of the three dtype lists |
| Data.SubsequenceMember | src/data.py:65-75 | every element of an order-preserving subsequence is an element of the whole |
| Data.ConvertToDatetime | src/data.py:77-85 | fails exactly when a selected name is not a column (naming all such) or a name is selected twice; otherwise keeps name, column order and row count, converts each selected column whose present cells all parse when the table has rows, and leaves every other column unchanged |
| Data.ConvertNothing | src/data.py:79-85 | converting no column returns the table unchanged |
| Data.ConvertNoRows | src/data.py:82 | on a table with no rows a conversion that does not fail returns the table unchanged, because `apply` on an empty frame returns it as it is |
| Data.ConvertedAreDates | src/data.py:82 | on a table with rows, each selected column whose present cells all parse is afterwards listed among the date columns |

## Left out

- Mean, standard deviation and median (src/numeric.py:48-54, 64-66) are left out because they are floating-point statistics.
- The 4-decimal rounding of numeric percentages (src/numeric.py:76) is left out: the model keeps the exact share. Rounded shares can sum to more than 1: the shares 4/6, 1/6 and 1/6 round to 0.6667, 0.1667 and 0.1667, which sum to 1.0001.
- Frequency.TableSumsToOne: holds for the exact shares only; the numeric table's rounded shares can sum to slightly more or less than 1.
- Frequency.FrequentSumAtMostOne: holds for the exact shares only; after the numeric table's rounding a full table can sum to 1.0001.
- Frequency.PrefixSumAtMostOne: holds for the exact shares only, as above.
- Data.ColsDtype: maps each column to one of four kinds, not to pandas' dtype strings such as `"int64"`, `"float64"` or `"datetime64[ns]"`, since the analysers only use the kind.
- Pandas 2 behaviour is left out. There a `dt.date` never equals a `Timestamp`, so both sentinel-date counts would be 0, and `to_datetime` infers one format for a whole column.
- The `percentage100` string column of the text and date tables is left out, because it is string formatting.
- The `str(...)` rendering of the date minimum and maximum is left out. `Datetime.Min` and `Datetime.Max` return the timestamp, or `None` for NaT.
- Histograms and bar charts (`get_histogram`, `get_barchart`) are left out: they only build plotly figures.
- `get_sample` is left out because it is random.
- `get_name` of every class returns a stored field unchanged, and so does `get_cols_list` (the `columns` field of `Data.Dataset`); `get_n_rows` returns `shape[0]`, which is `|d.rows|`; none of them has its own function.
- `datetime.today()` is the `now` parameter of `Datetime.Future`.
- `pd.to_datetime` is the `parse` parameter of `Data.ConvertToDatetime`. A cell it would turn into NaT is not told apart from a successful parse.
- Python's Unicode character classes are modelled over ASCII only.
- Pandas' nanosecond timestamps and time zones are left out; timestamps are whole seconds.
- `Data.Valid` assumes distinct column names, as `read_csv` produces. A frame with repeated names is not modelled.
- The Streamlit sections, canvas, upload page, settings loading and `read_csv` are left out: they are user-interface plumbing.
- Frequency.Frequent: the order of equally frequent values is fixed by first appearance, but no contract states it, because pandas does not promise one.

## Findings

| source | as written | input that shows it | evidently intended | confidence | as-written member | corrected member |
|---|---|---|---|---|---|---|
| src/text.py:38-40 | `get_empty` counts values whose `strip()` is `""`, so whitespace-only strings count as empty | the column `[" "]` gives 1 instead of 0; the test sample at src/test/test_text.py:207-223 gives 3 where line 242 expects 1 | count only the values equal to `""` | not executed | Text.EmptyAsWrittenCountsSpace | Text.Empty |
| src/datetime.py:44 | `get_weekday` counts weekday numbers 1 to 5, which are Tuesday to Saturday | one Saturday (1970-01-03) is counted as both weekend and weekday; one Monday (1900-01-01) is counted as neither | count Monday to Friday (0 to 4), so that weekend plus weekday equals the non-missing count | not executed | Datetime.WeekdayAsWrittenMiscounts | Datetime.Weekdays |
