/** `DateColumn`: the counters of a column of timestamps. A timestamp is a
    whole number of seconds since 1970-01-01 00:00:00 (negative before it);
    pandas' nanosecond resolution and time zones are not modelled. */
module Datetime {
  import opened Sequences
  import opened Column
  import Frequency

  type Timestamp = int

  const SecondsPerDay := 86400

  /** Days since 1970-01-01 of 1900-01-01, and of 1970-01-01 itself. */
  const Day1900 := -25567
  const Day1970 := 0

  /** The calendar day holding `t`, counted from 1970-01-01 (floor
      division, so a time before the epoch falls on an earlier day). */
  function Day(t: Timestamp): (d: int)
    ensures d * SecondsPerDay <= t < (d + 1) * SecondsPerDay
  {
    t / SecondsPerDay
  }

  /** `dt.weekday`: Monday is 0 and Sunday 6; 1970-01-01 was a Thursday. */
  function Weekday(t: Timestamp): (w: int)
    ensures 0 <= w < 7
  {
    (Day(t) + 3) % 7
  }

  /** The weekday advances by one, Sunday wrapping to Monday, from one day
      to the next at the same time. */
  lemma WeekdayNextDay(t: Timestamp)
    ensures Weekday(t + SecondsPerDay) == (Weekday(t) + 1) % 7
  {
    var d := Day(t);
    assert Day(t + SecondsPerDay) == d + 1 by {
      var e := Day(t + SecondsPerDay);
      assert d * SecondsPerDay + SecondsPerDay <= t + SecondsPerDay < (d + 2) * SecondsPerDay;
      assert e * SecondsPerDay <= t + SecondsPerDay < (e + 1) * SecondsPerDay;
    }
  }

  /** The calendar anchors: 1970-01-01 was a Thursday and 1900-01-01 a
      Monday. */
  lemma Anchors()
    ensures Weekday(Day1970 * SecondsPerDay) == 3
    ensures Weekday(Day1900 * SecondsPerDay) == 0
  {
  }

  /** `dt.weekday.isin([5, 6]).sum()`: the Saturdays and Sundays. */
  function Weekend(col: Series<Timestamp>): (r: nat)
    ensures r == |set i | 0 <= i < |col| && col[i].Some? && Weekday(col[i].value) >= 5|
    ensures r <= NonMissing(col)
  {
    var weekend := (t: Timestamp) => Weekday(t) >= 5;
    assert Indices(col, Holds(weekend)) == set i | 0 <= i < |col| && col[i].Some? && Weekday(col[i].value) >= 5;
    CountIf(col, weekend)
  }

  /** `get_weekday` as written: `dt.weekday.isin([1, 2, 3, 4, 5]).sum()`,
      which counts Tuesday to Saturday although the method is meant to
      count the days that are not Saturday or Sunday. */
  function WeekdayAsWritten(col: Series<Timestamp>): (r: nat)
    ensures r == |set i | 0 <= i < |col| && col[i].Some? && 1 <= Weekday(col[i].value) <= 5|
    ensures r <= NonMissing(col)
  {
    var oneToFive := (t: Timestamp) => 1 <= Weekday(t) <= 5;
    assert Indices(col, Holds(oneToFive)) == set i | 0 <= i < |col| && col[i].Some? && 1 <= Weekday(col[i].value) <= 5;
    CountIf(col, oneToFive)
  }

  /** Monday to Friday: the days that are not Saturday or Sunday. */
  function Weekdays(col: Series<Timestamp>): (r: nat)
    ensures r == |set i | 0 <= i < |col| && col[i].Some? && Weekday(col[i].value) <= 4|
    ensures r + Weekend(col) == NonMissing(col)
  {
    var workday := (t: Timestamp) => Weekday(t) <= 4;
    assert Indices(col, Holds(workday)) == set i | 0 <= i < |col| && col[i].Some? && Weekday(col[i].value) <= 4;
    CountIfComplement(col, workday, (t: Timestamp) => Weekday(t) >= 5);
    assert Weekend(col) == CountIf(col, (t: Timestamp) => Weekday(t) >= 5);
    CountIf(col, workday)
  }

  /** A single Saturday (1970-01-03) is counted both as weekend and, as
      written, as a weekday; a single Monday (1900-01-01) is counted as
      neither. */
  lemma WeekdayAsWrittenMiscounts()
    ensures var sat: Series<Timestamp> := [Some(2 * SecondsPerDay)];
      Weekend(sat) + WeekdayAsWritten(sat) == 2 && NonMissing(sat) == 1
    ensures var mon: Series<Timestamp> := [Some(Day1900 * SecondsPerDay)];
      Weekend(mon) + WeekdayAsWritten(mon) == 0 && Weekdays(mon) == 1
  {
    var sat: Series<Timestamp> := [Some(2 * SecondsPerDay)];
    assert sat[..0] == [];
    assert Weekday(2 * SecondsPerDay) == 5;
    assert Present(sat) == [2 * SecondsPerDay];
    var mon: Series<Timestamp> := [Some(Day1900 * SecondsPerDay)];
    assert mon[..0] == [];
    assert Weekday(Day1900 * SecondsPerDay) == 0;
  }

  /** `(serie > datetime.today()).sum()` with the current time as a
      parameter: the values strictly after `now`; a missing row compares
      false. */
  function Future(col: Series<Timestamp>, now: Timestamp): (r: nat)
    ensures r == |set i | 0 <= i < |col| && col[i].Some? && col[i].value > now|
    ensures r <= NonMissing(col)
  {
    var later := (t: Timestamp) => t > now;
    assert Indices(col, Holds(later)) == set i | 0 <= i < |col| && col[i].Some? && col[i].value > now;
    CountIf(col, later)
  }

  /** The values falling on calendar day `day`, at any time of that day
      (`dt.date == Timestamp(...)` compares dates only). */
  function OnDay(col: Series<Timestamp>, day: int): (r: nat)
    ensures r == |set i | 0 <= i < |col| && col[i].Some? &&
      day * SecondsPerDay <= col[i].value < (day + 1) * SecondsPerDay|
    ensures r <= NonMissing(col)
  {
    var on := (t: Timestamp) => Day(t) == day;
    forall t: Timestamp ensures on(t) <==> day * SecondsPerDay <= t < (day + 1) * SecondsPerDay {
      SameDay(t, day);
    }
    assert Indices(col, Holds(on)) == set i | 0 <= i < |col| && col[i].Some? &&
      day * SecondsPerDay <= col[i].value < (day + 1) * SecondsPerDay;
    CountIf(col, on)
  }

  /** A time lies on day `day` exactly when it lies in that day's range of
      seconds. */
  lemma SameDay(t: Timestamp, day: int)
    ensures Day(t) == day <==> day * SecondsPerDay <= t < (day + 1) * SecondsPerDay
  {
    var d := Day(t);
    if d < day {
      assert (d + 1) * SecondsPerDay <= day * SecondsPerDay;
    } else if d > day {
      assert (day + 1) * SecondsPerDay <= d * SecondsPerDay;
    }
  }

  /** `get_empty_1900`: the values on 1900-01-01. */
  function Empty1900(col: Series<Timestamp>): (r: nat)
    ensures r == |set i | 0 <= i < |col| && col[i].Some? &&
      -2208988800 <= col[i].value < -2208902400|
  {
    OnDay(col, Day1900)
  }

  /** `get_empty_1970`: the values on 1970-01-01. */
  function Empty1970(col: Series<Timestamp>): (r: nat)
    ensures r == |set i | 0 <= i < |col| && col[i].Some? && 0 <= col[i].value < 86400|
  {
    OnDay(col, Day1970)
  }

  /** `serie.min()`: the earliest value, missing rows skipped; `None`
      (NaT) exactly when the column holds no value. */
  function Min(col: Series<Timestamp>): (r: Option<Timestamp>)
    ensures r.None? <==> NonMissing(col) == 0
    ensures r.Some? ==> Some(r.value) in col
    ensures r.Some? ==> forall v :: Some(v) in col ==> r.value <= v
  {
    if NonMissing(col) > 0 then Some(Least(col, (a: int, b: int) => a <= b)) else None
  }

  /** `serie.max()`: the latest value, missing rows skipped; `None` exactly
      when the column holds no value. */
  function Max(col: Series<Timestamp>): (r: Option<Timestamp>)
    ensures r.None? <==> NonMissing(col) == 0
    ensures r.Some? ==> Some(r.value) in col
    ensures r.Some? ==> forall v :: Some(v) in col ==> v <= r.value
  {
    if NonMissing(col) > 0 then Some(Least(col, (a: int, b: int) => a >= b)) else None
  }

  /** With a value present, the earliest is no later than the latest. */
  lemma MinAtMostMax(col: Series<Timestamp>)
    requires NonMissing(col) > 0
    ensures Min(col).Some? && Max(col).Some? && Min(col).value <= Max(col).value
  {
    var v := Present(col)[0];
    assert v in Present(col);
  }

  /** `get_frequent()` on dates: every line of the 20-line ranked table is
      a date of the column, between its earliest and its latest value. */
  lemma FrequentWithinRange(col: Series<Timestamp>)
    ensures forall i :: 0 <= i < |Frequency.Top(col)| ==>
      Some(Frequency.Top(col)[i].value) in col &&
      Min(col).Some? && Min(col).value <= Frequency.Top(col)[i].value <= Max(col).value
  {
    var r := Frequency.Top(col);
    forall i | 0 <= i < |r| ensures Some(r[i].value) in col && Min(col).Some? {
      assert r[i].value in multiset(Present(col));
    }
  }

  /** On an empty or all-missing column every counter is 0, both extremes
      are NaT and the frequency table is empty. */
  lemma {:induction false} NoValues(col: Series<Timestamp>, now: Timestamp)
    requires forall i :: 0 <= i < |col| ==> col[i].None?
    ensures Missing(col) == |col| && Unique(col) == 0
    ensures Weekend(col) == 0 && WeekdayAsWritten(col) == 0 && Weekdays(col) == 0
    ensures Future(col, now) == 0 && Empty1900(col) == 0 && Empty1970(col) == 0
    ensures Min(col).None? && Max(col).None?
    ensures Frequency.Top(col) == []
  {
    assert forall v :: Some(v) !in col;
    if NonMissing(col) > 0 {
      SomeValue(col);
      assert false;
    }
  }
}
