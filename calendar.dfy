/**
 * Python's `datetime`, as far as app.py uses it: a proleptic Gregorian date
 * in years 1..9999 with a time of day to the second, and the addition of a
 * `timedelta(minutes=...)`, which raises OverflowError past 9999-12-31.
 * Microseconds never change under whole-minute steps and are not modelled.
 */
module Calendar {
  import opened Wrappers

  /** `datetime.MAXYEAR`. */
  const MaxYear := 9999

  predicate IsLeap(y: int) {
    y % 4 == 0 && (y % 100 != 0 || y % 400 == 0)
  }

  function DaysInMonth(y: int, m: int): (r: int)
    ensures 28 <= r <= 31
    ensures r == 29 <==> m == 2 && IsLeap(y)
  {
    if m == 2 then (if IsLeap(y) then 29 else 28)
    else if m == 4 || m == 6 || m == 9 || m == 11 then 30
    else 31
  }

  datatype Date = Date(year: int, month: int, day: int) {
    predicate Valid() {
      1 <= year <= MaxYear && 1 <= month <= 12 && 1 <= day <= DaysInMonth(year, month)
    }
  }

  /** `date.max`. */
  const LastDate := Date(MaxYear, 12, 31)

  datatype DateTime = DateTime(date: Date, hour: int, minute: int, second: int) {
    predicate Valid() {
      date.Valid() && 0 <= hour < 24 && 0 <= minute < 60 && 0 <= second < 60
    }
  }

  /** The last whole second `datetime` can hold. */
  const LastInstant := DateTime(LastDate, 23, 59, 59)

  /** Days in the months of year `y` before month `m` (`m` = 13 gives the whole year). */
  function DaysBeforeMonth(y: int, m: int): int
    requires 1 <= m <= 13
  {
    if m == 1 then 0 else DaysBeforeMonth(y, m - 1) + DaysInMonth(y, m - 1)
  }

  function DaysInYear(y: int): int {
    if IsLeap(y) then 366 else 365
  }

  /** Days in the years 1 .. y-1, in the closed form Python's `datetime` computes it. */
  function DaysBeforeYear(y: int): int
    requires y >= 1
  {
    var a := y - 1;
    a * 365 + a / 4 - a / 100 + a / 400
  }

  /** `date.toordinal()`: 0001-01-01 is day 1. */
  function Ordinal(d: Date): int
    requires d.Valid()
  {
    DaysBeforeYear(d.year) + DaysBeforeMonth(d.year, d.month) + d.day
  }

  /** Seconds since 0001-01-01 00:00:00: the instant a `datetime` denotes. */
  function Seconds(t: DateTime): int
    requires t.Valid()
  {
    (Ordinal(t.date) - 1) * 86400 + t.hour * 3600 + t.minute * 60 + t.second
  }

  /** The following day, or nothing after `date.max`. */
  function NextDay(d: Date): (r: Option<Date>)
    requires d.Valid()
    ensures r.None? <==> d == LastDate
    ensures r.Some? ==> r.value.Valid()
  {
    if d.day < DaysInMonth(d.year, d.month) then Some(Date(d.year, d.month, d.day + 1))
    else if d.month < 12 then Some(Date(d.year, d.month + 1, 1))
    else if d.year < MaxYear then Some(Date(d.year + 1, 1, 1))
    else None
  }

  /** The next day is one ordinal later. */
  lemma NextDayOrdinal(d: Date)
    requires d.Valid() && d != LastDate
    ensures Ordinal(NextDay(d).value) == Ordinal(d) + 1
  {
    if d.day == DaysInMonth(d.year, d.month) && d.month == 12 {
      MonthsFillYear(d.year);
      DaysBeforeYearStep(d.year);
    }
  }

  /** Moving `k` days forward; nothing once the walk passes `date.max`. */
  function AddDays(d: Date, k: nat): (r: Option<Date>)
    requires d.Valid()
    ensures r.Some? ==> r.value.Valid()
    decreases k
  {
    if k == 0 then Some(d)
    else match NextDay(d)
      case None => None
      case Some(n) => AddDays(n, k - 1)
  }

  /** `t + timedelta(minutes=m)`: nothing where Python raises OverflowError. */
  function AddMinutes(t: DateTime, m: nat): (r: Option<DateTime>)
    requires t.Valid()
    ensures r.Some? ==> r.value.Valid()
  {
    var total := t.hour * 60 + t.minute + m;
    var rest := total % 1440;
    match AddDays(t.date, total / 1440)
    case None => None
    case Some(d) => Some(DateTime(d, rest / 60, rest % 60, t.second))
  }

  lemma {:induction false} DaysBeforeMonthMonotone(y: int, m1: int, m2: int)
    requires 1 <= m1 <= m2 <= 13
    ensures DaysBeforeMonth(y, m1) <= DaysBeforeMonth(y, m2)
    decreases m2 - m1
  {
    if m1 < m2 {
      DaysBeforeMonthMonotone(y, m1, m2 - 1);
    }
  }

  /** The twelve months add up to the year. */
  lemma MonthsFillYear(y: int)
    ensures DaysBeforeMonth(y, 13) == DaysInYear(y)
  {
    assert DaysBeforeMonth(y, 2) == 31;
    assert DaysBeforeMonth(y, 3) == 31 + DaysInMonth(y, 2);
    assert DaysBeforeMonth(y, 4) == DaysBeforeMonth(y, 3) + 31;
    assert DaysBeforeMonth(y, 5) == DaysBeforeMonth(y, 3) + 61;
    assert DaysBeforeMonth(y, 6) == DaysBeforeMonth(y, 3) + 92;
    assert DaysBeforeMonth(y, 7) == DaysBeforeMonth(y, 3) + 122;
    assert DaysBeforeMonth(y, 8) == DaysBeforeMonth(y, 3) + 153;
    assert DaysBeforeMonth(y, 9) == DaysBeforeMonth(y, 3) + 184;
    assert DaysBeforeMonth(y, 10) == DaysBeforeMonth(y, 3) + 214;
    assert DaysBeforeMonth(y, 11) == DaysBeforeMonth(y, 3) + 245;
    assert DaysBeforeMonth(y, 12) == DaysBeforeMonth(y, 3) + 275;
  }

  /** The closed form advances by one year's length per year. */
  lemma DaysBeforeYearStep(y: int)
    requires y >= 1
    ensures DaysBeforeYear(y + 1) == DaysBeforeYear(y) + DaysInYear(y)
  {
    var a := y - 1;
    assert y / 4 == a / 4 + (if y % 4 == 0 then 1 else 0);
    assert y / 100 == a / 100 + (if y % 100 == 0 then 1 else 0);
    assert y / 400 == a / 400 + (if y % 400 == 0 then 1 else 0);
    assert y % 400 == 0 ==> y % 100 == 0 && y % 4 == 0;
    assert y % 100 == 0 ==> y % 4 == 0;
  }

  lemma {:induction false} DaysBeforeYearMonotone(y1: int, y2: int)
    requires 1 <= y1 <= y2
    ensures DaysBeforeYear(y1) <= DaysBeforeYear(y2)
    decreases y2 - y1
  {
    if y1 < y2 {
      DaysBeforeYearMonotone(y1, y2 - 1);
      DaysBeforeYearStep(y2 - 1);
    }
  }

  /** Every valid date lies in 1 .. toordinal(date.max), and only `date.max` reaches the top. */
  lemma OrdinalRange(d: Date)
    requires d.Valid()
    ensures 1 <= Ordinal(d) <= Ordinal(LastDate)
    ensures Ordinal(d) == Ordinal(LastDate) <==> d == LastDate
  {
    DaysBeforeYearMonotone(1, d.year);
    DaysBeforeMonthMonotone(d.year, 1, d.month);
    OrdinalUpperBound(d);
    if d != LastDate {
      NextDayOrdinal(d);
      OrdinalUpperBound(NextDay(d).value);
    }
  }

  lemma OrdinalUpperBound(d: Date)
    requires d.Valid()
    ensures Ordinal(d) <= Ordinal(LastDate)
  {
    var y, m := d.year, d.month;
    DaysBeforeMonthMonotone(MaxYear, 1, 12);
    assert DaysBeforeMonth(y, m + 1) == DaysBeforeMonth(y, m) + DaysInMonth(y, m);
    if y < MaxYear {
      DaysBeforeMonthMonotone(y, m + 1, 13);
      MonthsFillYear(y);
      DaysBeforeYearStep(y);
      DaysBeforeYearMonotone(y + 1, MaxYear);
    } else if m < 12 {
      DaysBeforeMonthMonotone(y, m + 1, 12);
    }
  }

  /** Adding `k` days moves the ordinal by exactly `k`, and fails exactly past `date.max`. */
  lemma {:induction false} AddDaysOrdinal(d: Date, k: nat)
    requires d.Valid()
    ensures AddDays(d, k).Some? <==> Ordinal(d) + k <= Ordinal(LastDate)
    ensures AddDays(d, k).Some? ==> AddDays(d, k).value.Valid() && Ordinal(AddDays(d, k).value) == Ordinal(d) + k
    decreases k
  {
    OrdinalRange(d);
    if k > 0 && d != LastDate {
      NextDayOrdinal(d);
      AddDaysOrdinal(NextDay(d).value, k - 1);
    }
  }

  /**
   * `t + timedelta(minutes=m)` is the instant exactly `60*m` seconds later,
   * and it raises OverflowError exactly when that instant is past the last
   * second of 9999-12-31.
   */
  lemma AddMinutesSeconds(t: DateTime, m: nat)
    requires t.Valid()
    ensures AddMinutes(t, m).Some? <==> Seconds(t) + 60 * m <= Seconds(LastInstant)
    ensures AddMinutes(t, m).Some? ==>
      AddMinutes(t, m).value.Valid() && Seconds(AddMinutes(t, m).value) == Seconds(t) + 60 * m
  {
    var total := t.hour * 60 + t.minute + m;
    var days, rest := total / 1440, total % 1440;
    assert total == 1440 * days + rest;
    assert rest == 60 * (rest / 60) + rest % 60;
    AddDaysOrdinal(t.date, days);
    OrdinalRange(LastDate);
  }
}
