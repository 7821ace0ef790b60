/** Proleptic Gregorian calendar dates, as Python's `datetime.date` and
    pandas' daily timestamps count them: the day that follows a date, adding a
    signed number of days (`date + timedelta(n)`), and the inclusive daily
    range `pd.date_range(start, end)`. Everything is measured by `Ordinal`,
    the number of days since 0001-01-01. */
module Calendar {
  import opened Sequences

  datatype Date = Date(year: int, month: int, day: int)

  /** Day zero of the time axis of the grid files. */
  const Epoch: Date := Date(1800, 1, 1)

  predicate IsLeapYear(y: int)
  {
    y % 4 == 0 && (y % 100 != 0 || y % 400 == 0)
  }

  function YearLength(y: int): int
  {
    if IsLeapYear(y) then 366 else 365
  }

  function DaysInMonth(y: int, m: int): int
    requires 1 <= m <= 12
  {
    if m == 2 then (if IsLeapYear(y) then 29 else 28)
    else if m == 4 || m == 6 || m == 9 || m == 11 then 30
    else 31
  }

  /** A real calendar day: a month of the year and a day of that month. */
  predicate Valid(d: Date)
  {
    1 <= d.month <= 12 && 1 <= d.day <= DaysInMonth(d.year, d.month)
  }

  /** The years `datetime.date` can represent; outside them Python raises
      `OverflowError`. */
  predicate InPythonRange(d: Date)
  {
    1 <= d.year <= 9999
  }

  /** Strict chronological order: by year, then month, then day. */
  predicate Before(a: Date, b: Date)
  {
    a.year < b.year
    || (a.year == b.year && (a.month < b.month || (a.month == b.month && a.day < b.day)))
  }

  function DaysBeforeYear(y: int): int
  {
    var p := y - 1;
    365 * p + p / 4 - p / 100 + p / 400
  }

  function DaysBeforeMonth(y: int, m: int): int
    requires 1 <= m <= 12
  {
    [0, 31, 59, 90, 120, 151, 181, 212, 243, 273, 304, 334][m - 1]
    + (if m > 2 && IsLeapYear(y) then 1 else 0)
  }

  /** Days since 0001-01-01 (which is day 0). */
  function Ordinal(d: Date): int
    requires Valid(d)
  {
    DaysBeforeYear(d.year) + DaysBeforeMonth(d.year, d.month) + d.day - 1
  }

  lemma YearStep(y: int)
    ensures DaysBeforeYear(y + 1) == DaysBeforeYear(y) + YearLength(y)
  {
    DivStep(y, 4);
    DivStep(y, 100);
    DivStep(y, 400);
    assert y % 400 == 0 ==> y % 100 == 0 && y % 4 == 0 by {
      if y % 400 == 0 { DivModUnique(y, 100, 4 * (y / 400), 0); }
    }
    assert y % 100 == 0 ==> y % 4 == 0 by {
      if y % 100 == 0 { DivModUnique(y, 4, 25 * (y / 100), 0); }
    }
  }

  lemma MonthStep(y: int, m: int)
    requires 1 <= m <= 12
    ensures DaysBeforeMonth(y, m) + DaysInMonth(y, m)
            == if m < 12 then DaysBeforeMonth(y, m + 1) else YearLength(y)
  {
  }

  lemma {:induction false} DaysBeforeYearIncreasing(y1: int, y2: int)
    requires y1 < y2
    ensures DaysBeforeYear(y1) + YearLength(y1) <= DaysBeforeYear(y2)
    decreases y2 - y1
  {
    YearStep(y1);
    if y1 + 1 < y2 {
      DaysBeforeYearIncreasing(y1 + 1, y2);
    }
  }

  lemma MonthsIncreasing(y: int, m1: int, m2: int)
    requires 1 <= m1 < m2 <= 12
    ensures DaysBeforeMonth(y, m1) + DaysInMonth(y, m1) <= DaysBeforeMonth(y, m2)
  {
  }

  /** The day count of a date lies inside its own year. */
  lemma OrdinalInYear(d: Date)
    requires Valid(d)
    ensures DaysBeforeYear(d.year) <= Ordinal(d) < DaysBeforeYear(d.year) + YearLength(d.year)
  {
    MonthStep(d.year, d.month);
    if d.month < 12 {
      MonthsIncreasing(d.year, d.month, 12);
      MonthStep(d.year, 12);
    }
  }

  /** Chronological order is the order of day counts. */
  lemma OrdinalBefore(a: Date, b: Date)
    requires Valid(a) && Valid(b)
    ensures Before(a, b) <==> Ordinal(a) < Ordinal(b)
  {
    if a.year < b.year {
      OrdinalInYear(a);
      OrdinalInYear(b);
      DaysBeforeYearIncreasing(a.year, b.year);
    } else if b.year < a.year {
      OrdinalInYear(a);
      OrdinalInYear(b);
      DaysBeforeYearIncreasing(b.year, a.year);
    } else if a.month < b.month {
      MonthsIncreasing(a.year, a.month, b.month);
    } else if b.month < a.month {
      MonthsIncreasing(a.year, b.month, a.month);
    }
  }

  /** Two days with the same day count are the same day. */
  lemma OrdinalInjective(a: Date, b: Date)
    requires Valid(a) && Valid(b) && Ordinal(a) == Ordinal(b)
    ensures a == b
  {
    OrdinalBefore(a, b);
    OrdinalBefore(b, a);
  }

  /** The following calendar day. */
  function NextDay(d: Date): (r: Date)
    requires Valid(d)
    ensures Valid(r) && Ordinal(r) == Ordinal(d) + 1
  {
    MonthStep(d.year, d.month);
    YearStep(d.year);
    if d.day < DaysInMonth(d.year, d.month) then Date(d.year, d.month, d.day + 1)
    else if d.month < 12 then Date(d.year, d.month + 1, 1)
    else Date(d.year + 1, 1, 1)
  }

  /** The preceding calendar day. */
  function PrevDay(d: Date): (r: Date)
    requires Valid(d)
    ensures Valid(r) && Ordinal(r) == Ordinal(d) - 1
  {
    YearStep(d.year - 1);
    if d.day > 1 then Date(d.year, d.month, d.day - 1)
    else if d.month > 1 then
      MonthStep(d.year, d.month - 1);
      Date(d.year, d.month - 1, DaysInMonth(d.year, d.month - 1))
    else
      MonthStep(d.year - 1, 12);
      Date(d.year - 1, 12, 31)
  }

  /** `d + timedelta(n)`, by stepping one day at a time. */
  function AddDays(d: Date, n: int): (r: Date)
    requires Valid(d)
    ensures Valid(r) && Ordinal(r) == Ordinal(d) + n
    decreases if n < 0 then -n else n
  {
    if n == 0 then d
    else if n > 0 then AddDays(NextDay(d), n - 1)
    else AddDays(PrevDay(d), n + 1)
  }

  /** Every day from `s` to `e`, both included, one per day; empty when `e`
      is before `s` (`pd.date_range(s, e)`). */
  function DateRange(s: Date, e: Date): (r: seq<Date>)
    requires Valid(s) && Valid(e)
    ensures |r| == if Ordinal(e) < Ordinal(s) then 0 else Ordinal(e) - Ordinal(s) + 1
    ensures forall k :: 0 <= k < |r| ==> Valid(r[k]) && Ordinal(r[k]) == Ordinal(s) + k
    decreases if Ordinal(e) < Ordinal(s) then 0 else Ordinal(e) - Ordinal(s) + 1
  {
    if Ordinal(e) < Ordinal(s) then [] else [s] + DateRange(NextDay(s), e)
  }

  /** A sequence of valid days in strictly increasing chronological order. */
  predicate Ascending(ds: seq<Date>)
  {
    (forall k :: 0 <= k < |ds| ==> Valid(ds[k]))
    && forall i, j :: 0 <= i < j < |ds| ==> Before(ds[i], ds[j])
  }

  /** The range holds exactly the valid days between its ends, in
      chronological order, each once, one day apart. */
  lemma DateRangeExact(s: Date, e: Date)
    requires Valid(s) && Valid(e)
    ensures Ascending(DateRange(s, e))
    ensures forall k :: 0 <= k < |DateRange(s, e)| ==> DateRange(s, e)[k] == AddDays(s, k)
    ensures forall d :: Valid(d) ==>
              (d in DateRange(s, e) <==> !Before(d, s) && !Before(e, d))
  {
    var r := DateRange(s, e);
    forall i, j | 0 <= i < j < |r|
      ensures Before(r[i], r[j])
    {
      OrdinalBefore(r[i], r[j]);
    }
    forall k | 0 <= k < |r|
      ensures r[k] == AddDays(s, k)
    {
      OrdinalInjective(r[k], AddDays(s, k));
    }
    forall d | Valid(d)
      ensures d in r <==> !Before(d, s) && !Before(e, d)
    {
      OrdinalBefore(d, s);
      OrdinalBefore(e, d);
      if !Before(d, s) && !Before(e, d) {
        var k := Ordinal(d) - Ordinal(s);
        OrdinalInjective(r[k], d);
      }
    }
  }
}
