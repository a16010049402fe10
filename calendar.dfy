/** Proleptic Gregorian calendar arithmetic, as used by Python's `datetime`
    module: dates, date-times, day-by-day addition and the chronological
    order on both. */
module Calendar {

  /** The year range of Python's `datetime.MINYEAR` .. `datetime.MAXYEAR`. */
  const MinYear := 1
  const MaxYear := 9999

  datatype Date = Date(year: int, month: int, day: int)

  /** A naive `datetime`: a date plus hour, minute, second and microsecond. */
  datatype DateTime = DateTime(date: Date, hour: int, minute: int, second: int, micro: int)

  predicate IsLeapYear(y: int)
  {
    y % 4 == 0 && (y % 100 != 0 || y % 400 == 0)
  }

  function DaysInMonth(y: int, m: int): (n: int)
    requires 1 <= m <= 12
    ensures 28 <= n <= 31
  {
    if m == 2 then (if IsLeapYear(y) then 29 else 28)
    else if m == 4 || m == 6 || m == 9 || m == 11 then 30
    else 31
  }

  /** A real calendar day, with no bound on the year. */
  predicate WellFormed(d: Date)
  {
    1 <= d.month <= 12 && 1 <= d.day <= DaysInMonth(d.year, d.month)
  }

  /** A day that a Python `date` can hold. */
  predicate ValidDate(d: Date)
  {
    WellFormed(d) && MinYear <= d.year <= MaxYear
  }

  predicate ValidTime(t: DateTime)
  {
    0 <= t.hour < 24 && 0 <= t.minute < 60 && 0 <= t.second < 60 && 0 <= t.micro < 1000000
  }

  predicate ValidDateTime(t: DateTime)
  {
    ValidDate(t.date) && ValidTime(t)
  }

  /** Midnight at the start of a day, as `datetime(year, month, day)` builds it. */
  function Midnight(d: Date): DateTime
  {
    DateTime(d, 0, 0, 0, 0)
  }

  /** Chronological order on days. */
  predicate DateLt(a: Date, b: Date)
  {
    a.year < b.year ||
    (a.year == b.year && (a.month < b.month || (a.month == b.month && a.day < b.day)))
  }

  predicate DateLe(a: Date, b: Date)
  {
    DateLt(a, b) || a == b
  }

  /** Order on the time of day alone. */
  predicate ClockLe(a: DateTime, b: DateTime)
  {
    a.hour < b.hour ||
    (a.hour == b.hour &&
      (a.minute < b.minute ||
        (a.minute == b.minute &&
          (a.second < b.second || (a.second == b.second && a.micro <= b.micro)))))
  }

  /** Chronological order on date-times: by day, then by time of day. */
  predicate DateTimeLe(a: DateTime, b: DateTime)
  {
    DateLt(a.date, b.date) || (a.date == b.date && ClockLe(a, b))
  }

  predicate DateTimeLt(a: DateTime, b: DateTime)
  {
    DateTimeLe(a, b) && a != b
  }

  /** The calendar month after month `m` of year `y`. */
  function MonthAfter(y: int, m: int): (r: (int, int))
    requires 1 <= m <= 12
    ensures 1 <= r.1 <= 12
  {
    if m == 12 then (y + 1, 1) else (y, m + 1)
  }

  /** The calendar month before month `m` of year `y`. */
  function MonthBefore(y: int, m: int): (r: (int, int))
    requires 1 <= m <= 12
    ensures 1 <= r.1 <= 12
  {
    if m == 1 then (y - 1, 12) else (y, m - 1)
  }

  /** The day after `d`, rolling over month and year ends. */
  function NextDay(d: Date): (r: Date)
    requires WellFormed(d)
    ensures WellFormed(r) && DateLt(d, r)
  {
    if d.day < DaysInMonth(d.year, d.month) then Date(d.year, d.month, d.day + 1)
    else if d.month < 12 then Date(d.year, d.month + 1, 1)
    else Date(d.year + 1, 1, 1)
  }

  /** `d` plus `n` calendar days (Python's `d + timedelta(days=n)`),
      defined one day at a time: always a day of the calendar. */
  function AddDays(d: Date, n: nat): (r: Date)
    requires WellFormed(d)
    ensures WellFormed(r)
    decreases n
  {
    if n == 0 then d else AddDays(NextDay(d), n - 1)
  }

  lemma DateLtTransitive(a: Date, b: Date, c: Date)
    requires DateLt(a, b) && DateLt(b, c)
    ensures DateLt(a, c)
  {
  }

  /** Adding days in two steps is adding their sum. */
  lemma {:induction false} AddDaysSplit(d: Date, a: nat, b: nat)
    requires WellFormed(d)
    ensures AddDays(d, a + b) == AddDays(AddDays(d, a), b)
    decreases a
  {
    if a > 0 {
      AddDaysSplit(NextDay(d), a - 1, b);
    }
  }

  /** Adding a positive number of days moves strictly forward. */
  lemma {:induction false} AddDaysAdvances(d: Date, n: nat)
    requires WellFormed(d) && n > 0
    ensures DateLt(d, AddDays(d, n))
    decreases n
  {
    if n > 1 {
      AddDaysAdvances(NextDay(d), n - 1);
      DateLtTransitive(d, NextDay(d), AddDays(d, n));
    }
  }

  /** AddDays is strictly increasing in the number of days. */
  lemma AddDaysIncreasing(d: Date, a: nat, b: nat)
    requires WellFormed(d) && a < b
    ensures DateLt(AddDays(d, a), AddDays(d, b))
  {
    AddDaysSplit(d, a, b - a);
    AddDaysAdvances(AddDays(d, a), b - a);
  }

  /** Days added without leaving the month only move the day of the month. */
  lemma {:induction false} AddDaysWithinMonth(d: Date, k: nat)
    requires WellFormed(d) && d.day + k <= DaysInMonth(d.year, d.month)
    ensures AddDays(d, k) == Date(d.year, d.month, d.day + k)
    decreases k
  {
    if k > 0 {
      AddDaysWithinMonth(NextDay(d), k - 1);
    }
  }

  /** The first day of the month after the month of `d`. */
  function FirstOfNextMonth(d: Date): (r: Date)
    requires WellFormed(d)
    ensures WellFormed(r) && r.day == 1
  {
    if d.month == 12 then Date(d.year + 1, 1, 1) else Date(d.year, d.month + 1, 1)
  }

  /** From any day, `DaysInMonth - day + 1` days later is the first of the
      following month. (Dafny's automatic induction is off: the proof is
      direct and the extra hypotheses only slow it down.) */
  lemma {:induction false} AddDaysToNextMonth(d: Date)
    requires WellFormed(d)
    ensures AddDays(d, DaysInMonth(d.year, d.month) - d.day + 1) == FirstOfNextMonth(d)
  {
    var k := DaysInMonth(d.year, d.month) - d.day;
    var last := Date(d.year, d.month, d.day + k);
    AddDaysWithinMonth(d, k);
    AddDaysSplit(d, k, 1);
    assert NextDay(last) == FirstOfNextMonth(d);
    assert AddDays(last, 1) == AddDays(NextDay(last), 0);
  }

  /** The same day of the month one month later is exactly `DaysInMonth`
      days away, for any day that exists in both months. (Dafny's automatic
      induction is off: the proof is direct and the extra hypotheses only
      slow it down.) */
  lemma {:induction false} AddOneMonth(d: Date)
    requires WellFormed(d)
    requires d.day <= DaysInMonth(FirstOfNextMonth(d).year, FirstOfNextMonth(d).month)
    ensures AddDays(d, DaysInMonth(d.year, d.month)) ==
            Date(FirstOfNextMonth(d).year, FirstOfNextMonth(d).month, d.day)
  {
    var f := FirstOfNextMonth(d);
    var n := DaysInMonth(d.year, d.month);
    var k := n - d.day + 1;
    var j: nat := d.day - 1;
    assert k + j == n;
    AddDaysToNextMonth(d);
    AddDaysSplit(d, k, j);
    assert AddDays(d, k) == f;
    assert AddDays(d, n) == AddDays(f, j);
    AddDaysWithinMonth(f, j);
    assert AddDays(f, j) == Date(f.year, f.month, d.day);
  }
}
