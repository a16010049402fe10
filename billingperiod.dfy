/** The billing-period calculator at the top of the statement export: from
    the current date-time it derives the cycle start (the 13th), the cycle
    end (the 12th of the following month, at midnight) and the due date
    (start plus 50 days), with the errors Python's `datetime` raises at the
    ends of its year range. */
module BillingPeriod {
  import opened Calendar

  /** `bill_start`, `bill_end` and `due_date` of one statement. */
  datatype Period = Period(start: DateTime, end: DateTime, due: DateTime)

  /** The exceptions the computation can raise. */
  datatype PeriodError =
    | StartYearOutOfRange  // `replace(year=0, ...)` in January of year 1: ValueError
    | EndYearOutOfRange    // `datetime(year=10000, ...)` for a December 9999 start: ValueError
    | DueDateOverflow      // `bill_start + timedelta(days=50)` beyond year 9999: OverflowError

  datatype Result<T> = Ok(value: T) | Err(error: PeriodError)

  /** Day of the month on which every billing cycle starts. */
  const CycleDay := 13
  /** Day of the month whose midnight closes the statement window. */
  const EndDay := 12
  /** Calendar days from the cycle start to the due date. */
  const DueOffset := 50

  /** The same date-time on another day (`datetime.replace(year, month, day)`),
      keeping the time of day. */
  function OnDay(t: DateTime, d: Date): DateTime
  {
    t.(date := d)
  }

  /** `bill_start`: the 13th of today's month when today is the 13th or
      later, else the 13th of the previous month, at today's time of day.
      It is the 13th that opens the billing cycle holding today, and it
      exists for every day from 13 January of year 1 on. */
  function BillStart(today: DateTime): (r: Result<DateTime>)
    requires ValidDateTime(today)
    ensures r.Ok? <==> DateLe(Date(MinYear, 1, CycleDay), today.date)
    ensures r.Ok? ==>
              ValidDateTime(r.value) && SameClock(r.value, today) &&
              r.value.date.day == CycleDay && InCycle(r.value.date, today.date)
    ensures r.Ok? && today.date.day >= CycleDay ==>
              r.value.date.year == today.date.year && r.value.date.month == today.date.month
    ensures r.Ok? && today.date.day < CycleDay ==>
              (r.value.date.year, r.value.date.month) == MonthBefore(today.date.year, today.date.month)
  {
    var d := today.date;
    if d.day >= CycleDay then Ok(OnDay(today, Date(d.year, d.month, CycleDay)))
    else if d.month == 1 then
      (if d.year - 1 < MinYear then Err(StartYearOutOfRange)
       else Ok(OnDay(today, Date(d.year - 1, 12, CycleDay))))
    else Ok(OnDay(today, Date(d.year, d.month - 1, CycleDay)))
  }

  /** `bill_end`: midnight of the 12th of month `start.month % 12 + 1`, in
      the next year exactly when that month is January. That is the 12th of
      the month after the start month, the last day of the cycle opened by
      that month's 13th; it fails only after a December 9999 start. */
  function BillEnd(start: DateTime): (r: Result<DateTime>)
    requires ValidDateTime(start)
    ensures r.Err? <==> start.date.year == MaxYear && start.date.month == 12
    ensures r.Ok? ==>
              var (y, m) := MonthAfter(start.date.year, start.date.month);
              ValidDateTime(r.value) && r.value == Midnight(Date(y, m, EndDay)) &&
              NextDay(r.value.date) == CycleStartOf((y, m))
  {
    var nextMonth := start.date.month % 12 + 1;
    var year := start.date.year + (if nextMonth == 1 then 1 else 0);
    var first := CycleStartOf((start.date.year, start.date.month));
    TwelfthAfter(first);
    assert (year, nextMonth) == MonthAfter(first.year, first.month);
    if year > MaxYear then Err(EndYearOutOfRange)
    else Ok(Midnight(Date(year, nextMonth, EndDay)))
  }

  /** `due_date`: the start plus 50 calendar days, same time of day. From
      a 13th it is, in closed form, day `63 - DaysInMonth(start) -
      DaysInMonth(next)` of the second month after the start month, and it
      overflows exactly when that month lies after year 9999. */
  function DueDate(start: DateTime): (r: Result<DateTime>)
    requires ValidDateTime(start)
    ensures r.Ok? ==> ValidDateTime(r.value) && SameClock(r.value, start) && DateLt(start.date, r.value.date)
    ensures start.date.day == CycleDay ==>
              var s := start.date;
              var (y1, m1) := MonthAfter(s.year, s.month);
              var (y2, m2) := MonthAfter(y1, m1);
              var day := 63 - DaysInMonth(s.year, s.month) - DaysInMonth(y1, m1);
              (r.Err? <==> y2 > MaxYear) && (r.Ok? ==> r.value.date == Date(y2, m2, day))
  {
    FiftyDaysAfterThirteenth(CycleStartOf((start.date.year, start.date.month)));
    AddDaysAdvances(start.date, DueOffset);
    var d := AddDays(start.date, DueOffset);
    if d.year > MaxYear then Err(DueDateOverflow) else Ok(OnDay(start, d))
  }

  /** The three values in the order the source computes them; the first
      failure is the one raised. A period exists exactly for the days from
      0001-01-13 to 9999-11-12 (earlier days need a start in year 0, later
      ones an end or a due date beyond year 9999); its start opens the cycle
      holding today, its end closes that cycle, and start < end < due. */
  function ComputePeriod(today: DateTime): (r: Result<Period>)
    requires ValidDateTime(today)
    ensures r.Ok? <==>
            DateLe(Date(MinYear, 1, CycleDay), today.date) && DateLe(today.date, Date(MaxYear, 11, EndDay))
    ensures r.Ok? ==>
              var p := r.value;
              ValidDateTime(p.start) && ValidDateTime(p.end) && ValidDateTime(p.due) &&
              p.start.date.day == CycleDay && p.end.date.day == EndDay &&
              InCycle(p.start.date, today.date) &&
              NextDay(p.end.date) == CycleStartOf(MonthAfter(p.start.date.year, p.start.date.month)) &&
              DateTimeLt(p.start, p.end) && DateTimeLt(p.end, p.due) && DateLt(p.end.date, p.due.date)
  {
    PartsDefined(today);
    match BillStart(today)
    case Err(e) => Err(e)
    case Ok(start) =>
      PartsOrdered(start);
      match BillEnd(start)
      case Err(e) => Err(e)
      case Ok(end) =>
        match DueDate(start)
        case Err(e) => Err(e)
        case Ok(due) => Ok(Period(start, end, due))
  }

  /** The three parts exist together exactly for the days from 0001-01-13
      to 9999-11-12. */
  lemma PartsDefined(today: DateTime)
    requires ValidDateTime(today)
    ensures var start := BillStart(today);
            start.Ok? && BillEnd(start.value).Ok? && DueDate(start.value).Ok? <==>
            DateLe(Date(MinYear, 1, CycleDay), today.date) && DateLe(today.date, Date(MaxYear, 11, EndDay))
  {
  }

  /** From a 13th, the end lies after the start and the due date on a
      later day than the end. */
  lemma PartsOrdered(start: DateTime)
    requires ValidDateTime(start) && start.date.day == CycleDay
    ensures BillEnd(start).Ok? ==> DateTimeLt(start, BillEnd(start).value)
    ensures BillEnd(start).Ok? && DueDate(start).Ok? ==>
              DateLt(BillEnd(start).value.date, DueDate(start).value.date)
  {
  }

  /** The 13th of a month given as (year, month). */
  function CycleStartOf(ym: (int, int)): Date
  {
    Date(ym.0, ym.1, CycleDay)
  }

  /** Day `c` starts the billing cycle (13th to 12th) that contains day `t`. */
  predicate InCycle(c: Date, t: Date)
  {
    1 <= c.month <= 12 && c.day == CycleDay &&
    DateLe(c, t) && DateLt(t, CycleStartOf(MonthAfter(c.year, c.month)))
  }

  predicate SameClock(a: DateTime, b: DateTime)
  {
    a.hour == b.hour && a.minute == b.minute && a.second == b.second && a.micro == b.micro
  }

  /** Every day lies in at most one billing cycle. */
  lemma CycleUnique(c1: Date, c2: Date, t: Date)
    requires InCycle(c1, t) && InCycle(c2, t)
    ensures c1 == c2
  {
  }

  /** The start is determined by the cycle alone: any 13th whose cycle holds
      today is the start. */
  lemma StartUnique(today: DateTime, c: Date)
    requires ValidDateTime(today) && ValidDate(c) && InCycle(c, today.date)
    ensures BillStart(today).Ok? && BillStart(today).value.date == c
  {
    assert BillStart(today).Ok?;
    CycleUnique(c, BillStart(today).value.date, today.date);
  }

  /** The 12th of the following month is `DaysInMonth - 1` days after a
      13th, and the day after it starts the next cycle. */
  lemma TwelfthAfter(s: Date)
    requires WellFormed(s) && s.day == CycleDay
    ensures var (y, m) := MonthAfter(s.year, s.month);
            AddDays(s, DaysInMonth(s.year, s.month) - 1) == Date(y, m, EndDay) &&
            NextDay(Date(y, m, EndDay)) == CycleStartOf((y, m))
  {
    var k := DaysInMonth(s.year, s.month) - s.day + 1;
    var f := FirstOfNextMonth(s);
    AddDaysToNextMonth(s);
    AddDaysSplit(s, k, EndDay - 1);
    AddDaysWithinMonth(f, EndDay - 1);
  }

  /** A cycle lasts exactly as many days as the month of its 13th: that
      many days after a 13th comes the 13th that opens the next cycle. */
  lemma CycleLength(s: Date)
    requires WellFormed(s) && s.day == CycleDay
    ensures AddDays(s, DaysInMonth(s.year, s.month)) == CycleStartOf(MonthAfter(s.year, s.month))
  {
    AddOneMonth(s);
  }

  /** Fifty days after a 13th in closed form: in the second month after,
      on day `63 - DaysInMonth(this) - DaysInMonth(next)`, i.e. between the
      1st and the 4th, since two consecutive months have at least 59 days
      (13 December gives 1 February). (Dafny's automatic induction is off:
      the proof is direct and the extra hypotheses only slow it down.) */
  lemma {:induction false} FiftyDaysAfterThirteenth(s: Date)
    requires WellFormed(s) && s.day == CycleDay
    ensures var (y1, m1) := MonthAfter(s.year, s.month);
            var (y2, m2) := MonthAfter(y1, m1);
            var day := 63 - DaysInMonth(s.year, s.month) - DaysInMonth(y1, m1);
            1 <= day <= 4 && AddDays(s, DueOffset) == Date(y2, m2, day)
  {
    var f1 := FirstOfNextMonth(s);
    var f2 := FirstOfNextMonth(f1);
    var k1 := DaysInMonth(s.year, s.month) - s.day + 1;
    var k2 := DaysInMonth(f1.year, f1.month);
    var r := DueOffset - k1 - k2;
    assert (f1.year, f1.month) == MonthAfter(s.year, s.month);
    assert (f2.year, f2.month) == MonthAfter(f1.year, f1.month);
    assert 0 <= r <= 6;
    AddDaysToNextMonth(s);
    AddDaysToNextMonth(f1);
    AddDaysWithinMonth(f2, r);
    assert AddDays(f2, r) == Date(f2.year, f2.month, 1 + r);
    AddDaysSplit(f1, k2, r);
    assert AddDays(f1, k2 + r) == AddDays(f2, r);
    AddDaysSplit(s, k1, k2 + r);
    assert AddDays(s, DueOffset) == AddDays(f1, k2 + r);
  }

  /** 2024-03-10: period 2024-02-13 .. 2024-03-12, due 2024-04-03
      (February 2024 has 29 days). */
  lemma ScenarioMarch(clock: DateTime)
    requires ValidDateTime(clock) && clock.date == Date(2024, 3, 10)
    ensures ComputePeriod(clock).Ok?
    ensures var p := ComputePeriod(clock).value;
            p.start.date == Date(2024, 2, 13) && p.end == Midnight(Date(2024, 3, 12)) &&
            p.due.date == Date(2024, 4, 3)
  {
    var start := BillStart(clock).value;
    assert start.date == Date(2024, 2, 13);
    assert DaysInMonth(2024, 2) == 29 && DaysInMonth(2024, 3) == 31;
  }

  /** 2024-01-05: period 2023-12-13 .. 2024-01-12, due 2024-02-01. */
  lemma ScenarioJanuary(clock: DateTime)
    requires ValidDateTime(clock) && clock.date == Date(2024, 1, 5)
    ensures ComputePeriod(clock).Ok?
    ensures var p := ComputePeriod(clock).value;
            p.start.date == Date(2023, 12, 13) && p.end == Midnight(Date(2024, 1, 12)) &&
            p.due.date == Date(2024, 2, 1)
  {
  }

  /** 2024-12-20: period 2024-12-13 .. 2025-01-12, due 2025-02-01. */
  lemma ScenarioDecember(clock: DateTime)
    requires ValidDateTime(clock) && clock.date == Date(2024, 12, 20)
    ensures ComputePeriod(clock).Ok?
    ensures var p := ComputePeriod(clock).value;
            p.start.date == Date(2024, 12, 13) && p.end == Midnight(Date(2025, 1, 12)) &&
            p.due.date == Date(2025, 2, 1)
  {
  }
}
