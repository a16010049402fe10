/** The statement engine of the PDF export: the rows the export selects
    (the user's transactions whose timestamp text lies between the period
    bounds), the total due (the sum of the debit amounts among them), the
    table rows it prints, and what the selected window covers in time. */
module StatementEngine {
  import opened Calendar
  import opened IsoText
  import opened BillingPeriod
  import opened Records
  import opened Seqs

  // ---------- Window filter (streamlit_transaction_manager.py:93-98) ----------

  /** `user_id = ? AND timestamp BETWEEN start AND end`, where both the
      column and the bounds are isoformat text compared as text. */
  predicate Selected(t: Txn, uid: int, start: DateTime, end: DateTime)
    requires ValidDateTime(t.stamp) && ValidDateTime(start) && ValidDateTime(end)
  {
    t.userId == uid &&
    TextLe(IsoFormat(start), IsoFormat(t.stamp)) && TextLe(IsoFormat(t.stamp), IsoFormat(end))
  }

  /** The rows the statement query returns, in table order. */
  function Window(rows: seq<Txn>, uid: int, start: DateTime, end: DateTime): (sel: seq<Txn>)
    requires Stamped(rows) && ValidDateTime(start) && ValidDateTime(end)
    ensures |sel| <= |rows| && Stamped(sel)
    ensures forall t :: t in sel <==> t in rows && Selected(t, uid, start, end)
    decreases rows
  {
    if rows == [] then []
    else (if Selected(rows[0], uid, start, end) then [rows[0]] else []) + Window(rows[1..], uid, start, end)
  }

  /** The same selection stated on date-times: the user's rows stamped from
      `start` to `end` inclusive, in chronological terms. */
  function ChronoWindow(rows: seq<Txn>, uid: int, start: DateTime, end: DateTime): seq<Txn>
  {
    Filter(InChrono(uid, start, end), rows)
  }

  function InChrono(uid: int, start: DateTime, end: DateTime): Txn -> bool
  {
    (t: Txn) => t.userId == uid && DateTimeLe(start, t.stamp) && DateTimeLe(t.stamp, end)
  }

  /** Comparing the isoformat texts selects exactly the rows whose
      date-times lie in the window. */
  lemma {:induction false} WindowIsChronological(rows: seq<Txn>, uid: int, start: DateTime, end: DateTime)
    requires Stamped(rows) && ValidDateTime(start) && ValidDateTime(end)
    ensures Window(rows, uid, start, end) == ChronoWindow(rows, uid, start, end)
    decreases rows
  {
    if rows != [] {
      assert rows[0] in rows;
      IsoFormatOrder(start, rows[0].stamp);
      IsoFormatOrder(rows[0].stamp, end);
      WindowIsChronological(rows[1..], uid, start, end);
    }
  }

  /** The selection keeps table order: selecting from two runs of rows
      gives the selection from the first run followed by that from the
      second. */
  lemma WindowConcat(a: seq<Txn>, b: seq<Txn>, uid: int, start: DateTime, end: DateTime)
    requires Stamped(a) && Stamped(b) && ValidDateTime(start) && ValidDateTime(end)
    ensures Stamped(a + b)
    ensures Window(a + b, uid, start, end) == Window(a, uid, start, end) + Window(b, uid, start, end)
  {
    WindowIsChronological(a + b, uid, start, end);
    WindowIsChronological(a, uid, start, end);
    WindowIsChronological(b, uid, start, end);
    FilterConcat(InChrono(uid, start, end), a, b);
  }

  // ---------- Total due (streamlit_transaction_manager.py:99) ----------

  function AmountSum(rows: seq<Txn>): real
    decreases rows
  {
    if rows == [] then 0.0 else rows[0].amount + AmountSum(rows[1..])
  }

  predicate IsDebit(t: Txn)
  {
    t.kind == "debit"
  }

  function OfKind(kind: string): Txn -> bool
  {
    (t: Txn) => t.kind == kind
  }

  /** `sum(t[0] for t in transactions if t[1] == 'debit')`: it agrees with
      the summary's single-pass CASE-sum over the same rows. */
  function DebitTotal(rows: seq<Txn>): (r: real)
    ensures r == KindTotal(rows, "debit")
  {
    KindTotalIsFilteredSum(rows, "debit");
    FilterSameOn(OfKind("debit"), IsDebit, rows);
    AmountSum(Filter(IsDebit, rows))
  }

  /** `SUM(CASE WHEN type = kind THEN amount ELSE 0 END)`, as the user
      summary computes it; zero where SQL's SUM of no rows gives NULL, and
      zero whenever no row has that kind. */
  function KindTotal(rows: seq<Txn>, kind: string): (r: real)
    ensures (forall t :: t in rows ==> t.kind != kind) ==> r == 0.0
    decreases rows
  {
    if rows == [] then 0.0
    else (if rows[0].kind == kind then rows[0].amount else 0.0) + KindTotal(rows[1..], kind)
  }

  lemma {:induction false} AmountSumConcat(a: seq<Txn>, b: seq<Txn>)
    ensures AmountSum(a + b) == AmountSum(a) + AmountSum(b)
    decreases a
  {
    if a == [] {
      assert a + b == b;
    } else {
      assert (a + b)[0] == a[0] && (a + b)[1..] == a[1..] + b;
      AmountSumConcat(a[1..], b);
    }
  }

  lemma DebitTotalConcat(a: seq<Txn>, b: seq<Txn>)
    ensures DebitTotal(a + b) == DebitTotal(a) + DebitTotal(b)
  {
    FilterConcat(IsDebit, a, b);
    AmountSumConcat(Filter(IsDebit, a), Filter(IsDebit, b));
  }

  /** A row anywhere in the statement adds its amount to the total due when
      it is a debit and nothing otherwise: credits never reduce the total. */
  lemma OneRowContribution(a: seq<Txn>, t: Txn, b: seq<Txn>)
    ensures DebitTotal(a + [t] + b) == DebitTotal(a + b) + (if IsDebit(t) then t.amount else 0.0)
  {
    DebitTotalConcat(a + [t], b);
    DebitTotalConcat(a, [t]);
    DebitTotalConcat(a, b);
    assert [t][1..] == [];
    assert Filter(IsDebit, [t]) == if IsDebit(t) then [t] else [];
    assert AmountSum([t]) == t.amount + AmountSum([]);
  }

  lemma {:induction false} AmountSumNonNegative(rows: seq<Txn>)
    requires forall t :: t in rows ==> t.amount >= 0.0
    ensures AmountSum(rows) >= 0.0
    decreases rows
  {
    if rows != [] {
      assert rows[0] in rows;
      AmountSumNonNegative(rows[1..]);
    }
  }

  /** With the non-negative amounts the entry form admits, the total due is
      never negative. */
  lemma DebitTotalNonNegative(rows: seq<Txn>)
    requires forall t :: t in rows ==> t.amount >= 0.0
    ensures DebitTotal(rows) >= 0.0
  {
    AmountSumNonNegative(Filter(IsDebit, rows));
  }

  /** No debit among the rows, in particular no rows at all, means nothing
      is due. */
  lemma {:induction false} NoDebitNothingDue(rows: seq<Txn>)
    requires forall t :: t in rows ==> !IsDebit(t)
    ensures DebitTotal(rows) == 0.0
    decreases rows
  {
    if rows != [] {
      assert rows[0] in rows;
      assert Filter(IsDebit, rows) == Filter(IsDebit, rows[1..]);
      NoDebitNothingDue(rows[1..]);
    }
  }

  /** The summary's CASE-sum over a kind equals the statement's comprehension
      sum over the rows of that kind. */
  lemma {:induction false} KindTotalIsFilteredSum(rows: seq<Txn>, kind: string)
    ensures KindTotal(rows, kind) == AmountSum(Filter(OfKind(kind), rows))
    decreases rows
  {
    if rows != [] {
      var keep := OfKind(kind);
      var head := if keep(rows[0]) then [rows[0]] else [];
      KindTotalIsFilteredSum(rows[1..], kind);
      assert Filter(keep, rows) == head + Filter(keep, rows[1..]);
      AmountSumConcat(head, Filter(keep, rows[1..]));
      assert AmountSum(head) == if keep(rows[0]) then rows[0].amount else 0.0 by {
        if keep(rows[0]) {
          assert head[1..] == [];
        }
      }
    }
  }


  // ---------- Line items (streamlit_transaction_manager.py:114-120) ----------

  const DescriptionLimit := 33
  const DescriptionKeep := 30

  /** `(d[:30] + '...') if len(d) > 33 else d`. */
  function Truncate(d: string): (r: string)
    ensures |r| <= DescriptionLimit
    ensures r == d <==> |d| <= DescriptionLimit
    ensures |d| > DescriptionLimit ==> |r| == DescriptionLimit && r[..DescriptionKeep] == d[..DescriptionKeep] &&
                                        r[DescriptionKeep..] == "..."
  {
    if |d| > DescriptionLimit then d[..DescriptionKeep] + "..." else d
  }

  /** `str.upper()` on the ASCII letters. */
  function UpperChar(c: char): char
  {
    if 'a' <= c <= 'z' then (c as int - 32) as char else c
  }

  /** `type.upper()`: every lower-case ASCII letter becomes its capital,
      every other character stays, and no lower-case letter is left. */
  function Upper(s: string): (r: string)
    ensures |r| == |s|
    ensures forall i :: 0 <= i < |s| ==>
              if 'a' <= s[i] <= 'z' then r[i] as int == s[i] as int - 32 else r[i] == s[i]
    ensures forall i :: 0 <= i < |r| ==> !('a' <= r[i] <= 'z')
  {
    seq(|s|, i requires 0 <= i < |s| => UpperChar(s[i]))
  }

  /** Upper-casing twice is upper-casing once. */
  lemma UpperIdempotent(s: string)
    ensures Upper(Upper(s)) == Upper(s)
  {
  }

  /** The two types the entry form offers print as "CREDIT" and "DEBIT". */
  lemma UpperKinds()
    ensures Upper("credit") == "CREDIT" && Upper("debit") == "DEBIT"
  {
    assert Upper("credit") == "CREDIT" by {
      var r := Upper("credit");
      assert r[0] == 'C' && r[1] == 'R' && r[2] == 'E' && r[3] == 'D' && r[4] == 'I' && r[5] == 'T';
    }
    assert Upper("debit") == "DEBIT" by {
      var r := Upper("debit");
      assert r[0] == 'D' && r[1] == 'E' && r[2] == 'B' && r[3] == 'I' && r[4] == 'T';
    }
  }

  /** One printed table row: date, type, amount and description cells. */
  datatype Line = Line(date: string, kind: string, amount: real, description: string)

  /** The cells printed for one transaction: `timestamp[:19]`, `type.upper()`,
      the amount and the truncated description. */
  function LineOf(t: Txn): (l: Line)
    requires ValidDateTime(t.stamp)
    ensures l.date == IsoFormat(t.stamp.(micro := 0))
    ensures l.kind == Upper(t.kind) && l.amount == t.amount
    ensures l.description == Truncate(t.description)
    ensures |l.description| <= DescriptionLimit
    ensures l.description == t.description <==> |t.description| <= DescriptionLimit
  {
    IsoPrefix(t.stamp);
    Line(IsoFormat(t.stamp)[..19], Upper(t.kind), t.amount, Truncate(t.description))
  }

  /** The row loop: one printed line per selected transaction, in order. */
  method LineItems(rows: seq<Txn>) returns (lines: seq<Line>)
    requires Stamped(rows)
    ensures |lines| == |rows|
    ensures forall i :: 0 <= i < |rows| ==> lines[i] == LineOf(rows[i])
  {
    lines := [];
    for i := 0 to |rows|
      invariant |lines| == i
      invariant forall k :: 0 <= k < i ==> lines[k] == LineOf(rows[k])
    {
      var row := rows[i];
      assert row in rows;
      lines := lines + [LineOf(row)];
    }
  }

  /** The statement value handed to the PDF renderer. */
  datatype Statement = Statement(
    name: string, email: string, period: Period,
    items: seq<Txn>, lines: seq<Line>, total: real)

  /** Which of the scenario's rows lie in a window from some time on
      2024-02-13 to midnight of 2024-03-12. */
  lemma ScenarioStamps(start: DateTime, end: DateTime, credit: Txn, debit: Txn, late: Txn)
    requires ValidDateTime(start) && start.date == Date(2024, 2, 13) && end == Midnight(Date(2024, 3, 12))
    requires credit == Txn(1, 7, 100.0, "credit", "refund", DateTime(Date(2024, 2, 20), 10, 0, 0, 0))
    requires debit == Txn(2, 7, 50.0, "debit", "groceries", DateTime(Date(2024, 3, 1), 12, 30, 0, 0))
    requires late == Txn(3, 7, 999.0, "debit", "rent", DateTime(Date(2024, 3, 20), 8, 0, 0, 0))
    ensures InChrono(7, start, end)(credit) && InChrono(7, start, end)(debit) && !InChrono(7, start, end)(late)
  {
  }

  /** Three rows of which the window keeps the first two. */
  lemma SelectFirstTwo(start: DateTime, end: DateTime, a: Txn, b: Txn, c: Txn)
    requires InChrono(7, start, end)(a) && InChrono(7, start, end)(b) && !InChrono(7, start, end)(c)
    ensures ChronoWindow([a, b, c], 7, start, end) == [a, b]
  {
    var rows := [a, b, c];
    var keep := InChrono(7, start, end);
    assert rows[1..] == [b, c] && rows[2..] == [c] && rows[3..] == [];
    assert Filter(keep, rows[2..]) == [];
    assert Filter(keep, rows[1..]) == [b];
  }

  /** A credit of 100 followed by a debit of 50 leave 50 due. */
  lemma ScenarioTotal(credit: Txn, debit: Txn)
    requires credit == Txn(1, 7, 100.0, "credit", "refund", DateTime(Date(2024, 2, 20), 10, 0, 0, 0))
    requires debit == Txn(2, 7, 50.0, "debit", "groceries", DateTime(Date(2024, 3, 1), 12, 30, 0, 0))
    ensures DebitTotal([credit, debit]) == 50.0
  {
    assert [credit, debit][1..] == [debit] && [debit][1..] == [];
    assert Filter(IsDebit, [debit]) == [debit];
    assert Filter(IsDebit, [credit, debit]) == [debit];
    assert AmountSum([debit]) == 50.0 + AmountSum([]);
  }

  /** A credit of 100 and a debit of 50 inside the period and a debit of
      999 after it, exported on 2024-03-10: the statement lists the first
      two in order and 50 is due. */
  lemma ScenarioStatement(clock: DateTime, credit: Txn, debit: Txn, late: Txn)
    requires ValidDateTime(clock) && clock.date == Date(2024, 3, 10)
    requires credit == Txn(1, 7, 100.0, "credit", "refund", DateTime(Date(2024, 2, 20), 10, 0, 0, 0))
    requires debit == Txn(2, 7, 50.0, "debit", "groceries", DateTime(Date(2024, 3, 1), 12, 30, 0, 0))
    requires late == Txn(3, 7, 999.0, "debit", "rent", DateTime(Date(2024, 3, 20), 8, 0, 0, 0))
    ensures ComputePeriod(clock).Ok?
    ensures var p := ComputePeriod(clock).value;
            ValidDateTime(p.start) && ValidDateTime(p.end) && Stamped([credit, debit, late]) &&
            Window([credit, debit, late], 7, p.start, p.end) == [credit, debit] &&
            DebitTotal(Window([credit, debit, late], 7, p.start, p.end)) == 50.0
  {
    ScenarioMarch(clock);
    var p := ComputePeriod(clock).value;
    ScenarioStamps(p.start, p.end, credit, debit, late);
    assert Stamped([credit, debit, late]);
    SelectFirstTwo(p.start, p.end, credit, debit, late);
    WindowIsChronological([credit, debit, late], 7, p.start, p.end);
    ScenarioTotal(credit, debit);
  }

  // ---------- What the window covers ----------

  /** The source's statement window for `today`, as a set of instants:
      from `bill_start` to `bill_end`, both inclusive. */
  predicate InStatementWindow(today: DateTime, t: DateTime)
    requires ValidDateTime(today) && ComputePeriod(today).Ok?
  {
    var p := ComputePeriod(today).value;
    DateTimeLe(p.start, t) && DateTimeLe(t, p.end)
  }

  /** The window exactly: an instant is billed by the export made at
      `today` when its day lies in the cycle of `today`, except that on the
      cycle's first day (the 13th) only instants from `today`'s time of day
      on count, and on its last day (the 12th) only midnight counts. */
  lemma StatementWindowExactly(today: DateTime, t: DateTime)
    requires ValidDateTime(today) && ValidDateTime(t) && ComputePeriod(today).Ok?
    ensures var p := ComputePeriod(today).value;
            InStatementWindow(today, t) <==>
              InCycle(p.start.date, t.date) &&
              (t.date == p.start.date ==> ClockLe(today, t)) &&
              (t.date == p.end.date ==> t == p.end)
  {
  }

  /** As written, nothing stamped on the 12th after midnight is on any
      statement: for every export date whose period exists, such an instant
      lies outside the window. */
  lemma TwelfthUnbilled(today: DateTime, t: DateTime)
    requires ValidDateTime(today) && ValidDateTime(t) && ComputePeriod(today).Ok?
    requires t.date.day == EndDay && t != Midnight(t.date)
    ensures !InStatementWindow(today, t)
  {
    StatementWindowExactly(today, t);
  }

  /** As written, an instant on the 13th is billed only by exports made at
      a time of day not later than its own: a row stamped at 09:00 on
      13 March 2024 is outside the statement exported at 10:00 on any day
      of its cycle, and outside every other cycle's statement. */
  lemma ThirteenthUnbilledLater(today: DateTime, t: DateTime)
    requires ValidDateTime(today) && ValidDateTime(t) && ComputePeriod(today).Ok?
    requires t.date.day == CycleDay && !ClockLe(today, t)
    ensures !InStatementWindow(today, t)
  {
    StatementWindowExactly(today, t);
  }

  /** The intended window: from midnight of the cycle's 13th through the
      last microsecond of its 12th. */
  function CycleWindow(today: DateTime): (w: Result<(DateTime, DateTime)>)
    requires ValidDateTime(today)
    ensures w.Ok? <==> ComputePeriod(today).Ok?
  {
    match ComputePeriod(today)
    case Err(e) => Err(e)
    case Ok(p) => Ok((Midnight(p.start.date), DateTime(p.end.date, 23, 59, 59, 999999)))
  }

  /** With the intended window an instant is billed by an export exactly
      when its day lies in the export's cycle; so every instant is on the
      statement of its own cycle and windows of different cycles never
      overlap. */
  lemma CycleWindowExactly(today: DateTime, t: DateTime)
    requires ValidDateTime(today) && ValidDateTime(t) && ComputePeriod(today).Ok?
    ensures var (lo, hi) := CycleWindow(today).value;
            ValidDateTime(lo) && ValidDateTime(hi) &&
            (DateTimeLe(lo, t) && DateTimeLe(t, hi) <==> InCycle(ComputePeriod(today).value.start.date, t.date))
  {
  }

  /** Every instant from the first period on lies in the intended window of
      an export made at that very instant, and in the intended windows of
      two exports only when both have the same period start. */
  lemma CycleWindowsPartition(t: DateTime, a: DateTime, b: DateTime)
    requires ValidDateTime(t) && ComputePeriod(t).Ok?
    requires ValidDateTime(a) && ComputePeriod(a).Ok? && ValidDateTime(b) && ComputePeriod(b).Ok?
    ensures DateTimeLe(CycleWindow(t).value.0, t) && DateTimeLe(t, CycleWindow(t).value.1)
    ensures DateTimeLe(CycleWindow(a).value.0, t) && DateTimeLe(t, CycleWindow(a).value.1) &&
            DateTimeLe(CycleWindow(b).value.0, t) && DateTimeLe(t, CycleWindow(b).value.1) ==>
              ComputePeriod(a).value.start.date == ComputePeriod(b).value.start.date
  {
    CycleWindowExactly(t, t);
    CycleWindowExactly(a, t);
    CycleWindowExactly(b, t);
    var sa, sb := ComputePeriod(a).value.start.date, ComputePeriod(b).value.start.date;
    if InCycle(sa, t.date) && InCycle(sb, t.date) {
      CycleUnique(sa, sb, t.date);
    }
  }
}
