# Transaction manager ledger and statement engine, in Dafny

This project models the logic core of a small Streamlit billing ledger.
The application keeps two SQLite tables, `users` and `transactions`. An
admin adds and deletes users and credit/debit transactions. Every user can
view their transactions, change their password and export a monthly PDF
statement.

The model covers:

- **Calendar** (`calendar.dfy`): proleptic Gregorian dates and date-times
  as Python's `datetime` holds them (years 1 to 9999). Leap years, month
  lengths, day-by-day addition (`timedelta(days=n)`), and the
  chronological order.
- **IsoText** (`isotext.dfy`): the text of `datetime.isoformat()` and
  SQLite's text collation. It proves that comparing the stored timestamp
  texts, as the statement query's `BETWEEN` does, is the same as comparing
  the date-times.
- **BillingPeriod** (`billingperiod.dfy`): `bill_start`, `bill_end` and
  `due_date` from the current date-time, with the `ValueError` or
  `OverflowError` that `datetime` raises at the ends of its year range.
- **Seqs** (`seqs.dfy`): row selection in table order, which is what a
  `SELECT … WHERE` or `DELETE … WHERE` leaves of a table.
- **Records** (`records.dfy`): the table rows, the key constraints and the
  login lookup.
- **StatementEngine** (`statement.dfy`): the rows a statement lists, the
  total due, the printed table rows with their truncated descriptions,
  and an exact description of which instants a statement window covers.
- **Ledger** (`ledger.dfy`): a class whose `seq` fields are the two
  tables and whose methods are `add_user`, `delete_user`,
  `add_transaction`, `delete_transaction` and the password change. The
  class also holds the read-only queries, the statement export and the
  admin's per-user summary loop.

Amounts are exact `real`s. The source stores floats.

The current date-time (`datetime.today()`, `datetime.now()`) is a
parameter: `today` for the export and `now` for a new transaction.

`ExportStatement` only reads the tables. Its result is fixed by the
tables, the user and `today`, so exporting twice with no write in between
gives the same statement.

Where the system's design notes and the code disagree, the model follows
the code:

- The design notes give 2025-01-31 as the due date for an export on
  2024-12-20. The code gives 13 December plus 50 days, which is
  2025-02-01. `ScenarioDecember` proves 2025-02-01.
- The design notes describe the window as running from the start of the
  first day through the end of the last day. The code keeps the current
  time of day on the start (`today.replace(day=13)`). Its end is midnight
  at the start of the 12th (`datetime(year, month, 12)`).
  `StatementWindowExactly` states what the code selects, and the Findings
  below show what is lost.
- The design notes name an `InvalidDateError`. The code raises Python's
  own errors: `replace(year=0)` for a January of year 1, `datetime(year=10000)`
  for an end after December 9999, and `OverflowError` for a due date after
  9999. These are `PeriodError`'s three cases.

## Model

| member | source | states |
|---|---|---|
| Calendar.AddDays | streamlit_transaction_manager.py:91 | `timedelta(days=n)` on dates: the result is always a real calendar day |
| Calendar.AddDaysAdvances | streamlit_transaction_manager.py:91 | adding a positive number of days gives a strictly later day |
| Calendar.AddDaysSplit | streamlit_transaction_manager.py:91 | adding `a` then `b` days equals adding `a + b` days |
| Calendar.AddDaysIncreasing | streamlit_transaction_manager.py:91 | adding more days always gives a strictly later day |
| Calendar.AddOneMonth | streamlit_transaction_manager.py:80-90 | a day of the month plus that month's length is the same day of the next month (used by `CycleLength`) |
| IsoText.IsoFormat | streamlit_transaction_manager.py:93-96 | the stored text is 19 characters, or 26 when there are microseconds |
| IsoText.IsoLayout | streamlit_transaction_manager.py:93-96 | the text has `-` at 4 and 7, `T` at 10, `:` at 13 and 16, and `.` at 19 before the microseconds |
| IsoText.TextLe | streamlit_transaction_manager.py:95 | SQLite's text order: a prefix sorts at or before the texts it begins (itself included) and a text never sorts at or before one with a smaller first character |
| IsoText.TextLeTotal | streamlit_transaction_manager.py:95 | any two texts are comparable under that order |
| IsoText.IsoFormatOrder | streamlit_transaction_manager.py:93-96 | the stored isoformat texts compare under SQLite's text order exactly as the date-times do, and equal texts mean equal date-times |
| IsoText.IsoPrefix | streamlit_transaction_manager.py:116 | `timestamp[:19]` is the isoformat of the same instant with its microseconds dropped |
| BillingPeriod.BillStart | streamlit_transaction_manager.py:80-86 | the start exists exactly from 0001-01-13 on; it is a valid date-time on a 13th at today's time of day, opening the cycle that holds today: this month's 13th from the 13th on, else the previous month's (December of last year in January) |
| BillingPeriod.CycleUnique | streamlit_transaction_manager.py:80-86 | every day lies in at most one 13th-to-12th cycle |
| BillingPeriod.StartUnique | streamlit_transaction_manager.py:80-86 | any 13th whose cycle holds today is the computed start |
| BillingPeriod.BillEnd | streamlit_transaction_manager.py:88-90 | the end fails exactly after a December 9999 start; otherwise it is midnight of the 12th of the month after the start month (January of the next year after December), and the day after it opens the next cycle, so it is the last day of the start's cycle |
| BillingPeriod.TwelfthAfter | streamlit_transaction_manager.py:88-90 | the 12th of the next month is the start plus the start month's length minus one, and the day after it starts the next cycle |
| BillingPeriod.CycleLength | streamlit_transaction_manager.py:80-90 | a cycle lasts exactly as many days as the month of its 13th: that many days after a 13th is the 13th opening the next cycle |
| BillingPeriod.DueDate | streamlit_transaction_manager.py:91 | the due date is a valid date-time at the start's time of day on a later day; from a 13th it is day 63 minus the two month lengths of the second month after the start, and it overflows exactly when that month is after 9999 |
| BillingPeriod.FiftyDaysAfterThirteenth | streamlit_transaction_manager.py:91 | fifty days after a 13th is, in closed form, day 63 minus the two month lengths of the second month after it, between the 1st and the 4th |
| BillingPeriod.ComputePeriod | streamlit_transaction_manager.py:79-91 | a period exists exactly for the days from 0001-01-13 to 9999-11-12; its values are valid date-times, the start on the 13th opening today's cycle, the end on the 12th closing it, and start < end < due date with the due date on a later day than the end |
| BillingPeriod.ScenarioMarch | streamlit_transaction_manager.py:79-91 | 2024-03-10 gives 2024-02-13 to 2024-03-12, due 2024-04-03 |
| BillingPeriod.ScenarioJanuary | streamlit_transaction_manager.py:79-91 | 2024-01-05 gives 2023-12-13 to 2024-01-12, due 2024-02-01 |
| BillingPeriod.ScenarioDecember | streamlit_transaction_manager.py:79-91 | 2024-12-20 gives 2024-12-13 to 2025-01-12, due 2025-02-01 |
| Records.DuplicateRowsRefused | streamlit_transaction_manager.py:12-29 | two copies of one row break the unique-email constraint and both primary keys, which are stated position by position |
| Records.FindUser | streamlit_transaction_manager.py:52-54 | a user is returned only if both email and password match, and none is returned only when no row matches both |
| Records.FindUserUnique | streamlit_transaction_manager.py:52-54 | with unique emails, login succeeds exactly for the owner of the email with that owner's password |
| StatementEngine.Window | streamlit_transaction_manager.py:93-98 | the selected rows are exactly the rows of that user whose timestamp text lies between the bounds' texts, none added |
| StatementEngine.WindowIsChronological | streamlit_transaction_manager.py:93-98 | the text selection equals the user's rows with `start <= timestamp <= end` as date-times, in table order |
| StatementEngine.WindowConcat | streamlit_transaction_manager.py:93-98 | the selection keeps table order: selecting from two runs of rows concatenates their selections |
| StatementEngine.DebitTotal | streamlit_transaction_manager.py:99 | the total due over some rows equals the summary's CASE-sum of their debit amounts |
| StatementEngine.DebitTotalConcat | streamlit_transaction_manager.py:99 | the total due of two runs of rows is the sum of their totals |
| StatementEngine.OneRowContribution | streamlit_transaction_manager.py:99 | any row adds its amount to the total due if it is a debit and nothing otherwise, so credits never reduce it |
| StatementEngine.DebitTotalNonNegative | streamlit_transaction_manager.py:99 | with non-negative amounts the total due is never negative |
| StatementEngine.NoDebitNothingDue | streamlit_transaction_manager.py:99 | no debit among the selected rows, in particular no rows at all, gives a total of 0 |
| StatementEngine.KindTotal | streamlit_transaction_manager.py:228 | the CASE-sum over a kind is 0 when no row has that kind |
| StatementEngine.KindTotalIsFilteredSum | streamlit_transaction_manager.py:228 | the SQL `SUM(CASE WHEN type = k THEN amount ELSE 0 END)` equals the sum of the amounts of the rows of kind `k` |
| StatementEngine.Truncate | streamlit_transaction_manager.py:115 | the result has at most 33 characters; it equals the input exactly when the input has at most 33; otherwise it is the input's first 30 characters followed by "..." |
| StatementEngine.Upper | streamlit_transaction_manager.py:117 | `type.upper()` on ASCII: each lower-case letter becomes its capital, every other character stays, the length is kept and no lower-case letter is left |
| StatementEngine.UpperIdempotent | streamlit_transaction_manager.py:117 | upper-casing twice is upper-casing once |
| StatementEngine.UpperKinds | streamlit_transaction_manager.py:117 | the two types the form offers print as "CREDIT" and "DEBIT" |
| StatementEngine.LineOf | streamlit_transaction_manager.py:114-119 | a printed row shows the instant to the second, the upper-cased type, the amount and the truncated description: the description is unchanged exactly when it has at most 33 characters and is otherwise its first 30 characters followed by "..." |
| StatementEngine.LineItems | streamlit_transaction_manager.py:114-120 | one printed row per selected transaction, in the same order |
| StatementEngine.ScenarioStatement | streamlit_transaction_manager.py:79-99 | a credit of 100 and a debit of 50 inside the period and a debit of 999 after it, on 2024-03-10: the first two are listed, in order, and 50 is due |
| StatementEngine.StatementWindowExactly | streamlit_transaction_manager.py:81-96 | an instant is selected exactly when its day is in today's cycle, except that on the 13th only from today's time of day on and on the 12th only at midnight |
| StatementEngine.TwelfthUnbilled | streamlit_transaction_manager.py:90 | whatever the export date, no instant on a 12th after midnight is in the window |
| StatementEngine.ThirteenthUnbilledLater | streamlit_transaction_manager.py:81 | an instant on a 13th is outside the window of every export made at a later time of day |
| StatementEngine.CycleWindow | streamlit_transaction_manager.py:79-91 | the intended window exists exactly when the period does |
| StatementEngine.CycleWindowExactly | streamlit_transaction_manager.py:79-96 | with the intended window an instant is selected exactly when its day lies in the export's cycle |
| StatementEngine.CycleWindowsPartition | streamlit_transaction_manager.py:79-96 | with the intended window every instant is on its own cycle's statement, and two windows that share an instant have the same start |
| Ledger.PasswordCheck | streamlit_transaction_manager.py:211-218 | the outcome: wrong current password whenever it differs; else mismatch whenever new and confirmation differ; else empty; the update happens exactly when all three checks pass |
| Ledger.WithPassword | streamlit_transaction_manager.py:219 | the rows with the email get the new password, every other row and column is unchanged |
| Ledger.WithPasswordKeys | streamlit_transaction_manager.py:219 | the update keeps emails unique and ids intact; every row with the email has the new password, every row with another email is still there |
| Ledger.SummaryOf | streamlit_transaction_manager.py:228-236 | a summary row shows the user's id, name and email, the number of rows `get_transactions` returns, the total due over all of them as its debit column and the sum of their credit amounts as its credit column |
| Ledger.Ledger.constructor | streamlit_transaction_manager.py:12-31 | both tables start empty and the invariant holds |
| Ledger.Ledger.AddUser | streamlit_transaction_manager.py:38-44 | a taken email leaves both tables unchanged; otherwise exactly one row with a fresh id is appended; the invariant is kept |
| Ledger.Ledger.DeleteUser | streamlit_transaction_manager.py:46-50 | removes the user and every transaction they own, nothing else, in table order |
| Ledger.Ledger.Authenticate | streamlit_transaction_manager.py:52-54 | returns a user only if both email and password match; none only when no row matches |
| Ledger.Ledger.AddTransaction | streamlit_transaction_manager.py:56-63 | appends exactly one row with a fresh id and timestamp `now`; users are unchanged |
| Ledger.Ledger.DeleteTransaction | streamlit_transaction_manager.py:65-68 | removes only rows whose id and owner both match; a mismatched pair changes nothing |
| Ledger.Ledger.GetTransactions | streamlit_transaction_manager.py:70-72 | exactly the user's transactions |
| Ledger.Ledger.ChangePassword | streamlit_transaction_manager.py:205-221 | the outcome follows the checks in their order; only on success do the rows with the login email get the new password; nothing else changes |
| Ledger.Ledger.ExportStatement | streamlit_transaction_manager.py:74-120 | the period or its error; the user's rows in the window, in table order; one printed line per row; total due = sum of the debit amounts among them |
| Ledger.Ledger.UserSummaries | streamlit_transaction_manager.py:225-237 | one summary per user in table order: the user's columns, their number of transactions and their credit and debit sums |

## Findings

| source | as written | input that shows it | evidently intended | confidence | as-written member | corrected member |
|---|---|---|---|---|---|---|
| streamlit_transaction_manager.py:90 | the window ends at `datetime(year, month, 12)`, midnight at the start of the 12th, compared inclusively | a transaction stamped 2024-03-12T10:00:00 is in no statement: the export of 10 March ends at 2024-03-12T00:00:00, and later exports start on 13 March | the cycle runs through the whole 12th | high, not executed | StatementEngine.TwelfthUnbilled | StatementEngine.CycleWindowExactly |
| streamlit_transaction_manager.py:81 | the start `today.replace(day=13)` keeps the current time of day | a transaction stamped 2024-03-13T09:00:00 is missing from the export made at 10:00 on 20 March, and from every other cycle's statement | the cycle starts at midnight of the 13th | high, not executed | StatementEngine.ThirteenthUnbilledLater | StatementEngine.CycleWindowExactly |

The corrected window is `CycleWindow`: from midnight of the 13th through
23:59:59.999999 of the 12th. `CycleWindowsPartition` proves that these
windows split time into one window per cycle. `ExportStatement` keeps the
window as written, because that is what the exported statements contain.

## Left out

- The Streamlit UI: inputs, tabs, buttons, success and error messages, the
  admin test `email == ADMIN_EMAIL` (line 145), and the user lists offered
  for selection (lines 137-269 apart from the modelled branches).
- The SQLite connection and its sharing across threads
  (`check_same_thread=False`). This is concurrency. The tables are modelled
  by their contents.
- PDF rendering: the cell layout, the header texts, the file name, writing
  and reading the file, `os.remove`, base64 and the download link (lines
  75-77, 101-113, 121-134). These are I/O and foreign library calls.
  `Statement` holds the values they print.
- Number formatting (`f"{x:.2f}"` and the "Rs.0.00" fallback, lines 118,
  124, 235-236) and float accumulation. Amounts are exact `real`s.
- StatementEngine.Upper: maps only the ASCII letters. Python's
  `str.upper()` also maps other Unicode letters.
- Timestamps are kept as date-times. The query compares their isoformat
  text, which is the only text `add_transaction` writes. Rows whose text
  was written some other way are not modelled.
- Queries return whole rows, not the column subsets the SQL names.
- Row order is insertion order, which the tables keep here. The SQL has no
  `ORDER BY`, so the order is SQLite's.
- The `NOT NULL` constraints cannot fail from Python strings and are not
  modelled. The owner of a new transaction is not checked, because SQLite
  does not enforce the foreign key without `PRAGMA foreign_keys`.
- Passwords are compared and stored in plain text, as the source does.
- Ledger.Ledger.ChangePassword: compares against the `user` row fetched at login, as the
  source does. It does not re-read the table.
