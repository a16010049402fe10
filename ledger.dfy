/** The ledger: the `users` and `transactions` tables as an object whose
    methods insert, delete and update rows in place, the read-only queries
    over them, the statement export and the admin's per-user summary. */
module Ledger {
  import opened Calendar
  import opened BillingPeriod
  import opened Records
  import opened Seqs
  import opened StatementEngine

  // ---------- Password change (streamlit_transaction_manager.py:211-221) ----------

  datatype PasswordOutcome = WrongCurrent | Mismatch | EmptyPassword | Updated

  /** The checks of the change-password form, in their order: the current
      password first, then the confirmation, then emptiness. */
  function PasswordCheck(stored: string, current: string, newPassword: string, confirm: string): (o: PasswordOutcome)
    ensures o == WrongCurrent <==> current != stored
    ensures o == Mismatch <==> current == stored && newPassword != confirm
    ensures o == EmptyPassword <==> current == stored && newPassword == confirm && newPassword == ""
    ensures o == Updated <==> current == stored && newPassword == confirm && newPassword != ""
  {
    if current != stored then WrongCurrent
    else if newPassword != confirm then Mismatch
    else if newPassword == "" then EmptyPassword
    else Updated
  }

  /** `UPDATE users SET password = ? WHERE email = ?`: the rows with that
      email get the new password; every other row and every other column
      stays as it was. */
  function WithPassword(users: seq<User>, email: string, password: string): (r: seq<User>)
    ensures |r| == |users|
    ensures forall i :: 0 <= i < |users| ==>
              r[i] == if users[i].email == email then users[i].(password := password) else users[i]
    decreases users
  {
    if users == [] then []
    else [if users[0].email == email then users[0].(password := password) else users[0]] +
         WithPassword(users[1..], email, password)
  }

  /** Every row after the update is an old row with at most its password
      changed, and to the new one exactly when it has that email. */
  lemma WithPasswordRow(users: seq<User>, email: string, password: string, u: User)
    requires u in WithPassword(users, email, password)
    ensures exists w :: w in users && u == (if w.email == email then w.(password := password) else w)
  {
    var r := WithPassword(users, email, password);
    var i :| 0 <= i < |r| && r[i] == u;
    assert users[i] in users;
  }

  /** Changing passwords keeps ids and emails, so the key constraints hold
      afterwards; under them exactly the owner of the email is changed. */
  lemma WithPasswordKeys(users: seq<User>, email: string, password: string, next: int)
    requires EmailsUnique(users) && UserKeys(users, next)
    ensures var r := WithPassword(users, email, password);
            EmailsUnique(r) && UserKeys(r, next) &&
            (forall u :: u in r && u.email == email ==> u.password == password) &&
            (forall u :: u in users && u.email != email ==> u in r)
  {
    var r := WithPassword(users, email, password);
    assert EmailsUnique(r) && DistinctBy(UserIdOf, r) by {
      forall i, j | 0 <= i < j < |r|
        ensures EmailOf(r[i]) != EmailOf(r[j]) && UserIdOf(r[i]) != UserIdOf(r[j])
      {
        assert EmailOf(users[i]) != EmailOf(users[j]) && UserIdOf(users[i]) != UserIdOf(users[j]);
      }
    }
    forall u | u in r
      ensures 1 <= u.id < next && (u.email == email ==> u.password == password)
    {
      WithPasswordRow(users, email, password, u);
    }
    forall u | u in users && u.email != email
      ensures u in r
    {
      var i :| 0 <= i < |users| && users[i] == u;
      assert r[i] == u;
    }
  }

  // ---------- Per-user summary (streamlit_transaction_manager.py:225-237) ----------

  /** One row of the "All Registered Users" table: the user's columns, the
      number of their transactions and the credit and debit sums. */
  datatype Summary = Summary(id: int, name: string, email: string, count: nat, credit: real, debit: real)

  function OwnedBy(uid: int): Txn -> bool
  {
    (t: Txn) => t.userId == uid
  }

  /** The summary row of user `u`: their transactions are the rows
      `get_transactions` returns, the debit column is the total due that a
      statement covering all of them would show, and the credit column is
      the sum of their credit amounts. */
  function SummaryOf(u: User, txns: seq<Txn>): (r: Summary)
    ensures r.id == u.id && r.name == u.name && r.email == u.email
    ensures r.count == |Filter(OwnedBy(u.id), txns)|
    ensures r.debit == DebitTotal(Filter(OwnedBy(u.id), txns))
    ensures r.credit == AmountSum(Filter(OfKind("credit"), Filter(OwnedBy(u.id), txns)))
  {
    KindTotalIsFilteredSum(Filter(OwnedBy(u.id), txns), "credit");
    var rows := Filter(OwnedBy(u.id), txns);
    Summary(u.id, u.name, u.email, |rows|, KindTotal(rows, "credit"), KindTotal(rows, "debit"))
  }

  function NotUser(uid: int): User -> bool
  {
    (u: User) => u.id != uid
  }

  function NotOwnedBy(uid: int): Txn -> bool
  {
    (t: Txn) => t.userId != uid
  }

  function NotThisRow(uid: int, tid: int): Txn -> bool
  {
    (t: Txn) => !(t.id == tid && t.userId == uid)
  }

  class Ledger {
    /** The `users` table in row order. */
    var users: seq<User>
    /** The `transactions` table in row order. */
    var txns: seq<Txn>
    /** AUTOINCREMENT counters: the id the next inserted row receives. */
    var nextUserId: int
    var nextTxnId: int

    ghost predicate Valid()
      reads this
    {
      EmailsUnique(users) && UserKeys(users, nextUserId) && TxnKeys(txns, nextTxnId) && Stamped(txns)
    }

    /** Both tables created empty. */
    constructor ()
      ensures Valid() && users == [] && txns == [] && nextUserId == 1 && nextTxnId == 1
    {
      users, txns := [], [];
      nextUserId, nextTxnId := 1, 1;
    }

    /** `add_user`: insert a row with a fresh id, unless the email is taken,
        in which case the UNIQUE constraint refuses it and nothing changes. */
    method AddUser(name: string, email: string, password: string) returns (added: bool)
      requires Valid()
      modifies this
      ensures Valid()
      ensures added <==> forall u :: u in old(users) ==> u.email != email
      ensures users == if added then old(users) + [User(old(nextUserId), name, email, password)] else old(users)
      ensures nextUserId == if added then old(nextUserId) + 1 else old(nextUserId)
      ensures txns == old(txns) && nextTxnId == old(nextTxnId)
    {
      added := forall u :: u in users ==> u.email != email;
      if added {
        var row := User(nextUserId, name, email, password);
        assert forall u :: u in users + [row] <==> u in users || u == row;
        DistinctByAppend(EmailOf, users, row);
        DistinctByAppend(UserIdOf, users, row);
        users := users + [row];
        nextUserId := nextUserId + 1;
      }
    }

    /** `delete_user`: remove the user's row and every transaction they own;
        all other rows stay, in their order. */
    method DeleteUser(uid: int)
      requires Valid()
      modifies this
      ensures Valid()
      ensures users == Filter(NotUser(uid), old(users))
      ensures txns == Filter(NotOwnedBy(uid), old(txns))
      ensures forall u :: u in users <==> u in old(users) && u.id != uid
      ensures forall t :: t in txns <==> t in old(txns) && t.userId != uid
      ensures nextUserId == old(nextUserId) && nextTxnId == old(nextTxnId)
    {
      FilterDistinctBy(EmailOf, NotUser(uid), users);
      FilterDistinctBy(UserIdOf, NotUser(uid), users);
      FilterDistinctBy(TxnIdOf, NotOwnedBy(uid), txns);
      users := Filter(NotUser(uid), users);
      txns := Filter(NotOwnedBy(uid), txns);
    }

    /** `authenticate_user`: the first user row with both this email and
        this password, if any. */
    function Authenticate(email: string, password: string): (r: Option<User>)
      reads this
      ensures r.Some? ==> r.value in users && r.value.email == email && r.value.password == password
      ensures r.None? <==> forall u :: u in users ==> !(u.email == email && u.password == password)
    {
      FindUser(users, email, password)
    }

    /** `add_transaction`: append a row with a fresh id and the current
        date-time `now` as its timestamp. The owner is not checked against
        the `users` table. */
    method AddTransaction(uid: int, amount: real, kind: string, description: string, now: DateTime)
      requires Valid() && ValidDateTime(now)
      modifies this
      ensures Valid()
      ensures txns == old(txns) + [Txn(old(nextTxnId), uid, amount, kind, description, now)]
      ensures nextTxnId == old(nextTxnId) + 1
      ensures users == old(users) && nextUserId == old(nextUserId)
    {
      var row := Txn(nextTxnId, uid, amount, kind, description, now);
      assert forall t :: t in txns + [row] <==> t in txns || t == row;
      DistinctByAppend(TxnIdOf, txns, row);
      txns := txns + [row];
      nextTxnId := nextTxnId + 1;
    }

    /** `delete_transaction`: remove the row only when both its id and its
        owner match; a pair that names no row changes nothing. */
    method DeleteTransaction(uid: int, tid: int)
      requires Valid()
      modifies this
      ensures Valid()
      ensures txns == Filter(NotThisRow(uid, tid), old(txns))
      ensures forall t :: t in txns <==> t in old(txns) && !(t.id == tid && t.userId == uid)
      ensures (forall t :: t in old(txns) ==> !(t.id == tid && t.userId == uid)) ==> txns == old(txns)
      ensures users == old(users) && nextUserId == old(nextUserId) && nextTxnId == old(nextTxnId)
    {
      if forall t :: t in txns ==> !(t.id == tid && t.userId == uid) {
        FilterKeepsAll(NotThisRow(uid, tid), txns);
      }
      FilterDistinctBy(TxnIdOf, NotThisRow(uid, tid), txns);
      txns := Filter(NotThisRow(uid, tid), txns);
    }

    /** `get_transactions`: the user's rows, in table order. */
    function GetTransactions(uid: int): (rows: seq<Txn>)
      reads this
      ensures forall t :: t in rows <==> t in txns && t.userId == uid
    {
      Filter(OwnedBy(uid), txns)
    }

    /** The "Update Password" button for the logged-in `user`, who logged in
        with `email`: only when all three checks pass is the password of
        the rows with that email replaced. */
    method ChangePassword(user: User, email: string, current: string, newPassword: string, confirm: string)
      returns (outcome: PasswordOutcome)
      requires Valid()
      modifies this
      ensures Valid()
      ensures outcome == PasswordCheck(user.password, current, newPassword, confirm)
      ensures users == if outcome == Updated then WithPassword(old(users), email, newPassword) else old(users)
      ensures txns == old(txns) && nextUserId == old(nextUserId) && nextTxnId == old(nextTxnId)
    {
      outcome := PasswordCheck(user.password, current, newPassword, confirm);
      if outcome == Updated {
        WithPasswordKeys(users, email, newPassword, nextUserId);
        users := WithPassword(users, email, newPassword);
      }
    }

    /** `export_pdf` up to the renderer: the period for `today`, the user's
        rows inside it in table order, their printed lines and the total due. */
    method ExportStatement(user: User, today: DateTime) returns (r: Result<Statement>)
      requires Valid() && ValidDateTime(today)
      ensures r.Ok? <==> ComputePeriod(today).Ok?
      ensures r.Err? ==> r.error == ComputePeriod(today).error
      ensures r.Ok? ==> r.value.period == ComputePeriod(today).value &&
                        ValidDateTime(r.value.period.start) && ValidDateTime(r.value.period.end)
      ensures r.Ok? ==>
                var s := r.value;
                s.name == user.name && s.email == user.email &&
                s.items == Window(txns, user.id, s.period.start, s.period.end) &&
                s.total == DebitTotal(s.items) &&
                |s.lines| == |s.items| &&
                forall i :: 0 <= i < |s.items| ==> s.lines[i] == LineOf(s.items[i])
    {
      var computed := ComputePeriod(today);
      if computed.Err? {
        return Err(computed.error);
      }
      var p := computed.value;
      var items := Window(txns, user.id, p.start, p.end);
      var lines := LineItems(items);
      r := Ok(Statement(user.name, user.email, p, items, lines, DebitTotal(items)));
    }

    /** The "All Registered Users" loop: one summary per user, in table order. */
    method UserSummaries() returns (data: seq<Summary>)
      ensures |data| == |users|
      ensures forall i :: 0 <= i < |users| ==> data[i] == SummaryOf(users[i], txns)
    {
      data := [];
      for i := 0 to |users|
        invariant |data| == i
        invariant forall k :: 0 <= k < i ==> data[k] == SummaryOf(users[k], txns)
      {
        data := data + [SummaryOf(users[i], txns)];
      }
    }
  }
}
