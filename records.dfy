/** The rows of the two ledger tables, `users` and `transactions`
    (streamlit_transaction_manager.py:12-31). */
module Records {
  import opened Calendar
  import opened Seqs

  datatype Option<T> = None | Some(value: T)

  /** A row of `users`: `id`, `name`, `email` (UNIQUE) and `password`,
      stored as given. */
  datatype User = User(id: int, name: string, email: string, password: string)

  /** A row of `transactions`. `kind` is the `type` column, free text that
      the forms fill with "credit" or "debit"; `amount` is an exact number
      where the table holds a float; `stamp` is the creation date-time,
      stored in the `timestamp` column as its isoformat text. */
  datatype Txn = Txn(id: int, userId: int, amount: real, kind: string, description: string, stamp: DateTime)

  function EmailOf(u: User): string { u.email }
  function UserIdOf(u: User): int { u.id }
  function TxnIdOf(t: Txn): int { t.id }

  /** The key constraint `email TEXT UNIQUE`: no two rows of `users` share
      an email. */
  predicate EmailsUnique(users: seq<User>)
  {
    DistinctBy(EmailOf, users)
  }

  /** Primary keys: no two rows of `users` share an id, and every id is
      below the next one to be handed out. */
  predicate UserKeys(users: seq<User>, next: int)
  {
    1 <= next &&
    (forall u :: u in users ==> 1 <= u.id < next) &&
    DistinctBy(UserIdOf, users)
  }

  /** Primary keys: no two rows of `transactions` share an id, and every id
      is below the next one to be handed out. */
  predicate TxnKeys(txns: seq<Txn>, next: int)
  {
    1 <= next &&
    (forall t :: t in txns ==> 1 <= t.id < next) &&
    DistinctBy(TxnIdOf, txns)
  }

  /** Two copies of one row break every key constraint. */
  lemma DuplicateRowsRefused(u: User, t: Txn, next: int)
    ensures !EmailsUnique([u, u]) && !UserKeys([u, u], next) && !TxnKeys([t, t], next)
  {
    assert EmailOf([u, u][0]) == EmailOf([u, u][1]);
    assert UserIdOf([u, u][0]) == UserIdOf([u, u][1]);
    assert TxnIdOf([t, t][0]) == TxnIdOf([t, t][1]);
  }

  /** Every stored timestamp is a date-time Python can represent. */
  predicate Stamped(txns: seq<Txn>)
  {
    forall t :: t in txns ==> ValidDateTime(t.stamp)
  }

  /** `SELECT * FROM users WHERE email = ? AND password = ?` followed by
      `fetchone()`: the first such row in table order, or none. */
  function FindUser(users: seq<User>, email: string, password: string): (r: Option<User>)
    ensures r.Some? ==> r.value in users && r.value.email == email && r.value.password == password
    ensures r.None? <==> forall u :: u in users ==> !(u.email == email && u.password == password)
    decreases users
  {
    if users == [] then None
    else if users[0].email == email && users[0].password == password then Some(users[0])
    else FindUser(users[1..], email, password)
  }

  /** Under the unique-email constraint, authentication finds exactly the
      user who owns the email, and only with that user's password. */
  lemma FindUserUnique(users: seq<User>, email: string, password: string)
    requires EmailsUnique(users)
    ensures FindUser(users, email, password).Some? <==>
            exists u :: u in users && u.email == email && u.password == password
    ensures forall u :: u in users && u.email == email ==>
              (FindUser(users, email, password) == Some(u) <==> u.password == password)
  {
    var r := FindUser(users, email, password);
    forall u | u in users && u.email == email
      ensures r == Some(u) <==> u.password == password
    {
      if u.password == password {
        assert r.Some?;
        DistinctByMembers(EmailOf, users, r.value, u);
      }
    }
  }
}
