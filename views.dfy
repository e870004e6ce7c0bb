/** The user-facing wallet views: cash-in, withdrawal request and the
    transaction history. Each state-changing view is a method on the
    database, specified by a function of the old state. */
module Views {
  import opened Models
  import opened Serializers

  /** The balance of a profile that `get_or_create` makes for a user that
      has none. */
  const NewProfileBalance: int := 0

  /** `process_payment`, the simulated gateway: it reports success for
      every profile and amount. */
  function ProcessPayment(balance: int, amount: int): (paid: bool)
    ensures paid
  {
    true
  }

  /** The user's balance once `get_or_create` has run: an existing profile
      is fetched as it is, and a created one keeps every balance
      non-negative. */
  function ProfileBalance(s: Books, u: UserId): (b: int)
    ensures u in s.balance ==> b == s.balance[u]
    ensures NonNegative(s.balance) ==> NonNegative(s.balance[u := b])
  {
    if u in s.balance then s.balance[u] else NewProfileBalance
  }

  /** Cash-in: validate the body, get or create the profile, then, when the
      payment step reports success, credit the amount and insert a completed
      row in one atomic step. `paid` is what the payment step returned. */
  function CashInStep(s: Books, u: UserId, input: CashInInput, paid: bool, now: int): (r: (Books, Result<nat>))
    requires Consistent(s) && u in s.users
    ensures Consistent(r.0)
    ensures r.0.users == s.users && Preserved(s.txs, r.0.txs)
    ensures r.1.Ok? <==> paid && 0 < input.amount < MaxCents
    ensures r.1.Ok? ==>
      && r.1.value == s.nextId
      && r.0.balance == s.balance[u := ProfileBalance(s, u) + input.amount]
      && r.0.txs == s.txs + [Transaction(s.nextId, u, Blank, input.amount, input.payMethod, None, Completed, now)]
      && r.0.nextId == s.nextId + 1
    ensures r.1.Err? ==> r.0.txs == s.txs && r.0.nextId == s.nextId
    ensures r.1 == Err(PaymentDeclined) ==> r.0.balance == s.balance[u := ProfileBalance(s, u)]
    ensures r.1.Err? && r.1 != Err(PaymentDeclined) ==> r.0 == s
  {
    match ValidateCashIn(input)
    case Err(f) => (s, Err(f))
    case Ok(body) =>
      var withProfile := s.(balance := s.balance[u := ProfileBalance(s, u)]);
      if !paid then
        (withProfile, Err(PaymentDeclined))
      else
        var row := Transaction(s.nextId, u, Blank, body.amount, body.payMethod, None, Completed, now);
        var after := Books(s.users, s.balance[u := ProfileBalance(s, u) + body.amount], s.txs + [row], s.nextId + 1);
        assert forall i :: 0 <= i < |s.txs| ==> after.txs[i] == s.txs[i];
        (after, Ok(row.id))
  }

  /** Withdrawal request: refuse when the balance is below the amount,
      otherwise deduct the amount at once and insert a pending withdrawal,
      in one atomic step. */
  function WithdrawalStep(s: Books, u: UserId, amount: int, payMethod: PaymentMethod, now: int): (r: (Books, Result<nat>))
    requires Consistent(s) && u in s.users && AmountFits(amount)
    ensures Consistent(r.0)
    ensures r.1.Ok? <==> u in s.balance && s.balance[u] >= amount
    ensures r.1.Ok? ==>
      && r.1.value == s.nextId
      && r.0.balance == s.balance[u := s.balance[u] - amount]
      && r.0.txs == s.txs + [Transaction(s.nextId, u, Withdrawal, amount, payMethod, None, Pending, now)]
      && r.0.nextId == s.nextId + 1
      && r.0.users == s.users
    ensures r.1.Err? ==> r.0 == s && r.1.failure == (if u in s.balance then InsufficientBalance else NoProfile)
  {
    if u !in s.balance then (s, Err(NoProfile))
    else if s.balance[u] < amount then (s, Err(InsufficientBalance))
    else
      var row := Transaction(s.nextId, u, Withdrawal, amount, payMethod, None, Pending, now);
      var after := Books(s.users, s.balance[u := s.balance[u] - amount], s.txs + [row], s.nextId + 1);
      assert forall i :: 0 <= i < |s.txs| ==> after.txs[i] == s.txs[i];
      (after, Ok(row.id))
  }

  /** The cash-in view on the database. */
  method PerformCashIn(db: Database, u: UserId, input: CashInInput, paid: bool, now: int) returns (r: Result<nat>)
    requires db.Valid() && u in db.users
    modifies db
    ensures db.Valid()
    ensures (db.State(), r) == CashInStep(old(db.State()), u, input, paid, now)
  {
    var checked := ValidateCashIn(input);
    if checked.Err? {
      r := Err(checked.failure);
      return;
    }
    var amount := checked.value.amount;
    if u !in db.balance {
      db.balance := db.balance[u := NewProfileBalance];
    }
    assert db.balance == old(db.balance)[u := ProfileBalance(old(db.State()), u)];
    if !paid {
      r := Err(PaymentDeclined);
      return;
    }
    db.balance := db.balance[u := db.balance[u] + amount];
    var row := Transaction(db.nextId, u, Blank, amount, checked.value.payMethod, None, Completed, now);
    db.txs := db.txs + [row];
    db.nextId := db.nextId + 1;
    r := Ok(row.id);
    assert db.balance == old(db.balance)[u := ProfileBalance(old(db.State()), u) + amount];
  }

  /** The withdrawal-request view on the database. */
  method PerformWithdrawal(db: Database, u: UserId, amount: int, payMethod: PaymentMethod, now: int) returns (r: Result<nat>)
    requires db.Valid() && u in db.users && AmountFits(amount)
    modifies db
    ensures db.Valid()
    ensures (db.State(), r) == WithdrawalStep(old(db.State()), u, amount, payMethod, now)
  {
    if u !in db.balance {
      r := Err(NoProfile);
      return;
    }
    if db.balance[u] < amount {
      r := Err(InsufficientBalance);
      return;
    }
    db.balance := db.balance[u := db.balance[u] - amount];
    var row := Transaction(db.nextId, u, Withdrawal, amount, payMethod, None, Pending, now);
    db.txs := db.txs + [row];
    db.nextId := db.nextId + 1;
    r := Ok(row.id);
  }

  /** Rows ordered by creation time, newest first. */
  predicate NewestFirst(rows: seq<Transaction>) {
    forall i, j :: 0 <= i < j < |rows| ==> rows[i].createdAt >= rows[j].createdAt
  }

  function InsertByDate(t: Transaction, rows: seq<Transaction>): (r: seq<Transaction>)
    requires NewestFirst(rows)
    ensures NewestFirst(r)
    ensures multiset(r) == multiset(rows) + multiset{t}
  {
    if rows == [] then [t]
    else if t.createdAt >= rows[0].createdAt then
      ConsNewest(t, rows);
      [t] + rows
    else
      var rest := InsertByDate(t, rows[1..]);
      assert rows == [rows[0]] + rows[1..];
      NoLaterThan(rest, rows[1..], t, rows[0].createdAt);
      ConsNewest(rows[0], rest);
      [rows[0]] + rest
  }

  /** A row created no earlier than every row of a newest-first list can go
      in front of it. */
  lemma ConsNewest(h: Transaction, rows: seq<Transaction>)
    requires NewestFirst(rows)
    requires forall k :: 0 <= k < |rows| ==> rows[k].createdAt <= h.createdAt
    ensures NewestFirst([h] + rows)
  {
    var r := [h] + rows;
    forall i, j | 0 <= i < j < |r| ensures r[i].createdAt >= r[j].createdAt {
      assert r[j] == rows[j - 1];
      if i > 0 {
        assert r[i] == rows[i - 1];
      }
    }
  }

  /** A rearrangement of `source` and one more row, all created no later
      than `bound`, has only such rows. */
  lemma NoLaterThan(rows: seq<Transaction>, source: seq<Transaction>, extra: Transaction, bound: int)
    requires multiset(rows) == multiset(source) + multiset{extra}
    requires extra.createdAt <= bound
    requires forall k :: 0 <= k < |source| ==> source[k].createdAt <= bound
    ensures forall k :: 0 <= k < |rows| ==> rows[k].createdAt <= bound
  {
    forall k | 0 <= k < |rows| ensures rows[k].createdAt <= bound {
      assert rows[k] in multiset(source) + multiset{extra};
      if rows[k] != extra {
        assert rows[k] in multiset(source);
        var j :| 0 <= j < |source| && source[j] == rows[k];
      }
    }
  }

  /** The rows in newest-first order (a stable insertion sort). */
  function SortNewestFirst(rows: seq<Transaction>): (r: seq<Transaction>)
    ensures NewestFirst(r)
    ensures multiset(r) == multiset(rows)
  {
    if rows == [] then []
    else
      assert rows == [rows[0]] + rows[1..];
      InsertByDate(rows[0], SortNewestFirst(rows[1..]))
  }

  /** The filter `user == u`. */
  function OwnedBy(u: UserId): Transaction -> bool {
    (t: Transaction) => t.user == u
  }

  /** The history view: the user's rows, newest first. */
  function History(txs: seq<Transaction>, u: UserId): (r: seq<Transaction>)
    ensures forall t :: t in r <==> t in txs && t.user == u
    ensures NewestFirst(r)
    ensures multiset(r) == multiset(Keep(txs, OwnedBy(u)))
  {
    var mine := Keep(txs, OwnedBy(u));
    var r := SortNewestFirst(mine);
    assert forall t :: t in r <==> t in mine by {
      forall t ensures t in r <==> t in mine {
        assert t in r <==> t in multiset(r);
        assert t in mine <==> t in multiset(mine);
      }
    }
    r
  }
}
