/** The persisted data of the wallet: the Transaction table with its field
    constraints and choice enums, the per-user profile balance, and the
    cascade that removes a user's rows when the user is deleted.
    Money is held in integer cents, since `amount` is a decimal with two
    places. */
module Models {

  type UserId = nat

  datatype Option<T> = None | Some(value: T)

  /** `payment_method` choices. */
  datatype PaymentMethod = GCash | Visa | Mastercard | PayPal

  /** `status` choices. */
  datatype Status = Pending | Completed | Failed

  /** `transaction_type` choices, plus Blank: the empty string that a row
      gets when it is saved without a type (field default of a CharField). */
  datatype TxType = Blank | CashIn | Withdrawal

  /** Every way an operation of the wallet can fail. */
  datatype Failure =
    | NotPositive          // "Amount must be greater than zero."
    | TooManyDigits        // more than 10 digits in total
    | PaymentDeclined      // the payment step reported failure
    | InsufficientBalance  // balance below the amount
    | NoProfile            // the user has no profile row
    | NoSuchRow            // no transaction with the edited id

  datatype Result<T> = Ok(value: T) | Err(failure: Failure)

  /** `max_digits=10, decimal_places=2`: at most 99999999.99 in magnitude,
      that is, fewer than 10^10 cents. */
  const MaxCents: int := 10_000_000_000

  predicate AmountFits(cents: int) {
    -MaxCents < cents < MaxCents
  }

  /** The column's `max_digits`. */
  const MaxDigits: nat := 10

  /** The number of decimal digits of `n`. */
  function Digits(n: nat): (d: nat)
    ensures 1 <= d
  {
    if n < 10 then 1 else 1 + Digits(n / 10)
  }

  function Pow10(k: nat): (p: nat)
    ensures 1 <= p
  {
    if k == 0 then 1 else 10 * Pow10(k - 1)
  }

  /** `n` has at most `k` digits exactly when it is below 10^k. */
  lemma {:induction false} DigitsBelow(n: nat, k: nat)
    requires 1 <= k
    ensures Digits(n) <= k <==> n < Pow10(k)
  {
    if k > 1 {
      assert Pow10(k) == 10 * Pow10(k - 1);
      if n >= 10 {
        DigitsBelow(n / 10, k - 1);
      }
    }
  }

  /** The bound is the column's digit limit: an amount of whole cents fits
      exactly when its magnitude in cents has at most ten digits, two of
      them after the decimal point. */
  lemma AmountFitsDigits(cents: int)
    ensures AmountFits(cents) <==> Digits(if cents < 0 then -cents else cents) <= MaxDigits
  {
    DigitsBelow(if cents < 0 then -cents else cents, MaxDigits);
    assert Pow10(MaxDigits) == MaxCents;
  }

  datatype Transaction = Transaction(
    id: nat,
    user: UserId,
    txType: TxType,
    amount: int,            // cents
    payMethod: PaymentMethod,
    reference: Option<string>,
    status: Status,
    createdAt: int)         // set when the row is inserted

  predicate IsPendingWithdrawal(t: Transaction) {
    t.txType == Withdrawal && t.status == Pending
  }

  /** The whole ledger: the registered users, each profile's balance (the
      key set is the set of users that have a profile), the Transaction
      table in insertion order, and the next primary key. */
  datatype Books = Books(
    users: set<UserId>,
    balance: map<UserId, int>,
    txs: seq<Transaction>,
    nextId: nat)

  /** Of two rows, the one inserted earlier has the smaller id (keys are
      handed out in increasing order), and they never share a non-null
      reference. */
  predicate Precedes(a: Transaction, b: Transaction) {
    a.id < b.id && (a.reference.Some? ==> a.reference != b.reference)
  }

  predicate RowFits(t: Transaction, users: set<UserId>, nextId: nat) {
    AmountFits(t.amount) && t.user in users && t.id < nextId
  }

  predicate NonNegative(balance: map<UserId, int>) {
    forall u :: u in balance ==> balance[u] >= 0
  }

  /** The table invariant: amounts fit the column, every row has an owning
      user, ids increase along the table and stay below the next key,
      non-null references are unique, and no balance is negative. */
  predicate Consistent(s: Books) {
    && NonNegative(s.balance)
    && (forall i :: 0 <= i < |s.txs| ==> RowFits(s.txs[i], s.users, s.nextId))
    && (forall i, j :: 0 <= i < j < |s.txs| ==> Precedes(s.txs[i], s.txs[j]))
  }

  /** The constraints of the table as the database enforces them: `id` is
      a primary key and `payment_reference` is unique where not null, in
      whichever order two rows are taken. */
  lemma ConsistentKeysUnique(s: Books)
    requires Consistent(s)
    ensures forall i, j :: 0 <= i < |s.txs| && 0 <= j < |s.txs| && i != j ==>
      s.txs[i].id != s.txs[j].id
    ensures forall i, j :: 0 <= i < |s.txs| && 0 <= j < |s.txs| && i != j && s.txs[i].reference.Some? ==>
      s.txs[i].reference != s.txs[j].reference
  {
    forall i, j | 0 <= i < |s.txs| && 0 <= j < |s.txs| && i != j
      ensures s.txs[i].id != s.txs[j].id
      ensures s.txs[i].reference.Some? ==> s.txs[i].reference != s.txs[j].reference
    {
      if i < j {
        assert Precedes(s.txs[i], s.txs[j]);
      } else {
        assert Precedes(s.txs[j], s.txs[i]);
      }
    }
  }

  /** No row but the one with id `except` carries `ref`. */
  predicate ReferenceFree(txs: seq<Transaction>, ref: Option<string>, except: Option<nat>) {
    ref.Some? ==>
      forall i :: 0 <= i < |txs| && txs[i].reference == ref ==> Some(txs[i].id) == except
  }

  /** Existing rows keep their position, their id and their creation time. */
  predicate Preserved(t0: seq<Transaction>, t1: seq<Transaction>) {
    |t0| <= |t1| &&
    forall i :: 0 <= i < |t0| ==> t1[i].id == t0[i].id && t1[i].createdAt == t0[i].createdAt
  }

  /** The rows of `txs` satisfying `p`, in table order (a queryset filter). */
  function Keep(txs: seq<Transaction>, p: Transaction -> bool): (r: seq<Transaction>)
    ensures |r| <= |txs| && multiset(r) <= multiset(txs)
    ensures forall t :: t in r <==> t in txs && p(t)
    ensures forall i :: 0 <= i < |r| ==> p(r[i])
  {
    if txs == [] then []
    else
      var rest := Keep(txs[1..], p);
      assert txs == [txs[0]] + txs[1..];
      if p(txs[0]) then [txs[0]] + rest else rest
  }

  /** Along `rows` the ids increase, and no two rows share a non-null
      reference. */
  predicate RowsInOrder(rows: seq<Transaction>) {
    forall i, j :: 0 <= i < j < |rows| ==> Precedes(rows[i], rows[j])
  }

  lemma TailInOrder(rows: seq<Transaction>)
    requires rows != [] && RowsInOrder(rows)
    ensures RowsInOrder(rows[1..])
    ensures forall x :: x in rows[1..] ==> Precedes(rows[0], x)
  {
    var tail := rows[1..];
    forall i, j | 0 <= i < j < |tail| ensures Precedes(tail[i], tail[j]) {
      assert tail[i] == rows[i + 1] && tail[j] == rows[j + 1];
    }
    forall x | x in tail ensures Precedes(rows[0], x) {
      var k :| 0 <= k < |tail| && tail[k] == x;
      assert rows[k + 1] == x;
    }
  }

  lemma ConsInOrder(h: Transaction, rest: seq<Transaction>)
    requires RowsInOrder(rest) && forall x :: x in rest ==> Precedes(h, x)
    ensures RowsInOrder([h] + rest)
  {
    var r := [h] + rest;
    forall i, j | 0 <= i < j < |r| ensures Precedes(r[i], r[j]) {
      assert r[j] == rest[j - 1];
      if i > 0 {
        assert r[i] == rest[i - 1];
      }
    }
  }

  /** Filtering keeps rows apart. */
  lemma {:induction false} KeepInOrder(txs: seq<Transaction>, p: Transaction -> bool)
    requires RowsInOrder(txs)
    ensures RowsInOrder(Keep(txs, p))
  {
    if txs != [] {
      TailInOrder(txs);
      KeepInOrder(txs[1..], p);
      if p(txs[0]) {
        ConsInOrder(txs[0], Keep(txs[1..], p));
      }
    }
  }

  /** Filtering keeps every row fitting the table. */
  lemma KeepFits(txs: seq<Transaction>, p: Transaction -> bool, users: set<UserId>, nextId: nat)
    requires forall i :: 0 <= i < |txs| ==> RowFits(txs[i], users, nextId)
    ensures forall i :: 0 <= i < |Keep(txs, p)| ==> RowFits(Keep(txs, p)[i], users, nextId)
  {
    var rows := Keep(txs, p);
    forall i | 0 <= i < |rows| ensures RowFits(rows[i], users, nextId) {
      assert rows[i] in txs;
    }
  }

  /** The filter `user != u`. */
  function OwnedByOther(u: UserId): Transaction -> bool {
    (t: Transaction) => t.user != u
  }

  /** Deleting user `u` (on_delete=CASCADE): the user and every row it owns
      disappear; no other row changes. */
  function WithoutUser(s: Books, u: UserId): (r: Books)
    requires Consistent(s)
    ensures Consistent(r)
    ensures r.users == s.users - {u} && r.balance == s.balance && r.nextId == s.nextId
    ensures forall t :: t in r.txs <==> t in s.txs && t.user != u
  {
    var rows := Keep(s.txs, OwnedByOther(u));
    KeepInOrder(s.txs, OwnedByOther(u));
    KeepFits(s.txs, OwnedByOther(u), s.users, s.nextId);
    assert forall i :: 0 <= i < |rows| ==> RowFits(rows[i], s.users - {u}, s.nextId) by {
      forall i | 0 <= i < |rows| ensures RowFits(rows[i], s.users - {u}, s.nextId) {
        assert OwnedByOther(u)(rows[i]);
      }
    }
    Books(s.users - {u}, s.balance, rows, s.nextId)
  }

  /** The database: the Transaction table and the profile balances, updated
      in place by the views and the admin actions. */
  class Database {
    var users: set<UserId>
    var balance: map<UserId, int>
    var txs: seq<Transaction>
    var nextId: nat

    function State(): Books
      reads this
    {
      Books(users, balance, txs, nextId)
    }

    predicate Valid()
      reads this
    {
      Consistent(State())
    }

    /** An empty ledger over the given registered users. */
    constructor (registered: set<UserId>)
      ensures Valid()
      ensures State() == Books(registered, map[], [], 0)
    {
      users := registered;
      balance := map[];
      txs := [];
      nextId := 0;
    }

    /** Delete a user; the database cascades to the user's transactions. */
    method DeleteUser(u: UserId)
      requires Valid()
      modifies this
      ensures Valid()
      ensures State() == WithoutUser(old(State()), u)
    {
      txs := Keep(txs, OwnedByOther(u));
      users := users - {u};
      assert State() == WithoutUser(old(State()), u);
    }
  }
}
