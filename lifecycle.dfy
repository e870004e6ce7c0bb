/** Properties that span several operations: a withdrawal's life from
    request to approval, manual completion through the admin form, the
    order in which one approve action sees balances, and the cascade. */
module Lifecycle {
  import opened Models
  import opened Serializers
  import opened Views
  import opened Admin

  /** A fresh request is the only row an approve of its own id lists, and
      the one the loop visits. */
  lemma SelectingNewRequest(s: Books, u: UserId, amount: int, m: PaymentMethod, now: int)
    requires Consistent(s) && u in s.users && AmountFits(amount)
    requires WithdrawalStep(s, u, amount, m, now).1.Ok?
    ensures var s1 := WithdrawalStep(s, u, amount, m, now).0;
      && DefaultListing(s1.txs, {s.nextId}) == [|s.txs|]
      && PendingIn(s1.txs, DefaultListing(s1.txs, {s.nextId})) == [|s.txs|]
  {
    var s1 := WithdrawalStep(s, u, amount, m, now).0;
    forall i | 0 <= i < |s.txs| ensures s1.txs[i].id !in {s.nextId} {
      assert s1.txs[i] == s.txs[i] && RowFits(s.txs[i], s.users, s.nextId);
    }
    SelectedDownNone(s1.txs, {s.nextId}, |s.txs|);
    assert SelectedDown(s1.txs, {s.nextId}, |s1.txs|) == [|s.txs|];
    assert [|s.txs|][1..] == [];
  }

  /** The request deducts the amount and the approval deducts it again: a
      withdrawal of `a` that is requested and then approved costs the user
      `2a`, and the row ends completed. */
  lemma RequestThenApproveDeductsTwice(s: Books, u: UserId, a: int, m: PaymentMethod, now: int)
    requires Consistent(s) && u in s.users && AmountFits(a)
    requires u in s.balance && s.balance[u] >= 2 * a && a >= 0
    ensures var (s1, req) := WithdrawalStep(s, u, a, m, now);
      && req == Ok(s.nextId)
      && var (s2, notices) := ApproveRun(s1, PendingIn(s1.txs, DefaultListing(s1.txs, {s.nextId})));
      && notices == [Approved(s.nextId)]
      && s2.balance[u] == s.balance[u] - 2 * a
      && s2.txs[|s.txs|].status == Completed
  {
    SelectingNewRequest(s, u, a, m, now);
  }

  /** With a balance of at least `a` but less than `2a`, the request of `a`
      succeeds but its approval reports insufficient balance, leaves the row
      pending, and leaves the balance at what the request left. */
  lemma RequestThenApproveStaysPending(s: Books, u: UserId, a: int, m: PaymentMethod, now: int)
    requires Consistent(s) && u in s.users && AmountFits(a)
    requires u in s.balance && a <= s.balance[u] < 2 * a
    ensures var (s1, req) := WithdrawalStep(s, u, a, m, now);
      && req == Ok(s.nextId)
      && var (s2, notices) := ApproveRun(s1, PendingIn(s1.txs, DefaultListing(s1.txs, {s.nextId})));
      && notices == [Insufficient(s.nextId)]
      && s2 == s1
      && s2.balance[u] == s.balance[u] - a
      && s2.txs[|s.txs|].status == Pending
  {
    SelectingNewRequest(s, u, a, m, now);
  }

  /** Two withdrawals of 60.00 and 50.00 requested against 100.00: the first
      request leaves 40.00 and the second is refused. */
  lemma SecondRequestRefused(m: PaymentMethod)
    ensures
      var s0 := Books({7}, map[7 := 10000], [], 0);
      var (s1, first) := WithdrawalStep(s0, 7, 6000, m, 1);
      var (s2, second) := WithdrawalStep(s1, 7, 5000, m, 2);
      && first.Ok? && s1.balance[7] == 4000
      && second == Err(InsufficientBalance) && s2 == s1
  {
  }

  /** The two pending withdrawals of user 7 in the examples below. */
  function ExampleRows(m: PaymentMethod): seq<Transaction> {
    [Transaction(0, 7, Withdrawal, 6000, m, None, Pending, 1),
     Transaction(1, 7, Withdrawal, 5000, m, None, Pending, 2)]
  }

  function ExampleBooks(m: PaymentMethod): Books {
    Books({7}, map[7 := 10000], ExampleRows(m), 2)
  }

  /** The ledger once the row with id `i` alone has been approved. */
  function ExampleAfter(m: PaymentMethod, i: nat): Books
    requires i < 2
  {
    var t := ExampleRows(m)[i];
    Books({7}, map[7 := 10000 - t.amount], ExampleRows(m)[i := t.(status := Completed)], 2)
  }

  /** The change list's default order lists id 1 before id 0. */
  lemma ExampleDefaultListing(m: PaymentMethod)
    ensures DefaultListing(ExampleRows(m), {0, 1}) == [1, 0]
  {
    var txs := ExampleRows(m);
    assert SelectedDown(txs, {0, 1}, 0) == [];
    assert SelectedDown(txs, {0, 1}, 1) == [0];
  }

  /** The ascending order is another listing of the same selection. */
  lemma ExampleAscendingListing(m: PaymentMethod)
    ensures ListsSelection(ExampleRows(m), {0, 1}, [0, 1])
  {
    var txs := ExampleRows(m);
    forall i | 0 <= i < |txs| ensures i in [0, 1] <==> txs[i].id in {0, 1} {
      assert txs[i].id == i;
    }
  }

  /** Both rows are pending withdrawals, so neither listing loses one. */
  lemma ExamplePending(m: PaymentMethod, i: nat)
    requires i < 2
    ensures PendingIn(ExampleRows(m), [i, 1 - i]) == [i, 1 - i]
  {
    var txs := ExampleRows(m);
    assert [i, 1 - i][1..] == [1 - i] && [1 - i][1..] == [];
    assert PendingIn(txs, [1 - i]) == [1 - i];
  }

  /** From 100.00 either row alone is approved. */
  lemma ExampleOneApproved(m: PaymentMethod, i: nat)
    requires i < 2
    ensures ApproveStep(ExampleBooks(m), i) == (ExampleAfter(m, i), Approved(i))
  {
    var t := ExampleRows(m)[i];
    assert map[7 := 10000][7 := 10000 - t.amount] == map[7 := 10000 - t.amount];
  }

  /** After either approval, what is left does not cover the other row. */
  lemma ExampleOtherStaysPending(m: PaymentMethod, i: nat)
    requires i < 2
    ensures ApproveRun(ExampleAfter(m, i), [1 - i]) == (ExampleAfter(m, i), [Insufficient(1 - i)])
  {
    var s1 := ExampleAfter(m, i);
    assert ApproveStep(s1, 1 - i) == (s1, Insufficient(1 - i));
    assert [1 - i][1..] == [];
    assert [Insufficient(1 - i)] + [] == [Insufficient(1 - i)];
  }

  /** The run over `[i, 1 - i]`: the first row visited is approved and the
      other stays pending. */
  lemma ExampleRun(m: PaymentMethod, i: nat)
    requires i < 2
    ensures ApproveRun(ExampleBooks(m), [i, 1 - i]) == (ExampleAfter(m, i), [Approved(i), Insufficient(1 - i)])
  {
    ExampleOneApproved(m, i);
    ExampleOtherStaysPending(m, i);
    assert [i, 1 - i][1..] == [1 - i];
    assert [Approved(i)] + [Insufficient(1 - i)] == [Approved(i), Insufficient(1 - i)];
  }

  /** Within one approve action a later row of the same user sees the
      balance the earlier approvals left. With 100.00 and pending
      withdrawals of 60.00 (id 0) and 50.00 (id 1) selected, the change
      list's default order visits id 1 first: 50.00 is approved, leaving
      50.00, and the 60.00 stays pending. */
  lemma ApprovalsSeeEarlierDeductions(m: PaymentMethod)
    ensures
      var w1 := Transaction(0, 7, Withdrawal, 6000, m, None, Pending, 1);
      var w2 := Transaction(1, 7, Withdrawal, 5000, m, None, Pending, 2);
      var s := Books({7}, map[7 := 10000], [w1, w2], 2);
      var (r, notices) := ApproveRun(s, PendingIn(s.txs, DefaultListing(s.txs, {0, 1})));
      && notices == [Approved(1), Insufficient(0)]
      && r.balance[7] == 5000
      && r.txs == [w1, w2.(status := Completed)]
  {
    var s := ExampleBooks(m);
    ExampleDefaultListing(m);
    ExamplePending(m, 1);
    ExampleRun(m, 1);
    assert ExampleAfter(m, 1).txs == [ExampleRows(m)[0], ExampleRows(m)[1].(status := Completed)];
  }

  /** The outcome depends on the order of the change list: sorted by
      ascending id, the same selection approves the 60.00 instead, leaves
      40.00, and the 50.00 stays pending. */
  lemma ApprovalOrderDecides(m: PaymentMethod)
    ensures
      var w1 := Transaction(0, 7, Withdrawal, 6000, m, None, Pending, 1);
      var w2 := Transaction(1, 7, Withdrawal, 5000, m, None, Pending, 2);
      var s := Books({7}, map[7 := 10000], [w1, w2], 2);
      && ListsSelection(s.txs, {0, 1}, [0, 1])
      && var (r, notices) := ApproveRun(s, PendingIn(s.txs, [0, 1]));
      && notices == [Approved(0), Insufficient(1)]
      && r.balance[7] == 4000
      && r.txs == [w1.(status := Completed), w2]
  {
    var s := ExampleBooks(m);
    ExampleAscendingListing(m);
    ExamplePending(m, 0);
    ExampleRun(m, 0);
    assert ExampleAfter(m, 0).txs == [ExampleRows(m)[0].(status := Completed), ExampleRows(m)[1]];
  }

  /** Marking a pending cash-in completed by hand deducts its amount from the
      owner: the hook treats every type alike. */
  lemma ManualCompletionOfCashInDeducts(s: Books, i: nat, now: int)
    requires Consistent(s) && i < |s.txs|
    requires s.txs[i].txType == CashIn && s.txs[i].status == Pending
    requires s.txs[i].user in s.balance && s.balance[s.txs[i].user] >= s.txs[i].amount
    ensures
      var t := s.txs[i];
      var f := AdminForm(t.user, t.txType, t.amount, t.payMethod, t.reference, Completed);
      FormValid(s, f, Some(t.id)) &&
      var (r, saved) := SaveStep(s, true, t.id, f, now);
      && saved == Ok(t.id)
      && r.balance[t.user] == s.balance[t.user] - t.amount
      && r.txs[i] == t.(status := Completed)
  {
    var t := s.txs[i];
    IndexOfUnique(s.txs, i);
  }

  /** With unique ids, the lookup by id finds the row's own position. */
  lemma {:induction false} IndexOfUnique(txs: seq<Transaction>, i: nat)
    requires i < |txs| && forall j, k :: 0 <= j < k < |txs| ==> Precedes(txs[j], txs[k])
    ensures IndexOfId(txs, txs[i].id) == Some(i)
  {
    if i > 0 {
      assert Precedes(txs[0], txs[i]);
      var tail := txs[1..];
      forall j, k | 0 <= j < k < |tail| ensures Precedes(tail[j], tail[k]) {
        assert Precedes(txs[j + 1], txs[k + 1]);
      }
      IndexOfUnique(tail, i - 1);
    }
  }

  /** An operator who moves a completed row back to pending gets no refund,
      and moving it to completed again deducts its amount a second time. */
  lemma ReopenThenCompleteDeductsAgain(s: Books, i: nat, now: int)
    requires Consistent(s) && i < |s.txs|
    requires s.txs[i].status == Completed && s.txs[i].txType != Blank
    requires s.txs[i].user in s.balance && s.balance[s.txs[i].user] >= s.txs[i].amount
    ensures
      var t := s.txs[i];
      var reopen := AdminForm(t.user, t.txType, t.amount, t.payMethod, t.reference, Pending);
      var complete := reopen.(status := Completed);
      FormValid(s, reopen, Some(t.id)) &&
      var (s1, first) := SaveStep(s, true, t.id, reopen, now);
      && first == Ok(t.id) && s1.balance == s.balance
      && FormValid(s1, complete, Some(t.id))
      && var (s2, second) := SaveStep(s1, true, t.id, complete, now);
      && second == Ok(t.id)
      && s2.balance[t.user] == s.balance[t.user] - t.amount
      && s2.txs[i] == t
  {
    var t := s.txs[i];
    IndexOfUnique(s.txs, i);
    var reopen := AdminForm(t.user, t.txType, t.amount, t.payMethod, t.reference, Pending);
    var s1 := SaveStep(s, true, t.id, reopen, now).0;
    assert s1.txs[i] == t.(status := Pending);
    IndexOfUnique(s1.txs, i);
  }

  /** With the simulated payment step, every valid cash-in succeeds and
      shows up in the user's history. */
  lemma CashInAppearsInHistory(s: Books, u: UserId, input: CashInInput, now: int)
    requires Consistent(s) && u in s.users && 0 < input.amount < MaxCents
    ensures var (r, res) := CashInStep(s, u, input, ProcessPayment(ProfileBalance(s, u), input.amount), now);
      && res == Ok(s.nextId)
      && Transaction(s.nextId, u, Blank, input.amount, input.payMethod, None, Completed, now) in History(r.txs, u)
  {
    var row := Transaction(s.nextId, u, Blank, input.amount, input.payMethod, None, Completed, now);
    var r := CashInStep(s, u, input, true, now).0;
    assert r.txs == s.txs + [row];
    assert row in r.txs;
  }

  /** After a user is deleted no row of the user remains to list. */
  lemma DeletedUserHasNoHistory(s: Books, u: UserId)
    requires Consistent(s)
    ensures History(WithoutUser(s, u).txs, u) == []
  {
  }
}
