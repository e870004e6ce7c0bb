/** The operator side of the wallet: the approve and reject actions over a
    selection of transactions, the hook that runs when an operator saves a
    transaction by hand, and the pending-withdrawal listing. */
module Admin {
  import opened Models
  import Views

  // ---------------------------------------------------------------------
  // Selection
  // ---------------------------------------------------------------------

  /** The filter both actions apply to the selection. */
  predicate SelectedPending(t: Transaction, sel: set<nat>) {
    t.id in sel && IsPendingWithdrawal(t)
  }

  /** No position occurs twice. */
  predicate Distinct(ts: seq<nat>) {
    forall j, k :: 0 <= j < k < |ts| ==> ts[j] != ts[k]
  }

  predicate InRange(ts: seq<nat>, n: nat) {
    forall k :: 0 <= k < |ts| ==> ts[k] < n
  }

  /** The rows at the positions `ts` have decreasing keys. */
  predicate KeysDescending(txs: seq<Transaction>, ts: seq<nat>)
    requires InRange(ts, |txs|)
  {
    forall j, k :: 0 <= j < k < |ts| ==> txs[ts[j]].id > txs[ts[k]].id
  }

  /** The queryset an action receives: the positions of exactly the rows
      whose ids were selected, each once, in the order of the change list. */
  predicate ListsSelection(txs: seq<Transaction>, sel: set<nat>, listed: seq<nat>) {
    && InRange(listed, |txs|)
    && Distinct(listed)
    && forall i :: 0 <= i < |txs| ==> (i in listed <==> txs[i].id in sel)
  }

  /** The positions below `n` of the selected rows, from the last down. */
  function SelectedDown(txs: seq<Transaction>, sel: set<nat>, n: nat): (r: seq<nat>)
    requires n <= |txs|
    ensures InRange(r, n)
    ensures forall i :: 0 <= i < n ==> (i in r <==> txs[i].id in sel)
    ensures forall j, k :: 0 <= j < k < |r| ==> r[j] > r[k]
  {
    if n == 0 then []
    else
      var rest := SelectedDown(txs, sel, n - 1);
      if txs[n - 1].id in sel then [n - 1] + rest else rest
  }

  /** Below `n`, no row is selected: the listing from there down is empty. */
  lemma {:induction false} SelectedDownNone(txs: seq<Transaction>, sel: set<nat>, n: nat)
    requires n <= |txs|
    requires forall i :: 0 <= i < n ==> txs[i].id !in sel
    ensures SelectedDown(txs, sel, n) == []
  {
    if n > 0 {
      SelectedDownNone(txs, sel, n - 1);
    }
  }

  /** The change list's default order, which the action's queryset keeps:
      newest key first (`-pk`), that is, the table from its end. */
  function DefaultListing(txs: seq<Transaction>, sel: set<nat>): (r: seq<nat>)
    ensures ListsSelection(txs, sel, r)
    ensures RowsInOrder(txs) ==> KeysDescending(txs, r)
  {
    var r := SelectedDown(txs, sel, |txs|);
    assert RowsInOrder(txs) ==> KeysDescending(txs, r) by {
      if RowsInOrder(txs) {
        forall j, k | 0 <= j < k < |r| ensures txs[r[j]].id > txs[r[k]].id {
          assert Precedes(txs[r[k]], txs[r[j]]);
        }
      }
    }
    r
  }

  /** `queryset.filter(transaction_type="withdrawal", status="pending")`:
      the listed positions whose rows are pending withdrawals, in the listed
      order. */
  function PendingIn(txs: seq<Transaction>, listed: seq<nat>): (r: seq<nat>)
    requires InRange(listed, |txs|)
    ensures InRange(r, |txs|) && |r| <= |listed|
    ensures forall i :: 0 <= i < |txs| ==> (i in r <==> i in listed && IsPendingWithdrawal(txs[i]))
    ensures forall k :: 0 <= k < |r| ==> IsPendingWithdrawal(txs[r[k]])
  {
    if listed == [] then []
    else
      var rest := PendingIn(txs, listed[1..]);
      assert listed == [listed[0]] + listed[1..];
      if IsPendingWithdrawal(txs[listed[0]]) then [listed[0]] + rest else rest
  }

  /** A listing without repeats: its tail has none, and its head is not in
      the tail. */
  lemma DistinctTail(listed: seq<nat>)
    requires listed != [] && Distinct(listed)
    ensures Distinct(listed[1..]) && listed[0] !in listed[1..]
  {
    var tail := listed[1..];
    forall j, k | 0 <= j < k < |tail| ensures tail[j] != tail[k] {
      assert tail[j] == listed[j + 1] && tail[k] == listed[k + 1];
    }
    forall m | 0 <= m < |tail| ensures tail[m] != listed[0] {
      assert tail[m] == listed[m + 1];
    }
  }

  lemma DistinctCons(x: nat, rest: seq<nat>)
    requires Distinct(rest) && x !in rest
    ensures Distinct([x] + rest)
  {
    var r := [x] + rest;
    forall j, k | 0 <= j < k < |r| ensures r[j] != r[k] {
      assert r[k] == rest[k - 1];
      if j > 0 {
        assert r[j] == rest[j - 1];
      }
    }
  }

  /** Filtering a listing without repeats gives one without repeats. */
  lemma {:induction false} PendingInDistinct(txs: seq<Transaction>, listed: seq<nat>)
    requires InRange(listed, |txs|) && Distinct(listed)
    ensures Distinct(PendingIn(txs, listed))
  {
    if listed != [] {
      var tail := listed[1..];
      InRangeSuffix(listed, |txs|, 1);
      DistinctTail(listed);
      PendingInDistinct(txs, tail);
      var rest := PendingIn(txs, tail);
      if IsPendingWithdrawal(txs[listed[0]]) {
        assert listed[0] !in rest;
        DistinctCons(listed[0], rest);
      }
    }
  }

  /** Every row at the positions `ts` has a key below `key`. */
  predicate KeysBelow(txs: seq<Transaction>, ts: seq<nat>, key: nat)
    requires InRange(ts, |txs|)
  {
    forall k :: 0 <= k < |ts| ==> txs[ts[k]].id < key
  }

  /** A listing in decreasing key order: its tail is too, below its head. */
  lemma DescendingTail(txs: seq<Transaction>, listed: seq<nat>)
    requires listed != [] && InRange(listed, |txs|) && KeysDescending(txs, listed)
    ensures InRange(listed[1..], |txs|)
    ensures KeysDescending(txs, listed[1..]) && KeysBelow(txs, listed[1..], txs[listed[0]].id)
  {
    var tail := listed[1..];
    InRangeSuffix(listed, |txs|, 1);
    forall j, k | 0 <= j < k < |tail| ensures txs[tail[j]].id > txs[tail[k]].id {
      assert tail[j] == listed[j + 1] && tail[k] == listed[k + 1];
    }
    forall k | 0 <= k < |tail| ensures txs[tail[k]].id < txs[listed[0]].id {
      assert tail[k] == listed[k + 1];
    }
  }

  lemma DescendingCons(txs: seq<Transaction>, x: nat, rest: seq<nat>)
    requires x < |txs| && InRange(rest, |txs|)
    requires KeysDescending(txs, rest) && KeysBelow(txs, rest, txs[x].id)
    ensures InRange([x] + rest, |txs|) && KeysDescending(txs, [x] + rest)
  {
    var r := [x] + rest;
    assert InRange(r, |txs|) by {
      forall k | 0 <= k < |r| ensures r[k] < |txs| {
        if k > 0 {
          assert r[k] == rest[k - 1];
        }
      }
    }
    forall j, k | 0 <= j < k < |r| ensures txs[r[j]].id > txs[r[k]].id {
      assert r[k] == rest[k - 1];
      if j > 0 {
        assert r[j] == rest[j - 1];
      }
    }
  }

  lemma {:induction false} PendingInBelow(txs: seq<Transaction>, listed: seq<nat>, key: nat)
    requires InRange(listed, |txs|) && KeysBelow(txs, listed, key)
    ensures KeysBelow(txs, PendingIn(txs, listed), key)
  {
    if listed != [] {
      var tail := listed[1..];
      InRangeSuffix(listed, |txs|, 1);
      assert KeysBelow(txs, tail, key) by {
        forall k | 0 <= k < |tail| ensures txs[tail[k]].id < key {
          assert tail[k] == listed[k + 1];
        }
      }
      PendingInBelow(txs, tail, key);
    }
  }

  /** Filtering keeps a listing in decreasing key order. */
  lemma {:induction false} PendingInDescending(txs: seq<Transaction>, listed: seq<nat>)
    requires InRange(listed, |txs|) && KeysDescending(txs, listed)
    ensures KeysDescending(txs, PendingIn(txs, listed))
  {
    if listed != [] {
      var tail := listed[1..];
      DescendingTail(txs, listed);
      PendingInDescending(txs, tail);
      if IsPendingWithdrawal(txs[listed[0]]) {
        PendingInBelow(txs, tail, txs[listed[0]].id);
        DescendingCons(txs, listed[0], PendingIn(txs, tail));
      }
    }
  }

  /** Listed rows none of which is a pending withdrawal leave nothing to do. */
  lemma {:induction false} PendingInNone(txs: seq<Transaction>, listed: seq<nat>)
    requires InRange(listed, |txs|)
    requires forall k :: 0 <= k < |listed| ==> !IsPendingWithdrawal(txs[listed[k]])
    ensures PendingIn(txs, listed) == []
  {
    if listed != [] {
      PendingInNone(txs, listed[1..]);
    }
  }

  /** The approve loop's targets on a listing of the selection are exactly
      the selected pending withdrawals, each once. */
  lemma PendingInSelection(txs: seq<Transaction>, sel: set<nat>, listed: seq<nat>)
    requires ListsSelection(txs, sel, listed)
    ensures var ts := PendingIn(txs, listed);
      && Distinct(ts)
      && forall i :: 0 <= i < |txs| ==> (i in ts <==> SelectedPending(txs[i], sel))
  {
    PendingInDistinct(txs, listed);
  }

  /** `PendingWithdrawalAdmin.get_queryset`: the pending withdrawals. */
  function PendingWithdrawals(txs: seq<Transaction>): (r: seq<Transaction>)
    ensures forall t :: t in r <==> t in txs && t.txType == Withdrawal && t.status == Pending
  {
    Keep(txs, IsPendingWithdrawal)
  }

  // ---------------------------------------------------------------------
  // Approve
  // ---------------------------------------------------------------------

  /** The message the action emits for one row; a missing profile raises,
      which ends the action. */
  datatype Notice = Approved(id: nat) | Insufficient(id: nat) | ProfileMissing(id: nat)

  /** One iteration of the approve loop, on the row at position `i`. */
  function ApproveStep(s: Books, i: nat): (r: (Books, Notice))
    requires i < |s.txs|
    ensures r.0.users == s.users && r.0.nextId == s.nextId
    ensures |r.0.txs| == |s.txs| && r.0.balance.Keys == s.balance.Keys
    ensures r.1.id == s.txs[i].id
    ensures r.1.ProfileMissing? <==> s.txs[i].user !in s.balance
    ensures r.1.Approved? <==> s.txs[i].user in s.balance && s.balance[s.txs[i].user] >= s.txs[i].amount
    ensures r.1.Approved? ==>
      && r.0.balance[s.txs[i].user] == s.balance[s.txs[i].user] - s.txs[i].amount
      && (forall v :: v in s.balance && v != s.txs[i].user ==> r.0.balance[v] == s.balance[v])
      && r.0.txs[i] == s.txs[i].(status := Completed)
      && (forall j :: 0 <= j < |s.txs| && j != i ==> r.0.txs[j] == s.txs[j])
    ensures !r.1.Approved? ==> r.0 == s
  {
    var t := s.txs[i];
    if t.user !in s.balance then
      (s, ProfileMissing(t.id))
    else if s.balance[t.user] >= t.amount then
      (s.(balance := s.balance[t.user := s.balance[t.user] - t.amount],
          txs := s.txs[i := t.(status := Completed)]), Approved(t.id))
    else
      (s, Insufficient(t.id))
  }

  /** The approve loop over the positions `ts`, in order, each iteration
      seeing the balances the earlier ones left. */
  function ApproveRun(s: Books, ts: seq<nat>): (r: (Books, seq<Notice>))
    requires InRange(ts, |s.txs|)
    ensures r.0.users == s.users && r.0.nextId == s.nextId
    ensures |r.0.txs| == |s.txs| && r.0.balance.Keys == s.balance.Keys
    decreases |ts|
  {
    if ts == [] then (s, [])
    else
      var (s1, n) := ApproveStep(s, ts[0]);
      if n.ProfileMissing? then (s1, [n])
      else
        var (s2, ns) := ApproveRun(s1, ts[1..]);
        (s2, [n] + ns)
  }

  /** Only pending rows change, and only to completed. */
  predicate OnlyCompletes(t0: seq<Transaction>, t1: seq<Transaction>) {
    |t0| == |t1| &&
    forall i :: 0 <= i < |t0| ==>
      t1[i] == t0[i] || (t0[i].status == Pending && t1[i] == t0[i].(status := Completed))
  }

  /** Rows differ at most in their status. */
  predicate SameButStatus(t0: seq<Transaction>, t1: seq<Transaction>) {
    |t0| == |t1| && forall i :: 0 <= i < |t0| ==> t1[i] == t0[i].(status := t1[i].status)
  }

  /** Row `a` became row `b` by moving from pending to completed. */
  predicate Completes(a: Transaction, b: Transaction) {
    a.status == Pending && b.status == Completed
  }

  /** The amounts of `u`'s rows among the first `n` that went from pending
      in `t0` to completed in `t1`. */
  function DeductedUpTo(t0: seq<Transaction>, t1: seq<Transaction>, u: UserId, n: nat): int
    requires n <= |t0| == |t1|
  {
    if n == 0 then 0
    else
      DeductedUpTo(t0, t1, u, n - 1)
        + (if Completes(t0[n - 1], t1[n - 1]) && t0[n - 1].user == u then t0[n - 1].amount else 0)
  }

  /** The total of `u`'s withdrawals completed between `t0` and `t1`. */
  function Deducted(t0: seq<Transaction>, t1: seq<Transaction>, u: UserId): int
    requires |t0| == |t1|
  {
    DeductedUpTo(t0, t1, u, |t0|)
  }

  lemma {:induction false} DeductedNothing(t: seq<Transaction>, u: UserId, n: nat)
    requires n <= |t|
    ensures DeductedUpTo(t, t, u, n) == 0
  {
    if n > 0 {
      DeductedNothing(t, u, n - 1);
    }
  }

  lemma {:induction false} DeductedOne(t: seq<Transaction>, i: nat, u: UserId, n: nat)
    requires i < |t| && t[i].status == Pending && n <= |t|
    ensures DeductedUpTo(t, t[i := t[i].(status := Completed)], u, n)
         == if i < n && t[i].user == u then t[i].amount else 0
  {
    if n > 0 {
      DeductedOne(t, i, u, n - 1);
    }
  }

  lemma {:induction false} DeductedChain(t0: seq<Transaction>, t1: seq<Transaction>, t2: seq<Transaction>, u: UserId, n: nat)
    requires OnlyCompletes(t0, t1) && OnlyCompletes(t1, t2) && n <= |t0|
    ensures DeductedUpTo(t0, t2, u, n) == DeductedUpTo(t0, t1, u, n) + DeductedUpTo(t1, t2, u, n)
  {
    if n > 0 {
      DeductedChain(t0, t1, t2, u, n - 1);
    }
  }

  lemma OnlyCompletesChain(t0: seq<Transaction>, t1: seq<Transaction>, t2: seq<Transaction>)
    requires OnlyCompletes(t0, t1) && OnlyCompletes(t1, t2)
    ensures OnlyCompletes(t0, t2)
  {
    forall i | 0 <= i < |t0|
      ensures t2[i] == t0[i] || (t0[i].status == Pending && t2[i] == t0[i].(status := Completed))
    {
    }
  }

  /** What a run of the approve loop does to the ledger, given distinct
      positions, in any order, whose rows are pending: it completes some of
      them and no other row, it lowers each balance by exactly the amounts
      of that user's rows it completed, and it never takes a balance below
      zero. */
  lemma {:induction false} ApproveRunEffect(s: Books, ts: seq<nat>)
    requires InRange(ts, |s.txs|) && Distinct(ts)
    requires forall k :: 0 <= k < |ts| ==> s.txs[ts[k]].status == Pending
    ensures var r := ApproveRun(s, ts).0;
      && OnlyCompletes(s.txs, r.txs)
      && (forall i :: 0 <= i < |s.txs| && i !in ts ==> r.txs[i] == s.txs[i])
      && (forall u :: u in s.balance ==> r.balance[u] == s.balance[u] - Deducted(s.txs, r.txs, u))
      && (NonNegative(s.balance) ==> NonNegative(r.balance))
    decreases |ts|
  {
    var r := ApproveRun(s, ts).0;
    if ts == [] {
      forall u | u in s.balance ensures r.balance[u] == s.balance[u] - Deducted(s.txs, r.txs, u) {
        DeductedNothing(s.txs, u, |s.txs|);
      }
    } else {
      var i := ts[0];
      var (s1, n) := ApproveStep(s, i);
      assert OnlyCompletes(s.txs, s1.txs);
      forall u | u in s.balance
        ensures s1.balance[u] == s.balance[u] - Deducted(s.txs, s1.txs, u)
      {
        if n.Approved? {
          assert s1.txs == s.txs[i := s.txs[i].(status := Completed)];
          DeductedOne(s.txs, i, u, |s.txs|);
        } else {
          DeductedNothing(s.txs, u, |s.txs|);
        }
      }
      if n.ProfileMissing? {
        assert r == s1;
      } else {
        var rest := ts[1..];
        forall k | 0 <= k < |rest| ensures s1.txs[rest[k]].status == Pending {
          assert rest[k] == ts[k + 1] && ts[0] != ts[k + 1];
        }
        ApproveRunEffect(s1, rest);
        assert r == ApproveRun(s1, rest).0;
        OnlyCompletesChain(s.txs, s1.txs, r.txs);
        forall j | 0 <= j < |s.txs| && j !in ts ensures r.txs[j] == s.txs[j] {
          assert j != i && j !in rest;
        }
        forall u | u in s.balance
          ensures r.balance[u] == s.balance[u] - Deducted(s.txs, r.txs, u)
        {
          DeductedChain(s.txs, s1.txs, r.txs, u, |s.txs|);
        }
      }
    }
  }

  /** A change of statuses alone keeps the table invariant. */
  lemma StatusChangeConsistent(s: Books, r: Books)
    requires Consistent(s) && NonNegative(r.balance)
    requires r.users == s.users && r.nextId == s.nextId && SameButStatus(s.txs, r.txs)
    ensures Consistent(r)
  {
    forall i | 0 <= i < |r.txs| ensures RowFits(r.txs[i], r.users, r.nextId) {
      assert r.txs[i].amount == s.txs[i].amount && r.txs[i].user == s.txs[i].user;
    }
    forall i, j | 0 <= i < j < |r.txs| ensures Precedes(r.txs[i], r.txs[j]) {
      assert Precedes(s.txs[i], s.txs[j]);
    }
  }

  lemma OnlyCompletesSameButStatus(t0: seq<Transaction>, t1: seq<Transaction>)
    requires OnlyCompletes(t0, t1)
    ensures SameButStatus(t0, t1)
  {
  }

  /** `approve_withdrawals` on a selection, whatever order the change list
      gives it: the table stays consistent; a selected row that is not a
      pending withdrawal, and every row outside the selection, is left as it
      was; a selected pending withdrawal is either left as it was or
      completed; each user's balance falls by exactly the amounts of that
      user's rows that were completed, and so the total taken from a user
      never exceeds what the user had. */
  lemma ApproveWithdrawalsSound(s: Books, sel: set<nat>, listed: seq<nat>)
    requires Consistent(s) && ListsSelection(s.txs, sel, listed)
    ensures var r := ApproveRun(s, PendingIn(s.txs, listed)).0;
      && Consistent(r)
      && OnlyCompletes(s.txs, r.txs)
      && (forall i :: 0 <= i < |s.txs| && !SelectedPending(s.txs[i], sel) ==> r.txs[i] == s.txs[i])
      && (forall u :: u in s.balance ==>
            && r.balance[u] == s.balance[u] - Deducted(s.txs, r.txs, u)
            && 0 <= r.balance[u]
            && Deducted(s.txs, r.txs, u) <= s.balance[u])
  {
    var ts := PendingIn(s.txs, listed);
    PendingInSelection(s.txs, sel, listed);
    ApproveRunEffect(s, ts);
    var r := ApproveRun(s, ts).0;
    OnlyCompletesSameButStatus(s.txs, r.txs);
    StatusChangeConsistent(s, r);
  }

  lemma ApproveKeepsConsistent(s: Books, sel: set<nat>, listed: seq<nat>)
    requires Consistent(s) && ListsSelection(s.txs, sel, listed)
    ensures Consistent(ApproveRun(s, PendingIn(s.txs, listed)).0)
  {
    ApproveWithdrawalsSound(s, sel, listed);
  }

  /** Running the action twice on the same selection, in any two orders,
      never completes a row twice: the second run only visits rows the first
      run left pending, a row it completes is one the first run left as it
      was, and the two runs together take from each user exactly the amounts
      of that user's completed rows, each once. */
  lemma ApproveTwice(s: Books, sel: set<nat>, first: seq<nat>, second: seq<nat>)
    requires Consistent(s) && ListsSelection(s.txs, sel, first)
    requires ListsSelection(ApproveRun(s, PendingIn(s.txs, first)).0.txs, sel, second)
    ensures
      var s1 := ApproveRun(s, PendingIn(s.txs, first)).0;
      var s2 := ApproveRun(s1, PendingIn(s1.txs, second)).0;
      && (forall i :: 0 <= i < |s.txs| && i in PendingIn(s1.txs, second) ==>
            i in PendingIn(s.txs, first) && s1.txs[i] == s.txs[i])
      && (forall i :: 0 <= i < |s.txs| && Completes(s1.txs[i], s2.txs[i]) ==>
            s1.txs[i] == s.txs[i] && SelectedPending(s.txs[i], sel))
      && (forall u :: u in s.balance ==> s2.balance[u] == s.balance[u] - Deducted(s.txs, s2.txs, u))
  {
    ApproveWithdrawalsSound(s, sel, first);
    var s1 := ApproveRun(s, PendingIn(s.txs, first)).0;
    ApproveWithdrawalsSound(s1, sel, second);
    var s2 := ApproveRun(s1, PendingIn(s1.txs, second)).0;
    PendingInSelection(s.txs, sel, first);
    PendingInSelection(s1.txs, sel, second);
    forall i | 0 <= i < |s.txs| && i in PendingIn(s1.txs, second)
      ensures i in PendingIn(s.txs, first) && s1.txs[i] == s.txs[i]
    {
      assert SelectedPending(s1.txs[i], sel);
    }
    forall i | 0 <= i < |s.txs| && Completes(s1.txs[i], s2.txs[i])
      ensures s1.txs[i] == s.txs[i] && SelectedPending(s.txs[i], sel)
    {
      assert s2.txs[i] != s1.txs[i];
      assert SelectedPending(s1.txs[i], sel);
    }
    forall u | u in s.balance ensures s2.balance[u] == s.balance[u] - Deducted(s.txs, s2.txs, u) {
      DeductedChain(s.txs, s1.txs, s2.txs, u, |s.txs|);
    }
  }

  /** The body of the approve loop, on the row at position `i`. */
  method ApproveOne(db: Database, i: nat) returns (n: Notice)
    requires i < |db.txs|
    modifies db
    ensures (db.State(), n) == ApproveStep(old(db.State()), i)
  {
    var t := db.txs[i];
    if t.user !in db.balance {
      n := ProfileMissing(t.id);
    } else if db.balance[t.user] >= t.amount {
      db.balance := db.balance[t.user := db.balance[t.user] - t.amount];
      db.txs := db.txs[i := t.(status := Completed)];
      n := Approved(t.id);
    } else {
      n := Insufficient(t.id);
    }
  }

  /** The action on the database. `listed` is the selection as the change
      list orders it (`DefaultListing` unless the operator sorted the list);
      it is filtered once, then each row is handled in turn. */
  method ApproveWithdrawals(db: Database, sel: set<nat>, listed: seq<nat>) returns (notices: seq<Notice>)
    requires db.Valid() && ListsSelection(db.txs, sel, listed)
    modifies db
    ensures db.Valid()
    ensures (db.State(), notices) == ApproveRun(old(db.State()), PendingIn(old(db.txs), listed))
  {
    ghost var s0 := db.State();
    var targets := PendingIn(db.txs, listed);
    notices := [];
    var k := 0;
    var halted := false;
    assert targets[0..] == targets;
    while k < |targets| && !halted
      invariant 0 <= k <= |targets| && |db.txs| == |s0.txs|
      invariant halted ==> ApproveRun(s0, targets).0 == db.State() && ApproveRun(s0, targets).1 == notices
      invariant !halted ==>
        && ApproveRun(s0, targets).0 == ApproveRun(db.State(), targets[k..]).0
        && ApproveRun(s0, targets).1 == notices + ApproveRun(db.State(), targets[k..]).1
      decreases |targets| - k
    {
      ApproveLoopStep(ApproveRun(s0, targets), targets, k, db.State(), notices);
      var n := ApproveOne(db, targets[k]);
      halted := n.ProfileMissing?;
      notices := notices + [n];
      k := k + 1;
    }
    if !halted {
      assert targets[k..] == [];
    }
    ghost var fin := ApproveRun(s0, targets);
    assert db.State() == fin.0 && notices == fin.1;
    ApproveKeepsConsistent(s0, sel, listed);
    assert Consistent(fin.0);
    assert fin == (db.State(), notices);
  }

  /** One turn of the approve loop: when the whole run `total` is the
      notices so far followed by the run over `ts[k..]` from `cur`, then after
      the step at `ts[k]` it is the notices with the new one followed by the
      run over `ts[k + 1..]`, or nothing more when the step found no
      profile. */
  lemma ApproveLoopStep(total: (Books, seq<Notice>), ts: seq<nat>, k: nat, cur: Books, notices: seq<Notice>)
    requires k < |ts| && InRange(ts, |cur.txs|)
    requires total.0 == ApproveRun(cur, ts[k..]).0
    requires total.1 == notices + ApproveRun(cur, ts[k..]).1
    ensures var step := ApproveStep(cur, ts[k]);
      && (step.1.ProfileMissing? ==> total.0 == step.0 && total.1 == notices + [step.1])
      && (!step.1.ProfileMissing? ==>
            && total.0 == ApproveRun(step.0, ts[k + 1..]).0
            && total.1 == (notices + [step.1]) + ApproveRun(step.0, ts[k + 1..]).1)
  {
    ApproveRunUnfold(cur, ts, k);
    var step := ApproveStep(cur, ts[k]);
    if !step.1.ProfileMissing? {
      InRangeSuffix(ts, |step.0.txs|, k + 1);
      AppendOne(total.1, notices, step.1, ApproveRun(step.0, ts[k + 1..]).1);
    }
  }

  lemma InRangeSuffix(ts: seq<nat>, n: nat, k: nat)
    requires k <= |ts| && InRange(ts, n)
    ensures InRange(ts[k..], n)
  {
  }

  lemma AppendOne(all: seq<Notice>, done: seq<Notice>, n: Notice, rest: seq<Notice>)
    requires all == done + ([n] + rest)
    ensures all == (done + [n]) + rest
  {
  }

  /** The run over `ts[k..]` is the step at `ts[k]` followed by the run over
      `ts[k + 1..]`, unless the step finds no profile. */
  lemma ApproveRunUnfold(s: Books, ts: seq<nat>, k: nat)
    requires k < |ts| && InRange(ts, |s.txs|)
    ensures var step := ApproveStep(s, ts[k]);
      && (step.1.ProfileMissing? ==> ApproveRun(s, ts[k..]) == (step.0, [step.1]))
      && (!step.1.ProfileMissing? ==>
            && ApproveRun(s, ts[k..]).0 == ApproveRun(step.0, ts[k + 1..]).0
            && ApproveRun(s, ts[k..]).1 == [step.1] + ApproveRun(step.0, ts[k + 1..]).1)
  {
    var tail := ts[k..];
    assert tail[0] == ts[k] && tail[1..] == ts[k + 1..];
  }

  // ---------------------------------------------------------------------
  // Reject
  // ---------------------------------------------------------------------

  /** The bulk update `status="failed"` on the selected pending withdrawals. */
  function RejectRows(txs: seq<Transaction>, sel: set<nat>): (r: seq<Transaction>)
    ensures SameButStatus(txs, r)
    ensures forall i :: 0 <= i < |txs| && SelectedPending(txs[i], sel) ==> r[i].status == Failed
    ensures forall i :: 0 <= i < |txs| && !SelectedPending(txs[i], sel) ==> r[i] == txs[i]
  {
    seq(|txs|, i requires 0 <= i < |txs| =>
      if SelectedPending(txs[i], sel) then txs[i].(status := Failed) else txs[i])
  }

  /** `reject_withdrawals`: balances are untouched. */
  function Reject(s: Books, sel: set<nat>): (r: Books)
    requires Consistent(s)
    ensures Consistent(r)
    ensures r.balance == s.balance && r.users == s.users && r.nextId == s.nextId
  {
    var r := s.(txs := RejectRows(s.txs, sel));
    StatusChangeConsistent(s, r);
    r
  }

  /** After a reject nothing in the selection is left to approve or reject:
      approving selected rows afterwards, in any order, finds no target and
      changes nothing, and rejecting again changes nothing. */
  lemma RejectSettlesSelection(s: Books, sel: set<nat>, listed: seq<nat>)
    requires Consistent(s) && InRange(listed, |s.txs|)
    requires forall k :: 0 <= k < |listed| ==> s.txs[listed[k]].id in sel
    ensures var r := Reject(s, sel);
      && PendingIn(r.txs, listed) == []
      && ApproveRun(r, PendingIn(r.txs, listed)) == (r, [])
      && RejectRows(r.txs, sel) == r.txs
  {
    var r := Reject(s, sel);
    forall k | 0 <= k < |listed| ensures !IsPendingWithdrawal(r.txs[listed[k]]) {
      assert r.txs[listed[k]].id == s.txs[listed[k]].id;
    }
    PendingInNone(r.txs, listed);
  }

  /** The action on the database. */
  method RejectWithdrawals(db: Database, sel: set<nat>)
    requires db.Valid()
    modifies db
    ensures db.Valid()
    ensures db.State() == Reject(old(db.State()), sel)
  {
    db.txs := RejectRows(db.txs, sel);
  }

  // ---------------------------------------------------------------------
  // Saving a transaction by hand
  // ---------------------------------------------------------------------

  /** The editable fields of the admin change form. */
  datatype AdminForm = AdminForm(
    user: UserId, txType: TxType, amount: int, payMethod: PaymentMethod,
    reference: Option<string>, status: Status)

  /** What the admin form's validation guarantees before the hook runs: an
      existing user, an amount within the column, a type among the choices,
      and a reference no other row carries. */
  predicate FormValid(s: Books, f: AdminForm, editing: Option<nat>) {
    f.user in s.users && AmountFits(f.amount) && f.txType != Blank
      && ReferenceFree(s.txs, f.reference, editing)
  }

  function FormRow(id: nat, f: AdminForm, createdAt: int): Transaction {
    Transaction(id, f.user, f.txType, f.amount, f.payMethod, f.reference, f.status, createdAt)
  }

  /** A valid form inserted as a new row at the next key keeps the table
      consistent. */
  lemma FormCreateConsistent(s: Books, f: AdminForm, now: int)
    requires Consistent(s) && FormValid(s, f, None)
    ensures Consistent(s.(txs := s.txs + [FormRow(s.nextId, f, now)], nextId := s.nextId + 1))
  {
    var after := s.(txs := s.txs + [FormRow(s.nextId, f, now)], nextId := s.nextId + 1);
    assert forall i :: 0 <= i < |s.txs| ==> after.txs[i] == s.txs[i];
  }

  /** A valid form saved over the row at position `i`, which keeps its id
      and creation time, keeps the table consistent. */
  lemma FormEditConsistent(s: Books, i: nat, f: AdminForm)
    requires Consistent(s) && i < |s.txs| && FormValid(s, f, Some(s.txs[i].id))
    ensures Consistent(s.(txs := s.txs[i := FormRow(s.txs[i].id, f, s.txs[i].createdAt)]))
  {
    var id := s.txs[i].id;
    var rows := s.txs[i := FormRow(id, f, s.txs[i].createdAt)];
    forall j, k | 0 <= j < k < |rows| ensures Precedes(rows[j], rows[k]) {
      assert Precedes(s.txs[j], s.txs[k]);
      if j == i {
        assert s.txs[k].id != id;
      } else if k == i {
        assert s.txs[j].id != id;
      }
    }
  }

  /** `Transaction.objects.get(id=...)`: the position of the row with `id`. */
  function IndexOfId(txs: seq<Transaction>, id: nat): (r: Option<nat>)
    ensures r.Some? ==> r.value < |txs| && txs[r.value].id == id
    ensures r.None? ==> forall i :: 0 <= i < |txs| ==> txs[i].id != id
  {
    if txs == [] then None
    else if txs[0].id == id then Some(0)
    else match IndexOfId(txs[1..], id)
      case None => None
      case Some(k) => Some(k + 1)
  }

  /** An edit moves the row into completed. */
  predicate EntersCompleted(prior: Transaction, f: AdminForm) {
    prior.status != Completed && f.status == Completed
  }

  /** `save_model`. A creation inserts the row and touches no balance. An
      edit that moves a row of any type into completed deducts its amount
      from the owner named in the form, or, if that balance is too small,
      is not saved at all; any other edit saves the row and touches no
      balance. An edited row keeps its id and creation time. */
  function SaveStep(s: Books, change: bool, id: nat, f: AdminForm, now: int): (r: (Books, Result<nat>))
    requires Consistent(s) && FormValid(s, f, if change then Some(id) else None)
    ensures Consistent(r.0) && r.0.users == s.users && Preserved(s.txs, r.0.txs)
    ensures !change ==>
      && r.1 == Ok(s.nextId)
      && r.0.balance == s.balance
      && r.0.txs == s.txs + [FormRow(s.nextId, f, now)]
      && r.0.nextId == s.nextId + 1
    ensures change && IndexOfId(s.txs, id).None? ==> r == (s, Err(NoSuchRow))
    ensures change && IndexOfId(s.txs, id).Some? ==>
      var i := IndexOfId(s.txs, id).value;
      && (r.1.Ok? <==> !EntersCompleted(s.txs[i], f) || (f.user in s.balance && s.balance[f.user] >= f.amount))
      && (r.1.Ok? ==>
            && r.1.value == id
            && r.0.txs == s.txs[i := FormRow(id, f, s.txs[i].createdAt)]
            && r.0.nextId == s.nextId
            && r.0.balance == if EntersCompleted(s.txs[i], f)
                              then s.balance[f.user := s.balance[f.user] - f.amount]
                              else s.balance)
      && (r.1.Err? ==> r.0 == s && r.1.failure == (if f.user in s.balance then InsufficientBalance else NoProfile))
  {
    if !change then
      var row := FormRow(s.nextId, f, now);
      var after := s.(txs := s.txs + [row], nextId := s.nextId + 1);
      FormCreateConsistent(s, f, now);
      assert forall i :: 0 <= i < |s.txs| ==> after.txs[i] == s.txs[i];
      (after, Ok(row.id))
    else
      match IndexOfId(s.txs, id)
      case None => (s, Err(NoSuchRow))
      case Some(i) =>
        var row := FormRow(id, f, s.txs[i].createdAt);
        var rows := s.txs[i := row];
        FormEditConsistent(s, i, f);
        if EntersCompleted(s.txs[i], f) then
          if f.user !in s.balance then (s, Err(NoProfile))
          else if s.balance[f.user] >= f.amount then
            (s.(balance := s.balance[f.user := s.balance[f.user] - f.amount], txs := rows), Ok(id))
          else
            (s, Err(InsufficientBalance))
        else
          (s.(txs := rows), Ok(id))
  }

  /** The hook on the database. */
  method SaveModel(db: Database, change: bool, id: nat, f: AdminForm, now: int) returns (r: Result<nat>)
    requires db.Valid() && FormValid(db.State(), f, if change then Some(id) else None)
    modifies db
    ensures db.Valid()
    ensures (db.State(), r) == SaveStep(old(db.State()), change, id, f, now)
  {
    if change {
      var found := IndexOfId(db.txs, id);
      if found.None? {
        r := Err(NoSuchRow);
        return;
      }
      var i := found.value;
      var prior := db.txs[i];
      if prior.status != Completed && f.status == Completed {
        if f.user !in db.balance {
          r := Err(NoProfile);
          return;
        }
        if db.balance[f.user] >= f.amount {
          db.balance := db.balance[f.user := db.balance[f.user] - f.amount];
        } else {
          r := Err(InsufficientBalance);
          return;
        }
      }
      db.txs := db.txs[i := FormRow(id, f, prior.createdAt)];
      r := Ok(id);
    } else {
      r := Ok(db.nextId);
      db.txs := db.txs + [FormRow(db.nextId, f, now)];
      db.nextId := db.nextId + 1;
    }
  }
}
