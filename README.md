# Wallet ledger of HomeScapes_Back, in Dafny

This project models the wallet ledger of the `payments` Django app. The ledger is
one balance per user profile plus a table of `Transaction` rows. The model covers
every code path that moves money or changes a row's status. The proofs are about
those paths.

- **State.** The state is a `Models.Books` value:
  - the registered users;
  - a map from user to profile balance, whose key set is the set of users that have a profile;
  - the transaction table in insertion order;
  - the next primary key.

  `Models.Database` is the same state as a mutable object. Each operation that changes the state is a method on it: cash-in, the withdrawal request, approve, reject, and the save hook. Each such method is proved equal to a pure transition function of the old state. The history and the pending-withdrawal listing only read the table, so they are pure functions of it.
- **Money.** Amounts are integer cents. `amount` is a decimal with two places and at most ten digits, so every amount satisfies |cents| < 10^10 (`AmountFits`).
- **Table invariant.** `Models.Consistent` holds when:
  - every row fits the amount column and belongs to a registered user;
  - ids increase along the table and stay below the next key, so they are unique;
  - no two rows share a non-null payment reference;
  - no balance is negative.

  Every operation preserves it.
- **Views.** The model has cash-in, the withdrawal request, and the history listing.
- **Admin.** The model has the approve loop, the bulk reject, the hook that runs when an operator saves a row by hand, and the pending-withdrawal listing.

The model follows the code as written:
- **The withdrawal request deducts at once.** The view deducts at request time (`payments/views.py:61`), and approval deducts again (`payments/admin.py:19`). So a withdrawal that is requested and then approved costs the user twice its amount: `Lifecycle.RequestThenApproveDeductsTwice`. With a balance between `a` and `2a` the request succeeds but its approval is refused: `Lifecycle.RequestThenApproveStaysPending`.
- **Manual completion deducts for any row type.** Marking a row completed by hand deducts its amount whatever the row's type, a cash-in included.
- **Reopening does not refund.** Moving a completed row back to pending refunds nothing, so completing it again deducts a second time.
- **The approve loop follows the change list's order.** The action iterates the selection in the order the change list gives it, newest key first by default. Each row sees the balance the earlier rows left, so which of a user's withdrawals are approved depends on that order (`Lifecycle.ApprovalsSeeEarlierDeductions`, `Lifecycle.ApprovalOrderDecides`).

Failures are values of `Models.Result`:
- a validation error;
- a declined payment;
- an insufficient balance;
- a user without a profile (Django raises `RelatedObjectDoesNotExist` there);
- an edited row that does not exist.

## Model

| member | source | states |
|---|---|---|
| Models.ConsistentKeysUnique | payments/models.py:25-31 | in a consistent table no two rows share an id, and no two rows share a non-null payment reference |
| Models.AmountFitsDigits | payments/models.py:27 | an amount in cents fits the column if and only if its magnitude has at most ten decimal digits, the column's `max_digits` |
| Models.DigitsBelow | payments/models.py:27 | a number has at most `k` digits if and only if it is below 10^k |
| Models.Keep | payments/views.py:45 | a queryset filter: a row is kept if and only if it is in the table and satisfies the condition; each kept row occurs at most as often as in the table |
| Models.KeepInOrder | payments/models.py:29 | filtering the table keeps ids increasing and non-null references unique |
| Models.WithoutUser | payments/models.py:25 | deleting a user removes exactly that user's rows and keeps every other row and every invariant of the table |
| Models.Database.constructor | payments/models.py:6-31 | an empty table over the registered users, with no profile and next key 0, is consistent |
| Models.Database.DeleteUser | payments/models.py:25 | the cascade on the database object: the new state is the user-free ledger and the table stays consistent |
| Serializers.WritableFields | payments/serializers.py:7-8 | the writable fields are exposed fields that are not read-only |
| Serializers.ClientWritesAmountAndMethodOnly | payments/serializers.py:7-8 | client input can set only the amount and the payment method, never the owner, status, creation time, type or reference |
| Serializers.ValidateAmount | payments/serializers.py:10-14 | an amount passes if and only if it is positive, passes unchanged, and otherwise fails with the not-positive error |
| Serializers.ValidateAmountIdempotent | payments/serializers.py:10-14 | validating an accepted amount again accepts it unchanged |
| Serializers.ValidateCashIn | payments/serializers.py:10-14 | a cash-in body passes if and only if 0 < amount < 10^10 cents; too many digits and a non-positive amount fail with their own errors |
| Views.ProfileBalance | payments/views.py:15 | `get_or_create`: an existing profile is fetched with its balance; opening a missing one keeps every balance non-negative |
| Views.ProcessPayment | payments/views.py:31-36 | the simulated payment step reports success for every profile and amount |
| Views.CashInStep | payments/views.py:14-29 | succeeds if and only if the payment succeeds and the amount is valid; then the profile, created with 0 if missing, gains exactly the amount and exactly one completed row of the user with that amount is appended; a declined payment leaves only the created profile; a validation error changes nothing; the table stays consistent and old rows keep their id and creation time |
| Views.PerformCashIn | payments/views.py:14-29 | the view on the database reaches exactly the state and result of `CashInStep` and keeps the table consistent |
| Views.WithdrawalStep | payments/views.py:52-63 | succeeds if and only if the user has a profile with balance at least the amount; then deducts the amount at once from that user alone and appends one pending withdrawal; otherwise changes nothing and reports insufficient balance or a missing profile |
| Views.PerformWithdrawal | payments/views.py:52-63 | the view on the database reaches exactly the state and result of `WithdrawalStep` and keeps the table consistent |
| Views.InsertByDate | payments/views.py:45 | inserting into a newest-first list keeps it newest first and adds exactly that row |
| Views.SortNewestFirst | payments/views.py:45 | `order_by('-created_at')`: the result is newest first and a permutation of the input |
| Views.History | payments/views.py:44-45 | the history holds exactly the user's rows, each as often as in the table, newest first |
| Admin.SelectedDown | payments/admin.py:13-15 | the positions below a bound whose rows are selected, each once, in decreasing order |
| Admin.DefaultListing | payments/admin.py:13-15 | the queryset an action receives in the change list's default order: it lists exactly the selected rows, each once, and newest key first when ids increase along the table |
| Admin.PendingIn | payments/admin.py:15 | `filter(transaction_type="withdrawal", status="pending")` on a listing: a position is kept if and only if it is listed and its row is a pending withdrawal |
| Admin.PendingInDistinct | payments/admin.py:15 | filtering a listing without repeats gives one without repeats |
| Admin.PendingInDescending | payments/admin.py:15 | filtering a listing in decreasing key order keeps that order |
| Admin.PendingInSelection | payments/admin.py:15 | on any listing of the selection, the loop visits exactly the selected pending withdrawals, each once |
| Admin.PendingInNone | payments/admin.py:15 | a listing with no pending withdrawal leaves the loop nothing to visit |
| Admin.PendingWithdrawals | payments/admin.py:59-61 | the listing holds exactly the rows of type withdrawal and status pending |
| Admin.ApproveStep | payments/admin.py:16-26 | one iteration: with balance at least the amount, the owner loses exactly the amount, the row becomes completed, and no other balance or row changes; with a smaller balance nothing changes; an owner without a profile stops the loop and changes nothing |
| Admin.ApproveOne | payments/admin.py:16-26 | the loop body on the database reaches exactly the state and notice of `ApproveStep` |
| Admin.ApproveRun | payments/admin.py:15-26 | the loop over the selected positions keeps the users, the next key, the table length and the set of profiles |
| Admin.ApproveRunEffect | payments/admin.py:15-26 | over distinct pending rows in any order, the loop only moves rows from pending to completed, leaves unvisited rows alone, lowers each balance by exactly the amounts of that user's completed rows, and keeps balances non-negative |
| Admin.ApproveWithdrawalsSound | payments/admin.py:13-26 | in any order of the selection, the action keeps the table consistent, leaves each row outside the filtered selection unchanged, and takes from each user exactly the amounts of that user's newly completed rows, never more than the balance before the action |
| Admin.ApproveTwice | payments/admin.py:15-22 | two approves of one selection, in any two orders: the second visits only rows the first left pending, a row it completes is one the first left as it was, and the two runs together take each completed amount once |
| Admin.ApproveWithdrawals | payments/admin.py:13-26 | the loop on the database, over the selection in the given order, reaches exactly the state and notices of `ApproveRun` on the filtered listing and keeps the table consistent |
| Admin.RejectRows | payments/admin.py:30 | exactly the selected pending withdrawals become failed; every other row is unchanged; only statuses change |
| Admin.Reject | payments/admin.py:28-31 | the reject action keeps the table consistent and changes no balance, user or key |
| Admin.RejectSettlesSelection | payments/admin.py:28-31 | after a reject nothing in the selection is left to approve or reject: approving selected rows in any order, or rejecting again, changes nothing |
| Admin.RejectWithdrawals | payments/admin.py:28-31 | the bulk update on the database reaches exactly the state of `Reject` and keeps the table consistent |
| Admin.FormCreateConsistent | payments/admin.py:33-48 | `FormValid`: a row created from a valid form at the next key keeps the table consistent |
| Admin.FormEditConsistent | payments/admin.py:33-48 | `FormValid`: a valid form saved over an existing row, which keeps its id and creation time, keeps ids increasing and references unique |
| Admin.IndexOfId | payments/admin.py:38 | `objects.get(id=...)`: the position found holds that id, and no row holds it when nothing is found |
| Admin.SaveStep | payments/admin.py:33-48 | a creation appends the row and touches no balance; a missing row is an error; an edit saves if and only if it does not enter completed or the owner's balance covers the amount; a saved edit entering completed deducts the amount whatever the type; a refused edit changes nothing; the edited row keeps its id and creation time |
| Admin.SaveModel | payments/admin.py:33-48 | the hook on the database reaches exactly the state and result of `SaveStep` and keeps the table consistent |
| Lifecycle.SelectingNewRequest | payments/admin.py:13-15 | the default listing of a fresh withdrawal request's id holds that row alone, and the loop visits it |
| Lifecycle.RequestThenApproveDeductsTwice | payments/admin.py:18-23 | a request of `a` followed by its approval costs the user `2a` and completes the row |
| Lifecycle.RequestThenApproveStaysPending | payments/admin.py:18-26 | with balance between `a` and `2a` the request succeeds, its approval reports insufficient balance and changes nothing, and the row stays pending |
| Lifecycle.SecondRequestRefused | payments/views.py:56-61 | against 100.00, a request of 60.00 leaves 40.00 and a following request of 50.00 is refused and changes nothing |
| Lifecycle.ApprovalsSeeEarlierDeductions | payments/admin.py:15-20 | within one approve action a later row of the same user sees the balance earlier approvals left: in the default newest-first order, from 100.00 the 50.00 (id 1) is approved, leaving 50.00, and the 60.00 (id 0) stays pending |
| Lifecycle.ApprovalOrderDecides | payments/admin.py:15-20 | the outcome depends on the order: listed by ascending id, the same selection approves the 60.00, leaves 40.00, and the 50.00 stays pending |
| Lifecycle.ManualCompletionOfCashInDeducts | payments/admin.py:39-43 | marking a pending cash-in completed by hand deducts its amount from the owner |
| Lifecycle.IndexOfUnique | payments/admin.py:38 | with unique ids, the lookup by a row's id finds that row's position |
| Lifecycle.ReopenThenCompleteDeductsAgain | payments/admin.py:39-43 | moving a completed row to pending refunds nothing, and completing it again deducts its amount a second time |
| Lifecycle.CashInAppearsInHistory | payments/views.py:19-25 | with the simulated payment step, a valid cash-in succeeds and its completed row appears in the user's history |
| Lifecycle.DeletedUserHasNoHistory | payments/models.py:25 | after a user is deleted, that user's history is empty |

## Left out

- Admin presentation is not modelled: list columns, filters, search fields, action labels and registration. The texts passed to `message_user` are UI. The approve loop reports a notice per row instead (`Approved`, `Insufficient`, `ProfileMissing`).
- HTTP and REST-framework plumbing is not modelled: permissions, `Response` objects and status codes. A view's outcome is a `Result` value.
- `payments/urls.py` and `accounts/urls.py` are routing only.
- `accounts/serializers.py` creates users through Django's `create_user`, a foreign call. Users are therefore a parameter of `Database.constructor`.
- `UserProfile` (accounts/models.py) is not part of this model:
  - a profile is modelled as a map entry;
  - `get_or_create` opens it at 0 (`NewProfileBalance`);
  - its own field constraints are not modelled;
  - whether it is deleted on cascade is not modelled, since deleting a user leaves the balance map untouched.
- WithdrawalStep: requires only an amount that fits the column, of any sign, because `WithdrawalSerializer`, imported at payments/views.py:5, is not defined in `payments/serializers.py`, and its checks are not invented. A zero or negative request therefore passes the balance check as the view is written.
- `PayPalSuccessView`, `PayPalCancelView` and `UserSummaryView` are routed but absent from `payments/views.py`. The gateway callbacks and the summary are not modelled.
- The payment step (payments/views.py:31-36) is a stub that always reports success (`ProcessPayment`). `CashInStep` takes its outcome as the `paid` input, so the failure branch is covered too.
- Concurrency, isolation and row locks are not modelled. Each `atomic` block is one indivisible step.
- The approve loop is not atomic: an exception in the middle keeps the earlier iterations. The model stops the run at a row whose owner has no profile and keeps what came before.
- Django's admin hands an action the selection in the change list's order. That order is set by Django's `ChangeList`, which is not part of this model: newest key first (`-pk`) unless the operator sorted the list by a column. The order is therefore an input of `ApproveWithdrawals` (`listed`). `DefaultListing` is the default order, and the soundness lemmas hold for every order.
- The column default `status='pending'` (payments/models.py:30) is not modelled as a value of its own: every path that inserts a row sets the status explicitly. Cash-in writes completed, the withdrawal request writes pending, and the admin form supplies the value the operator chose.
- Timestamps are an integer `now` input, because the clock is I/O. The source leaves the order of rows with equal creation times open; the model's sort fixes one such order.
- Admin form validation happens before `save_model` and lives in Django. Its outcome is the `FormValid` precondition: an existing user, an amount that fits, a type among the choices, and a reference used by no other row.
- Amounts with more than two decimal places cannot be represented in cents. The rounding or rejection of such input by the decimal field is not modelled.
- `Transaction.__str__` is presentation only.
