# Bank ledger model (mamar_bank transactions)

A Dafny model of the ledger updates behind the transaction views of the
mamar_bank demo application. Each user owns one account with a `balance`.
For every deposit and withdrawal the view's explicit `create` writes one row
to the transaction table. The row
holds the account, the amount, the type code, a snapshot of the balance
(`balance_after_transaction`), a `loan_approve` flag and a timestamp.

- `records.dfy` (`Records`): account ids, the type tags with their integer
  codes, the transaction row, and the signed effect of a row on its balance.
  Money is an `int` in minor units, so all arithmetic is exact. The views
  format amounts with two decimal places.
- `history.dfy` (`History`): the log read as a history. `Net` replays it per
  account. `Snapshots` says that every row's snapshot is its account's balance
  right after the row was written. `Chronological` says timestamps increase
  along the log. `ForAccount` is the `filter(account=...)` query.
- `loan_policy.dfy` (`LoanPolicy`): the loan-limit query. It counts the rows
  with this account, type code 3 and `loan_approve` set, and refuses a request
  once the count reaches 3.
- `reports.dfy` (`Reports`): the report query. It takes the account's rows,
  orders them by `-timestamp` (an insertion sort) and keeps the first 10.
- `ledger.dfy` (`Ledger`): the `Bank` class. Its fields are the balances, the
  log and a clock, and it has a `Valid()` invariant. Its methods are `Deposit`,
  `Withdraw` and `RequestLoan`, and its function `TransactionReport` reads the
  ledger. `Valid()` requires three things:
  - every row's snapshot equals the replayed balance at its write;
  - replaying the whole log over the opening balances gives the current
    balances;
  - timestamps strictly increase and all lie before the clock.

  `Deposit` and `Withdraw` keep `Valid()`. They change one balance by exactly
  the amount and append exactly one row, leaving every earlier row untouched.
  They leave every account's loan gate as it was. `RequestLoan` has no
  `modifies` clause, so neither a rejection nor an acceptance can change a
  balance or the log. Two client methods, `ExampleSession` and
  `ExampleReport`, show what a caller can conclude from these contracts.

Three behaviours of the views shape the model:
- The withdraw view subtracts without comparing the amount against the
  balance (transactions/views.py:74). So `Withdraw` has no insufficient-funds
  error and a balance can go negative. Any such check lives in the withdraw
  form, which is not part of this model.
- The loan view writes no row itself. A loan-request row can only come from
  the form's own save (transactions/views.py:113). So `RequestLoan` changes
  nothing.
- Loan approval and loan payoff do not appear in the views. Approved loan
  rows can therefore only come from an existing history. The `Bank`
  constructor accepts such a history when its snapshots are consistent.

## Model

| member | source | states |
|---|---|---|
| `Ledger.Bank.Deposit` | transactions/views.py:35-49 | The acting account's balance grows by exactly `amount` and no other balance changes. Exactly one DEPOSIT row is appended, carrying the account, the amount and the new balance as its snapshot, and no earlier row changes. The ledger invariant is kept, and so is every account's loan gate. |
| `Ledger.Bank.Withdraw` | transactions/views.py:69-83 | The acting account's balance shrinks by exactly `amount` and no other balance changes. Exactly one WITHDRAWAL row is appended with the new balance as its snapshot. There is no funds check, as in the view. The ledger invariant and every loan gate are kept. |
| `Ledger.Bank.Record` | transactions/views.py:44-49 | Writing a non-loan row stamped with the clock, whose snapshot is the already updated balance, turns the half-updated state back into a valid ledger. The log grows by that one row and the clock advances. |
| `Ledger.Bank.RequestLoan` | transactions/views.py:102-113 | The request is accepted exactly when the gate `CanRequestLoan` accepts, and exactly when no three distinct rows of the log are approved loans of the account; so it is refused exactly when such three rows exist. The method modifies nothing, so balances and log are unchanged either way. |
| `Ledger.Bank.TransactionReport` | transactions/views.py:121-124 | On a valid ledger the report holds min(10, n) rows, where n is the account's number of rows. All rows belong to the account and come from the log. The report is a front part of the account's rows in reverse log order, its timestamps strictly decrease, and its first row's snapshot equals the account's current balance. |
| `Ledger.ReportOfLedger` | transactions/views.py:121-124 | When every snapshot is consistent and the current balance is the replayed one, the report is a front part of the account's rows in reverse log order, strictly newest first, and its first row shows the current balance. |
| `LoanPolicy.ApprovedLoanCount` | transactions/views.py:104-105 | The number of rows that have this account, type code 3 and `loan_approve` set (`IsApprovedLoan`), never more than the rows of the log. Its other properties are stated in `ApprovedLoanCountAppend`, `NoApprovedLoansIffZero`, `ApprovedLoansWithinAccount` and `ThreeApprovedIffLimit`. |
| `LoanPolicy.CanRequestLoan` | transactions/views.py:104-107 | The gate `count >= 3` refuses, and the predicate accepts exactly when no three distinct rows of the log are approved loans of the account. |
| `LoanPolicy.ThreeApprovedIffLimit` | transactions/views.py:104-106 | Three distinct approved loan rows of the account exist exactly when the count is at least 3. |
| `LoanPolicy.LimitGivesThreeApproved` | transactions/views.py:104-106 | A count of at least 3 is witnessed by three distinct approved loan rows of the account. |
| `LoanPolicy.ThreeApprovedReachLimit` | transactions/views.py:104-106 | Three distinct approved loan rows of the account bring the count to at least 3. |
| `LoanPolicy.TripleReachesLimit` | transactions/views.py:104-106 | Three given increasing positions holding approved loans of the account make the count at least 3. |
| `LoanPolicy.Positions` | transactions/views.py:104-105 | The positions of the account's approved loan rows, strictly increasing and each holding such a row; there are exactly as many as the count. |
| `LoanPolicy.PositionsStep` | transactions/views.py:104-105 | Appending a row extends the list of approved positions by that row's position exactly when it is an approved loan of the account, keeping the list exact and increasing. |
| `LoanPolicy.NoApprovedLoansIffZero` | transactions/views.py:104-105 | The count is 0 exactly when no row of the log is an approved loan of the account. |
| `LoanPolicy.ApprovedLoansWithinAccount` | transactions/views.py:104-105 | The count never exceeds the account's number of rows. |
| `LoanPolicy.ApprovedLoanCountAppend` | transactions/views.py:104-105 | Appending a row raises the count by one exactly when that row is an approved loan of the account, and otherwise leaves it unchanged. |
| `LoanPolicy.NonLoanRecordKeepsGate` | transactions/views.py:104-106 | Appending a deposit or withdrawal row changes no account's count, and so no account's accept/refuse decision. |
| `LoanPolicy.AtLeastApproved` | transactions/views.py:104-105 | The count is at least the number of distinct positions that hold an approved loan of the account. |
| `History.ForAccount` | transactions/views.py:122 | The rows whose account field matches: every result row belongs to the account and comes from the log, every such log row is in the result, and the result is no longer than the log. |
| `History.ForAccountAppend` | transactions/views.py:122 | Filtering by account commutes with appending a row. |
| `History.ForAccountChronological` | transactions/views.py:122 | One account's rows, taken from a log in timestamp order, are in timestamp order. |
| `History.NetAppend` | transactions/views.py:40-41 | Appending a row changes the replayed balance of its own account by its signed amount and leaves every other account's replay unchanged. |
| `History.SnapshotsAppend` | transactions/views.py:44-48 | A row whose snapshot is the balance after applying it extends a consistent log to a consistent log. |
| `History.ChronologicalAppend` | transactions/views.py:44-48 | A row stamped later than all others keeps the log in timestamp order. |
| `History.LatestSnapshotIsReplay` | transactions/views.py:47 | In a consistent log, the account's latest row has a snapshot equal to the opening balance plus the replay of the whole log. That replay is the account's current balance. |
| `Reports.InsertByTime` | transactions/views.py:122 | Inserting into a newest-first sequence keeps it newest first. The result is the old multiset plus the inserted row, one element longer. |
| `Reports.KeepHead` | transactions/views.py:122 | When the head of a newest-first sequence is newer than the inserted row, it stays in front of the rest with the row inserted. |
| `Reports.ConsNewestFirst` | transactions/views.py:122 | A row at least as new as every row of a newest-first sequence can be placed in front of it. |
| `Reports.SortNewestFirst` | transactions/views.py:122 | `order_by('-timestamp')`: the result is newest first and a permutation of its input. |
| `Reports.Report` | transactions/views.py:122 | The report has exactly min(10, n) rows, where n is the account's number of rows. It is newest first, and every row belongs to the account and comes from the log. As a multiset it is contained in the account's rows. |
| `Reports.PrefixOfSorted` | transactions/views.py:122 | The `[:10]` slice of a newest-first permutation is newest first and draws only on the account's rows. |
| `Reports.InsertOldest` | transactions/views.py:122 | A row older than every row of a newest-first sequence is inserted last. |
| `Reports.SortChronologicalIsReverse` | transactions/views.py:122 | On rows in timestamp order, sorting newest first is exactly reversing them. |
| `Reports.ReportOfChronologicalLog` | transactions/views.py:121-124 | On a log in timestamp order, the report is a front part of the account's rows in reverse log order, with strictly decreasing timestamps. |
| `Reports.ReversedPrefixStrict` | transactions/views.py:122 | Any front part of the reversal of rows in timestamp order has strictly decreasing timestamps. |
| `Reports.ReportKeepsNewest` | transactions/views.py:122 | On a log in timestamp order, every row of the account that the report leaves out is older than every row it shows. |
| `Reports.OmittedAreOlder` | transactions/views.py:122 | A row missing from a front part of the reversed account rows is older than every row of that front part. |
| `Reports.ReportHeadShowsBalance` | transactions/views.py:122 | With consistent snapshots and rows in timestamp order, the first row of a non-empty report shows the account's replayed balance. |
| `Reports.ReportOfConsistentLog` | transactions/views.py:121-124 | With consistent snapshots and rows in timestamp order, the report is a front part of the account's rows in reverse log order, strictly newest first, and its first row, if any, shows the replayed balance. |

## Left out

- Framework plumbing is not modelled: login mixins, generic create/list views, form kwargs, initial data, context data, templates, success messages, `HttpResponse` and the debug `print` calls. These carry no ledger logic.
- The `super().form_valid(form)` calls at transactions/views.py:58, 92 and 113 are not modelled. They save the form's own transaction instance. The transaction forms are not part of this model, so neither is that save. In the running application it may add a second row for each deposit and withdrawal, and it is the only writer of a loan-request row.
- Form validation is not modelled: amount bounds and any insufficient-funds check. The transaction forms are not part of this model. Amounts are unconstrained integers, and `Withdraw` may drive a balance negative, as the view does.
- Loan approval and loan payoff are not modelled. No shown code performs them, so approved loan rows reach the model only through the constructor's history. `Signed` gives a loan row no effect on the balance, so the constructor accepts only histories in which loan rows never moved a balance; a history where an approved loan was paid out into the balance is outside the model.
- Ledger.Bank.Deposit, Ledger.Bank.Withdraw, Ledger.Bank.RequestLoan and Ledger.Bank.TransactionReport do not model a logged-in user with no account. For such a user `self.request.user.account` (transactions/views.py:37, 71, 105, 122) raises an exception before any write or query. `Deposit` and `Withdraw` require `acct in balances` and so exclude that user; `RequestLoan` and `TransactionReport` accept any `acct` and answer "accepted" or `[]` where the view would raise. The model leaves that error path out.
- Ledger.Bank.RequestLoan: the `amount` is not a parameter. The view uses it only in the float-formatted success message.
- The float formatting of the loan message is not modelled. It is presentation only.
- Atomicity and concurrency are not modelled. Each method is one atomic step. The source writes the balance and then creates the row as two separate saves, with no transaction boundary, and concurrent requests can interleave.
- Timestamps come from a strictly increasing clock in the model. In the application they are set at row creation, and two rows may share a timestamp. The ordering the database applies to such ties is not modelled.
- The transaction models and constants modules are not part of this model. Five things are assumed: DEPOSIT, WITHDRAWAL and LOAN have the codes 1, 2 and 3; `loan_approve` defaults to false on rows that do not set it; the timestamp is assigned when the row is created; amounts and balances have two decimal places, as the views' `:.2f` formatting suggests; and their magnitude is unbounded, in place of whatever digit limit the money fields have.
- The account views (registration, login, logout) and the URL configuration are not part of this model. They delegate to the framework. The URL configuration routes no loan-request view at all.
