/**
 * The ledger that the transaction views update: a balance per account and
 * the append-only table of transaction records, with a clock that stamps
 * each new record.
 */
module Ledger {
  import opened Records
  import opened History
  import opened LoanPolicy
  import opened Reports

  class Bank {
    /** The `balance` column of every account, in minor units. */
    var balances: map<AccountId, int>
    /** The transaction table in creation order. */
    var log: seq<Txn>
    /** The timestamp the next record receives. */
    var clock: nat
    /** Each account's balance before the first record of `log`. */
    ghost var opening: map<AccountId, int>

    /**
     * The ledger invariant: records are in timestamp order and stamped before
     * `clock`; every record's snapshot is its account's balance right after
     * it was written; replaying the log over the opening balances gives the
     * current balances.
     */
    ghost predicate Valid()
      reads this
    {
      && opening.Keys == balances.Keys
      && Snapshots(opening, log)
      && Chronological(log)
      && (forall i :: 0 <= i < |log| ==> log[i].timestamp < clock)
      && (forall a :: a in balances ==> balances[a] == opening[a] + Net(log, a))
    }

    /**
     * A ledger holding the accounts with their balances before `history`,
     * the records already written, and the current time.
     */
    constructor (accounts: map<AccountId, int>, history: seq<Txn>, now: nat)
      requires Snapshots(accounts, history) && Chronological(history)
      requires forall i :: 0 <= i < |history| ==> history[i].timestamp < now
      ensures Valid()
      ensures opening == accounts && log == history && clock == now
      ensures balances == map a | a in accounts :: accounts[a] + Net(history, a)
    {
      balances := map a | a in accounts :: accounts[a] + Net(history, a);
      log := history;
      clock := now;
      opening := accounts;
    }

    /**
     * Adds `amount` to the account's balance, then writes a DEPOSIT record
     * whose snapshot is the new balance. No other balance changes, no
     * earlier record changes, and no account's loan gate changes.
     */
    method Deposit(acct: AccountId, amount: int) returns (t: Txn)
      requires Valid() && acct in balances
      modifies this
      ensures Valid()
      ensures balances == old(balances)[acct := old(balances[acct]) + amount]
      ensures t == Txn(acct, amount, TxnType.Deposit, balances[acct], false, old(clock))
      ensures log == old(log) + [t]
      ensures clock == old(clock) + 1 && opening == old(opening)
      ensures forall a :: CanRequestLoan(log, a) == CanRequestLoan(old(log), a)
    {
      balances := balances[acct := balances[acct] + amount];
      t := Txn(acct, amount, TxnType.Deposit, balances[acct], false, clock);
      Record(t);
    }

    /**
     * Subtracts `amount` from the account's balance, then writes a WITHDRAWAL
     * record whose snapshot is the new balance. The view does not compare
     * `amount` with the balance, so neither does this method.
     */
    method Withdraw(acct: AccountId, amount: int) returns (t: Txn)
      requires Valid() && acct in balances
      modifies this
      ensures Valid()
      ensures balances == old(balances)[acct := old(balances[acct]) - amount]
      ensures t == Txn(acct, amount, TxnType.Withdrawal, balances[acct], false, old(clock))
      ensures log == old(log) + [t]
      ensures clock == old(clock) + 1 && opening == old(opening)
      ensures forall a :: CanRequestLoan(log, a) == CanRequestLoan(old(log), a)
    {
      balances := balances[acct := balances[acct] - amount];
      t := Txn(acct, amount, TxnType.Withdrawal, balances[acct], false, clock);
      Record(t);
    }

    /**
     * Appends a non-loan record stamped with the clock whose snapshot is its
     * account's balance, already updated, and advances the clock.
     */
    method Record(t: Txn)
      requires t.account in balances && t.kind != TxnType.Loan && t.timestamp == clock
      requires opening.Keys == balances.Keys && Snapshots(opening, log) && Chronological(log)
      requires forall i :: 0 <= i < |log| ==> log[i].timestamp < clock
      requires forall a :: a in balances ==>
        balances[a] == opening[a] + Net(log, a) + (if a == t.account then Signed(t) else 0)
      requires t.balanceAfter == balances[t.account]
      modifies this`log, this`clock
      ensures Valid()
      ensures log == old(log) + [t] && clock == old(clock) + 1
      ensures forall a :: CanRequestLoan(log, a) == CanRequestLoan(old(log), a)
    {
      NetAppend(log, t);
      SnapshotsAppend(opening, log, t);
      ChronologicalAppend(log, t);
      NonLoanRecordKeepsGate(log, t);
      log := log + [t];
      clock := clock + 1;
    }

    /**
     * The loan-limit gate: the request is refused when the account already
     * has `LoanLimit` or more approved loan records, and accepted exactly
     * when no three records of the log are approved loans of the account.
     * Either way no balance and no record changes.
     */
    method RequestLoan(acct: AccountId) returns (accepted: bool)
      ensures accepted <==> CanRequestLoan(log, acct)
      ensures accepted <==> !exists i, j, k :: 0 <= i < j < k < |log| &&
                                IsApprovedLoan(log[i], acct) && IsApprovedLoan(log[j], acct) &&
                                IsApprovedLoan(log[k], acct)
    {
      var currentLoanCount := ApprovedLoanCount(log, acct);
      if currentLoanCount >= LoanLimit {
        return false;
      }
      return true;
    }

    /**
     * The newest records of `acct`, at most `ReportLimit` of them: a front
     * part of the account's records in reverse log order. Reads the ledger
     * only.
     */
    function TransactionReport(acct: AccountId): (r: seq<Txn>)
      reads this
      requires Valid()
      ensures |r| == if |ForAccount(log, acct)| < ReportLimit then |ForAccount(log, acct)| else ReportLimit
      ensures forall i :: 0 <= i < |r| ==> r[i].account == acct && r[i] in log
      ensures forall i, j :: 0 <= i < j < |r| ==> r[i].timestamp > r[j].timestamp
      ensures acct in balances && r != [] ==> r[0].balanceAfter == balances[acct]
      ensures r == Reverse(ForAccount(log, acct))[..|r|]
    {
      ReportOfLedger(opening, balances, log, acct);
      Report(log, acct)
    }
  }

  /**
   * The report of a ledger whose snapshots agree with its balances: a front
   * part of the account's records in reverse log order, strictly newest
   * first, whose first row shows the account's current balance.
   */
  lemma ReportOfLedger(opening: map<AccountId, int>, balances: map<AccountId, int>, log: seq<Txn>, acct: AccountId)
    requires Snapshots(opening, log) && Chronological(log)
    requires acct in balances ==> acct in opening && balances[acct] == opening[acct] + Net(log, acct)
    ensures var r := Report(log, acct);
      && (forall i, j :: 0 <= i < j < |r| ==> r[i].timestamp > r[j].timestamp)
      && (acct in balances && r != [] ==> r[0].balanceAfter == balances[acct])
      && r == Reverse(ForAccount(log, acct))[..|r|]
  {
    ReportOfConsistentLog(opening, log, acct);
  }

  /** A short session on one account, as the views would run it. */
  method ExampleSession() {
    var bank := new Bank(map[7 := 10000], [], 0);
    var d := bank.Deposit(7, 5000);
    assert bank.balances[7] == 15000 && d.balanceAfter == 15000;
    var w := bank.Withdraw(7, 20000);
    assert bank.balances[7] == -5000 && w.balanceAfter == -5000;
    var accepted := bank.RequestLoan(7);
    assert bank.log == [d, w];
    assert accepted;
  }

  /** After a deposit the report's first row is that deposit, showing the new balance. */
  method ExampleReport() {
    var bank := new Bank(map[7 := 10000, 8 := 0], [], 0);
    var d := bank.Deposit(7, 5000);
    assert d in ForAccount(bank.log, 7);
    var report := bank.TransactionReport(7);
    assert report != [] && report[0] in bank.log;
    assert report[0] == d && report[0].balanceAfter == 15000;
  }
}
