/**
 * The records of the bank ledger: an account identifier, the transaction
 * type tag and one row of the transaction table.
 *
 * Money is an `int` counting minor units (paisa): the views format amounts
 * with two decimal places, and whole minor units keep the arithmetic exact.
 */
module Records {

  /** Primary key of an account (one account per user). */
  type AccountId = nat

  /** The transaction types this ledger writes or queries. */
  datatype TxnType = Deposit | Withdrawal | Loan {

    /** The integer stored in the `transaction_type` column. */
    function Code(): int {
      match this
      case Deposit => 1
      case Withdrawal => 2
      case Loan => 3
    }
  }

  /** The literal the loan-limit query filters `transaction_type` on. */
  const LoanTypeCode: int := 3

  /**
   * One transaction row: the owning account, the amount moved, the type tag,
   * the balance snapshot written with it, the loan approval flag and the
   * creation time used for ordering.
   */
  datatype Txn = Txn(
    account: AccountId,
    amount: int,
    kind: TxnType,
    balanceAfter: int,
    loanApprove: bool,
    timestamp: nat)

  /** What a record does to its account's balance when replayed. */
  function Signed(t: Txn): int {
    match t.kind
    case Deposit => t.amount
    case Withdrawal => -t.amount
    case Loan => 0
  }
}
