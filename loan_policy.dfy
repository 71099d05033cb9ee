/**
 * The loan-limit gate of the loan request view: the count of an account's
 * approved loan records, and the rule that a fourth one is refused.
 */
module LoanPolicy {
  import opened Records
  import opened History

  /** A request is refused once the account has this many approved loans. */
  const LoanLimit: nat := 3

  /** The filter of the loan-limit query: this account, type code 3, approved. */
  predicate IsApprovedLoan(t: Txn, a: AccountId) {
    t.account == a && t.kind.Code() == LoanTypeCode && t.loanApprove
  }

  /** The number of records of account `a` with type code 3 and the approval flag set. */
  function ApprovedLoanCount(log: seq<Txn>, a: AccountId): (n: nat)
    ensures n <= |log|
  {
    if log == [] then 0
    else (if IsApprovedLoan(log[0], a) then 1 else 0) + ApprovedLoanCount(log[1..], a)
  }

  /**
   * The gate: a new request is accepted while fewer than `LoanLimit` loans
   * are approved, that is, exactly when no three distinct records of the log
   * are approved loans of `a`.
   */
  predicate CanRequestLoan(log: seq<Txn>, a: AccountId): (ok: bool)
    ensures ok <==> !HasThreeApprovedLoans(log, a)
  {
    ThreeApprovedIffLimit(log, a);
    !(ApprovedLoanCount(log, a) >= LoanLimit)
  }

  /** Three distinct records of the log are approved loans of `a`. */
  predicate HasThreeApprovedLoans(log: seq<Txn>, a: AccountId) {
    exists i, j, k :: 0 <= i < j < k < |log| &&
      IsApprovedLoan(log[i], a) && IsApprovedLoan(log[j], a) && IsApprovedLoan(log[k], a)
  }

  /**
   * The positions of the approved loans of `a`, in increasing order; there
   * are exactly as many as the count says.
   */
  function Positions(log: seq<Txn>, a: AccountId): (ps: seq<nat>)
    ensures |ps| == ApprovedLoanCount(log, a)
    ensures forall n :: 0 <= n < |ps| ==> ps[n] < |log| && IsApprovedLoan(log[ps[n]], a)
    ensures forall n, m :: 0 <= n < m < |ps| ==> ps[n] < ps[m]
  {
    if log == [] then []
    else
      var prefix, last := log[..|log| - 1], log[|log| - 1];
      assert log == prefix + [last];
      var earlier := Positions(prefix, a);
      PositionsStep(prefix, last, a, earlier);
      earlier + (if IsApprovedLoan(last, a) then [|prefix|] else [])
  }

  /** The positions in `prefix`, followed by that of `last` if it matches, are the positions in `prefix + [last]`. */
  lemma PositionsStep(prefix: seq<Txn>, last: Txn, a: AccountId, earlier: seq<nat>)
    requires |earlier| == ApprovedLoanCount(prefix, a)
    requires forall n :: 0 <= n < |earlier| ==> earlier[n] < |prefix| && IsApprovedLoan(prefix[earlier[n]], a)
    requires forall n, m :: 0 <= n < m < |earlier| ==> earlier[n] < earlier[m]
    ensures var log, ps := prefix + [last], earlier + (if IsApprovedLoan(last, a) then [|prefix|] else []);
      && |ps| == ApprovedLoanCount(log, a)
      && (forall n :: 0 <= n < |ps| ==> ps[n] < |log| && IsApprovedLoan(log[ps[n]], a))
      && (forall n, m :: 0 <= n < m < |ps| ==> ps[n] < ps[m])
  {
    var log, ps := prefix + [last], earlier + (if IsApprovedLoan(last, a) then [|prefix|] else []);
    ApprovedLoanCountAppend(prefix, last, a);
    forall n | 0 <= n < |ps| ensures ps[n] < |log| && IsApprovedLoan(log[ps[n]], a) {
      if n < |earlier| {
        assert ps[n] == earlier[n];
        assert log[earlier[n]] == prefix[earlier[n]];
      }
    }
    forall n, m | 0 <= n < m < |ps| ensures ps[n] < ps[m] {
      assert ps[n] == earlier[n];
      if m < |earlier| {
        assert ps[m] == earlier[m];
      }
    }
  }

  /** Appending a record raises the count by one exactly when it is an approved loan of `a`. */
  lemma {:induction false} ApprovedLoanCountAppend(log: seq<Txn>, t: Txn, a: AccountId)
    ensures ApprovedLoanCount(log + [t], a) == ApprovedLoanCount(log, a) + (if IsApprovedLoan(t, a) then 1 else 0)
  {
    if log != [] {
      assert (log + [t])[1..] == log[1..] + [t];
      ApprovedLoanCountAppend(log[1..], t, a);
    }
  }

  /**
   * Deposit and withdrawal records are never loans, so writing one leaves
   * every account's approved-loan count, and with it the gate, as it was.
   */
  lemma NonLoanRecordKeepsGate(log: seq<Txn>, t: Txn)
    requires t.kind != Loan
    ensures forall a :: ApprovedLoanCount(log + [t], a) == ApprovedLoanCount(log, a)
    ensures forall a :: CanRequestLoan(log + [t], a) == CanRequestLoan(log, a)
  {
    forall a ensures ApprovedLoanCount(log + [t], a) == ApprovedLoanCount(log, a) {
      ApprovedLoanCountAppend(log, t, a);
    }
  }

  /** The count reaches the limit exactly when three distinct approved loans of `a` exist. */
  lemma ThreeApprovedIffLimit(log: seq<Txn>, a: AccountId)
    ensures HasThreeApprovedLoans(log, a) <==> ApprovedLoanCount(log, a) >= LoanLimit
  {
    if ApprovedLoanCount(log, a) >= LoanLimit {
      LimitGivesThreeApproved(log, a);
    }
    if HasThreeApprovedLoans(log, a) {
      ThreeApprovedReachLimit(log, a);
    }
  }

  /** A count at the limit is witnessed by the first three approved positions. */
  lemma LimitGivesThreeApproved(log: seq<Txn>, a: AccountId)
    requires ApprovedLoanCount(log, a) >= LoanLimit
    ensures HasThreeApprovedLoans(log, a)
  {
    var ps := Positions(log, a);
    var i, j, k := ps[0], ps[1], ps[2];
    assert i < j < k < |log|;
    assert IsApprovedLoan(log[i], a) && IsApprovedLoan(log[j], a) && IsApprovedLoan(log[k], a);
  }

  /** Three distinct approved loans of `a` bring the count to the limit. */
  lemma ThreeApprovedReachLimit(log: seq<Txn>, a: AccountId)
    requires HasThreeApprovedLoans(log, a)
    ensures ApprovedLoanCount(log, a) >= LoanLimit
  {
    forall i, j, k | 0 <= i < j < k < |log| &&
        IsApprovedLoan(log[i], a) && IsApprovedLoan(log[j], a) && IsApprovedLoan(log[k], a)
      ensures ApprovedLoanCount(log, a) >= LoanLimit
    {
      TripleReachesLimit(log, a, i, j, k);
    }
  }

  /** Three given approved positions of `a` bring the count to the limit. */
  lemma TripleReachesLimit(log: seq<Txn>, a: AccountId, i: nat, j: nat, k: nat)
    requires i < j < k < |log|
    requires IsApprovedLoan(log[i], a) && IsApprovedLoan(log[j], a) && IsApprovedLoan(log[k], a)
    ensures ApprovedLoanCount(log, a) >= LoanLimit
  {
    var ps := [i, j, k];
    assert forall n :: 0 <= n < |ps| ==> ps[n] == i || ps[n] == j || ps[n] == k;
    AtLeastApproved(log, a, ps);
  }

  /** The count is zero exactly when no record of the log is an approved loan of `a`. */
  lemma {:induction false} NoApprovedLoansIffZero(log: seq<Txn>, a: AccountId)
    ensures ApprovedLoanCount(log, a) == 0 <==> forall i :: 0 <= i < |log| ==> !IsApprovedLoan(log[i], a)
  {
    if log != [] {
      NoApprovedLoansIffZero(log[1..], a);
      assert forall i :: 1 <= i < |log| ==> log[i] == log[1..][i - 1];
    }
  }

  /** An account never has more approved loans than records. */
  lemma {:induction false} ApprovedLoansWithinAccount(log: seq<Txn>, a: AccountId)
    ensures ApprovedLoanCount(log, a) <= |ForAccount(log, a)|
  {
    if log != [] {
      ApprovedLoansWithinAccount(log[1..], a);
    }
  }

  /** The count is at least the number of distinct positions holding an approved loan of `a`. */
  lemma {:induction false} AtLeastApproved(log: seq<Txn>, a: AccountId, positions: seq<nat>)
    requires forall n :: 0 <= n < |positions| ==> positions[n] < |log| && IsApprovedLoan(log[positions[n]], a)
    requires forall n, m :: 0 <= n < m < |positions| ==> positions[n] < positions[m]
    ensures |positions| <= ApprovedLoanCount(log, a)
  {
    if positions != [] {
      var kept := if positions[0] == 0 then positions[1..] else positions;
      assert forall n :: 0 <= n < |kept| ==> kept[n] > 0;
      var shifted := seq(|kept|, n requires 0 <= n < |kept| => kept[n] - 1);
      forall n | 0 <= n < |shifted|
        ensures shifted[n] < |log[1..]| && IsApprovedLoan(log[1..][shifted[n]], a)
      {
        assert log[1..][shifted[n]] == log[kept[n]];
      }
      AtLeastApproved(log[1..], a, shifted);
    }
  }
}
