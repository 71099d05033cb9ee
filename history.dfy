/**
 * The transaction log read as a history: replaying it, the balance snapshot
 * each record carries, the order of its timestamps and the records of one
 * account.
 */
module History {
  import opened Records

  /** The log is in creation order: timestamps strictly increase along it. */
  predicate Chronological(log: seq<Txn>) {
    forall i, j :: 0 <= i < j < |log| ==> log[i].timestamp < log[j].timestamp
  }

  /** The net effect on account `a` of replaying `log` from its first record. */
  function Net(log: seq<Txn>, a: AccountId): int {
    if log == [] then 0
    else
      var last := log[|log| - 1];
      Net(log[..|log| - 1], a) + (if last.account == a then Signed(last) else 0)
  }

  /**
   * Every record's `balanceAfter` is the balance its account had right after
   * the record was written: the opening balance plus the replay of the log up
   * to and including that record.
   */
  predicate Snapshots(opening: map<AccountId, int>, log: seq<Txn>) {
    log == [] ||
    var last := log[|log| - 1];
    && Snapshots(opening, log[..|log| - 1])
    && last.account in opening
    && last.balanceAfter == opening[last.account] + Net(log, last.account)
  }

  /** The records of account `a`, in log order. */
  function ForAccount(log: seq<Txn>, a: AccountId): (r: seq<Txn>)
    ensures |r| <= |log|
    ensures forall i :: 0 <= i < |r| ==> r[i].account == a && r[i] in log
    ensures forall t :: t in log && t.account == a ==> t in r
  {
    if log == [] then []
    else (if log[0].account == a then [log[0]] else []) + ForAccount(log[1..], a)
  }

  /** Appending one record changes the replay of its own account only, by its signed amount. */
  lemma NetAppend(log: seq<Txn>, t: Txn)
    ensures forall a :: Net(log + [t], a) == Net(log, a) + (if t.account == a then Signed(t) else 0)
  {
    assert (log + [t])[..|log|] == log;
  }

  /** A record whose snapshot is the replayed balance extends a consistent log to a consistent log. */
  lemma SnapshotsAppend(opening: map<AccountId, int>, log: seq<Txn>, t: Txn)
    requires Snapshots(opening, log)
    requires t.account in opening
    requires t.balanceAfter == opening[t.account] + Net(log, t.account) + Signed(t)
    ensures Snapshots(opening, log + [t])
  {
    assert (log + [t])[..|log|] == log;
    NetAppend(log, t);
  }

  /** A record stamped later than every record keeps the log chronological. */
  lemma ChronologicalAppend(log: seq<Txn>, t: Txn)
    requires Chronological(log)
    requires forall i :: 0 <= i < |log| ==> log[i].timestamp < t.timestamp
    ensures Chronological(log + [t])
  {
  }

  /** Filtering by account commutes with appending one record. */
  lemma {:induction false} ForAccountAppend(log: seq<Txn>, t: Txn, a: AccountId)
    ensures ForAccount(log + [t], a) == ForAccount(log, a) + (if t.account == a then [t] else [])
  {
    if log == [] {
      assert ForAccount([t], a) == (if t.account == a then [t] else []) + ForAccount([], a);
    } else {
      assert (log + [t])[0] == log[0];
      assert (log + [t])[1..] == log[1..] + [t];
      ForAccountAppend(log[1..], t, a);
    }
  }

  /** The records of one account, taken from a chronological log, are chronological. */
  lemma {:induction false} ForAccountChronological(log: seq<Txn>, a: AccountId)
    requires Chronological(log)
    ensures Chronological(ForAccount(log, a))
  {
    if log != [] {
      var rest := ForAccount(log[1..], a);
      assert Chronological(log[1..]) by {
        forall i, j | 0 <= i < j < |log[1..]|
          ensures log[1..][i].timestamp < log[1..][j].timestamp
        {
          assert log[1..][i] == log[i + 1] && log[1..][j] == log[j + 1];
        }
      }
      ForAccountChronological(log[1..], a);
      forall k | 0 <= k < |rest| ensures log[0].timestamp < rest[k].timestamp {
        var m :| 0 <= m < |log[1..]| && log[1..][m] == rest[k];
        assert log[m + 1] == rest[k];
      }
    }
  }

  /**
   * Replaying the log reproduces the snapshot of the account's latest record:
   * the last record of account `a` carries the opening balance plus the net
   * effect of the whole log on `a`.
   */
  lemma {:induction false} LatestSnapshotIsReplay(opening: map<AccountId, int>, log: seq<Txn>, a: AccountId)
    requires Snapshots(opening, log)
    requires ForAccount(log, a) != []
    ensures a in opening
    ensures ForAccount(log, a)[|ForAccount(log, a)| - 1].balanceAfter == opening[a] + Net(log, a)
  {
    var n := |log| - 1;
    var prefix, last := log[..n], log[n];
    assert log == prefix + [last];
    ForAccountAppend(prefix, last, a);
    NetAppend(prefix, last);
    if last.account != a {
      LatestSnapshotIsReplay(opening, prefix, a);
    }
  }
}
