/**
 * The transaction report: an account's records ordered newest first by
 * timestamp and cut to the first ten.
 */
module Reports {
  import opened Records
  import opened History

  /** How many rows the report shows at most. */
  const ReportLimit: nat := 10

  /** Timestamps never increase along `s`. */
  predicate NewestFirst(s: seq<Txn>) {
    forall i, j :: 0 <= i < j < |s| ==> s[i].timestamp >= s[j].timestamp
  }

  /** Places `t` into a newest-first sequence in front of the first record not newer than it. */
  function InsertByTime(t: Txn, s: seq<Txn>): (r: seq<Txn>)
    requires NewestFirst(s)
    ensures NewestFirst(r)
    ensures multiset(r) == multiset(s) + multiset{t}
    ensures forall u :: u in r ==> u == t || u in s
    ensures |r| == |s| + 1
  {
    if s == [] || t.timestamp >= s[0].timestamp then
      ConsNewestFirst(t, s);
      [t] + s
    else
      var rest := InsertByTime(t, s[1..]);
      assert s == [s[0]] + s[1..];
      KeepHead(t, s, rest);
      assert multiset([s[0]] + rest) == multiset{s[0]} + multiset(s[1..]) + multiset{t};
      [s[0]] + rest
  }

  /** The head of `s`, newer than `t`, stays in front of `t` inserted into the rest of `s`. */
  lemma KeepHead(t: Txn, s: seq<Txn>, rest: seq<Txn>)
    requires NewestFirst(s) && s != [] && t.timestamp < s[0].timestamp
    requires NewestFirst(rest)
    requires forall u :: u in rest ==> u == t || u in s[1..]
    ensures NewestFirst([s[0]] + rest)
  {
    forall u | u in rest ensures s[0].timestamp >= u.timestamp {
      if u != t {
        var k :| 0 <= k < |s[1..]| && s[1..][k] == u;
        assert s[k + 1] == u;
      }
    }
    ConsNewestFirst(s[0], rest);
  }

  /** A record at least as new as every record of a newest-first sequence can go in front. */
  lemma ConsNewestFirst(x: Txn, s: seq<Txn>)
    requires NewestFirst(s)
    requires forall u :: u in s ==> x.timestamp >= u.timestamp
    ensures NewestFirst([x] + s)
  {
    forall i, j | 0 <= i < j < |[x] + s|
      ensures ([x] + s)[i].timestamp >= ([x] + s)[j].timestamp
    {
      assert ([x] + s)[j] == s[j - 1];
      if i > 0 {
        assert ([x] + s)[i] == s[i - 1];
      }
    }
  }

  /** The `order_by('-timestamp')` of the query: the same records, newest first. */
  function SortNewestFirst(s: seq<Txn>): (r: seq<Txn>)
    ensures NewestFirst(r)
    ensures multiset(r) == multiset(s)
    ensures |r| == |s|
  {
    if s == [] then []
    else
      assert s == [s[0]] + s[1..];
      InsertByTime(s[0], SortNewestFirst(s[1..]))
  }

  /** `s` back to front. */
  function Reverse(s: seq<Txn>): (r: seq<Txn>)
    ensures |r| == |s|
    ensures forall i :: 0 <= i < |s| ==> r[i] == s[|s| - 1 - i]
  {
    if s == [] then [] else Reverse(s[1..]) + [s[0]]
  }

  /**
   * The report of account `a`: its records, newest first, at most ten. Every
   * row is a record of `a` from the log, and the report holds ten rows, or
   * all of the account's records when it has fewer.
   */
  function Report(log: seq<Txn>, a: AccountId): (r: seq<Txn>)
    ensures |r| == if |ForAccount(log, a)| < ReportLimit then |ForAccount(log, a)| else ReportLimit
    ensures NewestFirst(r)
    ensures forall i :: 0 <= i < |r| ==> r[i].account == a && r[i] in log
    ensures multiset(r) <= multiset(ForAccount(log, a))
  {
    var s := ForAccount(log, a);
    var sorted := SortNewestFirst(s);
    var r := sorted[..if |sorted| <= ReportLimit then |sorted| else ReportLimit];
    PrefixOfSorted(s, sorted, r);
    r
  }

  /** A prefix of a newest-first arrangement of `s` is newest first and draws only on `s`. */
  lemma PrefixOfSorted(s: seq<Txn>, sorted: seq<Txn>, r: seq<Txn>)
    requires NewestFirst(sorted) && multiset(sorted) == multiset(s)
    requires |r| <= |sorted| && r == sorted[..|r|]
    ensures NewestFirst(r)
    ensures multiset(r) <= multiset(s)
    ensures forall i :: 0 <= i < |r| ==> r[i] in s
  {
    assert sorted == r + sorted[|r|..];
    assert multiset(sorted) == multiset(r) + multiset(sorted[|r|..]);
    forall i | 0 <= i < |r| ensures r[i] in s {
      assert r[i] in multiset(r);
      assert r[i] in multiset(s);
    }
  }

  /** Inserting a record older than every record of `s` puts it last. */
  lemma {:induction false} InsertOldest(t: Txn, s: seq<Txn>)
    requires NewestFirst(s)
    requires forall u :: u in s ==> t.timestamp < u.timestamp
    ensures InsertByTime(t, s) == s + [t]
  {
    if s != [] {
      assert s[0] in s;
      InsertOldest(t, s[1..]);
    }
  }

  /** On a chronological sequence, sorting newest first is reversing it. */
  lemma {:induction false} SortChronologicalIsReverse(s: seq<Txn>)
    requires Chronological(s)
    ensures SortNewestFirst(s) == Reverse(s)
  {
    if s != [] {
      assert Chronological(s[1..]) by {
        forall i, j | 0 <= i < j < |s[1..]|
          ensures s[1..][i].timestamp < s[1..][j].timestamp
        {
          assert s[1..][i] == s[i + 1] && s[1..][j] == s[j + 1];
        }
      }
      SortChronologicalIsReverse(s[1..]);
      var sorted := SortNewestFirst(s[1..]);
      forall u | u in sorted ensures s[0].timestamp < u.timestamp {
        assert u in multiset(s[1..]);
        var k :| 0 <= k < |s[1..]| && s[1..][k] == u;
        assert s[k + 1] == u;
      }
      InsertOldest(s[0], sorted);
    }
  }

  /**
   * On a chronological log the report is the account's last (up to) ten
   * records in reverse log order, so their timestamps strictly decrease.
   */
  lemma ReportOfChronologicalLog(log: seq<Txn>, a: AccountId)
    requires Chronological(log)
    ensures var s := ForAccount(log, a);
      Report(log, a) == Reverse(s)[..|Report(log, a)|]
    ensures forall i, j :: 0 <= i < j < |Report(log, a)| ==>
      Report(log, a)[i].timestamp > Report(log, a)[j].timestamp
  {
    var s := ForAccount(log, a);
    ForAccountChronological(log, a);
    SortChronologicalIsReverse(s);
    ReversedPrefixStrict(s, Report(log, a));
  }

  /** A front part of the reversal of a chronological sequence has strictly decreasing timestamps. */
  lemma ReversedPrefixStrict(s: seq<Txn>, r: seq<Txn>)
    requires Chronological(s)
    requires |r| <= |s| && r == Reverse(s)[..|r|]
    ensures forall i, j :: 0 <= i < j < |r| ==> r[i].timestamp > r[j].timestamp
  {
    forall i, j | 0 <= i < j < |r| ensures r[i].timestamp > r[j].timestamp {
      assert r[i] == s[|s| - 1 - i] && r[j] == s[|s| - 1 - j];
    }
  }

  /**
   * On a chronological log every record of `a` the report leaves out is
   * older than every record it shows: the report is the newest records.
   */
  lemma ReportKeepsNewest(log: seq<Txn>, a: AccountId, t: Txn)
    requires Chronological(log)
    requires t in log && t.account == a && t !in Report(log, a)
    ensures forall u :: u in Report(log, a) ==> t.timestamp < u.timestamp
  {
    ForAccountChronological(log, a);
    ReportOfChronologicalLog(log, a);
    OmittedAreOlder(ForAccount(log, a), Report(log, a), t);
  }

  /** Whatever a front part of the reversal of a chronological `s` leaves out is older than all of it. */
  lemma OmittedAreOlder(s: seq<Txn>, r: seq<Txn>, t: Txn)
    requires Chronological(s)
    requires |r| <= |s| && r == Reverse(s)[..|r|]
    requires t in s && t !in r
    ensures forall u :: u in r ==> t.timestamp < u.timestamp
  {
    var rev := Reverse(s);
    var m :| 0 <= m < |s| && s[m] == t;
    var p := |s| - 1 - m;
    assert rev[p] == t;
    assert |r| <= p;
    forall u | u in r ensures t.timestamp < u.timestamp {
      var q :| 0 <= q < |r| && r[q] == u;
      assert rev[q] == u;
    }
  }

  /**
   * With the balance snapshots consistent, the first row of a non-empty
   * report shows the account's balance after replaying the whole log.
   */
  lemma ReportHeadShowsBalance(opening: map<AccountId, int>, log: seq<Txn>, a: AccountId)
    requires Snapshots(opening, log) && Chronological(log)
    requires ForAccount(log, a) != []
    ensures a in opening
    ensures Report(log, a) != [] && Report(log, a)[0].balanceAfter == opening[a] + Net(log, a)
  {
    var s := ForAccount(log, a);
    ReportOfChronologicalLog(log, a);
    LatestSnapshotIsReplay(opening, log, a);
    assert Report(log, a)[0] == Reverse(s)[0] == s[|s| - 1];
  }

  /**
   * On a chronological log with consistent snapshots the report is strictly
   * newest first, is a front part of the account's records in reverse log
   * order, and its first row shows the account's replayed balance.
   */
  lemma ReportOfConsistentLog(opening: map<AccountId, int>, log: seq<Txn>, a: AccountId)
    requires Snapshots(opening, log) && Chronological(log)
    ensures forall i, j :: 0 <= i < j < |Report(log, a)| ==>
      Report(log, a)[i].timestamp > Report(log, a)[j].timestamp
    ensures Report(log, a) != [] ==> a in opening && Report(log, a)[0].balanceAfter == opening[a] + Net(log, a)
    ensures Report(log, a) == Reverse(ForAccount(log, a))[..|Report(log, a)|]
  {
    ReportOfChronologicalLog(log, a);
    if ForAccount(log, a) != [] {
      ReportHeadShowsBalance(opening, log, a);
    }
  }
}
