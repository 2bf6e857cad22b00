/**
  The moderation view's per-IP status: the distinct IPs of a poll's history,
  each IP's latest vote by timestamp, "Locked" when that vote is unreleased,
  and the release action offered only then.
 */
module AdminStatus {

  import opened Seqs
  import opened Types
  import opened Ledger
  import History

  function WithIp(ip: string): VoteRecord -> bool
  {
    (v: VoteRecord) => v.ipAddress == ip
  }

  predicate HasVoteFrom(votes: seq<VoteRecord>, ip: string)
  {
    exists k :: 0 <= k < |votes| && votes[k].ipAddress == ip
  }

  /** `Array.from(new Set(votes.map(v => v.ipAddress)))`. */
  function UniqueIps(votes: seq<VoteRecord>): (r: seq<string>)
    ensures forall i, j :: 0 <= i < j < |r| ==> r[i] != r[j]
    ensures forall i :: 0 <= i < |r| ==> HasVoteFrom(votes, r[i])
    ensures forall k :: 0 <= k < |votes| ==> votes[k].ipAddress in r
  {
    if votes == [] then []
    else
      var init := votes[..|votes| - 1];
      var seen := UniqueIps(init);
      var ip := votes[|votes| - 1].ipAddress;
      assert forall k :: 0 <= k < |init| ==> init[k] == votes[k];
      assert forall x :: HasVoteFrom(init, x) ==> HasVoteFrom(votes, x);
      if ip in seen then seen else seen + [ip]
  }

  /** The position of the first record of `ip` (`|votes|` when there is none). */
  function FirstSeen(votes: seq<VoteRecord>, ip: string): (r: nat)
    ensures r <= |votes|
    ensures r < |votes| ==> votes[r].ipAddress == ip
    ensures forall k :: 0 <= k < r ==> votes[k].ipAddress != ip
  {
    if votes == [] then 0
    else if votes[0].ipAddress == ip then 0
    else 1 + FirstSeen(votes[1..], ip)
  }

  lemma FirstSeenSnoc(init: seq<VoteRecord>, v: VoteRecord, ip: string)
    requires HasVoteFrom(init, ip)
    ensures FirstSeen(init + [v], ip) == FirstSeen(init, ip)
  {
    var a, b := FirstSeen(init + [v], ip), FirstSeen(init, ip);
    var k :| 0 <= k < |init| && init[k].ipAddress == ip;
    assert (init + [v])[k] == init[k];
    assert b < |init|;
    assert (init + [v])[b] == init[b];
  }

  /** The IPs come in the order in which each first appears in the history. */
  lemma {:induction false} UniqueIpsInFirstSeenOrder(votes: seq<VoteRecord>)
    ensures forall i, j :: 0 <= i < j < |UniqueIps(votes)| ==>
              FirstSeen(votes, UniqueIps(votes)[i]) < FirstSeen(votes, UniqueIps(votes)[j])
  {
    if votes != [] {
      var init, v := votes[..|votes| - 1], votes[|votes| - 1];
      assert votes == init + [v];
      var seen := UniqueIps(init);
      UniqueIpsInFirstSeenOrder(init);
      forall i | 0 <= i < |seen| ensures FirstSeen(votes, seen[i]) == FirstSeen(init, seen[i]) < |init| {
        FirstSeenSnoc(init, v, seen[i]);
      }
      if v.ipAddress !in seen {
        forall k | 0 <= k < |init| ensures votes[k].ipAddress != v.ipAddress {
          assert init[k].ipAddress in seen;
          assert votes[k] == init[k];
        }
        assert FirstSeen(votes, v.ipAddress) == |init|;
      }
    }
  }

  /**
    The record `ipVotes.sort(newest first)[0]` picks: a greatest timestamp,
    and, the sort being stable, the first such record in stored order.
   */
  function LatestIndex(ipVotes: seq<VoteRecord>): (k: nat)
    requires |ipVotes| > 0
    ensures k < |ipVotes|
    ensures forall j :: 0 <= j < |ipVotes| ==> ipVotes[j].timestamp <= ipVotes[k].timestamp
    ensures forall j :: 0 <= j < k ==> ipVotes[j].timestamp < ipVotes[k].timestamp
  {
    if |ipVotes| == 1 then 0
    else
      var m := 1 + LatestIndex(ipVotes[1..]);
      if ipVotes[0].timestamp >= ipVotes[m].timestamp then 0 else m
  }

  /** One row of the IP table: status, last vote time, and whether "Release IP" is shown. */
  datatype IpRow = IpRow(ip: string, locked: bool, lastVoteTime: nat, releaseOffered: bool)

  lemma UniqueIpHasVotes(votes: seq<VoteRecord>, ip: string)
    requires HasVoteFrom(votes, ip)
    ensures |Filter(votes, WithIp(ip))| > 0
  {
    var k :| 0 <= k < |votes| && votes[k].ipAddress == ip;
    assert votes[k] in Filter(votes, WithIp(ip));
  }

  /**
    The row of one IP of the history: "Locked" exactly when its latest vote
    is unreleased, and the release action offered exactly when locked.
   */
  function IpRowOf(votes: seq<VoteRecord>, ip: string): (row: IpRow)
    requires HasVoteFrom(votes, ip)
    ensures row.ip == ip && row.releaseOffered == row.locked
    ensures |Filter(votes, WithIp(ip))| > 0 &&
            row.locked == !Filter(votes, WithIp(ip))[LatestIndex(Filter(votes, WithIp(ip)))].isReleased
    ensures exists k :: 0 <= k < |votes| && votes[k].ipAddress == ip &&
              row.locked == !votes[k].isReleased && row.lastVoteTime == votes[k].timestamp &&
              forall j :: 0 <= j < |votes| && votes[j].ipAddress == ip ==> votes[j].timestamp <= row.lastVoteTime
  {
    var ipVotes := Filter(votes, WithIp(ip));
    UniqueIpHasVotes(votes, ip);
    var latest := ipVotes[LatestIndex(ipVotes)];
    assert latest in votes;
    forall j | 0 <= j < |votes| && votes[j].ipAddress == ip ensures votes[j].timestamp <= latest.timestamp {
      assert votes[j] in ipVotes;
    }
    IpRow(ip, !latest.isReleased, latest.timestamp, !latest.isReleased)
  }

  /** The IP table of the moderation view, one row per distinct IP of the history. */
  function IpTable(votes: seq<VoteRecord>): (rows: seq<IpRow>)
    ensures |rows| == |UniqueIps(votes)|
    ensures forall i :: 0 <= i < |rows| ==> rows[i] == IpRowOf(votes, UniqueIps(votes)[i])
  {
    var ips := UniqueIps(votes);
    seq(|ips|, i requires 0 <= i < |ips| => IpRowOf(votes, ips[i]))
  }

  lemma PrefixKeepsInvariants(s: seq<VoteRecord>)
    requires s != []
    ensures ActiveIsLatest(s) ==> ActiveIsLatest(s[..|s| - 1])
    ensures IncreasingTimes(s) ==> IncreasingTimes(s[..|s| - 1])
  {
    var init := s[..|s| - 1];
    assert forall i :: 0 <= i < |init| ==> init[i] == s[i];
  }

  /** A record whose earlier same-voter records are all released may be appended under the invariant. */
  lemma SnocKeepsActiveIsLatest(f: seq<VoteRecord>, v: VoteRecord)
    requires ActiveIsLatest(f)
    requires forall i :: 0 <= i < |f| && SameVoter(f[i], v) ==> f[i].isReleased
    ensures ActiveIsLatest(f + [v])
  {
    var r := f + [v];
    forall i, j | 0 <= i < j < |r| && SameVoter(r[i], r[j]) ensures r[i].isReleased {
      assert r[i] == f[i];
      if j < |f| {
        assert r[j] == f[j];
      }
    }
  }

  lemma {:induction false} FilterKeepsActiveIsLatest(s: seq<VoteRecord>, keep: VoteRecord -> bool)
    requires ActiveIsLatest(s)
    ensures ActiveIsLatest(Filter(s, keep))
  {
    if s != [] {
      var init, v := s[..|s| - 1], s[|s| - 1];
      assert s == init + [v];
      PrefixKeepsInvariants(s);
      FilterKeepsActiveIsLatest(init, keep);
      FilterSnoc(init, v, keep);
      var f := Filter(init, keep);
      if keep(v) {
        forall i | 0 <= i < |f| && SameVoter(f[i], v) ensures f[i].isReleased {
          var m :| 0 <= m < |init| && init[m] == f[i];
          assert s[m] == init[m];
        }
        SnocKeepsActiveIsLatest(f, v);
      }
    }
  }

  lemma {:induction false} FilterKeepsIncreasing(s: seq<VoteRecord>, keep: VoteRecord -> bool)
    requires IncreasingTimes(s)
    ensures IncreasingTimes(Filter(s, keep))
  {
    if s != [] {
      var init, v := s[..|s| - 1], s[|s| - 1];
      assert s == init + [v];
      PrefixKeepsInvariants(s);
      FilterKeepsIncreasing(init, keep);
      FilterSnoc(init, v, keep);
      var f := Filter(init, keep);
      if keep(v) {
        forall i | 0 <= i < |f| ensures f[i].timestamp < v.timestamp {
          var m :| 0 <= m < |init| && init[m] == f[i];
          assert s[m] == init[m];
        }
        AppendKeepsIncreasing(f, v);
      }
    }
  }

  /** With strictly increasing timestamps the latest vote is the last one stored. */
  lemma LatestIsLast(ipVotes: seq<VoteRecord>)
    requires |ipVotes| > 0 && IncreasingTimes(ipVotes)
    ensures LatestIndex(ipVotes) == |ipVotes| - 1
  {
  }

  /** The history records of one IP are exactly its records on the poll. */
  lemma IpHistoryMembers(votes: seq<VoteRecord>, pollId: string, ip: string)
    ensures forall n :: 0 <= n < |Filter(Filter(votes, History.VoteInPoll(pollId)), WithIp(ip))| ==>
              var iv := Filter(Filter(votes, History.VoteInPoll(pollId)), WithIp(ip));
              iv[n] in votes && iv[n].pollId == pollId && iv[n].ipAddress == ip
    ensures HasActiveVote(votes, pollId, ip) ==>
              var iv := Filter(Filter(votes, History.VoteInPoll(pollId)), WithIp(ip));
              exists n :: 0 <= n < |iv| && !iv[n].isReleased
  {
    var hv := Filter(votes, History.VoteInPoll(pollId));
    var iv := Filter(hv, WithIp(ip));
    forall n | 0 <= n < |iv| ensures iv[n] in votes && iv[n].pollId == pollId && iv[n].ipAddress == ip {
      assert iv[n] in hv;
    }
    if HasActiveVote(votes, pollId, ip) {
      var k :| 0 <= k < |votes| && votes[k].pollId == pollId && votes[k].ipAddress == ip && !votes[k].isReleased;
      assert votes[k] in hv;
      var m :| 0 <= m < |hv| && hv[m] == votes[k];
      assert hv[m] in iv;
      assert votes[k] in iv;
    }
  }

  /** Some history record of the IP is unreleased exactly when the ledger holds its lock on the poll. */
  lemma IpHistoryActiveIff(votes: seq<VoteRecord>, pollId: string, ip: string)
    ensures (exists n :: 0 <= n < |Filter(Filter(votes, History.VoteInPoll(pollId)), WithIp(ip))| &&
               !Filter(Filter(votes, History.VoteInPoll(pollId)), WithIp(ip))[n].isReleased)
            <==> HasActiveVote(votes, pollId, ip)
  {
    var iv := Filter(Filter(votes, History.VoteInPoll(pollId)), WithIp(ip));
    IpHistoryMembers(votes, pollId, ip);
    if n :| 0 <= n < |iv| && !iv[n].isReleased {
      var k :| 0 <= k < |votes| && votes[k] == iv[n];
      assert votes[k].pollId == pollId && votes[k].ipAddress == ip && !votes[k].isReleased;
    }
  }

  /** The history records of one IP inherit the ledger's invariant and its increasing timestamps. */
  lemma IpHistoryInvariants(votes: seq<VoteRecord>, pollId: string, ip: string)
    requires ActiveIsLatest(votes) && IncreasingTimes(votes)
    ensures ActiveIsLatest(Filter(Filter(votes, History.VoteInPoll(pollId)), WithIp(ip)))
    ensures IncreasingTimes(Filter(Filter(votes, History.VoteInPoll(pollId)), WithIp(ip)))
  {
    var hv := Filter(votes, History.VoteInPoll(pollId));
    FilterKeepsActiveIsLatest(votes, History.VoteInPoll(pollId));
    FilterKeepsActiveIsLatest(hv, WithIp(ip));
    FilterKeepsIncreasing(votes, History.VoteInPoll(pollId));
    FilterKeepsIncreasing(hv, WithIp(ip));
  }

  /** In one voter's records under the invariant, the last is active exactly when any is. */
  lemma LastActiveIffAnyActive(iv: seq<VoteRecord>)
    requires |iv| > 0 && ActiveIsLatest(iv)
    requires forall n :: 0 <= n < |iv| ==> SameVoter(iv[n], iv[|iv| - 1])
    ensures !iv[|iv| - 1].isReleased <==> exists n :: 0 <= n < |iv| && !iv[n].isReleased
  {
  }

  /** With increasing timestamps the row of an IP shows the state of its last record. */
  lemma RowShowsLastRecord(hv: seq<VoteRecord>, ip: string)
    requires HasVoteFrom(hv, ip) && IncreasingTimes(Filter(hv, WithIp(ip)))
    ensures |Filter(hv, WithIp(ip))| > 0
    ensures IpRowOf(hv, ip).locked == !Filter(hv, WithIp(ip))[|Filter(hv, WithIp(ip))| - 1].isReleased
  {
    UniqueIpHasVotes(hv, ip);
    LatestIsLast(Filter(hv, WithIp(ip)));
  }

  /** On the poll's records, an IP's row is "Locked" exactly when the ledger holds its lock. */
  lemma RowLockedIffActive(votes: seq<VoteRecord>, pollId: string, ip: string)
    requires ActiveIsLatest(votes) && IncreasingTimes(votes)
    requires HasVoteFrom(Filter(votes, History.VoteInPoll(pollId)), ip)
    ensures IpRowOf(Filter(votes, History.VoteInPoll(pollId)), ip).locked <==> HasActiveVote(votes, pollId, ip)
  {
    var hv := Filter(votes, History.VoteInPoll(pollId));
    var iv := Filter(hv, WithIp(ip));
    IpHistoryInvariants(votes, pollId, ip);
    RowShowsLastRecord(hv, ip);
    IpHistoryMembers(votes, pollId, ip);
    LastActiveIffAnyActive(iv);
    IpHistoryActiveIff(votes, pollId, ip);
  }

  /**
    The moderation view agrees with the backend's lock: when the ledger keeps
    its invariant and timestamps strictly increase, an IP of the poll's
    history is shown "Locked", with the release action, exactly when
    `castVote` would refuse it and `releaseIp` would succeed.
   */
  lemma LockedIffActiveVote(votes: seq<VoteRecord>, audit: seq<AuditLog>, pollId: string, ip: string)
    requires ActiveIsLatest(votes) && IncreasingTimes(votes)
    requires ip in UniqueIps(History.GetVoteHistory(votes, audit, pollId).votes)
    ensures HasVoteFrom(History.GetVoteHistory(votes, audit, pollId).votes, ip)
    ensures IpRowOf(History.GetVoteHistory(votes, audit, pollId).votes, ip).locked <==> HasActiveVote(votes, pollId, ip)
    ensures IpRowOf(History.GetVoteHistory(votes, audit, pollId).votes, ip).releaseOffered <==> HasActiveVote(votes, pollId, ip)
  {
    var hv := History.GetVoteHistory(votes, audit, pollId).votes;
    assert hv == Filter(votes, History.VoteInPoll(pollId));
    var ips := UniqueIps(hv);
    var i :| 0 <= i < |ips| && ips[i] == ip;
    RowLockedIffActive(votes, pollId, ip);
  }

  /** Two records of one IP with the same timestamp: the earlier is released, the later holds the lock. */
  function TiedLedger(): seq<VoteRecord>
  {
    [ VoteRecord("vote_a", "poll_1", "opt_1", "9.9.9.9", 5, true),
      VoteRecord("vote_b", "poll_1", "opt_3", "9.9.9.9", 5, false) ]
  }

  lemma TiedLedgerLocked()
    ensures ActiveIsLatest(TiedLedger())
    ensures HasActiveVote(TiedLedger(), "poll_1", "9.9.9.9")
    ensures HasVoteFrom(TiedLedger(), "9.9.9.9")
  {
    var votes := TiedLedger();
    assert votes[1].pollId == "poll_1" && votes[1].ipAddress == "9.9.9.9" && !votes[1].isReleased;
  }

  /**
    Without strictly increasing timestamps the view can disagree with the
    lock: on a tie the stable sort keeps the earlier, released record first,
    so the IP is shown as released while `castVote` still refuses it.
   */
  lemma TiedTimestampsHideLock()
    ensures ActiveIsLatest(TiedLedger()) && HasActiveVote(TiedLedger(), "poll_1", "9.9.9.9")
    ensures HasVoteFrom(TiedLedger(), "9.9.9.9")
    ensures !IpRowOf(TiedLedger(), "9.9.9.9").locked
  {
    TiedLedgerLocked();
    var votes := TiedLedger();
    FilterAll(votes, WithIp("9.9.9.9"));
    assert votes[1..] == [votes[1]];
    assert LatestIndex(votes) == 0;
  }
}
