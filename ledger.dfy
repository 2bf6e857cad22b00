/**
  The vote ledger: the predicates `castVote` and `releaseIp` test on the
  stored records, the lock invariant, and the lemmas that the two writes
  keep it.
 */
module Ledger {

  import opened Seqs
  import opened Types

  /** The record test of the active-vote lookups: same poll, same IP, not released. */
  function ActiveFor(pollId: string, ip: string): VoteRecord -> bool
  {
    (v: VoteRecord) => v.pollId == pollId && v.ipAddress == ip && !v.isReleased
  }

  /** The record test of the revote lookup: same poll, same IP, released. */
  function ReleasedFor(pollId: string, ip: string): VoteRecord -> bool
  {
    (v: VoteRecord) => v.pollId == pollId && v.ipAddress == ip && v.isReleased
  }

  /** The index `releaseIp` acts on: the first active record of (pollId, ip). */
  function FirstActive(votes: seq<VoteRecord>, pollId: string, ip: string): Option<nat>
  {
    FindIndex(votes, ActiveFor(pollId, ip))
  }

  /** "ip is locked on pollId": some record of that pair is not released. */
  predicate HasActiveVote(votes: seq<VoteRecord>, pollId: string, ip: string)
  {
    exists i :: 0 <= i < |votes| && votes[i].pollId == pollId && votes[i].ipAddress == ip && !votes[i].isReleased
  }

  /** Some record of (pollId, ip) has been released: the next vote is a revote. */
  predicate HasReleasedVote(votes: seq<VoteRecord>, pollId: string, ip: string)
  {
    exists i :: 0 <= i < |votes| && votes[i].pollId == pollId && votes[i].ipAddress == ip && votes[i].isReleased
  }

  predicate SameVoter(a: VoteRecord, b: VoteRecord)
  {
    a.pollId == b.pollId && a.ipAddress == b.ipAddress
  }

  /** The exclusivity lock: at most one unreleased record per (poll, ip). */
  ghost predicate AtMostOneActive(votes: seq<VoteRecord>)
  {
    forall i, j ::
      (0 <= i < |votes| && 0 <= j < |votes| && !votes[i].isReleased && !votes[j].isReleased &&
       SameVoter(votes[i], votes[j])) ==> i == j
  }

  /**
    The invariant the two writes keep, stronger than the lock: a record that
    is still active is the last record of its (poll, ip), so every earlier one
    is released.
   */
  ghost predicate ActiveIsLatest(votes: seq<VoteRecord>)
  {
    forall i, j :: 0 <= i < j < |votes| && SameVoter(votes[i], votes[j]) ==> votes[i].isReleased
  }

  /** Stored timestamps strictly increase in append order. */
  ghost predicate IncreasingTimes(votes: seq<VoteRecord>)
  {
    forall i, j :: 0 <= i < j < |votes| ==> votes[i].timestamp < votes[j].timestamp
  }

  /** The lookup `castVote` and `releaseIp` run finds a record exactly when the pair is locked. */
  lemma FirstActiveFindsLock(votes: seq<VoteRecord>, pollId: string, ip: string)
    ensures FirstActive(votes, pollId, ip).Some? <==> HasActiveVote(votes, pollId, ip)
  {
    if HasActiveVote(votes, pollId, ip) {
      var i :| 0 <= i < |votes| && ActiveFor(pollId, ip)(votes[i]);
    }
  }

  lemma FirstReleasedFindsHistory(votes: seq<VoteRecord>, pollId: string, ip: string)
    ensures FindIndex(votes, ReleasedFor(pollId, ip)).Some? <==> HasReleasedVote(votes, pollId, ip)
  {
    if HasReleasedVote(votes, pollId, ip) {
      var i :| 0 <= i < |votes| && ReleasedFor(pollId, ip)(votes[i]);
    }
  }

  lemma ActiveIsLatestGivesLock(votes: seq<VoteRecord>)
    requires ActiveIsLatest(votes)
    ensures AtMostOneActive(votes)
  {
    forall i, j |
      0 <= i < |votes| && 0 <= j < |votes| && !votes[i].isReleased && !votes[j].isReleased &&
      SameVoter(votes[i], votes[j])
      ensures i == j
    {
    }
  }

  /**
    Appending a fresh unreleased record for a pair that holds no lock keeps
    the invariant, and the pair is locked afterwards.
   */
  lemma CastKeepsInvariant(votes: seq<VoteRecord>, v: VoteRecord)
    requires ActiveIsLatest(votes)
    requires !HasActiveVote(votes, v.pollId, v.ipAddress)
    requires !v.isReleased
    ensures ActiveIsLatest(votes + [v])
    ensures HasActiveVote(votes + [v], v.pollId, v.ipAddress)
  {
    var after := votes + [v];
    forall i, j | 0 <= i < j < |after| && SameVoter(after[i], after[j])
      ensures after[i].isReleased
    {
      if j == |votes| {
        assert after[i] == votes[i];
      } else {
        assert after[i] == votes[i] && after[j] == votes[j];
      }
    }
    assert after[|votes|] == v;
  }

  /** Releasing any record keeps the invariant. */
  lemma ReleaseKeepsInvariant(votes: seq<VoteRecord>, k: nat)
    requires ActiveIsLatest(votes)
    requires k < |votes|
    ensures ActiveIsLatest(votes[k := votes[k].(isReleased := true)])
  {
    var after := votes[k := votes[k].(isReleased := true)];
    forall i, j | 0 <= i < j < |after| && SameVoter(after[i], after[j])
      ensures after[i].isReleased
    {
      assert SameVoter(votes[i], votes[j]);
    }
  }

  /**
    Under the lock, releasing the first active record of (pollId, ip) leaves
    the pair unlocked, with a released record: `castVote` may run again and
    will label that vote `REVOTE`.
   */
  lemma ReleaseUnlocks(votes: seq<VoteRecord>, pollId: string, ip: string, k: nat)
    requires AtMostOneActive(votes)
    requires k < |votes| && ActiveFor(pollId, ip)(votes[k])
    ensures !HasActiveVote(votes[k := votes[k].(isReleased := true)], pollId, ip)
    ensures HasReleasedVote(votes[k := votes[k].(isReleased := true)], pollId, ip)
  {
    var after := votes[k := votes[k].(isReleased := true)];
    if HasActiveVote(after, pollId, ip) {
      var i :| 0 <= i < |after| && after[i].pollId == pollId && after[i].ipAddress == ip && !after[i].isReleased;
      assert i != k;
      assert SameVoter(votes[i], votes[k]);
      assert false;
    }
    assert after[k].isReleased;
  }

  /** Appending a record newer than every stored one keeps timestamps increasing. */
  lemma AppendKeepsIncreasing(votes: seq<VoteRecord>, v: VoteRecord)
    requires IncreasingTimes(votes)
    requires forall i :: 0 <= i < |votes| ==> votes[i].timestamp < v.timestamp
    ensures IncreasingTimes(votes + [v])
  {
    var after := votes + [v];
    forall i, j | 0 <= i < j < |after|
      ensures after[i].timestamp < after[j].timestamp
    {
      assert after[i] == votes[i];
    }
  }

  /** Releasing changes no timestamp. */
  lemma ReleaseKeepsIncreasing(votes: seq<VoteRecord>, k: nat)
    requires IncreasingTimes(votes)
    requires k < |votes|
    ensures IncreasingTimes(votes[k := votes[k].(isReleased := true)])
  {
  }
}
