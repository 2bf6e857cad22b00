/**
  The write side of the mock backend: the poll catalog, the vote ledger and
  the audit log held by one object, and the two operations that change them.
  Storage is in memory and each operation is one atomic step; the clock and
  the id generators are parameters.
 */
module Backend {

  import opened Seqs
  import opened Types
  import opened Ledger
  import Projection
  import History

  datatype Error = PollNotFound | AlreadyVoted | NoActiveVote

  /** The `success` flag of the source's `{ success, message }`, with the reason of a failure. */
  datatype Outcome = Success | Failure(error: Error)

  function HasPollId(pollId: string): Poll -> bool
  {
    (p: Poll) => p.id == pollId
  }

  function HasOptionId(optionId: string): PollOption -> bool
  {
    (o: PollOption) => o.id == optionId
  }

  /** `polls.find(p => p.id === pollId)`: the first poll of the catalog with that id. */
  function FindPoll(polls: seq<Poll>, pollId: string): (r: Option<Poll>)
    ensures r.None? <==> forall i :: 0 <= i < |polls| ==> polls[i].id != pollId
    ensures r.Some? ==> exists i :: 0 <= i < |polls| && polls[i] == r.value && r.value.id == pollId &&
                                    forall j :: 0 <= j < i ==> polls[j].id != pollId
  {
    match FindIndex(polls, HasPollId(pollId))
    case None => None
    case Some(i) => Some(polls[i])
  }

  /**
    `poll.options.find(o => o.id === optionId)?.text`: the text of the first
    option with that id, or `None` when the poll has no such option.
   */
  function OptionText(poll: Poll, optionId: string): (r: Option<string>)
    ensures r.None? <==> forall i :: 0 <= i < |poll.options| ==> poll.options[i].id != optionId
    ensures r.Some? ==> exists i :: 0 <= i < |poll.options| && poll.options[i].id == optionId &&
                                    poll.options[i].text == r.value &&
                                    forall j :: 0 <= j < i ==> poll.options[j].id != optionId
  {
    match FindIndex(poll.options, HasOptionId(optionId))
    case None => None
    case Some(i) => Some(poll.options[i].text)
  }

  /** The two seeded polls the catalog holds until storage says otherwise. */
  function InitialPolls(createdAt: string): (r: seq<Poll>)
    ensures |r| == 2 && r[0].id == "poll_1" && r[1].id == "poll_2"
  {
    [ Poll("poll_1", "Which frontend framework do you prefer?",
           [PollOption("opt_1", "React", 0), PollOption("opt_2", "Vue", 0),
            PollOption("opt_3", "Angular", 0), PollOption("opt_4", "Svelte", 0)],
           true, createdAt),
      Poll("poll_2", "What is your favorite backend language?",
           [PollOption("opt_a", "PHP", 0), PollOption("opt_b", "Node.js", 0),
            PollOption("opt_c", "Python", 0), PollOption("opt_d", "Go", 0)],
           true, createdAt) ]
  }

  class MockBackend {
    var polls: seq<Poll>
    var votes: seq<VoteRecord>
    var audit: seq<AuditLog>

    /** The lock invariant of the ledger (no stored data is assumed to satisfy it). */
    ghost predicate Valid()
      reads this
    {
      ActiveIsLatest(votes)
    }

    /** Empty storage: the catalog falls back to the given seed polls. */
    constructor (seed: seq<Poll>)
      ensures polls == seed && votes == [] && audit == []
      ensures Valid()
    {
      polls := seed;
      votes := [];
      audit := [];
    }

    /**
      `getPolls`: the catalog in its order, each option's count being the
      number of unreleased ledger records for its poll and option.
     */
    method GetPolls() returns (r: seq<Poll>)
      ensures r == Projection.Results(polls, votes)
      ensures |r| == |polls|
      ensures forall i :: 0 <= i < |r| ==> r[i].id == polls[i].id && |r[i].options| == |polls[i].options|
      ensures forall i, j :: 0 <= i < |r| && 0 <= j < |r[i].options| ==>
                r[i].options[j].id == polls[i].options[j].id &&
                r[i].options[j].votes == Projection.ActiveTally(votes, polls[i].id, polls[i].options[j].id)
    {
      r := Projection.Results(polls, votes);
      forall i, j | 0 <= i < |r| && 0 <= j < |r[i].options|
        ensures r[i].options[j].votes == Projection.ActiveTally(votes, polls[i].id, polls[i].options[j].id)
      {
        Projection.ResultsCountActiveVotes(polls, votes, i, j);
      }
    }

    /**
      `getVoteHistory`: the poll's ledger records and its audit entries newest
      first, entries of one timestamp in the order they were logged.
     */
    method GetVoteHistory(pollId: string) returns (h: History.VoteHistory)
      ensures h == History.GetVoteHistory(votes, audit, pollId)
      ensures forall t: nat :: Filter(h.audit, History.AtTime(t)) ==
                Filter(Filter(audit, History.AuditInPoll(pollId)), History.AtTime(t))
    {
      h := History.GetVoteHistory(votes, audit, pollId);
      forall t: nat ensures Filter(h.audit, History.AtTime(t)) ==
          Filter(Filter(audit, History.AuditInPoll(pollId)), History.AtTime(t)) {
        History.HistoryAuditStable(audit, votes, pollId, t);
      }
    }

    /**
      `castVote`: the poll must exist and the IP must hold no active vote on
      it; then one unreleased record and one audit entry are appended, the
      entry being a `REVOTE` when a released record of the pair exists.
     */
    method CastVote(pollId: string, optionId: string, ipAddress: string,
                    voteId: string, auditId: string, now: nat) returns (r: Outcome)
      modifies this
      ensures polls == old(polls)
      ensures match FindPoll(old(polls), pollId)
        case None =>
          r == Failure(PollNotFound) && votes == old(votes) && audit == old(audit)
        case Some(poll) =>
          if HasActiveVote(old(votes), pollId, ipAddress) then
            r == Failure(AlreadyVoted) && votes == old(votes) && audit == old(audit)
          else
            var revote := HasReleasedVote(old(votes), pollId, ipAddress);
            && r == Success
            && votes == old(votes) + [VoteRecord(voteId, pollId, optionId, ipAddress, now, false)]
            && audit == old(audit) + [AuditLog(auditId, if revote then REVOTE else VOTE, pollId, ipAddress,
                                               if revote then Revoted(OptionText(poll, optionId))
                                               else VotedFor(OptionText(poll, optionId)),
                                               now)]
      ensures old(Valid()) ==> Valid()
      ensures r.Success? ==> HasActiveVote(votes, pollId, ipAddress)
      ensures (r.Success? && old(IncreasingTimes(votes)) &&
               forall i :: 0 <= i < |old(votes)| ==> old(votes)[i].timestamp < now) ==> IncreasingTimes(votes)
    {
      var found := FindPoll(polls, pollId);
      if found.None? {
        return Failure(PollNotFound);
      }
      var poll := found.value;

      FirstActiveFindsLock(votes, pollId, ipAddress);
      var existingActive := FirstActive(votes, pollId, ipAddress);
      if existingActive.Some? {
        return Failure(AlreadyVoted);
      }

      FirstReleasedFindsHistory(votes, pollId, ipAddress);
      var isRevote := FindIndex(votes, ReleasedFor(pollId, ipAddress)).Some?;

      var newVote := VoteRecord(voteId, pollId, optionId, ipAddress, now, false);
      if Valid() {
        CastKeepsInvariant(votes, newVote);
      }
      if IncreasingTimes(votes) && forall i :: 0 <= i < |votes| ==> votes[i].timestamp < now {
        AppendKeepsIncreasing(votes, newVote);
      }
      assert (votes + [newVote])[|votes|] == newVote;
      votes := votes + [newVote];

      var action := if isRevote then REVOTE else VOTE;
      var details := if isRevote then Revoted(OptionText(poll, optionId)) else VotedFor(OptionText(poll, optionId));
      audit := audit + [AuditLog(auditId, action, pollId, ipAddress, details, now)];
      r := Success;
    }

    /**
      `releaseIp`: the first active record of (pollId, ipAddress) is marked
      released and a `RELEASE` entry naming it is appended; with no active
      record nothing changes. The poll id is not checked against the catalog.
     */
    method ReleaseIp(pollId: string, ipAddress: string, auditId: string, now: nat) returns (r: Outcome)
      modifies this
      ensures polls == old(polls)
      ensures r.Failure? <==> !HasActiveVote(old(votes), pollId, ipAddress)
      ensures match FirstActive(old(votes), pollId, ipAddress)
        case None =>
          r == Failure(NoActiveVote) && votes == old(votes) && audit == old(audit)
        case Some(k) =>
          && r == Success
          && votes == old(votes)[k := old(votes)[k].(isReleased := true)]
          && audit == old(audit) + [AuditLog(auditId, RELEASE, pollId, ipAddress, ReleasedVote(old(votes)[k].id), now)]
      ensures old(Valid()) ==> Valid()
      ensures old(Valid()) && r.Success? ==>
                !HasActiveVote(votes, pollId, ipAddress) && HasReleasedVote(votes, pollId, ipAddress)
      ensures old(IncreasingTimes(votes)) ==> IncreasingTimes(votes)
    {
      FirstActiveFindsLock(votes, pollId, ipAddress);
      var voteIndex := FirstActive(votes, pollId, ipAddress);
      if voteIndex.None? {
        return Failure(NoActiveVote);
      }
      var k := voteIndex.value;

      if Valid() {
        ReleaseKeepsInvariant(votes, k);
        ActiveIsLatestGivesLock(votes);
        ReleaseUnlocks(votes, pollId, ipAddress, k);
      }
      if IncreasingTimes(votes) {
        ReleaseKeepsIncreasing(votes, k);
      }
      var released := votes[k];
      votes := votes[k := votes[k].(isReleased := true)];

      audit := audit + [AuditLog(auditId, RELEASE, pollId, ipAddress, ReleasedVote(released.id), now)];
      r := Success;
    }
  }
}
