/**
  The moderation cycle on the seeded catalog: a vote from one IP, its refused
  repeat, the admin's release, and the accepted revote, with the audit trail
  and the ledger this leaves.
 */
module Scenario {

  import opened Seqs
  import opened Types
  import opened Ledger
  import opened Backend
  import Projection
  import AdminStatus

  const Seeded := "2024-01-01T00:00:00.000Z"

  lemma SeedLookups()
    ensures FindPoll(InitialPolls(Seeded), "poll_1").Some?
    ensures FindPoll(InitialPolls(Seeded), "poll_9") == None
  {
    var polls := InitialPolls(Seeded);
    assert polls[0].id == "poll_1" && polls[1].id == "poll_2";
  }

  function FirstVote(): VoteRecord
  {
    VoteRecord("vote_1", "poll_1", "opt_1", "10.0.0.7", 100, false)
  }

  /** The ledger the cycle leaves: the first vote released, the revote active. */
  function CycleLedger(): seq<VoteRecord>
  {
    [ FirstVote().(isReleased := true),
      VoteRecord("vote_3", "poll_1", "opt_3", "10.0.0.7", 400, false) ]
  }

  /** A first vote is accepted and its repeat refused while the vote is active. */
  method VoteTwice(b: MockBackend) returns (first: Outcome, again: Outcome)
    requires b.polls == InitialPolls(Seeded) && b.votes == [] && b.audit == []
    modifies b
    ensures first == Success && again == Failure(AlreadyVoted)
    ensures b.polls == InitialPolls(Seeded) && b.votes == [FirstVote()]
    ensures |b.audit| == 1 && b.audit[0].action == VOTE
  {
    SeedLookups();
    first := b.CastVote("poll_1", "opt_1", "10.0.0.7", "vote_1", "audit_1", 100);
    assert b.votes[0] == FirstVote();
    again := b.CastVote("poll_1", "opt_2", "10.0.0.7", "vote_2", "audit_2", 200);
  }

  /** The admin releases the IP: its vote stays in the ledger, marked released. */
  method ReleaseOnce(b: MockBackend) returns (release: Outcome)
    requires b.votes == [FirstVote()]
    modifies b
    ensures release == Success
    ensures b.polls == old(b.polls) && b.votes == [FirstVote().(isReleased := true)]
    ensures b.audit == old(b.audit) + [AuditLog("audit_3", RELEASE, "poll_1", "10.0.0.7", ReleasedVote("vote_1"), 300)]
  {
    assert FirstActive([FirstVote()], "poll_1", "10.0.0.7") == Some(0);
    release := b.ReleaseIp("poll_1", "10.0.0.7", "audit_3", 300);
  }

  /** The released IP votes again, and the vote is logged as a revote. */
  method RevoteOnce(b: MockBackend) returns (revote: Outcome)
    requires b.polls == InitialPolls(Seeded) && b.votes == [FirstVote().(isReleased := true)]
    modifies b
    ensures revote == Success
    ensures b.polls == old(b.polls) && b.votes == CycleLedger()
    ensures |b.audit| == |old(b.audit)| + 1 && b.audit[..|old(b.audit)|] == old(b.audit)
    ensures b.audit[|old(b.audit)|].action == REVOTE
  {
    SeedLookups();
    assert b.votes[0].isReleased;
    revote := b.CastVote("poll_1", "opt_3", "10.0.0.7", "vote_3", "audit_4", 400);
  }

  /** A vote on an unknown poll and a release of an IP without a vote change nothing. */
  method Refusals(b: MockBackend) returns (unknown: Outcome, nothingToRelease: Outcome)
    requires b.polls == InitialPolls(Seeded) && b.votes == CycleLedger()
    modifies b
    ensures unknown == Failure(PollNotFound) && nothingToRelease == Failure(NoActiveVote)
    ensures b.polls == old(b.polls) && b.votes == old(b.votes) && b.audit == old(b.audit)
  {
    SeedLookups();
    unknown := b.CastVote("poll_9", "opt_1", "10.0.0.8", "vote_4", "audit_5", 500);
    assert FirstActive(CycleLedger(), "poll_1", "10.0.0.8") == None;
    nothingToRelease := b.ReleaseIp("poll_1", "10.0.0.8", "audit_6", 600);
  }

  method LockCycle() returns (first: Outcome, again: Outcome, release: Outcome, revote: Outcome,
                              unknown: Outcome, nothingToRelease: Outcome,
                              actions: seq<Action>, ledger: seq<VoteRecord>)
    ensures first == Success && again == Failure(AlreadyVoted)
    ensures release == Success && revote == Success
    ensures unknown == Failure(PollNotFound) && nothingToRelease == Failure(NoActiveVote)
    ensures actions == [VOTE, RELEASE, REVOTE]
    ensures ledger == CycleLedger()
  {
    var b := new MockBackend(InitialPolls(Seeded));
    first, again := VoteTwice(b);
    release := ReleaseOnce(b);
    revote := RevoteOnce(b);
    unknown, nothingToRelease := Refusals(b);
    actions := [b.audit[0].action, b.audit[1].action, b.audit[2].action];
    ledger := b.votes;
  }

  lemma CycleActiveRecords()
    ensures Filter(CycleLedger(), Projection.ActiveInPoll("poll_1")) == [CycleLedger()[1]]
  {
    var ledger := CycleLedger();
    assert ledger == [ledger[0]] + [ledger[1]];
    FilterSingle(ledger[0], Projection.ActiveInPoll("poll_1"));
    FilterSnoc([ledger[0]], ledger[1], Projection.ActiveInPoll("poll_1"));
  }

  lemma CycleOptionCount(options: seq<PollOption>, j: nat)
    requires options == InitialPolls(Seeded)[0].options && j < 4
    ensures |Filter([CycleLedger()[1]], Projection.WithOption(options[j].id))| == if j == 2 then 1 else 0
  {
    FilterSingle(CycleLedger()[1], Projection.WithOption(options[j].id));
  }

  /** After the cycle the poll shows one vote, for Angular. */
  lemma CycleResults()
    ensures Projection.Results(InitialPolls(Seeded), CycleLedger())[0].options[2].votes == 1
    ensures forall j :: 0 <= j < 4 && j != 2 ==> Projection.Results(InitialPolls(Seeded), CycleLedger())[0].options[j].votes == 0
  {
    var polls := InitialPolls(Seeded);
    var shown := Projection.Results(polls, CycleLedger())[0];
    assert shown == Projection.ProjectPoll(polls[0], CycleLedger());
    CycleActiveRecords();
    assert shown.options == Projection.CountOptions(polls[0].options, [CycleLedger()[1]]);
    forall j | 0 <= j < 4 ensures shown.options[j].votes == if j == 2 then 1 else 0 {
      CycleOptionCount(polls[0].options, j);
    }
  }

  /** After the cycle the moderation view shows the IP "Locked", its revote being the latest. */
  lemma CycleStatus()
    ensures AdminStatus.HasVoteFrom(CycleLedger(), "10.0.0.7")
    ensures AdminStatus.IpRowOf(CycleLedger(), "10.0.0.7").locked
    ensures AdminStatus.IpRowOf(CycleLedger(), "10.0.0.7").lastVoteTime == 400
  {
    var ledger := CycleLedger();
    assert ledger[0].ipAddress == "10.0.0.7";
    FilterAll(ledger, AdminStatus.WithIp("10.0.0.7"));
    assert ledger[1..] == [ledger[1]];
    assert AdminStatus.LatestIndex(ledger) == 1;
  }
}
