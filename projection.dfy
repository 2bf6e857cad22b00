/**
  `getPolls`: every poll of the catalog with each option's `votes` recounted
  from the ledger, counting unreleased records only.
 */
module Projection {

  import opened Seqs
  import opened Types

  /** The records of one poll that still count (line 58's filter). */
  function ActiveInPoll(pollId: string): VoteRecord -> bool
  {
    (v: VoteRecord) => v.pollId == pollId && !v.isReleased
  }

  /** The records cast for one option (line 61's filter). */
  function WithOption(optionId: string): VoteRecord -> bool
  {
    (v: VoteRecord) => v.optionId == optionId
  }

  function OptionIds(options: seq<PollOption>): set<string>
  {
    set i | 0 <= i < |options| :: options[i].id
  }

  function InOptions(ids: set<string>): VoteRecord -> bool
  {
    (v: VoteRecord) => v.optionId in ids
  }

  predicate DistinctOptionIds(options: seq<PollOption>)
  {
    forall i, j :: 0 <= i < j < |options| ==> options[i].id != options[j].id
  }

  /** The options in their order, each with its count among `pollVotes`. */
  function CountOptions(options: seq<PollOption>, pollVotes: seq<VoteRecord>): (r: seq<PollOption>)
    ensures |r| == |options|
    ensures forall j :: 0 <= j < |r| ==> r[j].id == options[j].id && r[j].text == options[j].text
  {
    seq(|options|, j requires 0 <= j < |options| =>
      options[j].(votes := |Filter(pollVotes, WithOption(options[j].id))|))
  }

  function ProjectPoll(poll: Poll, votes: seq<VoteRecord>): (r: Poll)
    ensures r.id == poll.id && r.question == poll.question
    ensures r.isActive == poll.isActive && r.createdAt == poll.createdAt
    ensures |r.options| == |poll.options|
    ensures forall j :: 0 <= j < |r.options| ==>
              r.options[j].id == poll.options[j].id && r.options[j].text == poll.options[j].text
  {
    poll.(options := CountOptions(poll.options, Filter(votes, ActiveInPoll(poll.id))))
  }

  /** `getPolls`: the catalog in its order, with recounted options. */
  function Results(polls: seq<Poll>, votes: seq<VoteRecord>): (r: seq<Poll>)
    ensures |r| == |polls|
    ensures forall i :: 0 <= i < |r| ==>
              r[i].id == polls[i].id && r[i].question == polls[i].question &&
              r[i].isActive == polls[i].isActive && r[i].createdAt == polls[i].createdAt &&
              |r[i].options| == |polls[i].options|
    ensures forall i, j :: 0 <= i < |r| && 0 <= j < |r[i].options| ==>
              r[i].options[j].id == polls[i].options[j].id && r[i].options[j].text == polls[i].options[j].text
  {
    seq(|polls|, i requires 0 <= i < |polls| => ProjectPoll(polls[i], votes))
  }

  predicate CountsAt(votes: seq<VoteRecord>, k: int, pollId: string, optionId: string)
  {
    0 <= k < |votes| && votes[k].pollId == pollId && votes[k].optionId == optionId && !votes[k].isReleased
  }

  /** Reference count: the positions of the ledger holding an active vote for (pollId, optionId). */
  function ActiveTally(votes: seq<VoteRecord>, pollId: string, optionId: string): nat
  {
    |set k | 0 <= k < |votes| && CountsAt(votes, k, pollId, optionId)|
  }

  /** Appending one record adds one position to the tally exactly when it is an active vote for the pair. */
  lemma TallySnoc(init: seq<VoteRecord>, v: VoteRecord, pollId: string, optionId: string)
    ensures ActiveTally(init + [v], pollId, optionId) ==
            ActiveTally(init, pollId, optionId) + (if ActiveInPoll(pollId)(v) && WithOption(optionId)(v) then 1 else 0)
  {
    var votes := init + [v];
    var before := set k | 0 <= k < |init| && CountsAt(init, k, pollId, optionId);
    var after := set k | 0 <= k < |votes| && CountsAt(votes, k, pollId, optionId);
    forall k | 0 <= k < |init| ensures CountsAt(votes, k, pollId, optionId) == CountsAt(init, k, pollId, optionId) {
      assert votes[k] == init[k];
    }
    assert CountsAt(votes, |init|, pollId, optionId) == (ActiveInPoll(pollId)(v) && WithOption(optionId)(v));
    if ActiveInPoll(pollId)(v) && WithOption(optionId)(v) {
      assert after == before + {|init|};
    } else {
      assert after == before;
    }
  }

  lemma TallyEmpty(pollId: string, optionId: string)
    ensures ActiveTally([], pollId, optionId) == 0
  {
    assert (set k | 0 <= k < 0 && CountsAt([], k, pollId, optionId)) == {};
  }

  /** Appending one record to the poll's active records adds it to an option's records exactly when it names the option. */
  lemma ActiveOptionSnoc(init: seq<VoteRecord>, v: VoteRecord, pollId: string, optionId: string)
    ensures |Filter(Filter(init + [v], ActiveInPoll(pollId)), WithOption(optionId))| ==
            |Filter(Filter(init, ActiveInPoll(pollId)), WithOption(optionId))| +
            (if ActiveInPoll(pollId)(v) && WithOption(optionId)(v) then 1 else 0)
  {
    var pv := Filter(init, ActiveInPoll(pollId));
    FilterSnoc(init, v, ActiveInPoll(pollId));
    if ActiveInPoll(pollId)(v) {
      assert Filter(init + [v], ActiveInPoll(pollId)) == pv + [v];
      FilterSnoc(pv, v, WithOption(optionId));
    } else {
      assert Filter(init + [v], ActiveInPoll(pollId)) == pv + [];
      assert pv + [] == pv;
    }
  }

  lemma {:induction false} FilteredCountIsTally(votes: seq<VoteRecord>, pollId: string, optionId: string)
    ensures |Filter(Filter(votes, ActiveInPoll(pollId)), WithOption(optionId))| == ActiveTally(votes, pollId, optionId)
  {
    if votes == [] {
      TallyEmpty(pollId, optionId);
    } else {
      var init, v := votes[..|votes| - 1], votes[|votes| - 1];
      assert votes == init + [v];
      FilteredCountIsTally(init, pollId, optionId);
      TallySnoc(init, v, pollId, optionId);
      ActiveOptionSnoc(init, v, pollId, optionId);
    }
  }

  /** Each returned option counts exactly the unreleased records of its poll and option. */
  lemma ResultsCountActiveVotes(polls: seq<Poll>, votes: seq<VoteRecord>, i: nat, j: nat)
    requires i < |polls| && j < |polls[i].options|
    ensures Results(polls, votes)[i].options[j].votes == ActiveTally(votes, polls[i].id, polls[i].options[j].id)
  {
    FilteredCountIsTally(votes, polls[i].id, polls[i].options[j].id);
  }

  function SumVotes(options: seq<PollOption>): nat
  {
    if options == [] then 0 else options[0].votes + SumVotes(options[1..])
  }

  /** With `o` outside `ids`, the records for `{o} + ids` split into those for `o` and those for `ids`. */
  lemma {:induction false} SplitOptionCount(s: seq<VoteRecord>, o: string, ids: set<string>)
    requires o !in ids
    ensures |Filter(s, InOptions({o} + ids))| == |Filter(s, WithOption(o))| + |Filter(s, InOptions(ids))|
  {
    if s != [] {
      var init, v := s[..|s| - 1], s[|s| - 1];
      assert s == init + [v];
      SplitOptionCount(init, o, ids);
      FilterSnoc(init, v, InOptions({o} + ids));
      FilterSnoc(init, v, WithOption(o));
      FilterSnoc(init, v, InOptions(ids));
    }
  }

  /** The ids of a non-empty option list: the first one, not repeated, and the ids of the rest. */
  lemma OptionIdsCons(options: seq<PollOption>)
    requires options != [] && DistinctOptionIds(options)
    ensures OptionIds(options) == {options[0].id} + OptionIds(options[1..])
    ensures options[0].id !in OptionIds(options[1..])
    ensures DistinctOptionIds(options[1..])
  {
    var rest := options[1..];
    forall x | x in OptionIds(options) ensures x in {options[0].id} + OptionIds(rest) {
      var i :| 0 <= i < |options| && options[i].id == x;
      if i > 0 { assert rest[i - 1].id == x; }
    }
    forall x | x in OptionIds(rest) ensures x in OptionIds(options) {
      var i :| 0 <= i < |rest| && rest[i].id == x;
      assert options[i + 1].id == x;
    }
    forall i | 0 <= i < |rest| ensures rest[i].id != options[0].id {
      assert rest[i] == options[i + 1];
    }
  }

  lemma CountOptionsCons(options: seq<PollOption>, pollVotes: seq<VoteRecord>)
    requires options != []
    ensures SumVotes(CountOptions(options, pollVotes)) ==
            |Filter(pollVotes, WithOption(options[0].id))| + SumVotes(CountOptions(options[1..], pollVotes))
  {
    assert CountOptions(options, pollVotes)[1..] == CountOptions(options[1..], pollVotes);
  }

  lemma {:induction false} SumOfCounts(options: seq<PollOption>, pollVotes: seq<VoteRecord>)
    requires DistinctOptionIds(options)
    ensures SumVotes(CountOptions(options, pollVotes)) == |Filter(pollVotes, InOptions(OptionIds(options)))|
  {
    if options == [] {
      assert OptionIds(options) == {};
      FilterNone(pollVotes, InOptions({}));
    } else {
      OptionIdsCons(options);
      SumOfCounts(options[1..], pollVotes);
      CountOptionsCons(options, pollVotes);
      SplitOptionCount(pollVotes, options[0].id, OptionIds(options[1..]));
    }
  }

  /**
    With distinct option ids, a poll's counts add up to at most its
    unreleased records, and to exactly that many when every such record names
    one of the poll's options.
   */
  lemma ResultsSumOfCounts(poll: Poll, votes: seq<VoteRecord>)
    requires DistinctOptionIds(poll.options)
    ensures SumVotes(ProjectPoll(poll, votes).options) <= |Filter(votes, ActiveInPoll(poll.id))|
    ensures (forall k :: 0 <= k < |votes| && votes[k].pollId == poll.id && !votes[k].isReleased ==>
               votes[k].optionId in OptionIds(poll.options)) ==>
            SumVotes(ProjectPoll(poll, votes).options) == |Filter(votes, ActiveInPoll(poll.id))|
  {
    var pv := Filter(votes, ActiveInPoll(poll.id));
    SumOfCounts(poll.options, pv);
    if forall k :: 0 <= k < |votes| && votes[k].pollId == poll.id && !votes[k].isReleased ==>
         votes[k].optionId in OptionIds(poll.options) {
      FilterAll(pv, InOptions(OptionIds(poll.options)));
    }
  }
}
