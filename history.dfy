/**
  `getVoteHistory`: the ledger records of one poll, and that poll's audit
  entries newest first, by a stable sort on the timestamp.
 */
module History {

  import opened Seqs
  import opened Types

  function VoteInPoll(pollId: string): VoteRecord -> bool
  {
    (v: VoteRecord) => v.pollId == pollId
  }

  function AuditInPoll(pollId: string): AuditLog -> bool
  {
    (a: AuditLog) => a.pollId == pollId
  }

  function AtTime(t: nat): AuditLog -> bool
  {
    (a: AuditLog) => a.timestamp == t
  }

  /** Non-increasing timestamps: what the descending comparator asks of the result. */
  ghost predicate NewestFirst(s: seq<AuditLog>)
  {
    forall i, j :: 0 <= i < j < |s| ==> s[i].timestamp >= s[j].timestamp
  }

  /** Places `x` before the first entry that is not newer than it. */
  function InsertNewestFirst(x: AuditLog, sorted: seq<AuditLog>): seq<AuditLog>
  {
    if sorted == [] then [x]
    else if sorted[0].timestamp <= x.timestamp then [x] + sorted
    else [sorted[0]] + InsertNewestFirst(x, sorted[1..])
  }

  lemma {:induction false} InsertPermutes(x: AuditLog, sorted: seq<AuditLog>)
    ensures multiset(InsertNewestFirst(x, sorted)) == multiset{x} + multiset(sorted)
  {
    if sorted != [] && sorted[0].timestamp > x.timestamp {
      InsertPermutes(x, sorted[1..]);
      assert sorted == [sorted[0]] + sorted[1..];
    }
  }

  /** Putting an entry at least as new as the first one in front keeps the order. */
  lemma ConsKeepsNewestFirst(x: AuditLog, sorted: seq<AuditLog>)
    requires NewestFirst(sorted)
    requires forall k :: 0 <= k < |sorted| ==> sorted[k].timestamp <= x.timestamp
    ensures NewestFirst([x] + sorted)
  {
    var r := [x] + sorted;
    forall i, j | 0 <= i < j < |r| ensures r[i].timestamp >= r[j].timestamp {
      if i == 0 {
        assert r[j] == sorted[j - 1];
      } else {
        assert r[i] == sorted[i - 1] && r[j] == sorted[j - 1];
      }
    }
  }

  /** Every entry of the insertion is `x` or comes from `sorted`, so none is newer than both. */
  lemma InsertBounded(x: AuditLog, sorted: seq<AuditLog>, bound: nat)
    requires x.timestamp <= bound
    requires forall k :: 0 <= k < |sorted| ==> sorted[k].timestamp <= bound
    ensures forall k :: 0 <= k < |InsertNewestFirst(x, sorted)| ==> InsertNewestFirst(x, sorted)[k].timestamp <= bound
  {
    var r := InsertNewestFirst(x, sorted);
    InsertPermutes(x, sorted);
    forall k | 0 <= k < |r| ensures r[k].timestamp <= bound {
      assert r[k] in multiset(r);
      if r[k] != x {
        assert r[k] in multiset(sorted);
        var m :| 0 <= m < |sorted| && sorted[m] == r[k];
      }
    }
  }

  lemma {:induction false} InsertKeepsNewestFirst(x: AuditLog, sorted: seq<AuditLog>)
    requires NewestFirst(sorted)
    ensures NewestFirst(InsertNewestFirst(x, sorted))
  {
    if sorted == [] {
    } else if sorted[0].timestamp <= x.timestamp {
      ConsKeepsNewestFirst(x, sorted);
    } else {
      var head, rest := sorted[0], sorted[1..];
      assert NewestFirst(rest) by {
        forall i, j | 0 <= i < j < |rest| ensures rest[i].timestamp >= rest[j].timestamp {
          assert rest[i] == sorted[i + 1] && rest[j] == sorted[j + 1];
        }
      }
      forall k | 0 <= k < |rest| ensures rest[k].timestamp <= head.timestamp {
        assert rest[k] == sorted[k + 1];
      }
      InsertKeepsNewestFirst(x, rest);
      InsertBounded(x, rest, head.timestamp);
      ConsKeepsNewestFirst(head, InsertNewestFirst(x, rest));
    }
  }

  /** Inserting into a sorted permutation of `tail` gives a sorted permutation of `[x] + tail`. */
  lemma InsertIntoSorted(x: AuditLog, sorted: seq<AuditLog>, tail: seq<AuditLog>)
    requires multiset(sorted) == multiset(tail) && NewestFirst(sorted)
    ensures multiset(InsertNewestFirst(x, sorted)) == multiset([x] + tail)
    ensures NewestFirst(InsertNewestFirst(x, sorted))
  {
    InsertPermutes(x, sorted);
    InsertKeepsNewestFirst(x, sorted);
  }

  /**
    The sort of line 73 (`Array.prototype.sort` with a descending comparator,
    which is stable): an insertion sort that puts each earlier entry ahead of
    the later entries with the same timestamp.
   */
  function SortNewestFirst(s: seq<AuditLog>): (r: seq<AuditLog>)
    ensures multiset(r) == multiset(s)
    ensures NewestFirst(r)
  {
    if s == [] then []
    else
      var rest := SortNewestFirst(s[1..]);
      InsertIntoSorted(s[0], rest, s[1..]);
      assert [s[0]] + s[1..] == s;
      InsertNewestFirst(s[0], rest)
  }

  lemma {:induction false} InsertKeepsTies(x: AuditLog, sorted: seq<AuditLog>, t: nat)
    ensures Filter(InsertNewestFirst(x, sorted), AtTime(t)) ==
            (if x.timestamp == t then [x] else []) + Filter(sorted, AtTime(t))
  {
    if sorted == [] {
      FilterSingle(x, AtTime(t));
    } else if sorted[0].timestamp <= x.timestamp {
      FilterCons(x, sorted, AtTime(t));
    } else {
      var head, rest := sorted[0], sorted[1..];
      var tail := InsertNewestFirst(x, rest);
      assert InsertNewestFirst(x, sorted) == [head] + tail;
      assert sorted == [head] + rest;
      var xs: seq<AuditLog> := if x.timestamp == t then [x] else [];
      var hs: seq<AuditLog> := if head.timestamp == t then [head] else [];
      var fr := Filter(rest, AtTime(t));
      InsertKeepsTies(x, rest, t);
      assert Filter(tail, AtTime(t)) == xs + fr;
      FilterCons(head, tail, AtTime(t));
      assert Filter([head] + tail, AtTime(t)) == hs + (xs + fr);
      FilterCons(head, rest, AtTime(t));
      assert Filter(sorted, AtTime(t)) == hs + fr;
      assert hs == [] || xs == [];
      assert hs + (xs + fr) == xs + (hs + fr);
    }
  }

  /** Stability: among entries with one timestamp, the sort keeps their stored order. */
  lemma {:induction false} SortKeepsTies(s: seq<AuditLog>, t: nat)
    ensures Filter(SortNewestFirst(s), AtTime(t)) == Filter(s, AtTime(t))
  {
    if s != [] {
      SortKeepsTies(s[1..], t);
      InsertKeepsTies(s[0], SortNewestFirst(s[1..]), t);
      FilterCons(s[0], s[1..], AtTime(t));
      assert s == [s[0]] + s[1..];
    }
  }

  datatype VoteHistory = VoteHistory(votes: seq<VoteRecord>, audit: seq<AuditLog>)

  /**
    `getVoteHistory(pollId)`: exactly the records of that poll in ledger
    order, and exactly its audit entries, newest first, ties in stored order.
   */
  function GetVoteHistory(votes: seq<VoteRecord>, audit: seq<AuditLog>, pollId: string): (h: VoteHistory)
    ensures forall i :: 0 <= i < |h.votes| ==> h.votes[i].pollId == pollId && h.votes[i] in votes
    ensures forall i :: 0 <= i < |votes| && votes[i].pollId == pollId ==> votes[i] in h.votes
    ensures multiset(h.audit) == multiset(Filter(audit, AuditInPoll(pollId)))
    ensures NewestFirst(h.audit)
  {
    VoteHistory(Filter(votes, VoteInPoll(pollId)), SortNewestFirst(Filter(audit, AuditInPoll(pollId))))
  }

  /** The audit part of the history, read per timestamp, is the poll's entries in stored order. */
  lemma HistoryAuditStable(audit: seq<AuditLog>, votes: seq<VoteRecord>, pollId: string, t: nat)
    ensures Filter(GetVoteHistory(votes, audit, pollId).audit, AtTime(t)) ==
            Filter(Filter(audit, AuditInPoll(pollId)), AtTime(t))
  {
    SortKeepsTies(Filter(audit, AuditInPoll(pollId)), t);
  }
}
