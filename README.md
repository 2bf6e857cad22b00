# LivePoll voting core in Dafny

This project models the voting core of LivePoll Pro. LivePoll is a polling app that enforces one vote per IP address. A moderator can release an IP, after which it may vote again.

- **Backend object.** The mock backend holds three collections: the poll catalog, the vote ledger and the audit log.
- **Writes.** `castVote` checks that the poll exists. It refuses an IP that already holds an unreleased vote on that poll. Otherwise it appends a vote record and a `VOTE` or `REVOTE` audit entry. `releaseIp` marks the first unreleased record of a (poll, IP) pair as released and logs a `RELEASE` entry.
- **Reads.** `getPolls` recounts every option from the unreleased records. `getVoteHistory` returns one poll's records, plus its audit entries sorted newest first.
- **Moderation view.** It lists the distinct IPs of a poll's history. Each IP is shown as "Locked" when its latest vote is unreleased, and the "Release IP" action is offered only then.

Modules:

- `Seqs` (seqs.dfy): `Filter` and `FindIndex`, the models of `Array.prototype.filter` and `find`/`findIndex`, and the algebra of `Filter`.
- `Types` (types.dfy): the records of types.ts. Timestamps are milliseconds (`nat`). Audit details are a datatype rather than formatted text.
- `Ledger` (ledger.dfy): the active/released lookups and the lock invariant. `ActiveIsLatest` says an unreleased record is the last record of its (poll, IP). It implies `AtMostOneActive`, the one-lock-per-pair rule. The module holds the lemmas that both writes keep the invariant.
- `Backend` (backend.dfy): the class `MockBackend`, with `polls`, `votes` and `audit` as sequence fields. Its methods are `CastVote` and `ReleaseIp` (which change the fields) and `GetPolls` and `GetVoteHistory` (which only read them).
- `Projection` (projection.dfy): the recount of `getPolls`. Each count is shown to equal an independent tally over ledger positions. The sum of the counts is bounded.
- `History` (history.dfy): the poll filter of `getVoteHistory` and a stable newest-first insertion sort. The sort is proved to be a sorted permutation that keeps entries with equal timestamps in their stored order.
- `AdminStatus` (admin_status.dfy): the per-IP status of components/AdminPanel.tsx, and its agreement with the backend's lock.
- `Scenario` (scenario.dfy): a concrete cycle on the seeded catalog: vote, refused repeat, release, revote, then two refusals. It also shows the counts and the status this leaves.

The clock (`new Date()`), the id generators (`Date.now()`, `Math.random()`) and storage are not modelled as effects:
- Each write takes `now`, `voteId` and `auditId` as parameters.
- The object's fields stand for the three storage keys.

## Model

| member | source | states |
|---|---|---|
| Seqs.Filter | services/mockBackend.ts:58 | `Array.prototype.filter`: every element returned is from the input and satisfies the test, every input element that satisfies it is returned, and no more elements come back than went in |
| Seqs.FilterAppend | services/mockBackend.ts:72 | filtering distributes over concatenation, so with `FilterSingle` the kept elements are exactly the satisfying ones, in input order and with their multiplicity |
| Seqs.FilterSingle | components/AdminPanel.tsx:87 | a one-element sequence keeps its element exactly when the element satisfies the test |
| Seqs.FindIndex | services/mockBackend.ts:143-144 | `None` (the source's `-1`) exactly when no element satisfies the test; otherwise the first index that does |
| Backend.FindPoll | services/mockBackend.ts:87-88 | no poll exactly when no catalog entry has the id; otherwise the first catalog entry with that id |
| Backend.OptionText | services/mockBackend.ts:117-119 | `None` (the `?.text` of a missing option) exactly when the poll has no option with the id; otherwise the text of the first option with that id |
| Backend.InitialPolls | services/mockBackend.ts:9-34 | the seed catalog is `poll_1` then `poll_2` |
| Backend.MockBackend.constructor | services/mockBackend.ts:82-84 | empty storage: the catalog is the given seed, ledger and audit log are empty, and the lock invariant holds |
| Backend.MockBackend.GetPolls | services/mockBackend.ts:51-65 | changes nothing; returns the projection `Projection.Results`, so every poll field and option id and text is kept, in order, and each count equal to the number of ledger positions holding an unreleased record of that poll and option |
| Backend.MockBackend.GetVoteHistory | services/mockBackend.ts:67-75 | changes nothing; returns the history of `History.GetVoteHistory`, whose audit part, read per timestamp, is the poll's entries in logged order |
| Backend.MockBackend.CastVote | services/mockBackend.ts:79-132 | unknown poll: `PollNotFound`, nothing changes; active vote for (poll, IP): `AlreadyVoted`, nothing changes; otherwise success, exactly one unreleased record with the given poll, option and IP appended, earlier records untouched, one audit entry appended, `REVOTE` iff a released record of the pair existed, with the option's text or none; the catalog never changes; keeps the lock invariant and, when `now` is newer than every stored record, increasing timestamps; after success the pair is locked |
| Backend.MockBackend.ReleaseIp | services/mockBackend.ts:136-165 | fails iff the pair holds no unreleased record, then `NoActiveVote` and nothing changes; otherwise only the first unreleased record of the pair has `isReleased` set, every other field and record unchanged, and one `RELEASE` entry naming that record's id is appended; keeps the lock invariant and increasing timestamps; under the invariant the pair is unlocked afterwards with a released record, so the next vote is a revote |
| Ledger.FirstActiveFindsLock | services/mockBackend.ts:92-96 | the lookup `castVote` and `releaseIp` share finds a record exactly when the pair holds an unreleased record |
| Ledger.FirstReleasedFindsHistory | services/mockBackend.ts:99-100 | the revote lookup finds a record exactly when the pair has a released record |
| Ledger.ActiveIsLatestGivesLock | services/mockBackend.ts:92-96 | the maintained invariant implies at most one unreleased record per (poll, IP) |
| Ledger.CastKeepsInvariant | services/mockBackend.ts:92-112 | appending an unreleased record for an unlocked pair keeps the invariant and locks the pair |
| Ledger.ReleaseKeepsInvariant | services/mockBackend.ts:150 | releasing any record keeps the invariant |
| Ledger.ReleaseUnlocks | services/mockBackend.ts:143-150 | with at most one lock per pair, releasing the pair's active record leaves no active record and a released one |
| Ledger.AppendKeepsIncreasing | services/mockBackend.ts:108-112 | appending a record newer than all stored ones keeps timestamps strictly increasing |
| Ledger.ReleaseKeepsIncreasing | services/mockBackend.ts:150 | a release changes no timestamp order |
| Projection.CountOptions | services/mockBackend.ts:59-62 | one option per option, in order, with id and text kept |
| Projection.ProjectPoll | services/mockBackend.ts:57-63 | the poll's id, question, activity and creation time kept, options kept in order with id and text |
| Projection.Results | services/mockBackend.ts:57-64 | one poll per catalog entry in order, all fields but the counts kept, options in order |
| Projection.FilteredCountIsTally | services/mockBackend.ts:58-61 | the two filters of the recount select as many records as there are ledger positions with an unreleased record of the poll and option |
| Projection.ResultsCountActiveVotes | services/mockBackend.ts:57-64 | every returned count equals that tally |
| Projection.SumOfCounts | services/mockBackend.ts:59-62 | with distinct option ids, the counts add up to the records naming one of the options |
| Projection.ResultsSumOfCounts | services/mockBackend.ts:57-64 | with distinct option ids, a poll's counts add up to at most its unreleased records, and to exactly that many when every such record names one of its options |
| History.SortNewestFirst | services/mockBackend.ts:73 | the sort returns a permutation of its input with non-increasing timestamps |
| History.SortKeepsTies | services/mockBackend.ts:73 | the sort is stable: the entries with one timestamp keep their input order |
| History.GetVoteHistory | services/mockBackend.ts:71-74 | exactly the records of the poll (each from the ledger, none missed), and a newest-first permutation of the poll's audit entries |
| History.HistoryAuditStable | services/mockBackend.ts:73 | the history's audit entries of one timestamp are the poll's entries of that timestamp in logged order |
| AdminStatus.UniqueIps | components/AdminPanel.tsx:43 | every IP of the history appears, each exactly once, and each has a record |
| AdminStatus.UniqueIpsInFirstSeenOrder | components/AdminPanel.tsx:43 | the IPs come in the order of their first appearance |
| AdminStatus.UniqueIpHasVotes | components/AdminPanel.tsx:87-90 | an IP of the list has at least one record, so `ipVotes[0]` exists |
| AdminStatus.LatestIndex | components/AdminPanel.tsx:89-90 | the picked record has the greatest timestamp of the IP's records, and every record before it is strictly older, which is what the stable descending sort puts first |
| AdminStatus.IpRowOf | components/AdminPanel.tsx:87-116 | the row's status is that of the IP's record at `LatestIndex`, the first one stored with the greatest timestamp, as the stable sort picks; its time is the greatest timestamp; "Locked" iff that record is unreleased; the release action iff locked |
| AdminStatus.IpTable | components/AdminPanel.tsx:86-91 | one row per distinct IP, in the list's order |
| AdminStatus.LatestIsLast | components/AdminPanel.tsx:89-90 | with strictly increasing timestamps the latest record is the last stored one |
| AdminStatus.RowLockedIffActive | components/AdminPanel.tsx:86-91 | under the invariant and increasing timestamps, an IP's row over the poll's records is "Locked" iff the ledger holds its lock on the poll |
| AdminStatus.LockedIffActiveVote | components/AdminPanel.tsx:86-116 | for an IP listed from `getVoteHistory`, "Locked" and the release action each hold iff `castVote` would refuse the IP (and `releaseIp` would succeed) |
| AdminStatus.TiedTimestampsHideLock | components/AdminPanel.tsx:89-91 | a ledger that keeps the invariant but has a tie shows a locked IP as released |
| Scenario.VoteTwice | services/mockBackend.ts:92-96 | a first vote succeeds and its immediate repeat is refused with `AlreadyVoted` |
| Scenario.ReleaseOnce | services/mockBackend.ts:143-161 | the release keeps the record, marks it released and logs its id |
| Scenario.RevoteOnce | services/mockBackend.ts:99-128 | after a release the same IP's vote succeeds and is logged as `REVOTE` |
| Scenario.Refusals | services/mockBackend.ts:87-88 | an unknown poll and an IP without a vote are refused and nothing changes |
| Scenario.LockCycle | services/mockBackend.ts:79-165 | the whole cycle: outcomes, the audit actions `VOTE, RELEASE, REVOTE`, and the final ledger |
| Scenario.CycleResults | services/mockBackend.ts:57-64 | after the cycle the poll counts one vote, for the revoted option only |
| Scenario.CycleStatus | components/AdminPanel.tsx:86-91 | after the cycle the IP is shown "Locked" with the revote's time |

## Left out

- Storage, JSON and delays: `localStorage`, JSON (de)serialisation and the `delay` promises are not modelled. The three fields stand for the three keys, and each operation is one atomic step. Storage that is empty or missing is the constructor's initial state. Interleaving of the asynchronous calls is not modelled.
- Clock and ids: `new Date()`, `Date.now()` and `Math.random()` are parameters (`now`, `voteId`, `auditId`). No uniqueness of ids is claimed: `audit_${Date.now()}` can collide.
- Timestamps: the source stores ISO-8601 strings and sorts them by `getTime()`. They are modelled as millisecond `nat`s, i.e. for well-formed timestamps only.
- Backend.MockBackend.CastVote: the record and its audit entry get one shared `now`, while the source calls `new Date()` twice (lines 108 and 127).
- Backend.MockBackend.CastVote: `optionId` is not checked against the poll, as in the source. A missing option's text is `None`, where the source formats `undefined` into the details.
- Message strings: results are `Success` or `Failure` with a reason code, and audit details are a datatype. The exact message and details texts are not modelled.
- Backend.MockBackend.ReleaseIp: like the code, it releases the first unreleased record of the pair. There is no fault result for a pair with several unreleased records. Under the invariant `CastVote` and `ReleaseIp` keep, there is only one.
- Backend.MockBackend.CastVote: the methods do not require the lock invariant `Valid()`, because the source runs on whatever storage holds. They ensure instead that it is kept if it held.
- AdminStatus.LockedIffActiveVote: assumes the ledger invariant and strictly increasing timestamps. `TiedTimestampsHideLock` shows that with two records in the same millisecond the view shows a locked IP as released.
- The catalog is only read by the source (no operation writes `livepoll_polls`), so `polls` never changes.
- components/AdminPanel.tsx: the refresh interval, the feedback timeout, the audit-trail rendering and all JSX are not modelled. Only the per-IP status and the release button's condition are.
- App.tsx, components/PollList.tsx and the `UserRole`/`UserSession` types are not part of this model. They are UI, session and rendering code with no part in the voting rules.
