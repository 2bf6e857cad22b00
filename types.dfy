/**
  The records the voting core stores and returns. Identifiers and texts are
  strings; timestamps are milliseconds since the epoch, the value that
  `new Date(timestamp).getTime()` yields for the stored ISO strings.
 */
module Types {

  import opened Seqs

  datatype PollOption = PollOption(id: string, text: string, votes: nat)

  datatype Poll = Poll(
    id: string,
    question: string,
    options: seq<PollOption>,
    isActive: bool,
    createdAt: string)

  /** One ballot. Only `isReleased` ever changes after it is stored. */
  datatype VoteRecord = VoteRecord(
    id: string,
    pollId: string,
    optionId: string,
    ipAddress: string,
    timestamp: nat,
    isReleased: bool)

  datatype Action = VOTE | RELEASE | REVOTE

  /**
    The `details` text of an audit entry, kept as the data it is built from.
    The option text is `None` where the option lookup of the cast finds no
    option with the given id (the text then reads "undefined").
   */
  datatype Details =
    | VotedFor(optionText: Option<string>)
    | Revoted(newOptionText: Option<string>)
    | ReleasedVote(previousVoteId: string)

  datatype AuditLog = AuditLog(
    id: string,
    action: Action,
    pollId: string,
    ipAddress: string,
    details: Details,
    timestamp: nat)
}
