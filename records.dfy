/**
  The records of the election results store that carry behaviour: a Poll (the
  result of one district in one election) and a Candidacy (one candidate's run
  in one district in one election). A column that the store allows to be NULL
  is an `Option`; a column declared required is a plain value.
 */
module Records {

  datatype Option<T> = None | Some(value: T)

  /** The result of one district within one election; (districtId, electionId) is its key. */
  datatype Poll = Poll(
    districtId: int,
    electionId: int,
    electorate: Option<int>,
    ballotPapersIssued: Option<int>,
    seats: int,                           // seats contested in this poll (required)
    rejectedNoOfficialMark: Option<int>,
    rejectedTooManyCandidates: Option<int>,
    rejectedIdentifiableVoter: Option<int>,
    rejectedBlankOrUncertain: Option<int>)

  /** One candidate's run in one district within one election. */
  datatype Candidacy = Candidacy(
    id: int,
    electionId: int,
    candidateId: int,
    partyId: Option<int>,
    districtId: int,
    votes: Option<int>,                   // unknown until the count is in
    address: Option<string>,
    postcode: Option<string>,
    position: Option<int>,                // 1..n once ranked
    seats: Option<int>,                   // 1 for a winner, 0 otherwise, once ranked
    labcoop: string)

  /** Candidacy c stands in poll p: same district and same election. */
  predicate InPoll(c: Candidacy, p: Poll)
  {
    c.districtId == p.districtId && c.electionId == p.electionId
  }

  /** Two polls with the same key are the same row of the store. */
  predicate SameKey(p: Poll, q: Poll)
  {
    p.districtId == q.districtId && p.electionId == q.electionId
  }
}
