/**
  Derived ballot figures of a Poll: the total of rejected ballot papers and the
  number of valid ballot papers. The arithmetic follows Ruby: a missing count is
  `nil`, adding `nil` to an Integer raises, and every Integer (0 included) is
  truthy in a condition.
 */
module Ballots {
  import opened Records

  /** The outcome of evaluating a Ruby expression of Integer type. */
  datatype Eval = Int(n: int) | Nil | Raises

  /** All four rejection counts of p are recorded. */
  predicate RejectionCountsKnown(p: Poll)
  {
    p.rejectedNoOfficialMark.Some? && p.rejectedTooManyCandidates.Some? &&
    p.rejectedIdentifiableVoter.Some? && p.rejectedBlankOrUncertain.Some?
  }

  /**
    Total rejected ballot papers. Only the no-official-mark count is tested
    for nil; once it is present, a nil among the other three makes the
    addition raise.
   */
  function TotalRejectedBallots(p: Poll): (r: Eval)
    ensures r.Nil? <==> p.rejectedNoOfficialMark.None?
    ensures r.Int? <==> RejectionCountsKnown(p)
    ensures r.Raises? <==> p.rejectedNoOfficialMark.Some? && !RejectionCountsKnown(p)
  {
    match p.rejectedNoOfficialMark
    case None => Nil
    case Some(noMark) =>
      if RejectionCountsKnown(p) then
        Int(noMark + p.rejectedTooManyCandidates.value +
            p.rejectedIdentifiableVoter.value + p.rejectedBlankOrUncertain.value)
      else
        Raises
  }

  /**
    Valid ballot papers: issued minus total rejected when the total is not nil
    (a total of 0 counts as present), nil otherwise. A missing issued count
    with a present total makes the subtraction raise.
   */
  function ValidBallotPapers(p: Poll): (r: Eval)
    ensures r.Nil? <==> p.rejectedNoOfficialMark.None?
    ensures r.Int? <==> RejectionCountsKnown(p) && p.ballotPapersIssued.Some?
    ensures r.Int? ==> r.n + TotalRejectedBallots(p).n == p.ballotPapersIssued.value
  {
    match TotalRejectedBallots(p)
    case Nil => Nil
    case Raises => Raises
    case Int(total) =>
      if p.ballotPapersIssued.Some? then Int(p.ballotPapersIssued.value - total) else Raises
  }

  /** With all four counts present, the total is their sum and never a partial one. */
  lemma TotalIsSumOfReasons(p: Poll, a: int, b: int, c: int, d: int)
    requires p.rejectedNoOfficialMark == Some(a) && p.rejectedTooManyCandidates == Some(b)
    requires p.rejectedIdentifiableVoter == Some(c) && p.rejectedBlankOrUncertain == Some(d)
    ensures TotalRejectedBallots(p) == Int(a + b + c + d)
    ensures p.ballotPapersIssued.Some? ==>
      ValidBallotPapers(p) == Int(p.ballotPapersIssued.value - (a + b + c + d))
  {
  }

  /** With non-negative counts, valid ballot papers never exceed those issued. */
  lemma ValidNeverExceedsIssued(p: Poll)
    requires ValidBallotPapers(p).Int?
    requires p.rejectedNoOfficialMark.value >= 0 && p.rejectedTooManyCandidates.value >= 0
    requires p.rejectedIdentifiableVoter.value >= 0 && p.rejectedBlankOrUncertain.value >= 0
    ensures 0 <= TotalRejectedBallots(p).n
    ensures ValidBallotPapers(p).n <= p.ballotPapersIssued.value
  {
  }

  /** A total of 0 is truthy: with no rejected papers, all issued papers are valid. */
  lemma NoRejectionsKeepsIssued(p: Poll, issued: int)
    requires p.ballotPapersIssued == Some(issued)
    requires p.rejectedNoOfficialMark == Some(0) && p.rejectedTooManyCandidates == Some(0)
    requires p.rejectedIdentifiableVoter == Some(0) && p.rejectedBlankOrUncertain == Some(0)
    ensures ValidBallotPapers(p) == Int(issued)
  {
  }
}
