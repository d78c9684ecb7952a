/**
  `Poll#set_positions` and `Election#set_positions` over the candidacy table of
  the store, an array of rows updated in place. Saving a row is the write of
  that array slot; the store's two queries (the count of pending rows and the
  rows of the poll in votes-descending order) are methods that only read it.
 */
module Ranking {
  import opened Records
  import opened RankingSpec

  /** What `set_positions` returns: `false`, or the candidacies in ranked order (as row indices). */
  datatype Outcome = ResultsPending | Ranked(order: seq<nat>)

  /** The count of rows of poll p whose votes are nil. */
  method CountPending(rows: array<Candidacy>, p: Poll) returns (n: nat)
    ensures n == |PendingRows(rows[..], p)|
  {
    n := 0;
    var i := 0;
    while i < rows.Length
      invariant 0 <= i <= rows.Length
      invariant n == |PendingRows(rows[..i], p)|
    {
      if InPoll(rows[i], p) && rows[i].votes.None? {
        assert PendingRows(rows[..i + 1], p) == PendingRows(rows[..i], p) + {i};
        n := n + 1;
      } else {
        assert PendingRows(rows[..i + 1], p) == PendingRows(rows[..i], p);
      }
      i := i + 1;
    }
    assert rows[..i] == rows[..];
  }

  /**
    The first place in order whose row has fewer than v votes (|order| if
    none has): where a row with v votes goes after the rows it ties with.
   */
  method FindInsertionPoint(rows: array<Candidacy>, order: seq<nat>, v: int) returns (k: nat)
    requires forall m :: 0 <= m < |order| ==> order[m] < rows.Length && rows[..][order[m]].votes.Some?
    ensures k <= |order|
    ensures forall m :: 0 <= m < k ==> rows[..][order[m]].votes.value >= v
    ensures k == |order| || rows[..][order[k]].votes.value < v
  {
    k := 0;
    while k < |order| && rows[order[k]].votes.value >= v
      invariant k <= |order|
      invariant forall m :: 0 <= m < k ==> rows[..][order[m]].votes.value >= v
    {
      assert rows[..][order[k]] == rows[order[k]];
      k := k + 1;
    }
  }

  /**
    The rows of poll p ordered by votes, highest first. Rows with equal votes
    come in an order the contract leaves open, as the store's does.
   */
  method SelectByVotesDesc(rows: array<Candidacy>, p: Poll) returns (order: seq<nat>)
    requires ResultsKnown(rows[..], p)
    ensures IsVotesDescOrder(rows[..], p, order)
  {
    ghost var s := rows[..];
    order := [];
    var i := 0;
    while i < rows.Length
      invariant 0 <= i <= rows.Length
      invariant IsVotesDescOrderUpTo(s, p, order, i)
    {
      assert rows[i] == s[i];
      if InPoll(rows[i], p) {
        var k := FindInsertionPoint(rows, order, rows[i].votes.value);
        InsertKeepsOrder(s, p, order, i, k);
        order := order[..k] + [i] + order[k..];
      } else {
        SkipKeepsOrder(s, p, order, i);
      }
      i := i + 1;
    }
  }

  /**
    Ranks poll p: refuses, changing nothing, while any of its candidacies has
    no votes; otherwise walks its candidacies in votes-descending order with a
    position counter from 1, writing seats and position into each row.
   */
  method SetPositions(p: Poll, rows: array<Candidacy>) returns (r: Outcome)
    modifies rows
    ensures r.ResultsPending? <==> !ResultsKnown(old(rows[..]), p)
    ensures r.ResultsPending? ==> rows[..] == old(rows[..])
    ensures r.Ranked? ==> IsVotesDescOrder(old(rows[..]), p, r.order)
    ensures r.Ranked? ==> rows[..] == Rank(old(rows[..]), r.order, p.seats)
  {
    var pending := CountPending(rows, p);
    PendingIffResultsUnknown(rows[..], p);
    if pending > 0 {
      return ResultsPending;
    }
    var ccys := SelectByVotesDesc(rows, p);
    var position := 1;
    var k := 0;
    while k < |ccys|
      invariant 0 <= k <= |ccys| && position == k + 1
      invariant rows[..] == Rank(old(rows[..]), ccys[..k], p.seats)
    {
      var ccy := rows[ccys[k]];
      if position <= p.seats {
        ccy := ccy.(seats := Some(1));
      } else {
        ccy := ccy.(seats := Some(0));
      }
      ccy := ccy.(position := Some(position));
      rows[ccys[k]] := ccy;
      assert ccys[..k + 1][..k] == ccys[..k];
      position := position + 1;
      k := k + 1;
    }
    assert ccys[..k] == ccys;
    return Ranked(ccys);
  }

  /**
    Ranks every poll of an election in turn, ignoring each outcome. A poll
    whose results are known ends up ranked along some votes-descending order
    (recorded in the ghost `orders`); the rows of every other poll, and rows of
    no listed poll, keep their values.
   */
  method SetElectionPositions(polls: seq<Poll>, rows: array<Candidacy>) returns (ghost orders: seq<seq<nat>>)
    requires DistinctKeys(polls)
    modifies rows
    ensures RankedSoFar(old(rows[..]), rows[..], polls, orders, |polls|)
  {
    orders := [];
    var j := 0;
    while j < |polls|
      invariant 0 <= j <= |polls|
      invariant RankedSoFar(old(rows[..]), rows[..], polls, orders, j)
    {
      ghost var before := rows[..];
      var r := SetPositions(polls[j], rows);
      ghost var order := if r.Ranked? then r.order else [];
      RankNextPoll(old(rows[..]), before, rows[..], polls, orders, j, order);
      orders := orders + [order];
      j := j + 1;
    }
  }
}
