/** plurality/Plurality.kt: every voter names the one candidate it likes best, and the
    candidate named most often wins.

    Utilities come from a table `u` (row v: voter v's utility for each candidate id),
    see `ElectionSim.IsTable`; a candidate list is a list of ids. A thrown exception is
    `None`. */
module Plurality {
  import opened Wrappers
  import opened ElectionSim

  /** The state of `accept`'s scan: the largest utility seen so far (starting from -1)
      and the position in the candidate list of the candidate holding it. */
  datatype Scan = Scan(maximum: real, position: Option<nat>)

  /** The scan after the first k candidates. A candidate replaces the current choice only
      when its utility is strictly greater, so the choice is the earliest maximal one. */
  function ScanPrefix(uv: seq<real>, cands: seq<nat>, k: nat): (r: Scan)
    requires k <= |cands| && AllBelow(cands, |uv|)
    ensures r.maximum >= -1.0
    ensures forall i :: 0 <= i < k ==> uv[cands[i]] <= r.maximum
    ensures r.position.None? <==> forall i :: 0 <= i < k ==> uv[cands[i]] <= -1.0
    ensures r.position.None? ==> r.maximum == -1.0
    ensures r.position.Some? ==> r.position.value < k && uv[cands[r.position.value]] == r.maximum
    ensures r.position.Some? ==> forall i :: 0 <= i < r.position.value ==> uv[cands[i]] < r.maximum
  {
    if k == 0 then Scan(-1.0, None)
    else
      var s := ScanPrefix(uv, cands, k - 1);
      if uv[cands[k - 1]] > s.maximum then Scan(uv[cands[k - 1]], Some(k - 1)) else s
  }

  /** The candidate a voter with utilities `uv` names, None where `accept` throws. */
  function Ballot(uv: seq<real>, cands: seq<nat>): (r: Option<nat>)
    requires AllBelow(cands, |uv|)
    ensures r.None? <==> forall i :: 0 <= i < |cands| ==> uv[cands[i]] <= -1.0
    ensures r.Some? ==> r.value in cands && r.value < |uv|
  {
    var s := ScanPrefix(uv, cands, |cands|);
    match s.position
    case None => None
    case Some(j) => Some(cands[j])
  }

  /** The ballot names the earliest candidate of maximal utility, provided that utility
      exceeds -1. */
  lemma BallotIsEarliestMaximal(uv: seq<real>, cands: seq<nat>)
    requires AllBelow(cands, |uv|) && Ballot(uv, cands).Some?
    ensures var c := Ballot(uv, cands).value;
      && uv[c] > -1.0
      && (forall i :: 0 <= i < |cands| ==> uv[cands[i]] <= uv[c])
      && exists j :: 0 <= j < |cands| && cands[j] == c && forall i :: 0 <= i < j ==> uv[cands[i]] < uv[c]
  {
    var s := ScanPrefix(uv, cands, |cands|);
    var j := s.position.value;
    assert cands[j] == Ballot(uv, cands).value;
  }

  /** Utilities are never negative, so a ballot fails exactly when there is no candidate. */
  lemma BallotFailsOnlyWithoutCandidates(uv: seq<real>, cands: seq<nat>)
    requires AllBelow(cands, |uv|)
    requires forall c :: 0 <= c < |uv| ==> uv[c] >= 0.0
    ensures Ballot(uv, cands).None? <==> cands == []
  {
    if cands != [] {
      assert uv[cands[0]] > -1.0;
    }
  }

  /** `PluralityVotingStrategy.accept`. */
  method Accept(uv: seq<real>, cands: seq<nat>) returns (ballot: Option<nat>)
    requires AllBelow(cands, |uv|)
    ensures ballot == Ballot(uv, cands)
  {
    var maximumUtility := -1.0;
    var outCandidate: Option<nat> := None;
    ghost var position: Option<nat> := None;
    for i := 0 to |cands|
      invariant ScanPrefix(uv, cands, i) == Scan(maximumUtility, position)
      invariant position.None? ==> outCandidate.None?
      invariant position.Some? ==> position.value < |cands| && outCandidate == Some(cands[position.value])
    {
      var utility := uv[cands[i]];
      if utility > maximumUtility {
        maximumUtility := utility;
        outCandidate := Some(cands[i]);
        position := Some(i);
      }
    }
    ballot := outCandidate;
  }

  /** `electorate.poll(VOTING_STRATEGY, cands)`: every voter's ballot in voter order, or
      None when some voter's ballot fails. */
  function Ballots(u: seq<seq<real>>, m: nat, cands: seq<nat>): (r: Option<seq<nat>>)
    requires IsTable(u, m) && AllBelow(cands, m)
    ensures r.None? <==> exists v :: 0 <= v < |u| && Ballot(u[v], cands).None?
    ensures r.Some? ==> |r.value| == |u|
    ensures r.Some? ==> forall v :: 0 <= v < |u| ==> Ballot(u[v], cands) == Some(r.value[v])
  {
    if u == [] then Some([])
    else
      var n := |u| - 1;
      assert forall v :: 0 <= v < n ==> u[..n][v] == u[v];
      match Ballots(u[..n], m, cands)
      case None => None
      case Some(votes) =>
        match Ballot(u[n], cands)
        case None => None
        case Some(c) => Some(votes + [c])
  }

  /** Every vote is for a listed candidate. */
  lemma VotesAreListed(u: seq<seq<real>>, m: nat, cands: seq<nat>)
    requires IsTable(u, m) && AllBelow(cands, m) && Ballots(u, m, cands).Some?
    ensures forall v :: 0 <= v < |u| ==> Ballots(u, m, cands).value[v] in cands
    ensures AllBelow(Ballots(u, m, cands).value, m)
  {
    var votes := Ballots(u, m, cands).value;
    forall v | 0 <= v < |u| ensures votes[v] in cands {
      assert Ballot(u[v], cands) == Some(votes[v]);
    }
  }

  /** The count multiset filled from a poll over `cands`; None where the poll fails. */
  function Count(u: seq<seq<real>>, m: nat, cands: seq<nat>): (r: Option<seq<nat>>)
    requires IsTable(u, m) && AllBelow(cands, m)
    ensures r.None? <==> Ballots(u, m, cands).None?
    ensures r.Some? ==> r.value == Tally(Ballots(u, m, cands).value, m)
  {
    match Ballots(u, m, cands)
    case None => None
    case Some(votes) =>
      VotesAreListed(u, m, cands);
      Some(Tally(votes, m))
  }

  /** The winner of a poll over `cands`: a most voted candidate, None when a ballot fails
      or no candidate received a vote. */
  function Elect(u: seq<seq<real>>, m: nat, cands: seq<nat>): Option<nat>
    requires IsTable(u, m) && AllBelow(cands, m)
  {
    match Count(u, m, cands)
    case None => None
    case Some(counts) => FindFirst(counts)
  }

  /** The winner is a listed candidate with a vote count no other candidate exceeds, the
      counts add up to the number of ballots, and electing fails exactly when there are
      no ballots or one of them fails. */
  lemma ElectedHasMostVotes(u: seq<seq<real>>, m: nat, cands: seq<nat>)
    requires IsTable(u, m) && AllBelow(cands, m)
    ensures Elect(u, m, cands).None? <==>
      |u| == 0 || exists v :: 0 <= v < |u| && Ballot(u[v], cands).None?
    ensures Ballots(u, m, cands).Some? ==>
      Sum(Tally(Ballots(u, m, cands).value, m)) == |u|
    ensures Elect(u, m, cands).Some? ==>
      var w := Elect(u, m, cands).value;
      var counts := Tally(Ballots(u, m, cands).value, m);
      && w in cands
      && forall c :: 0 <= c < m ==> counts[c] <= counts[w]
  {
    if Ballots(u, m, cands).Some? {
      var votes := Ballots(u, m, cands).value;
      VotesAreListed(u, m, cands);
      TallyTotal(votes, m);
      if |u| > 0 {
        assert Tally(votes, m)[votes[0]] > 0 by {
          assert votes[0] in multiset(votes);
        }
      }
      var w := Elect(u, m, cands);
      if w.Some? {
        CountedIsVoted(votes, m, w.value);
      }
    }
  }

  /** `electorate.poll(VOTING_STRATEGY, cands)` with the ballots cast in a loop. */
  method Poll(u: seq<seq<real>>, m: nat, cands: seq<nat>) returns (ballots: Option<seq<nat>>)
    requires IsTable(u, m) && AllBelow(cands, m)
    ensures ballots == Ballots(u, m, cands)
  {
    var votes: seq<nat> := [];
    for v := 0 to |u|
      invariant Ballots(u[..v], m, cands) == Some(votes)
    {
      var ballot := Accept(u[v], cands);
      assert u[..v + 1][..v] == u[..v];
      if ballot.None? {
        assert Ballots(u[..v + 1], m, cands).None?;
        PollFailsWithPrefix(u, m, cands, v + 1);
        return None;
      }
      votes := votes + [ballot.value];
    }
    assert u[..|u|] == u;
    ballots := Some(votes);
  }

  /** A failed ballot among the first voters fails the whole poll. */
  lemma PollFailsWithPrefix(u: seq<seq<real>>, m: nat, cands: seq<nat>, k: nat)
    requires IsTable(u, m) && AllBelow(cands, m) && k <= |u|
    requires Ballots(u[..k], m, cands).None?
    ensures Ballots(u, m, cands).None?
  {
    var v :| 0 <= v < k && Ballot(u[..k][v], cands).None?;
    assert u[..k][v] == u[v];
  }

  /** `poll` followed by `mapTo(ballotCount)` into a fresh count multiset. */
  method PollAndCount(u: seq<seq<real>>, m: nat, cands: seq<nat>) returns (ballotCount: Option<seq<nat>>)
    requires IsTable(u, m) && AllBelow(cands, m)
    ensures ballotCount == Count(u, m, cands)
  {
    var ballots := Poll(u, m, cands);
    if ballots.None? {
      return None;
    }
    VotesAreListed(u, m, cands);
    var counts := AddAll(Zeros(m), ballots.value);
    AddAllToZeros(counts, ballots.value, m);
    ballotCount := Some(counts);
  }

  /** `produceCandidate`: poll the electorate's candidates, count, take the most voted. */
  method ProduceCandidate(u: seq<seq<real>>, m: nat, cands: seq<nat>) returns (winner: Option<nat>)
    requires IsTable(u, m) && AllBelow(cands, m)
    ensures winner == Elect(u, m, cands)
  {
    var ballotCount := PollAndCount(u, m, cands);
    if ballotCount.None? {
      return None;
    }
    winner := FindFirst(ballotCount.value);
  }
}
