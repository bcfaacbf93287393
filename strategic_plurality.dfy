/** plurality/StrategicPlurality.kt: a first plurality round ranks the candidates by
    votes; a second plurality round between the two leaders decides. */
module StrategicPlurality {
  import opened Wrappers
  import opened ElectionSim
  import P = Plurality

  /** The two candidates of the second round: the first two of the ranking by
      first-round counts, None where `subList(0, 2)` throws. */
  function Finalists(first: seq<nat>): (r: Option<seq<nat>>)
    ensures r.Some? ==> |r.value| == 2 && AllBelow(r.value, |first|)
  {
    var ranking := SortedCandidateList(first);
    if |ranking| < 2 then None else Some(ranking[..2])
  }

  /** The outcome of `produceCandidate`; None where it throws. */
  function Elect(u: seq<seq<real>>, m: nat, cands: seq<nat>): Option<nat>
    requires IsTable(u, m) && AllBelow(cands, m)
  {
    match P.Count(u, m, cands)
    case None => None
    case Some(first) =>
      match Finalists(first)
      case None => None
      case Some(finalists) => P.Elect(u, m, finalists)
  }

  /** There are finalists exactly when at least two candidates received votes. */
  lemma FinalistsNeedTwoVoted(first: seq<nat>)
    ensures Finalists(first).None? <==>
      !exists a, b :: 0 <= a < b < |first| && first[a] > 0 && first[b] > 0
  {
    var ranking := SortedCandidateList(first);
    if |ranking| >= 2 {
      var a, b := ranking[0], ranking[1];
      if a < b {
        assert 0 <= a < b < |first| && first[a] > 0 && first[b] > 0;
      } else {
        assert 0 <= b < a < |first| && first[b] > 0 && first[a] > 0;
      }
    } else {
      forall c | 0 <= c < |first| && first[c] > 0 ensures |ranking| == 1 && c == ranking[0] {
        assert c in ranking;
      }
    }
  }

  /** The finalists are two distinct candidates that both received first-round votes,
      and no other candidate received more first-round votes than either of them. */
  lemma FinalistsAreTheTopTwo(first: seq<nat>)
    requires Finalists(first).Some?
    ensures var f := Finalists(first).value;
      && f[0] != f[1] && first[f[1]] > 0 && first[f[0]] >= first[f[1]]
      && forall c :: 0 <= c < |first| && c != f[0] && c != f[1] ==> first[c] <= first[f[1]]
  {
    var ranking := SortedCandidateList(first);
    forall c | 0 <= c < |first| && c != ranking[0] && c != ranking[1]
      ensures first[c] <= first[ranking[1]]
    {
      if first[c] > 0 {
        var k :| 0 <= k < |ranking| && ranking[k] == c;
      }
    }
  }

  /** The winner is one of the finalists with the most second-round votes; the second
      round counts only its own ballots. */
  lemma WinnerIsAFinalist(u: seq<seq<real>>, m: nat, cands: seq<nat>)
    requires IsTable(u, m) && AllBelow(cands, m)
    ensures Elect(u, m, cands).Some? ==>
      var f := Finalists(P.Count(u, m, cands).value).value;
      var w := Elect(u, m, cands).value;
      var second := Tally(P.Ballots(u, m, f).value, m);
      && (w == f[0] || w == f[1])
      && forall c :: 0 <= c < m ==> second[c] <= second[w]
  {
    if Elect(u, m, cands).Some? {
      SecondRoundWinner(u, m, Finalists(P.Count(u, m, cands).value).value);
    }
  }

  /** A plurality round over two candidates elects one of them with the most votes. */
  lemma SecondRoundWinner(u: seq<seq<real>>, m: nat, f: seq<nat>)
    requires IsTable(u, m) && AllBelow(f, m) && |f| == 2
    ensures P.Elect(u, m, f).Some? ==>
      var w := P.Elect(u, m, f).value;
      var second := Tally(P.Ballots(u, m, f).value, m);
      && (w == f[0] || w == f[1])
      && forall c :: 0 <= c < m ==> second[c] <= second[w]
  {
    if P.Elect(u, m, f).Some? {
      P.ElectedHasMostVotes(u, m, f);
      InPair(P.Elect(u, m, f).value, f);
    }
  }

  lemma InPair(w: nat, f: seq<nat>)
    requires |f| == 2 && w in f
    ensures w == f[0] || w == f[1]
  {
    assert f == [f[0], f[1]];
  }

  /** `produceCandidate`: count the first round, rank, clear the counts, poll again over
      the two leaders, count again and take the most voted. */
  method ProduceCandidate(u: seq<seq<real>>, m: nat, cands: seq<nat>) returns (winner: Option<nat>)
    requires IsTable(u, m) && AllBelow(cands, m)
    ensures winner == Elect(u, m, cands)
  {
    var ballotCount := P.PollAndCount(u, m, cands);
    if ballotCount.None? {
      return None;
    }
    var ranking := SortedCandidateList(ballotCount.value);
    if |ranking| < 2 {
      return None;
    }
    ballotCount := P.PollAndCount(u, m, ranking[..2]);
    if ballotCount.None? {
      return None;
    }
    winner := FindFirst(ballotCount.value);
  }
}
