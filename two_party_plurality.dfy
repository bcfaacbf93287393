/** plurality/TwoPartyPlurality.kt: two candidates are drawn at random, with
    replacement, and a plurality vote between them decides. The two draws of
    `random.nextInt(size)` are the parameters `i1` and `i2`; the electorate's candidates
    are the ids 0 .. m - 1. */
module TwoPartyPlurality {
  import opened Wrappers
  import opened ElectionSim
  import P = Plurality

  /** `getRandomCandidates`: the candidates at the two drawn indices, which may be the
      same; None where `nextInt(0)` throws on an empty candidate list. */
  function RandomCandidates(m: nat, i1: nat, i2: nat): (r: Option<seq<nat>>)
    requires m > 0 ==> i1 < m && i2 < m
    ensures r.None? <==> m == 0
    ensures r.Some? ==> r.value == [i1, i2] && AllBelow(r.value, m)
  {
    if m == 0 then None else Some([i1, i2])
  }

  /** The outcome of `produceCandidate` for the given draws; None where it throws. */
  function Elect(u: seq<seq<real>>, m: nat, i1: nat, i2: nat): Option<nat>
    requires IsTable(u, m) && (m > 0 ==> i1 < m && i2 < m)
  {
    match RandomCandidates(m, i1, i2)
    case None => None
    case Some(pair) => P.Elect(u, m, pair)
  }

  /** The winner is one of the drawn pair and no candidate has more votes; with
      non-negative utilities the election fails exactly when there are no candidates
      or no voters. */
  lemma WinnerIsDrawn(u: seq<seq<real>>, m: nat, i1: nat, i2: nat)
    requires IsTable(u, m) && (m > 0 ==> i1 < m && i2 < m)
    requires forall v, c :: 0 <= v < |u| && 0 <= c < m ==> u[v][c] >= 0.0
    ensures Elect(u, m, i1, i2).None? <==> m == 0 || |u| == 0
    ensures Elect(u, m, i1, i2).Some? ==>
      var w := Elect(u, m, i1, i2).value;
      var counts := Tally(P.Ballots(u, m, [i1, i2]).value, m);
      && (w == i1 || w == i2)
      && forall c :: 0 <= c < m ==> counts[c] <= counts[w]
  {
    if m > 0 {
      P.ElectedHasMostVotes(u, m, [i1, i2]);
      forall v | 0 <= v < |u| ensures P.Ballot(u[v], [i1, i2]).Some? {
        P.BallotFailsOnlyWithoutCandidates(u[v], [i1, i2]);
      }
    }
  }

  /** Drawing the same candidate twice: every vote goes to it and it wins. */
  lemma SameDrawWins(u: seq<seq<real>>, m: nat, i: nat)
    requires IsTable(u, m) && i < m && |u| > 0
    requires forall v, c :: 0 <= v < |u| && 0 <= c < m ==> u[v][c] >= 0.0
    ensures Elect(u, m, i, i) == Some(i)
  {
    WinnerIsDrawn(u, m, i, i);
  }

  /** `produceCandidate`. */
  method ProduceCandidate(u: seq<seq<real>>, m: nat, i1: nat, i2: nat) returns (winner: Option<nat>)
    requires IsTable(u, m) && (m > 0 ==> i1 < m && i2 < m)
    ensures winner == Elect(u, m, i1, i2)
  {
    if m == 0 {
      return None;
    }
    var pair := [i1, i2];
    var ballotCount := P.PollAndCount(u, m, pair);
    if ballotCount.None? {
      return None;
    }
    winner := FindFirst(ballotCount.value);
  }
}
