/** plurality/RandomTwoPartyPlurality.kt: the same two-candidate draw and vote as
    `TwoPartyPlurality`, returning the winner as an optional value. */
module RandomTwoPartyPlurality {
  import opened Wrappers
  import opened ElectionSim
  import P = Plurality
  import T = TwoPartyPlurality

  /** `electCandidate` for the draws `i1`, `i2` of `random.nextInt(size)`. */
  method ElectCandidate(u: seq<seq<real>>, m: nat, i1: nat, i2: nat) returns (winner: Option<nat>)
    requires IsTable(u, m) && (m > 0 ==> i1 < m && i2 < m)
    ensures winner == T.Elect(u, m, i1, i2)
  {
    var drawn := T.RandomCandidates(m, i1, i2);
    if drawn.None? {
      return None;
    }
    var ballotCount := P.PollAndCount(u, m, drawn.value);
    if ballotCount.None? {
      return None;
    }
    winner := FindFirst(ballotCount.value);
  }
}
