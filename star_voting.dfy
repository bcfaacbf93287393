/** range/StarVoting.kt, score then automatic runoff: the range ballots' totals pick two
    finalists, and each ballot then counts once for the finalist it marks higher. */
module StarVoting {
  import opened Wrappers
  import opened ElectionSim
  import R = RangeVoting
  import S = StrategicPlurality

  /** The number of ballots marking `a` strictly higher than `b`. */
  function Prefers(ballots: seq<seq<nat>>, m: nat, a: nat, b: nat): nat
    requires R.ValidBallots(ballots, m) && a < m && b < m
  {
    if ballots == [] then 0
    else
      var n := |ballots| - 1;
      Prefers(ballots[..n], m, a, b) + if ballots[n][a] > ballots[n][b] then 1 else 0
  }

  /** The number of ballots marking `a` and `b` equally. */
  function Ties(ballots: seq<seq<nat>>, m: nat, a: nat, b: nat): nat
    requires R.ValidBallots(ballots, m) && a < m && b < m
  {
    if ballots == [] then 0
    else
      var n := |ballots| - 1;
      Ties(ballots[..n], m, a, b) + if ballots[n][a] == ballots[n][b] then 1 else 0
  }

  /** Every ballot prefers one finalist or ties them. */
  lemma {:induction false} PreferencesPartitionBallots(ballots: seq<seq<nat>>, m: nat, a: nat, b: nat)
    requires R.ValidBallots(ballots, m) && a < m && b < m
    ensures Prefers(ballots, m, a, b) + Prefers(ballots, m, b, a) + Ties(ballots, m, a, b) == |ballots|
  {
    if ballots != [] {
      PreferencesPartitionBallots(ballots[..|ballots| - 1], m, a, b);
    }
  }

  /** The runoff count multiset after the seeding and the first ballots: each finalist
      starts at 1, and a ballot adds 1 to the finalist it marks strictly higher. */
  function Runoff(ballots: seq<seq<nat>>, m: nat, c1: nat, c2: nat): (r: seq<nat>)
    requires R.ValidBallots(ballots, m) && c1 < m && c2 < m
    ensures |r| == m
  {
    if ballots == [] then
      var seeded := Zeros(m)[c1 := 1];
      seeded[c2 := seeded[c2] + 1]
    else
      var n := |ballots| - 1;
      var prev := Runoff(ballots[..n], m, c1, c2);
      var preference1 := ballots[n][c1];
      var preference2 := ballots[n][c2];
      if preference1 > preference2 then prev[c1 := prev[c1] + 1]
      else if preference2 > preference1 then prev[c2 := prev[c2] + 1]
      else prev
  }

  /** Each finalist's runoff count is 1 plus the number of ballots preferring it, and no
      other candidate is counted. */
  lemma {:induction false} RunoffCounts(ballots: seq<seq<nat>>, m: nat, c1: nat, c2: nat)
    requires R.ValidBallots(ballots, m) && c1 < m && c2 < m && c1 != c2
    ensures Runoff(ballots, m, c1, c2)[c1] == 1 + Prefers(ballots, m, c1, c2)
    ensures Runoff(ballots, m, c1, c2)[c2] == 1 + Prefers(ballots, m, c2, c1)
    ensures forall c :: 0 <= c < m && c != c1 && c != c2 ==> Runoff(ballots, m, c1, c2)[c] == 0
  {
    if ballots != [] {
      RunoffCounts(ballots[..|ballots| - 1], m, c1, c2);
    }
  }

  /** The runoff counts add up to the two seeds plus the ballots with a strict preference. */
  lemma RunoffTotal(ballots: seq<seq<nat>>, m: nat, c1: nat, c2: nat)
    requires R.ValidBallots(ballots, m) && c1 < m && c2 < m && c1 != c2
    ensures Runoff(ballots, m, c1, c2)[c1] + Runoff(ballots, m, c1, c2)[c2]
      == 2 + |ballots| - Ties(ballots, m, c1, c2)
  {
    RunoffCounts(ballots, m, c1, c2);
    PreferencesPartitionBallots(ballots, m, c1, c2);
  }

  /** The outcome of `electCandidate` under a scoring rule for the range ballots; None where a ballot fails or fewer than two
      candidates have a positive total (`candidates[1]` throws). */
  function Elect(u: seq<seq<real>>, m: nat, cands: seq<nat>, score: real -> int): Option<nat>
    requires IsTable(u, m) && AllBelow(cands, m)
  {
    match R.Ballots(u, m, cands, score)
    case None => None
    case Some(ballots) =>
      R.BallotsAreValid(u, m, cands, score);
      match S.Finalists(R.Totals(ballots, m))
      case None => None
      case Some(f) => FindFirst(Runoff(ballots, m, f[0], f[1]))
  }

  /** STAR fails exactly where a ballot fails or fewer than two candidates have a
      positive total; otherwise the winner is a finalist that at least as many ballots
      prefer to the other finalist as the other way round, whatever the scoring rule. */
  lemma WinnerIsThePreferredFinalist(u: seq<seq<real>>, m: nat, cands: seq<nat>, score: real -> int)
    requires IsTable(u, m) && AllBelow(cands, m)
    ensures Elect(u, m, cands, score).None? <==>
      R.Ballots(u, m, cands, score).None? ||
      (R.BallotsAreValid(u, m, cands, score);
       S.Finalists(R.Totals(R.Ballots(u, m, cands, score).value, m)).None?)
    ensures Elect(u, m, cands, score).Some? ==>
      var ballots := R.Ballots(u, m, cands, score).value;
      R.ValidBallots(ballots, m) &&
      var f := S.Finalists(R.Totals(ballots, m)).value;
      var w := Elect(u, m, cands, score).value;
      var other := if w == f[0] then f[1] else f[0];
      && (w == f[0] || w == f[1])
      && Prefers(ballots, m, w, other) >= Prefers(ballots, m, other, w)
  {
    if R.Ballots(u, m, cands, score).Some? {
      var ballots := R.Ballots(u, m, cands, score).value;
      R.BallotsAreValid(u, m, cands, score);
      var first := R.Totals(ballots, m);
      if S.Finalists(first).Some? {
        var f := S.Finalists(first).value;
        S.FinalistsAreTheTopTwo(first);
        RunoffCounts(ballots, m, f[0], f[1]);
        var runoff := Runoff(ballots, m, f[0], f[1]);
        assert runoff[f[0]] > 0;
      }
    }
  }

  /** As written, STAR fails like range voting: a voter with utility exactly 1 for a
      listed candidate fails the poll, so `electCandidate` throws. */
  lemma ElectAsWrittenFailsOnFullUtility(u: seq<seq<real>>, m: nat, cands: seq<nat>, v: nat, i: nat)
    requires IsTable(u, m) && AllBelow(cands, m) && Distinct(cands) && v < |u| && i < |cands|
    requires forall j :: 0 <= j < |cands| ==> 0.0 <= u[v][cands[j]] <= 1.0
    requires u[v][cands[i]] == 1.0
    ensures Elect(u, m, cands, R.ScoreAsWritten).None?
  {
    R.PollAsWrittenFailsOnFullUtility(u, m, cands, v, i);
  }

  /** One ballot of the runoff `forEach`. */
  method Prefer(ballotCount: seq<nat>, marks: seq<nat>, c1: nat, c2: nat) returns (r: seq<nat>)
    requires c1 < |ballotCount| && c2 < |ballotCount| && c1 < |marks| && c2 < |marks|
    ensures r == if marks[c1] > marks[c2] then ballotCount[c1 := ballotCount[c1] + 1]
      else if marks[c2] > marks[c1] then ballotCount[c2 := ballotCount[c2] + 1]
      else ballotCount
  {
    var preference1 := marks[c1];
    var preference2 := marks[c2];
    r := ballotCount;
    if preference1 > preference2 {
      r := r[c1 := r[c1] + 1];
    } else if preference2 > preference1 {
      r := r[c2 := r[c2] + 1];
    }
  }

  /** The seeded runoff over all ballots. */
  method CountRunoff(ballots: seq<seq<nat>>, m: nat, c1: nat, c2: nat) returns (ballotCount: seq<nat>)
    requires R.ValidBallots(ballots, m) && c1 < m && c2 < m
    ensures ballotCount == Runoff(ballots, m, c1, c2)
  {
    ballotCount := Zeros(m);
    ballotCount := ballotCount[c1 := ballotCount[c1] + 1];
    ballotCount := ballotCount[c2 := ballotCount[c2] + 1];
    for v := 0 to |ballots|
      invariant ballotCount == Runoff(ballots[..v], m, c1, c2)
    {
      assert ballots[..v + 1][..v] == ballots[..v];
      ballotCount := Prefer(ballotCount, ballots[v], c1, c2);
    }
    assert ballots[..|ballots|] == ballots;
  }

  /** `electCandidate`: sum the range ballots (marks as written), rank, clear, seed and
      run off. */
  method ElectCandidate(u: seq<seq<real>>, m: nat, cands: seq<nat>) returns (winner: Option<nat>)
    requires IsTable(u, m) && AllBelow(cands, m)
    ensures winner == Elect(u, m, cands, R.ScoreAsWritten)
  {
    var ballots := R.Poll(u, m, cands);
    if ballots.None? {
      return None;
    }
    R.BallotsAreValid(u, m, cands, R.ScoreAsWritten);
    var ballotCount := R.SumBallots(ballots.value, m);
    var candidates := SortedCandidateList(ballotCount);
    if |candidates| < 2 {
      return None;
    }
    var candidate1 := candidates[0];
    var candidate2 := candidates[1];
    ballotCount := CountRunoff(ballots.value, m, candidate1, candidate2);
    winner := FindFirst(ballotCount);
  }
}
