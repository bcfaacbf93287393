/** approval/ApprovalVoting.kt: every voter approves the candidates whose utility is above
    its threshold, and the candidate with the most approvals wins. Three strategies set
    the threshold: a fixed one, a random draw per ballot, and the voter's mean utility. */
module ApprovalVoting {
  import opened Wrappers
  import opened ElectionSim

  /** `ApprovalBallot`: for each candidate id, whether the voter approves it. */
  type ApprovalMap = map<nat, bool>

  /** `internalAccept`: one entry per listed candidate, true when the utility is strictly
      above the threshold; None where `ImmutableMap.Builder.build` throws on a
      candidate listed twice. */
  function ApprovalBallot(uv: seq<real>, cands: seq<nat>, threshold: real): (r: Option<ApprovalMap>)
    requires AllBelow(cands, |uv|)
    ensures r.None? <==> !Distinct(cands)
    ensures r.Some? ==> r.value.Keys == set i | 0 <= i < |cands| :: cands[i]
    ensures r.Some? ==> forall c :: c in r.value ==> (r.value[c] <==> uv[c] > threshold)
  {
    if Distinct(cands) then Some(map c | c in cands :: uv[c] > threshold) else None
  }

  /** The loop of `internalAccept` putting one entry per candidate into the builder. */
  method InternalAccept(uv: seq<real>, cands: seq<nat>, threshold: real) returns (ballot: Option<ApprovalMap>)
    requires AllBelow(cands, |uv|)
    ensures ballot == ApprovalBallot(uv, cands, threshold)
  {
    var mapBuilder: ApprovalMap := map[];
    for i := 0 to |cands|
      invariant Distinct(cands[..i])
      invariant mapBuilder == map c | c in cands[..i] :: uv[c] > threshold
    {
      var c := cands[i];
      if c in mapBuilder {
        var j :| 0 <= j < i && cands[..i][j] == c;
        assert cands[j] == cands[i];
        return None;
      }
      assert cands[..i + 1] == cands[..i] + [c];
      mapBuilder := mapBuilder[c := uv[c] > threshold];
    }
    assert cands[..|cands|] == cands;
    ballot := Some(mapBuilder);
  }

  /** Σ uv[c] over the listed candidates. */
  function SumOver(uv: seq<real>, cands: seq<nat>): real
    requires AllBelow(cands, |uv|)
  {
    if cands == [] then 0.0 else SumOver(uv, cands[..|cands| - 1]) + uv[cands[|cands| - 1]]
  }

  /** The mean utility over the candidates (the average collector is not part of this
      model; with no candidate the ballot is empty whatever the threshold, so 0 stands
      in for it). */
  function MeanUtility(uv: seq<real>, cands: seq<nat>): real
    requires AllBelow(cands, |uv|)
  {
    if cands == [] then 0.0 else SumOver(uv, cands) / |cands| as real
  }

  /** The three strategies; a random threshold is a draw per voter, made by the caller. */
  datatype Strategy = Threshold(threshold: real) | RandomThreshold(draws: seq<real>) | MeanThreshold

  /** The threshold voter `v` uses. */
  function ThresholdOf(strategy: Strategy, v: nat, uv: seq<real>, cands: seq<nat>): real
    requires AllBelow(cands, |uv|)
    requires strategy.RandomThreshold? ==> v < |strategy.draws|
  {
    match strategy
    case Threshold(t) => t
    case RandomThreshold(draws) => draws[v]
    case MeanThreshold => MeanUtility(uv, cands)
  }

  lemma {:induction false} SumOverAtLeast(uv: seq<real>, cands: seq<nat>, lo: real)
    requires AllBelow(cands, |uv|)
    requires forall i :: 0 <= i < |cands| ==> lo <= uv[cands[i]]
    ensures |cands| as real * lo <= SumOver(uv, cands)
  {
    if cands != [] {
      var n := |cands| - 1;
      SumOverAtLeast(uv, cands[..n], lo);
      assert |cands| as real * lo == n as real * lo + lo;
    }
  }

  lemma {:induction false} SumOverAtMost(uv: seq<real>, cands: seq<nat>, hi: real)
    requires AllBelow(cands, |uv|)
    requires forall i :: 0 <= i < |cands| ==> uv[cands[i]] <= hi
    ensures SumOver(uv, cands) <= |cands| as real * hi
  {
    if cands != [] {
      var n := |cands| - 1;
      SumOverAtMost(uv, cands[..n], hi);
      assert |cands| as real * hi == n as real * hi + hi;
    }
  }

  /** The mean utility lies between the smallest and the largest utility. */
  lemma MeanBetween(uv: seq<real>, cands: seq<nat>)
    requires AllBelow(cands, |uv|) && cands != []
    ensures uv[cands[MinIndex(uv, cands)]] <= MeanUtility(uv, cands) <= uv[cands[MaxIndex(uv, cands)]]
  {
    var lo := uv[cands[MinIndex(uv, cands)]];
    var hi := uv[cands[MaxIndex(uv, cands)]];
    SumOverAtLeast(uv, cands, lo);
    SumOverAtMost(uv, cands, hi);
    DivideBounds(SumOver(uv, cands), |cands| as real, lo, hi);
  }

  /** The mean utility is strictly below a bound on the utilities that some utility is
      strictly below. */
  lemma MeanBelowTop(uv: seq<real>, cands: seq<nat>, k: nat, top: real)
    requires AllBelow(cands, |uv|) && k < |cands|
    requires forall i :: 0 <= i < |cands| ==> uv[cands[i]] <= top
    requires uv[cands[k]] < top
    ensures MeanUtility(uv, cands) < top
  {
    SumBelowWithOneLower(uv, cands, k, top);
    DivideBelow(SumOver(uv, cands), |cands| as real, top);
  }

  /** The mean threshold lies between the voter's smallest and largest utility, so a
      voter using it disapproves some candidate, and approves some candidate exactly
      when its utilities differ. */
  lemma MeanApprovesSomeButNotAll(uv: seq<real>, cands: seq<nat>)
    requires AllBelow(cands, |uv|) && Distinct(cands) && cands != []
    ensures var b := ApprovalBallot(uv, cands, MeanUtility(uv, cands)).value;
      && (exists i :: 0 <= i < |cands| && !b[cands[i]])
      && ((exists i :: 0 <= i < |cands| && b[cands[i]]) <==>
          exists i, j :: 0 <= i < |cands| && 0 <= j < |cands| && uv[cands[i]] != uv[cands[j]])
  {
    var mean := MeanUtility(uv, cands);
    var b := ApprovalBallot(uv, cands, mean).value;
    var lo := MinIndex(uv, cands);
    var hi := MaxIndex(uv, cands);
    MeanBetween(uv, cands);
    assert cands[lo] in b && !b[cands[lo]];
    if exists i, j :: 0 <= i < |cands| && 0 <= j < |cands| && uv[cands[i]] != uv[cands[j]] {
      var i, j :| 0 <= i < |cands| && 0 <= j < |cands| && uv[cands[i]] != uv[cands[j]];
      var k := if uv[cands[i]] < uv[cands[hi]] then i else j;
      MeanBelowTop(uv, cands, k, uv[cands[hi]]);
      assert cands[hi] in b && b[cands[hi]];
    }
    if exists i :: 0 <= i < |cands| && b[cands[i]] {
      var i :| 0 <= i < |cands| && b[cands[i]];
      assert uv[cands[i]] != uv[cands[lo]];
    }
  }

  lemma {:induction false} SumBelowWithOneLower(uv: seq<real>, cands: seq<nat>, k: nat, top: real)
    requires AllBelow(cands, |uv|) && k < |cands|
    requires forall i :: 0 <= i < |cands| ==> uv[cands[i]] <= top
    requires uv[cands[k]] < top
    ensures SumOver(uv, cands) < |cands| as real * top
  {
    var n := |cands| - 1;
    assert |cands| as real * top == n as real * top + top;
    if k == n {
      SumOverAtMost(uv, cands[..n], top);
    } else {
      SumBelowWithOneLower(uv, cands[..n], k, top);
    }
  }

  lemma DivideBounds(s: real, n: real, lo: real, hi: real)
    requires n > 0.0 && n * lo <= s <= n * hi
    ensures lo <= s / n <= hi
  {
  }

  lemma DivideBelow(s: real, n: real, top: real)
    requires n > 0.0 && s < n * top
    ensures s / n < top
  {
  }

  /** The position of a smallest utility among the candidates. */
  function MinIndex(uv: seq<real>, cands: seq<nat>): (r: nat)
    requires AllBelow(cands, |uv|) && cands != []
    ensures r < |cands| && forall i :: 0 <= i < |cands| ==> uv[cands[r]] <= uv[cands[i]]
  {
    if |cands| == 1 then 0
    else
      var r := MinIndex(uv, cands[..|cands| - 1]);
      assert forall i :: 0 <= i < |cands| - 1 ==> cands[..|cands| - 1][i] == cands[i];
      if uv[cands[|cands| - 1]] < uv[cands[r]] then |cands| - 1 else r
  }

  /** The position of a largest utility among the candidates. */
  function MaxIndex(uv: seq<real>, cands: seq<nat>): (r: nat)
    requires AllBelow(cands, |uv|) && cands != []
    ensures r < |cands| && forall i :: 0 <= i < |cands| ==> uv[cands[i]] <= uv[cands[r]]
  {
    if |cands| == 1 then 0
    else
      var r := MaxIndex(uv, cands[..|cands| - 1]);
      assert forall i :: 0 <= i < |cands| - 1 ==> cands[..|cands| - 1][i] == cands[i];
      if uv[cands[|cands| - 1]] > uv[cands[r]] then |cands| - 1 else r
  }

  /** `electorate.poll(strategy)`: every voter's ballot, None when one fails. */
  function Ballots(u: seq<seq<real>>, m: nat, cands: seq<nat>, strategy: Strategy): (r: Option<seq<ApprovalMap>>)
    requires IsTable(u, m) && AllBelow(cands, m)
    requires strategy.RandomThreshold? ==> |u| <= |strategy.draws|
    ensures r.None? <==> |u| > 0 && !Distinct(cands)
    ensures r.Some? ==> |r.value| == |u| && forall v :: 0 <= v < |u| ==>
      Some(r.value[v]) == ApprovalBallot(u[v], cands, ThresholdOf(strategy, v, u[v], cands))
  {
    if u == [] then Some([])
    else
      var n := |u| - 1;
      assert forall v :: 0 <= v < n ==> u[..n][v] == u[v];
      match Ballots(u[..n], m, cands, strategy)
      case None => None
      case Some(ballots) =>
        match ApprovalBallot(u[n], cands, ThresholdOf(strategy, n, u[n], cands))
        case None => None
        case Some(b) => Some(ballots + [b])
  }

  method Poll(u: seq<seq<real>>, m: nat, cands: seq<nat>, strategy: Strategy) returns (ballots: Option<seq<ApprovalMap>>)
    requires IsTable(u, m) && AllBelow(cands, m)
    requires strategy.RandomThreshold? ==> |u| <= |strategy.draws|
    ensures ballots == Ballots(u, m, cands, strategy)
  {
    var cast: seq<ApprovalMap> := [];
    for v := 0 to |u|
      invariant Ballots(u[..v], m, cands, strategy) == Some(cast)
    {
      var threshold := ThresholdOf(strategy, v, u[v], cands);
      var ballot := InternalAccept(u[v], cands, threshold);
      assert u[..v + 1][..v] == u[..v];
      if ballot.None? {
        return None;
      }
      cast := cast + [ballot.value];
    }
    assert u[..|u|] == u;
    ballots := Some(cast);
  }

  function Approves(b: ApprovalMap, c: nat): nat
  {
    if c in b && b[c] then 1 else 0
  }

  /** The approval count multiset: for each candidate id, the ballots approving it. */
  function Approvals(ballots: seq<ApprovalMap>, m: nat): (r: seq<nat>)
    ensures |r| == m
  {
    if ballots == [] then Zeros(m)
    else
      var n := |ballots| - 1;
      var prev := Approvals(ballots[..n], m);
      seq(m, c requires 0 <= c < m => prev[c] + Approves(ballots[n], c))
  }

  /** No candidate is approved by more ballots than there are, and a candidate that
      no ballot approves has count 0. */
  lemma {:induction false} ApprovalsBounded(ballots: seq<ApprovalMap>, m: nat, c: nat)
    requires c < m
    ensures Approvals(ballots, m)[c] <= |ballots|
    ensures (forall v :: 0 <= v < |ballots| ==> Approves(ballots[v], c) == 0) ==> Approvals(ballots, m)[c] == 0
  {
    if ballots != [] {
      ApprovalsBounded(ballots[..|ballots| - 1], m, c);
    }
  }

  /** The outcome of `produceCandidate`: a most approved candidate; None where a ballot
      fails or no ballot approves anyone (`findFirst` throws). */
  function Elect(u: seq<seq<real>>, m: nat, cands: seq<nat>, strategy: Strategy): Option<nat>
    requires IsTable(u, m) && AllBelow(cands, m)
    requires strategy.RandomThreshold? ==> |u| <= |strategy.draws|
  {
    match Ballots(u, m, cands, strategy)
    case None => None
    case Some(ballots) => FindFirst(Approvals(ballots, m))
  }

  /** The winner is a listed candidate, approved by at least one ballot and by no fewer
      ballots than any other candidate. */
  lemma WinnerHasMostApprovals(u: seq<seq<real>>, m: nat, cands: seq<nat>, strategy: Strategy)
    requires IsTable(u, m) && AllBelow(cands, m)
    requires strategy.RandomThreshold? ==> |u| <= |strategy.draws|
    ensures Elect(u, m, cands, strategy).Some? ==>
      var counts := Approvals(Ballots(u, m, cands, strategy).value, m);
      var w := Elect(u, m, cands, strategy).value;
      && w in cands && 0 < counts[w] <= |u|
      && forall c :: 0 <= c < m ==> counts[c] <= counts[w]
  {
    if Elect(u, m, cands, strategy).Some? {
      var ballots := Ballots(u, m, cands, strategy).value;
      var w := Elect(u, m, cands, strategy).value;
      ApprovalsBounded(ballots, m, w);
      if w !in cands {
        forall v | 0 <= v < |ballots| ensures Approves(ballots[v], w) == 0 {
          assert Some(ballots[v]) == ApprovalBallot(u[v], cands, ThresholdOf(strategy, v, u[v], cands));
        }
        assert false;
      }
    }
  }

  /** No ballot approves any candidate. */
  predicate NoneApproved(ballots: seq<ApprovalMap>, m: nat)
  {
    forall v, c :: 0 <= v < |ballots| && 0 <= c < m ==> Approves(ballots[v], c) == 0
  }

  /** The count has no most approved candidate exactly when no ballot approves anyone:
      every count is 0 then. */
  lemma NoWinnerIffNoneApproved(ballots: seq<ApprovalMap>, m: nat)
    ensures FindFirst(Approvals(ballots, m)).None? <==> NoneApproved(ballots, m)
  {
    if NoneApproved(ballots, m) {
      forall c | 0 <= c < m ensures Approvals(ballots, m)[c] == 0 {
        ApprovalsBounded(ballots, m, c);
      }
    } else {
      var v, c :| 0 <= v < |ballots| && 0 <= c < m && Approves(ballots[v], c) != 0;
      ApprovedIsCounted(ballots, m, v, c);
    }
  }

  /** Electing fails exactly when a ballot fails or no ballot approves anyone. */
  lemma ElectFailsWithoutApprovals(u: seq<seq<real>>, m: nat, cands: seq<nat>, strategy: Strategy)
    requires IsTable(u, m) && AllBelow(cands, m)
    requires strategy.RandomThreshold? ==> |u| <= |strategy.draws|
    ensures Elect(u, m, cands, strategy).None? <==>
      Ballots(u, m, cands, strategy).None? || NoneApproved(Ballots(u, m, cands, strategy).value, m)
  {
    if Ballots(u, m, cands, strategy).Some? {
      NoWinnerIffNoneApproved(Ballots(u, m, cands, strategy).value, m);
    }
  }

  lemma {:induction false} ApprovedIsCounted(ballots: seq<ApprovalMap>, m: nat, v: nat, c: nat)
    requires v < |ballots| && c < m && Approves(ballots[v], c) == 1
    ensures Approvals(ballots, m)[c] > 0
  {
    var n := |ballots| - 1;
    if v < n {
      ApprovedIsCounted(ballots[..n], m, v, c);
    }
  }

  /** One ballot's approved entries added to the count multiset, in the ballot's
      insertion order (the candidate list). */
  method AddApprovals(counts: seq<nat>, b: ApprovalMap, cands: seq<nat>) returns (r: seq<nat>)
    requires AllBelow(cands, |counts|) && Distinct(cands)
    requires b.Keys == set i | 0 <= i < |cands| :: cands[i]
    ensures |r| == |counts| && forall c :: 0 <= c < |counts| ==> r[c] == counts[c] + Approves(b, c)
  {
    r := counts;
    for i := 0 to |cands|
      invariant |r| == |counts|
      invariant forall c :: 0 <= c < |counts| ==>
        r[c] == counts[c] + if c in cands[..i] then Approves(b, c) else 0
    {
      var c := cands[i];
      assert c !in cands[..i];
      assert cands[..i + 1] == cands[..i] + [c];
      if b[c] {
        r := r[c := r[c] + 1];
      }
    }
    assert cands[..|cands|] == cands;
    forall c | 0 <= c < |counts| && c !in cands ensures Approves(b, c) == 0 {
    }
  }

  /** Each polled ballot has one entry per candidate, the candidates being distinct. */
  lemma BallotKeys(u: seq<seq<real>>, m: nat, cands: seq<nat>, strategy: Strategy, v: nat)
    requires IsTable(u, m) && AllBelow(cands, m)
    requires strategy.RandomThreshold? ==> |u| <= |strategy.draws|
    requires Ballots(u, m, cands, strategy).Some? && v < |u|
    ensures Distinct(cands)
    ensures Ballots(u, m, cands, strategy).value[v].Keys == set i | 0 <= i < |cands| :: cands[i]
  {
    var b := Ballots(u, m, cands, strategy).value[v];
    assert Some(b) == ApprovalBallot(u[v], cands, ThresholdOf(strategy, v, u[v], cands));
  }

  /** The approved entries of every ballot added to a fresh count multiset. */
  method CountApprovals(ballots: seq<ApprovalMap>, m: nat, cands: seq<nat>) returns (ballotCount: seq<nat>)
    requires AllBelow(cands, m)
    requires forall v :: 0 <= v < |ballots| ==>
      Distinct(cands) && ballots[v].Keys == set i | 0 <= i < |cands| :: cands[i]
    ensures ballotCount == Approvals(ballots, m)
  {
    ballotCount := Zeros(m);
    for v := 0 to |ballots|
      invariant ballotCount == Approvals(ballots[..v], m)
    {
      assert ballots[..v + 1][..v] == ballots[..v];
      ballotCount := AddApprovals(ballotCount, ballots[v], cands);
    }
    assert ballots[..|ballots|] == ballots;
  }

  /** `produceCandidate`. */
  method ProduceCandidate(u: seq<seq<real>>, m: nat, cands: seq<nat>, strategy: Strategy) returns (winner: Option<nat>)
    requires IsTable(u, m) && AllBelow(cands, m)
    requires strategy.RandomThreshold? ==> |u| <= |strategy.draws|
    ensures winner == Elect(u, m, cands, strategy)
  {
    var ballots := Poll(u, m, cands, strategy);
    if ballots.None? {
      return None;
    }
    forall v | 0 <= v < |ballots.value|
      ensures Distinct(cands) && ballots.value[v].Keys == set i | 0 <= i < |cands| :: cands[i]
    {
      BallotKeys(u, m, cands, strategy, v);
    }
    var ballotCount := CountApprovals(ballots.value, m, cands);
    winner := FindFirst(ballotCount);
  }
}
