/** range/RangeVoting.kt: every voter gives every candidate a mark from 0 to `MaxVote`
    according to its utility, and the candidate with the largest total of marks wins.

    A ballot's marks are a count vector over candidate ids (`marks[c]` is the multiplicity
    of c in the ballot's multiset). Utilities come from a table `u` as in `Plurality`. */
module RangeVoting {
  import opened Wrappers
  import opened ElectionSim

  /** `MAX_VOTE`. */
  const MaxVote: nat := 5

  /** `BigDecimal.toInt`: the integer part, truncated toward zero. */
  function Truncate(x: real): (r: int)
    ensures x >= 0.0 ==> r as real <= x < r as real + 1.0
    ensures x < 0.0 ==> r as real - 1.0 < x <= r as real
  {
    if x >= 0.0 then x.Floor else -((-x).Floor)
  }

  /** The mark as written: the integer part of utility * (MAX_VOTE + 1). */
  function ScoreAsWritten(utility: real): int
  {
    Truncate(utility * (MaxVote + 1) as real)
  }

  /** The mark as evidently intended: the same, but a utility of exactly 1 gets the
      highest mark `MaxVote` instead of a mark the ballot check rejects. */
  function Score(utility: real): int
  {
    var s := ScoreAsWritten(utility);
    if s > MaxVote then MaxVote else s
  }

  /** The marks after `accept` has added the scores of the first k candidates; None where
      `Multiset.add` throws on a negative count. */
  function Marks(uv: seq<real>, cands: seq<nat>, k: nat, score: real -> int): (r: Option<seq<nat>>)
    requires k <= |cands| && AllBelow(cands, |uv|)
    ensures r.None? <==> exists i :: 0 <= i < k && score(uv[cands[i]]) < 0
    ensures r.Some? ==> |r.value| == |uv|
  {
    if k == 0 then Some(Zeros(|uv|))
    else
      match Marks(uv, cands, k - 1, score)
      case None => None
      case Some(marks) =>
        var c := cands[k - 1];
        var s := score(uv[c]);
        if s < 0 then None else Some(marks[c := marks[c] + s])
  }

  /** The `RangeBallot` check: no mark above `MaxVote` (entries of a multiset always
      have a positive count). */
  predicate WithinRange(marks: seq<nat>)
  {
    forall c :: 0 <= c < |marks| ==> marks[c] <= MaxVote
  }

  /** `RangeVotingStrategy.accept` under a scoring rule; None where it throws. */
  function BallotWith(uv: seq<real>, cands: seq<nat>, score: real -> int): (r: Option<seq<nat>>)
    requires AllBelow(cands, |uv|)
    ensures r.Some? ==> |r.value| == |uv| && WithinRange(r.value)
  {
    match Marks(uv, cands, |cands|, score)
    case None => None
    case Some(marks) => if WithinRange(marks) then Some(marks) else None
  }

  /** With distinct candidates and no negative score, each listed candidate's mark is its
      score and every other candidate's mark is 0. */
  lemma {:induction false} MarksOfDistinct(uv: seq<real>, cands: seq<nat>, k: nat, score: real -> int)
    requires k <= |cands| && AllBelow(cands, |uv|) && Distinct(cands)
    requires forall i :: 0 <= i < |cands| ==> score(uv[cands[i]]) >= 0
    ensures Marks(uv, cands, k, score).Some?
    ensures forall c :: 0 <= c < |uv| ==>
      Marks(uv, cands, k, score).value[c] == if c in cands[..k] then score(uv[c]) else 0
  {
    if k > 0 {
      MarksOfDistinct(uv, cands, k - 1, score);
      var prev := Marks(uv, cands, k - 1, score).value;
      var now := Marks(uv, cands, k, score).value;
      forall c | 0 <= c < |uv|
        ensures now[c] == if c in cands[..k] then score(uv[c]) else 0
      {
        assert cands[..k] == cands[..k - 1] + [cands[k - 1]];
        if c == cands[k - 1] {
          assert c !in cands[..k - 1];
        }
      }
    }
  }

  /** A candidate that is not listed gets no mark, whatever the scores. */
  lemma {:induction false} UnlistedHaveNoMarks(uv: seq<real>, cands: seq<nat>, k: nat, score: real -> int, c: nat)
    requires k <= |cands| && AllBelow(cands, |uv|) && c < |uv| && c !in cands
    requires Marks(uv, cands, k, score).Some?
    ensures Marks(uv, cands, k, score).value[c] == 0
  {
    if k > 0 {
      UnlistedHaveNoMarks(uv, cands, k - 1, score, c);
    }
  }

  /** For distinct candidates with no negative score, the ballot check fails exactly when
      some candidate scores above `MaxVote`. */
  lemma BallotFailsOnlyAboveRange(uv: seq<real>, cands: seq<nat>, score: real -> int)
    requires AllBelow(cands, |uv|) && Distinct(cands)
    requires forall i :: 0 <= i < |cands| ==> score(uv[cands[i]]) >= 0
    ensures BallotWith(uv, cands, score).None? <==>
      exists i :: 0 <= i < |cands| && score(uv[cands[i]]) > MaxVote
  {
    MarksOfDistinct(uv, cands, |cands|, score);
    assert cands[..|cands|] == cands;
    var marks := Marks(uv, cands, |cands|, score).value;
    if !WithinRange(marks) {
      var c :| 0 <= c < |marks| && marks[c] > MaxVote;
      var i :| 0 <= i < |cands| && cands[i] == c;
    }
    if exists i :: 0 <= i < |cands| && score(uv[cands[i]]) > MaxVote {
      var i :| 0 <= i < |cands| && score(uv[cands[i]]) > MaxVote;
      assert marks[cands[i]] > MaxVote;
    }
  }

  /** As written, a utility of exactly 1 scores 6, above `MaxVote`. */
  lemma ScoreAsWrittenOfFullUtility()
    ensures ScoreAsWritten(1.0) == MaxVote + 1
  {
  }

  /** As written, a voter with utility exactly 1 for a listed candidate (a voter always
      has it for the candidate made from its own stances, see
      `Electorates.OwnCandidateHasUtilityOne`) makes `RangeBallot` throw. */
  lemma BallotAsWrittenFailsOnFullUtility(uv: seq<real>, cands: seq<nat>, i: nat)
    requires AllBelow(cands, |uv|) && Distinct(cands) && i < |cands|
    requires forall j :: 0 <= j < |cands| ==> 0.0 <= uv[cands[j]] <= 1.0
    requires uv[cands[i]] == 1.0
    ensures BallotWith(uv, cands, ScoreAsWritten).None?
  {
    BallotFailsOnlyAboveRange(uv, cands, ScoreAsWritten);
  }

  /** The intended mark of a utility in [0, 1] lies in 0..MaxVote, agrees with the mark as
      written below utility 1 and never decreases as the utility grows. */
  lemma ScoreInRange(x: real, y: real)
    requires 0.0 <= x <= y <= 1.0
    ensures 0 <= Score(x) <= Score(y) <= MaxVote
    ensures x < 1.0 ==> Score(x) == ScoreAsWritten(x)
    ensures Score(1.0) == MaxVote
  {
  }

  /** With the intended marks, a voter whose utilities lie in [0, 1] always casts a valid
      ballot, marking each listed candidate with its score. */
  lemma BallotAlwaysValid(uv: seq<real>, cands: seq<nat>)
    requires AllBelow(cands, |uv|) && Distinct(cands)
    requires forall c :: 0 <= c < |uv| ==> 0.0 <= uv[c] <= 1.0
    ensures BallotWith(uv, cands, Score).Some?
    ensures forall c :: 0 <= c < |uv| ==> BallotWith(uv, cands, Score).value[c] == if c in cands then Score(uv[c]) else 0
  {
    forall i | 0 <= i < |cands| ensures Score(uv[cands[i]]) >= 0 && Score(uv[cands[i]]) <= MaxVote {
      ScoreInRange(uv[cands[i]], uv[cands[i]]);
    }
    BallotFailsOnlyAboveRange(uv, cands, Score);
    MarksOfDistinct(uv, cands, |cands|, Score);
    assert cands[..|cands|] == cands;
  }

  /** `RangeVotingStrategy.accept`: the marks loop with the mark as written, then the
      `RangeBallot` check loop. */
  method Accept(uv: seq<real>, cands: seq<nat>) returns (ballot: Option<seq<nat>>)
    requires AllBelow(cands, |uv|)
    ensures ballot == BallotWith(uv, cands, ScoreAsWritten)
  {
    var marks := Zeros(|uv|);
    for i := 0 to |cands|
      invariant Marks(uv, cands, i, ScoreAsWritten) == Some(marks)
    {
      var c := cands[i];
      var s := ScoreAsWritten(uv[c]);
      if s < 0 {
        assert Marks(uv, cands, i + 1, ScoreAsWritten).None?;
        MarksFailWithPrefix(uv, cands, i + 1, ScoreAsWritten);
        return None;
      }
      marks := marks[c := marks[c] + s];
    }
    for c := 0 to |marks|
      invariant forall d :: 0 <= d < c ==> marks[d] <= MaxVote
    {
      if marks[c] > MaxVote {
        return None;
      }
    }
    ballot := Some(marks);
  }

  /** A negative score among the first candidates fails all the marks. */
  lemma MarksFailWithPrefix(uv: seq<real>, cands: seq<nat>, k: nat, score: real -> int)
    requires k <= |cands| && AllBelow(cands, |uv|) && Marks(uv, cands, k, score).None?
    ensures Marks(uv, cands, |cands|, score).None?
  {
  }

  /** `electorate.poll(VOTING_STRATEGY)` under a scoring rule: every voter's ballot, None
      when one fails. */
  function Ballots(u: seq<seq<real>>, m: nat, cands: seq<nat>, score: real -> int): (r: Option<seq<seq<nat>>>)
    requires IsTable(u, m) && AllBelow(cands, m)
    ensures r.None? <==> exists v :: 0 <= v < |u| && BallotWith(u[v], cands, score).None?
    ensures r.Some? ==> |r.value| == |u|
    ensures r.Some? ==> forall v :: 0 <= v < |u| ==> BallotWith(u[v], cands, score) == Some(r.value[v])
  {
    if u == [] then Some([])
    else
      var n := |u| - 1;
      assert forall v :: 0 <= v < n ==> u[..n][v] == u[v];
      match Ballots(u[..n], m, cands, score)
      case None => None
      case Some(ballots) =>
        match BallotWith(u[n], cands, score)
        case None => None
        case Some(b) => Some(ballots + [b])
  }

  /** The poll with the mark as written. */
  method Poll(u: seq<seq<real>>, m: nat, cands: seq<nat>) returns (ballots: Option<seq<seq<nat>>>)
    requires IsTable(u, m) && AllBelow(cands, m)
    ensures ballots == Ballots(u, m, cands, ScoreAsWritten)
  {
    var cast: seq<seq<nat>> := [];
    for v := 0 to |u|
      invariant Ballots(u[..v], m, cands, ScoreAsWritten) == Some(cast)
    {
      var ballot := Accept(u[v], cands);
      assert u[..v + 1][..v] == u[..v];
      if ballot.None? {
        PollFailsWithPrefix(u, m, cands, ScoreAsWritten, v + 1);
        return None;
      }
      cast := cast + [ballot.value];
    }
    assert u[..|u|] == u;
    ballots := Some(cast);
  }

  lemma PollFailsWithPrefix(u: seq<seq<real>>, m: nat, cands: seq<nat>, score: real -> int, k: nat)
    requires IsTable(u, m) && AllBelow(cands, m) && k <= |u|
    requires Ballots(u[..k], m, cands, score).None?
    ensures Ballots(u, m, cands, score).None?
  {
    var v :| 0 <= v < k && BallotWith(u[..k][v], cands, score).None?;
    assert u[..k][v] == u[v];
  }

  /** As written, one voter with utility exactly 1 for a listed candidate fails the whole
      poll, so `produceCandidate` throws. */
  lemma PollAsWrittenFailsOnFullUtility(u: seq<seq<real>>, m: nat, cands: seq<nat>, v: nat, i: nat)
    requires IsTable(u, m) && AllBelow(cands, m) && Distinct(cands) && v < |u| && i < |cands|
    requires forall j :: 0 <= j < |cands| ==> 0.0 <= u[v][cands[j]] <= 1.0
    requires u[v][cands[i]] == 1.0
    ensures Ballots(u, m, cands, ScoreAsWritten).None?
    ensures Elect(u, m, cands, ScoreAsWritten).None?
  {
    BallotAsWrittenFailsOnFullUtility(u[v], cands, i);
  }

  /** With the intended marks, voters whose utilities lie in [0, 1] never fail the poll,
      and each ballot marks every listed candidate with its score and no other. */
  lemma IntendedPollSucceeds(u: seq<seq<real>>, m: nat, cands: seq<nat>)
    requires IsTable(u, m) && AllBelow(cands, m) && Distinct(cands)
    requires forall v :: 0 <= v < |u| ==> forall c :: 0 <= c < m ==> 0.0 <= u[v][c] <= 1.0
    ensures Ballots(u, m, cands, Score).Some?
    ensures forall v, c :: 0 <= v < |u| && 0 <= c < m ==>
      Ballots(u, m, cands, Score).value[v][c] == if c in cands then Score(u[v][c]) else 0
  {
    forall v | 0 <= v < |u|
      ensures BallotWith(u[v], cands, Score).Some?
      ensures forall c :: 0 <= c < m ==>
        BallotWith(u[v], cands, Score).value[c] == if c in cands then Score(u[v][c]) else 0
    {
      BallotAlwaysValid(u[v], cands);
    }
  }

  /** Every ballot marks the m candidate ids within range. */
  predicate ValidBallots(ballots: seq<seq<nat>>, m: nat)
  {
    forall v :: 0 <= v < |ballots| ==> |ballots[v]| == m && WithinRange(ballots[v])
  }

  lemma BallotsAreValid(u: seq<seq<real>>, m: nat, cands: seq<nat>, score: real -> int)
    requires IsTable(u, m) && AllBelow(cands, m) && Ballots(u, m, cands, score).Some?
    ensures ValidBallots(Ballots(u, m, cands, score).value, m)
  {
    var ballots := Ballots(u, m, cands, score).value;
    forall v | 0 <= v < |ballots| ensures |ballots[v]| == m && WithinRange(ballots[v]) {
      assert BallotWith(u[v], cands, score) == Some(ballots[v]);
    }
  }

  /** The score multiset: each candidate's marks summed over the ballots. */
  function Totals(ballots: seq<seq<nat>>, m: nat): (r: seq<nat>)
    requires ValidBallots(ballots, m)
    ensures |r| == m
  {
    if ballots == [] then Zeros(m)
    else
      var n := |ballots| - 1;
      var prev := Totals(ballots[..n], m);
      seq(m, c requires 0 <= c < m => prev[c] + ballots[n][c])
  }

  /** No candidate totals more than `MaxVote` per ballot, and a candidate that is never
      marked totals 0. */
  lemma {:induction false} TotalsBounded(ballots: seq<seq<nat>>, m: nat, c: nat)
    requires ValidBallots(ballots, m) && c < m
    ensures Totals(ballots, m)[c] <= MaxVote * |ballots|
    ensures (forall v :: 0 <= v < |ballots| ==> ballots[v][c] == 0) ==> Totals(ballots, m)[c] == 0
  {
    if ballots != [] {
      var n := |ballots| - 1;
      TotalsBounded(ballots[..n], m, c);
      assert ballots[n][c] <= MaxVote;
    }
  }

  /** The outcome of `produceCandidate` under a scoring rule: a candidate with the largest
      total; None where a ballot fails or `findFirst` throws. */
  function Elect(u: seq<seq<real>>, m: nat, cands: seq<nat>, score: real -> int): Option<nat>
    requires IsTable(u, m) && AllBelow(cands, m)
  {
    match Ballots(u, m, cands, score)
    case None => None
    case Some(ballots) =>
      BallotsAreValid(u, m, cands, score);
      FindFirst(Totals(ballots, m))
  }

  /** The winner is a listed candidate with a positive total that no total exceeds, and
      electing fails where a ballot fails or no candidate got any mark, whatever the
      scoring rule. */
  lemma WinnerHasHighestTotal(u: seq<seq<real>>, m: nat, cands: seq<nat>, score: real -> int)
    requires IsTable(u, m) && AllBelow(cands, m)
    ensures Ballots(u, m, cands, score).Some? ==>
      var ballots := Ballots(u, m, cands, score).value;
      ValidBallots(ballots, m) &&
      (Elect(u, m, cands, score).None? <==> forall c :: 0 <= c < m ==> Totals(ballots, m)[c] == 0)
    ensures Elect(u, m, cands, score).Some? ==>
      var ballots := Ballots(u, m, cands, score).value;
      var totals := Totals(ballots, m);
      var w := Elect(u, m, cands, score).value;
      && w in cands && totals[w] > 0
      && forall c :: 0 <= c < m ==> totals[c] <= totals[w]
  {
    if Ballots(u, m, cands, score).Some? {
      var ballots := Ballots(u, m, cands, score).value;
      BallotsAreValid(u, m, cands, score);
      if Elect(u, m, cands, score).Some? {
        var w := Elect(u, m, cands, score).value;
        if w !in cands {
          forall v | 0 <= v < |ballots| ensures ballots[v][w] == 0 {
            assert BallotWith(u[v], cands, score) == Some(ballots[v]);
            UnlistedHaveNoMarks(u[v], cands, |cands|, score, w);
          }
          TotalsBounded(ballots, m, w);
          assert false;
        }
      }
    }
  }

  /** `ballotCount.add(it.element, it.count)` for every entry of one ballot. */
  method AddMarks(totals: seq<nat>, marks: seq<nat>) returns (r: seq<nat>)
    requires |marks| == |totals|
    ensures |r| == |totals| && forall c :: 0 <= c < |totals| ==> r[c] == totals[c] + marks[c]
  {
    r := totals;
    for c := 0 to |marks|
      invariant |r| == |totals|
      invariant forall d :: 0 <= d < |totals| ==> r[d] == totals[d] + (if d < c then marks[d] else 0)
    {
      r := r[c := r[c] + marks[c]];
    }
  }

  /** Summing every ballot's marks into a fresh count multiset. */
  method SumBallots(ballots: seq<seq<nat>>, m: nat) returns (ballotCount: seq<nat>)
    requires ValidBallots(ballots, m)
    ensures ballotCount == Totals(ballots, m)
  {
    ballotCount := Zeros(m);
    for v := 0 to |ballots|
      invariant ballotCount == Totals(ballots[..v], m)
    {
      assert ballots[..v + 1][..v] == ballots[..v];
      ballotCount := AddMarks(ballotCount, ballots[v]);
    }
    assert ballots[..|ballots|] == ballots;
  }

  /** `produceCandidate`, with the mark as written. */
  method ProduceCandidate(u: seq<seq<real>>, m: nat, cands: seq<nat>) returns (winner: Option<nat>)
    requires IsTable(u, m) && AllBelow(cands, m)
    ensures winner == Elect(u, m, cands, ScoreAsWritten)
  {
    var ballots := Poll(u, m, cands);
    if ballots.None? {
      return None;
    }
    BallotsAreValid(u, m, cands, ScoreAsWritten);
    var ballotCount := SumBallots(ballots.value, m);
    winner := FindFirst(ballotCount);
  }
}
