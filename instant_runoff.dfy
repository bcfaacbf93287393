/** ranked/InstantRunnoff.kt: every voter casts a full ranking; each ballot counts for
    its highest-ranked candidate still in the race, and while more than one candidate
    remains and nobody holds a strict majority of the ballots, the candidate with the
    fewest votes among those counted is removed and the ballots are counted again.

    Ballots are lists of candidate ids (`PureRanking.Rank`). A thrown exception is
    `None`. */
module InstantRunoff {
  import opened Wrappers
  import opened ElectionSim
  import PR = PureRanking

  /** The position on ballot `b` of its highest-ranked remaining candidate; None when the
      ballot ranks no remaining candidate. */
  function FirstRemaining(b: seq<nat>, remaining: seq<nat>): (r: Option<nat>)
    ensures r.None? <==> forall i :: 0 <= i < |b| ==> b[i] !in remaining
    ensures r.Some? ==> r.value < |b| && b[r.value] in remaining
    ensures r.Some? ==> forall i :: 0 <= i < r.value ==> b[i] !in remaining
  {
    if b == [] then None
    else if b[0] in remaining then Some(0)
    else
      match FirstRemaining(b[1..], remaining)
      case None => None
      case Some(i) => Some(i + 1)
  }

  /** The votes cast in a round, in ballot order: one per ballot that ranks a remaining
      candidate, for the first such candidate. */
  function Votes(ballots: seq<seq<nat>>, remaining: seq<nat>): (r: seq<nat>)
    ensures |r| <= |ballots|
    ensures forall k :: 0 <= k < |r| ==> r[k] in remaining
  {
    if ballots == [] then []
    else
      var n := |ballots| - 1;
      var b := ballots[n];
      Votes(ballots[..n], remaining) +
        match FirstRemaining(b, remaining)
        case None => []
        case Some(i) => [b[i]]
  }

  /** `countBallots`: the count multiset of one round. */
  function Count(ballots: seq<seq<nat>>, m: nat, remaining: seq<nat>): (r: seq<nat>)
    requires AllBelow(remaining, m)
    ensures |r| == m
  {
    var votes := Votes(ballots, remaining);
    assert AllBelow(votes, m) by {
      forall k | 0 <= k < |votes| ensures votes[k] < m {
        var i :| 0 <= i < |remaining| && remaining[i] == votes[k];
      }
    }
    Tally(votes, m)
  }

  /** Only remaining candidates are counted, no ballot counts twice, and when every
      ballot ranks some remaining candidate every ballot counts once. */
  lemma CountBounds(ballots: seq<seq<nat>>, m: nat, remaining: seq<nat>)
    requires AllBelow(remaining, m)
    ensures Sum(Count(ballots, m, remaining)) <= |ballots|
    ensures forall c :: 0 <= c < m && Count(ballots, m, remaining)[c] > 0 ==> c in remaining
    ensures (forall v :: 0 <= v < |ballots| ==> RanksSome(ballots[v], remaining)) ==>
      Sum(Count(ballots, m, remaining)) == |ballots|
  {
    var votes := Votes(ballots, remaining);
    assert AllBelow(votes, m) by {
      forall k | 0 <= k < |votes| ensures votes[k] < m {
        var i :| 0 <= i < |remaining| && remaining[i] == votes[k];
      }
    }
    TallyTotal(votes, m);
    forall c | 0 <= c < m && Count(ballots, m, remaining)[c] > 0 ensures c in remaining {
      CountedIsVoted(votes, m, c);
    }
    if forall v :: 0 <= v < |ballots| ==> RanksSome(ballots[v], remaining) {
      EveryBallotVotes(ballots, remaining);
    }
  }

  /** Ballot `b` ranks some remaining candidate. */
  predicate RanksSome(b: seq<nat>, remaining: seq<nat>)
  {
    exists i :: 0 <= i < |b| && b[i] in remaining
  }

  lemma {:induction false} EveryBallotVotes(ballots: seq<seq<nat>>, remaining: seq<nat>)
    requires forall v :: 0 <= v < |ballots| ==> RanksSome(ballots[v], remaining)
    ensures |Votes(ballots, remaining)| == |ballots|
  {
    if ballots != [] {
      var n := |ballots| - 1;
      forall v | 0 <= v < n ensures RanksSome(ballots[..n][v], remaining) {
        assert ballots[..n][v] == ballots[v];
      }
      EveryBallotVotes(ballots[..n], remaining);
      var i :| 0 <= i < |ballots[n]| && ballots[n][i] in remaining;
      assert FirstRemaining(ballots[n], remaining).Some?;
    }
  }

  /** `hasWinner`: whether the leader holds more than half of all ballots (integer
      division); None where `findFirst` throws on an empty count. */
  function HasWinner(ballots: seq<seq<nat>>, count: seq<nat>): (r: Option<bool>)
    ensures r.None? <==> forall c :: 0 <= c < |count| ==> count[c] == 0
    ensures r == Some(true) <==> exists c :: 0 <= c < |count| && count[c] > |ballots| / 2
  {
    match FindFirst(count)
    case None => None
    case Some(w) => Some(count[w] > |ballots| / 2)
  }

  /** `findLoser`: the last of the sorted candidate list; None where the list is empty. */
  function FindLoser(count: seq<nat>): (r: Option<nat>)
    ensures r.None? <==> forall c :: 0 <= c < |count| ==> count[c] == 0
    ensures r.Some? ==> r.value < |count| && count[r.value] > 0
    ensures r.Some? ==> forall c :: 0 <= c < |count| && count[c] > 0 ==> count[r.value] <= count[c]
  {
    var l := SortedCandidateList(count);
    if l == [] then None
    else
      var loser := l[|l| - 1];
      assert forall c :: 0 <= c < |count| && count[c] > 0 ==> count[loser] <= count[c] by {
        forall c | 0 <= c < |count| && count[c] > 0 ensures count[loser] <= count[c] {
          var k :| 0 <= k < |l| && l[k] == c;
        }
      }
      Some(loser)
  }

  /** `candidates.remove(x)`: drops the first occurrence of x. */
  function Remove(s: seq<nat>, x: nat): (r: seq<nat>)
    ensures x in s ==> |r| == |s| - 1
    ensures multiset(r) == multiset(s) - multiset{x}
  {
    if s == [] then []
    else if s[0] == x then
      assert s == [x] + s[1..];
      s[1..]
    else
      assert s == [s[0]] + s[1..];
      [s[0]] + Remove(s[1..], x)
  }

  /** The candidates still in the race when the loop of `produceCandidate` stops, starting
      from `remaining`. A round with no counted ballot stops it too: there `hasWinner`
      throws, and `findFirst` of the same empty count throws as well. */
  function Final(ballots: seq<seq<nat>>, m: nat, remaining: seq<nat>): (r: seq<nat>)
    requires AllBelow(remaining, m)
    ensures AllBelow(r, m)
    ensures multiset(r) <= multiset(remaining)
    ensures |remaining| > 0 ==> |r| > 0
    decreases |remaining|
  {
    var count := Count(ballots, m, remaining);
    if |remaining| <= 1 then remaining
    else
      match HasWinner(ballots, count)
      case None => remaining
      case Some(true) => remaining
      case Some(false) =>
        var loser := FindLoser(count).value;
        CountBounds(ballots, m, remaining);
        var next := Remove(remaining, loser);
        assert AllBelow(next, m) by {
          forall k | 0 <= k < |next| ensures next[k] < m {
            assert next[k] in multiset(next);
          }
        }
        Final(ballots, m, next)
  }

  /** The winner: the leader of the last round, None when that round counted nobody. */
  function Elect(u: seq<seq<real>>, m: nat, cands: seq<nat>): Option<nat>
    requires IsTable(u, m) && AllBelow(cands, m)
  {
    var ballots := PR.Ballots(u, m, cands);
    FindFirst(Count(ballots, m, Final(ballots, m, cands)))
  }

  /** The loop stops with one candidate left, with a leader holding a strict majority of
      the ballots, or with a round in which no ballot counted. */
  lemma {:induction false} FinalStops(ballots: seq<seq<nat>>, m: nat, remaining: seq<nat>)
    requires AllBelow(remaining, m)
    ensures var f := Final(ballots, m, remaining);
      var count := Count(ballots, m, f);
      || |f| <= 1
      || (forall c :: 0 <= c < m ==> count[c] == 0)
      || exists c :: 0 <= c < m && count[c] > |ballots| / 2
    decreases |remaining|
  {
    var count := Count(ballots, m, remaining);
    if |remaining| > 1 && HasWinner(ballots, count) == Some(false) {
      var loser := FindLoser(count).value;
      CountBounds(ballots, m, remaining);
      var next := Remove(remaining, loser);
      assert AllBelow(next, m) by {
        forall k | 0 <= k < |next| ensures next[k] < m {
          assert next[k] in multiset(next);
        }
      }
      FinalStops(ballots, m, next);
    }
  }

  /** Each round removes exactly one candidate, one that received a vote and no more votes
      than any other counted candidate. */
  lemma RoundRemovesOneLoser(ballots: seq<seq<nat>>, m: nat, remaining: seq<nat>)
    requires AllBelow(remaining, m) && |remaining| > 1
    requires HasWinner(ballots, Count(ballots, m, remaining)) == Some(false)
    ensures var count := Count(ballots, m, remaining);
      var loser := FindLoser(count).value;
      && loser in remaining
      && count[loser] > 0
      && (forall c :: 0 <= c < m && count[c] > 0 ==> count[loser] <= count[c])
      && |Remove(remaining, loser)| == |remaining| - 1
      && multiset(Remove(remaining, loser)) == multiset(remaining) - multiset{loser}
  {
    CountBounds(ballots, m, remaining);
  }

  /** Every ballot ranks every candidate: it is a permutation of the candidate list. */
  lemma BallotsRankEveryone(u: seq<seq<real>>, m: nat, cands: seq<nat>, v: nat, c: nat)
    requires IsTable(u, m) && AllBelow(cands, m) && v < |u| && c in cands
    ensures c in PR.Ballots(u, m, cands)[v]
  {
    PR.BallotsArePermutations(u, m, cands, v);
    assert c in multiset(cands);
  }

  /** Instant runoff fails exactly when there are no voters or no candidates: every
      ballot ranks every candidate, so every ballot counts in every round. */
  lemma ElectFailsOnlyWithoutVoters(u: seq<seq<real>>, m: nat, cands: seq<nat>)
    requires IsTable(u, m) && AllBelow(cands, m)
    ensures Elect(u, m, cands).None? <==> |u| == 0 || |cands| == 0
  {
    var ballots := PR.Ballots(u, m, cands);
    forall v, c | 0 <= v < |ballots| && c in cands ensures c in ballots[v] {
      BallotsRankEveryone(u, m, cands, v, c);
    }
    LastRoundCountsOnlyWithoutBallots(ballots, m, cands);
  }

  /** When every ballot ranks every candidate, the last round counts nobody exactly when
      there are no ballots or no candidates. */
  lemma LastRoundCountsOnlyWithoutBallots(ballots: seq<seq<nat>>, m: nat, remaining: seq<nat>)
    requires AllBelow(remaining, m)
    requires forall v, c :: 0 <= v < |ballots| && c in remaining ==> c in ballots[v]
    ensures FindFirst(Count(ballots, m, Final(ballots, m, remaining))).None? <==>
      |ballots| == 0 || |remaining| == 0
  {
    var f := Final(ballots, m, remaining);
    var count := Count(ballots, m, f);
    CountBounds(ballots, m, f);
    if |ballots| > 0 && |remaining| > 0 {
      assert f[0] in multiset(f);
      assert f[0] in remaining;
      forall v | 0 <= v < |ballots| ensures RanksSome(ballots[v], f) {
        assert f[0] in ballots[v];
        var i :| 0 <= i < |ballots[v]| && ballots[v][i] == f[0];
        assert ballots[v][i] in f;
      }
      if forall c :: 0 <= c < m ==> count[c] == 0 {
        SumOfZerosIsZero(count);
        assert false;
      }
    } else if |ballots| == 0 {
      ZeroSumIsZeros(count);
    } else {
      assert f == [];
      forall c | 0 <= c < m ensures count[c] == 0 {
      }
    }
  }

  /** The leader of the last round is a remaining candidate that either is the last one
      standing or holds a strict majority of the ballots, and no candidate has more
      votes in that round. */
  lemma LastRoundLeader(ballots: seq<seq<nat>>, m: nat, remaining: seq<nat>)
    requires AllBelow(remaining, m)
    requires FindFirst(Count(ballots, m, Final(ballots, m, remaining))).Some?
    ensures var f := Final(ballots, m, remaining);
      var count := Count(ballots, m, f);
      var w := FindFirst(count).value;
      && w in remaining
      && (f == [w] || count[w] > |ballots| / 2)
      && forall c :: 0 <= c < m ==> count[c] <= count[w]
  {
    var f := Final(ballots, m, remaining);
    var count := Count(ballots, m, f);
    CountBounds(ballots, m, f);
    FinalStops(ballots, m, remaining);
    StoppedRoundLeader(f, count, |ballots| / 2);
    assert FindFirst(count).value in multiset(f);
  }

  /** In a round that stopped the loop, the leader is a remaining candidate and either
      the only one or above the majority bound. */
  lemma StoppedRoundLeader(f: seq<nat>, count: seq<nat>, half: nat)
    requires FindFirst(count).Some?
    requires forall c :: 0 <= c < |count| && count[c] > 0 ==> c in f
    requires |f| <= 1 || exists c :: 0 <= c < |count| && count[c] > half
    ensures FindFirst(count).value in f
    ensures f == [FindFirst(count).value] || count[FindFirst(count).value] > half
  {
    var w := FindFirst(count).value;
    if |f| <= 1 {
      assert |f| == 1 && f[0] == w;
    }
  }

  /** The winner is a listed candidate that either is the last one standing or holds a
      strict majority of the ballots in the last round, and no candidate has more votes
      in that round. */
  lemma ElectedWinsTheLastRound(u: seq<seq<real>>, m: nat, cands: seq<nat>)
    requires IsTable(u, m) && AllBelow(cands, m) && Elect(u, m, cands).Some?
    ensures var ballots := PR.Ballots(u, m, cands);
      var f := Final(ballots, m, cands);
      var count := Count(ballots, m, f);
      var w := Elect(u, m, cands).value;
      && w in cands
      && (f == [w] || count[w] > |u| / 2)
      && forall c :: 0 <= c < m ==> count[c] <= count[w]
  {
    LastRoundLeader(PR.Ballots(u, m, cands), m, cands);
  }

  lemma {:induction false} SumOfZerosIsZero(s: seq<nat>)
    requires forall c :: 0 <= c < |s| ==> s[c] == 0
    ensures Sum(s) == 0
  {
    if s != [] {
      SumOfZerosIsZero(s[..|s| - 1]);
    }
  }

  lemma {:induction false} ZeroSumIsZeros(s: seq<nat>)
    requires Sum(s) == 0
    ensures forall c :: 0 <= c < |s| ==> s[c] == 0
  {
    if s != [] {
      ZeroSumIsZeros(s[..|s| - 1]);
    }
  }

  /** One ballot of `countBallots`: the inner loop stops at the first remaining
      candidate and adds it to the count. */
  method CountBallot(ballotCount: seq<nat>, b: seq<nat>, remaining: seq<nat>) returns (r: seq<nat>)
    requires AllBelow(remaining, |ballotCount|)
    ensures r == match FirstRemaining(b, remaining)
      case None => ballotCount
      case Some(i) => ballotCount[b[i] := ballotCount[b[i]] + 1]
  {
    r := ballotCount;
    var i := 0;
    while i < |b|
      invariant i <= |b|
      invariant forall k :: 0 <= k < i ==> b[k] !in remaining
    {
      if b[i] in remaining {
        assert FirstRemaining(b, remaining) == Some(i);
        assert b[i] < |ballotCount| by {
          var k :| 0 <= k < |remaining| && remaining[k] == b[i];
        }
        r := r[b[i] := r[b[i]] + 1];
        return;
      }
      i := i + 1;
    }
  }

  /** `countBallots`: every ballot in turn adds its vote, if any. */
  method CountBallots(ballots: seq<seq<nat>>, m: nat, remaining: seq<nat>) returns (ballotCount: seq<nat>)
    requires AllBelow(remaining, m)
    ensures ballotCount == Count(ballots, m, remaining)
  {
    ballotCount := Zeros(m);
    for v := 0 to |ballots|
      invariant |ballotCount| == m
      invariant forall c :: 0 <= c < m ==> ballotCount[c] == multiset(Votes(ballots[..v], remaining))[c]
    {
      assert ballots[..v + 1][..v] == ballots[..v];
      ballotCount := CountBallot(ballotCount, ballots[v], remaining);
    }
    assert ballots[..|ballots|] == ballots;
  }

  /** `produceCandidate`: count, then remove the loser and recount until one candidate
      remains or somebody holds a majority; the leader of the last count wins. */
  method ProduceCandidate(u: seq<seq<real>>, m: nat, cands: seq<nat>) returns (winner: Option<nat>)
    requires IsTable(u, m) && AllBelow(cands, m)
    ensures winner == Elect(u, m, cands)
  {
    var ballots := PR.Ballots(u, m, cands);
    var candidates: seq<nat> := cands;
    var ballotCount := CountBallots(ballots, m, candidates);
    while |candidates| > 1
      invariant AllBelow(candidates, m)
      invariant Final(ballots, m, candidates) == Final(ballots, m, cands)
      invariant ballotCount == Count(ballots, m, candidates)
      decreases |candidates|
    {
      var hasWinner := HasWinner(ballots, ballotCount);
      if hasWinner.None? {
        return None;
      }
      if hasWinner.value {
        break;
      }
      var loser := FindLoser(ballotCount);
      RoundRemovesOneLoser(ballots, m, candidates);
      candidates := Remove(candidates, loser.value);
      assert AllBelow(candidates, m) by {
        forall k | 0 <= k < |candidates| ensures candidates[k] < m {
          assert candidates[k] in multiset(candidates);
        }
      }
      ballotCount := CountBallots(ballots, m, candidates);
    }
    winner := FindFirst(ballotCount);
  }
}
