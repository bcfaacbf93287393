/** plurality/ElectedTwoPartyPlurality.kt: the electorate first elects its most
    contentious policy, then holds a primary for the side of that policy each voter is
    on, and finally a plurality vote between the two primary winners.

    Voters' stances come from `Electorates.Voter`; utilities from the table `u`, as in
    `Plurality`. Stance values and contention totals are `Decimal`s, so a stance a voter
    lacks (`NULL_STANCE`) makes the totals it enters indeterminate. */
module ElectedTwoPartyPlurality {
  import opened Wrappers
  import opened Decimals
  import opened ElectionSim
  import E = Electorates
  import P = Plurality

  /** `PolicyContentionBallot`: a voter's stances keyed by policy, a later stance on a
      policy replacing an earlier one. */
  type ContentionBallot = map<string, E.Stance>

  /** `poll(CONTENTION_STRATEGY)`: one contention ballot per voter. */
  function ContentionBallots(voters: seq<E.Voter>): (r: seq<ContentionBallot>)
    ensures |r| == |voters| && forall i :: 0 <= i < |voters| ==> r[i] == E.StanceMap(voters[i].stances)
  {
    seq(|voters|, i requires 0 <= i < |voters| => E.StanceMap(voters[i].stances))
  }

  /** `getOrDefault(key, NULL_STANCE)`. */
  function Lookup(b: ContentionBallot, key: string): E.Stance
  {
    if key in b then b[key] else E.NullStance
  }

  /** The contention of one pair of ballots on a policy of the first: |s1 - s2|. */
  function Diff(b1: ContentionBallot, b2: ContentionBallot, key: string): Decimal
    requires key in b1
  {
    Operate(b1[key].value, Lookup(b2, key).value, (l, r) => E.Abs(l - r))
  }

  /** `compute(key)`: the first contention of a policy is stored, later ones are added. */
  function Added(totals: map<string, Decimal>, key: string, d: Decimal): Decimal
  {
    if key in totals then Operate(totals[key], d, (l, r) => l + r) else d
  }

  /** The totals after the pair (b1, b2): every policy of b1 gains its contention. */
  function PairUpdate(totals: map<string, Decimal>, b1: ContentionBallot, b2: ContentionBallot): map<string, Decimal>
  {
    PartialUpdate(totals, b1, b2, b1.Keys)
  }

  /** The totals once the policies in `done`, all of b1, have gained their contention. */
  function PartialUpdate(totals: map<string, Decimal>, b1: ContentionBallot, b2: ContentionBallot, done: set<string>)
    : map<string, Decimal>
    requires done <= b1.Keys
  {
    map k | k in totals.Keys + done :: if k in done then Added(totals, k, Diff(b1, b2, k)) else totals[k]
  }

  /** The totals once every pair before (i, j) in loop order has been added: all pairs
      (i', j') with i' < i and i' <= j', and the pairs (i, j') with i <= j' < j. */
  function Before(ballots: seq<ContentionBallot>, i: nat, j: nat): map<string, Decimal>
    requires i <= j <= |ballots|
    decreases i, j
  {
    if j > i then PairUpdate(Before(ballots, i, j - 1), ballots[i], ballots[j - 1])
    else if i == 0 then map[]
    else Before(ballots, i - 1, |ballots|)
  }

  /** The contention map after the loops over i < n - 1 and i <= j < n. */
  function ContentionTotals(ballots: seq<ContentionBallot>): map<string, Decimal>
  {
    if ballots == [] then map[] else Before(ballots, |ballots| - 1, |ballots| - 1)
  }

  /** Adding the contention of one more policy `key` of b1 to the partial update. */
  lemma PartialUpdateStep(totals: map<string, Decimal>, b1: ContentionBallot, b2: ContentionBallot,
                          keys: set<string>, key: string, r: map<string, Decimal>)
    requires keys <= b1.Keys && key in keys
    requires r == PartialUpdate(totals, b1, b2, b1.Keys - keys)
    ensures PartialUpdate(totals, b1, b2, b1.Keys - (keys - {key})) == r[key := Added(r, key, Diff(b1, b2, key))]
  {
    assert b1.Keys - (keys - {key}) == (b1.Keys - keys) + {key};
    assert key in r <==> key in totals;
    assert key in r ==> r[key] == totals[key];
  }

  lemma PartialUpdateNone(totals: map<string, Decimal>, b1: ContentionBallot, b2: ContentionBallot)
    ensures PartialUpdate(totals, b1, b2, b1.Keys - b1.Keys) == totals
  {
  }

  /** The inner `for((key, value) in v1.stances)` loop, over the keys in any order. */
  method AddPair(totals: map<string, Decimal>, b1: ContentionBallot, b2: ContentionBallot)
    returns (r: map<string, Decimal>)
    ensures r == PairUpdate(totals, b1, b2)
  {
    r := totals;
    var keys := b1.Keys;
    PartialUpdateNone(totals, b1, b2);
    while keys != {}
      invariant keys <= b1.Keys
      invariant r == PartialUpdate(totals, b1, b2, b1.Keys - keys)
      decreases |keys|
    {
      var key :| key in keys;
      PartialUpdateStep(totals, b1, b2, keys, key, r);
      r := r[key := Added(r, key, Diff(b1, b2, key))];
      keys := keys - {key};
    }
    assert b1.Keys - keys == b1.Keys;
  }

  /** The two nested loops over pairs of contention ballots. */
  method AccumulateContention(ballots: seq<ContentionBallot>) returns (totals: map<string, Decimal>)
    ensures totals == ContentionTotals(ballots)
  {
    totals := map[];
    var i := 0;
    while i < |ballots| - 1
      invariant i <= |ballots|
      invariant |ballots| > 0 ==> i <= |ballots| - 1
      invariant totals == Before(ballots, i, i)
    {
      var j := i;
      while j < |ballots|
        invariant i <= j <= |ballots|
        invariant totals == Before(ballots, i, j)
      {
        totals := AddPair(totals, ballots[i], ballots[j]);
        j := j + 1;
      }
      i := i + 1;
    }
  }

  /** Policy `key` is held, with a present value, by every ballot. */
  predicate AllPresent(ballots: seq<ContentionBallot>, key: string)
  {
    forall i :: 0 <= i < |ballots| ==> key in ballots[i] && ballots[i][key].value.Present?
  }

  function Value(ballots: seq<ContentionBallot>, key: string, i: nat): real
    requires AllPresent(ballots, key) && i < |ballots|
  {
    ballots[i][key].value.v
  }

  /** Σ |s_i - s_j'| for i <= j' < j. */
  function RowSum(ballots: seq<ContentionBallot>, key: string, i: nat, j: nat): real
    requires AllPresent(ballots, key) && i < |ballots| && j <= |ballots|
  {
    if j <= i then 0.0
    else RowSum(ballots, key, i, j - 1) + E.Abs(Value(ballots, key, i) - Value(ballots, key, j - 1))
  }

  /** Σ over i' < i of Σ |s_i' - s_j| for i' <= j < n. */
  function PairSum(ballots: seq<ContentionBallot>, key: string, i: nat): real
    requires AllPresent(ballots, key) && i <= |ballots|
  {
    if i == 0 then 0.0 else PairSum(ballots, key, i - 1) + RowSum(ballots, key, i - 1, |ballots|)
  }

  lemma {:induction false} BeforeIsPairSum(ballots: seq<ContentionBallot>, key: string, i: nat, j: nat)
    requires AllPresent(ballots, key) && i <= j <= |ballots| && i < |ballots|
    ensures i > 0 || j > 0 ==>
      key in Before(ballots, i, j) &&
      Before(ballots, i, j)[key] == Present(PairSum(ballots, key, i) + RowSum(ballots, key, i, j))
    decreases i, j
  {
    if j > i {
      BeforeIsPairSum(ballots, key, i, j - 1);
      if i == 0 && j == 1 {
        assert key !in Before(ballots, i, j - 1);
      }
    } else if i > 0 {
      BeforeIsPairSum(ballots, key, i - 1, |ballots|);
    }
  }

  /** With every stance on a policy present, its contention total is
      Σ |s_i - s_j| over the pairs i < n - 1, i <= j < n. */
  lemma ContentionIsPairSum(ballots: seq<ContentionBallot>, key: string)
    requires AllPresent(ballots, key) && |ballots| >= 2
    ensures key in ContentionTotals(ballots)
    ensures ContentionTotals(ballots)[key] == Present(PairSum(ballots, key, |ballots| - 1))
  {
    BeforeIsPairSum(ballots, key, |ballots| - 1, |ballots| - 1);
  }

  lemma {:induction false} RowSumNonNegative(ballots: seq<ContentionBallot>, key: string, i: nat, j: nat)
    requires AllPresent(ballots, key) && i < |ballots| && j <= |ballots|
    ensures RowSum(ballots, key, i, j) >= 0.0
  {
    if j > i {
      RowSumNonNegative(ballots, key, i, j - 1);
    }
  }

  /** A pair sum is never negative, and it is 0 when all voters agree. */
  lemma {:induction false} PairSumBounds(ballots: seq<ContentionBallot>, key: string, i: nat)
    requires AllPresent(ballots, key) && i <= |ballots|
    ensures PairSum(ballots, key, i) >= 0.0
    ensures (forall a :: 0 <= a < |ballots| ==> Value(ballots, key, a) == Value(ballots, key, 0)) ==>
      PairSum(ballots, key, i) == 0.0
  {
    if i > 0 {
      PairSumBounds(ballots, key, i - 1);
      RowSumNonNegative(ballots, key, i - 1, |ballots|);
      if forall a :: 0 <= a < |ballots| ==> Value(ballots, key, a) == Value(ballots, key, 0) {
        RowSumOfAgreement(ballots, key, i - 1, |ballots|);
      }
    }
  }

  lemma {:induction false} RowSumOfAgreement(ballots: seq<ContentionBallot>, key: string, i: nat, j: nat)
    requires AllPresent(ballots, key) && i < |ballots| && j <= |ballots|
    requires forall a :: 0 <= a < |ballots| ==> Value(ballots, key, a) == Value(ballots, key, 0)
    ensures RowSum(ballots, key, i, j) == 0.0
  {
    if j > i {
      RowSumOfAgreement(ballots, key, i, j - 1);
    }
  }

  /** Once a pair (a, b) has been added in which voter b has no present stance on a
      policy of voter a (`NULL_STANCE` is indeterminate), that policy's total stays
      indeterminate. */
  lemma {:induction false} BeforeIndeterminate(ballots: seq<ContentionBallot>, key: string, a: nat, b: nat, i: nat, j: nat)
    requires a <= b < |ballots| && key in ballots[a] && Lookup(ballots[b], key).value.Indeterminate?
    requires i <= j <= |ballots| && (a < i || (a == i && b < j))
    ensures key in Before(ballots, i, j) && Before(ballots, i, j)[key].Indeterminate?
    decreases i, j
  {
    if j > i {
      if a == i && b == j - 1 {
      } else {
        BeforeIndeterminate(ballots, key, a, b, i, j - 1);
      }
    } else {
      BeforeIndeterminate(ballots, key, a, b, i - 1, |ballots|);
    }
  }

  /** A policy of a voter other than the last, on which some voter at or after it has no
      present stance, has an indeterminate contention total. */
  lemma MissingStanceMakesContentionIndeterminate(ballots: seq<ContentionBallot>, key: string, a: nat, b: nat)
    requires a <= b < |ballots| && a < |ballots| - 1
    requires key in ballots[a] && Lookup(ballots[b], key).value.Indeterminate?
    ensures key in ContentionTotals(ballots) && ContentionTotals(ballots)[key].Indeterminate?
  {
    BeforeIndeterminate(ballots, key, a, b, |ballots| - 1, |ballots| - 1);
  }

  /** The policies with a total are those of the ballots before the last one. */
  lemma {:induction false} BeforeKeys(ballots: seq<ContentionBallot>, i: nat, j: nat, key: string)
    requires i <= j <= |ballots|
    ensures key in Before(ballots, i, j) <==>
      (exists a :: 0 <= a < i && key in ballots[a]) || (j > i && key in ballots[i])
    decreases i, j
  {
    if j > i {
      BeforeKeys(ballots, i, j - 1, key);
    } else if i > 0 {
      BeforeKeys(ballots, i - 1, |ballots|, key);
      if key in ballots[i - 1] {
        assert exists a :: 0 <= a < i && key in ballots[a];
      }
    }
  }

  /** The contention map has an entry exactly for the policies of the ballots other than
      the last; in particular it is empty with fewer than two voters. */
  lemma ContentionKeys(ballots: seq<ContentionBallot>, key: string)
    ensures key in ContentionTotals(ballots) <==> exists a :: 0 <= a < |ballots| - 1 && key in ballots[a]
  {
    if ballots != [] {
      BeforeKeys(ballots, |ballots| - 1, |ballots| - 1, key);
    }
  }

  /** A policy whose total no other policy's total exceeds (indeterminate ranking high). */
  ghost predicate MostContentious(totals: map<string, Decimal>, p: string)
  {
    p in totals && forall k :: k in totals ==> Compare(totals[k], totals[p], true) <= 0
  }

  /** No policy in `seen` has a total above that of `p`. */
  ghost predicate AtLeastAll(totals: map<string, Decimal>, seen: set<string>, p: string)
    requires seen <= totals.Keys && p in totals
  {
    forall k :: k in seen ==> Compare(totals[k], totals[p], true) <= 0
  }

  /** One step of the `reduce`: the larger of the accumulated entry `a` and the next
      entry `b` is at least every entry seen so far. */
  lemma ReduceStep(totals: map<string, Decimal>, seen: set<string>, a: string, b: string)
    requires seen <= totals.Keys && a in totals && b in totals && AtLeastAll(totals, seen, a)
    ensures Compare(totals[a], totals[b], true) > 0 ==> AtLeastAll(totals, seen + {b}, a)
    ensures Compare(totals[a], totals[b], true) <= 0 ==> AtLeastAll(totals, seen + {b}, b)
  {
    CompareAntisymmetric(totals[a], totals[b], true);
    if Compare(totals[a], totals[b], true) <= 0 {
      forall k | k in seen ensures Compare(totals[k], totals[b], true) <= 0 {
        CompareTransitive(totals[k], totals[a], totals[b], true);
      }
    }
  }

  /** Moving one entry from the unvisited set to the visited set keeps the two a
      partition of the keys. */
  lemma MoveToSeen(keys: set<string>, entries: set<string>, seen: set<string>, b: string)
    requires entries + seen == keys && entries !! seen && b in entries
    ensures (entries - {b}) + (seen + {b}) == keys && (entries - {b}) !! (seen + {b})
  {
  }

  /** The `reduce` over the contention entries, in the map's iteration order: the
      accumulated entry is kept only when its total is greater than the next one's.
      None where `orElseThrow` throws. */
  method ElectPolicy(totals: map<string, Decimal>) returns (policy: Option<string>)
    ensures policy.None? <==> totals == map[]
    ensures policy.Some? ==> MostContentious(totals, policy.value)
  {
    policy := None;
    var entries := totals.Keys;
    ghost var seen: set<string> := {};
    while entries != {}
      invariant entries + seen == totals.Keys && entries !! seen
      invariant policy.None? <==> seen == {}
      invariant policy.Some? ==> policy.value in seen && AtLeastAll(totals, seen, policy.value)
      decreases |entries|
    {
      var b :| b in entries;
      if policy.None? {
        assert AtLeastAll(totals, seen + {b}, b) by {
          CompareAntisymmetric(totals[b], totals[b], true);
        }
        policy := Some(b);
      } else {
        ReduceStep(totals, seen, policy.value, b);
        if Compare(totals[policy.value], totals[b], true) <= 0 {
          policy := Some(b);
        }
      }
      MoveToSeen(totals.Keys, entries, seen, b);
      entries := entries - {b};
      seen := seen + {b};
    }
    assert seen == totals.Keys;
    if policy.None? {
      assert totals.Keys == {};
    } else {
      assert totals != map[];
    }
  }

  /** The `forEach` of `PrimaryVotingStrategy.accept`: the voter's last stance on the
      policy decides whether it is above 0.5 (indeterminate ranking high); false without
      any stance on the policy. */
  function ForParty(stances: seq<E.Stance>, policy: string): bool
  {
    if stances == [] then false
    else
      var s := stances[|stances| - 1];
      if s.policy.s == policy then Compare(s.value, Present(0.5), true) > 0
      else ForParty(stances[..|stances| - 1], policy)
  }

  /** The voter is for the party exactly when its stance on the policy, as a stance
      map looks it up, is above 0.5. */
  lemma {:induction false} ForPartyIsStanceLookup(stances: seq<E.Stance>, policy: string)
    ensures ForParty(stances, policy) <==>
      policy in E.StanceMap(stances) && Compare(E.StanceMap(stances)[policy].value, Present(0.5), true) > 0
  {
    if stances != [] {
      var n := |stances| - 1;
      ForPartyIsStanceLookup(stances[..n], policy);
      assert E.StanceMap(stances) == E.StanceMap(stances[..n])[stances[n].policy.s := stances[n]];
    }
  }

  datatype PrimaryVote = PrimaryVote(candidate: nat, forParty: bool)

  /** `PrimaryVotingStrategy(policy).accept`: the plurality choice among all candidates and
      the voter's side; None where it throws. */
  function PrimaryBallot(uv: seq<real>, cands: seq<nat>, stances: seq<E.Stance>, policy: string): Option<PrimaryVote>
    requires AllBelow(cands, |uv|)
  {
    match P.Ballot(uv, cands)
    case None => None
    case Some(c) => Some(PrimaryVote(c, ForParty(stances, policy)))
  }

  method PrimaryAccept(uv: seq<real>, cands: seq<nat>, stances: seq<E.Stance>, policy: string)
    returns (ballot: Option<PrimaryVote>)
    requires AllBelow(cands, |uv|)
    ensures ballot == PrimaryBallot(uv, cands, stances, policy)
  {
    var outCandidate := P.Accept(uv, cands);
    var forParty := false;
    for i := 0 to |stances|
      invariant forParty == ForParty(stances[..i], policy)
    {
      assert stances[..i + 1][..i] == stances[..i];
      if stances[i].policy.s == policy {
        forParty := Compare(stances[i].value, Present(0.5), true) > 0;
      }
    }
    assert stances[..|stances|] == stances;
    if outCandidate.None? {
      return None;
    }
    ballot := Some(PrimaryVote(outCandidate.value, forParty));
  }

  /** `poll(PrimaryVotingStrategy(policy))`, None when some voter's ballot fails. */
  function PrimaryBallots(u: seq<seq<real>>, m: nat, cands: seq<nat>, voters: seq<E.Voter>, policy: string)
    : (r: Option<seq<PrimaryVote>>)
    requires IsTable(u, m) && AllBelow(cands, m) && |voters| == |u|
  {
    if u == [] then Some([])
    else
      var n := |u| - 1;
      match PrimaryBallots(u[..n], m, cands, voters[..n], policy)
      case None => None
      case Some(votes) =>
        match PrimaryBallot(u[n], cands, voters[n].stances, policy)
        case None => None
        case Some(b) => Some(votes + [b])
  }

  /** The poll fails exactly when some voter's plurality ballot fails; otherwise it
      holds each voter's primary ballot, in voter order. */
  lemma {:induction false} PrimaryBallotsAreTheVoters(u: seq<seq<real>>, m: nat, cands: seq<nat>,
                                                      voters: seq<E.Voter>, policy: string)
    requires IsTable(u, m) && AllBelow(cands, m) && |voters| == |u|
    ensures PrimaryBallots(u, m, cands, voters, policy).None? <==>
      exists v :: 0 <= v < |u| && P.Ballot(u[v], cands).None?
    ensures PrimaryBallots(u, m, cands, voters, policy).Some? ==>
      && |PrimaryBallots(u, m, cands, voters, policy).value| == |u|
      && forall v :: 0 <= v < |u| ==>
        Some(PrimaryBallots(u, m, cands, voters, policy).value[v]) ==
        PrimaryBallot(u[v], cands, voters[v].stances, policy)
  {
    if u != [] {
      var n := |u| - 1;
      var (us, vs) := (u[..n], voters[..n]);
      PrimaryBallotsAreTheVoters(us, m, cands, vs, policy);
      var prev := PrimaryBallots(us, m, cands, vs, policy);
      var last := PrimaryBallot(u[n], cands, voters[n].stances, policy);
      if prev.None? {
        var v :| 0 <= v < n && P.Ballot(us[v], cands).None?;
        assert us[v] == u[v];
      } else if last.None? {
        assert P.Ballot(u[n], cands).None?;
      } else {
        var r := prev.value + [last.value];
        assert PrimaryBallots(u, m, cands, voters, policy) == Some(r);
        forall v | 0 <= v < |u|
          ensures P.Ballot(u[v], cands).Some?
          ensures Some(r[v]) == PrimaryBallot(u[v], cands, voters[v].stances, policy)
        {
          if v < n {
            assert us[v] == u[v] && vs[v] == voters[v];
          }
        }
      }
    }
  }

  method PrimaryPoll(u: seq<seq<real>>, m: nat, cands: seq<nat>, voters: seq<E.Voter>, policy: string)
    returns (ballots: Option<seq<PrimaryVote>>)
    requires IsTable(u, m) && AllBelow(cands, m) && |voters| == |u|
    ensures ballots == PrimaryBallots(u, m, cands, voters, policy)
  {
    var votes: seq<PrimaryVote> := [];
    for v := 0 to |u|
      invariant PrimaryBallots(u[..v], m, cands, voters[..v], policy) == Some(votes)
    {
      var ballot := PrimaryAccept(u[v], cands, voters[v].stances, policy);
      assert u[..v + 1][..v] == u[..v] && voters[..v + 1][..v] == voters[..v];
      if ballot.None? {
        PrimaryBallotsAreTheVoters(u, m, cands, voters, policy);
        return None;
      }
      votes := votes + [ballot.value];
    }
    assert u[..|u|] == u && voters[..|u|] == voters;
    ballots := Some(votes);
  }

  /** `filter { it.forParty == side }.mapTo(...) { it.candidate }`: the candidates voted
      for by the ballots on one side, in ballot order. */
  function SideVotes(ballots: seq<PrimaryVote>, side: bool): (r: seq<nat>)
    ensures forall c :: c in r ==> PrimaryVote(c, side) in ballots
  {
    if ballots == [] then []
    else
      var n := |ballots| - 1;
      var init := SideVotes(ballots[..n], side);
      assert forall c :: c in init ==> PrimaryVote(c, side) in ballots by {
        forall c | c in init ensures PrimaryVote(c, side) in ballots {
          var v :| 0 <= v < n && ballots[..n][v] == PrimaryVote(c, side);
          assert ballots[v] == PrimaryVote(c, side);
        }
      }
      init + (if ballots[n].forParty == side then [ballots[n].candidate] else [])
  }

  /** Every primary ballot is on exactly one side. */
  lemma {:induction false} SidesPartitionBallots(ballots: seq<PrimaryVote>)
    ensures |SideVotes(ballots, true)| + |SideVotes(ballots, false)| == |ballots|
  {
    if ballots != [] {
      SidesPartitionBallots(ballots[..|ballots| - 1]);
    }
  }

  /** A side's nominee: the most voted candidate among that side's primary votes; None
      where `findFirst` throws on an empty side. */
  function Nominee(ballots: seq<PrimaryVote>, m: nat, side: bool): (r: Option<nat>)
    ensures r.Some? ==> r.value < m
  {
    FindFirst(Tally(SideVotes(ballots, side), m))
  }

  /** The general election between the two sides' nominees; None where a side has no
      nominee or a ballot fails. */
  function General(u: seq<seq<real>>, m: nat, f: Option<nat>, a: Option<nat>): Option<nat>
    requires IsTable(u, m) && (f.Some? ==> f.value < m) && (a.Some? ==> a.value < m)
  {
    if f.None? || a.None? then None else P.Elect(u, m, [f.value, a.value])
  }

  /** Everything after the policy election: primaries, nominees and the general
      election between the two nominees; None where the source throws. */
  function Outcome(u: seq<seq<real>>, m: nat, cands: seq<nat>, voters: seq<E.Voter>, policy: string): Option<nat>
    requires IsTable(u, m) && AllBelow(cands, m) && |voters| == |u|
  {
    match PrimaryBallots(u, m, cands, voters, policy)
    case None => None
    case Some(ballots) => General(u, m, Nominee(ballots, m, true), Nominee(ballots, m, false))
  }

  /** Each nominee has the most votes on its side and was voted for on it; a side
      without votes has no nominee. */
  lemma NomineeHasMostSideVotes(ballots: seq<PrimaryVote>, m: nat, side: bool)
    requires forall v :: 0 <= v < |ballots| ==> ballots[v].candidate < m
    ensures Nominee(ballots, m, side).None? <==> SideVotes(ballots, side) == []
    ensures Nominee(ballots, m, side).Some? ==>
      var w := Nominee(ballots, m, side).value;
      var counts := Tally(SideVotes(ballots, side), m);
      && w < m
      && PrimaryVote(w, side) in ballots
      && forall c :: 0 <= c < m ==> counts[c] <= counts[w]
  {
    var votes := SideVotes(ballots, side);
    if votes != [] {
      assert votes[0] < m by {
        assert votes[0] in votes;
        assert PrimaryVote(votes[0], side) in ballots;
      }
      assert Tally(votes, m)[votes[0]] > 0 by {
        assert votes[0] in multiset(votes);
      }
    }
    if Nominee(ballots, m, side).Some? {
      var w := Nominee(ballots, m, side).value;
      CountedIsVoted(votes, m, w);
    }
  }

  /** The general election's winner is one of the two nominees, with a general-election
      vote count no other candidate exceeds. */
  lemma GeneralWinnerIsANominee(u: seq<seq<real>>, m: nat, f: nat, a: nat)
    requires IsTable(u, m) && f < m && a < m
    ensures General(u, m, Some(f), Some(a)).Some? ==>
      var w := General(u, m, Some(f), Some(a)).value;
      var counts := P.Count(u, m, [f, a]).value;
      && (w == f || w == a)
      && forall c :: 0 <= c < m ==> counts[c] <= counts[w]
  {
    P.ElectedHasMostVotes(u, m, [f, a]);
    if General(u, m, Some(f), Some(a)).Some? {
      assert General(u, m, Some(f), Some(a)) == P.Elect(u, m, [f, a]);
      assert P.Elect(u, m, [f, a]).value in [f, a];
    }
  }

  /** With utilities that are never negative (as `Electorates.UtilityInUnitInterval`
      shows for voters' utilities) the general election fails only without voters or
      without a nominee. */
  lemma GeneralFailsOnlyWithoutNominees(u: seq<seq<real>>, m: nat, f: Option<nat>, a: Option<nat>)
    requires IsTable(u, m) && (f.Some? ==> f.value < m) && (a.Some? ==> a.value < m)
    requires forall v, c :: 0 <= v < |u| && 0 <= c < m ==> u[v][c] >= 0.0
    ensures General(u, m, f, a).None? <==> |u| == 0 || f.None? || a.None?
  {
    if f.Some? && a.Some? {
      var finalists := [f.value, a.value];
      P.ElectedHasMostVotes(u, m, finalists);
      forall v | 0 <= v < |u| ensures P.Ballot(u[v], finalists).Some? {
        P.BallotFailsOnlyWithoutCandidates(u[v], finalists);
      }
    }
  }

  /** A side's count multiset filled from its primary ballots, and its `findFirst`. */
  method Nominate(ballots: seq<PrimaryVote>, m: nat, side: bool) returns (nominee: Option<nat>)
    requires forall v :: 0 <= v < |ballots| ==> ballots[v].candidate < m
    ensures nominee == Nominee(ballots, m, side)
  {
    var votes := SideVotes(ballots, side);
    assert AllBelow(votes, m) by {
      forall i | 0 <= i < |votes| ensures votes[i] < m {
        assert PrimaryVote(votes[i], side) in ballots;
      }
    }
    var ballotCount := AddAll(Zeros(m), votes);
    AddAllToZeros(ballotCount, votes, m);
    nominee := FindFirst(ballotCount);
  }

  /** The primary on `policy` and the general election that follows it. */
  method PrimaryAndGeneral(u: seq<seq<real>>, m: nat, cands: seq<nat>, voters: seq<E.Voter>, policy: string)
    returns (winner: Option<nat>)
    requires IsTable(u, m) && AllBelow(cands, m) && |voters| == |u|
    ensures winner == Outcome(u, m, cands, voters, policy)
  {
    var primaryBallots := PrimaryPoll(u, m, cands, voters, policy);
    if primaryBallots.None? {
      return None;
    }
    var ballots := primaryBallots.value;
    PrimaryBallotsAreTheVoters(u, m, cands, voters, policy);
    assert forall v :: 0 <= v < |ballots| ==> ballots[v].candidate < m by {
      forall v | 0 <= v < |ballots| ensures ballots[v].candidate < m {
        assert Some(ballots[v]) == PrimaryBallot(u[v], cands, voters[v].stances, policy);
      }
    }
    var forPartyCandidate := Nominate(ballots, m, true);
    var againstPartyCandidate := Nominate(ballots, m, false);
    if forPartyCandidate.None? || againstPartyCandidate.None? {
      return None;
    }
    winner := GeneralElection(u, m, forPartyCandidate.value, againstPartyCandidate.value);
  }

  /** The general election: a plurality poll between the two nominees. */
  method GeneralElection(u: seq<seq<real>>, m: nat, f: nat, a: nat) returns (winner: Option<nat>)
    requires IsTable(u, m) && f < m && a < m
    ensures winner == General(u, m, Some(f), Some(a))
  {
    var ballotCount := P.PollAndCount(u, m, [f, a]);
    if ballotCount.None? {
      return None;
    }
    winner := FindFirst(ballotCount.value);
  }

  /** `produceCandidate`, returning the elected policy beside the winner. */
  method ProduceCandidate(u: seq<seq<real>>, m: nat, cands: seq<nat>, voters: seq<E.Voter>)
    returns (electedPolicy: Option<string>, winner: Option<nat>)
    requires IsTable(u, m) && AllBelow(cands, m) && |voters| == |u|
    ensures electedPolicy.None? <==> ContentionTotals(ContentionBallots(voters)) == map[]
    ensures electedPolicy.None? ==> winner.None?
    ensures electedPolicy.Some? ==>
      && MostContentious(ContentionTotals(ContentionBallots(voters)), electedPolicy.value)
      && winner == Outcome(u, m, cands, voters, electedPolicy.value)
  {
    var policyPolling := ContentionBallots(voters);
    var policyContentionMap := AccumulateContention(policyPolling);
    electedPolicy := ElectPolicy(policyContentionMap);
    if electedPolicy.None? {
      return None, None;
    }
    winner := PrimaryAndGeneral(u, m, cands, voters, electedPolicy.value);
  }
}
