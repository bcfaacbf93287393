/** sim/Electorate.kt: voters, candidates and stances; the spatial utility of a
    candidate for a voter; running propensity and the greedy generation of candidates
    from voters; polling; and the regret of an election's outcome. */
module Electorates {
  import opened Wrappers
  import opened Decimals
  import Roots
  import U = Utils

  /** `Policy`: a string wrapper of kind policy. Policies are equal when their texts are. */
  function Policy(s: string): U.StringWrapper
  {
    U.StringWrapper(U.PolicyKind, s)
  }

  datatype Stance = Stance(policy: U.StringWrapper, value: Decimal)

  /** `NULL_STANCE`: what a candidate holds on a policy it has no stance on. */
  const NullStance: Stance := Stance(Policy("null"), Indeterminate)

  datatype Voter = Voter(stances: seq<Stance>, runningPropensity: Decimal)

  /** A candidate's stances, keyed by policy text (the identity of a `Policy`). */
  datatype Candidate = Candidate(stances: map<string, Stance>)

  datatype Electorate = Electorate(voters: seq<Voter>, candidates: seq<Candidate>)

  datatype RegretMetrics = RegretMetrics(rawUtility: Decimal, regret: Decimal, normalizedRegret: Decimal)

  /** The metrics of an election without a winner: all three values indeterminate. */
  const IndeterminateMetrics: RegretMetrics := RegretMetrics(Indeterminate, Indeterminate, Indeterminate)

  /** `i` is the position of the last stance in `l` on policy `k`. */
  ghost predicate LastStanceOn(l: seq<Stance>, k: string, i: int)
  {
    0 <= i < |l| && l[i].policy.s == k && forall j :: i < j < |l| ==> l[j].policy.s != k
  }

  /** The stance map a candidate is built from: one entry per policy, where a later
      stance on the same policy replaces an earlier one. */
  function StanceMap(l: seq<Stance>): (r: map<string, Stance>)
    ensures forall k :: k in r <==> exists i :: 0 <= i < |l| && l[i].policy.s == k
    ensures forall k :: k in r ==> exists i :: LastStanceOn(l, k, i) && l[i] == r[k]
  {
    if l == [] then map[]
    else
      var n := |l| - 1;
      var init := StanceMap(l[..n]);
      var r := init[l[n].policy.s := l[n]];
      StanceMapStep(l, l[..n], init, r);
      r
  }

  lemma StanceMapStep(l: seq<Stance>, pre: seq<Stance>, init: map<string, Stance>, r: map<string, Stance>)
    requires l != [] && pre == l[..|l| - 1]
    requires forall k :: k in init <==> exists i :: 0 <= i < |pre| && pre[i].policy.s == k
    requires forall k :: k in init ==> exists i :: LastStanceOn(pre, k, i) && pre[i] == init[k]
    requires r == init[l[|l| - 1].policy.s := l[|l| - 1]]
    ensures forall k :: k in r <==> exists i :: 0 <= i < |l| && l[i].policy.s == k
    ensures forall k :: k in r ==> exists i :: LastStanceOn(l, k, i) && l[i] == r[k]
  {
    forall k ensures k in r <==> exists i :: 0 <= i < |l| && l[i].policy.s == k {
      StanceMapKey(l, pre, init, r, k);
    }
    forall k | k in r ensures exists i :: LastStanceOn(l, k, i) && l[i] == r[k] {
      StanceMapValue(l, pre, init, r, k);
    }
  }

  lemma StanceMapKey(l: seq<Stance>, pre: seq<Stance>, init: map<string, Stance>, r: map<string, Stance>, k: string)
    requires l != [] && pre == l[..|l| - 1]
    requires k in init <==> exists i :: 0 <= i < |pre| && pre[i].policy.s == k
    requires r == init[l[|l| - 1].policy.s := l[|l| - 1]]
    ensures k in r <==> exists i :: 0 <= i < |l| && l[i].policy.s == k
  {
    if k in init {
      var i :| 0 <= i < |pre| && pre[i].policy.s == k;
      assert l[i].policy.s == k;
    }
    if exists i :: 0 <= i < |l| && l[i].policy.s == k {
      var i :| 0 <= i < |l| && l[i].policy.s == k;
      if i < |pre| {
        assert pre[i].policy.s == k;
      }
    }
  }

  lemma StanceMapValue(l: seq<Stance>, pre: seq<Stance>, init: map<string, Stance>, r: map<string, Stance>, k: string)
    requires l != [] && pre == l[..|l| - 1]
    requires k in init ==> exists i :: LastStanceOn(pre, k, i) && pre[i] == init[k]
    requires r == init[l[|l| - 1].policy.s := l[|l| - 1]]
    requires k in r
    ensures exists i :: LastStanceOn(l, k, i) && l[i] == r[k]
  {
    var n := |l| - 1;
    if k == l[n].policy.s {
      assert LastStanceOn(l, k, n);
    } else {
      var i :| LastStanceOn(pre, k, i) && pre[i] == init[k];
      assert LastStanceOn(l, k, i);
    }
  }

  /** `Candidate(stanceList)` and `Candidate(voter)`. */
  function CandidateOf(stances: seq<Stance>): Candidate
  {
    Candidate(StanceMap(stances))
  }

  /** `Candidate.getStance`: the stance on the policy, or `NULL_STANCE`. */
  function GetStance(c: Candidate, p: U.StringWrapper): (r: Stance)
    ensures p.s in c.stances ==> r == c.stances[p.s]
    ensures p.s !in c.stances ==> r == NullStance && r.value.Indeterminate?
  {
    if p.s in c.stances then c.stances[p.s] else NullStance
  }

  function Abs(x: real): real
  {
    if x < 0.0 then -x else x
  }

  /** One policy's term of the utility: (1 - |candidate - voter|)^2, empty when
      either value is indeterminate. */
  function Closeness(candidateValue: Decimal, voterValue: Decimal): (r: Option<real>)
    ensures r.Some? <==> candidateValue.Present? && voterValue.Present?
    ensures r.Some? ==> r.value >= 0.0
    ensures r.Some? && 0.0 <= candidateValue.v <= 1.0 && 0.0 <= voterValue.v <= 1.0 ==> r.value <= 1.0
  {
    match BiMap(candidateValue, voterValue, (l, r) => 1.0 - Abs(l - r))
    case Some(x) =>
      assert candidateValue.Present? && voterValue.Present? ==>
        x == 1.0 - Abs(candidateValue.v - voterValue.v);
      if 0.0 <= x <= 1.0 then
        SquareAtMostOne(x);
        Some(x * x)
      else
        Some(x * x)
    case None => None
  }

  lemma SquareAtMostOne(x: real)
    requires 0.0 <= x <= 1.0
    ensures 0.0 <= x * x <= 1.0
  {
    assert x * x <= x * 1.0;
  }

  /** The reduction of the terms with `biMap(+)` from zero: empty as soon as one term is. */
  function SumTerms(terms: seq<Option<real>>): (r: Option<real>)
    ensures r.Some? <==> forall i :: 0 <= i < |terms| ==> terms[i].Some?
    ensures r.Some? && (forall i :: 0 <= i < |terms| ==> terms[i].value >= 0.0) ==> r.value >= 0.0
  {
    if terms == [] then Some(0.0)
    else
      var n := |terms| - 1;
      var init := SumTerms(terms[..n]);
      assert forall i :: 0 <= i < n ==> terms[..n][i] == terms[i];
      if init.Some? && terms[n].Some? then Some(init.value + terms[n].value) else None
  }

  function Terms(v: Voter, c: Candidate): (r: seq<Option<real>>)
    ensures |r| == |v.stances|
    ensures forall i :: 0 <= i < |r| ==>
      r[i] == Closeness(GetStance(c, v.stances[i].policy).value, v.stances[i].value)
  {
    seq(|v.stances|, i requires 0 <= i < |v.stances| =>
      Closeness(GetStance(c, v.stances[i].policy).value, v.stances[i].value))
  }

  /** `policyScale`: the root of the number of the voter's stances. */
  function PolicyScale(v: Voter): (r: real)
    requires |v.stances| > 0
    ensures r >= 1.0
  {
    Roots.FloorRootAtLeastOne(|v.stances| as real);
    Roots.FloorRoot(|v.stances| as real)
  }

  /** `Voter.calculateCandidateUtility`: the root of the summed squared closeness over
      the voter's stances, divided by `policyScale`. It is present exactly when every
      one of the voter's policies has a present value on both sides. A voter without
      stances divides by a zero scale, which throws, so the voter must hold a stance. */
  function Utility(v: Voter, c: Candidate): (r: Decimal)
    requires |v.stances| > 0
    ensures r.Present? <==> forall i :: 0 <= i < |v.stances| ==>
      GetStance(c, v.stances[i].policy).value.Present? && v.stances[i].value.Present?
    ensures r.Present? ==> r.v >= 0.0
  {
    var terms := Terms(v, c);
    match SumTerms(terms)
    case Some(t) => Present(Roots.FloorRoot(t) / PolicyScale(v))
    case None => Indeterminate
  }

  /** A candidate without a stance on one of the voter's policies gives an indeterminate
      utility, because the lookup falls back to `NULL_STANCE`. */
  lemma MissingPolicyMakesUtilityIndeterminate(v: Voter, c: Candidate, i: nat)
    requires |v.stances| > 0 && i < |v.stances|
    requires v.stances[i].policy.s !in c.stances
    ensures Utility(v, c) == Indeterminate
  {
  }

  lemma {:induction false} SumTermsAtMost(terms: seq<Option<real>>)
    requires forall i :: 0 <= i < |terms| ==> terms[i].Some? && 0.0 <= terms[i].value <= 1.0
    ensures SumTerms(terms).Some? && SumTerms(terms).value <= |terms| as real
  {
    if terms != [] {
      var n := |terms| - 1;
      assert forall i :: 0 <= i < n ==> terms[..n][i] == terms[i];
      SumTermsAtMost(terms[..n]);
    }
  }

  lemma DivideAtMost(x: real, y: real)
    requires 0.0 <= x <= y && y > 0.0
    ensures x / y <= 1.0
  {
  }

  /** With stances in [0, 1] on both sides, utility lies in [0, 1]. */
  lemma UtilityInUnitInterval(v: Voter, c: Candidate)
    requires |v.stances| > 0
    requires Utility(v, c).Present?
    requires forall i :: 0 <= i < |v.stances| ==>
      0.0 <= v.stances[i].value.v <= 1.0 && 0.0 <= GetStance(c, v.stances[i].policy).value.v <= 1.0
    ensures 0.0 <= Utility(v, c).v <= 1.0
  {
    var terms := Terms(v, c);
    SumTermsAtMost(terms);
    var t := SumTerms(terms).value;
    Roots.FloorRootMonotone(t, |v.stances| as real);
    DivideAtMost(Roots.FloorRoot(t), PolicyScale(v));
  }

  lemma {:induction false} SumOfOnes(terms: seq<Option<real>>)
    requires forall i :: 0 <= i < |terms| ==> terms[i] == Some(1.0)
    ensures SumTerms(terms) == Some(|terms| as real)
  {
    if terms != [] {
      var n := |terms| - 1;
      assert forall i :: 0 <= i < n ==> terms[..n][i] == terms[i];
      SumOfOnes(terms[..n]);
    }
  }

  predicate DistinctPolicies(stances: seq<Stance>)
  {
    forall i, j :: 0 <= i < j < |stances| ==> stances[i].policy.s != stances[j].policy.s
  }

  /** A candidate built from a voter with distinct policies holds each of the voter's stances. */
  lemma OwnStance(stances: seq<Stance>, i: nat)
    requires DistinctPolicies(stances) && i < |stances|
    ensures GetStance(CandidateOf(stances), stances[i].policy) == stances[i]
  {
    var m := StanceMap(stances);
    var p := stances[i].policy.s;
    assert p in m;
    var k :| LastStanceOn(stances, p, k) && stances[k] == m[p];
    assert k == i;
  }

  lemma SelfCloseness(d: Decimal)
    requires d.Present?
    ensures Closeness(d, d) == Some(1.0)
  {
    assert Abs(d.v - d.v) == 0.0;
    assert BiMap(d, d, (l, r) => 1.0 - Abs(l - r)) == Some(1.0 - Abs(d.v - d.v));
  }

  /** A candidate built from a voter with distinct, present stances has utility exactly 1
      for that voter. */
  lemma OwnCandidateHasUtilityOne(v: Voter)
    requires |v.stances| > 0 && DistinctPolicies(v.stances)
    requires forall i :: 0 <= i < |v.stances| ==> v.stances[i].value.Present?
    ensures Utility(v, CandidateOf(v.stances)) == Present(1.0)
  {
    var c := CandidateOf(v.stances);
    var terms := Terms(v, c);
    forall i | 0 <= i < |v.stances| ensures terms[i] == Some(1.0) {
      OwnStance(v.stances, i);
      SelfCloseness(v.stances[i].value);
    }
    SumOfOnes(terms);
    var x := PolicyScale(v);
    assert Utility(v, c) == Present(Roots.FloorRoot(|v.stances| as real) / x);
    DivideBySelf(x);
  }

  lemma DivideBySelf(x: real)
    requires x > 0.0
    ensures x / x == 1.0
  {
  }

  /** `Stream.max` under `compare` (indeterminate high); `zero()` for no candidates.
      `maxBy` keeps the earlier of two equal values. */
  function MaxUtility(us: seq<Decimal>): (r: Decimal)
    ensures us == [] ==> r == Present(0.0)
    ensures us != [] ==> r in us && forall i :: 0 <= i < |us| ==> Compare(us[i], r, true) <= 0
  {
    if us == [] then Present(0.0)
    else if |us| == 1 then us[0]
    else
      var n := |us| - 1;
      var m := MaxUtility(us[..n]);
      assert forall i :: 0 <= i < n ==> us[..n][i] == us[i];
      if Compare(m, us[n], true) >= 0 then m
      else
        assert forall i :: 0 <= i < n ==> Compare(us[i], us[n], true) <= 0 by {
          forall i | 0 <= i < n ensures Compare(us[i], us[n], true) <= 0 {
            CompareTransitive(us[i], m, us[n], true);
          }
        }
        us[n]
  }

  function Utilities(v: Voter, cands: seq<Candidate>): (r: seq<Decimal>)
    requires |v.stances| > 0
    ensures |r| == |cands| && forall i :: 0 <= i < |cands| ==> r[i] == Utility(v, cands[i])
  {
    seq(|cands|, i requires 0 <= i < |cands| => Utility(v, cands[i]))
  }

  /** `calculateCurrentRunningPropensity`: base propensity minus the largest utility of
      any candidate for the voter (0 without candidates), indeterminate when either is. */
  function RunningPropensity(v: Voter, cands: seq<Candidate>): (r: Decimal)
    requires |v.stances| > 0
  {
    Operate(v.runningPropensity, MaxUtility(Utilities(v, cands)), (l, r) => l - r)
  }

  /** Without candidates the propensity is the voter's base propensity. */
  lemma PropensityWithoutCandidates(v: Voter)
    requires |v.stances| > 0
    ensures RunningPropensity(v, []) == v.runningPropensity
  {
  }

  /** With candidates, a present propensity is the base minus a utility the voter has for
      one of them, no smaller than the voter's utility for any of them. */
  lemma PropensityIsBaseMinusBestUtility(v: Voter, cands: seq<Candidate>)
    requires |v.stances| > 0 && cands != []
    ensures RunningPropensity(v, cands).Present? <==>
      v.runningPropensity.Present? && forall i :: 0 <= i < |cands| ==> Utility(v, cands[i]).Present?
    ensures RunningPropensity(v, cands).Present? ==>
      (exists i :: 0 <= i < |cands| &&
        RunningPropensity(v, cands).v == v.runningPropensity.v - Utility(v, cands[i]).v) &&
      forall i :: 0 <= i < |cands| ==>
        RunningPropensity(v, cands).v <= v.runningPropensity.v - Utility(v, cands[i]).v
  {
    var us := Utilities(v, cands);
    var m := MaxUtility(us);
    if m.Present? {
      forall i | 0 <= i < |cands| ensures us[i].Present? {
        assert Compare(us[i], m, true) <= 0;
      }
    }
  }

  predicate AllHaveStances(voters: seq<Voter>)
  {
    forall i :: 0 <= i < |voters| ==> |voters[i].stances| > 0
  }

  function Propensities(voters: seq<Voter>, cands: seq<Candidate>): (r: seq<Decimal>)
    requires AllHaveStances(voters)
    ensures |r| == |voters| && forall i :: 0 <= i < |voters| ==> r[i] == RunningPropensity(voters[i], cands)
  {
    seq(|voters|, i requires 0 <= i < |voters| => RunningPropensity(voters[i], cands))
  }

  predicate Eligible(p: Decimal)
  {
    p.Present? && p.v > 0.0
  }

  /** The filter-then-`max` of `getVoterMostLikelyToRun` over the first k propensities:
      the earliest position of a greatest strictly positive propensity. */
  function MostLikelyAmong(p: seq<Decimal>, k: nat): (r: Option<nat>)
    requires k <= |p|
    ensures r.None? <==> forall i :: 0 <= i < k ==> !Eligible(p[i])
    ensures r.Some? ==> r.value < k && Eligible(p[r.value])
    ensures r.Some? ==> forall i :: 0 <= i < k && Eligible(p[i]) ==> p[i].v <= p[r.value].v
    ensures r.Some? ==> forall i :: 0 <= i < r.value && Eligible(p[i]) ==> p[i].v < p[r.value].v
  {
    if k == 0 then None
    else
      var best := MostLikelyAmong(p, k - 1);
      if !Eligible(p[k - 1]) then best
      else if best.None? then Some(k - 1)
      else if Compare(p[best.value], p[k - 1], true) >= 0 then best
      else Some(k - 1)
  }

  /** `getVoterMostLikelyToRun`: the index of the chosen voter, if any. */
  function MostLikelyToRun(voters: seq<Voter>, cands: seq<Candidate>): (r: Option<nat>)
    requires AllHaveStances(voters)
    ensures r.Some? ==> r.value < |voters|
  {
    MostLikelyAmong(Propensities(voters, cands), |voters|)
  }

  /** The candidate one round of `generateCandidatesFromVoters` adds, if any: the
      candidate built from the stances of the voter most likely to run. */
  function NextCandidate(voters: seq<Voter>, cands: seq<Candidate>): (r: Option<Candidate>)
    requires AllHaveStances(voters)
    ensures r.None? <==> MostLikelyToRun(voters, cands).None?
    ensures r.Some? ==> r.value == CandidateOf(voters[MostLikelyToRun(voters, cands).value].stances)
  {
    match MostLikelyToRun(voters, cands)
    case Some(j) => Some(CandidateOf(voters[j].stances))
    case None => None
  }

  /** One round of candidate generation as a step on the candidates chosen so far. */
  function Round(voters: seq<Voter>): seq<Candidate> -> Option<Candidate>
    requires AllHaveStances(voters)
  {
    cands => NextCandidate(voters, cands)
  }

  /** At most `rounds` further rounds of `next` after `cands`, stopping at the first round
      in which `next` yields nothing. */
  function Run(next: seq<Candidate> -> Option<Candidate>, rounds: nat, cands: seq<Candidate>): seq<Candidate>
    decreases rounds
  {
    if rounds == 0 then cands
    else match next(cands)
      case None => cands
      case Some(c) => Run(next, rounds - 1, cands + [c])
  }

  /** Every element of `cands` is what `next` yields on the elements before it. */
  ghost predicate ChosenInOrder(next: seq<Candidate> -> Option<Candidate>, cands: seq<Candidate>)
  {
    forall k :: 0 <= k < |cands| ==> next(cands[..k]) == Some(cands[k])
  }

  lemma ChosenInOrderExtends(next: seq<Candidate> -> Option<Candidate>, cands: seq<Candidate>, c: Candidate)
    requires ChosenInOrder(next, cands) && next(cands) == Some(c)
    ensures ChosenInOrder(next, cands + [c])
  {
    var ext := cands + [c];
    forall k | 0 <= k < |ext| ensures next(ext[..k]) == Some(ext[k]) {
      if k < |cands| {
        assert ext[..k] == cands[..k];
      } else {
        assert ext[..k] == cands;
      }
    }
  }

  /** A run extends its start by candidates each chosen by `next` from those before it,
      uses at most `rounds` rounds, and stops early only where `next` yields nothing. */
  lemma {:induction false} RunIsChosenInOrder(next: seq<Candidate> -> Option<Candidate>, rounds: nat,
                                              cands: seq<Candidate>)
    requires ChosenInOrder(next, cands)
    ensures var r := Run(next, rounds, cands);
      && |cands| <= |r| <= |cands| + rounds
      && r[..|cands|] == cands
      && ChosenInOrder(next, r)
      && (|r| < |cands| + rounds ==> next(r).None?)
    decreases rounds
  {
    if rounds > 0 && next(cands).Some? {
      var c := next(cands).value;
      ChosenInOrderExtends(next, cands, c);
      RunIsChosenInOrder(next, rounds - 1, cands + [c]);
      var r := Run(next, rounds, cands);
      assert r[..|cands|] == (r[..|cands| + 1])[..|cands|];
    }
  }

  lemma RunStops(next: seq<Candidate> -> Option<Candidate>, rounds: nat, cands: seq<Candidate>)
    requires rounds > 0 && next(cands).None?
    ensures Run(next, rounds, cands) == cands
  {
  }

  lemma RunContinues(next: seq<Candidate> -> Option<Candidate>, rounds: nat, cands: seq<Candidate>, c: Candidate)
    requires rounds > 0 && next(cands) == Some(c)
    ensures Run(next, rounds, cands) == Run(next, rounds - 1, cands + [c])
  {
  }

  /** The number of rounds `generateCandidatesFromVoters` runs. */
  function Rounds(maxCandidateCount: int): nat
  {
    if maxCandidateCount < 0 then 0 else maxCandidateCount
  }

  /** The list `generateCandidatesFromVoters` returns. */
  function Generated(voters: seq<Voter>, maxCandidateCount: int): seq<Candidate>
    requires AllHaveStances(voters)
  {
    Run(Round(voters), Rounds(maxCandidateCount), [])
  }

  /** `generateCandidatesFromVoters`: at most `maxCandidateCount` rounds, each adding the
      candidate of the voter most likely to run, stopping early at the first round in
      which no voter has a positive propensity. */
  method GenerateCandidatesFromVoters(voters: seq<Voter>, maxCandidateCount: int)
    returns (candidates: seq<Candidate>)
    requires AllHaveStances(voters)
    ensures candidates == Generated(voters, maxCandidateCount)
  {
    ghost var next := Round(voters);
    candidates := [];
    var i := 1;
    while i <= maxCandidateCount
      invariant 1 <= i && i - 1 <= Rounds(maxCandidateCount)
      invariant |candidates| == i - 1
      invariant Run(next, Rounds(maxCandidateCount) - (i - 1), candidates) == Generated(voters, maxCandidateCount)
    {
      var potentialCandidate := MostLikelyToRun(voters, candidates);
      assert next(candidates) == NextCandidate(voters, candidates);
      if potentialCandidate.None? {
        RunStops(next, Rounds(maxCandidateCount) - (i - 1), candidates);
        break;
      }
      var c := CandidateOf(voters[potentialCandidate.value].stances);
      RunContinues(next, Rounds(maxCandidateCount) - (i - 1), candidates, c);
      candidates := candidates + [c];
      i := i + 1;
    }
  }

  /** What the generated list means: every candidate is the one the voter most likely to
      run would become given the candidates before it; there are at most
      `maxCandidateCount` of them, and fewer only when no voter is left eligible to run. */
  lemma GeneratedIsChosenInOrder(voters: seq<Voter>, maxCandidateCount: int)
    requires AllHaveStances(voters)
    ensures var r := Generated(voters, maxCandidateCount);
      && |r| <= Rounds(maxCandidateCount)
      && (forall k :: 0 <= k < |r| ==> NextCandidate(voters, r[..k]) == Some(r[k]))
      && (|r| < maxCandidateCount ==> MostLikelyToRun(voters, r).None?)
  {
    var next := Round(voters);
    RunIsChosenInOrder(next, Rounds(maxCandidateCount), []);
    var r := Generated(voters, maxCandidateCount);
    forall k | 0 <= k < |r| ensures NextCandidate(voters, r[..k]) == Some(r[k]) {
      assert next(r[..k]) == Some(r[k]);
    }
    assert next(r) == NextCandidate(voters, r);
  }

  /** `poll`: one ballot per voter, in voter order, each cast over the given candidates. */
  function Poll<B>(voters: seq<Voter>, strategy: (Voter, seq<Candidate>) -> B, cands: seq<Candidate>): (r: seq<B>)
    ensures |r| == |voters|
    ensures forall i :: 0 <= i < |voters| ==> r[i] == strategy(voters[i], cands)
  {
    if voters == [] then []
    else Poll(voters[..|voters| - 1], strategy, cands) + [strategy(voters[|voters| - 1], cands)]
  }

  /** `poll(votingStrategy)`: the electorate's own candidates. */
  function PollElectorate<B>(e: Electorate, strategy: (Voter, seq<Candidate>) -> B): (r: seq<B>)
    ensures |r| == |e.voters|
    ensures forall i :: 0 <= i < |e.voters| ==> r[i] == strategy(e.voters[i], e.candidates)
  {
    Poll(e.voters, strategy, e.candidates)
  }

  /** The electorate's utility for a candidate: its voters' utilities, averaged by
      `average` (the `BigDecimalAverageCollector`, not part of this model). */
  function CandidateUtility(e: Electorate, c: Candidate, average: seq<Decimal> -> Decimal): Decimal
    requires AllHaveStances(e.voters)
  {
    average(seq(|e.voters|, i requires 0 <= i < |e.voters| => Utility(e.voters[i], c)))
  }

  /** The running maximum of `calculateRegret`: starts at 0, raised by present values. */
  function UpperBound(us: seq<Decimal>): (r: real)
    ensures r >= 0.0
    ensures forall i :: 0 <= i < |us| && us[i].Present? ==> us[i].v <= r
    ensures r == 0.0 || exists i :: 0 <= i < |us| && us[i] == Present(r)
  {
    if us == [] then 0.0
    else
      var n := |us| - 1;
      var m := UpperBound(us[..n]);
      assert forall i :: 0 <= i < n ==> us[..n][i] == us[i];
      if us[n].Present? && us[n].v > m then us[n].v else m
  }

  /** The running minimum of `calculateRegret`: starts at 1, lowered by present values. */
  function LowerBound(us: seq<Decimal>): (r: real)
    ensures r <= 1.0
    ensures forall i :: 0 <= i < |us| && us[i].Present? ==> r <= us[i].v
    ensures r == 1.0 || exists i :: 0 <= i < |us| && us[i] == Present(r)
  {
    if us == [] then 1.0
    else
      var n := |us| - 1;
      var m := LowerBound(us[..n]);
      assert forall i :: 0 <= i < n ==> us[..n][i] == us[i];
      if us[n].Present? && us[n].v < m then us[n].v else m
  }

  function Clamp(x: real): (r: real)
    ensures 0.0 <= r <= 1.0
    ensures 0.0 <= x <= 1.0 ==> r == x
  {
    if x > 1.0 then 1.0 else if x < 0.0 then 0.0 else x
  }

  /** A part of a positive range, divided by the range, is a fraction in [0, 1]. */
  lemma FractionOfRange(x: real, range: real)
    ensures 0.0 <= x <= range && range > 0.0 ==> 0.0 <= x / range <= 1.0
  {
  }

  /** Regret and normalized regret of a raw utility against the bounds. Regret is
      max(maximum - raw, 0); normalized regret divides it by (maximum - minimum) and
      clamps to [0, 1], and is indeterminate when the bounds coincide. */
  function MetricsFor(raw: Decimal, maximum: real, minimum: real): (m: RegretMetrics)
    ensures m.rawUtility == raw
    ensures m.regret.Present? <==> raw.Present?
    ensures m.regret.Present? ==>
      (m.regret.v >= 0.0 && m.regret.v >= maximum - raw.v &&
       (m.regret.v == 0.0 || m.regret.v == maximum - raw.v))
    ensures m.normalizedRegret.Present? <==> raw.Present? && maximum != minimum
    ensures m.normalizedRegret.Present? ==> 0.0 <= m.normalizedRegret.v <= 1.0
    ensures m.normalizedRegret.Present? ==>
      m.normalizedRegret.v == Clamp(m.regret.v / (maximum - minimum))
    ensures raw.Present? && minimum < maximum && minimum <= raw.v <= maximum ==>
      m.normalizedRegret == Present((maximum - raw.v) / (maximum - minimum))
    ensures m.regret == Present(0.0) && maximum != minimum ==> m.normalizedRegret == Present(0.0)
  {
    FractionOfRange(if raw.Present? then maximum - raw.v else 0.0, maximum - minimum);
    var regret := match raw
      case Present(u) => Present(if maximum - u > 0.0 then maximum - u else 0.0)
      case Indeterminate => Indeterminate;
    var normalized := if maximum != minimum then
        (match regret
         case Present(x) => Present(Clamp(x / (maximum - minimum)))
         case Indeterminate => Indeterminate)
      else Indeterminate;
    RegretMetrics(raw, regret, normalized)
  }

  function CandidateUtilities(e: Electorate, average: seq<Decimal> -> Decimal): (r: seq<Decimal>)
    requires AllHaveStances(e.voters)
    ensures |r| == |e.candidates|
    ensures forall i :: 0 <= i < |r| ==> r[i] == CandidateUtility(e, e.candidates[i], average)
  {
    seq(|e.candidates|, i requires 0 <= i < |e.candidates| => CandidateUtility(e, e.candidates[i], average))
  }

  /** The regret of an outcome: indeterminate without a winner, otherwise the metrics of
      the winner's utility against the bounds over the electorate's candidates. */
  function Regret(e: Electorate, winner: Option<Candidate>, average: seq<Decimal> -> Decimal): (m: RegretMetrics)
    requires AllHaveStances(e.voters)
  {
    match winner
    case None => IndeterminateMetrics
    case Some(c) =>
      var us := CandidateUtilities(e, average);
      MetricsFor(CandidateUtility(e, c, average), UpperBound(us), LowerBound(us))
  }

  /** `calculateRegret`: one pass over the candidates fills the utility map and moves
      the bounds; the winner's raw utility comes from the map, or is computed afresh for
      a winner not in it. */
  method CalculateRegret(e: Electorate, winner: Option<Candidate>, average: seq<Decimal> -> Decimal)
    returns (m: RegretMetrics)
    requires AllHaveStances(e.voters)
    ensures m == Regret(e, winner, average)
  {
    var utilityMap: map<Candidate, Decimal> := map[];
    var maximumUtility := 0.0;
    var minimumUtility := 1.0;
    ghost var us := CandidateUtilities(e, average);
    for i := 0 to |e.candidates|
      invariant forall c :: c in utilityMap ==> utilityMap[c] == CandidateUtility(e, c, average)
      invariant maximumUtility == UpperBound(us[..i])
      invariant minimumUtility == LowerBound(us[..i])
    {
      var c := e.candidates[i];
      var utility := CandidateUtility(e, c, average);
      if utility.Present? {
        if utility.v > maximumUtility {
          maximumUtility := utility.v;
        }
        if utility.v < minimumUtility {
          minimumUtility := utility.v;
        }
      }
      utilityMap := utilityMap[c := utility];
      assert us[..i + 1][..i] == us[..i];
    }
    assert us[..|e.candidates|] == us;
    match winner
    case None =>
      m := IndeterminateMetrics;
    case Some(c) =>
      var rawUtility := if c in utilityMap then utilityMap[c] else CandidateUtility(e, c, average);
      m := MetricsFor(rawUtility, maximumUtility, minimumUtility);
  }

  /** A winner whose utility is present, non-negative and no smaller than any candidate's
      has regret 0, and normalized regret 0 whenever the bounds differ. */
  lemma BestCandidateHasNoRegret(e: Electorate, c: Candidate, average: seq<Decimal> -> Decimal)
    requires AllHaveStances(e.voters)
    requires CandidateUtility(e, c, average).Present? && CandidateUtility(e, c, average).v >= 0.0
    requires forall i :: 0 <= i < |e.candidates| && CandidateUtility(e, e.candidates[i], average).Present? ==>
      CandidateUtility(e, e.candidates[i], average).v <= CandidateUtility(e, c, average).v
    ensures Regret(e, Some(c), average).regret == Present(0.0)
    ensures var us := CandidateUtilities(e, average);
      UpperBound(us) != LowerBound(us) ==> Regret(e, Some(c), average).normalizedRegret == Present(0.0)
  {
    var us := CandidateUtilities(e, average);
    var u := CandidateUtility(e, c, average).v;
    if UpperBound(us) != 0.0 {
      var i :| 0 <= i < |us| && us[i] == Present(UpperBound(us));
    }
    var m := MetricsFor(CandidateUtility(e, c, average), UpperBound(us), LowerBound(us));
    assert m.regret == Present(0.0);
  }

  /** The bounds start at 0 and 1, so an electorate without present utilities never sees
      equal bounds, and its normalized regret clamps to 0. */
  lemma BoundsWithoutPresentUtilities(us: seq<Decimal>)
    requires forall i :: 0 <= i < |us| ==> us[i].Indeterminate?
    ensures UpperBound(us) == 0.0 && LowerBound(us) == 1.0
  {
  }
}
