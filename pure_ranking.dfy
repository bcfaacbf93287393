/** ranked/PureRankingStrategy.kt: a ranked ballot lists the candidates by descending
    utility. The source pairs each candidate with its utility, sorts the pairs stably by
    ascending utility and reverses the result, so candidates of equal utility come out in
    reverse list order. The model orders the list positions by the utility of the
    candidate at each position and then reads the candidates off. */
module PureRanking {
  import Sorting
  import opened ElectionSim

  /** The utility of the candidate at each list position. */
  function Utilities(uv: seq<real>, cands: seq<nat>): (r: seq<real>)
    requires AllBelow(cands, |uv|)
    ensures |r| == |cands| && forall i :: 0 <= i < |cands| ==> r[i] == uv[cands[i]]
  {
    seq(|cands|, i requires 0 <= i < |cands| => uv[cands[i]])
  }

  /** `accept`: the ranked ballot of a voter with utilities `uv`. */
  function Rank(uv: seq<real>, cands: seq<nat>): (r: seq<nat>)
    requires AllBelow(cands, |uv|)
    ensures |r| == |cands|
  {
    Sorting.Read(cands, Sorting.Descending(Utilities(uv, cands)))
  }

  /** The ballot is a permutation of the candidate list; an empty list gives an empty
      ballot. */
  lemma RankIsPermutation(uv: seq<real>, cands: seq<nat>)
    requires AllBelow(cands, |uv|)
    ensures multiset(Rank(uv, cands)) == multiset(cands)
  {
    Sorting.PermutedReadIsPermutation(cands, Sorting.Descending(Utilities(uv, cands)));
  }

  /** Utility never increases along the ballot, and two candidates of equal utility
      appear in reverse list order: the one at the later list position first. */
  lemma RankIsByDescendingUtility(uv: seq<real>, cands: seq<nat>, k: nat, l: nat)
    requires AllBelow(cands, |uv|) && k < l < |cands|
    ensures var r := Rank(uv, cands); uv[r[k]] >= uv[r[l]]
    ensures var p := Sorting.Descending(Utilities(uv, cands));
      && Rank(uv, cands)[k] == cands[p[k]]
      && Rank(uv, cands)[l] == cands[p[l]]
      && (uv[cands[p[k]]] == uv[cands[p[l]]] ==> p[k] > p[l])
  {
  }

  /** Distinct candidates give a ballot that ranks no candidate twice. */
  lemma RankIsDistinct(uv: seq<real>, cands: seq<nat>)
    requires AllBelow(cands, |uv|) && Distinct(cands)
    ensures Distinct(Rank(uv, cands))
  {
    var p := Sorting.Descending(Utilities(uv, cands));
    forall k, l | 0 <= k < l < |cands|
      ensures Rank(uv, cands)[k] != Rank(uv, cands)[l]
    {
      assert Rank(uv, cands)[k] == cands[p[k]] && Rank(uv, cands)[l] == cands[p[l]];
      assert p[k] != p[l];
    }
  }

  /** `electorate.poll(RANKING_STRATEGY)`: every voter's ranking of the candidate list,
      in voter order. Ranking never fails. */
  function Ballots(u: seq<seq<real>>, m: nat, cands: seq<nat>): (r: seq<seq<nat>>)
    requires IsTable(u, m) && AllBelow(cands, m)
    ensures |r| == |u|
    ensures forall v :: 0 <= v < |u| ==> r[v] == Rank(u[v], cands)
  {
    seq(|u|, v requires 0 <= v < |u| => Rank(u[v], cands))
  }

  /** Every ballot ranks exactly the listed candidates. */
  lemma BallotsArePermutations(u: seq<seq<real>>, m: nat, cands: seq<nat>, v: nat)
    requires IsTable(u, m) && AllBelow(cands, m) && v < |u|
    ensures multiset(Ballots(u, m, cands)[v]) == multiset(cands)
  {
    RankIsPermutation(u[v], cands);
  }
}
