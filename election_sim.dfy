/** The `ElectoralSystem` helpers of sim/ElectionSim.kt, over a count multiset.
    Candidates are ids 0 .. m - 1 and a `Multiset<Candidate>` is its count vector
    `counts` of length m: `counts[c]` is the multiplicity of candidate `c`, and the
    multiset's entries are the ids with a positive count. Entries are enumerated in
    ascending id order; the source enumerates them in hash order, so the contracts
    below promise only what holds for every enumeration order. */
module ElectionSim {
  import opened Wrappers
  import Sorting

  /** The entry set of the count multiset, in ascending id order. */
  function Entries(counts: seq<nat>): (r: seq<nat>)
    ensures Sorting.Increasing(r)
    ensures forall c: nat :: c in r <==> c < |counts| && counts[c] > 0
  {
    if counts == [] then []
    else
      var n := |counts| - 1;
      var init := Entries(counts[..n]);
      assert forall c :: c in init ==> c < n;
      var r := init + (if counts[n] > 0 then [n] else []);
      assert Sorting.Increasing(r) by {
        forall i, j | 0 <= i < j < |r| ensures r[i] < r[j] {
          if j < |init| {
          } else {
            assert r[i] in init;
          }
        }
      }
      r
  }

  /** Sorting by this key ascending is sorting by count descending. */
  function CountKey(counts: seq<nat>): nat -> real
  {
    (c: nat) => if c < |counts| then -(counts[c] as real) else 0.0
  }

  /** `sortedCandidateList`: each counted candidate once, by non-increasing count. */
  function SortedCandidateList(counts: seq<nat>): (r: seq<nat>)
    ensures forall i :: 0 <= i < |r| ==> r[i] < |counts| && counts[r[i]] > 0
    ensures forall c :: 0 <= c < |counts| && counts[c] > 0 ==> c in r
    ensures forall i, j :: 0 <= i < j < |r| ==> r[i] != r[j]
    ensures forall i, j :: 0 <= i < j < |r| ==> counts[r[i]] >= counts[r[j]]
  {
    var e := Entries(counts);
    var r := Sorting.SortBy(e, CountKey(counts));
    forall i | 0 <= i < |r| ensures r[i] < |counts| && counts[r[i]] > 0 {
      assert r[i] in multiset(r);
      assert r[i] in multiset(e);
      assert r[i] in e;
    }
    forall c | 0 <= c < |counts| && counts[c] > 0 ensures c in r {
      assert c in multiset(r);
    }
    forall i, j | 0 <= i < j < |r| ensures r[i] != r[j] {
      Sorting.IncreasingMultiset(e, r[i]);
      Sorting.AtLeastTwice(r, i, j);
    }
    forall i, j | 0 <= i < j < |r| ensures counts[r[i]] >= counts[r[j]] {
      assert Sorting.Precedes(r[i], r[j], CountKey(counts));
    }
    r
  }

  /** `findFirst`: the head of the sorted entries, a candidate of maximal count; it
      fails (None) exactly when the multiset is empty. */
  function FindFirst(counts: seq<nat>): (r: Option<nat>)
    ensures r.None? <==> forall c :: 0 <= c < |counts| ==> counts[c] == 0
    ensures r.Some? ==> r.value < |counts| && counts[r.value] > 0
    ensures r.Some? ==> forall c :: 0 <= c < |counts| ==> counts[c] <= counts[r.value]
  {
    var l := SortedCandidateList(counts);
    if l == [] then None
    else
      assert forall c :: 0 <= c < |counts| ==> counts[c] <= counts[l[0]] by {
        forall c | 0 <= c < |counts| ensures counts[c] <= counts[l[0]] {
          if counts[c] > 0 {
            var k :| 0 <= k < |l| && l[k] == c;
          }
        }
      }
      Some(l[0])
  }

  /** Every entry of the sorted list, the head in particular, has a count no larger
      than `findFirst`'s; the head's count is the same. */
  lemma {:induction false} FindFirstMatchesSortedHead(counts: seq<nat>)
    ensures FindFirst(counts).Some? <==> SortedCandidateList(counts) != []
    ensures FindFirst(counts).Some? ==>
      counts[SortedCandidateList(counts)[0]] == counts[FindFirst(counts).value]
  {
  }

  /** The empty count multiset of m candidates (`HashMultiset.create`, `clear`). */
  function Zeros(m: nat): (r: seq<nat>)
    ensures |r| == m && forall c :: 0 <= c < m ==> r[c] == 0
  {
    seq(m, c => 0)
  }

  function Sum(s: seq<nat>): nat
  {
    if s == [] then 0 else Sum(s[..|s| - 1]) + s[|s| - 1]
  }

  /** The count multiset of a list of votes, each vote an id below m. */
  function Tally(votes: seq<nat>, m: nat): (r: seq<nat>)
    ensures |r| == m && forall c :: 0 <= c < m ==> r[c] == multiset(votes)[c]
  {
    seq(m, c => multiset(votes)[c])
  }

  lemma {:induction false} SumOfIncrement(s: seq<nat>, c: nat)
    requires c < |s|
    ensures Sum(s[c := s[c] + 1]) == Sum(s) + 1
  {
    var n := |s| - 1;
    var t := s[c := s[c] + 1];
    assert t[..n] == if c < n then s[..n][c := s[c] + 1] else s[..n];
    if c < n {
      SumOfIncrement(s[..n], c);
    }
  }

  /** Each vote adds exactly one to the tally. */
  lemma {:induction false} TallyTotal(votes: seq<nat>, m: nat)
    requires forall i :: 0 <= i < |votes| ==> votes[i] < m
    ensures Sum(Tally(votes, m)) == |votes|
  {
    if votes == [] {
      SumOfZeros(m);
      assert Tally(votes, m) == Zeros(m);
    } else {
      var init := votes[..|votes| - 1];
      var v := votes[|votes| - 1];
      assert votes == init + [v];
      TallyTotal(init, m);
      assert Tally(votes, m) == Tally(init, m)[v := Tally(init, m)[v] + 1];
      SumOfIncrement(Tally(init, m), v);
    }
  }

  lemma {:induction false} SumOfZeros(m: nat)
    ensures Sum(Zeros(m)) == 0
  {
    if m > 0 {
      assert Zeros(m)[..m - 1] == Zeros(m - 1);
      SumOfZeros(m - 1);
    }
  }

  /** A utility table over m candidates: row v holds voter v's utility for each id. */
  predicate IsTable(u: seq<seq<real>>, m: nat)
  {
    forall v :: 0 <= v < |u| ==> |u[v]| == m
  }

  /** Every id of the list names one of the m candidates. */
  predicate AllBelow(ids: seq<nat>, m: nat)
  {
    forall i :: 0 <= i < |ids| ==> ids[i] < m
  }

  /** No id is listed twice. */
  predicate Distinct(ids: seq<nat>)
  {
    forall i, j :: 0 <= i < j < |ids| ==> ids[i] != ids[j]
  }

  /** `ballots.mapTo(ballotCount)`: one more count for every vote. */
  method AddAll(counts: seq<nat>, votes: seq<nat>) returns (r: seq<nat>)
    requires AllBelow(votes, |counts|)
    ensures |r| == |counts|
    ensures forall c :: 0 <= c < |counts| ==> r[c] == counts[c] + multiset(votes)[c]
  {
    r := counts;
    for i := 0 to |votes|
      invariant |r| == |counts|
      invariant forall c :: 0 <= c < |counts| ==> r[c] == counts[c] + multiset(votes[..i])[c]
    {
      assert votes[..i + 1] == votes[..i] + [votes[i]];
      r := r[votes[i] := r[votes[i]] + 1];
    }
    assert votes[..|votes|] == votes;
  }

  /** Adding votes to the empty multiset gives their tally. */
  lemma AddAllToZeros(r: seq<nat>, votes: seq<nat>, m: nat)
    requires |r| == m && forall c :: 0 <= c < m ==> r[c] == Zeros(m)[c] + multiset(votes)[c]
    ensures r == Tally(votes, m)
  {
  }

  /** A candidate with a positive tally received a vote. */
  lemma CountedIsVoted(votes: seq<nat>, m: nat, c: nat)
    requires c < m && Tally(votes, m)[c] > 0
    ensures exists i :: 0 <= i < |votes| && votes[i] == c
  {
    assert c in multiset(votes);
  }
}
