# electorate, modelled in Dafny

A Dafny model of the core of **electorate**, an election simulator. The simulator builds an
electorate of voters who hold stances on policies. It generates candidates from the voters,
polls the voters under a dozen voting systems and scores each winner by its regret. This
project models that core and proves properties of it:

- **Identifiers** (`Utils`): `StringWrapper`, the identity of a `Policy` and of an
  `ElectoralSystemName`.
- **Indeterminate-aware decimals** (`Decimals`, `RegretDecimals`): `Present(v) |
  Indeterminate`. The model covers `map`, `bimap`, `operate`, `compare` with its `nanHigh`
  flag, `equals` and `hashCode`, plus the sort the wrapper's test suite performs.
- **The electorate** (`Electorates`, with `Roots` for the floor square root):
  - stance lookup with `NULL_STANCE`;
  - the spatial utility of a candidate for a voter;
  - running propensity;
  - the greedy generation of candidates from voters;
  - polling;
  - the regret and normalized regret of a winner.
- **Count helpers** (`ElectionSim`): `findFirst` and `sortedCandidateList` over a count
  multiset. Candidates are ids `0..m-1`, and a count multiset is a `seq<nat>` indexed by id.
- **Tally rules**. Each rule is a specification function `Elect` plus the source's loops as
  methods proved equal to it:
  - plurality and its strategic, two-party, random two-party and elected two-party variants;
  - range and STAR voting;
  - approval voting with its three threshold strategies;
  - the ranked ballot (`PureRanking`, built on the stable sort of `Sorting`);
  - instant runoff;
  - ranked pairs, whose lock graph is the class `RankedPairGraphs.RankedPairGraph`; `RankedPairsCycle` works the test suite's three-way cycle through the whole rule.
- **Statistics** (`RegretStatistics`): sorting the regret metrics and reading off the
  percentiles.

Some conventions hold throughout the model:
- A utility table `u[v][c]` holds voter `v`'s utility for candidate `c`.
- Random draws are parameters.
- An exception the source throws becomes `None`.
- Instant runoff removes exactly one candidate per round, the one `findLoser` picks, even
  when several candidates tie for the lowest count.
- Range voting's mark is `utility * (MAX_VOTE + 1)` truncated. A utility of exactly 1 then
  gives a mark the ballot check rejects (the finding below). The loops of range and STAR
  voting use this mark as written. Their specification functions take the scoring rule as
  a parameter, so every property of the outcome is proved for the written mark and for the
  corrected one.

## Model

| member | source | states |
|---|---|---|
| Utils.Wrap32 | src/main/kotlin/us/sodiumlabs/electorate/Utils.kt:4-6 | the result lies in the 32-bit `Int` range and differs from the exact value by a multiple of 2^32, as Kotlin `Int` arithmetic wraps |
| Utils.StringHash | src/main/kotlin/us/sodiumlabs/electorate/Utils.kt:4-6 | `String.hashCode` folds h = 31 * h + unit over the text's UTF-16 code units in 32-bit arithmetic, so the result is an `Int` |
| Utils.CodeUnits | src/main/kotlin/us/sodiumlabs/electorate/Utils.kt:4-6 | a character below 0x10000 is one code unit; any other is a high surrogate and a low surrogate that together encode it |
| Utils.Utf16 | src/main/kotlin/us/sodiumlabs/electorate/Utils.kt:4-6 | the text as a Kotlin `String`: at least one code unit per character, each unit 16 bits |
| Utils.UnitsHash | src/main/kotlin/us/sodiumlabs/electorate/Utils.kt:4-6 | the 31-multiplier fold over code units stays in the 32-bit `Int` range |
| Utils.Utf16OfBasicPlane | src/main/kotlin/us/sodiumlabs/electorate/Utils.kt:4-6 | text without characters beyond 0x10000 has exactly one code unit per character, its code |
| Utils.HashCode | src/main/kotlin/us/sodiumlabs/electorate/Utils.kt:4-6 | a wrapper hashes as `String.hashCode` of its text (the UTF-16 code-unit fold), within the 32-bit range |
| Utils.ToString | src/main/kotlin/us/sodiumlabs/electorate/Utils.kt:13-15 | a wrapper prints as exactly the text it wraps, whatever its kind |
| Utils.EqualsIffSameText | src/main/kotlin/us/sodiumlabs/electorate/Utils.kt:8-15 | two wrappers are equal exactly when they print the same text |
| Utils.NeverEqualsOther | src/main/kotlin/us/sodiumlabs/electorate/Utils.kt:8-11 | a wrapper never equals an object that is not a `StringWrapper` |
| Utils.EqualsIsEquivalence | src/main/kotlin/us/sodiumlabs/electorate/Utils.kt:8-11 | `equals` is reflexive, symmetric and transitive over wrappers |
| Utils.HashConsistentWithEquals | src/main/kotlin/us/sodiumlabs/electorate/Utils.kt:4-11 | equal wrappers have equal hash codes |
| Utils.KindIsIgnored | src/main/kotlin/us/sodiumlabs/electorate/Utils.kt:8-11 | a `Policy` and an `ElectoralSystemName` with the same text are equal, since `equals` only tests for a `StringWrapper` |
| Utils.StringHashExamples | src/main/kotlin/us/sodiumlabs/electorate/Utils.kt:4-6 | the hash of "", "a" and "ab" is 0, 97 and 3105, as `String.hashCode` gives |
| Utils.SurrogatePairHash | src/main/kotlin/us/sodiumlabs/electorate/Utils.kt:4-6 | a character beyond 0x10000 hashes as its high and low surrogate, as `String.hashCode` gives |
| Decimals.CompareTo | src/main/kotlin/us/sodiumlabs/electorate/sim/BigDecimalWrapper.kt:93-95 | `compareTo` answers -1, 0 or 1, negative exactly below and 0 exactly on equal values |
| Decimals.IfPresent | src/main/kotlin/us/sodiumlabs/electorate/sim/BigDecimalWrapper.kt:55 | the consumer is called once, with the value, for a present decimal and never for the indeterminate one (also lines 115-117) |
| Decimals.Map | src/main/kotlin/us/sodiumlabs/electorate/sim/BigDecimalWrapper.kt:57-59 | `map` gives the operation's result exactly when the decimal is present, and empty otherwise (also lines 119) |
| Decimals.BiMap | src/main/kotlin/us/sodiumlabs/electorate/sim/BigDecimalWrapper.kt:61-73 | `bimap` gives `op(receiver, argument)` exactly when both are present, and empty otherwise (also lines 121-129) |
| Decimals.Operate | src/main/kotlin/us/sodiumlabs/electorate/sim/BigDecimalWrapper.kt:75-87 | `operate` is present exactly when both operands are, and then holds `op(receiver, argument)` (also lines 131-139) |
| Decimals.Compare | src/main/kotlin/us/sodiumlabs/electorate/sim/BigDecimalWrapper.kt:89-99 | `compare` orders present values by value, puts every indeterminate value above them when `nanHigh` and below them otherwise, and ties two indeterminate values (also lines 141-151) |
| Decimals.Equals | src/main/kotlin/us/sodiumlabs/electorate/sim/BigDecimalWrapper.kt:105-107 | `equals` holds exactly when `compare` with the default `nanHigh` answers 0 (also lines 157-159) |
| Decimals.HashCode | src/main/kotlin/us/sodiumlabs/electorate/sim/BigDecimalWrapper.kt:109-111 | the indeterminate value hashes to 0 (also lines 161) |
| Decimals.OperateIsWrappedBiMap | src/main/kotlin/us/sodiumlabs/electorate/sim/BigDecimalWrapper.kt:61-87 | `operate` equals `bimap` followed by `wrap`, and `nan()` where `bimap` is empty (also lines 121-139) |
| Decimals.CompareAntisymmetric | src/main/kotlin/us/sodiumlabs/electorate/sim/BigDecimalWrapper.kt:89-99 | swapping the operands of `compare` negates the answer (also lines 141-151) |
| Decimals.CompareTransitive | src/main/kotlin/us/sodiumlabs/electorate/sim/BigDecimalWrapper.kt:89-99 | `compare` is transitive for every `nanHigh` (also lines 141-151) |
| Decimals.CompareZeroIsEquality | src/main/kotlin/us/sodiumlabs/electorate/sim/BigDecimalWrapper.kt:89-99 | `compare` answers 0 exactly on equal values, so it is a total order (also lines 141-151) |
| Decimals.EqualsIsEquality | src/main/kotlin/us/sodiumlabs/electorate/sim/BigDecimalWrapper.kt:105-111 | `equals` is value equality, and equal values hash alike (also lines 157-161) |
| Decimals.Wrap | src/main/kotlin/us/sodiumlabs/electorate/sim/BigDecimalWrapper.kt:10-12 | `wrap`: a present value holding the number |
| Decimals.Nan | src/main/kotlin/us/sodiumlabs/electorate/sim/BigDecimalWrapper.kt:14-16 | `nan`: the one indeterminate value |
| Roots.IntSqrt | src/main/kotlin/us/sodiumlabs/electorate/sim/Electorate.kt:124-143 | the integer root brackets its argument: r*r <= n < (r+1)*(r+1), the floor rounding of `SQRT_CONTEXT` |
| Roots.IntSqrtUnique | src/main/kotlin/us/sodiumlabs/electorate/sim/Electorate.kt:124-143 | the bracket determines the floor root, so any k with k*k <= n < (k+1)^2 is the root |
| Roots.IntSqrtMonotone | src/main/kotlin/us/sodiumlabs/electorate/sim/Electorate.kt:124-143 | a larger argument never has a smaller floor root |
| Roots.Scaled | src/main/kotlin/us/sodiumlabs/electorate/sim/Electorate.kt:124-143 | the argument scaled by Scale^2 is floored to an integer within 1 below it |
| Roots.FloorRoot | src/main/kotlin/us/sodiumlabs/electorate/sim/Electorate.kt:124-143 | the root is non-negative, its square does not exceed the argument, and one more step of 1/Scale would overshoot |
| Roots.FloorRootBracket | src/main/kotlin/us/sodiumlabs/electorate/sim/Electorate.kt:124-143 | the floor root of the scaled argument, divided by Scale, brackets the argument's root to within 1/Scale |
| Roots.FloorRootMonotone | src/main/kotlin/us/sodiumlabs/electorate/sim/Electorate.kt:124-143 | a larger argument never has a smaller rounded root |
| Roots.FloorRootOfOne | src/main/kotlin/us/sodiumlabs/electorate/sim/Electorate.kt:124-143 | the rounded root of 1 is exactly 1 |
| Roots.FloorRootAtLeastOne | src/main/kotlin/us/sodiumlabs/electorate/sim/Electorate.kt:127-131 | the root of a count of at least one is at least 1, so `policyScale` never divides by zero for a voter with stances |
| Electorates.StanceMap | src/main/kotlin/us/sodiumlabs/electorate/sim/Electorate.kt:174-178 | the stance map has an entry for exactly the policies in the list, holding the last stance listed on that policy |
| Electorates.StanceMapStep | src/main/kotlin/us/sodiumlabs/electorate/sim/Electorate.kt:174-178 | adding one stance to the map keeps the key and last-stance properties of `init` |
| Electorates.StanceMapKey | src/main/kotlin/us/sodiumlabs/electorate/sim/Electorate.kt:174-178 | a policy is a key after the step exactly when some stance in the longer list is on it |
| Electorates.StanceMapValue | src/main/kotlin/us/sodiumlabs/electorate/sim/Electorate.kt:174-178 | the value after the step is the last stance on its policy in the longer list |
| Electorates.GetStance | src/main/kotlin/us/sodiumlabs/electorate/sim/Electorate.kt:180-211 | `getStance` gives the candidate's stance on the policy, or `NULL_STANCE` with an indeterminate value when it has none |
| Electorates.Closeness | src/main/kotlin/us/sodiumlabs/electorate/sim/Electorate.kt:136-140 | one policy's term is present exactly when both values are, is non-negative, and is at most 1 for values in [0, 1] |
| Electorates.SumTerms | src/main/kotlin/us/sodiumlabs/electorate/sim/Electorate.kt:141-143 | the `biMap(+)` reduction from zero is present exactly when every term is, and a sum of non-negative terms is non-negative |
| Electorates.Terms | src/main/kotlin/us/sodiumlabs/electorate/sim/Electorate.kt:134-140 | one term per voter stance, taken against the candidate's stance on the same policy |
| Electorates.PolicyScale | src/main/kotlin/us/sodiumlabs/electorate/sim/Electorate.kt:127-131 | `policyScale`, the root of the stance count, is at least 1 |
| Electorates.Utility | src/main/kotlin/us/sodiumlabs/electorate/sim/Electorate.kt:133-144 | utility is present exactly when every policy of the voter has a present value on both sides, and is then non-negative |
| Electorates.MissingPolicyMakesUtilityIndeterminate | src/main/kotlin/us/sodiumlabs/electorate/sim/Electorate.kt:136 | a candidate with no stance on one of the voter's policies gives an indeterminate utility (also lines 180-182, 211) |
| Electorates.SumTermsAtMost | src/main/kotlin/us/sodiumlabs/electorate/sim/Electorate.kt:141-143 | a sum of n present terms in [0, 1] is present and at most n |
| Electorates.UtilityInUnitInterval | src/main/kotlin/us/sodiumlabs/electorate/sim/Electorate.kt:133-144 | with all stances in [0, 1] on both sides, a present utility lies in [0, 1] |
| Electorates.SumOfOnes | src/main/kotlin/us/sodiumlabs/electorate/sim/Electorate.kt:141-143 | a sum of n terms equal to 1 is exactly n |
| Electorates.OwnStance | src/main/kotlin/us/sodiumlabs/electorate/sim/Electorate.kt:172-182 | a candidate built from a voter with distinct policies holds each of that voter's stances |
| Electorates.SelfCloseness | src/main/kotlin/us/sodiumlabs/electorate/sim/Electorate.kt:136-140 | a present value has closeness 1 with itself |
| Electorates.OwnCandidateHasUtilityOne | src/main/kotlin/us/sodiumlabs/electorate/sim/Electorate.kt:133-172 | a voter with distinct, present stances has utility exactly 1 for the candidate built from that voter |
| Electorates.MaxUtility | src/main/kotlin/us/sodiumlabs/electorate/sim/Electorate.kt:153-158 | no candidates give `zero()`; otherwise the result is one of the utilities and no utility compares above it |
| Electorates.Utilities | src/main/kotlin/us/sodiumlabs/electorate/sim/Electorate.kt:154-155 | one utility per candidate, in candidate order |
| Electorates.PropensityWithoutCandidates | src/main/kotlin/us/sodiumlabs/electorate/sim/Electorate.kt:146-158 | without candidates the running propensity is the voter's base propensity, since the maximum falls back to `zero()` |
| Electorates.PropensityIsBaseMinusBestUtility | src/main/kotlin/us/sodiumlabs/electorate/sim/Electorate.kt:146-158 | with candidates the propensity is present exactly when the base and every utility are, and is then the base minus a greatest utility |
| Electorates.Propensities | src/main/kotlin/us/sodiumlabs/electorate/sim/Electorate.kt:43-44 | one running propensity per voter, in voter order |
| Electorates.MostLikelyAmong | src/main/kotlin/us/sodiumlabs/electorate/sim/Electorate.kt:42-48 | no choice exactly when no propensity is present and positive; otherwise the earliest position holding a greatest positive propensity |
| Electorates.MostLikelyToRun | src/main/kotlin/us/sodiumlabs/electorate/sim/Electorate.kt:42-48 | `getVoterMostLikelyToRun` picks a voter of the list, or none |
| Electorates.NextCandidate | src/main/kotlin/us/sodiumlabs/electorate/sim/Electorate.kt:35-37 | a round adds nothing exactly when no voter is chosen, and otherwise the candidate built from the chosen voter's stances |
| Electorates.ChosenInOrderExtends | src/main/kotlin/us/sodiumlabs/electorate/sim/Electorate.kt:34-38 | appending the candidate the next round chooses keeps every candidate chosen from those before it |
| Electorates.RunIsChosenInOrder | src/main/kotlin/us/sodiumlabs/electorate/sim/Electorate.kt:34-38 | a run of at most `rounds` rounds extends its start, chooses each candidate from those before it, and stops early only when no voter is eligible |
| Electorates.RunStops | src/main/kotlin/us/sodiumlabs/electorate/sim/Electorate.kt:36 | a round that finds no voter ends the loop |
| Electorates.RunContinues | src/main/kotlin/us/sodiumlabs/electorate/sim/Electorate.kt:35-37 | a round that finds a voter appends its candidate and goes on |
| Electorates.GenerateCandidatesFromVoters | src/main/kotlin/us/sodiumlabs/electorate/sim/Electorate.kt:32-40 | the loop builds exactly the run of `maxCandidateCount` rounds from no candidates |
| Electorates.GeneratedIsChosenInOrder | src/main/kotlin/us/sodiumlabs/electorate/sim/Electorate.kt:32-48 | the generated list has at most `maxCandidateCount` candidates, each the pick of the voter most likely to run given those before it, and is shorter only when no voter is left eligible |
| Electorates.Poll | src/main/kotlin/us/sodiumlabs/electorate/sim/Electorate.kt:62-66 | one ballot per voter, in voter order, each cast by the strategy over the given candidates |
| Electorates.PollElectorate | src/main/kotlin/us/sodiumlabs/electorate/sim/Electorate.kt:58-60 | `poll(votingStrategy)` polls over the electorate's own candidates |
| Electorates.UpperBound | src/main/kotlin/us/sodiumlabs/electorate/sim/Electorate.kt:70-78 | the running maximum starts at 0, bounds every present utility from above, and is 0 or one of them |
| Electorates.LowerBound | src/main/kotlin/us/sodiumlabs/electorate/sim/Electorate.kt:71-78 | the running minimum starts at 1, bounds every present utility from below, and is 1 or one of them |
| Electorates.Clamp | src/main/kotlin/us/sodiumlabs/electorate/sim/Electorate.kt:90 | `min(1).max(0)` lies in [0, 1] and leaves a value already in [0, 1] unchanged |
| Electorates.MetricsFor | src/main/kotlin/us/sodiumlabs/electorate/sim/Electorate.kt:82-96 | regret is present exactly when the raw utility is, and is max(maximum - raw, 0); normalized regret is present exactly when regret is and the bounds differ, and is (max(maximum - raw, 0) / (maximum - minimum)) clamped to [0, 1]; for a raw utility within the bounds it is (maximum - raw) / (maximum - minimum) unclamped |
| Electorates.CandidateUtilities | src/main/kotlin/us/sodiumlabs/electorate/sim/Electorate.kt:73-104 | one averaged utility per candidate, in candidate order |
| Electorates.CalculateRegret | src/main/kotlin/us/sodiumlabs/electorate/sim/Electorate.kt:68-98 | the one-pass loop over the candidates, with its utility map, gives exactly the metrics of the winner's utility against the bounds, and indeterminate metrics without a winner |
| Electorates.BestCandidateHasNoRegret | src/main/kotlin/us/sodiumlabs/electorate/sim/Electorate.kt:68-98 | a winner with a present, non-negative utility no smaller than any candidate's has regret 0, and normalized regret 0 whenever the bounds differ |
| Electorates.BoundsWithoutPresentUtilities | src/main/kotlin/us/sodiumlabs/electorate/sim/Electorate.kt:70-78 | without present utilities the bounds stay at 0 and 1, so they never coincide |
| Electorates.RunningPropensity | src/main/kotlin/us/sodiumlabs/electorate/sim/Electorate.kt:146-158 | base propensity minus the largest utility for the voter, 0 standing for it without candidates, indeterminate when either operand is; its properties are `Electorates.PropensityWithoutCandidates` and `Electorates.PropensityIsBaseMinusBestUtility` |
| Electorates.Run | src/main/kotlin/us/sodiumlabs/electorate/sim/Electorate.kt:32-40 | at most the given number of greedy rounds, stopping at the first round without an eligible voter; its properties are `Electorates.RunIsChosenInOrder`, `Electorates.RunStops` and `Electorates.RunContinues` |
| Electorates.Regret | src/main/kotlin/us/sodiumlabs/electorate/sim/Electorate.kt:68-98 | `calculateRegret`: indeterminate metrics without a winner, otherwise the metrics of the winner against the bounds over the candidates; its properties are `Electorates.BestCandidateHasNoRegret` and `Electorates.CalculateRegret` |
| ElectionSim.Entries | src/main/kotlin/us/sodiumlabs/electorate/sim/ElectionSim.kt:81-89 | the entry set lists each candidate with a positive count, and nothing else, once |
| ElectionSim.SortedCandidateList | src/main/kotlin/us/sodiumlabs/electorate/sim/ElectionSim.kt:88-93 | every counted candidate appears exactly once, only counted candidates appear, and counts never increase along the list |
| ElectionSim.FindFirst | src/main/kotlin/us/sodiumlabs/electorate/sim/ElectionSim.kt:80-86 | `findFirst` throws (None) exactly when no candidate is counted, and otherwise gives a counted candidate whose count no candidate exceeds |
| ElectionSim.FindFirstMatchesSortedHead | src/main/kotlin/us/sodiumlabs/electorate/sim/ElectionSim.kt:80-93 | `findFirst` succeeds exactly when `sortedCandidateList` is non-empty, and has the same count as its head |
| ElectionSim.Zeros | src/main/kotlin/us/sodiumlabs/electorate/sim/ElectionSim.kt:80-93 | the empty count multiset counts no candidate |
| ElectionSim.Tally | src/main/kotlin/us/sodiumlabs/electorate/sim/ElectionSim.kt:80-93 | the count multiset of a list of votes counts each candidate as often as it was voted for |
| ElectionSim.TallyTotal | src/main/kotlin/us/sodiumlabs/electorate/sim/ElectionSim.kt:80-93 | the counts of a tally add up to the number of votes |
| ElectionSim.AddAll | src/main/kotlin/us/sodiumlabs/electorate/sim/ElectionSim.kt:80-93 | adding a list of votes to a count multiset raises each candidate's count by its number of votes |
| ElectionSim.AddAllToZeros | src/main/kotlin/us/sodiumlabs/electorate/sim/ElectionSim.kt:80-93 | votes added to the empty multiset give their tally |
| ElectionSim.CountedIsVoted | src/main/kotlin/us/sodiumlabs/electorate/sim/ElectionSim.kt:80-93 | a candidate with a positive count received a vote |
| Sorting.InsertBy | src/main/kotlin/us/sodiumlabs/electorate/ranked/PureRankingStrategy.kt:14 | inserting into a stably sorted list keeps it stably sorted and adds the element once |
| Sorting.SortBy | src/main/kotlin/us/sodiumlabs/electorate/sim/ElectionSim.kt:82-90 | the stable sort is a permutation of its input and orders by key, equal keys in input order |
| Sorting.Ascending | src/main/kotlin/us/sodiumlabs/electorate/ranked/PureRankingStrategy.kt:13-14 | `sortedBy` lists every position once, by ascending key, equal keys in list order |
| Sorting.Descending | src/main/kotlin/us/sodiumlabs/electorate/ranked/PureRankingStrategy.kt:13-16 | `sortedBy` then `reversed` lists every position once, by descending key, equal keys in reverse list order |
| Sorting.ReversedDescends | src/main/kotlin/us/sodiumlabs/electorate/ranked/PureRankingStrategy.kt:14-15 | reversing the ascending order gives the descending one, with equal keys in reverse order |
| Sorting.Read | src/main/kotlin/us/sodiumlabs/electorate/ranked/PureRankingStrategy.kt:16 | the elements read off at the listed positions, in that order |
| Sorting.PermutedReadIsPermutation | src/main/kotlin/us/sodiumlabs/electorate/ranked/PureRankingStrategy.kt:13-17 | reading a list through a permutation of its positions gives a permutation of the list |
| PureRanking.Utilities | src/main/kotlin/us/sodiumlabs/electorate/ranked/PureRankingStrategy.kt:13 | one utility per listed candidate, in list order |
| PureRanking.Rank | src/main/kotlin/us/sodiumlabs/electorate/ranked/PureRankingStrategy.kt:12-20 | the ballot has one entry per listed candidate |
| PureRanking.RankIsPermutation | src/main/kotlin/us/sodiumlabs/electorate/ranked/PureRankingStrategy.kt:12-20 | the ranked ballot is a permutation of the candidate list |
| PureRanking.RankIsByDescendingUtility | src/main/kotlin/us/sodiumlabs/electorate/ranked/PureRankingStrategy.kt:13-16 | utility never increases along the ballot, and candidates of equal utility appear in reverse list order |
| PureRanking.RankIsDistinct | src/main/kotlin/us/sodiumlabs/electorate/ranked/PureRankingStrategy.kt:12-20 | distinct candidates give a ballot that ranks no candidate twice |
| PureRanking.Ballots | src/main/kotlin/us/sodiumlabs/electorate/sim/Electorate.kt:62-66 | `poll(RANKING_STRATEGY)` ranks the candidates once per voter, in voter order |
| PureRanking.BallotsArePermutations | src/main/kotlin/us/sodiumlabs/electorate/ranked/PureRankingStrategy.kt:12-20 | every polled ballot ranks exactly the listed candidates |
| Plurality.ScanPrefix | src/main/kotlin/us/sodiumlabs/electorate/plurality/Plurality.kt:31-41 | after k candidates the scan holds the largest utility seen (at least -1) and the earliest position holding it, or no position when none exceeds -1 |
| Plurality.Ballot | src/main/kotlin/us/sodiumlabs/electorate/plurality/Plurality.kt:30-46 | a ballot throws (None) exactly when no candidate's utility exceeds -1, and otherwise names a listed candidate |
| Plurality.BallotIsEarliestMaximal | src/main/kotlin/us/sodiumlabs/electorate/plurality/Plurality.kt:31-41 | the ballot names the earliest listed candidate of greatest utility, and that utility exceeds -1 |
| Plurality.BallotFailsOnlyWithoutCandidates | src/main/kotlin/us/sodiumlabs/electorate/plurality/Plurality.kt:30-46 | with non-negative utilities a ballot fails exactly when the candidate list is empty |
| Plurality.Accept | src/main/kotlin/us/sodiumlabs/electorate/plurality/Plurality.kt:30-46 | the loop of `accept` computes exactly the ballot of the scan |
| Plurality.Ballots | src/main/kotlin/us/sodiumlabs/electorate/sim/Electorate.kt:62-66 | the poll fails exactly when some voter's ballot fails, and otherwise holds each voter's ballot in voter order |
| Plurality.VotesAreListed | src/main/kotlin/us/sodiumlabs/electorate/plurality/Plurality.kt:30-46 | every vote is for a listed candidate |
| Plurality.Count | src/main/kotlin/us/sodiumlabs/electorate/plurality/Plurality.kt:13-16 | the count multiset exists exactly when the poll succeeds, and is then the tally of its votes |
| Plurality.ElectedHasMostVotes | src/main/kotlin/us/sodiumlabs/electorate/plurality/Plurality.kt:12-23 | electing fails exactly when there is no voter or a ballot fails; the counts add up to the number of ballots, and the winner is a listed candidate no candidate outvotes |
| Plurality.Poll | src/main/kotlin/us/sodiumlabs/electorate/sim/Electorate.kt:62-66 | the polling loop gives exactly the ballots of the poll, stopping at the first failing ballot |
| Plurality.PollFailsWithPrefix | src/main/kotlin/us/sodiumlabs/electorate/sim/Electorate.kt:62-66 | a failing ballot among the first voters fails the whole poll |
| Plurality.PollAndCount | src/main/kotlin/us/sodiumlabs/electorate/plurality/Plurality.kt:13-16 | poll then `mapTo(ballotCount)` gives exactly the count multiset |
| Plurality.ProduceCandidate | src/main/kotlin/us/sodiumlabs/electorate/plurality/Plurality.kt:12-23 | `produceCandidate` gives exactly the elected candidate, None where it throws |
| Plurality.Elect | src/main/kotlin/us/sodiumlabs/electorate/plurality/Plurality.kt:12-23 | the winner of the poll: a most voted candidate, None where a ballot fails or nobody voted; its property is `Plurality.ElectedHasMostVotes` |
| StrategicPlurality.Finalists | src/main/kotlin/us/sodiumlabs/electorate/plurality/StrategicPlurality.kt:23-27 | the second round runs over the first two candidates of the first-round ranking, two ids of the count, or throws (None) |
| StrategicPlurality.FinalistsNeedTwoVoted | src/main/kotlin/us/sodiumlabs/electorate/plurality/StrategicPlurality.kt:23-27 | `subList(0,2)` throws exactly when fewer than two candidates received first-round votes |
| StrategicPlurality.FinalistsAreTheTopTwo | src/main/kotlin/us/sodiumlabs/electorate/plurality/StrategicPlurality.kt:18-27 | the finalists are two distinct candidates with first-round votes, the first with at least as many as the second, and no other candidate with more than the second |
| StrategicPlurality.WinnerIsAFinalist | src/main/kotlin/us/sodiumlabs/electorate/plurality/StrategicPlurality.kt:17-32 | the winner is one of the finalists, and no candidate has more second-round votes |
| StrategicPlurality.SecondRoundWinner | src/main/kotlin/us/sodiumlabs/electorate/plurality/StrategicPlurality.kt:27-31 | a plurality round over two candidates elects one of them, with the most votes |
| StrategicPlurality.InPair | src/main/kotlin/us/sodiumlabs/electorate/plurality/StrategicPlurality.kt:27 | a member of a two-candidate list is one of its two entries |
| StrategicPlurality.ProduceCandidate | src/main/kotlin/us/sodiumlabs/electorate/plurality/StrategicPlurality.kt:17-32 | the two polls, the ranking and the cleared count give exactly the elected candidate, None where it throws |
| StrategicPlurality.Elect | src/main/kotlin/us/sodiumlabs/electorate/plurality/StrategicPlurality.kt:17-32 | the first-round top two, then a plurality poll between them; its property is `StrategicPlurality.WinnerIsAFinalist` |
| TwoPartyPlurality.RandomCandidates | src/main/kotlin/us/sodiumlabs/electorate/plurality/TwoPartyPlurality.kt:32-38 | the drawn pair holds the candidates at the two drawn indices, possibly the same one, and fails exactly when there is no candidate |
| TwoPartyPlurality.WinnerIsDrawn | src/main/kotlin/us/sodiumlabs/electorate/plurality/TwoPartyPlurality.kt:19-30 | the winner is one of the drawn pair with the most votes; with non-negative utilities the election fails exactly without candidates or voters |
| TwoPartyPlurality.SameDrawWins | src/main/kotlin/us/sodiumlabs/electorate/plurality/TwoPartyPlurality.kt:19-38 | drawing the same candidate twice elects it whenever there is a voter |
| TwoPartyPlurality.ProduceCandidate | src/main/kotlin/us/sodiumlabs/electorate/plurality/TwoPartyPlurality.kt:19-30 | `produceCandidate` gives exactly the elected candidate for the given draws |
| TwoPartyPlurality.Elect | src/main/kotlin/us/sodiumlabs/electorate/plurality/TwoPartyPlurality.kt:19-30 | a plurality poll between the two drawn candidates; its properties are `TwoPartyPlurality.WinnerIsDrawn` and `TwoPartyPlurality.SameDrawWins` |
| RandomTwoPartyPlurality.ElectCandidate | src/main/kotlin/us/sodiumlabs/electorate/plurality/RandomTwoPartyPlurality.kt:20-35 | `electCandidate` gives exactly the two-party outcome for the given draws |
| ElectedTwoPartyPlurality.ContentionBallots | src/main/kotlin/us/sodiumlabs/electorate/plurality/ElectedTwoPartyPlurality.kt:21 | one contention ballot per voter, holding that voter's stances keyed by policy, a later stance on a policy replacing an earlier one (also lines 81-95) |
| ElectedTwoPartyPlurality.PartialUpdateStep | src/main/kotlin/us/sodiumlabs/electorate/plurality/ElectedTwoPartyPlurality.kt:29-42 | adding one more policy of the first ballot stores its contention, or adds it to the stored total |
| ElectedTwoPartyPlurality.PartialUpdateNone | src/main/kotlin/us/sodiumlabs/electorate/plurality/ElectedTwoPartyPlurality.kt:29-42 | before the key loop the totals are unchanged |
| ElectedTwoPartyPlurality.AddPair | src/main/kotlin/us/sodiumlabs/electorate/plurality/ElectedTwoPartyPlurality.kt:26-42 | the loop over the first ballot's stances, in any key order, adds each policy's contention \|s1 - s2\| to its total or stores it as the first total |
| ElectedTwoPartyPlurality.AccumulateContention | src/main/kotlin/us/sodiumlabs/electorate/plurality/ElectedTwoPartyPlurality.kt:22-44 | the nested loops over i < n - 1 and i <= j < n give exactly the contention totals of all those pairs |
| ElectedTwoPartyPlurality.BeforeIsPairSum | src/main/kotlin/us/sodiumlabs/electorate/plurality/ElectedTwoPartyPlurality.kt:24-44 | with every stance on a policy present, its total after the pairs up to (i, j) is the sum of \|s_i' - s_j'\| over those pairs |
| ElectedTwoPartyPlurality.ContentionIsPairSum | src/main/kotlin/us/sodiumlabs/electorate/plurality/ElectedTwoPartyPlurality.kt:24-44 | with every stance on a policy present and at least two voters, the policy's contention is the sum of \|s_i - s_j\| over the pairs i < n - 1, i <= j < n |
| ElectedTwoPartyPlurality.RowSumNonNegative | src/main/kotlin/us/sodiumlabs/electorate/plurality/ElectedTwoPartyPlurality.kt:34 | a row of absolute differences is never negative |
| ElectedTwoPartyPlurality.PairSumBounds | src/main/kotlin/us/sodiumlabs/electorate/plurality/ElectedTwoPartyPlurality.kt:24-44 | a contention total is never negative, and is 0 when all voters agree on the policy |
| ElectedTwoPartyPlurality.RowSumOfAgreement | src/main/kotlin/us/sodiumlabs/electorate/plurality/ElectedTwoPartyPlurality.kt:34 | voters who agree give a row of zero differences |
| ElectedTwoPartyPlurality.BeforeIndeterminate | src/main/kotlin/us/sodiumlabs/electorate/plurality/ElectedTwoPartyPlurality.kt:31-41 | once a pair in which the second voter lacks the policy has been added, that policy's total stays indeterminate |
| ElectedTwoPartyPlurality.MissingStanceMakesContentionIndeterminate | src/main/kotlin/us/sodiumlabs/electorate/plurality/ElectedTwoPartyPlurality.kt:29-44 | a policy of a voter other than the last, on which some later voter (or the same one) has no present stance, has an indeterminate contention total |
| ElectedTwoPartyPlurality.BeforeKeys | src/main/kotlin/us/sodiumlabs/electorate/plurality/ElectedTwoPartyPlurality.kt:24-44 | the totals after the pairs up to (i, j) have an entry exactly for the policies of the first ballots of those pairs |
| ElectedTwoPartyPlurality.ContentionKeys | src/main/kotlin/us/sodiumlabs/electorate/plurality/ElectedTwoPartyPlurality.kt:24-44 | the contention map has an entry exactly for the policies of the voters other than the last, so it is empty with fewer than two voters |
| ElectedTwoPartyPlurality.ReduceStep | src/main/kotlin/us/sodiumlabs/electorate/plurality/ElectedTwoPartyPlurality.kt:47-53 | one step of the `reduce` keeps an entry whose total no visited entry exceeds |
| ElectedTwoPartyPlurality.MoveToSeen | src/main/kotlin/us/sodiumlabs/electorate/plurality/ElectedTwoPartyPlurality.kt:46-53 | visiting one more entry keeps visited and unvisited entries a partition of the keys |
| ElectedTwoPartyPlurality.ElectPolicy | src/main/kotlin/us/sodiumlabs/electorate/plurality/ElectedTwoPartyPlurality.kt:46-55 | electing a policy throws (None) exactly on an empty contention map, and otherwise gives a policy whose total no other policy's total exceeds |
| ElectedTwoPartyPlurality.ForPartyIsStanceLookup | src/main/kotlin/us/sodiumlabs/electorate/plurality/ElectedTwoPartyPlurality.kt:111-114 | a voter is for the party exactly when its last stance on the policy, as a stance map holds it, is above 0.5 |
| ElectedTwoPartyPlurality.PrimaryAccept | src/main/kotlin/us/sodiumlabs/electorate/plurality/ElectedTwoPartyPlurality.kt:98-119 | the primary ballot's loops give the plurality choice together with the voter's side, None where it throws |
| ElectedTwoPartyPlurality.PrimaryBallotsAreTheVoters | src/main/kotlin/us/sodiumlabs/electorate/plurality/ElectedTwoPartyPlurality.kt:58 | the primary poll fails exactly when some voter's plurality ballot fails, and otherwise holds each voter's primary ballot in voter order |
| ElectedTwoPartyPlurality.PrimaryPoll | src/main/kotlin/us/sodiumlabs/electorate/plurality/ElectedTwoPartyPlurality.kt:58 | the polling loop gives exactly the primary poll |
| ElectedTwoPartyPlurality.SideVotes | src/main/kotlin/us/sodiumlabs/electorate/plurality/ElectedTwoPartyPlurality.kt:61-66 | every candidate counted for a side comes from a ballot on that side for it |
| ElectedTwoPartyPlurality.SidesPartitionBallots | src/main/kotlin/us/sodiumlabs/electorate/plurality/ElectedTwoPartyPlurality.kt:61-66 | every primary ballot is counted on exactly one side |
| ElectedTwoPartyPlurality.Nominee | src/main/kotlin/us/sodiumlabs/electorate/plurality/ElectedTwoPartyPlurality.kt:68-69 | a side's nominee is one of the candidates |
| ElectedTwoPartyPlurality.NomineeHasMostSideVotes | src/main/kotlin/us/sodiumlabs/electorate/plurality/ElectedTwoPartyPlurality.kt:59-69 | a side has no nominee exactly when it has no votes; otherwise the nominee was voted for on that side and no candidate has more votes there |
| ElectedTwoPartyPlurality.GeneralWinnerIsANominee | src/main/kotlin/us/sodiumlabs/electorate/plurality/ElectedTwoPartyPlurality.kt:73-78 | the general election elects one of the two nominees, and no candidate has more general-election votes |
| ElectedTwoPartyPlurality.GeneralFailsOnlyWithoutNominees | src/main/kotlin/us/sodiumlabs/electorate/plurality/ElectedTwoPartyPlurality.kt:68-78 | with non-negative utilities the general election fails exactly when there is no voter or a side has no nominee |
| ElectedTwoPartyPlurality.Nominate | src/main/kotlin/us/sodiumlabs/electorate/plurality/ElectedTwoPartyPlurality.kt:59-69 | a side's count multiset and its `findFirst` give exactly the side's nominee |
| ElectedTwoPartyPlurality.PrimaryAndGeneral | src/main/kotlin/us/sodiumlabs/electorate/plurality/ElectedTwoPartyPlurality.kt:57-78 | the primaries, the nominations and the general election give exactly the outcome for the elected policy |
| ElectedTwoPartyPlurality.GeneralElection | src/main/kotlin/us/sodiumlabs/electorate/plurality/ElectedTwoPartyPlurality.kt:73-78 | the general poll and count give exactly the plurality winner between the nominees |
| ElectedTwoPartyPlurality.ProduceCandidate | src/main/kotlin/us/sodiumlabs/electorate/plurality/ElectedTwoPartyPlurality.kt:19-79 | no policy is elected exactly when the contention map is empty, and then nothing is; otherwise the elected policy is a most contentious one and the winner is the outcome of its primaries and general election |
| ElectedTwoPartyPlurality.Before | src/main/kotlin/us/sodiumlabs/electorate/plurality/ElectedTwoPartyPlurality.kt:24-44 | the contention totals once every pair before (i, j) in loop order is added; its property is `ElectedTwoPartyPlurality.BeforeIsPairSum` |
| ElectedTwoPartyPlurality.MostContentious | src/main/kotlin/us/sodiumlabs/electorate/plurality/ElectedTwoPartyPlurality.kt:46-55 | a policy whose total no other total exceeds, indeterminate totals ranking high; `ElectedTwoPartyPlurality.ElectPolicy` elects one |
| ElectedTwoPartyPlurality.ForParty | src/main/kotlin/us/sodiumlabs/electorate/plurality/ElectedTwoPartyPlurality.kt:111-114 | the voter's last stance on the policy is above 0.5, false without one; its property is `ElectedTwoPartyPlurality.ForPartyIsStanceLookup` |
| ElectedTwoPartyPlurality.PrimaryBallot | src/main/kotlin/us/sodiumlabs/electorate/plurality/ElectedTwoPartyPlurality.kt:98-119 | the plurality choice among all candidates and the voter's side, None where it throws; `ElectedTwoPartyPlurality.PrimaryAccept` computes it |
| ElectedTwoPartyPlurality.General | src/main/kotlin/us/sodiumlabs/electorate/plurality/ElectedTwoPartyPlurality.kt:73-78 | a plurality poll between the two nominees, None where one is missing; its property is `ElectedTwoPartyPlurality.GeneralWinnerIsANominee` |
| ElectedTwoPartyPlurality.Outcome | src/main/kotlin/us/sodiumlabs/electorate/plurality/ElectedTwoPartyPlurality.kt:57-78 | primaries, nominees and the general election for the elected policy; `ElectedTwoPartyPlurality.PrimaryAndGeneral` computes it |
| RangeVoting.Truncate | src/main/kotlin/us/sodiumlabs/electorate/range/RangeVoting.kt:44 | `toInt` keeps the integer part: for a non-negative value the result is the largest integer not above it, for a negative value the smallest integer not below it |
| RangeVoting.Marks | src/main/kotlin/us/sodiumlabs/electorate/range/RangeVoting.kt:41-45 | adding each listed candidate's score fails exactly when some score is negative (`Multiset.add` rejects a negative count) and otherwise yields one count per candidate id |
| RangeVoting.MarksOfDistinct | src/main/kotlin/us/sodiumlabs/electorate/range/RangeVoting.kt:41-45 | for distinct candidates with non-negative scores, a listed candidate's mark is its score and every other candidate's mark is 0 |
| RangeVoting.UnlistedHaveNoMarks | src/main/kotlin/us/sodiumlabs/electorate/range/RangeVoting.kt:41-45 | a candidate outside the list is never marked |
| RangeVoting.BallotWith | src/main/kotlin/us/sodiumlabs/electorate/range/RangeVoting.kt:30-48 | a ballot that passes the check marks every candidate id and no mark exceeds `MAX_VOTE` |
| RangeVoting.BallotFailsOnlyAboveRange | src/main/kotlin/us/sodiumlabs/electorate/range/RangeVoting.kt:30-37 | for distinct candidates with non-negative scores, the `RangeBallot` check throws exactly when some candidate scores above `MAX_VOTE` |
| RangeVoting.ScoreAsWrittenOfFullUtility | src/main/kotlin/us/sodiumlabs/electorate/range/RangeVoting.kt:12-44 | as written, a utility of exactly 1 becomes the mark 6, one above `MAX_VOTE` |
| RangeVoting.BallotAsWrittenFailsOnFullUtility | src/main/kotlin/us/sodiumlabs/electorate/range/RangeVoting.kt:34-44 | as written, a voter with utility exactly 1 for a listed candidate makes the `RangeBallot` check throw |
| RangeVoting.ScoreInRange | src/main/kotlin/us/sodiumlabs/electorate/range/RangeVoting.kt:12-44 | the intended mark of a utility in [0, 1] lies in 0..5, is monotone in the utility, agrees with the written mark below 1 and gives 5 at 1 |
| RangeVoting.BallotAlwaysValid | src/main/kotlin/us/sodiumlabs/electorate/range/RangeVoting.kt:30-48 | with the intended mark every voter with utilities in [0, 1] casts a valid ballot marking each listed candidate with its score and no other |
| RangeVoting.Accept | src/main/kotlin/us/sodiumlabs/electorate/range/RangeVoting.kt:40-48 | the marks loop with the mark as written and the check loop return exactly the ballot under that mark, or None where the source throws |
| RangeVoting.MarksFailWithPrefix | src/main/kotlin/us/sodiumlabs/electorate/range/RangeVoting.kt:43-45 | once adding a mark has failed, the whole ballot fails |
| RangeVoting.Ballots | src/main/kotlin/us/sodiumlabs/electorate/range/RangeVoting.kt:16 | under a given scoring rule, polling fails exactly when some voter's ballot fails; otherwise it holds one ballot per voter, each that voter's ballot |
| RangeVoting.Poll | src/main/kotlin/us/sodiumlabs/electorate/range/RangeVoting.kt:16 | the polling loop returns exactly the ballots under the mark as written, failing where one of them throws |
| RangeVoting.PollFailsWithPrefix | src/main/kotlin/us/sodiumlabs/electorate/range/RangeVoting.kt:16 | a failing ballot among the first voters fails the whole poll |
| RangeVoting.BallotsAreValid | src/main/kotlin/us/sodiumlabs/electorate/range/RangeVoting.kt:16-37 | every polled ballot marks the m candidate ids within range |
| RangeVoting.Totals | src/main/kotlin/us/sodiumlabs/electorate/range/RangeVoting.kt:17-21 | the summed count multiset has one total per candidate id |
| RangeVoting.TotalsBounded | src/main/kotlin/us/sodiumlabs/electorate/range/RangeVoting.kt:17-21 | no candidate totals more than `MAX_VOTE` per ballot, and a candidate no ballot marks totals 0 |
| RangeVoting.WinnerHasHighestTotal | src/main/kotlin/us/sodiumlabs/electorate/range/RangeVoting.kt:15-24 | for any scoring rule, and so for the mark as written, electing fails exactly where a ballot fails or no candidate got any mark; otherwise the winner is a listed candidate whose positive total no total exceeds |
| RangeVoting.AddMarks | src/main/kotlin/us/sodiumlabs/electorate/range/RangeVoting.kt:20-21 | adding one ballot's entries raises each candidate's total by its mark |
| RangeVoting.SumBallots | src/main/kotlin/us/sodiumlabs/electorate/range/RangeVoting.kt:17-21 | the summing loops give exactly the specified totals |
| RangeVoting.ProduceCandidate | src/main/kotlin/us/sodiumlabs/electorate/range/RangeVoting.kt:15-24 | returns exactly the winner under the mark as written, None where the source throws |
| RangeVoting.ScoreAsWritten | src/main/kotlin/us/sodiumlabs/electorate/range/RangeVoting.kt:44 | the mark as written: `(utility * (MAX_VOTE + 1)).toInt()`; `RangeVoting.ScoreAsWrittenOfFullUtility` shows it reaches 6 |
| RangeVoting.Score | src/main/kotlin/us/sodiumlabs/electorate/range/RangeVoting.kt:44 | the intended mark: the written mark capped at `MAX_VOTE`; its property is `RangeVoting.ScoreInRange` |
| RangeVoting.Elect | src/main/kotlin/us/sodiumlabs/electorate/range/RangeVoting.kt:15-24 | a candidate with the largest total under a given scoring rule, None where a ballot fails or nobody is marked; its property is `RangeVoting.WinnerHasHighestTotal` |
| RangeVoting.PollAsWrittenFailsOnFullUtility | src/main/kotlin/us/sodiumlabs/electorate/range/RangeVoting.kt:16-44 | with the mark as written, one voter with utility exactly 1 for a listed candidate fails the poll, so `produceCandidate` throws |
| RangeVoting.IntendedPollSucceeds | src/main/kotlin/us/sodiumlabs/electorate/range/RangeVoting.kt:16-44 | with the intended mark, voters with utilities in [0, 1] never fail the poll, and each ballot marks every listed candidate with its score and no other |
| StarVoting.PreferencesPartitionBallots | src/main/kotlin/us/sodiumlabs/electorate/range/StarVoting.kt:36-45 | every ballot prefers the first finalist, prefers the second, or ties them, so the three counts add up to the number of ballots |
| StarVoting.Runoff | src/main/kotlin/us/sodiumlabs/electorate/range/StarVoting.kt:33-45 | the runoff count multiset has one count per candidate id |
| StarVoting.RunoffCounts | src/main/kotlin/us/sodiumlabs/electorate/range/StarVoting.kt:33-45 | each finalist's runoff count is 1 plus the number of ballots marking it strictly higher than the other finalist, and every other candidate counts 0 |
| StarVoting.RunoffTotal | src/main/kotlin/us/sodiumlabs/electorate/range/StarVoting.kt:33-45 | the two runoff counts add up to the two seeds plus the ballots that do not tie the finalists |
| StarVoting.WinnerIsThePreferredFinalist | src/main/kotlin/us/sodiumlabs/electorate/range/StarVoting.kt:17-48 | for any scoring rule, and so for the mark as written, STAR fails exactly where a ballot fails or fewer than two candidates have a positive total; otherwise the winner is one of the two top-scoring finalists and at least as many ballots prefer it to the other finalist as the other way round |
| StarVoting.Prefer | src/main/kotlin/us/sodiumlabs/electorate/range/StarVoting.kt:37-44 | one ballot adds 1 to the finalist it marks strictly higher and nothing on a tie |
| StarVoting.CountRunoff | src/main/kotlin/us/sodiumlabs/electorate/range/StarVoting.kt:33-45 | the seeding and the runoff loop give exactly the specified runoff counts |
| StarVoting.ElectCandidate | src/main/kotlin/us/sodiumlabs/electorate/range/StarVoting.kt:17-48 | returns exactly the STAR winner under the mark as written, None where the source throws |
| StarVoting.Elect | src/main/kotlin/us/sodiumlabs/electorate/range/StarVoting.kt:17-48 | the range totals pick two finalists and the runoff picks between them, under a given scoring rule; its property is `StarVoting.WinnerIsThePreferredFinalist` |
| StarVoting.ElectAsWrittenFailsOnFullUtility | src/main/kotlin/us/sodiumlabs/electorate/range/StarVoting.kt:17-48 | with the mark as written, one voter with utility exactly 1 for a listed candidate makes `electCandidate` throw |
| ApprovalVoting.ApprovalBallot | src/main/kotlin/us/sodiumlabs/electorate/approval/ApprovalVoting.kt:31-37 | the ballot fails exactly when a candidate is listed twice (the map builder throws on a duplicate key); otherwise it has one entry per listed candidate, true exactly when that candidate's utility is strictly above the threshold |
| ApprovalVoting.InternalAccept | src/main/kotlin/us/sodiumlabs/electorate/approval/ApprovalVoting.kt:31-37 | the builder loop returns exactly the specified ballot, or None on a duplicate |
| ApprovalVoting.SumOverAtLeast | src/main/kotlin/us/sodiumlabs/electorate/approval/ApprovalVoting.kt:60-62 | the utilities summed over the candidates are at least their number times a lower bound |
| ApprovalVoting.SumOverAtMost | src/main/kotlin/us/sodiumlabs/electorate/approval/ApprovalVoting.kt:60-62 | the utilities summed over the candidates are at most their number times an upper bound |
| ApprovalVoting.MeanBetween | src/main/kotlin/us/sodiumlabs/electorate/approval/ApprovalVoting.kt:59-65 | the mean threshold lies between the voter's smallest and largest utility |
| ApprovalVoting.MeanBelowTop | src/main/kotlin/us/sodiumlabs/electorate/approval/ApprovalVoting.kt:59-65 | the mean threshold is strictly below an upper bound on the utilities that some utility is strictly below |
| ApprovalVoting.SumBelowWithOneLower | src/main/kotlin/us/sodiumlabs/electorate/approval/ApprovalVoting.kt:60-62 | with every utility at most a bound and one strictly below it, the sum is strictly below the count times the bound |
| ApprovalVoting.MeanApprovesSomeButNotAll | src/main/kotlin/us/sodiumlabs/electorate/approval/ApprovalVoting.kt:34-66 | a voter using its mean utility as threshold disapproves some candidate, and approves some candidate exactly when its utilities are not all equal |
| ApprovalVoting.MinIndex | src/main/kotlin/us/sodiumlabs/electorate/approval/ApprovalVoting.kt:59-65 | a position of a smallest utility among the candidates |
| ApprovalVoting.MaxIndex | src/main/kotlin/us/sodiumlabs/electorate/approval/ApprovalVoting.kt:59-65 | a position of a largest utility among the candidates |
| ApprovalVoting.Ballots | src/main/kotlin/us/sodiumlabs/electorate/approval/ApprovalVoting.kt:14 | polling fails exactly when there is a voter and a candidate is listed twice; otherwise each voter's ballot is its approval ballot at the threshold its strategy gives (fixed, its own random draw, or its mean utility) (also lines 42-66) |
| ApprovalVoting.Poll | src/main/kotlin/us/sodiumlabs/electorate/approval/ApprovalVoting.kt:14 | the polling loop returns exactly the specified ballots |
| ApprovalVoting.Approvals | src/main/kotlin/us/sodiumlabs/electorate/approval/ApprovalVoting.kt:15-19 | the approval count multiset has one count per candidate id |
| ApprovalVoting.ApprovalsBounded | src/main/kotlin/us/sodiumlabs/electorate/approval/ApprovalVoting.kt:15-19 | no candidate is approved more often than there are ballots, and a candidate no ballot approves counts 0 |
| ApprovalVoting.WinnerHasMostApprovals | src/main/kotlin/us/sodiumlabs/electorate/approval/ApprovalVoting.kt:13-22 | the winner is a listed candidate approved by at least one ballot and by no fewer ballots than any other candidate |
| ApprovalVoting.NoWinnerIffNoneApproved | src/main/kotlin/us/sodiumlabs/electorate/approval/ApprovalVoting.kt:21 | `findFirst` finds no winner exactly when no ballot approves anyone |
| ApprovalVoting.ElectFailsWithoutApprovals | src/main/kotlin/us/sodiumlabs/electorate/approval/ApprovalVoting.kt:13-22 | electing fails exactly when a ballot fails or no ballot approves anyone |
| ApprovalVoting.ApprovedIsCounted | src/main/kotlin/us/sodiumlabs/electorate/approval/ApprovalVoting.kt:17-19 | a candidate some ballot approves has a positive count |
| ApprovalVoting.AddApprovals | src/main/kotlin/us/sodiumlabs/electorate/approval/ApprovalVoting.kt:17-19 | adding one ballot raises exactly the counts of the candidates it approves, by one |
| ApprovalVoting.BallotKeys | src/main/kotlin/us/sodiumlabs/electorate/approval/ApprovalVoting.kt:14-37 | every polled ballot has one entry per listed candidate, and the candidates are then distinct |
| ApprovalVoting.CountApprovals | src/main/kotlin/us/sodiumlabs/electorate/approval/ApprovalVoting.kt:15-19 | the counting loops give exactly the specified approval counts |
| ApprovalVoting.ProduceCandidate | src/main/kotlin/us/sodiumlabs/electorate/approval/ApprovalVoting.kt:13-22 | returns exactly the specified winner |
| ApprovalVoting.MeanUtility | src/main/kotlin/us/sodiumlabs/electorate/approval/ApprovalVoting.kt:59-65 | the mean of the voter's utilities over the candidates; its properties are `ApprovalVoting.MeanBetween` and `ApprovalVoting.MeanApprovesSomeButNotAll` |
| ApprovalVoting.ThresholdOf | src/main/kotlin/us/sodiumlabs/electorate/approval/ApprovalVoting.kt:42-66 | the fixed threshold, the voter's draw, or the mean utility, by strategy |
| ApprovalVoting.Elect | src/main/kotlin/us/sodiumlabs/electorate/approval/ApprovalVoting.kt:13-22 | a most approved candidate, None where a ballot fails or nobody is approved; its property is `ApprovalVoting.WinnerHasMostApprovals` |
| InstantRunoff.FirstRemaining | src/main/kotlin/us/sodiumlabs/electorate/ranked/InstantRunnoff.kt:33-38 | the inner loop's stop: the first position on the ballot holding a remaining candidate, None exactly when the ballot ranks none |
| InstantRunoff.Votes | src/main/kotlin/us/sodiumlabs/electorate/ranked/InstantRunnoff.kt:32-39 | a round casts at most one vote per ballot, each for a remaining candidate |
| InstantRunoff.Count | src/main/kotlin/us/sodiumlabs/electorate/ranked/InstantRunnoff.kt:29-42 | `countBallots` gives one count per candidate id |
| InstantRunoff.CountBounds | src/main/kotlin/us/sodiumlabs/electorate/ranked/InstantRunnoff.kt:29-42 | a round's counts total at most the number of ballots, only remaining candidates are counted, and when every ballot ranks a remaining candidate every ballot counts once |
| InstantRunoff.EveryBallotVotes | src/main/kotlin/us/sodiumlabs/electorate/ranked/InstantRunnoff.kt:32-39 | when every ballot ranks a remaining candidate, every ballot casts a vote |
| InstantRunoff.HasWinner | src/main/kotlin/us/sodiumlabs/electorate/ranked/InstantRunnoff.kt:44-47 | fails exactly on an all-zero count (`findFirst` throws); true exactly when some candidate holds more than half the ballots, by integer division |
| InstantRunoff.FindLoser | src/main/kotlin/us/sodiumlabs/electorate/ranked/InstantRunnoff.kt:49 | fails exactly on an all-zero count; otherwise a counted candidate with no more votes than any other counted candidate |
| InstantRunoff.Remove | src/main/kotlin/us/sodiumlabs/electorate/ranked/InstantRunnoff.kt:22 | `remove` drops exactly one occurrence of the loser, shortening the list by one when it is present |
| InstantRunoff.Final | src/main/kotlin/us/sodiumlabs/electorate/ranked/InstantRunnoff.kt:20-24 | the candidates left when the loop stops are drawn from those it started with, and some remain when some were listed |
| InstantRunoff.FinalStops | src/main/kotlin/us/sodiumlabs/electorate/ranked/InstantRunnoff.kt:21 | the loop stops only with at most one candidate left, with a round that counted nobody, or with a candidate above half the ballots |
| InstantRunoff.RoundRemovesOneLoser | src/main/kotlin/us/sodiumlabs/electorate/ranked/InstantRunnoff.kt:21-23 | each round without a winner removes exactly one remaining candidate, one that got a vote and no more votes than any other counted candidate |
| InstantRunoff.BallotsRankEveryone | src/main/kotlin/us/sodiumlabs/electorate/ranked/InstantRunnoff.kt:17 | every ranked ballot lists every candidate |
| InstantRunoff.ElectFailsOnlyWithoutVoters | src/main/kotlin/us/sodiumlabs/electorate/ranked/InstantRunnoff.kt:16-27 | instant runoff fails exactly when there are no voters or no candidates |
| InstantRunoff.LastRoundCountsOnlyWithoutBallots | src/main/kotlin/us/sodiumlabs/electorate/ranked/InstantRunnoff.kt:20-26 | when every ballot ranks every candidate, the last round counts nobody exactly when there are no ballots or no candidates |
| InstantRunoff.LastRoundLeader | src/main/kotlin/us/sodiumlabs/electorate/ranked/InstantRunnoff.kt:20-26 | the leader of the last round is a remaining candidate that is the last one standing or holds a strict majority, and no candidate has more votes in that round |
| InstantRunoff.StoppedRoundLeader | src/main/kotlin/us/sodiumlabs/electorate/ranked/InstantRunnoff.kt:21-26 | in a round that stopped the loop, the leader is a remaining candidate, the only one or above the majority bound |
| InstantRunoff.ElectedWinsTheLastRound | src/main/kotlin/us/sodiumlabs/electorate/ranked/InstantRunnoff.kt:16-27 | the winner is a listed candidate that is the last one standing or holds a strict majority of the ballots in the last round, and no candidate has more votes in that round |
| InstantRunoff.SumOfZerosIsZero | src/main/kotlin/us/sodiumlabs/electorate/ranked/InstantRunnoff.kt:41 | an all-zero count totals 0 |
| InstantRunoff.ZeroSumIsZeros | src/main/kotlin/us/sodiumlabs/electorate/ranked/InstantRunnoff.kt:41 | a count totalling 0 is all zero |
| InstantRunoff.CountBallot | src/main/kotlin/us/sodiumlabs/electorate/ranked/InstantRunnoff.kt:33-38 | one ballot adds 1 to its first remaining candidate and nothing when it ranks none |
| InstantRunoff.CountBallots | src/main/kotlin/us/sodiumlabs/electorate/ranked/InstantRunnoff.kt:29-42 | the counting loops give exactly the specified round count |
| InstantRunoff.ProduceCandidate | src/main/kotlin/us/sodiumlabs/electorate/ranked/InstantRunnoff.kt:16-27 | the elimination loop returns exactly the specified winner |
| InstantRunoff.Elect | src/main/kotlin/us/sodiumlabs/electorate/ranked/InstantRunnoff.kt:16-27 | the leader of the last round, None when it counted nobody; its property is `InstantRunoff.ElectedWinsTheLastRound` |
| RankedPairs.AddRow | src/main/kotlin/us/sodiumlabs/electorate/ranked/RankedPairs.kt:22-27 | the inner tally loop keeps every cell positive |
| RankedPairs.AddRows | src/main/kotlin/us/sodiumlabs/electorate/ranked/RankedPairs.kt:21-28 | the outer tally loop keeps every cell positive |
| RankedPairs.AddBallot | src/main/kotlin/us/sodiumlabs/electorate/ranked/RankedPairs.kt:20-29 | tallying one ballot keeps every cell positive |
| RankedPairs.PairTable | src/main/kotlin/us/sodiumlabs/electorate/ranked/RankedPairs.kt:17-29 | every cell of the tallied table holds a positive count |
| RankedPairs.AddRowCounts | src/main/kotlin/us/sodiumlabs/electorate/ranked/RankedPairs.kt:22-27 | the inner loop for place i adds to the cell (c1, c2) the number of later places holding c2, when place i holds c1 |
| RankedPairs.AddRowsCounts | src/main/kotlin/us/sodiumlabs/electorate/ranked/RankedPairs.kt:21-28 | the first i rows add to a cell exactly the per-row counts |
| RankedPairs.OccursOnce | src/main/kotlin/us/sodiumlabs/electorate/ranked/RankedPairs.kt:21-28 | a candidate occurs at most once on a ranking without repeats |
| RankedPairs.DistinctRowsCount | src/main/kotlin/us/sodiumlabs/electorate/ranked/RankedPairs.kt:21-28 | on a ranking without repeats the first k rows add 1 to (c1, c2) exactly when c1 is among the first k places and c2 comes after it |
| RankedPairs.BallotCounts | src/main/kotlin/us/sodiumlabs/electorate/ranked/RankedPairs.kt:20-29 | tallying a ballot without repeats adds 1 to the cell (c1, c2) exactly when the ballot ranks c1 before c2 |
| RankedPairs.TallyCountsPreferences | src/main/kotlin/us/sodiumlabs/electorate/ranked/RankedPairs.kt:17-29 | the tally of (c1, c2) is the number of ballots ranking c1 strictly before c2 |
| RankedPairs.NoSelfPreference | src/main/kotlin/us/sodiumlabs/electorate/ranked/RankedPairs.kt:21-24 | no ballot without repeats ranks a candidate before itself |
| RankedPairs.PreferringCountsBallot | src/main/kotlin/us/sodiumlabs/electorate/ranked/RankedPairs.kt:20-29 | a ballot ranking c1 before c2 makes their count positive |
| RankedPairs.AddRowKeys | src/main/kotlin/us/sodiumlabs/electorate/ranked/RankedPairs.kt:22-27 | a row adds cells only for candidates on the ballot |
| RankedPairs.AddRowsKeys | src/main/kotlin/us/sodiumlabs/electorate/ranked/RankedPairs.kt:21-28 | the rows of a ballot add cells only for candidates on the ballot |
| RankedPairs.TableKeysWithin | src/main/kotlin/us/sodiumlabs/electorate/ranked/RankedPairs.kt:17-29 | every cell of the table pairs two candidates that appear on the ballots |
| RankedPairs.RowCells | src/main/kotlin/us/sodiumlabs/electorate/ranked/RankedPairs.kt:34 | the cells of one row are exactly the table's entries in that row over the listed columns, each once |
| RankedPairs.TableCells | src/main/kotlin/us/sodiumlabs/electorate/ranked/RankedPairs.kt:34 | `cellSet` holds exactly the table's entries over the listed candidates, each key once |
| RankedPairs.LockOrder | src/main/kotlin/us/sodiumlabs/electorate/ranked/RankedPairs.kt:34-36 | the locking order has as many cells as the cell set |
| RankedPairs.LockOrderIsByWeight | src/main/kotlin/us/sodiumlabs/electorate/ranked/RankedPairs.kt:34-36 | the locking order is a permutation of the cells, heaviest first |
| RankedPairs.LockOrderHasTheCells | src/main/kotlin/us/sodiumlabs/electorate/ranked/RankedPairs.kt:34-36 | a cell is in the locking order exactly when it is in the cell set |
| RankedPairs.Locked | src/main/kotlin/us/sodiumlabs/electorate/ranked/RankedPairs.kt:31-38 | locking every cell in order into a fresh graph keeps the graph well formed (in range, acyclic, one node per candidate) |
| RankedPairs.Ends | src/main/kotlin/us/sodiumlabs/electorate/ranked/RankedPairs.kt:38 | the set of candidates of the locked cells contains both ends of each cell |
| RankedPairs.EndsWithin | src/main/kotlin/us/sodiumlabs/electorate/ranked/RankedPairs.kt:38 | cells over candidates of a set have all their ends in it |
| RankedPairs.LockedNodes | src/main/kotlin/us/sodiumlabs/electorate/ranked/RankedPairs.kt:31-62 | the graph has a node for each candidate of a locked cell and for nothing else |
| RankedPairs.PolledBallotsAreDistinct | src/main/kotlin/us/sodiumlabs/electorate/ranked/RankedPairs.kt:16 | with distinct candidates, no polled ranking lists a candidate twice |
| RankedPairs.PolledBallotsWithin | src/main/kotlin/us/sodiumlabs/electorate/ranked/RankedPairs.kt:16 | every polled ranking lists only the candidates |
| RankedPairs.OrderHasNoLoops | src/main/kotlin/us/sodiumlabs/electorate/ranked/RankedPairs.kt:20-36 | no cell of the locking order pairs a candidate with itself |
| RankedPairs.OrderIsTheTally | src/main/kotlin/us/sodiumlabs/electorate/ranked/RankedPairs.kt:16-36 | the locking order holds exactly the ordered pairs of listed candidates with a positive tally, each with the number of ballots ranking its row before its column, each pair once and never a candidate with itself |
| RankedPairs.CellsAreTheTally | src/main/kotlin/us/sodiumlabs/electorate/ranked/RankedPairs.kt:17-34 | the table's cells over the candidates are exactly the pairs with a positive tally, valued by that tally |
| RankedPairs.HeadOfLocked | src/main/kotlin/us/sodiumlabs/electorate/ranked/RankedPairs.kt:38-67 | the head of the locked graph exists exactly when some cell was locked, and it is a candidate of a locked cell |
| RankedPairs.PairNeedsVoterAndTwoCandidates | src/main/kotlin/us/sodiumlabs/electorate/ranked/RankedPairs.kt:16-36 | a tallied pair needs a voter and two different candidates |
| RankedPairs.VoterTalliesAPair | src/main/kotlin/us/sodiumlabs/electorate/ranked/RankedPairs.kt:16-36 | with a voter and two candidates, the voter's first two choices form a tallied pair |
| RankedPairs.ElectFailsOnlyWithoutPairs | src/main/kotlin/us/sodiumlabs/electorate/ranked/RankedPairs.kt:15-41 | ranked pairs fails exactly when there is no voter or at most one candidate |
| RankedPairs.WinnerIsUnbeaten | src/main/kotlin/us/sodiumlabs/electorate/ranked/RankedPairs.kt:15-41 | the winner is a listed candidate whose node no locked vertex enters, and which is the graph's first node or reaches it |
| RankedPairs.TallyBallot | src/main/kotlin/us/sodiumlabs/electorate/ranked/RankedPairs.kt:21-28 | the two nested loops give exactly the specified tally of one ballot |
| RankedPairs.TallyBallots | src/main/kotlin/us/sodiumlabs/electorate/ranked/RankedPairs.kt:17-29 | the tally loop gives exactly the specified table |
| RankedPairs.LockAll | src/main/kotlin/us/sodiumlabs/electorate/ranked/RankedPairs.kt:31-38 | locking every cell into a fresh graph gives exactly the specified locked graph, which stays valid |
| RankedPairs.ElectCandidate | src/main/kotlin/us/sodiumlabs/electorate/ranked/RankedPairs.kt:15-41 | returns exactly the specified winner |
| RankedPairs.CellsHaveNoLoops | src/main/kotlin/us/sodiumlabs/electorate/ranked/RankedPairs.kt:20-36 | no cell of the tally of ballots without repeats pairs a candidate with itself |
| RankedPairs.UnanimousPreferring | src/main/kotlin/us/sodiumlabs/electorate/ranked/RankedPairs.kt:17-29 | where every ballot is the same ranking, a pair's tally is the number of ballots when the ranking puts the row before the column, and 0 otherwise |
| RankedPairs.AboveIsEarlier | src/main/kotlin/us/sodiumlabs/electorate/ranked/RankedPairs.kt:21-24 | on a ranking without repeats, ranking one candidate before another puts it at an earlier place |
| RankedPairs.NoPathBack | src/main/kotlin/us/sodiumlabs/electorate/ranked/RankedPairs.kt:80-103 | in a graph whose vertices all lead to candidates a ranking places later, no path leads from a later candidate back to an earlier one |
| RankedPairs.ForwardAdd | src/main/kotlin/us/sodiumlabs/electorate/ranked/RankedPairs.kt:48-87 | `add` of a pair that the ranking places in order always locks the vertex, appended after the existing ones, and keeps every vertex leading to a later candidate |
| RankedPairs.UnanimousLocksAll | src/main/kotlin/us/sodiumlabs/electorate/ranked/RankedPairs.kt:31-38 | where one ranking places every cell's row before its column, locking the whole order keeps every cell as a vertex between its candidates' nodes |
| RankedPairs.EnteredUnlessFirstPlace | src/main/kotlin/us/sodiumlabs/electorate/ranked/RankedPairs.kt:67-91 | where the first choice is paired with every other candidate and every cell is locked, a vertex enters the node of every candidate but the first choice |
| RankedPairs.FirstPlaceHeads | src/main/kotlin/us/sodiumlabs/electorate/ranked/RankedPairs.kt:31-40 | where every cell follows one ranking and the first choice is paired with every other candidate, the first choice heads the locked graph (also lines 89-91) |
| RankedPairs.UnanimousFirstChoiceWins | src/main/kotlin/us/sodiumlabs/electorate/ranked/RankedPairs.kt:15-41 | ballots that all give the same ranking of at least two candidates elect its first choice (`produceCandidate_happy`, `_single` and `_many` in src/test/kotlin/us/sodiumlabs/electorate/ranked/RankedPairsTest.kt) |
| RankedPairs.Preferring | src/main/kotlin/us/sodiumlabs/electorate/ranked/RankedPairs.kt:17-29 | the number of ballots ranking one candidate strictly before another, the reference the tally is proved against in `RankedPairs.TallyCountsPreferences` |
| RankedPairs.Order | src/main/kotlin/us/sodiumlabs/electorate/ranked/RankedPairs.kt:16-36 | the locking order of the polled ballots; its properties are `RankedPairs.OrderIsTheTally` and `RankedPairs.OrderHasNoLoops` |
| RankedPairs.Elect | src/main/kotlin/us/sodiumlabs/electorate/ranked/RankedPairs.kt:15-41 | the head of the graph that locks the order; its properties are `RankedPairs.WinnerIsUnbeaten` and `RankedPairs.ElectFailsOnlyWithoutPairs` |
| RankedPairsCycle.Copies | src/test/kotlin/us/sodiumlabs/electorate/ranked/RankedPairsTest.kt:106-112 | `createBallots` gives count copies of one ranking |
| RankedPairsCycle.PreferringAppend | src/main/kotlin/us/sodiumlabs/electorate/ranked/RankedPairs.kt:17-29 | the tally of a pair over two runs of ballots is the sum of the two tallies |
| RankedPairsCycle.AboveOfThree | src/main/kotlin/us/sodiumlabs/electorate/ranked/RankedPairs.kt:21-24 | a ranking of three different candidates ranks exactly its three pairs in order |
| RankedPairsCycle.CycleTally | src/test/kotlin/us/sodiumlabs/electorate/ranked/RankedPairsTest.kt:54-69 | the 4/3/3 cycle tallies a over b and b over c at 7, c over a at 6, a over c at 4, b over a and c over b at 3, and every other pair at 0 |
| RankedPairsCycle.CycleCells | src/main/kotlin/us/sodiumlabs/electorate/ranked/RankedPairs.kt:17-34 | the cells of the cycle are pairs over its three candidates, at most 7 strong, and only a over b and b over c reach 7 |
| RankedPairsCycle.LocksPersist | src/main/kotlin/us/sodiumlabs/electorate/ranked/RankedPairs.kt:31-38 | a cell locked after some prefix of the order stays locked once the rest of the order is added |
| RankedPairsCycle.StrongestLock | src/main/kotlin/us/sodiumlabs/electorate/ranked/RankedPairs.kt:31-38 | where the order opens with two cells only, both in the order of one ranking, both end up locked whatever follows |
| RankedPairsCycle.CycleOrder | src/main/kotlin/us/sodiumlabs/electorate/ranked/RankedPairs.kt:31-36 | the cycle's locking order has no loops, pairs only its three candidates, and opens with a over b and b over c, in whichever order the sort leaves them |
| RankedPairsCycle.CycleLocks | src/main/kotlin/us/sodiumlabs/electorate/ranked/RankedPairs.kt:31-38 | an order opening with a over b and b over c locks both |
| RankedPairsCycle.HeadIsUnentered | src/main/kotlin/us/sodiumlabs/electorate/ranked/RankedPairs.kt:67-91 | where a over b and b over c are locked and every node is a, b or c, a heads the graph |
| RankedPairsCycle.HeadOfOrder | src/main/kotlin/us/sodiumlabs/electorate/ranked/RankedPairs.kt:31-40 | locking an order over a, b and c only that locks a over b and b over c makes a the head |
| RankedPairsCycle.CycleElectsFirst | src/test/kotlin/us/sodiumlabs/electorate/ranked/RankedPairsTest.kt:54-69 | the 4/3/3 cycle elects a, with any candidate list that holds a, b and c (`produceCandidate_cycle`) |
| RankedPairGraphs.ReachMore | src/main/kotlin/us/sodiumlabs/electorate/ranked/RankedPairs.kt:93-103 | a path of at most k vertices is one of at most any larger bound |
| RankedPairGraphs.ReachAppend | src/main/kotlin/us/sodiumlabs/electorate/ranked/RankedPairs.kt:93-97 | a path followed by one more vertex is a path |
| RankedPairGraphs.ReachLast | src/main/kotlin/us/sodiumlabs/electorate/ranked/RankedPairs.kt:99-103 | every path ends with a vertex into its last node, after a shorter path or at its start |
| RankedPairGraphs.ReachTrans | src/main/kotlin/us/sodiumlabs/electorate/ranked/RankedPairs.kt:93-103 | paths compose |
| RankedPairGraphs.ReachGrows | src/main/kotlin/us/sodiumlabs/electorate/ranked/RankedPairs.kt:64 | paths survive the locking of more vertices |
| RankedPairGraphs.ReachInRange | src/main/kotlin/us/sodiumlabs/electorate/ranked/RankedPairs.kt:93-103 | paths only visit existing nodes |
| RankedPairGraphs.AncestorsShrink | src/main/kotlin/us/sodiumlabs/electorate/ranked/RankedPairs.kt:99-103 | walking a vertex backwards leaves strictly fewer ancestors, so the upstream walk ends |
| RankedPairGraphs.DescendantsShrink | src/main/kotlin/us/sodiumlabs/electorate/ranked/RankedPairs.kt:93-97 | walking a vertex forwards leaves strictly fewer descendants, so the downstream walk ends |
| RankedPairGraphs.UpstreamIsReach | src/main/kotlin/us/sodiumlabs/electorate/ranked/RankedPairs.kt:99-103 | `upstreamContains(x)` on node n holds exactly when a path leads from x to n |
| RankedPairGraphs.DownstreamIsReach | src/main/kotlin/us/sodiumlabs/electorate/ranked/RankedPairs.kt:93-97 | `downstreamContains(x)` on node n holds exactly when a path leads from n to x |
| RankedPairGraphs.DownstreamReaches | src/main/kotlin/us/sodiumlabs/electorate/ranked/RankedPairs.kt:93-97 | what the downstream walk finds is reachable |
| RankedPairGraphs.ReachIsDownstream | src/main/kotlin/us/sodiumlabs/electorate/ranked/RankedPairs.kt:93-97 | what is reachable the downstream walk finds |
| RankedPairGraphs.NewReach | src/main/kotlin/us/sodiumlabs/electorate/ranked/RankedPairs.kt:81-83 | after locking a to b, a new path passes the new vertex: it reaches a before it and leaves b after it |
| RankedPairGraphs.LockKeepsAcyclic | src/main/kotlin/us/sodiumlabs/electorate/ranked/RankedPairs.kt:81-83 | locking a to b where b does not reach a keeps the graph acyclic |
| RankedPairGraphs.FirstIncoming | src/main/kotlin/us/sodiumlabs/electorate/ranked/RankedPairs.kt:90 | the first vertex in the list that enters the node, None exactly when none enters it |
| RankedPairGraphs.FindHead | src/main/kotlin/us/sodiumlabs/electorate/ranked/RankedPairs.kt:89-91 | the head walk ends at an existing node |
| RankedPairGraphs.FindHeadIsSource | src/main/kotlin/us/sodiumlabs/electorate/ranked/RankedPairs.kt:89-91 | the head walk ends at a node no vertex enters, which is the start or reaches it |
| RankedPairGraphs.FindNode | src/main/kotlin/us/sodiumlabs/electorate/ranked/RankedPairs.kt:69-74 | the first node holding the candidate, None exactly when no node holds it |
| RankedPairGraphs.Extend | src/main/kotlin/us/sodiumlabs/electorate/ranked/RankedPairs.kt:53-62 | find-or-create keeps the old nodes as a prefix, adds at most the one candidate, and keeps nodes distinct |
| RankedPairGraphs.Index | src/main/kotlin/us/sodiumlabs/electorate/ranked/RankedPairs.kt:69-74 | the node found holds the candidate |
| RankedPairGraphs.ExtendKeepsWellFormed | src/main/kotlin/us/sodiumlabs/electorate/ranked/RankedPairs.kt:53-62 | creating a node keeps the graph well formed |
| RankedPairGraphs.IndexOfDistinct | src/main/kotlin/us/sodiumlabs/electorate/ranked/RankedPairs.kt:69-74 | with distinct nodes, a node holding the candidate is the one found |
| RankedPairGraphs.AddPair | src/main/kotlin/us/sodiumlabs/electorate/ranked/RankedPairs.kt:48-65 | `add` keeps the graph well formed and makes the node set the old one plus both candidates |
| RankedPairGraphs.AddLocksUnlessCycle | src/main/kotlin/us/sodiumlabs/electorate/ranked/RankedPairs.kt:48-87 | `add` keeps the existing nodes in order, holds both candidates and locks the vertex from a's node to b's node exactly when b's node does not already reach a's node |
| RankedPairGraphs.SecondCheckPasses | src/main/kotlin/us/sodiumlabs/electorate/ranked/RankedPairs.kt:83-85 | when the vertex is locked, b's node finds no downstream path back to a's node and so records the vertex too |
| RankedPairGraphs.ClosingVertex | src/main/kotlin/us/sodiumlabs/electorate/ranked/RankedPairs.kt:81-85 | a path from x to y and a vertex from y back to x make a cycle |
| RankedPairGraphs.OppositeIsRejected | src/main/kotlin/us/sodiumlabs/electorate/ranked/RankedPairs.kt:48-87 | once a's node reaches b's node, adding the pair the other way round changes nothing, and every later `add` keeps the path |
| RankedPairGraphs.HeadCandidateIsSource | src/main/kotlin/us/sodiumlabs/electorate/ranked/RankedPairs.kt:67-91 | the head candidate exists exactly when there is a node; its node no vertex enters and it is the first node or reaches it |
| RankedPairGraphs.RankedPairGraph.constructor | src/main/kotlin/us/sodiumlabs/electorate/ranked/RankedPairs.kt:45-46 | a new graph has no nodes and no vertices and is valid |
| RankedPairGraphs.RankedPairGraph.AddVertex | src/main/kotlin/us/sodiumlabs/electorate/ranked/RankedPairs.kt:80-87 | keeps the nodes and locks the vertex exactly when the upstream walk from a's node does not find b's node, keeping the graph valid |
| RankedPairGraphs.RankedPairGraph.Add | src/main/kotlin/us/sodiumlabs/electorate/ranked/RankedPairs.kt:48-65 | the new graph is exactly `AddPair` of the old one, and valid |
| RankedPairGraphs.RankedPairGraph.FindHeadCandidate | src/main/kotlin/us/sodiumlabs/electorate/ranked/RankedPairs.kt:67 | returns exactly the head candidate of the current graph |
| RankedPairGraphs.Acyclic | src/main/kotlin/us/sodiumlabs/electorate/ranked/RankedPairs.kt:80-87 | no path leads from a node back to itself, the invariant `add` keeps (`RankedPairGraphs.LockKeepsAcyclic`) |
| RankedPairGraphs.Downstream | src/main/kotlin/us/sodiumlabs/electorate/ranked/RankedPairs.kt:93-97 | `downstreamContains`; its property is `RankedPairGraphs.DownstreamIsReach` |
| RankedPairGraphs.Upstream | src/main/kotlin/us/sodiumlabs/electorate/ranked/RankedPairs.kt:99-103 | `upstreamContains`; its property is `RankedPairGraphs.UpstreamIsReach` |
| RankedPairGraphs.HeadCandidate | src/main/kotlin/us/sodiumlabs/electorate/ranked/RankedPairs.kt:67-91 | `findHeadCandidate`; its property is `RankedPairGraphs.HeadCandidateIsSource` |
| RegretDecimals.Compare | src/main/kotlin/us/sodiumlabs/electorate/sim/RegretBigDecimalWrapper.kt:32-72 | the double dispatch answers -1, 0 or 1: present values compare by value, an indeterminate is above a present value exactly when `nanHigh`, and two indeterminates are equal |
| RegretDecimals.AgreesWithBigDecimalWrapper | src/main/kotlin/us/sodiumlabs/electorate/sim/RegretBigDecimalWrapper.kt:22-72 | the regret wrapper's `compare` orders every pair of values exactly as the earlier `BigDecimalWrapper.compare` does |
| RegretDecimals.CompareAntisymmetric | src/main/kotlin/us/sodiumlabs/electorate/sim/RegretBigDecimalWrapper.kt:32-72 | swapping the operands negates the comparison |
| RegretDecimals.Equals | src/main/kotlin/us/sodiumlabs/electorate/sim/RegretBigDecimalWrapper.kt:48-80 | two wrappers are equal exactly when they compare as 0 under both settings of `nanHigh` |
| RegretDecimals.HashCode | src/main/kotlin/us/sodiumlabs/electorate/sim/RegretBigDecimalWrapper.kt:52-82 | an indeterminate hashes to 0, and equal wrappers hash alike |
| RegretDecimals.CompareTransitive | src/main/kotlin/us/sodiumlabs/electorate/sim/RegretBigDecimalWrapper.kt:32-72 | `compare` is transitive, so it is a valid sort order |
| RegretDecimals.Insert | src/test/kotlin/us/sodiumlabs/electorate/sim/RegretBigDecimalWrapperTest.kt:62-70 | inserting into a sorted list keeps it sorted and adds exactly the element |
| RegretDecimals.InsertBeforeAll | src/test/kotlin/us/sodiumlabs/electorate/sim/RegretBigDecimalWrapperTest.kt:62-70 | an element below the head goes first and the list stays sorted |
| RegretDecimals.InsertAfterHead | src/test/kotlin/us/sodiumlabs/electorate/sim/RegretBigDecimalWrapperTest.kt:62-70 | an element not below the head goes after it and the list stays sorted |
| RegretDecimals.SortWith | src/test/kotlin/us/sodiumlabs/electorate/sim/RegretBigDecimalWrapperTest.kt:62-70 | `sortWith` with `compare` gives a sorted permutation of its input |
| RegretDecimals.CompareZeroIsEquality | src/main/kotlin/us/sodiumlabs/electorate/sim/RegretBigDecimalWrapper.kt:36-72 | two values that compare both ways as not greater are equal |
| RegretDecimals.HeadIsLeast | src/test/kotlin/us/sodiumlabs/electorate/sim/RegretBigDecimalWrapperTest.kt:62-70 | the head of a sorted list is not above any of its elements |
| RegretDecimals.SortedIsUnique | src/test/kotlin/us/sodiumlabs/electorate/sim/RegretBigDecimalWrapperTest.kt:60-72 | two sorted arrangements of the same values are identical |
| RegretDecimals.SameHead | src/test/kotlin/us/sodiumlabs/electorate/sim/RegretBigDecimalWrapperTest.kt:60-72 | two sorted arrangements of the same values start with the same element |
| RegretDecimals.TailIsSorted | src/test/kotlin/us/sodiumlabs/electorate/sim/RegretBigDecimalWrapperTest.kt:60-72 | the tail of a sorted list is sorted |
| RegretDecimals.AdjacentInOrder | src/test/kotlin/us/sodiumlabs/electorate/sim/RegretBigDecimalWrapperTest.kt:42-55 | a list whose neighbours are in order is sorted |
| RegretDecimals.TestOrdersAreSorted | src/test/kotlin/us/sodiumlabs/electorate/sim/RegretBigDecimalWrapperTest.kt:42-55 | the expected orders are sorted under their own `nanHigh` |
| RegretDecimals.TestOrdersArePermutations | src/test/kotlin/us/sodiumlabs/electorate/sim/RegretBigDecimalWrapperTest.kt:34-55 | the expected orders hold exactly the test values |
| RegretDecimals.SortingPermutationsOfTestValues | src/test/kotlin/us/sodiumlabs/electorate/sim/RegretBigDecimalWrapperTest.kt:32-73 | every permutation of {0, 1, 10, nan, nan} sorts to 0, 1, 10, nan, nan when `nanHigh` and to nan, nan, 0, 1, 10 otherwise |
| RegretStatistics.SortedMetrics | src/main/kotlin/us/sodiumlabs/electorate/sim/RegretMetrics.kt:50 | the sorted list has as many metrics as the collection |
| RegretStatistics.SortedMetricsAreSorted | src/main/kotlin/us/sodiumlabs/electorate/sim/RegretMetrics.kt:50 | `sortedBy` gives the same metrics, ascending by the field |
| RegretStatistics.StatisticsFailsBelowTen | src/main/kotlin/us/sodiumlabs/electorate/sim/RegretMetrics.kt:49-61 | the `Statistics` constructor throws exactly for fewer than ten metrics, where the p90 index `size - size/10` is past the end |
| RegretStatistics.PercentilesAreOrdered | src/main/kotlin/us/sodiumlabs/electorate/sim/RegretMetrics.kt:49-61 | p0 <= p10 <= p50 <= p90 <= p100 are values of the field, p0 and p100 bound every value, and the mean is the average of the field |
| RegretStatistics.SortedValuesAreTheValues | src/main/kotlin/us/sodiumlabs/electorate/sim/RegretMetrics.kt:50-56 | every sorted position holds a value of the field, and the first and last positions bound every value |
| RegretStatistics.RegretStatisticsFailsBelowTen | src/main/kotlin/us/sodiumlabs/electorate/sim/RegretMetrics.kt:23-28 | the three statistics exist exactly for ten metrics or more, keep the name, and each bounds its own field of every metric |
| RegretStatistics.StatisticsOf | src/main/kotlin/us/sodiumlabs/electorate/sim/RegretMetrics.kt:49-61 | the `Statistics` constructor, None where an index is out of range; its properties are `RegretStatistics.StatisticsFailsBelowTen` and `RegretStatistics.PercentilesAreOrdered` |
| RegretStatistics.RegretStatisticsOf | src/main/kotlin/us/sodiumlabs/electorate/sim/RegretMetrics.kt:23-28 | the three statistics of the `RegretStatistics` constructor; its property is `RegretStatistics.RegretStatisticsFailsBelowTen` |

## Left out

- Main.kt, Sortition.kt and RankedApproval.kt are not part of this model:
  - Main.kt is wiring;
  - Sortition.kt is a single library random pick;
  - RankedApproval.kt is unfinished and calls functions that do not exist.
- The `ElectionSim` class (printing, the JSON output file, the regret matrix) and every
  `toString`, `toJson` and `padBigDecimal` are output formatting and I/O.
- `java.util.Random`, `generateRandomBigDecimal` and the seeding in `generateElectorate` are left out. Each draw is a parameter of the model:
  - the two indices of the two-party systems;
  - a threshold per voter for random approval.
- Exact `BigDecimal` arithmetic is replaced by `real`:
  - `sqrt` under `MathContext(PRECISION, FLOOR)` is a floor root at 10 fractional digits, not at `PRECISION` significant digits;
  - division is exact;
  - scale-sensitive `BigDecimal.equals` is value equality.
- `BigDecimalAverageCollector` is not part of this model:
  - `RegretStatistics` and `Electorates.CalculateRegret` take it as a parameter `average`;
  - the mean approval threshold is the exact mean of the utilities.
- Hash iteration order (`HashMultiset`, `HashMap`) is replaced by ascending candidate id. The pair table's iteration order, which for a `HashBasedTable` follows insertion into its linked hash maps, is replaced by row then column over the candidate list; this affects only the order of pairs with equal weight. Contracts about ties promise only "some candidate with a maximal count".
- `Candidate.equals` only checks that one candidate's entries appear in the other, and `Stance` compares by reference. The tallies use candidate ids with their own equality instead.
- The two `participationIssue` scenarios of RankedPairsTest (4/8/7/7 and 8/7/7 ballots over four candidates) are not restated as concrete lemmas. The unanimous scenarios are `RankedPairs.UnanimousFirstChoiceWins` and the cycle is `RankedPairsCycle.CycleElectsFirst`. For any ballots the general properties are `RankedPairs.WinnerIsUnbeaten` and `RankedPairs.OrderIsTheTally`.
- Tallies read a table of present utilities. The source compares or multiplies a wrapper as if it were a number in the plurality, range and approval strategies, which does not compile; in the model those tallies read only present utilities. The contention totals of elected two-party plurality are the exception, below. `Electorates.Utility` states when a utility is present.
- ElectedTwoPartyPlurality: the source also applies `-`, `.abs()`, `+` and `>` to `Stance.value`, a wrapper, in the contention loop, the policy election and the primary side (ElectedTwoPartyPlurality.kt lines 33, 38, 47 and 114), which does not compile as written. The model reads these through the wrapper's own operations: `Diff` and `Added` use `operate`, so a missing stance makes that policy's total indeterminate; `MostContentious`, `ElectPolicy`, `ForParty` and `PrimaryAccept` use `compare` with the default `nanHigh`, so an indeterminate total ranks above every present one and that policy is elected, and an indeterminate stance counts as for the party (`ElectedTwoPartyPlurality.MissingStanceMakesContentionIndeterminate` states the first step).
- The two API generations (`produceCandidate` returning `Candidate`, `electCandidate` returning `Optional`) are both modelled as `Option`.
- Per-node vertex lists of the lock graph are one list of locked vertices in locking order; a node's list is its sub-list. `RankedPairGraphs.SecondCheckPasses` shows that both nodes record every locked vertex.
- Electorates.Utility: requires the voter to hold at least one stance. With none, the source divides by a zero `policyScale` and throws.
- RankedPairs.Elect: requires distinct candidate ids. With a repeated candidate the tally holds a cell pairing that candidate with itself. The source locks it as a self-loop, and its upstream and head walks over that loop can recurse without end.
- RankedPairs.ElectCandidate: requires distinct candidate ids, as `RankedPairs.Elect` does.
- RankedPairGraphs.RankedPairGraph.Add: requires two different candidates, which every cell of the order satisfies (`RankedPairs.OrderHasNoLoops`).

## Findings

| source | as written | input that shows it | evidently intended | confidence | as-written member | corrected member |
|---|---|---|---|---|---|---|
| src/main/kotlin/us/sodiumlabs/electorate/range/RangeVoting.kt:34,44 | the mark is `(utility * (MAX_VOTE + 1)).toInt()`, so a utility of exactly 1 gives 6, and the `RangeBallot` check `count <= MAX_VOTE` throws | a voter whose utility for a listed candidate is 1, which always holds for the candidate generated from that voter's own stances (`Electorates.OwnCandidateHasUtilityOne`) | marks run from 0 to `MAX_VOTE`, with a utility of 1 getting the top mark 5 | high, not executed | RangeVoting.BallotAsWrittenFailsOnFullUtility | RangeVoting.BallotAlwaysValid |
