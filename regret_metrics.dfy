/** sim/RegretMetrics.kt: summary statistics of the regret metrics of many elections.
    A `Statistics` sorts the metrics by one field and reads the field at five percentile
    positions; the mean comes from `BigDecimalAverageCollector`, which is not part of
    this model and is passed in as `average`. */
module RegretStatistics {
  import opened Wrappers
  import Sorting
  import U = Utils

  /** `RegretMetrics` as this file declares it: three plain decimals. */
  datatype RegretMetrics = RegretMetrics(rawUtility: real, regret: real, normalizedRegret: real)

  datatype Statistics = Statistics(p0: real, p10: real, p50: real, p90: real, p100: real, mean: real)

  /** `metricAccessor.apply` over the collection, in collection order. */
  function Project(metrics: seq<RegretMetrics>, accessor: RegretMetrics -> real): (r: seq<real>)
    ensures |r| == |metrics| && forall i :: 0 <= i < |metrics| ==> r[i] == accessor(metrics[i])
  {
    seq(|metrics|, i requires 0 <= i < |metrics| => accessor(metrics[i]))
  }

  /** `sortedBy { r -> metricAccessor.apply(r) }`: a stable ascending sort by the field. */
  function SortedMetrics(metrics: seq<RegretMetrics>, accessor: RegretMetrics -> real): (r: seq<RegretMetrics>)
    ensures |r| == |metrics|
  {
    Sorting.Read(metrics, Sorting.Ascending(Project(metrics, accessor)))
  }

  /** The sorted metrics are the same metrics, ascending by the field. */
  lemma SortedMetricsAreSorted(metrics: seq<RegretMetrics>, accessor: RegretMetrics -> real)
    ensures multiset(SortedMetrics(metrics, accessor)) == multiset(metrics)
    ensures forall k, l :: 0 <= k < l < |metrics| ==>
      accessor(SortedMetrics(metrics, accessor)[k]) <= accessor(SortedMetrics(metrics, accessor)[l])
  {
    var p := Sorting.Ascending(Project(metrics, accessor));
    Sorting.PermutedReadIsPermutation(metrics, p);
    forall k, l | 0 <= k < l < |metrics|
      ensures accessor(SortedMetrics(metrics, accessor)[k]) <= accessor(SortedMetrics(metrics, accessor)[l])
    {
      assert Project(metrics, accessor)[p[k]] <= Project(metrics, accessor)[p[l]];
    }
  }

  /** The `Statistics` constructor; None where an index is out of range: the first on an
      empty collection, `size - size / 10` on fewer than ten metrics. */
  function StatisticsOf(metrics: seq<RegretMetrics>, accessor: RegretMetrics -> real, average: seq<real> -> real)
    : Option<Statistics>
  {
    var sorted := SortedMetrics(metrics, accessor);
    var n := |sorted|;
    if n == 0 then None
    else if n - n / 10 >= n then None
    else
      Some(Statistics(
        accessor(sorted[0]),
        accessor(sorted[n / 10]),
        accessor(sorted[n / 2]),
        accessor(sorted[n - n / 10]),
        accessor(sorted[n - 1]),
        average(Project(metrics, accessor))))
  }

  /** The statistics exist exactly for ten metrics or more. */
  lemma StatisticsFailsBelowTen(metrics: seq<RegretMetrics>, accessor: RegretMetrics -> real, average: seq<real> -> real)
    ensures StatisticsOf(metrics, accessor, average).None? <==> |metrics| < 10
  {
  }

  /** The five percentiles are values of the field, in ascending order: p0 is the least
      value and p100 the greatest. */
  lemma PercentilesAreOrdered(metrics: seq<RegretMetrics>, accessor: RegretMetrics -> real, average: seq<real> -> real)
    requires StatisticsOf(metrics, accessor, average).Some?
    ensures var st := StatisticsOf(metrics, accessor, average).value;
      var values := Project(metrics, accessor);
      && st.p0 <= st.p10 <= st.p50 <= st.p90 <= st.p100
      && st.p0 in values && st.p10 in values && st.p50 in values && st.p90 in values && st.p100 in values
      && (forall i :: 0 <= i < |metrics| ==> st.p0 <= accessor(metrics[i]) <= st.p100)
      && st.mean == average(values)
  {
    var sorted := SortedMetrics(metrics, accessor);
    var n := |metrics|;
    SortedMetricsAreSorted(metrics, accessor);
    SortedValuesAreTheValues(metrics, accessor);
    assert n / 10 <= n / 2 <= n - n / 10 < n;
    assert accessor(sorted[0]) <= accessor(sorted[n / 10]);
    assert accessor(sorted[n / 10]) <= accessor(sorted[n / 2]);
    assert accessor(sorted[n / 2]) <= accessor(sorted[n - n / 10]);
    assert accessor(sorted[n - n / 10]) <= accessor(sorted[n - 1]);
  }

  /** Every sorted position holds a value of the field, and the first and the last
      positions bound every value. */
  lemma SortedValuesAreTheValues(metrics: seq<RegretMetrics>, accessor: RegretMetrics -> real)
    requires |metrics| > 0
    ensures var sorted := SortedMetrics(metrics, accessor);
      && (forall k :: 0 <= k < |metrics| ==> accessor(sorted[k]) in Project(metrics, accessor))
      && (forall i :: 0 <= i < |metrics| ==>
        accessor(sorted[0]) <= Project(metrics, accessor)[i] <= accessor(sorted[|metrics| - 1]))
  {
    var sorted := SortedMetrics(metrics, accessor);
    var values := Project(metrics, accessor);
    var n := |metrics|;
    SortedMetricsAreSorted(metrics, accessor);
    forall k | 0 <= k < n ensures accessor(sorted[k]) in values {
      assert sorted[k] in multiset(metrics);
      var i :| 0 <= i < n && metrics[i] == sorted[k];
      assert values[i] == accessor(sorted[k]);
    }
    forall i | 0 <= i < n ensures accessor(sorted[0]) <= values[i] <= accessor(sorted[n - 1]) {
      assert metrics[i] in multiset(sorted);
      var k :| 0 <= k < n && sorted[k] == metrics[i];
    }
  }

  /** `RegretStatistics`: the name and the statistics of the three fields. */
  datatype RegretStatistics = RegretStatistics(
    name: U.StringWrapper,
    rawUtilityStatistics: Statistics,
    regretStatistics: Statistics,
    normalizedRegretStatistics: Statistics)

  function RawUtility(r: RegretMetrics): real { r.rawUtility }
  function Regret(r: RegretMetrics): real { r.regret }
  function NormalizedRegret(r: RegretMetrics): real { r.normalizedRegret }

  /** The `RegretStatistics` constructor; None where one of its `Statistics` throws. */
  function RegretStatisticsOf(name: U.StringWrapper, metrics: seq<RegretMetrics>, average: seq<real> -> real)
    : Option<RegretStatistics>
  {
    var raw := StatisticsOf(metrics, RawUtility, average);
    var regret := StatisticsOf(metrics, Regret, average);
    var normalized := StatisticsOf(metrics, NormalizedRegret, average);
    if raw.None? || regret.None? || normalized.None? then None
    else Some(RegretStatistics(name, raw.value, regret.value, normalized.value))
  }

  /** The three statistics come from the same collection, so they all exist, exactly for
      ten metrics or more, and each summarises its own field. */
  lemma RegretStatisticsFailsBelowTen(name: U.StringWrapper, metrics: seq<RegretMetrics>, average: seq<real> -> real)
    ensures RegretStatisticsOf(name, metrics, average).None? <==> |metrics| < 10
    ensures RegretStatisticsOf(name, metrics, average).Some? ==>
      var st := RegretStatisticsOf(name, metrics, average).value;
      && st.name == name
      && (forall i :: 0 <= i < |metrics| ==>
        && st.rawUtilityStatistics.p0 <= metrics[i].rawUtility <= st.rawUtilityStatistics.p100
        && st.regretStatistics.p0 <= metrics[i].regret <= st.regretStatistics.p100
        && st.normalizedRegretStatistics.p0 <= metrics[i].normalizedRegret <= st.normalizedRegretStatistics.p100)
  {
    StatisticsFailsBelowTen(metrics, RawUtility, average);
    StatisticsFailsBelowTen(metrics, Regret, average);
    StatisticsFailsBelowTen(metrics, NormalizedRegret, average);
    if |metrics| >= 10 {
      var st := RegretStatisticsOf(name, metrics, average).value;
      PercentilesAreOrdered(metrics, RawUtility, average);
      PercentilesAreOrdered(metrics, Regret, average);
      PercentilesAreOrdered(metrics, NormalizedRegret, average);
      forall i | 0 <= i < |metrics|
        ensures st.rawUtilityStatistics.p0 <= metrics[i].rawUtility <= st.rawUtilityStatistics.p100
        ensures st.regretStatistics.p0 <= metrics[i].regret <= st.regretStatistics.p100
        ensures st.normalizedRegretStatistics.p0 <= metrics[i].normalizedRegret
          <= st.normalizedRegretStatistics.p100
      {
        assert RawUtility(metrics[i]) == metrics[i].rawUtility;
        assert Regret(metrics[i]) == metrics[i].regret;
        assert NormalizedRegret(metrics[i]) == metrics[i].normalizedRegret;
      }
    }
  }
}
