/**
 * What `CityAnalyzer.analyze_city_closure` computes from the city table:
 * every metric min-max normalised across the cities, a weighted sum per
 * city, and the first city with the highest sum.
 */
module ClosureScoring {
  import opened FieldCleaning
  import opened CityAggregation

  /** The metrics that are weighted, in the order of the `weights` dict. */
  datatype Metric = TotalClaims | ClaimRatio | RejectionRate | TotalPremium

  const Metrics: seq<Metric> := [TotalClaims, ClaimRatio, RejectionRate, TotalPremium]

  /** The weight of each metric: more claims and more premium argue against closing. */
  function Weight(k: Metric): real
  {
    match k
    case TotalClaims => -0.2
    case ClaimRatio => 0.3
    case RejectionRate => 0.2
    case TotalPremium => -0.3
  }

  function MetricOf(m: CityMetrics, k: Metric): real
  {
    match k
    case TotalClaims => m.totalClaims as real
    case ClaimRatio => m.claimRatio
    case RejectionRate => m.rejectionRate
    case TotalPremium => m.totalPremium
  }

  /** `[m[metric] for m in metrics.values()]`. */
  function Values(table: CityTable, k: Metric): (vs: seq<real>)
    requires WellFormedTable(table)
    ensures |vs| == |table.order|
  {
    seq(|table.order|, i requires 0 <= i < |table.order| => MetricOf(table.metrics[table.order[i]], k))
  }

  /** Python `min` of a non-empty list. */
  function Min(s: seq<real>): (lo: real)
    requires s != []
    ensures lo in s && forall i :: 0 <= i < |s| ==> lo <= s[i]
  {
    if |s| == 1 then s[0]
    else
      var rest := Min(s[1..]);
      assert forall i :: 1 <= i < |s| ==> s[i] == s[1..][i - 1];
      if s[0] <= rest then s[0] else rest
  }

  /** Python `max` of a non-empty list. */
  function Max(s: seq<real>): (hi: real)
    requires s != []
    ensures hi in s && forall i :: 0 <= i < |s| ==> s[i] <= hi
  {
    if |s| == 1 then s[0]
    else
      var rest := Max(s[1..]);
      assert forall i :: 1 <= i < |s| ==> s[i] == s[1..][i - 1];
      if s[0] >= rest then s[0] else rest
  }

  /** `max_val - min_val if max_val != min_val else 1`. */
  function Range(lo: real, hi: real): (range: real)
    ensures range != 0.0
  {
    if hi != lo then hi - lo else 1.0
  }

  /** `(v - min_val) / range_val`. */
  function Normalise(v: real, lo: real, hi: real): real
  {
    (v - lo) / Range(lo, hi)
  }

  /** `normalized_value * weights[metric]` for a city with metrics `m`. */
  function Gain(m: CityMetrics, k: Metric, lo: real, hi: real): real
  {
    Normalise(MetricOf(m, k), lo, hi) * Weight(k)
  }

  /** Metric `k` of city `c`, normalised against all cities. */
  function NormalisedMetric(table: CityTable, k: Metric, c: Value): real
    requires WellFormedTable(table) && table.order != [] && c in table.metrics
  {
    var vs := Values(table, k);
    Normalise(MetricOf(table.metrics[c], k), Min(vs), Max(vs))
  }

  /** The score of city `c` after the first `n` metrics. */
  function PartialScore(table: CityTable, c: Value, n: nat): real
    requires WellFormedTable(table) && table.order != [] && c in table.metrics && n <= |Metrics|
  {
    if n == 0 then 0.0
    else PartialScore(table, c, n - 1) + NormalisedMetric(table, Metrics[n - 1], c) * Weight(Metrics[n - 1])
  }

  /** `normalized_scores[c]`: the weighted sum over all four metrics. */
  function Score(table: CityTable, c: Value): real
    requires WellFormedTable(table) && table.order != [] && c in table.metrics
  {
    PartialScore(table, c, |Metrics|)
  }

  /** The `normalized_scores` dict. */
  function Scores(table: CityTable): map<Value, real>
    requires WellFormedTable(table) && table.order != []
  {
    map c | c in table.order :: Score(table, c)
  }

  /**
   * `max(scores.items(), key=...)`, restricted to the first `n` keys: the
   * index of the first key with the greatest score.
   */
  function BestIndex(order: seq<Value>, scores: map<Value, real>, n: nat): (b: nat)
    requires 0 < n <= |order| && forall c :: c in order ==> c in scores
    ensures b < n
    ensures forall j :: 0 <= j < n ==> scores[order[j]] <= scores[order[b]]
    ensures forall j :: 0 <= j < b ==> scores[order[j]] < scores[order[b]]
  {
    if n == 1 then 0
    else
      var b := BestIndex(order, scores, n - 1);
      if scores[order[n - 1]] > scores[order[b]] then n - 1 else b
  }

  /** The figures quoted for the recommended city. */
  datatype Reasoning = Reasoning(financialImpact: real, claimRatio: real, rejectionRate: real, totalClaims: nat)

  /** The dictionary `analyze_city_closure` returns. */
  datatype ClosureReport = ClosureReport(
    recommendedCity: Value,
    cityScores: map<Value, real>,
    metrics: CityTable,
    reasoning: Reasoning)

  /** The report for a non-empty city table. */
  function Report(table: CityTable): ClosureReport
    requires WellFormedTable(table) && table.order != []
  {
    var scores := Scores(table);
    var best := table.order[BestIndex(table.order, scores, |table.order|)];
    var m := table.metrics[best];
    ClosureReport(best, scores, table, Reasoning(m.totalPremium, m.claimRatio, m.rejectionRate, m.totalClaims))
  }

  /** The score after metric `k` is the score before it plus `k`'s weighted normalised value. */
  lemma NormalisedMetricStep(table: CityTable, k: nat, c: Value, lo: real, hi: real)
    requires WellFormedTable(table) && table.order != [] && c in table.metrics && k < |Metrics|
    requires lo == Min(Values(table, Metrics[k])) && hi == Max(Values(table, Metrics[k]))
    ensures PartialScore(table, c, k + 1) == PartialScore(table, c, k) + Gain(table.metrics[c], Metrics[k], lo, hi)
  {
  }

  /** A value between the minimum and the maximum normalises into [0, 1]. */
  lemma NormaliseInUnit(v: real, lo: real, hi: real)
    requires lo <= v <= hi
    ensures 0.0 <= Normalise(v, lo, hi) <= 1.0
  {
    if hi != lo {
      var r := hi - lo;
      assert r > 0.0;
      assert (v - lo) / r * r == v - lo;
    }
  }

  /** Every normalised metric lies in [0, 1]. */
  lemma NormalisedMetricInUnit(table: CityTable, k: Metric, c: Value)
    requires WellFormedTable(table) && table.order != [] && c in table.metrics
    ensures 0.0 <= NormalisedMetric(table, k, c) <= 1.0
  {
    var vs := Values(table, k);
    var i :| 0 <= i < |table.order| && table.order[i] == c;
    assert vs[i] == MetricOf(table.metrics[c], k);
    NormaliseInUnit(vs[i], Min(vs), Max(vs));
  }

  /** A metric that is the same for every city contributes nothing to any score. */
  lemma UniformMetricIsZero(table: CityTable, k: Metric, c: Value)
    requires WellFormedTable(table) && table.order != [] && c in table.metrics
    requires forall d :: d in table.metrics ==> MetricOf(table.metrics[d], k) == MetricOf(table.metrics[c], k)
    ensures NormalisedMetric(table, k, c) == 0.0
  {
    var vs := Values(table, k);
    var v := MetricOf(table.metrics[c], k);
    assert forall i :: 0 <= i < |vs| ==> vs[i] == v;
    assert Min(vs) == v;
  }

  /**
   * Every score lies in [-0.5, 0.5]: the positive weights sum to 0.5, the
   * negative ones to -0.5, and each normalised value is in [0, 1].
   */
  lemma ScoreBounds(table: CityTable, c: Value)
    requires WellFormedTable(table) && table.order != [] && c in table.metrics
    ensures -0.5 <= Score(table, c) <= 0.5
  {
    var a, b, r, p := NormalisedMetric(table, TotalClaims, c), NormalisedMetric(table, ClaimRatio, c),
                      NormalisedMetric(table, RejectionRate, c), NormalisedMetric(table, TotalPremium, c);
    NormalisedMetricInUnit(table, TotalClaims, c);
    NormalisedMetricInUnit(table, ClaimRatio, c);
    NormalisedMetricInUnit(table, RejectionRate, c);
    NormalisedMetricInUnit(table, TotalPremium, c);
    assert Metrics[0] == TotalClaims && Metrics[1] == ClaimRatio;
    assert Metrics[2] == RejectionRate && Metrics[3] == TotalPremium;
    assert |Metrics| == 4;
    assert PartialScore(table, c, 1) == a * -0.2;
    assert PartialScore(table, c, 2) == a * -0.2 + b * 0.3;
    assert PartialScore(table, c, 3) == a * -0.2 + b * 0.3 + r * 0.2;
    assert PartialScore(table, c, 4) == a * -0.2 + b * 0.3 + r * 0.2 + p * -0.3;
    WeightedSumBounds(a, b, r, p);
  }

  lemma WeightedSumBounds(a: real, b: real, r: real, p: real)
    requires 0.0 <= a <= 1.0 && 0.0 <= b <= 1.0 && 0.0 <= r <= 1.0 && 0.0 <= p <= 1.0
    ensures -0.5 <= a * -0.2 + b * 0.3 + r * 0.2 + p * -0.3 <= 0.5
  {
  }

  /**
   * The recommended city has a greatest score, every city listed before it
   * scores strictly less, and the reasoning quotes its own metrics.
   */
  lemma ReportSpec(table: CityTable)
    requires WellFormedTable(table) && table.order != []
    ensures var r := Report(table);
      && r.recommendedCity in table.order
      && (forall c :: c in r.cityScores <==> c in table.order)
      && (forall c :: c in table.order ==> r.cityScores[c] <= r.cityScores[r.recommendedCity])
      && (forall j :: 0 <= j < |table.order| && table.order[j] == r.recommendedCity ==>
            forall i :: 0 <= i < j ==> r.cityScores[table.order[i]] < r.cityScores[r.recommendedCity])
      && r.reasoning.financialImpact == table.metrics[r.recommendedCity].totalPremium
      && r.reasoning.claimRatio == table.metrics[r.recommendedCity].claimRatio
      && r.reasoning.rejectionRate == table.metrics[r.recommendedCity].rejectionRate
      && r.reasoning.totalClaims == table.metrics[r.recommendedCity].totalClaims
  {
    var scores := Scores(table);
    var b := BestIndex(table.order, scores, |table.order|);
    forall c | c in table.order ensures scores[c] <= scores[table.order[b]] {
      var j :| 0 <= j < |table.order| && table.order[j] == c;
    }
  }
}
