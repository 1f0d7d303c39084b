/**
 * `CityAnalyzer`: the per-city metrics of the cleaned claims and the
 * closure recommendation, computed by the loops of the Python class and
 * proved equal to the functions of `CityAggregation` and `ClosureScoring`.
 */
module CityAnalysis {
  import opened Wrappers
  import opened FieldCleaning
  import opened CityAggregation
  import opened ClosureScoring

  class CityAnalyzer {
    /** The cleaned rows, as `get_cleaned_data` hands them over. */
    const data: seq<Record>

    constructor(data: seq<Record>)
      ensures this.data == data
    {
      this.data := data;
    }

    /**
     * `get_city_metrics`: one pass accumulating per-city totals in
     * first-appearance order, then one pass deriving averages and ratios.
     * It raises exactly when `float()` rejects an amount of a counted row.
     */
    method GetCityMetrics() returns (r: Result<CityTable, Error>)
      ensures r.Failure? <==> !AmountsParse(data)
      ensures r.Failure? ==> r.error == UnparsableAmount
      ensures r.Success? ==> AmountsParse(data) && r.value == CityTableOf(data)
    {
      var order: seq<Value> := [];
      var totals: map<Value, Totals> := map[];
      var i := 0;
      while i < |data|
        invariant 0 <= i <= |data|
        invariant AmountsParse(data[..i])
        invariant order == CityOrder(data[..i])
        invariant forall c :: c in totals <==> c in order
        invariant forall c :: c in totals ==> totals[c] == CityTotals(data[..i], c)
      {
        var ok;
        ok, order, totals := Accumulate(order, totals, i);
        if !ok {
          return Failure(UnparsableAmount);
        }
        i := i + 1;
      }
      assert data[..i] == data;
      var metrics := DeriveAll(order, totals);
      return Success(CityTable(order, metrics));
    }

    /**
     * The body of the first loop of `get_city_metrics` for row `i`: a row
     * with a city adds one claim, its two amounts and possibly one
     * rejection to that city, which is appended to the order when new.
     * `ok` is false when `float()` rejects one of the amounts.
     */
    method Accumulate(order: seq<Value>, totals: map<Value, Totals>, i: nat)
      returns (ok: bool, nextOrder: seq<Value>, nextTotals: map<Value, Totals>)
      requires i < |data| && AmountsParse(data[..i]) && order == CityOrder(data[..i])
      requires forall c :: c in totals <==> c in order
      requires forall c :: c in totals ==> totals[c] == CityTotals(data[..i], c)
      ensures ok <==> RowParses(data[i])
      ensures ok ==> AmountsParse(data[..i + 1]) && nextOrder == CityOrder(data[..i + 1])
      ensures ok ==> forall c :: c in nextTotals <==> c in nextOrder
      ensures ok ==> forall c :: c in nextTotals ==> nextTotals[c] == CityTotals(data[..i + 1], c)
    {
      var row := data[i];
      RowsSnoc(data, i);
      nextOrder, nextTotals := order, totals;
      var city := CityOf(row);
      if city.Some? {
        var claimAmount := AmountOf(row, ClaimAmountField);
        var premium := AmountOf(row, PremiumField);
        if claimAmount.None? || premium.None? {
          return false, order, totals;
        }
        var c := city.value;
        var t := NoTotals;
        if c in totals {
          t := totals[c];
        } else {
          AbsentCityTotals(data[..i], c);
          nextOrder := order + [c];
        }
        var rejected := if IsRejected(row) then 1 else 0;
        nextTotals := totals[c := Totals(t.claims + 1, t.claimAmount + claimAmount.value, t.premium + premium.value, t.rejections + rejected)];
      }
      forall c | c in nextTotals ensures nextTotals[c] == CityTotals(data[..i + 1], c) {
        TotalsSnoc(data, i, c);
      }
      return true, nextOrder, nextTotals;
    }

    /** The second loop of `get_city_metrics`: the derived figures of every city. */
    method DeriveAll(order: seq<Value>, totals: map<Value, Totals>) returns (metrics: map<Value, CityMetrics>)
      requires AmountsParse(data) && order == CityOrder(data)
      requires forall c :: c in totals <==> c in order
      requires forall c :: c in totals ==> totals[c] == CityTotals(data, c)
      ensures metrics == CityTableOf(data).metrics
    {
      metrics := map[];
      var j := 0;
      while j < |order|
        invariant 0 <= j <= |order|
        invariant forall c :: c in metrics <==> c in order[..j]
        invariant forall c :: c in metrics ==> metrics[c] == Derive(CityTotals(data, c))
      {
        var c := order[j];
        var t := totals[c];
        var avgClaim, avgPremium, rate := 0.0, 0.0, 0.0;
        if t.claims > 0 {
          avgClaim := t.claimAmount / t.claims as real;
          avgPremium := t.premium / t.claims as real;
          rate := t.rejections as real / t.claims as real;
        }
        var ratio := 0.0;
        if t.premium > 0.0 {
          ratio := t.claimAmount / t.premium;
        }
        metrics := metrics[c := CityMetrics(t.claims, t.claimAmount, t.premium, t.rejections, avgClaim, avgPremium, rate, ratio)];
        assert order[..j + 1] == order[..j] + [c];
        j := j + 1;
      }
      assert order[..j] == order;
    }

    /**
     * `analyze_city_closure`: the metrics are normalised one at a time and
     * added into the scores with their weights; the first city with the
     * greatest score is recommended. With no city, `min()` raises.
     */
    method AnalyzeCityClosure() returns (r: Result<ClosureReport, Error>)
      ensures r.Failure? <==> !AmountsParse(data) || CityOrder(data) == []
      ensures r.Failure? ==> r.error == if AmountsParse(data) then EmptyCitySet else UnparsableAmount
      ensures r.Success? ==>
        && AmountsParse(data) && WellFormedTable(CityTableOf(data)) && CityOrder(data) != []
        && r.value == Report(CityTableOf(data))
    {
      var metricsResult := GetCityMetrics();
      if metricsResult.Failure? {
        return Failure(metricsResult.error);
      }
      var table := metricsResult.value;
      CityTableSpec(data);
      var scored := ScoreCities(table);
      if scored.Failure? {
        return Failure(scored.error);
      }
      var scores := scored.value;
      var city := table.order[BestIndex(table.order, scores, |table.order|)];
      var m := table.metrics[city];
      return Success(ClosureReport(city, scores, table, Reasoning(m.totalPremium, m.claimRatio, m.rejectionRate, m.totalClaims)));
    }
  }

  /**
   * The metric loop of `analyze_city_closure`: for each weighted metric in
   * turn, its minimum and maximum over the cities, then every city's score
   * raised by the weighted normalised value. `min()` raises on a table
   * without cities.
   */
  method ScoreCities(table: CityTable) returns (r: Result<map<Value, real>, Error>)
    requires WellFormedTable(table)
    ensures r.Failure? <==> table.order == []
    ensures r.Failure? ==> r.error == EmptyCitySet
    ensures r.Success? ==> table.order != [] && r.value == Scores(table)
  {
    var scores: map<Value, real> := map[];
    var k := 0;
    while k < |Metrics|
      invariant 0 <= k <= |Metrics|
      invariant k == 0 ==> scores == map[]
      invariant k > 0 ==> table.order != [] && ScoredUpTo(table, scores, k)
    {
      if table.order == [] {
        return Failure(EmptyCitySet);
      }
      scores := ScoreMetric(table, scores, k);
      k := k + 1;
    }
    ScoredAll(table, scores);
    return Success(scores);
  }

  /** The scores hold, for every city and only for the cities, the sum of the first `k` weighted metrics. */
  ghost predicate ScoredUpTo(table: CityTable, scores: map<Value, real>, k: nat)
    requires WellFormedTable(table) && table.order != [] && k <= |Metrics|
  {
    && (forall c :: c in scores <==> c in table.order)
    && (forall c :: c in scores ==> scores[c] == PartialScore(table, c, k))
  }

  lemma ScoredAll(table: CityTable, scores: map<Value, real>)
    requires WellFormedTable(table) && table.order != [] && ScoredUpTo(table, scores, |Metrics|)
    ensures scores == Scores(table)
  {
  }

  /** One round of the metric loop: normalise metric `k` and add it, weighted, to every score. */
  method ScoreMetric(table: CityTable, scores: map<Value, real>, k: nat) returns (next: map<Value, real>)
    requires WellFormedTable(table) && table.order != [] && k < |Metrics|
    requires k == 0 ==> scores == map[]
    requires k > 0 ==> ScoredUpTo(table, scores, k)
    ensures ScoredUpTo(table, next, k + 1)
  {
    var metric := Metrics[k];
    var values := Values(table, metric);
    var lo, hi := Min(values), Max(values);
    var range := if hi != lo then hi - lo else 1.0;
    next := AddMetric(table, scores, metric, lo, hi, range);
    ScoresStep(table, scores, next, k, lo, hi);
  }

  /**
   * The inner loop of `analyze_city_closure` for one metric: every city's
   * score gains `(v - lo) / range` times the metric's weight, where `v` is
   * the city's value of the metric; a city seen for the first time starts
   * from 0, and no other key is added or changed.
   */
  method AddMetric(table: CityTable, scores: map<Value, real>, metric: Metric, lo: real, hi: real, range: real)
    returns (next: map<Value, real>)
    requires WellFormedTable(table) && range == Range(lo, hi)
    ensures forall c :: c in next <==> c in scores || c in table.order
    ensures forall c :: c in table.order ==>
      next[c] == (if c in scores then scores[c] else 0.0) + Gain(table.metrics[c], metric, lo, hi)
    ensures forall c :: c in scores && c !in table.order ==> next[c] == scores[c]
  {
    var order := table.order;
    next := scores;
    var j := 0;
    while j < |order|
      invariant 0 <= j <= |order|
      invariant forall c :: c in next <==> c in scores || c in order[..j]
      invariant forall c :: c in order[..j] ==>
        next[c] == (if c in scores then scores[c] else 0.0) + Gain(table.metrics[c], metric, lo, hi)
      invariant forall c :: c in scores && c !in order[..j] ==> next[c] == scores[c]
    {
      var city := order[j];
      assert city !in order[..j];
      assert order[..j + 1] == order[..j] + [city];
      var current := 0.0;
      if city in next {
        current := next[city];
      }
      assert current == if city in scores then scores[city] else 0.0;
      var normalised := (MetricOf(table.metrics[city], metric) - lo) / range;
      assert normalised * Weight(metric) == Gain(table.metrics[city], metric, lo, hi);
      ghost var prev := next;
      next := next[city := current + normalised * Weight(metric)];
      forall c | c in order[..j + 1] && c != city ensures next[c] == prev[c] && c in order[..j] {
      }
      j := j + 1;
    }
    assert order[..j] == order;
  }

  /** After `AddMetric` on metric `k`, every city carries the score of the first `k + 1` metrics. */
  lemma ScoresStep(table: CityTable, prev: map<Value, real>, next: map<Value, real>, k: nat, lo: real, hi: real)
    requires WellFormedTable(table) && table.order != [] && k < |Metrics|
    requires lo == Min(Values(table, Metrics[k])) && hi == Max(Values(table, Metrics[k]))
    requires k == 0 ==> prev == map[]
    requires k > 0 ==> ScoredUpTo(table, prev, k)
    requires forall c :: c in next <==> c in prev || c in table.order
    requires forall c :: c in table.order ==>
      next[c] == (if c in prev then prev[c] else 0.0) + Gain(table.metrics[c], Metrics[k], lo, hi)
    ensures ScoredUpTo(table, next, k + 1)
  {
    forall c | c in next ensures next[c] == PartialScore(table, c, k + 1) {
      NormalisedMetricStep(table, k, c, lo, hi);
    }
  }
}
