/**
 * What `CityAnalyzer.get_city_metrics` computes, stated as functions of the
 * cleaned rows: the cities in first-appearance order, and per city the
 * totals of the first loop and the derived figures of the second.
 */
module CityAggregation {
  import opened Wrappers
  import opened Text
  import opened Decimal
  import opened FieldCleaning

  /** The accumulators the first loop keeps per city. */
  datatype Totals = Totals(claims: nat, claimAmount: real, premium: real, rejections: nat)

  const NoTotals := Totals(0, 0.0, 0.0, 0)

  /** The eight figures reported for a city. */
  datatype CityMetrics = CityMetrics(
    totalClaims: nat,
    totalClaimAmount: real,
    totalPremium: real,
    totalRejections: nat,
    avgClaimAmount: real,
    avgPremium: real,
    rejectionRate: real,
    claimRatio: real)

  /** A Python dict of cities to metrics: its keys in insertion order, and the mapping. */
  datatype CityTable = CityTable(order: seq<Value>, metrics: map<Value, CityMetrics>)

  /** Why the analysis raises: `float()` rejects an amount, or `min()` gets no city. */
  datatype Error = UnparsableAmount | EmptyCitySet

  /** `row.get('CITY', '')` when it is truthy; rows without one are skipped. */
  function CityOf(row: Record): (c: Option<Value>)
    ensures c.Some? <==> CityField in row && Truthy(row[CityField])
    ensures c.Some? ==> c.value == row[CityField] && Truthy(c.value)
  {
    if CityField in row && Truthy(row[CityField]) then Some(row[CityField]) else None
  }

  /**
   * `float(row.get(field, 0) or 0)`: a missing or falsy cell reads as 0, a
   * number as itself, and a string through `float()`, which ignores
   * surrounding whitespace and may fail.
   */
  function AmountOf(row: Record, field: string): Option<real>
  {
    if field !in row || !Truthy(row[field]) then Some(0.0)
    else
      match row[field]
      case Num(x) => Some(x)
      case Str(s) => ParseFloat(Strip(s))
  }

  /** `if row.get('REJECTION_REMARKS')`. */
  predicate IsRejected(row: Record)
  {
    RemarksField in row && Truthy(row[RemarksField])
  }

  /** A row that is counted for a city has both amounts readable. */
  predicate RowParses(row: Record)
  {
    CityOf(row).Some? ==> AmountOf(row, ClaimAmountField).Some? && AmountOf(row, PremiumField).Some?
  }

  /** No row makes `float()` raise. */
  predicate AmountsParse(rows: seq<Record>)
  {
    forall i :: 0 <= i < |rows| ==> RowParses(rows[i])
  }

  /** The distinct cities of `rows`, in the order they first appear. */
  function CityOrder(rows: seq<Record>): seq<Value>
  {
    if rows == [] then []
    else
      var order := CityOrder(rows[..|rows| - 1]);
      var city := CityOf(rows[|rows| - 1]);
      if city.Some? && city.value !in order then order + [city.value] else order
  }

  /** One counted row added to a city's accumulators. */
  function AddRow(t: Totals, row: Record): Totals
    requires AmountOf(row, ClaimAmountField).Some? && AmountOf(row, PremiumField).Some?
  {
    Totals(
      t.claims + 1,
      t.claimAmount + AmountOf(row, ClaimAmountField).value,
      t.premium + AmountOf(row, PremiumField).value,
      t.rejections + if IsRejected(row) then 1 else 0)
  }

  /** The accumulators of city `c` after all of `rows`. */
  function CityTotals(rows: seq<Record>, c: Value): Totals
    requires AmountsParse(rows)
  {
    if rows == [] then NoTotals
    else
      var last := rows[|rows| - 1];
      assert RowParses(last);
      var t := CityTotals(rows[..|rows| - 1], c);
      if CityOf(last) == Some(c) then AddRow(t, last) else t
  }

  /** The second loop: averages over the claim count, and the claim ratio. */
  function Derive(t: Totals): CityMetrics
  {
    var avgClaim := if t.claims > 0 then t.claimAmount / t.claims as real else 0.0;
    var avgPremium := if t.claims > 0 then t.premium / t.claims as real else 0.0;
    var rate := if t.claims > 0 then t.rejections as real / t.claims as real else 0.0;
    var ratio := if t.premium > 0.0 then t.claimAmount / t.premium else 0.0;
    CityMetrics(t.claims, t.claimAmount, t.premium, t.rejections, avgClaim, avgPremium, rate, ratio)
  }

  /** The dictionary `get_city_metrics` returns. */
  function CityTableOf(rows: seq<Record>): CityTable
    requires AmountsParse(rows)
  {
    var order := CityOrder(rows);
    CityTable(order, map c | c in order :: Derive(CityTotals(rows, c)))
  }

  /** The keys are listed once each, and every key has metrics. */
  predicate WellFormedTable(table: CityTable)
  {
    && (forall i, j :: 0 <= i < j < |table.order| ==> table.order[i] != table.order[j])
    && (forall c :: c in table.metrics ==> c in table.order)
    && (forall c :: c in table.order ==> c in table.metrics)
  }

  lemma PrefixParses(rows: seq<Record>, n: nat)
    requires AmountsParse(rows) && n <= |rows|
    ensures AmountsParse(rows[..n])
  {
    assert forall i :: 0 <= i < n ==> rows[..n][i] == rows[i];
  }

  /** One more row: the parse condition, the city order and the totals extend by that row. */
  lemma RowsSnoc(rows: seq<Record>, i: nat)
    requires i < |rows|
    ensures AmountsParse(rows[..i + 1]) <==> AmountsParse(rows[..i]) && RowParses(rows[i])
    ensures CityOrder(rows[..i + 1]) ==
      var order := CityOrder(rows[..i]);
      var city := CityOf(rows[i]);
      if city.Some? && city.value !in order then order + [city.value] else order
  {
    var next := rows[..i + 1];
    assert next[..i] == rows[..i] && next[i] == rows[i];
    if AmountsParse(rows[..i]) && RowParses(rows[i]) {
      forall j | 0 <= j < i + 1 ensures RowParses(next[j]) {
        if j < i {
          assert next[j] == rows[..i][j];
        }
      }
    }
  }

  lemma TotalsSnoc(rows: seq<Record>, i: nat, c: Value)
    requires i < |rows| && AmountsParse(rows[..i + 1])
    ensures AmountsParse(rows[..i]) && RowParses(rows[i])
    ensures CityTotals(rows[..i + 1], c) ==
      if CityOf(rows[i]) == Some(c) then AddRow(CityTotals(rows[..i], c), rows[i]) else CityTotals(rows[..i], c)
  {
    RowsSnoc(rows, i);
    var next := rows[..i + 1];
    assert next[..i] == rows[..i] && next[i] == rows[i];
  }

  /**
   * The city order lists each city once, and lists exactly the truthy
   * `CITY` values of the rows.
   */
  lemma {:induction false} CityOrderSpec(rows: seq<Record>)
    ensures forall i, j :: 0 <= i < j < |CityOrder(rows)| ==> CityOrder(rows)[i] != CityOrder(rows)[j]
    ensures forall c :: c in CityOrder(rows) <==> exists i :: 0 <= i < |rows| && CityOf(rows[i]) == Some(c)
  {
    if rows != [] {
      var init := rows[..|rows| - 1];
      CityOrderSpec(init);
      forall c ensures (exists i :: 0 <= i < |rows| && CityOf(rows[i]) == Some(c)) <==>
        (exists i :: 0 <= i < |init| && CityOf(init[i]) == Some(c)) || CityOf(rows[|rows| - 1]) == Some(c)
      {
        if i :| 0 <= i < |rows| && CityOf(rows[i]) == Some(c) {
          if i < |init| {
            assert CityOf(init[i]) == Some(c);
          }
        }
        if i :| 0 <= i < |init| && CityOf(init[i]) == Some(c) {
          assert rows[i] == init[i];
        }
      }
    }
  }

  /** The index of the first row whose city is `c`, or `|rows|` when there is none. */
  function FirstAppearance(rows: seq<Record>, c: Value): (k: nat)
    ensures k <= |rows|
    ensures forall i :: 0 <= i < k ==> CityOf(rows[i]) != Some(c)
    ensures k < |rows| ==> CityOf(rows[k]) == Some(c)
  {
    if rows == [] then 0
    else
      var k := FirstAppearance(rows[..|rows| - 1], c);
      if k < |rows| - 1 || CityOf(rows[|rows| - 1]) == Some(c) then k else |rows|
  }

  /** A city is listed exactly when it has a first appearance. */
  lemma FirstAppearanceListed(rows: seq<Record>, c: Value)
    ensures c in CityOrder(rows) <==> FirstAppearance(rows, c) < |rows|
  {
    CityOrderSpec(rows);
  }

  /** The cities are listed in the order of their first appearance. */
  lemma {:induction false} CityOrderFirstAppearance(rows: seq<Record>)
    ensures forall i :: 0 <= i < |CityOrder(rows)| ==> FirstAppearance(rows, CityOrder(rows)[i]) < |rows|
    ensures forall i, j :: 0 <= i < j < |CityOrder(rows)| ==>
      FirstAppearance(rows, CityOrder(rows)[i]) < FirstAppearance(rows, CityOrder(rows)[j])
  {
    if rows != [] {
      var init := rows[..|rows| - 1];
      var prev := CityOrder(init);
      var order := CityOrder(rows);
      CityOrderFirstAppearance(init);
      forall i | 0 <= i < |prev| ensures FirstAppearance(rows, prev[i]) == FirstAppearance(init, prev[i]) < |init| {
      }
      if order != prev {
        var c := CityOf(rows[|rows| - 1]).value;
        assert order == prev + [c] && c !in prev;
        FirstAppearanceListed(init, c);
        assert FirstAppearance(rows, c) == |init|;
      }
    }
  }

  /** A city that never appears has no claims, amounts or rejections. */
  lemma {:induction false} AbsentCityTotals(rows: seq<Record>, c: Value)
    requires AmountsParse(rows) && c !in CityOrder(rows)
    ensures CityTotals(rows, c) == NoTotals
  {
    if rows != [] {
      var init := rows[..|rows| - 1];
      PrefixParses(rows, |rows| - 1);
      assert c !in CityOrder(init);
      AbsentCityTotals(init, c);
    }
  }

  /**
   * A listed city has at least one claim, and never more rejections than
   * claims.
   */
  lemma {:induction false} CityTotalsBounds(rows: seq<Record>, c: Value)
    requires AmountsParse(rows)
    ensures CityTotals(rows, c).rejections <= CityTotals(rows, c).claims
    ensures c in CityOrder(rows) <==> CityTotals(rows, c).claims >= 1
  {
    if rows != [] {
      var init := rows[..|rows| - 1];
      PrefixParses(rows, |rows| - 1);
      CityTotalsBounds(init, c);
    }
  }

  /**
   * The derived figures: the rejection rate lies in [0, 1]; each average
   * times the claim count gives back its total; the claim ratio times the
   * premium gives back the claim amount when the premium is positive, and
   * is 0 otherwise.
   */
  lemma DeriveSpec(t: Totals)
    requires t.rejections <= t.claims
    ensures var m := Derive(t);
      && m.totalClaims == t.claims && m.totalClaimAmount == t.claimAmount
      && m.totalPremium == t.premium && m.totalRejections == t.rejections
      && 0.0 <= m.rejectionRate <= 1.0
      && (t.claims > 0 ==>
            && m.avgClaimAmount * t.claims as real == t.claimAmount
            && m.avgPremium * t.claims as real == t.premium
            && m.rejectionRate * t.claims as real == t.rejections as real)
      && (t.premium > 0.0 ==> m.claimRatio * t.premium == t.claimAmount)
      && (t.premium <= 0.0 ==> m.claimRatio == 0.0)
  {
    var m := Derive(t);
    if t.claims > 0 {
      var n := t.claims as real;
      assert m.rejectionRate == t.rejections as real / n;
      assert t.rejections as real <= n;
    }
  }

  /**
   * `get_city_metrics` as a whole: its keys are the distinct truthy cities
   * in first-appearance order, each with at least one claim, at most as
   * many rejections, and a rejection rate in [0, 1].
   */
  lemma CityTableSpec(rows: seq<Record>)
    requires AmountsParse(rows)
    ensures WellFormedTable(CityTableOf(rows))
    ensures forall c :: c in CityTableOf(rows).metrics <==> exists i :: 0 <= i < |rows| && CityOf(rows[i]) == Some(c)
    ensures forall c :: c in CityTableOf(rows).metrics ==>
      var m := CityTableOf(rows).metrics[c];
      && 1 <= m.totalClaims && m.totalRejections <= m.totalClaims
      && 0.0 <= m.rejectionRate <= 1.0
    ensures forall i, j :: 0 <= i < j < |CityTableOf(rows).order| ==>
      FirstAppearance(rows, CityTableOf(rows).order[i]) < FirstAppearance(rows, CityTableOf(rows).order[j])
  {
    CityOrderSpec(rows);
    CityOrderFirstAppearance(rows);
    forall c | c in CityOrder(rows)
      ensures var m := CityTableOf(rows).metrics[c];
        1 <= m.totalClaims && m.totalRejections <= m.totalClaims && 0.0 <= m.rejectionRate <= 1.0
    {
      CityTotalsBounds(rows, c);
      DeriveSpec(CityTotals(rows, c));
    }
  }
}
