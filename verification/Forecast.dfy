/** Cost forecasts and the day a budget runs out. */
module Forecast {
  import opened Rounding
  import opened Wrappers

  /** Monday first. */
  const DOW_MULTIPLIERS := [1.05, 1.10, 1.08, 1.03, 0.95, 0.35, 0.30]

  datatype Baseline = Baseline(mean: real, costMean: real, growthPct: real, weekday: nat)

  datatype Scenario = Pessimistic | Likely | Optimistic

  const SCENARIOS := [(Pessimistic, 1.3), (Likely, 1.0), (Optimistic, 0.75)]

  function Factor(s: Scenario): real {
    match s
    case Pessimistic => 1.3
    case Likely => 1.0
    case Optimistic => 0.75
  }

  datatype Row = Row(day: int, scenario: Scenario, tokens: real, cost: real, trend: real, seasonal: real)

  datatype Risk = Risk(daysUntilExhaustion: int, valueAtExhaustion: real, limit: real, pctOfLimitToday: real)

  function Seasonal(b: Baseline, day: nat): (s: real)
    ensures s > 0.0
  {
    DOW_MULTIPLIERS[(b.weekday + day) % 7]
  }

  function TrendFactor(growthPct: real, day: nat): real {
    1.0 + growthPct / 100.0 / 7.0 * day as real
  }

  function Trend(b: Baseline, day: nat): real {
    b.mean * TrendFactor(b.growthPct, day)
  }

  /** The predicted cost before rounding; the scenario factor enters it twice. */
  function CostOf(b: Baseline, tokens: real, factor: real): real {
    if b.mean > 0.0 then tokens / b.mean * b.costMean * factor else 0.0
  }

  function TokensOf(trend: real, seasonal: real, factor: real): real {
    trend * seasonal * factor
  }

  function PredictedCost(b: Baseline, day: nat, s: Scenario): real {
    CostOf(b, TokensOf(Trend(b, day), Seasonal(b, day), Factor(s)), Factor(s))
  }

  /** One forecast record, its cost rounded to eight places. */
  function RowOf(b: Baseline, day: nat, s: Scenario, factor: real, trend: real, seasonal: real): Row {
    Row(day, s, TokensOf(trend, seasonal, factor), Round8(CostOf(b, TokensOf(trend, seasonal, factor), factor)), trend, seasonal)
  }

  function RowFor(b: Baseline, day: nat, s: Scenario): Row {
    RowOf(b, day, s, Factor(s), Trend(b, day), Seasonal(b, day))
  }

  function DayRows(b: Baseline, day: nat): seq<Row> {
    [RowFor(b, day, Pessimistic), RowFor(b, day, Likely), RowFor(b, day, Optimistic)]
  }

  function RowsUpTo(b: Baseline, day: nat): (rows: seq<Row>)
    ensures |rows| == 3 * day
  {
    if day == 0 then [] else RowsUpTo(b, day - 1) + DayRows(b, day)
  }

  function LikelyOf(b: Baseline, trend: real, seasonal: real): real {
    if b.mean > 0.0 then trend * seasonal / b.mean * b.costMean else 0.0
  }

  function LikelyCost(b: Baseline, day: nat): real {
    LikelyOf(b, Trend(b, day), Seasonal(b, day))
  }

  /** Fifteen average days, then the unrounded likely costs of the first days. */
  function Cumulative(b: Baseline, day: nat): real {
    if day == 0 then b.costMean * 15.0 else Cumulative(b, day - 1) + LikelyCost(b, day)
  }

  /** The first day within the horizon on which the cumulative cost reaches the limit. */
  function FirstCrossing(b: Baseline, limit: real, horizon: nat): (r: Option<nat>)
    ensures r.None? ==> forall d: nat :: 1 <= d <= horizon ==> Cumulative(b, d) < limit
    ensures r.Some? ==> 1 <= r.value <= horizon && Cumulative(b, r.value) >= limit
                        && forall d: nat :: 1 <= d < r.value ==> Cumulative(b, d) < limit
  {
    if horizon == 0 then None
    else
      var earlier := FirstCrossing(b, limit, horizon - 1);
      if earlier.Some? then earlier
      else if Cumulative(b, horizon) >= limit then Some(horizon)
      else None
  }

  method CostOfTokens(b: Baseline, tokens: real, factor: real) returns (cost: real)
    ensures cost == CostOf(b, tokens, factor)
  {
    cost := if b.mean > 0.0 then tokens / b.mean * b.costMean * factor else 0.0;
  }

  method Record(b: Baseline, day: nat, s: Scenario, factor: real, trend: real, seasonal: real) returns (row: Row)
    ensures row == RowOf(b, day, s, factor, trend, seasonal)
  {
    var tokens := trend * seasonal * factor;
    assert tokens == TokensOf(trend, seasonal, factor);
    var cost := CostOfTokens(b, tokens, factor);
    row := Row(day, s, tokens, Round8(cost), trend, seasonal);
  }

  method ScenarioForecasts(b: Baseline, day: nat, trend: real, seasonal: real) returns (rows: seq<Row>)
    requires trend == Trend(b, day) && seasonal == Seasonal(b, day)
    ensures rows == DayRows(b, day)
  {
    rows := [];
    for i := 0 to |SCENARIOS|
      invariant rows == DayRows(b, day)[..i]
    {
      var (scenario, factor) := SCENARIOS[i];
      var row := Record(b, day, scenario, factor, trend, seasonal);
      rows := rows + [row];
    }
  }

  method TrendAndSeason(b: Baseline, day: nat) returns (trend: real, seasonal: real)
    ensures trend == Trend(b, day) && seasonal == Seasonal(b, day)
  {
    var dailyGrowth := b.growthPct / 100.0 / 7.0;
    trend := b.mean * (1.0 + dailyGrowth * day as real);
    seasonal := DOW_MULTIPLIERS[(b.weekday + day) % 7];
  }

  method LikelyDailyCost(b: Baseline, trend: real, seasonal: real) returns (cost: real)
    ensures cost == LikelyOf(b, trend, seasonal)
  {
    cost := if b.mean > 0.0 then trend * seasonal / b.mean * b.costMean else 0.0;
  }

  /** min(99, spent / limit * 100) */
  function CappedPct(spent: real, limit: real): (pct: real)
    requires limit > 0.0
    ensures pct <= 99.0 && pct <= spent / limit * 100.0 && (pct == 99.0 || pct == spent / limit * 100.0)
  {
    var share := spent / limit * 100.0;
    if share < 99.0 then share else 99.0
  }

  /** The risk reported for the day on which the limit is first reached. */
  function RiskOn(b: Baseline, limit: real, day: nat): Risk
    requires limit > 0.0 && day > 0
  {
    Risk(day, Cumulative(b, day), limit, CappedPct(Cumulative(b, day - 1), limit))
  }

  function ExpectedRisk(b: Baseline, limit: real, horizon: nat): Option<Risk>
    requires limit > 0.0
  {
    var day := FirstCrossing(b, limit, horizon);
    if day.Some? then Some(RiskOn(b, limit, day.value)) else None
  }

  method GenerateForecasts(b: Baseline, limit: real, horizon: int) returns (forecasts: seq<Row>, risk: Option<Risk>)
    requires limit > 0.0
    ensures var h: nat := if horizon > 0 then horizon else 0;
      && forecasts == RowsUpTo(b, h)
      && risk == ExpectedRisk(b, limit, h)
  {
    forecasts, risk := [], None;
    var cumulative := b.costMean * 15.0;
    var day := 1;
    while day <= horizon
      invariant 1 <= day && (day == 1 || day <= horizon + 1)
      invariant cumulative == Cumulative(b, day - 1)
      invariant forecasts == RowsUpTo(b, day - 1)
      invariant risk == ExpectedRisk(b, limit, day - 1)
    {
      var trend, seasonal := TrendAndSeason(b, day);
      var rows := ScenarioForecasts(b, day, trend, seasonal);
      forecasts := forecasts + rows;
      var likely := LikelyDailyCost(b, trend, seasonal);
      cumulative := cumulative + likely;
      if cumulative >= limit && risk.None? {
        risk := Some(Risk(day, cumulative, limit, CappedPct(cumulative - likely, limit)));
        assert cumulative - likely == Cumulative(b, day - 1);
      }
      day := day + 1;
    }
  }

  // ---- The figures ----

  /** The calendar: weekdays near 1 from Monday to Friday, a third of that on Saturday and Sunday, the same every week. */
  lemma WeekdayTable(b: Baseline, day: nat)
    ensures var weekday := (b.weekday + day) % 7;
      Seasonal(b, day) == if weekday == 0 then 1.05 else if weekday == 1 then 1.1 else if weekday == 2 then 1.08
                          else if weekday == 3 then 1.03 else if weekday == 4 then 0.95 else if weekday == 5 then 0.35 else 0.3
    ensures Seasonal(b, day + 7) == Seasonal(b, day)
  {
    assert (b.weekday + (day + 7)) % 7 == (b.weekday + day) % 7;
  }

  /** The trend starts at the mean, and every seven days it gains the growth percentage of the mean. */
  lemma TrendGainsWeekly(b: Baseline, day: nat)
    ensures Trend(b, 0) == b.mean
    ensures Trend(b, day + 7) == Trend(b, day) + b.mean * (b.growthPct / 100.0)
  {
    var g := b.growthPct / 100.0;
    assert (day + 7) as real == day as real + 7.0;
    assert g / 7.0 * (day + 7) as real == g / 7.0 * day as real + g;
    assert b.mean * (TrendFactor(b.growthPct, day) + g) == b.mean * TrendFactor(b.growthPct, day) + b.mean * g;
  }

  /** Each day has three records, pessimistic first, that scale the seasonal trend by 1.3, 1 and 0.75. */
  lemma ScenarioTokens(b: Baseline, day: nat)
    ensures var rows, base := DayRows(b, day), Trend(b, day) * Seasonal(b, day);
      && |rows| == 3 && rows[0].tokens == base * 1.3 && rows[1].tokens == base && rows[2].tokens == base * 0.75
      && rows[0].scenario == Pessimistic && rows[1].scenario == Likely && rows[2].scenario == Optimistic
      && forall r :: r in rows ==> r.day == day && r.trend == Trend(b, day) && r.seasonal == Seasonal(b, day)
  {
  }

  // ---- Monotonicity ----

  lemma LikelyClosedForm(b: Baseline, day: nat)
    requires b.mean > 0.0
    ensures LikelyCost(b, day) == TrendFactor(b.growthPct, day) * Seasonal(b, day) * b.costMean
  {
  }

  lemma TrendGrows(low: real, high: real, day: nat)
    requires low <= high
    ensures TrendFactor(low, day) <= TrendFactor(high, day)
  {
  }

  lemma ProductGrows(low: real, high: real, s: real, c: real)
    requires low <= high && s > 0.0 && c >= 0.0
    ensures low * s * c <= high * s * c
  {
  }

  lemma LikelyGrows(b: Baseline, growthPct: real, day: nat)
    requires b.costMean >= 0.0 && b.growthPct <= growthPct
    ensures LikelyCost(b, day) <= LikelyCost(b.(growthPct := growthPct), day)
  {
    if b.mean > 0.0 {
      var faster := b.(growthPct := growthPct);
      LikelyClosedForm(b, day);
      LikelyClosedForm(faster, day);
      TrendGrows(b.growthPct, growthPct, day);
      ProductGrows(TrendFactor(b.growthPct, day), TrendFactor(growthPct, day), Seasonal(b, day), b.costMean);
    }
  }

  lemma {:induction false} CumulativeGrows(b: Baseline, growthPct: real, day: nat)
    requires b.costMean >= 0.0 && b.growthPct <= growthPct
    ensures Cumulative(b, day) <= Cumulative(b.(growthPct := growthPct), day)
  {
    if day > 0 {
      CumulativeGrows(b, growthPct, day - 1);
      LikelyGrows(b, growthPct, day);
    }
  }

  /** Raising the growth never postpones the exhaustion day; raising the budget never brings it forward. */
  lemma ExhaustionIsMonotone(b: Baseline, growthPct: real, limit: real, budget: real, horizon: nat)
    requires b.costMean >= 0.0 && b.growthPct <= growthPct && limit <= budget
    ensures FirstCrossing(b, limit, horizon).Some? ==>
      var faster := FirstCrossing(b.(growthPct := growthPct), limit, horizon);
      faster.Some? && faster.value <= FirstCrossing(b, limit, horizon).value
    ensures FirstCrossing(b, budget, horizon).Some? ==>
      var tighter := FirstCrossing(b, limit, horizon);
      tighter.Some? && tighter.value <= FirstCrossing(b, budget, horizon).value
  {
    var day := FirstCrossing(b, limit, horizon);
    if day.Some? {
      CumulativeGrows(b, growthPct, day.value);
    }
  }

  lemma ScaledQuotient(x: real, f: real, m: real, c: real)
    requires m > 0.0
    ensures x * f / m * c * f == x / m * c * f * f
  {
    var q := x / m;
    assert x * f == (q * f) * m;
    assert x * f / m == q * f;
  }

  /** Before rounding, a record's cost is the likely cost scaled by the squared factor of its scenario. */
  lemma ScenarioCosts(b: Baseline, day: nat, s: Scenario)
    ensures PredictedCost(b, day, s) == LikelyCost(b, day) * Factor(s) * Factor(s)
    ensures -HALF_UNIT8 <= RowFor(b, day, s).cost - LikelyCost(b, day) * Factor(s) * Factor(s) <= HALF_UNIT8
  {
    if b.mean > 0.0 {
      ScaledQuotient(Trend(b, day) * Seasonal(b, day), Factor(s), b.mean, b.costMean);
    }
  }

  /** The costs on the likely records. */
  function LikelySum(rows: seq<Row>): real {
    if rows == [] then 0.0
    else
      var last := rows[|rows| - 1];
      LikelySum(rows[..|rows| - 1]) + if last.scenario == Likely then last.cost else 0.0
  }

  lemma LikelySumAppend(rows: seq<Row>, row: Row)
    ensures LikelySum(rows + [row]) == LikelySum(rows) + if row.scenario == Likely then row.cost else 0.0
  {
    assert (rows + [row])[..|rows|] == rows;
  }

  lemma LikelySumOfDay(rows: seq<Row>, b: Baseline, day: nat)
    ensures LikelySum(rows + DayRows(b, day)) == LikelySum(rows) + RowFor(b, day, Likely).cost
  {
    var r := DayRows(b, day);
    LikelySumAppend(rows, r[0]);
    LikelySumAppend(rows + [r[0]], r[1]);
    LikelySumAppend(rows + [r[0]] + [r[1]], r[2]);
    assert rows + r == rows + [r[0]] + [r[1]] + [r[2]];
  }

  lemma LikelyRecordIsNear(b: Baseline, day: nat)
    ensures -HALF_UNIT8 <= RowFor(b, day, Likely).cost - LikelyCost(b, day) <= HALF_UNIT8
  {
    ScenarioCosts(b, day, Likely);
    assert LikelyCost(b, day) * 1.0 * 1.0 == LikelyCost(b, day);
  }

  /** The likely records of a horizon add up to what the risk accumulates over it, within half a unit for each day. */
  lemma {:induction false} LikelyRowsTrackRisk(b: Baseline, horizon: nat)
    ensures var gap := LikelySum(RowsUpTo(b, horizon)) - (Cumulative(b, horizon) - b.costMean * 15.0);
      -(horizon as real) * HALF_UNIT8 <= gap <= horizon as real * HALF_UNIT8
  {
    if horizon > 0 {
      LikelyRowsTrackRisk(b, horizon - 1);
      LikelySumOfDay(RowsUpTo(b, horizon - 1), b, horizon);
      LikelyRecordIsNear(b, horizon);
      assert horizon as real == (horizon - 1) as real + 1.0;
    }
  }
}
