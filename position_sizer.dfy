/** `TradeManager.calculate_position`: turn a capital, a risk percentage, an
    entry price, a stop price and a market-trend tier into a share count split
    into three units. */
module PositionSizer {
  import opened Wrappers
  import opened Numeric

  datatype Sizing = Sizing(
    trendFactor: real,
    adjustedCapital: int,
    riskAmount: int,
    slDist: real,
    totalQty: int,
    unitQty: int)

  /** Share of capital committed in a tier: 3, 2 and 1 map to the constants
      1.0, 0.6666 and 0.3333 and every other tier falls back to 1.0. */
  function TrendFactor(trendScore: int): (f: real)
    ensures trendScore == 2 ==> f == 0.6666
    ensures trendScore == 1 ==> f == 0.3333
    ensures trendScore != 2 && trendScore != 1 ==> f == 1.0
    ensures 0.0 < f <= 1.0
  {
    if trendScore == 3 then 1.0
    else if trendScore == 2 then 0.6666
    else if trendScore == 1 then 0.3333
    else 1.0
  }

  /** The money put at risk before any truncation. */
  function RiskBudget(capital: real, riskPct: real, trendScore: int): real {
    capital * TrendFactor(trendScore) * (riskPct / 100.0)
  }

  lemma RiskBudgetNonNegative(capital: real, riskPct: real, trendScore: int)
    requires capital >= 0.0 && riskPct >= 0.0
    ensures RiskBudget(capital, riskPct, trendScore) >= 0.0
  {
    assert capital * TrendFactor(trendScore) >= 0.0;
  }

  /** The trend factor only ever scales the risk down: the budget is at most
      `capital * riskPct / 100`, and tier 3 takes all of it. */
  lemma RiskBudgetWithinBase(capital: real, riskPct: real, trendScore: int)
    requires capital >= 0.0 && riskPct >= 0.0
    ensures RiskBudget(capital, riskPct, trendScore) <= capital * (riskPct / 100.0)
    ensures trendScore == 3 ==> RiskBudget(capital, riskPct, trendScore) == capital * (riskPct / 100.0)
  {
    var f, p := TrendFactor(trendScore), riskPct / 100.0;
    ScaleDown(capital, f, p);
  }

  lemma ScaleDown(c: real, f: real, p: real)
    requires c >= 0.0 && p >= 0.0 && 0.0 < f <= 1.0
    ensures c * f * p <= c * p
    ensures f == 1.0 ==> c * f * p == c * p
  {
    assert c * p >= 0.0;
    assert c * f * p == f * (c * p);
  }

  /** Whole shares that fit in a budget: the count times the stop distance
      stays within the budget and one more share would exceed it. */
  lemma SharesWithinBudget(budget: real, slDist: real)
    requires budget >= 0.0 && slDist > 0.0
    ensures var q := Trunc(budget / slDist);
      0 <= q && q as real * slDist <= budget < (q + 1) as real * slDist
  {
    var x := budget / slDist;
    assert x * slDist == budget;
    assert x >= 0.0;
    ScaleBounds(x, Trunc(x), slDist, budget);
  }

  lemma ScaleBounds(x: real, q: int, d: real, b: real)
    requires d > 0.0 && q as real <= x < (q + 1) as real && x * d == b
    ensures q as real * d <= b < (q + 1) as real * d
  {
    assert (x - q as real) * d >= 0.0;
    assert ((q + 1) as real - x) * d > 0.0;
  }

  /** `int(total_qty / 3)` on a non-negative count is integer division by 3. */
  lemma UnitSplit(totalQty: int)
    requires totalQty >= 0
    ensures Trunc(totalQty as real / 3.0) == totalQty / 3
  {
  }

  /** The source returns `None` exactly when entry equals stop. The share count
      truncates the unrounded risk budget over the stop distance; only the
      reported adjusted capital and risk amount are themselves truncated. */
  function CalculatePosition(capital: real, riskPct: real, entry: real, sl: real, trendScore: int): (r: Option<Sizing>)
    ensures r.None? <==> entry == sl
    ensures r.Some? ==>
      && r.value.trendFactor == TrendFactor(trendScore)
      && r.value.slDist == Abs(entry - sl) > 0.0
      && r.value.adjustedCapital == Trunc(capital * TrendFactor(trendScore))
      && r.value.riskAmount == Trunc(RiskBudget(capital, riskPct, trendScore))
      && r.value.totalQty == Trunc(RiskBudget(capital, riskPct, trendScore) / Abs(entry - sl))
      && r.value.unitQty == Trunc(r.value.totalQty as real / 3.0)
  {
    var trendFactor := TrendFactor(trendScore);
    var adjustedCapital := capital * trendFactor;
    var riskAmount := RiskBudget(capital, riskPct, trendScore);
    var slDist := Abs(entry - sl);
    if slDist == 0.0 then None
    else
      var totalQty := Trunc(riskAmount / slDist);
      var unitQty := Trunc(totalQty as real / 3.0);
      Some(Sizing(trendFactor, Trunc(adjustedCapital), Trunc(riskAmount), slDist, totalQty, unitQty))
  }

  /** With a non-negative capital and risk percentage the share count is the
      largest whole number of shares whose loss at the stop stays within the
      risk budget, and the unit is a third of it rounded down. */
  lemma PositionFitsRiskBudget(capital: real, riskPct: real, entry: real, sl: real, trendScore: int)
    requires capital >= 0.0 && riskPct >= 0.0 && entry != sl
    ensures var s := CalculatePosition(capital, riskPct, entry, sl, trendScore).value;
      && 0 <= s.totalQty
      && s.totalQty as real * s.slDist <= RiskBudget(capital, riskPct, trendScore)
      && RiskBudget(capital, riskPct, trendScore) < (s.totalQty + 1) as real * s.slDist
      && s.unitQty == s.totalQty / 3
      && 3 * s.unitQty <= s.totalQty < 3 * s.unitQty + 3
  {
    var s := CalculatePosition(capital, riskPct, entry, sl, trendScore).value;
    RiskBudgetNonNegative(capital, riskPct, trendScore);
    SharesWithinBudget(RiskBudget(capital, riskPct, trendScore), s.slDist);
    UnitSplit(s.totalQty);
  }

  /** The worked example: capital 10,000,000, risk 2%, entry 10,000, stop
      9,200, tier 3. */
  lemma WorkedExample()
    ensures CalculatePosition(10000000.0, 2.0, 10000.0, 9200.0, 3)
         == Some(Sizing(1.0, 10000000, 200000, 800.0, 250, 83))
  {
  }
}
