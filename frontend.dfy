/** The numbers behind two charts of `frontend.py`: the year-by-year growth of
    an investment and the per-goal savings progress. The figures themselves
    are not modelled. */
module Frontend {
  import opened Wrappers
  import opened Dicts
  import opened FinanceMath
  import DataProcessing

  // ---------------------------------------------------------------------------
  // Investment growth chart

  /** One point of the growth chart, at the end of a year. */
  datatype GrowthPoint = GrowthPoint(year: int, value: real, contributions: real, earnings: real)

  /** The point for year `y`: the value after `y * 12` months of
      `v := v * (1 + rate/12) + monthly`, the money paid in so far, and the
      difference between the two. */
  predicate IsGrowthPoint(p: GrowthPoint, y: nat, initial: real, monthly: real, rate: real)
  {
    && p.year == y
    && p.value == Compound(initial, 1.0 + rate / 12.0, monthly, y * 12)
    && p.contributions == initial + monthly * ((y * 12) as real)
    && p.earnings == p.value - p.contributions
  }

  /** The chart has the starting point and one point per year of the term. */
  predicate IsGrowthData(data: seq<GrowthPoint>, initial: real, monthly: real, years: int, rate: real)
  {
    && |data| == (if years > 0 then years else 0) + 1
    && forall y :: 0 <= y < |data| ==> IsGrowthPoint(data[y], y, initial, monthly, rate)
  }

  /** The data loop of `create_investment_growth_chart`. */
  method InvestmentGrowthData(initial: real, monthly: real, years: int, rate: real)
    returns (data: seq<GrowthPoint>)
    ensures IsGrowthData(data, initial, monthly, years, rate)
  {
    var monthlyRate := rate / 12.0;
    var currentValue := initial;
    var totalContributions := initial;
    data := [GrowthPoint(0, currentValue, totalContributions, 0.0)];
    var year := 1;
    while year <= years
      invariant 1 <= year && (years >= 0 ==> year <= years + 1)
      invariant years < 0 ==> year == 1
      invariant |data| == year
      invariant currentValue == Compound(initial, 1.0 + monthlyRate, monthly, (year - 1) * 12)
      invariant totalContributions == Compound(initial, 1.0, monthly, (year - 1) * 12)
      invariant forall y :: 0 <= y < |data| ==> IsGrowthPoint(data[y], y, initial, monthly, rate)
    {
      var month := 0;
      while month < 12
        invariant 0 <= month <= 12
        invariant currentValue == Compound(initial, 1.0 + monthlyRate, monthly, (year - 1) * 12 + month)
        invariant totalContributions == Compound(initial, 1.0, monthly, (year - 1) * 12 + month)
      {
        currentValue := currentValue * (1.0 + monthlyRate) + monthly;
        totalContributions := totalContributions + monthly;
        month := month + 1;
      }
      var earnings := currentValue - totalContributions;
      GrowthYear(year, initial, monthly, rate, currentValue, totalContributions);
      data := data + [GrowthPoint(year, currentValue, totalContributions, earnings)];
      year := year + 1;
    }
  }

  /** The point at the end of the next year: the contributions, counted one
      deposit at a time, are the initial amount plus the deposits so far. */
  lemma GrowthYear(y: nat, initial: real, monthly: real, rate: real, value: real, contributions: real)
    requires value == Compound(initial, 1.0 + rate / 12.0, monthly, y * 12)
    requires contributions == Compound(initial, 1.0, monthly, y * 12)
    ensures IsGrowthPoint(GrowthPoint(y, value, contributions, value - contributions), y, initial, monthly, rate)
  {
    CompoundWithoutGrowth(initial, monthly, y * 12);
    assert monthly * ((y * 12) as real) == ((y * 12) as real) * monthly;
  }

  /** With non-negative contributions the contribution line never falls. */
  lemma ContributionsNeverFall(data: seq<GrowthPoint>, initial: real, monthly: real, years: int, rate: real)
    requires IsGrowthData(data, initial, monthly, years, rate) && monthly >= 0.0
    ensures forall y, z :: 0 <= y <= z < |data| ==> data[y].contributions <= data[z].contributions
  {
    forall y, z | 0 <= y <= z < |data|
      ensures data[y].contributions <= data[z].contributions
    {
      assert IsGrowthPoint(data[y], y, initial, monthly, rate) && IsGrowthPoint(data[z], z, initial, monthly, rate);
      DepositsGrow(initial, monthly, y * 12, z * 12, data[y].contributions, data[z].contributions);
    }
  }

  lemma DepositsGrow(initial: real, monthly: real, a: nat, b: nat, ca: real, cb: real)
    requires monthly >= 0.0 && a <= b
    requires ca == initial + monthly * (a as real) && cb == initial + monthly * (b as real)
    ensures ca <= cb
  {
    assert monthly * (b as real) - monthly * (a as real) == monthly * ((b - a) as real);
  }

  /** For a non-negative rate and term, the last point of the chart shows the
      final amount, contributions and earnings of `calculate_investment_returns`. */
  lemma GrowthChartEndsAtInvestmentReturns(data: seq<GrowthPoint>, initial: real, monthly: real, years: int, rate: real)
    requires IsGrowthData(data, initial, monthly, years, rate)
    requires years >= 0 && rate >= 0.0
    ensures var r := DataProcessing.CalculateInvestmentReturns(initial, monthly, years, rate);
            && r.Ok?
            && data[years].value == r.value.finalAmount
            && data[years].contributions == r.value.totalContribution
            && data[years].earnings == r.value.totalEarnings
  {
    assert IsGrowthPoint(data[years], years, initial, monthly, rate);
    DataProcessing.InvestmentReturnsAreMonthlyCompounding(initial, monthly, years, rate);
  }

  /** For a negative rate the two disagree: at a rate of -1200% the chart
      wipes out each balance and shows 1 after a year of deposits of 1, while
      `calculate_investment_returns` adds the deposits up without growth and reports 12. */
  lemma GrowthChartDisagreesAtNegativeRate()
    ensures Compound(0.0, 1.0 + -12.0 / 12.0, 1.0, 12) == 1.0
    ensures DataProcessing.CalculateInvestmentReturns(0.0, 1.0, 1, -12.0) == Ok(DataProcessing.InvestmentReturns(12.0, 12.0, 0.0))
  {
    assert Compound(0.0, 0.0, 1.0, 11) * 0.0 + 1.0 == 1.0;
    assert Pow(0.0, 12) == 0.0;
  }

  // ---------------------------------------------------------------------------
  // Savings goal progress chart

  /** Progress towards a target in percent, 0 for a target that is not positive. */
  function GoalPercentage(current: real, target: real): (p: real)
    ensures target > 0.0 ==> p * target == current * 100.0
    ensures target <= 0.0 ==> p == 0.0
  {
    if target > 0.0 then current / target * 100.0 else 0.0
  }

  /** The data loop of `create_savings_goal_progress_chart`: one bar per goal,
      in the order of the goals, or no bars when either dictionary is empty. */
  method GoalProgressData(goals: Dict, currentSavings: Dict)
    returns (names: seq<string>, targets: seq<real>, currents: seq<real>, percentages: seq<real>)
    ensures goals == [] || currentSavings == [] ==> names == [] && targets == [] && currents == [] && percentages == []
    ensures goals != [] && currentSavings != [] ==>
              |names| == |goals| && |targets| == |goals| && |currents| == |goals| && |percentages| == |goals|
    ensures goals != [] && currentSavings != [] ==>
              forall i :: 0 <= i < |goals| ==>
                && names[i] == goals[i].0
                && targets[i] == goals[i].1
                && currents[i] == Get(currentSavings, goals[i].0, 0.0)
                && percentages[i] == GoalPercentage(currents[i], targets[i])
  {
    names, targets, currents, percentages := [], [], [], [];
    if goals == [] || currentSavings == [] {
      return;
    }
    var i := 0;
    while i < |goals|
      invariant 0 <= i <= |goals|
      invariant |names| == i && |targets| == i && |currents| == i && |percentages| == i
      invariant forall j :: 0 <= j < i ==>
                  && names[j] == goals[j].0
                  && targets[j] == goals[j].1
                  && currents[j] == Get(currentSavings, goals[j].0, 0.0)
                  && percentages[j] == GoalPercentage(currents[j], targets[j])
    {
      var (goalName, target) := goals[i];
      var current := Get(currentSavings, goalName, 0.0);
      var percentage := GoalPercentage(current, target);
      names := names + [goalName];
      targets := targets + [target];
      currents := currents + [current];
      percentages := percentages + [percentage];
      i := i + 1;
    }
  }
}
