/** Wealth, retirement, mortgage-affordability, portfolio and stock-return
    analysis of `moneyanalyser.py`. Market prices come in as data. */
module MoneyAnalyser {
  import opened Wrappers
  import opened Dicts
  import opened FinanceMath
  import DataProcessing

  // ---------------------------------------------------------------------------
  // Net worth and ratios

  datatype NetWorth = NetWorth(netWorth: real, assetsTotal: real, liabilitiesTotal: real)

  /** Total of a dictionary that may be missing; `None` and `{}` count as 0. */
  function OptionalTotal(d: Option<Dict>): (t: real)
    ensures t == if d.Some? then SumValues(d.value) else 0.0
  {
    if d.Some? && d.value != [] then SumValues(d.value) else 0.0
  }

  /** `calculate_net_worth`. */
  function CalculateNetWorth(assets: Option<Dict>, liabilities: Option<Dict>): (r: NetWorth)
    ensures r.assetsTotal == OptionalTotal(assets)
    ensures r.liabilitiesTotal == OptionalTotal(liabilities)
    ensures r.netWorth == r.assetsTotal - r.liabilitiesTotal
  {
    var assetsTotal := OptionalTotal(assets);
    var liabilitiesTotal := OptionalTotal(liabilities);
    NetWorth(assetsTotal - liabilitiesTotal, assetsTotal, liabilitiesTotal)
  }

  lemma NetWorthExample()
    ensures CalculateNetWorth(Some([("cash", 1000.0)]), Some([("loan", 400.0)])) == NetWorth(600.0, 1000.0, 400.0)
  {
    assert SumValues([("cash", 1000.0)]) == 1000.0;
    assert SumValues([("loan", 400.0)]) == 400.0;
  }

  /** Recording one more asset raises net worth by exactly its value. */
  lemma NetWorthAddAsset(assets: Dict, liabilities: Option<Dict>, name: string, value: real)
    ensures CalculateNetWorth(Some(assets + [(name, value)]), liabilities).netWorth
            == CalculateNetWorth(Some(assets), liabilities).netWorth + value
  {
    SumValuesAppend(assets, [(name, value)]);
    assert SumValues([(name, value)]) == value;
  }

  /** `calculate_debt_to_income_ratio`: undefined (None) without positive income. */
  function DebtToIncomeRatio(monthlyDebtPayments: real, monthlyIncome: real): (r: Option<real>)
    ensures r.None? <==> monthlyIncome <= 0.0
    ensures r.Some? ==> r.value * monthlyIncome == monthlyDebtPayments
  {
    if monthlyIncome <= 0.0 then None else Some(monthlyDebtPayments / monthlyIncome)
  }

  /** `calculate_emergency_fund_ratio`: months of expenses the fund covers,
      undefined (None) without positive monthly expenses. */
  function EmergencyFundRatio(emergencyFund: real, monthlyExpenses: real): (r: Option<real>)
    ensures r.None? <==> monthlyExpenses <= 0.0
    ensures r.Some? ==> r.value * monthlyExpenses == emergencyFund
  {
    if monthlyExpenses <= 0.0 then None else Some(emergencyFund / monthlyExpenses)
  }

  // ---------------------------------------------------------------------------
  // Retirement readiness

  datatype RetirementAnalysis = RetirementAnalysis(
    yearsUntilRetirement: int,
    retirementYears: int,
    projectedSavings: real,
    sustainableAnnualIncome: real,
    incomeGap: real,
    incomeGapPercentage: real,
    onTrack: bool)

  /** The "4% rule" withdrawal rate. */
  const SustainableWithdrawalRate: real := 0.04

  /** Future value of the monthly contributions: the annuity formula for a
      positive monthly return, otherwise the plain sum of the contributions. */
  function ContributionsValue(monthlyContribution: real, monthlyReturn: real, months: int): real
  {
    if monthlyReturn > 0.0 then
      assert PowInt(1.0 + monthlyReturn, months).Ok?;
      monthlyContribution * ((PowInt(1.0 + monthlyReturn, months).value - 1.0) / monthlyReturn)
    else
      monthlyContribution * (months as real)
  }

  /** `analyze_retirement_readiness`. The only exception exact arithmetic can
      raise is `0.0 ** years` for a return of -100% and a negative span. */
  function AnalyzeRetirementReadiness(currentAge: int, retirementAge: int, lifeExpectancy: int,
                                      currentSavings: real, monthlyContribution: real,
                                      expectedReturn: real, desiredRetirementIncome: real): (r: Result<RetirementAnalysis>)
    ensures r.Err? <==> expectedReturn == -1.0 && retirementAge < currentAge
    ensures r.Ok? ==> r.value.yearsUntilRetirement == retirementAge - currentAge
    ensures r.Ok? ==> r.value.retirementYears == lifeExpectancy - retirementAge
    ensures r.Ok? && retirementAge >= currentAge && expectedReturn <= 0.0 ==>
              r.value.projectedSavings
              == currentSavings * Pow(1.0 + expectedReturn, retirementAge - currentAge)
                 + monthlyContribution * (((retirementAge - currentAge) * 12) as real)
    ensures r.Ok? ==> r.value.sustainableAnnualIncome == SustainableWithdrawalRate * r.value.projectedSavings
    ensures r.Ok? ==> r.value.incomeGap == desiredRetirementIncome - r.value.sustainableAnnualIncome
    ensures r.Ok? && desiredRetirementIncome > 0.0 ==>
              r.value.incomeGapPercentage * desiredRetirementIncome == r.value.incomeGap * 100.0
    ensures r.Ok? && desiredRetirementIncome <= 0.0 ==> r.value.incomeGapPercentage == 0.0
    ensures r.Ok? ==> (r.value.onTrack <==> r.value.sustainableAnnualIncome >= desiredRetirementIncome)
    ensures r.Ok? ==> (r.value.onTrack <==> r.value.incomeGap <= 0.0)
  {
    var yearsUntilRetirement := retirementAge - currentAge;
    var retirementYears := lifeExpectancy - retirementAge;
    match PowInt(1.0 + expectedReturn, yearsUntilRetirement)
    case Err(e) => Err(e)
    case Ok(growth) =>
      var futureValueCurrentSavings := currentSavings * growth;
      var monthlyReturn := expectedReturn / 12.0;
      var monthsUntilRetirement := yearsUntilRetirement * 12;
      var futureValueContributions := ContributionsValue(monthlyContribution, monthlyReturn, monthsUntilRetirement);
      var projectedSavings := futureValueCurrentSavings + futureValueContributions;
      var sustainableAnnualIncome := projectedSavings * SustainableWithdrawalRate;
      var incomeGap := desiredRetirementIncome - sustainableAnnualIncome;
      var incomeGapPercentage := if desiredRetirementIncome > 0.0 then incomeGap / desiredRetirementIncome * 100.0 else 0.0;
      var onTrack := sustainableAnnualIncome >= desiredRetirementIncome;
      Ok(RetirementAnalysis(yearsUntilRetirement, retirementYears, projectedSavings,
                            sustainableAnnualIncome, incomeGap, incomeGapPercentage, onTrack))
  }

  /** With a positive return the contribution term is what depositing the
      contribution every month and compounding monthly accumulates. */
  lemma ContributionsAreMonthlyDeposits(monthlyContribution: real, expectedReturn: real, years: nat)
    requires expectedReturn > 0.0
    ensures ContributionsValue(monthlyContribution, expectedReturn / 12.0, years * 12)
            == Compound(0.0, 1.0 + expectedReturn / 12.0, monthlyContribution, years * 12)
  {
    var monthlyReturn := expectedReturn / 12.0;
    var growth := Pow(1.0 + monthlyReturn, years * 12);
    CompoundAnnuity(0.0, monthlyReturn, monthlyContribution, years * 12);
    assert ContributionsValue(monthlyContribution, monthlyReturn, years * 12)
           == monthlyContribution * ((growth - 1.0) / monthlyReturn);
  }

  /** Retirement projection for a positive return: savings compounded yearly
      plus the monthly deposits compounded monthly, and 4% of that per year. */
  lemma RetirementProjection(currentAge: int, retirementAge: int, lifeExpectancy: int,
                             currentSavings: real, monthlyContribution: real,
                             expectedReturn: real, desiredRetirementIncome: real)
    requires retirementAge >= currentAge && expectedReturn > 0.0
    ensures var r := AnalyzeRetirementReadiness(currentAge, retirementAge, lifeExpectancy, currentSavings,
                                                monthlyContribution, expectedReturn, desiredRetirementIncome);
            var years := retirementAge - currentAge;
            && r.Ok?
            && r.value.projectedSavings
               == currentSavings * Pow(1.0 + expectedReturn, years)
                  + Compound(0.0, 1.0 + expectedReturn / 12.0, monthlyContribution, years * 12)
  {
    ProjectedSavingsAhead(currentAge, retirementAge, lifeExpectancy, currentSavings,
                          monthlyContribution, expectedReturn, desiredRetirementIncome);
    ContributionsAreMonthlyDeposits(monthlyContribution, expectedReturn, retirementAge - currentAge);
  }

  /** Before retirement the projection is the savings compounded yearly plus
      the contribution term. */
  lemma ProjectedSavingsAhead(currentAge: int, retirementAge: int, lifeExpectancy: int,
                              currentSavings: real, monthlyContribution: real,
                              expectedReturn: real, desiredRetirementIncome: real)
    requires retirementAge >= currentAge
    ensures var r := AnalyzeRetirementReadiness(currentAge, retirementAge, lifeExpectancy, currentSavings,
                                                monthlyContribution, expectedReturn, desiredRetirementIncome);
            var years := retirementAge - currentAge;
            && r.Ok?
            && r.value.projectedSavings
               == currentSavings * Pow(1.0 + expectedReturn, years)
                  + ContributionsValue(monthlyContribution, expectedReturn / 12.0, years * 12)
  {
    var years := retirementAge - currentAge;
    assert PowInt(1.0 + expectedReturn, years) == Ok(Pow(1.0 + expectedReturn, years));
  }

  // ---------------------------------------------------------------------------
  // Mortgage affordability

  datatype PriceRange = PriceRange(
    homePrice: int,
    monthlyPayment: real,
    affordable: bool,
    mortgage: real,
    propertyTax: real,
    insurance: real,
    pmi: real)

  datatype MortgageAffordability = MortgageAffordability(
    maxHousingPayment: real,
    maxAffordablePrice: int,
    priceRanges: seq<PriceRange>)

  /** Spacing of the sampled home prices and the number of samples. */
  const PriceStep: int := 50000
  const PriceSamples: nat := 15

  function Min(a: real, b: real): (m: real)
    ensures m <= a && m <= b && (m == a || m == b)
  {
    if a <= b then a else b
  }

  /** The 28/36 rule: housing may take 28% of gross monthly income, and all
      debt including housing 36%; the smaller bound governs. */
  function MaxHousingPayment(income: real, debt: real): (m: real)
    ensures m <= income / 12.0 * 0.28
    ensures m <= income / 12.0 * 0.36 - debt
    ensures m == income / 12.0 * 0.28 || m == income / 12.0 * 0.36 - debt
  {
    var monthlyIncome := income / 12.0;
    Min(monthlyIncome * 0.28, monthlyIncome * 0.36 - debt)
  }

  /** The sampled home prices among the first `k` multiples of 50,000 that
      leave a positive loan after the down payment, in increasing order. */
  function PricePoints(downPayment: real, k: nat): seq<int>
  {
    if k == 0 then []
    else PricePoints(downPayment, k - 1)
         + if ((k * PriceStep) as real) > downPayment then [k * PriceStep] else []
  }

  /** The sweep's prices are strictly increasing multiples of 50,000 between
      50,000 and `k * 50,000`, at most `k` of them, and exactly those that
      exceed the down payment. */
  lemma {:induction false} PricePointsShape(downPayment: real, k: nat)
    ensures var points := PricePoints(downPayment, k);
            && |points| <= k
            && (forall i :: 0 <= i < |points| ==>
                  points[i] % PriceStep == 0 && PriceStep <= points[i] <= k * PriceStep
                  && (points[i] as real) > downPayment)
            && (forall i, j :: 0 <= i < j < |points| ==> points[i] < points[j])
            && (forall m :: 1 <= m <= k && ((m * PriceStep) as real) > downPayment ==> m * PriceStep in points)
  {
    if k > 0 {
      PricePointsShape(downPayment, k - 1);
      var previous := PricePoints(downPayment, k - 1);
      assert forall i :: 0 <= i < |previous| ==> previous[i] <= (k - 1) * PriceStep;
      assert (k * PriceStep) % PriceStep == 0;
    }
  }

  /** How the sweep prices one sampled home: the monthly payment is mortgage
      plus property tax plus insurance plus PMI, PMI is charged when the down
      payment is under 20% of the price, and the home is affordable when the
      payment fits the housing budget. */
  predicate PricedAsSwept(e: PriceRange, downPayment: real, interestRate: real, termYears: int,
                          propertyTaxRate: real, insurance: real, pmiRate: real, maxHousingPayment: real)
  {
    var price := e.homePrice as real;
    var loanAmount := price - downPayment;
    && price > 0.0
    && DataProcessing.CalculateLoanPayment(loanAmount, interestRate, termYears) == Ok(e.mortgage)
    && e.propertyTax == price * propertyTaxRate / 12.0
    && e.insurance == insurance
    && e.pmi == (if downPayment / price < 0.2 then loanAmount * pmiRate / 12.0 else 0.0)
    && e.monthlyPayment == e.mortgage + e.propertyTax + e.insurance + e.pmi
    && (e.affordable <==> e.monthlyPayment <= maxHousingPayment)
  }

  /** `maxPrice` is the highest affordable price among the rows, or 0 if none is affordable. */
  predicate IsMaxAffordable(maxPrice: int, rows: seq<PriceRange>)
  {
    && (forall j :: 0 <= j < |rows| && rows[j].affordable ==> rows[j].homePrice <= maxPrice)
    && ((exists j :: 0 <= j < |rows| && rows[j].affordable && rows[j].homePrice == maxPrice)
        || (maxPrice == 0 && forall j :: 0 <= j < |rows| ==> !rows[j].affordable))
  }

  /** Prices one sampled home above the down payment, failing where the
      mortgage payment is undefined. */
  function PriceHome(homePrice: int, downPayment: real, interestRate: real, termYears: int,
                     propertyTaxRate: real, insurance: real, pmiRate: real, maxHousingPayment: real): (r: Result<PriceRange>)
    requires homePrice > 0 && (homePrice as real) > downPayment
    ensures r.Err? <==> DataProcessing.LoanPaymentUndefined(interestRate, termYears)
    ensures r.Ok? ==> r.value.homePrice == homePrice
    ensures r.Ok? ==> PricedAsSwept(r.value, downPayment, interestRate, termYears,
                                    propertyTaxRate, insurance, pmiRate, maxHousingPayment)
  {
    var price := homePrice as real;
    var loanAmount := price - downPayment;
    var pmiRequired := downPayment / price < 0.2;
    var monthlyPmi := if pmiRequired then loanAmount * pmiRate / 12.0 else 0.0;
    match DataProcessing.CalculateLoanPayment(loanAmount, interestRate, termYears)
    case Err(e) => Err(e)
    case Ok(monthlyMortgage) =>
      var monthlyTax := price * propertyTaxRate / 12.0;
      var monthlyTotal := monthlyMortgage + monthlyTax + insurance + monthlyPmi;
      Ok(PriceRange(homePrice, monthlyTotal, monthlyTotal <= maxHousingPayment,
                    monthlyMortgage, monthlyTax, insurance, monthlyPmi))
  }

  /** Appending a dearer home keeps the running maximum of affordable prices. */
  lemma MaxAffordableExtend(maxPrice: int, rows: seq<PriceRange>, entry: PriceRange)
    requires IsMaxAffordable(maxPrice, rows)
    requires entry.homePrice > 0
    requires forall j :: 0 <= j < |rows| ==> rows[j].homePrice < entry.homePrice
    ensures IsMaxAffordable(if entry.affordable then entry.homePrice else maxPrice, rows + [entry])
  {
    var rows' := rows + [entry];
    assert rows'[|rows|] == entry;
    assert forall j :: 0 <= j < |rows| ==> rows'[j] == rows[j];
    if entry.affordable {
      assert rows'[|rows|].affordable && rows'[|rows|].homePrice == entry.homePrice;
    }
  }

  /** `analyze_mortgage_affordability`: sweeps 15 home prices, prices each one
      and keeps the highest affordable price. Fails with ZeroDivisionError as
      soon as one price needs a mortgage payment that is undefined. */
  method AnalyzeMortgageAffordability(income: real, debt: real, downPayment: real, interestRate: real,
                                      termYears: int, propertyTaxRate: real := 0.01,
                                      insurance: real := 100.0, pmiRate: real := 0.005)
    returns (r: Result<MortgageAffordability>)
    ensures r.Err? <==>
              PricePoints(downPayment, PriceSamples) != [] && DataProcessing.LoanPaymentUndefined(interestRate, termYears)
    ensures r.Ok? ==> r.value.maxHousingPayment == MaxHousingPayment(income, debt)
    ensures r.Ok? ==> |r.value.priceRanges| == |PricePoints(downPayment, PriceSamples)|
    ensures r.Ok? ==>
              forall i :: 0 <= i < |r.value.priceRanges| ==>
                && r.value.priceRanges[i].homePrice == PricePoints(downPayment, PriceSamples)[i]
                && PricedAsSwept(r.value.priceRanges[i], downPayment, interestRate, termYears,
                                 propertyTaxRate, insurance, pmiRate, r.value.maxHousingPayment)
    ensures r.Ok? ==> IsMaxAffordable(r.value.maxAffordablePrice, r.value.priceRanges)
  {
    var monthlyIncome := income / 12.0;
    var frontEndMax := monthlyIncome * 0.28;
    var backEndMax := monthlyIncome * 0.36 - debt;
    var maxHousingPayment := Min(frontEndMax, backEndMax);
    var priceRanges: seq<PriceRange> := [];
    var maxPrice := 0;
    var priceMultiple := 1;
    while priceMultiple <= PriceSamples
      invariant 1 <= priceMultiple <= PriceSamples + 1
      invariant |priceRanges| == |PricePoints(downPayment, priceMultiple - 1)|
      invariant forall i :: 0 <= i < |priceRanges| ==>
                  && priceRanges[i].homePrice == PricePoints(downPayment, priceMultiple - 1)[i]
                  && priceRanges[i].homePrice <= (priceMultiple - 1) * PriceStep
                  && PricedAsSwept(priceRanges[i], downPayment, interestRate, termYears,
                                   propertyTaxRate, insurance, pmiRate, maxHousingPayment)
      invariant IsMaxAffordable(maxPrice, priceRanges)
      invariant PricePoints(downPayment, priceMultiple - 1) != [] ==>
                  !DataProcessing.LoanPaymentUndefined(interestRate, termYears)
    {
      var homePrice := priceMultiple * PriceStep;
      var loanAmount := (homePrice as real) - downPayment;
      if loanAmount <= 0.0 {
        assert PricePoints(downPayment, priceMultiple) == PricePoints(downPayment, priceMultiple - 1);
        priceMultiple := priceMultiple + 1;
        continue;
      }
      assert PricePoints(downPayment, priceMultiple) == PricePoints(downPayment, priceMultiple - 1) + [homePrice];
      var priced := PriceHome(homePrice, downPayment, interestRate, termYears,
                              propertyTaxRate, insurance, pmiRate, maxHousingPayment);
      if priced.Err? {
        PricePointsPrefix(downPayment, priceMultiple, PriceSamples);
        return Err(priced.error);
      }
      var entry := priced.value;
      MaxAffordableExtend(maxPrice, priceRanges, entry);
      if entry.affordable {
        maxPrice := homePrice;
      }
      priceRanges := priceRanges + [entry];
      priceMultiple := priceMultiple + 1;
    }
    r := Ok(MortgageAffordability(maxHousingPayment, maxPrice, priceRanges));
  }

  /** A nonempty prefix of the sweep keeps the whole sweep nonempty. */
  lemma {:induction false} PricePointsPrefix(downPayment: real, k: nat, n: nat)
    requires k <= n && PricePoints(downPayment, k) != []
    ensures PricePoints(downPayment, n) != []
    decreases n - k
  {
    if k < n {
      PricePointsPrefix(downPayment, k + 1, n);
    }
  }

  // ---------------------------------------------------------------------------
  // Stock metrics

  /** One trading day of the one-year price history. */
  datatype PriceBar = PriceBar(high: real, low: real, close: real)

  datatype StockMetrics = StockMetrics(
    currentPrice: real,
    priceHigh52wk: real,
    priceLow52wk: real,
    return1mo: Option<real>,
    return3mo: Option<real>,
    return1yr: Option<real>)

  /** Trading-day offsets of the return windows. */
  const TradingDaysMonth: nat := 21
  const TradingDaysQuarter: nat := 63
  const TradingDaysYear: nat := 252

  function MaxHigh(history: seq<PriceBar>): (m: real)
    requires history != []
    ensures forall i :: 0 <= i < |history| ==> history[i].high <= m
    ensures exists i :: 0 <= i < |history| && history[i].high == m
  {
    if |history| == 1 then history[0].high
    else
      var rest := MaxHigh(history[1..]);
      assert forall i :: 1 <= i < |history| ==> history[i] == history[1..][i - 1];
      if history[0].high >= rest then history[0].high else rest
  }

  function MinLow(history: seq<PriceBar>): (m: real)
    requires history != []
    ensures forall i :: 0 <= i < |history| ==> m <= history[i].low
    ensures exists i :: 0 <= i < |history| && history[i].low == m
  {
    if |history| == 1 then history[0].low
    else
      var rest := MinLow(history[1..]);
      assert forall i :: 1 <= i < |history| ==> history[i] == history[1..][i - 1];
      if history[0].low <= rest then history[0].low else rest
  }

  /** Percentage change from `past` to `current`. */
  function PercentReturn(current: real, past: real): (p: real)
    requires past != 0.0
    ensures (p / 100.0 + 1.0) * past == current
  {
    (current / past - 1.0) * 100.0
  }

  /** The return of the last bar over the bar at `past`, None when the
      history is shorter than the window of `days` bars. */
  function WindowReturn(history: seq<PriceBar>, days: nat, past: nat): (r: Option<real>)
    requires history != [] && past < |history|
    requires |history| >= days ==> history[past].close != 0.0
    ensures r.Some? <==> |history| >= days
    ensures r.Some? ==> (r.value / 100.0 + 1.0) * history[past].close == history[|history| - 1].close
  {
    if |history| >= days then Some(PercentReturn(history[|history| - 1].close, history[past].close)) else None
  }

  /** The computed part of `get_stock_metrics`, given the one-year daily history. */
  function StockMetricsFromHistory(ticker: string, history: seq<PriceBar>): (r: Result<StockMetrics>)
    requires |history| >= TradingDaysMonth ==> history[|history| - TradingDaysMonth].close != 0.0
    requires |history| >= TradingDaysQuarter ==> history[|history| - TradingDaysQuarter].close != 0.0
    requires |history| >= TradingDaysYear ==> history[0].close != 0.0
    ensures r.Err? <==> history == []
    ensures r.Err? ==> r.error == NoHistoricalData(ticker)
    ensures r.Ok? ==> r.value.currentPrice == history[|history| - 1].close
    ensures r.Ok? ==> forall i :: 0 <= i < |history| ==>
                        r.value.priceLow52wk <= history[i].low && history[i].high <= r.value.priceHigh52wk
    ensures r.Ok? ==> exists i :: 0 <= i < |history| && history[i].high == r.value.priceHigh52wk
    ensures r.Ok? ==> exists i :: 0 <= i < |history| && history[i].low == r.value.priceLow52wk
    ensures r.Ok? ==> (r.value.return1mo.Some? <==> |history| >= TradingDaysMonth)
    ensures r.Ok? && r.value.return1mo.Some? ==>
              (r.value.return1mo.value / 100.0 + 1.0) * history[|history| - TradingDaysMonth].close == r.value.currentPrice
    ensures r.Ok? ==> (r.value.return3mo.Some? <==> |history| >= TradingDaysQuarter)
    ensures r.Ok? && r.value.return3mo.Some? ==>
              (r.value.return3mo.value / 100.0 + 1.0) * history[|history| - TradingDaysQuarter].close == r.value.currentPrice
    ensures r.Ok? ==> (r.value.return1yr.Some? <==> |history| >= TradingDaysYear)
    ensures r.Ok? && r.value.return1yr.Some? ==>
              (r.value.return1yr.value / 100.0 + 1.0) * history[0].close == r.value.currentPrice
  {
    if history == [] then Err(NoHistoricalData(ticker))
    else
      var n := |history|;
      Ok(StockMetrics(history[n - 1].close, MaxHigh(history), MinLow(history),
                      WindowReturn(history, TradingDaysMonth, if n >= TradingDaysMonth then n - TradingDaysMonth else 0),
                      WindowReturn(history, TradingDaysQuarter, if n >= TradingDaysQuarter then n - TradingDaysQuarter else 0),
                      WindowReturn(history, TradingDaysYear, 0)))
  }

  /** A short history with a zero close: no return window applies, so nothing
      is divided and only the price, high and low are reported. */
  lemma ShortHistoryWithZeroClose()
    ensures StockMetricsFromHistory("T", [PriceBar(1.0, 1.0, 0.0), PriceBar(2.0, 1.0, 2.0)])
            == Ok(StockMetrics(2.0, 2.0, 1.0, None, None, None))
  {
    var h := [PriceBar(1.0, 1.0, 0.0), PriceBar(2.0, 1.0, 2.0)];
    assert h[1..] == [PriceBar(2.0, 1.0, 2.0)];
  }

  // ---------------------------------------------------------------------------
  // Portfolio metrics

  datatype Holding = Holding(ticker: string, shares: real, costBasis: real)

  datatype HoldingData = HoldingData(
    ticker: string,
    shares: real,
    costBasis: real,
    latestPrice: real,
    currentValue: real,
    gainLoss: real,
    gainLossPct: real)

  datatype PortfolioMetrics = PortfolioMetrics(
    totalValue: real,
    totalCost: real,
    totalGainLoss: real,
    totalGainLossPct: real,
    holdingsData: seq<HoldingData>)

  /** The latest close for a ticker, None when the price source has none. */
  function LatestPrice(prices: map<string, Option<real>>, ticker: string): Option<real>
  {
    if ticker in prices then prices[ticker] else None
  }

  /** Gain or loss in percent of the cost, 0 when the cost is not positive. */
  function GainLossPct(gainLoss: real, cost: real): (p: real)
    ensures cost > 0.0 ==> p * cost == gainLoss * 100.0
    ensures cost <= 0.0 ==> p == 0.0
  {
    if cost > 0.0 then gainLoss / cost * 100.0 else 0.0
  }

  /** The breakdown row of one holding at its latest price. */
  function HoldingRow(h: Holding, latestPrice: real): HoldingData
  {
    var currentValue := h.shares * latestPrice;
    var totalCostBasis := h.shares * h.costBasis;
    var gainLoss := currentValue - totalCostBasis;
    HoldingData(h.ticker, h.shares, h.costBasis, latestPrice, currentValue, gainLoss, GainLossPct(gainLoss, totalCostBasis))
  }

  /** A breakdown row is consistent with the price source: its price is the
      ticker's latest price, its value is shares times that price, and its
      gain is measured against shares times the cost basis. */
  predicate Valued(row: HoldingData, prices: map<string, Option<real>>)
  {
    var cost := row.shares * row.costBasis;
    && LatestPrice(prices, row.ticker) == Some(row.latestPrice)
    && row.currentValue == row.shares * row.latestPrice
    && row.gainLoss == row.currentValue - cost
    && row.gainLossPct == GainLossPct(row.gainLoss, cost)
  }

  /** The row carries the ticker, shares and cost basis of one of the holdings. */
  predicate FromHolding(row: HoldingData, holdings: seq<Holding>)
  {
    Holding(row.ticker, row.shares, row.costBasis) in holdings
  }

  /** The rows of the holdings that have a price, in order; the others are skipped. */
  function PricedRows(holdings: seq<Holding>, prices: map<string, Option<real>>): (rows: seq<HoldingData>)
    ensures |rows| <= |holdings|
  {
    if holdings == [] then []
    else
      var rows := PricedRows(holdings[..|holdings| - 1], prices);
      var last := holdings[|holdings| - 1];
      match LatestPrice(prices, last.ticker)
      case None => rows
      case Some(price) => rows + [HoldingRow(last, price)]
  }

  /** Every row of the breakdown is valued at its ticker's latest price, and
      comes from a holding with the same ticker, shares and cost basis. */
  lemma {:induction false} PricedRowsAreValued(holdings: seq<Holding>, prices: map<string, Option<real>>)
    ensures forall j :: 0 <= j < |PricedRows(holdings, prices)| ==>
              && Valued(PricedRows(holdings, prices)[j], prices)
              && FromHolding(PricedRows(holdings, prices)[j], holdings)
  {
    if holdings != [] {
      var prefix := holdings[..|holdings| - 1];
      var last := holdings[|holdings| - 1];
      var rows := PricedRows(prefix, prices);
      PricedRowsAreValued(prefix, prices);
      assert forall j :: 0 <= j < |rows| ==> FromHolding(rows[j], holdings) by {
        forall j | 0 <= j < |rows| ensures FromHolding(rows[j], holdings) {
          var h := Holding(rows[j].ticker, rows[j].shares, rows[j].costBasis);
          assert h in prefix;
          assert h in holdings;
        }
      }
      if LatestPrice(prices, last.ticker).Some? {
        var row := HoldingRow(last, LatestPrice(prices, last.ticker).value);
        assert PricedRows(holdings, prices) == rows + [row];
        assert forall j :: 0 <= j < |rows| ==> (rows + [row])[j] == rows[j];
        assert Holding(row.ticker, row.shares, row.costBasis) == last;
      }
    }
  }

  /** The positions of the holdings whose ticker has a price, in increasing order. */
  function PricedIndices(holdings: seq<Holding>, prices: map<string, Option<real>>): (ix: seq<nat>)
    ensures forall i :: 0 <= i < |ix| ==> ix[i] < |holdings| && LatestPrice(prices, holdings[ix[i]].ticker).Some?
    ensures forall i, j :: 0 <= i < j < |ix| ==> ix[i] < ix[j]
    ensures forall c :: 0 <= c < |holdings| && LatestPrice(prices, holdings[c].ticker).Some? ==> c in ix
  {
    if holdings == [] then []
    else
      var prefix := holdings[..|holdings| - 1];
      var rest := PricedIndices(prefix, prices);
      assert forall c :: 0 <= c < |prefix| ==> prefix[c] == holdings[c];
      if LatestPrice(prices, holdings[|holdings| - 1].ticker).Some? then rest + [|holdings| - 1] else rest
  }

  /** The breakdown has one row per priced holding and no other, in the order
      of the holdings: row `j` is the holding at the `j`-th priced position,
      valued at its ticker's price. */
  lemma {:induction false} PricedRowsFollowHoldings(holdings: seq<Holding>, prices: map<string, Option<real>>)
    ensures |PricedRows(holdings, prices)| == |PricedIndices(holdings, prices)|
    ensures forall j :: 0 <= j < |PricedRows(holdings, prices)| ==>
              var c := PricedIndices(holdings, prices)[j];
              && c < |holdings|
              && LatestPrice(prices, holdings[c].ticker).Some?
              && PricedRows(holdings, prices)[j] == HoldingRow(holdings[c], LatestPrice(prices, holdings[c].ticker).value)
  {
    if holdings != [] {
      var prefix := holdings[..|holdings| - 1];
      var last := holdings[|holdings| - 1];
      PricedRowsFollowHoldings(prefix, prices);
      var rows', ix' := PricedRows(prefix, prices), PricedIndices(prefix, prices);
      var priced := LatestPrice(prices, last.ticker).Some?;
      assert PricedRows(holdings, prices) == if priced then rows' + [HoldingRow(last, LatestPrice(prices, last.ticker).value)] else rows';
      assert PricedIndices(holdings, prices) == if priced then ix' + [|holdings| - 1] else ix';
      PricedStep(holdings, prices, rows', ix', PricedRows(holdings, prices), PricedIndices(holdings, prices));
    }
  }

  /** The step of `PricedRowsFollowHoldings`: the rows of all but the last
      holding keep their places, and the last holding's row, if any, follows. */
  lemma PricedStep(holdings: seq<Holding>, prices: map<string, Option<real>>,
                   rows': seq<HoldingData>, ix': seq<nat>, rows: seq<HoldingData>, ix: seq<nat>)
    requires holdings != [] && |rows'| == |ix'|
    requires forall j :: 0 <= j < |rows'| ==>
               && ix'[j] < |holdings| - 1
               && LatestPrice(prices, holdings[..|holdings| - 1][ix'[j]].ticker).Some?
               && rows'[j] == HoldingRow(holdings[..|holdings| - 1][ix'[j]], LatestPrice(prices, holdings[..|holdings| - 1][ix'[j]].ticker).value)
    requires var last := holdings[|holdings| - 1];
             rows == if LatestPrice(prices, last.ticker).Some? then rows' + [HoldingRow(last, LatestPrice(prices, last.ticker).value)] else rows'
    requires ix == if LatestPrice(prices, holdings[|holdings| - 1].ticker).Some? then ix' + [|holdings| - 1] else ix'
    ensures |rows| == |ix|
    ensures forall j :: 0 <= j < |rows| ==>
              && ix[j] < |holdings|
              && LatestPrice(prices, holdings[ix[j]].ticker).Some?
              && rows[j] == HoldingRow(holdings[ix[j]], LatestPrice(prices, holdings[ix[j]].ticker).value)
  {
    var prefix := holdings[..|holdings| - 1];
    forall j | 0 <= j < |rows'|
      ensures rows[j] == rows'[j] && ix[j] == ix'[j] && prefix[ix'[j]] == holdings[ix'[j]]
    {
    }
  }

  /** Every holding whose ticker has a price gets its row in the breakdown,
      whatever the other holdings' prices. */
  lemma PricedHoldingHasRow(holdings: seq<Holding>, prices: map<string, Option<real>>, c: nat)
    requires c < |holdings| && LatestPrice(prices, holdings[c].ticker).Some?
    ensures HoldingRow(holdings[c], LatestPrice(prices, holdings[c].ticker).value) in PricedRows(holdings, prices)
  {
    PricedRowsFollowHoldings(holdings, prices);
    var ix := PricedIndices(holdings, prices);
    var j :| 0 <= j < |ix| && ix[j] == c;
    assert PricedRows(holdings, prices)[j] == HoldingRow(holdings[c], LatestPrice(prices, holdings[c].ticker).value);
  }

  /** When every ticker has a price, every holding gets a row, in order. */
  lemma {:induction false} AllPricedKeepsEveryHolding(holdings: seq<Holding>, prices: map<string, Option<real>>)
    requires forall i :: 0 <= i < |holdings| ==> LatestPrice(prices, holdings[i].ticker).Some?
    ensures var rows := PricedRows(holdings, prices);
            && |rows| == |holdings|
            && forall j :: 0 <= j < |rows| ==> rows[j].ticker == holdings[j].ticker
  {
    if holdings != [] {
      var prefix := holdings[..|holdings| - 1];
      assert forall i :: 0 <= i < |prefix| ==> prefix[i] == holdings[i];
      AllPricedKeepsEveryHolding(prefix, prices);
    }
  }

  /** When no ticker has a price, the breakdown is empty. */
  lemma {:induction false} NonePricedIsEmpty(holdings: seq<Holding>, prices: map<string, Option<real>>)
    requires forall i :: 0 <= i < |holdings| ==> LatestPrice(prices, holdings[i].ticker).None?
    ensures PricedRows(holdings, prices) == []
  {
    if holdings != [] {
      var prefix := holdings[..|holdings| - 1];
      assert forall i :: 0 <= i < |prefix| ==> prefix[i] == holdings[i];
      NonePricedIsEmpty(prefix, prices);
    }
  }

  function TotalValue(rows: seq<HoldingData>): real
  {
    if rows == [] then 0.0 else TotalValue(rows[..|rows| - 1]) + rows[|rows| - 1].currentValue
  }

  function TotalCost(rows: seq<HoldingData>): real
  {
    if rows == [] then 0.0 else TotalCost(rows[..|rows| - 1]) + rows[|rows| - 1].shares * rows[|rows| - 1].costBasis
  }

  /** One more holding adds its row when it has a price and nothing otherwise. */
  lemma PricedRowsStep(holdings: seq<Holding>, i: nat, prices: map<string, Option<real>>)
    requires i < |holdings|
    ensures PricedRows(holdings[..i + 1], prices)
            == match LatestPrice(prices, holdings[i].ticker)
               case None => PricedRows(holdings[..i], prices)
               case Some(price) => PricedRows(holdings[..i], prices) + [HoldingRow(holdings[i], price)]
  {
    assert holdings[..i + 1][..i] == holdings[..i];
  }

  lemma TotalsAppend(rows: seq<HoldingData>, row: HoldingData)
    ensures TotalValue(rows + [row]) == TotalValue(rows) + row.currentValue
    ensures TotalCost(rows + [row]) == TotalCost(rows) + row.shares * row.costBasis
  {
    assert (rows + [row])[..|rows|] == rows;
  }

  /** `calculate_portfolio_metrics`, with the latest price of each ticker given as data. */
  method CalculatePortfolioMetrics(holdings: seq<Holding>, prices: map<string, Option<real>>)
    returns (m: PortfolioMetrics)
    ensures m.holdingsData == PricedRows(holdings, prices)
    ensures m.totalValue == TotalValue(m.holdingsData)
    ensures m.totalCost == TotalCost(m.holdingsData)
    ensures m.totalGainLoss == m.totalValue - m.totalCost
    ensures m.totalCost > 0.0 ==> m.totalGainLossPct * m.totalCost == m.totalGainLoss * 100.0
    ensures m.totalCost <= 0.0 ==> m.totalGainLossPct == 0.0
    ensures holdings == [] ==> m == PortfolioMetrics(0.0, 0.0, 0.0, 0.0, [])
  {
    if holdings == [] {
      return PortfolioMetrics(0.0, 0.0, 0.0, 0.0, []);
    }
    var holdingsData: seq<HoldingData> := [];
    var totalValue := 0.0;
    var totalCost := 0.0;
    var i := 0;
    while i < |holdings|
      invariant 0 <= i <= |holdings|
      invariant holdingsData == PricedRows(holdings[..i], prices)
      invariant totalValue == TotalValue(holdingsData)
      invariant totalCost == TotalCost(holdingsData)
    {
      PricedRowsStep(holdings, i, prices);
      var holding := holdings[i];
      var price := LatestPrice(prices, holding.ticker);
      if price.None? {
        i := i + 1;
        continue;
      }
      var row := HoldingRow(holding, price.value);
      TotalsAppend(holdingsData, row);
      holdingsData := holdingsData + [row];
      totalValue := totalValue + row.currentValue;
      totalCost := totalCost + row.shares * row.costBasis;
      i := i + 1;
    }
    assert holdings[..i] == holdings;
    var totalGainLoss := totalValue - totalCost;
    m := PortfolioMetrics(totalValue, totalCost, totalGainLoss, GainLossPct(totalGainLoss, totalCost), holdingsData);
  }
}
