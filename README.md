# ArthaAI financial core in Dafny

ArthaAI is a personal-finance web application. Its arithmetic lives in three
Python files:

- `data_processing.py`: the budget summary, the investment-return closed form,
  the loan payment, the loan amortisation schedule and the keyword-based
  expense categoriser;
- `moneyanalyser.py`: net worth, the debt-to-income and emergency-fund ratios,
  the retirement-readiness projection, the mortgage-affordability sweep, the
  portfolio totals and the return windows of the stock metrics;
- `frontend.py`: the data series behind the investment-growth chart and the
  savings-goal progress chart.

This project models that arithmetic in Dafny over exact `real` numbers and
proves what the code promises.

Layout, one Dafny module per file:

- `wrappers.dfy` (`Wrappers`): `Option` stands for Python's `None`. `Result`
  stands for the exceptions and `{"error": ...}` dictionaries; its errors are
  ZeroDivisionError and missing market data.
- `dicts.dfy` (`Dicts`): Python dictionaries of amounts, kept as ordered
  association lists because the code depends on their iteration order.
- `finance_math.dfy` (`FinanceMath`): provides three things.
  - `Pow`, and `PowInt`, which is Python's `float ** int`. A negative exponent
    gives a reciprocal, and `0.0 ** -n` raises ZeroDivisionError.
  - The monthly recurrence `v := v * x + c` (`Compound`). It is shared by the
    loan balance and the growth chart.
  - The closed forms of `Compound`, proved by induction.
- `data_processing.dfy` (`DataProcessing`), `money_analyser.dfy`
  (`MoneyAnalyser`) and `frontend.dfy` (`Frontend`): one module per source
  file.

Pure Python functions become Dafny functions. Loops that append to lists or
accumulate totals become methods with loop invariants. Each such method is
proved against a specification function or predicate. These loops are the
amortisation schedule, the categoriser, the mortgage sweep, the portfolio
loop and both chart loops.

Main results:

- The amortisation schedule pays the loan off exactly. Its principal portions
  sum to the principal.
- The closed-form investment return equals month-by-month compounding for
  non-negative rates. The growth chart's last point therefore agrees with
  `calculate_investment_returns`.
- For negative rates the closed form and the growth chart disagree, and a
  concrete input shows it.
- The categoriser files each expense under the first matching category, so
  "gas" goes to Utilities. Its totals add up to the sum of all expenses.
- The mortgage sweep yields increasing multiples of 50,000 above the down
  payment. Its reported maximum is the highest affordable price sampled.

Market prices are inputs:

- The portfolio takes a map from ticker to latest close. A missing price is
  `None`.
- The stock metrics take the year of daily bars as a sequence.

## Model

| member | source | states |
|---|---|---|
| `Dicts.SumValuesAppend` | moneyanalyser.py:16 | the sum of the values of two concatenated maps is the sum of their sums |
| `Dicts.Get` | frontend.py:275 | `d.get(key, default)`: the default when the key is absent, otherwise a value stored under the key |
| `FinanceMath.PowInt` | data_processing.py:82 | Python `x ** e` for an int exponent: an error exactly when `x == 0` and `e < 0`; `x^e` for `e >= 0`; for `e < 0` the reciprocal of `x^-e` |
| `FinanceMath.PowIntIsOne` | data_processing.py:120 | a positive base other than 1 raised to a nonzero power is defined and never 1 |
| `FinanceMath.CompoundClosedForm` | data_processing.py:149-157 | after `k` steps of `v := v*x + c`, `(x-1)*v_k == (x-1)*v0*x^k + c*(x^k - 1)` |
| `FinanceMath.CompoundWithoutGrowth` | data_processing.py:88 | with no growth (`x == 1`) `k` steps just add `k*c` |
| `FinanceMath.CompoundAnnuity` | data_processing.py:82-88 | for a nonzero rate the recurrence equals `v0*(1+r)^k + c*((1+r)^k - 1)/r` |
| `DataProcessing.CalculateBudgetSummary` | data_processing.py:13-41 | total is the sum of the expenses; remaining is income minus total; savings rate is remaining/income·100, or 0 without positive income; an empty map gives 0, income and 100 (or 0) |
| `DataProcessing.CalculateInvestmentReturns` | data_processing.py:62-96 | fails only for `0.0 ** negative`; contribution is initial + monthly·months; earnings are final − contribution; for a non-positive rate the contributions are added without growth |
| `DataProcessing.InvestmentReturnsAreMonthlyCompounding` | data_processing.py:76-96 | for non-negative rate and term the result is exactly monthly compounding of the initial amount plus monthly deposits |
| `DataProcessing.CalculateLoanPayment` | data_processing.py:98-122 | fails exactly when the formula divides by zero; at a zero rate payment·n = principal; otherwise payment·((1+r)^n − 1) = principal·r·(1+r)^n |
| `DataProcessing.LoanPaymentDefined` | data_processing.py:110-122 | every loan with a positive term and a rate above −1200% has a payment |
| `DataProcessing.LoanPaymentDividesByZero` | data_processing.py:120 | a rate of −2400% over one year makes `(1+r)^12 == 1` and the formula divides by zero |
| `DataProcessing.Max0` | data_processing.py:165 | `max(0, x)` is non-negative and at least `x`, and it is one of the two |
| `DataProcessing.GenerateAmortizationSchedule` | data_processing.py:124-168 | fails exactly when the payment does; otherwise `years·12` rows (none for a non-positive term) forming a schedule for that payment |
| `DataProcessing.ScheduleRows` | data_processing.py:146-166 | rows numbered 1..n; each splits the payment into interest on the unclamped running balance and principal; the reported balance is that balance after the payment, clamped at 0 |
| `DataProcessing.ScheduleExtend` | data_processing.py:149-166 | one more pass of the loop body appends the row for the next month and keeps the running balance equal to the recurrence one step further |
| `DataProcessing.BalanceClosedForm` | data_processing.py:149-157 | the running balance after `k` payments satisfies `r*b_k == r*P*(1+r)^k - payment*((1+r)^k - 1)` |
| `DataProcessing.SchedulePrincipalTelescopes` | data_processing.py:149-166 | the principal portions of a schedule sum to principal minus the running balance |
| `DataProcessing.LoanPaidOff` | data_processing.py:117-120 | with the computed payment the running balance after the last payment is exactly 0 |
| `DataProcessing.ScheduleRepaysPrincipal` | data_processing.py:137-166 | a full schedule ends with balance 0 and its principal portions sum to the principal |
| `DataProcessing.ToLower` | data_processing.py:201 | lowercasing keeps the length |
| `DataProcessing.ContainsIsSubstring` | data_processing.py:211 | the model of `keyword in text` holds exactly when the keyword occurs at some position of the text |
| `DataProcessing.FirstMatch` | data_processing.py:209-218 | the category chosen from `k` on matches, no category between `k` and it matches, and "Other" means none from `k` on does |
| `DataProcessing.CategoryOfIsFirstMatch` | data_processing.py:209-218 | the chosen category has a keyword occurring in the description and no earlier category has one |
| `DataProcessing.GasIsUtilities` | data_processing.py:182-185 | "gas" is filed under Utilities, not Transportation |
| `DataProcessing.CategoryNamesFollowTable` | data_processing.py:181-196 | the result keys are the table's categories in the table's order, followed by "Other" |
| `DataProcessing.Totals` | data_processing.py:195-218 | one non-negative total per category and "Other" |
| `DataProcessing.KeepPositive` | data_processing.py:221 | every kept entry has a positive value and every positive total is kept under its own name |
| `DataProcessing.PositiveIndices` | data_processing.py:221 | the positions of the positive totals: each points at a positive total, they strictly increase, and every positive total's position is among them |
| `DataProcessing.KeepPositiveInOrder` | data_processing.py:221 | the kept entries are exactly `(name, total)` at the positive positions, in the order of the names |
| `DataProcessing.CategorizeExpenses` | data_processing.py:170-221 | the categoriser's loops produce the positive per-category totals of the expenses (amount ≤ 0, by absolute value), income skipped |
| `DataProcessing.TotalsSum` | data_processing.py:199-218 | every expense is counted in exactly one category: the totals sum to the total expense |
| `DataProcessing.KeepPositiveSum` | data_processing.py:221 | dropping the zero totals does not change their sum |
| `DataProcessing.CategorizedExpenses` | data_processing.py:195-221 | result keys are among the ten categories and "Other", values are positive and sum to the total of the expenses |
| `MoneyAnalyser.OptionalTotal` | moneyanalyser.py:16-17 | a missing map totals 0, otherwise the sum of its values |
| `MoneyAnalyser.CalculateNetWorth` | moneyanalyser.py:5-20 | the two totals and net worth equal to assets minus liabilities |
| `MoneyAnalyser.NetWorthExample` | moneyanalyser.py:16-20 | `({"cash": 1000}, {"loan": 400})` gives `(600, 1000, 400)` |
| `MoneyAnalyser.NetWorthAddAsset` | moneyanalyser.py:16-20 | recording one more asset raises net worth by its value |
| `MoneyAnalyser.DebtToIncomeRatio` | moneyanalyser.py:22-36 | None exactly when income ≤ 0; otherwise ratio·income = debt payments |
| `MoneyAnalyser.EmergencyFundRatio` | moneyanalyser.py:38-52 | None exactly when expenses ≤ 0; otherwise ratio·expenses = fund |
| `MoneyAnalyser.AnalyzeRetirementReadiness` | moneyanalyser.py:54-118 | error only for `0.0 ** negative`; the two year spans; the no-growth contribution term for a non-positive return; income at the 4% rule; gap; gap percentage (0 without a positive desired income); on track iff sustainable ≥ desired, iff gap ≤ 0 |
| `MoneyAnalyser.ContributionsAreMonthlyDeposits` | moneyanalyser.py:83-90 | for a positive return the contribution term is monthly deposits compounded monthly |
| `MoneyAnalyser.RetirementProjection` | moneyanalyser.py:80-93 | for a positive return, projected savings are savings compounded yearly plus monthly compounded deposits |
| `MoneyAnalyser.Min` | moneyanalyser.py:148 | `min(a, b)` is below both and is one of them |
| `MoneyAnalyser.MaxHousingPayment` | moneyanalyser.py:139-148 | the 28/36 rule: at most 28% of monthly income and at most 36% minus debt, and equal to one of them |
| `MoneyAnalyser.PricePointsShape` | moneyanalyser.py:158-165 | the sampled prices increase strictly, are multiples of 50,000 from 50,000 to 750,000, are at most 15, and are exactly those above the down payment |
| `MoneyAnalyser.PricePointsPrefix` | moneyanalyser.py:158-165 | if some early price is sampled, the full sweep is not empty |
| `MoneyAnalyser.PriceHome` | moneyanalyser.py:167-195 | one home's entry: mortgage payment, tax, insurance, PMI under 20% down, their total and affordability; fails exactly when the mortgage payment is undefined |
| `MoneyAnalyser.MaxAffordableExtend` | moneyanalyser.py:197-199 | appending a dearer entry keeps the running maximum affordable price |
| `MoneyAnalyser.AnalyzeMortgageAffordability` | moneyanalyser.py:120-209 | fails exactly when some price is sampled and the mortgage payment is undefined; otherwise the housing budget, one entry per sampled price in order priced as above, and the highest affordable price or 0 |
| `MoneyAnalyser.MaxHigh` | moneyanalyser.py:238 | the 52-week high is at least every bar's high and is one of them |
| `MoneyAnalyser.MinLow` | moneyanalyser.py:239 | the 52-week low is at most every bar's low and is one of them |
| `MoneyAnalyser.PercentReturn` | moneyanalyser.py:244 | `(current/past − 1)·100` turns `past` into `current` |
| `MoneyAnalyser.WindowReturn` | moneyanalyser.py:242-260 | a window's return exists exactly when the history is long enough and relates the last close to the close at its start; the start close is needed only when the window applies |
| `MoneyAnalyser.StockMetricsFromHistory` | moneyanalyser.py:228-260 | an empty history is an error; high, low and current price; 1-month, 3-month and 1-year returns present exactly for at least 21, 63 and 252 bars, measured from `close[n-21]`, `close[n-63]` and `close[0]`; only those divisor closes must be nonzero, and only when their window applies |
| `MoneyAnalyser.ShortHistoryWithZeroClose` | moneyanalyser.py:234-260 | a two-bar history with a zero close reports price 2, high 2, low 1 and no returns |
| `MoneyAnalyser.GainLossPct` | moneyanalyser.py:334 | gain percentage of cost, or 0 when the cost is not positive |
| `MoneyAnalyser.PricedRows` | moneyanalyser.py:316-349 | the breakdown rows: at most one row per holding |
| `MoneyAnalyser.PricedRowsAreValued` | moneyanalyser.py:316-349 | every row carries its ticker's latest price, value = shares·price, gain measured against shares·cost basis, and comes from a holding |
| `MoneyAnalyser.AllPricedKeepsEveryHolding` | moneyanalyser.py:316-349 | when every ticker has a price, every holding has a row, in order |
| `MoneyAnalyser.NonePricedIsEmpty` | moneyanalyser.py:325-326 | when no ticker has a price, there are no rows |
| `MoneyAnalyser.PricedIndices` | moneyanalyser.py:316-327 | the positions of the holdings that have a price: each is priced, they strictly increase, and every priced holding's position is among them |
| `MoneyAnalyser.PricedRowsFollowHoldings` | moneyanalyser.py:316-349 | for any mix of priced and unpriced holdings there is one row per priced holding and no other, in holding order, each the holding valued at its ticker's price |
| `MoneyAnalyser.PricedHoldingHasRow` | moneyanalyser.py:316-349 | every holding whose ticker has a price has its row in the breakdown, whatever the other prices |
| `MoneyAnalyser.CalculatePortfolioMetrics` | moneyanalyser.py:291-365 | rows of the priced holdings only; totals summed over those rows; total gain = value − cost; percentage 0 when the cost is not positive; no holdings give all zeros |
| `Frontend.InvestmentGrowthData` | frontend.py:106-139 | years+1 points; point `y` is the value after `12·y` monthly steps, the contributions so far and their difference |
| `Frontend.ContributionsNeverFall` | frontend.py:124-128 | with non-negative deposits the contributions line never falls |
| `Frontend.GrowthChartEndsAtInvestmentReturns` | frontend.py:124-139 | for a non-negative rate and term the last point equals the final amount, contribution and earnings of `calculate_investment_returns` |
| `Frontend.GrowthChartDisagreesAtNegativeRate` | frontend.py:124-128 | at a rate of −1200% the chart shows 1 where `calculate_investment_returns` reports 12 |
| `Frontend.GoalPercentage` | frontend.py:276 | percentage·target = current·100 for a positive target, otherwise 0 |
| `Frontend.GoalProgressData` | frontend.py:258-281 | nothing when either map is empty; otherwise one entry per goal in order, with its target, the saved amount (0 if missing) and the percentage |

## Left out

- Fetching market data is replaced by input data: `fetch_stock_data` and the `yf.Ticker(...).history` calls. The stock history is a sequence of bars, and the portfolio prices are a map from ticker to an optional latest close.
- A price-source exception inside the portfolio loop sends the whole call to its `{"error": ...}` branch. The model treats a failed fetch as a missing price.
- The stock metadata from `info` is not modelled: company name, P/E ratio and dividend yield.
- `format_currency` is not modelled: it is string formatting with float rounding.
- Plotly figure construction and every other chart in `frontend.py` are not modelled.
- Floating-point rounding and overflow are not modelled: amounts are exact reals. `max(0, x)` is kept as written.
- Dictionaries are association lists (`Dicts.Dict`), and distinct keys are not enforced. A Python dict always has distinct keys, so the model is meant for lists without repeated keys. On a list with a repeated key, `SumValues` counts every entry and `Get` returns the first, while Python would keep only the last write.
- `ToLower` lowercases ASCII letters only. Python's full Unicode case mapping is not modelled.
- `StockMetricsFromHistory` requires the three closes it divides by to be nonzero: `close[n-21]` when there are at least 21 bars, `close[n-63]` when there are at least 63, and `close[0]` when there are at least 252. Dividing a float by a zero close gives an infinite return, which has no exact-real counterpart. Other closes, the last one included, may be zero.
- `AnalyzeRetirementReadiness` keeps negative year spans. A retirement age below the current age raises the growth factor to a negative power, and its only failure, `0.0 ** negative`, is modelled as an error.
- The retirement analysis, the mortgage sweep and the portfolio also catch exceptions generically. Only the exceptions exact arithmetic can raise are modelled, which means division by zero.
- Python lets `years`, the ages and `term_years` be floats. The model takes them as integers, as the code's docstrings describe them.
- The Streamlit pages, the sqlite persistence and the hosted-LLM assistant are not part of this model.
