/** Budget, loan and investment arithmetic and the keyword-based expense
    categoriser of `data_processing.py`. */
module DataProcessing {
  import opened Wrappers
  import opened Dicts
  import opened FinanceMath

  // ---------------------------------------------------------------------------
  // Budget summary

  datatype BudgetSummary = BudgetSummary(income: real, totalExpenses: real, remaining: real, savingsRate: real)

  /** `calculate_budget_summary`: totals the expenses and derives what remains
      and the savings rate in percent (0 when there is no positive income). */
  function CalculateBudgetSummary(income: real, expenses: Dict): (s: BudgetSummary)
    ensures s.income == income
    ensures s.totalExpenses == SumValues(expenses)
    ensures s.remaining == income - s.totalExpenses
    ensures income > 0.0 ==> s.savingsRate * income == s.remaining * 100.0
    ensures income <= 0.0 ==> s.savingsRate == 0.0
    ensures expenses == [] ==>
              s.totalExpenses == 0.0 && s.remaining == income
              && s.savingsRate == (if income > 0.0 then 100.0 else 0.0)
  {
    if expenses == [] then
      BudgetSummary(income, 0.0, income, if income > 0.0 then 100.0 else 0.0)
    else
      var totalExpenses := SumValues(expenses);
      var remaining := income - totalExpenses;
      BudgetSummary(income, totalExpenses, remaining,
                    if income > 0.0 then remaining / income * 100.0 else 0.0)
  }

  // ---------------------------------------------------------------------------
  // Investment returns (closed form)

  datatype InvestmentReturns = InvestmentReturns(finalAmount: real, totalContribution: real, totalEarnings: real)

  /** `calculate_investment_returns`: compound growth of the initial amount plus
      the future value of the monthly contributions. The annuity term is only
      used for a positive monthly rate; otherwise the contributions are simply
      added up. `0.0 ** months` with negative months raises ZeroDivisionError. */
  function CalculateInvestmentReturns(initial: real, monthly: real, years: int, rate: real): (r: Result<InvestmentReturns>)
    ensures r.Err? <==> rate == -12.0 && years < 0
    ensures r.Ok? ==> r.value.totalContribution == initial + monthly * ((years * 12) as real)
    ensures r.Ok? ==> r.value.totalEarnings == r.value.finalAmount - r.value.totalContribution
    ensures r.Ok? && rate <= 0.0 ==>
              r.value.finalAmount == initial * PowInt(1.0 + rate / 12.0, years * 12).value
                                     + monthly * ((years * 12) as real)
  {
    var monthlyRate := rate / 12.0;
    var months := years * 12;
    match PowInt(1.0 + monthlyRate, months)
    case Err(e) => Err(e)
    case Ok(growth) =>
      var finalAmount := FutureValue(initial, monthly, monthlyRate, months, growth);
      var totalContribution := initial + monthly * (months as real);
      Ok(InvestmentReturns(finalAmount, totalContribution, finalAmount - totalContribution))
  }

  /** The closed-form final amount for a given growth factor `(1 + r)^months`. */
  function FutureValue(initial: real, monthly: real, monthlyRate: real, months: int, growth: real): real
  {
    initial * growth
    + if monthlyRate > 0.0 then monthly * ((growth - 1.0) / monthlyRate)
      else monthly * (months as real)
  }

  /** For a non-negative rate and term the closed form is exactly what monthly
      compounding `v := v * (1 + rate/12) + monthly` gives after `years * 12` months. */
  lemma InvestmentReturnsAreMonthlyCompounding(initial: real, monthly: real, years: int, rate: real)
    requires years >= 0 && rate >= 0.0
    ensures var months := years * 12;
            var v := Compound(initial, 1.0 + rate / 12.0, monthly, months);
            var contributed := initial + monthly * (months as real);
            CalculateInvestmentReturns(initial, monthly, years, rate)
              == Ok(InvestmentReturns(v, contributed, v - contributed))
  {
    FinalAmountIsMonthlyCompounding(initial, monthly, years, rate);
  }

  lemma FinalAmountIsMonthlyCompounding(initial: real, monthly: real, years: int, rate: real)
    requires years >= 0 && rate >= 0.0
    ensures CalculateInvestmentReturns(initial, monthly, years, rate).Ok?
    ensures CalculateInvestmentReturns(initial, monthly, years, rate).value.finalAmount
            == Compound(initial, 1.0 + rate / 12.0, monthly, years * 12)
  {
    if rate == 0.0 {
      MonthlyCompoundingAtZeroRate(initial, monthly, years);
      assert 1.0 + rate / 12.0 == 1.0;
    } else {
      MonthlyCompoundingAtPositiveRate(initial, monthly, years, rate);
    }
  }

  lemma MonthlyCompoundingAtZeroRate(initial: real, monthly: real, years: int)
    requires years >= 0
    ensures CalculateInvestmentReturns(initial, monthly, years, 0.0).Ok?
    ensures CalculateInvestmentReturns(initial, monthly, years, 0.0).value.finalAmount
            == Compound(initial, 1.0, monthly, years * 12)
  {
    FinalAmountAtZeroRate(initial, monthly, years);
    CompoundWithoutGrowth(initial, monthly, years * 12);
    assert ((years * 12) as real) * monthly == monthly * ((years * 12) as real);
  }

  lemma MonthlyCompoundingAtPositiveRate(initial: real, monthly: real, years: int, rate: real)
    requires years >= 0 && rate > 0.0
    ensures CalculateInvestmentReturns(initial, monthly, years, rate).Ok?
    ensures CalculateInvestmentReturns(initial, monthly, years, rate).value.finalAmount
            == Compound(initial, 1.0 + rate / 12.0, monthly, years * 12)
  {
    FinalAmountAtPositiveRate(initial, monthly, years, rate);
    FutureValueIsCompound(initial, monthly, rate / 12.0, years * 12);
  }

  lemma FinalAmountAtPositiveRate(initial: real, monthly: real, years: int, rate: real)
    requires years >= 0
    ensures CalculateInvestmentReturns(initial, monthly, years, rate).Ok?
    ensures CalculateInvestmentReturns(initial, monthly, years, rate).value.finalAmount
            == FutureValue(initial, monthly, rate / 12.0, years * 12, Pow(1.0 + rate / 12.0, years * 12))
  {
    assert PowInt(1.0 + rate / 12.0, years * 12) == Ok(Pow(1.0 + rate / 12.0, years * 12));
  }

  lemma FinalAmountAtZeroRate(initial: real, monthly: real, years: int)
    requires years >= 0
    ensures CalculateInvestmentReturns(initial, monthly, years, 0.0).value.finalAmount
            == initial + monthly * ((years * 12) as real)
  {
    PowOfOne(years * 12);
  }

  /** For a positive monthly rate the closed form is the monthly recurrence. */
  lemma FutureValueIsCompound(initial: real, monthly: real, monthlyRate: real, months: nat)
    requires monthlyRate > 0.0
    ensures FutureValue(initial, monthly, monthlyRate, months, Pow(1.0 + monthlyRate, months))
            == Compound(initial, 1.0 + monthlyRate, monthly, months)
  {
    CompoundAnnuity(initial, monthlyRate, monthly, months);
  }

  // ---------------------------------------------------------------------------
  // Loan payment

  /** When `calculate_loan_payment` divides by zero: no payments at a zero rate,
      or a growth factor `(1 + r)^n` that is undefined or exactly 1. */
  predicate LoanPaymentUndefined(annualRate: real, years: int)
  {
    var monthlyRate := annualRate / 12.0;
    if monthlyRate == 0.0 then years * 12 == 0
    else
      var growth := PowInt(1.0 + monthlyRate, years * 12);
      growth.Err? || growth.value == 1.0
  }

  /** `calculate_loan_payment`: the fixed monthly annuity payment; at a zero rate
      the principal split evenly over the payments. */
  function CalculateLoanPayment(principal: real, annualRate: real, years: int): (r: Result<real>)
    ensures r.Err? <==> LoanPaymentUndefined(annualRate, years)
    ensures r.Ok? && annualRate == 0.0 ==> r.value * ((years * 12) as real) == principal
    ensures r.Ok? && annualRate != 0.0 ==>
              var monthlyRate := annualRate / 12.0;
              var growth := PowInt(1.0 + monthlyRate, years * 12).value;
              r.value * (growth - 1.0) == principal * monthlyRate * growth
  {
    var monthlyRate := annualRate / 12.0;
    var payments := years * 12;
    if monthlyRate == 0.0 then
      if payments == 0 then Err(ZeroDivisionError) else Ok(principal / (payments as real))
    else
      match PowInt(1.0 + monthlyRate, payments)
      case Err(e) => Err(e)
      case Ok(growth) =>
        if growth - 1.0 == 0.0 then Err(ZeroDivisionError)
        else Ok(principal * (monthlyRate * growth) / (growth - 1.0))
  }

  /** Every loan with a positive term and a rate above -1200% has a payment. */
  lemma LoanPaymentDefined(principal: real, annualRate: real, years: int)
    requires years > 0 && annualRate > -12.0
    ensures CalculateLoanPayment(principal, annualRate, years).Ok?
  {
    if annualRate != 0.0 {
      PowIntIsOne(1.0 + annualRate / 12.0, years * 12);
    }
  }

  /** A rate of -2400% makes `(1 + r)^12 == 1`, and the formula divides by zero. */
  lemma LoanPaymentDividesByZero()
    ensures CalculateLoanPayment(1000.0, -24.0, 1) == Err(ZeroDivisionError)
  {
    assert Pow(-1.0, 12) == 1.0;
  }

  // ---------------------------------------------------------------------------
  // Amortisation schedule

  datatype AmortizationRow = AmortizationRow(month: int, payment: real, principal: real, interest: real, remainingBalance: real)

  /** Python's `max(0, x)`. */
  function Max0(x: real): (m: real)
    ensures m >= 0.0 && m >= x && (m == x || m == 0.0)
  {
    if x >= 0.0 then x else 0.0
  }

  /** The unclamped running balance after `k` payments: each month the balance
      grows by its interest and the payment is taken off. */
  function Balance(principal: real, monthlyRate: real, payment: real, k: nat): real
  {
    Compound(principal, 1.0 + monthlyRate, -payment, k)
  }

  /** The rows of an amortisation schedule: numbered from 1, each payment split
      into interest on the running balance and principal, and the balance left
      after the payment reported clamped at zero. */
  predicate IsSchedule(rows: seq<AmortizationRow>, principal: real, monthlyRate: real, payment: real)
  {
    forall i :: 0 <= i < |rows| ==>
      && rows[i].month == i + 1
      && rows[i].payment == payment
      && rows[i].interest == Balance(principal, monthlyRate, payment, i) * monthlyRate
      && rows[i].principal + rows[i].interest == payment
      && rows[i].remainingBalance == Max0(Balance(principal, monthlyRate, payment, i + 1))
  }

  /** `generate_amortization_schedule`: one row per monthly payment. */
  method GenerateAmortizationSchedule(principal: real, annualRate: real, years: int)
    returns (r: Result<seq<AmortizationRow>>)
    ensures r.Err? <==> LoanPaymentUndefined(annualRate, years)
    ensures r.Ok? ==> |r.value| == (if years > 0 then years * 12 else 0)
    ensures r.Ok? ==>
              IsSchedule(r.value, principal, annualRate / 12.0,
                         CalculateLoanPayment(principal, annualRate, years).value)
  {
    var monthlyPayment :- CalculateLoanPayment(principal, annualRate, years);
    var schedule := ScheduleRows(principal, annualRate / 12.0, monthlyPayment, years * 12);
    return Ok(schedule);
  }

  /** The payment loop of `generate_amortization_schedule`, for months
      `1..payments` (none when `payments` is not positive). */
  method ScheduleRows(principal: real, monthlyRate: real, monthlyPayment: real, payments: int)
    returns (schedule: seq<AmortizationRow>)
    ensures |schedule| == (if payments > 0 then payments else 0)
    ensures IsSchedule(schedule, principal, monthlyRate, monthlyPayment)
  {
    schedule := [];
    var remainingBalance := principal;
    var month := 1;
    while month <= payments
      invariant 1 <= month && (payments >= 0 ==> month <= payments + 1)
      invariant payments < 0 ==> month == 1
      invariant |schedule| == month - 1
      invariant remainingBalance == Balance(principal, monthlyRate, monthlyPayment, month - 1)
      invariant IsSchedule(schedule, principal, monthlyRate, monthlyPayment)
    {
      var interestPayment := remainingBalance * monthlyRate;
      var principalPayment := monthlyPayment - interestPayment;
      ScheduleExtend(schedule, principal, monthlyRate, monthlyPayment, remainingBalance);
      remainingBalance := remainingBalance - principalPayment;
      schedule := schedule + [AmortizationRow(month, monthlyPayment, principalPayment, interestPayment, Max0(remainingBalance))];
      month := month + 1;
    }
  }

  /** One payment extends a schedule: the row for the next month, taken at the
      running balance, keeps it a schedule and moves the balance on one month. */
  lemma ScheduleExtend(rows: seq<AmortizationRow>, principal: real, monthlyRate: real, payment: real, balance: real)
    requires IsSchedule(rows, principal, monthlyRate, payment)
    requires balance == Balance(principal, monthlyRate, payment, |rows|)
    ensures var interest := balance * monthlyRate;
            var next := balance - (payment - interest);
            && next == Balance(principal, monthlyRate, payment, |rows| + 1)
            && IsSchedule(rows + [AmortizationRow(|rows| + 1, payment, payment - interest, interest, Max0(next))],
                          principal, monthlyRate, payment)
  {
    var interest := balance * monthlyRate;
    var next := balance - (payment - interest);
    BalanceStep(principal, monthlyRate, payment, |rows|);
    StepIsCompound(balance, monthlyRate, payment);
    assert next == Balance(principal, monthlyRate, payment, |rows| + 1);
    ScheduleAppend(rows, AmortizationRow(|rows| + 1, payment, payment - interest, interest, Max0(next)),
                   principal, monthlyRate, payment);
  }

  /** A row that fits the next month extends a schedule. */
  lemma ScheduleAppend(rows: seq<AmortizationRow>, row: AmortizationRow, principal: real, monthlyRate: real, payment: real)
    requires IsSchedule(rows, principal, monthlyRate, payment)
    requires row.month == |rows| + 1 && row.payment == payment
    requires row.interest == Balance(principal, monthlyRate, payment, |rows|) * monthlyRate
    requires row.principal + row.interest == payment
    requires row.remainingBalance == Max0(Balance(principal, monthlyRate, payment, |rows| + 1))
    ensures IsSchedule(rows + [row], principal, monthlyRate, payment)
  {
    assert forall i :: 0 <= i < |rows| ==> (rows + [row])[i] == rows[i];
  }

  /** Taking off the principal portion is one step of the balance recurrence. */
  lemma StepIsCompound(balance: real, monthlyRate: real, payment: real)
    ensures balance - (payment - balance * monthlyRate) == balance * (1.0 + monthlyRate) - payment
  {
  }

  /** Sum of the principal portions of the rows. */
  function SumPrincipal(rows: seq<AmortizationRow>): real
  {
    if rows == [] then 0.0 else SumPrincipal(rows[..|rows| - 1]) + rows[|rows| - 1].principal
  }

  /** The principal portions of a schedule telescope: together they pay off
      exactly the difference between the original and the running balance. */
  lemma SchedulePrincipalTelescopes(rows: seq<AmortizationRow>, principal: real, monthlyRate: real, payment: real)
    requires IsSchedule(rows, principal, monthlyRate, payment)
    ensures SumPrincipal(rows) == principal - Balance(principal, monthlyRate, payment, |rows|)
  {
    var balances := seq(|rows| + 1, i requires 0 <= i <= |rows| => Balance(principal, monthlyRate, payment, i));
    forall i | 0 <= i < |rows|
      ensures rows[i].principal == balances[i] - balances[i + 1]
    {
      RowPrincipalIsDrop(rows, principal, monthlyRate, payment, i);
    }
    PrefixTelescopes(rows, balances, |rows|);
    assert rows[..|rows|] == rows;
  }

  /** Each principal portion is the drop of the running balance over its month. */
  lemma RowPrincipalIsDrop(rows: seq<AmortizationRow>, principal: real, monthlyRate: real, payment: real, i: nat)
    requires IsSchedule(rows, principal, monthlyRate, payment) && i < |rows|
    ensures rows[i].principal
            == Balance(principal, monthlyRate, payment, i) - Balance(principal, monthlyRate, payment, i + 1)
  {
    BalanceStep(principal, monthlyRate, payment, i);
  }

  /** Sums of drops telescope: over the first `k` rows the portions add up to
      the first balance minus the `k`-th. */
  lemma {:induction false} PrefixTelescopes(rows: seq<AmortizationRow>, balances: seq<real>, k: nat)
    requires |balances| == |rows| + 1 && k <= |rows|
    requires forall i :: 0 <= i < |rows| ==> rows[i].principal == balances[i] - balances[i + 1]
    ensures SumPrincipal(rows[..k]) == balances[0] - balances[k]
  {
    if k > 0 {
      PrefixTelescopes(rows, balances, k - 1);
      assert rows[..k][..k - 1] == rows[..k - 1];
    }
  }

  lemma BalanceStep(principal: real, monthlyRate: real, payment: real, n: nat)
    ensures Balance(principal, monthlyRate, payment, n + 1)
            == Balance(principal, monthlyRate, payment, n) * (1.0 + monthlyRate) - payment
  {
  }

  /** With the payment of `calculate_loan_payment`, the running balance is
      exactly zero after the last of the `years * 12` payments. */
  lemma LoanPaidOff(principal: real, annualRate: real, years: int)
    requires years > 0 && !LoanPaymentUndefined(annualRate, years)
    ensures Balance(principal, annualRate / 12.0, CalculateLoanPayment(principal, annualRate, years).value, years * 12) == 0.0
  {
    var payment := CalculateLoanPayment(principal, annualRate, years).value;
    var monthlyRate := annualRate / 12.0;
    if monthlyRate == 0.0 {
      PaidOffWithoutInterest(principal, payment, years * 12);
    } else {
      PaidOffWithInterest(principal, monthlyRate, payment, years * 12);
    }
  }

  lemma PaidOffWithoutInterest(principal: real, payment: real, n: nat)
    requires payment * (n as real) == principal
    ensures Balance(principal, 0.0, payment, n) == 0.0
  {
    CompoundWithoutGrowth(principal, -payment, n);
    assert (n as real) * -payment == -(payment * (n as real));
  }

  lemma PaidOffWithInterest(principal: real, monthlyRate: real, payment: real, n: nat)
    requires monthlyRate != 0.0
    requires payment * (Pow(1.0 + monthlyRate, n) - 1.0) == principal * monthlyRate * Pow(1.0 + monthlyRate, n)
    ensures Balance(principal, monthlyRate, payment, n) == 0.0
  {
    BalanceClosedForm(principal, monthlyRate, payment, n);
    BalanceVanishes(monthlyRate, Balance(principal, monthlyRate, payment, n), principal, Pow(1.0 + monthlyRate, n), payment);
  }

  /** The running balance in closed form: `r * B_k == r * P * (1+r)^k - payment * ((1+r)^k - 1)`. */
  lemma BalanceClosedForm(principal: real, monthlyRate: real, payment: real, k: nat)
    ensures monthlyRate * Balance(principal, monthlyRate, payment, k)
            == monthlyRate * principal * Pow(1.0 + monthlyRate, k) - payment * (Pow(1.0 + monthlyRate, k) - 1.0)
  {
    CompoundClosedForm(principal, 1.0 + monthlyRate, -payment, k);
    assert (1.0 + monthlyRate) - 1.0 == monthlyRate;
  }

  lemma BalanceVanishes(monthlyRate: real, balance: real, principal: real, growth: real, payment: real)
    requires monthlyRate != 0.0
    requires monthlyRate * balance == monthlyRate * principal * growth - payment * (growth - 1.0)
    requires payment * (growth - 1.0) == principal * monthlyRate * growth
    ensures balance == 0.0
  {
    assert monthlyRate * balance == 0.0;
  }

  /** A complete schedule ends with a zero balance and its principal portions
      add up to the amount borrowed. */
  lemma ScheduleRepaysPrincipal(rows: seq<AmortizationRow>, principal: real, annualRate: real, years: int)
    requires years > 0 && !LoanPaymentUndefined(annualRate, years)
    requires |rows| == years * 12
    requires IsSchedule(rows, principal, annualRate / 12.0, CalculateLoanPayment(principal, annualRate, years).value)
    ensures rows[|rows| - 1].remainingBalance == 0.0
    ensures SumPrincipal(rows) == principal
  {
    var payment := CalculateLoanPayment(principal, annualRate, years).value;
    LoanPaidOff(principal, annualRate, years);
    SchedulePrincipalTelescopes(rows, principal, annualRate / 12.0, payment);
  }

  // ---------------------------------------------------------------------------
  // Expense categoriser

  datatype Transaction = Transaction(amount: real, description: string)

  /** The keyword table, in the order in which categories are tried. */
  const CategoryKeywords: seq<(string, seq<string>)> := [
    ("Housing", ["rent", "mortgage", "hoa", "property tax"]),
    ("Utilities", ["electric", "gas", "water", "internet", "phone", "utility"]),
    ("Groceries", ["grocery", "groceries", "supermarket", "food"]),
    ("Transportation", ["gas", "fuel", "car", "auto", "transportation", "uber", "lyft", "taxi"]),
    ("Dining", ["restaurant", "cafe", "coffee", "dining", "doordash", "grubhub", "takeout"]),
    ("Entertainment", ["movie", "subscription", "netflix", "spotify", "entertainment"]),
    ("Shopping", ["amazon", "walmart", "target", "shopping", "clothes", "clothing"]),
    ("Health", ["doctor", "medical", "pharmacy", "health", "insurance", "dental", "vision"]),
    ("Education", ["school", "tuition", "book", "course", "education"]),
    ("Personal", ["haircut", "gym", "fitness", "personal"])
  ]

  /** The result keys in order: the table's categories, then "Other". */
  const CategoryNames: seq<string> :=
    ["Housing", "Utilities", "Groceries", "Transportation", "Dining",
     "Entertainment", "Shopping", "Health", "Education", "Personal", "Other"]

  /** The result keys are the table's category names in the table's order,
      followed by "Other". */
  lemma CategoryNamesFollowTable()
    ensures |CategoryNames| == |CategoryKeywords| + 1
    ensures forall i :: 0 <= i < |CategoryKeywords| ==> CategoryNames[i] == CategoryKeywords[i].0
    ensures CategoryNames[|CategoryKeywords|] == "Other"
  {
  }

  /** Index of "Other" in CategoryNames. */
  const OtherCategory: nat := |CategoryKeywords|

  /** `str.lower()` on ASCII letters. */
  function ToLower(s: string): (r: string)
    ensures |r| == |s|
  {
    seq(|s|, i requires 0 <= i < |s| => if 'A' <= s[i] <= 'Z' then (s[i] as int + 32) as char else s[i])
  }

  /** Python's `keyword in text` on strings. */
  function Contains(text: string, keyword: string): bool
  {
    keyword <= text || (text != [] && Contains(text[1..], keyword))
  }

  /** `keyword` occurs in `text` at some position. */
  ghost predicate IsSubstring(keyword: string, text: string)
  {
    exists i :: 0 <= i <= |text| && keyword <= text[i..]
  }

  lemma {:induction false} ContainsIsSubstring(text: string, keyword: string)
    ensures Contains(text, keyword) <==> IsSubstring(keyword, text)
  {
    assert text[0..] == text;
    if text != [] {
      ContainsIsSubstring(text[1..], keyword);
      assert forall i :: 0 <= i <= |text| - 1 ==> text[1..][i..] == text[i + 1..];
      if IsSubstring(keyword, text) && !(keyword <= text) {
        var i :| 0 <= i <= |text| && keyword <= text[i..];
        assert i > 0;
        assert keyword <= text[1..][i - 1..];
      }
    }
  }

  /** Some keyword of category `c` occurs in the (lowercased) description. */
  predicate Matches(c: nat, description: string)
  {
    c < |CategoryKeywords|
    && exists j :: 0 <= j < |CategoryKeywords[c].1| && Contains(description, CategoryKeywords[c].1[j])
  }

  /** The first category from `k` on that matches, or `OtherCategory`. */
  function FirstMatch(description: string, k: nat): (c: nat)
    requires k <= |CategoryKeywords|
    ensures k <= c <= OtherCategory
    ensures c < OtherCategory ==> Matches(c, description)
    ensures forall j :: k <= j < c ==> !Matches(j, description)
    decreases |CategoryKeywords| - k
  {
    if k == |CategoryKeywords| then OtherCategory
    else if Matches(k, description) then k
    else FirstMatch(description, k + 1)
  }

  /** The category a lowercased description is filed under: first match wins. */
  function CategoryOf(description: string): nat
  {
    FirstMatch(description, 0)
  }

  /** First match wins: the chosen category has a keyword in the description,
      no earlier category has one, and "Other" means that no category has one. */
  lemma CategoryOfIsFirstMatch(description: string)
    ensures var c := CategoryOf(description);
            && c <= OtherCategory
            && (c < OtherCategory ==>
                  exists j :: 0 <= j < |CategoryKeywords[c].1| && IsSubstring(CategoryKeywords[c].1[j], description))
            && (forall j, w :: 0 <= j < c && 0 <= w < |CategoryKeywords[j].1| ==>
                  !IsSubstring(CategoryKeywords[j].1[w], description))
  {
    var c := CategoryOf(description);
    forall j, w | 0 <= j <= c && j < |CategoryKeywords| && 0 <= w < |CategoryKeywords[j].1|
      ensures Contains(description, CategoryKeywords[j].1[w]) <==> IsSubstring(CategoryKeywords[j].1[w], description)
    {
      ContainsIsSubstring(description, CategoryKeywords[j].1[w]);
    }
  }

  /** "gas" is a Utilities keyword before it is a Transportation one. */
  lemma GasIsUtilities()
    ensures CategoryNames[CategoryOf("gas")] == "Utilities"
  {
    assert CategoryKeywords[1].1[1] == "gas";
    assert Contains("gas", "gas");
    assert Matches(1, "gas");
    assert CategoryKeywords[0].1 == ["rent", "mortgage", "hoa", "property tax"];
    assert !("hoa" <= "gas") by { assert "hoa"[0] != "gas"[0]; }
    assert !Contains("gas", "rent") && !Contains("gas", "mortgage") && !Contains("gas", "hoa") && !Contains("gas", "property tax") by {
      assert !Contains("", "rent") && !Contains("", "mortgage") && !Contains("", "hoa") && !Contains("", "property tax");
      assert !Contains("s", "rent") && !Contains("s", "mortgage") && !Contains("s", "hoa") && !Contains("s", "property tax");
      assert !Contains("as", "rent") && !Contains("as", "mortgage") && !Contains("as", "hoa") && !Contains("as", "property tax");
    }
    assert !Matches(0, "gas");
  }

  function Abs(x: real): real
  {
    if x < 0.0 then -x else x
  }

  /** The per-category totals after the given transactions: an expense
      (amount <= 0) adds its absolute value to its category, income is skipped. */
  function Totals(transactions: seq<Transaction>): (t: seq<real>)
    ensures |t| == |CategoryNames|
    ensures forall c :: 0 <= c < |t| ==> t[c] >= 0.0
  {
    if transactions == [] then seq(|CategoryNames|, _ => 0.0)
    else
      var t := Totals(transactions[..|transactions| - 1]);
      var last := transactions[|transactions| - 1];
      if last.amount <= 0.0 then
        var c := CategoryOf(ToLower(last.description));
        t[c := t[c] + Abs(last.amount)]
      else t
  }

  /** `{k: v for k, v in categories.items() if v > 0}`, in order. */
  function KeepPositive(names: seq<string>, totals: seq<real>): (r: Dict)
    requires |names| == |totals|
    ensures |r| <= |names|
    ensures forall i :: 0 <= i < |r| ==> r[i].1 > 0.0 && r[i].0 in names
    ensures forall c :: 0 <= c < |names| && totals[c] > 0.0 ==> (names[c], totals[c]) in r
  {
    if names == [] then []
    else
      var rest := KeepPositive(names[1..], totals[1..]);
      assert forall c :: 1 <= c < |names| ==> names[c] == names[1..][c - 1] && totals[c] == totals[1..][c - 1];
      if totals[0] > 0.0 then [(names[0], totals[0])] + rest else rest
  }

  /** The positions of the positive totals, in increasing order. */
  function PositiveIndices(totals: seq<real>): (ix: seq<nat>)
    ensures forall i :: 0 <= i < |ix| ==> ix[i] < |totals| && totals[ix[i]] > 0.0
    ensures forall i, j :: 0 <= i < j < |ix| ==> ix[i] < ix[j]
    ensures forall c :: 0 <= c < |totals| && totals[c] > 0.0 ==> c in ix
  {
    if totals == [] then []
    else
      var rest := PositiveIndices(totals[1..]);
      var shifted := seq(|rest|, i requires 0 <= i < |rest| => rest[i] + 1);
      var ix := if totals[0] > 0.0 then [0] + shifted else shifted;
      IndicesStepBounded(totals, rest, shifted, ix);
      IndicesStepIncreasing(totals, rest, shifted, ix);
      IndicesStepComplete(totals, rest, shifted, ix);
      ix
  }

  // The three steps of `PositiveIndices`: the positions in the tail move one
  // along, behind position 0 when its total is positive.

  lemma IndicesStepBounded(totals: seq<real>, rest: seq<nat>, shifted: seq<nat>, ix: seq<nat>)
    requires totals != []
    requires forall i :: 0 <= i < |rest| ==> rest[i] < |totals| - 1 && totals[1..][rest[i]] > 0.0
    requires |shifted| == |rest| && forall i :: 0 <= i < |rest| ==> shifted[i] == rest[i] + 1
    requires ix == if totals[0] > 0.0 then [0] + shifted else shifted
    ensures forall i :: 0 <= i < |ix| ==> ix[i] < |totals| && totals[ix[i]] > 0.0
  {
    forall i | 0 <= i < |shifted|
      ensures shifted[i] < |totals| && totals[shifted[i]] > 0.0
    {
      assert totals[shifted[i]] == totals[1..][rest[i]];
    }
    if totals[0] > 0.0 {
      assert forall i :: 0 < i < |ix| ==> ix[i] == shifted[i - 1];
    }
  }

  lemma IndicesStepIncreasing(totals: seq<real>, rest: seq<nat>, shifted: seq<nat>, ix: seq<nat>)
    requires totals != []
    requires forall i, j :: 0 <= i < j < |rest| ==> rest[i] < rest[j]
    requires |shifted| == |rest| && forall i :: 0 <= i < |rest| ==> shifted[i] == rest[i] + 1
    requires ix == if totals[0] > 0.0 then [0] + shifted else shifted
    ensures forall i, j :: 0 <= i < j < |ix| ==> ix[i] < ix[j]
  {
    if totals[0] > 0.0 {
      assert forall i :: 0 < i < |ix| ==> ix[i] == shifted[i - 1];
    }
  }

  lemma IndicesStepComplete(totals: seq<real>, rest: seq<nat>, shifted: seq<nat>, ix: seq<nat>)
    requires totals != []
    requires forall c :: 0 <= c < |totals| - 1 && totals[1..][c] > 0.0 ==> c in rest
    requires |shifted| == |rest| && forall i :: 0 <= i < |rest| ==> shifted[i] == rest[i] + 1
    requires ix == if totals[0] > 0.0 then [0] + shifted else shifted
    ensures forall c :: 0 <= c < |totals| && totals[c] > 0.0 ==> c in ix
  {
    forall c | 1 <= c < |totals| && totals[c] > 0.0
      ensures c in shifted
    {
      assert totals[1..][c - 1] > 0.0;
      var j :| 0 <= j < |rest| && rest[j] == c - 1;
      assert shifted[j] == c;
    }
  }

  /** The kept entries are exactly the positive totals under their own names,
      in the order of the names. */
  lemma {:induction false} KeepPositiveInOrder(names: seq<string>, totals: seq<real>)
    requires |names| == |totals|
    ensures |KeepPositive(names, totals)| == |PositiveIndices(totals)|
    ensures forall i :: 0 <= i < |KeepPositive(names, totals)| ==>
              PositiveIndices(totals)[i] < |names| &&
              KeepPositive(names, totals)[i] == (names[PositiveIndices(totals)[i]], totals[PositiveIndices(totals)[i]])
  {
    if names != [] {
      var r', ix' := KeepPositive(names[1..], totals[1..]), PositiveIndices(totals[1..]);
      KeepPositiveInOrder(names[1..], totals[1..]);
      var shifted := seq(|ix'|, i requires 0 <= i < |ix'| => ix'[i] + 1);
      assert PositiveIndices(totals) == if totals[0] > 0.0 then [0] + shifted else shifted;
      assert KeepPositive(names, totals) == if totals[0] > 0.0 then [(names[0], totals[0])] + r' else r';
      KeepStep(names, totals, r', ix', shifted, KeepPositive(names, totals), PositiveIndices(totals));
    }
  }

  /** The step of `KeepPositiveInOrder`: the tail's entries move one position
      along, behind the first entry when it is kept. */
  lemma KeepStep(names: seq<string>, totals: seq<real>, r': Dict, ix': seq<nat>, shifted: seq<nat>, r: Dict, ix: seq<nat>)
    requires |names| == |totals| > 0 && |r'| == |ix'| == |shifted|
    requires forall i :: 0 <= i < |r'| ==> ix'[i] < |names| - 1 && r'[i] == (names[1..][ix'[i]], totals[1..][ix'[i]])
    requires forall i :: 0 <= i < |ix'| ==> shifted[i] == ix'[i] + 1
    requires r == if totals[0] > 0.0 then [(names[0], totals[0])] + r' else r'
    requires ix == if totals[0] > 0.0 then [0] + shifted else shifted
    ensures |r| == |ix|
    ensures forall i :: 0 <= i < |r| ==> ix[i] < |names| && r[i] == (names[ix[i]], totals[ix[i]])
  {
    forall i | 0 <= i < |r|
      ensures ix[i] < |names| && r[i] == (names[ix[i]], totals[ix[i]])
    {
      var k := if totals[0] > 0.0 then i - 1 else i;
      if k >= 0 {
        assert r[i] == r'[k] && ix[i] == ix'[k] + 1;
      }
    }
  }

  /** `categorize_expenses`. */
  method CategorizeExpenses(transactions: seq<Transaction>) returns (categories: Dict)
    ensures categories == KeepPositive(CategoryNames, Totals(transactions))
  {
    var totals: seq<real> := seq(|CategoryNames|, _ => 0.0);
    var i := 0;
    while i < |transactions|
      invariant 0 <= i <= |transactions|
      invariant totals == Totals(transactions[..i])
    {
      assert transactions[..i + 1][..i] == transactions[..i];
      var amount := transactions[i].amount;
      var description := ToLower(transactions[i].description);
      if amount <= 0.0 {
        var expenseAmount := Abs(amount);
        var categoryFound := false;
        var k := 0;
        while k < |CategoryKeywords|
          invariant 0 <= k <= |CategoryKeywords|
          invariant forall j :: 0 <= j < k ==> !Matches(j, description)
          invariant !categoryFound
        {
          if exists w :: 0 <= w < |CategoryKeywords[k].1| && Contains(description, CategoryKeywords[k].1[w]) {
            assert Matches(k, description);
            assert CategoryOf(description) == k;
            totals := totals[k := totals[k] + expenseAmount];
            categoryFound := true;
            break;
          }
          k := k + 1;
        }
        if !categoryFound {
          assert CategoryOf(description) == OtherCategory;
          totals := totals[OtherCategory := totals[OtherCategory] + expenseAmount];
        }
      }
      i := i + 1;
    }
    assert transactions[..i] == transactions;
    categories := KeepPositive(CategoryNames, totals);
  }

  /** Sum of a sequence of amounts. */
  function SumSeq(s: seq<real>): real
  {
    if s == [] then 0.0 else s[0] + SumSeq(s[1..])
  }

  /** Total of all expenses: the absolute amounts of the transactions with amount <= 0. */
  function ExpenseTotal(transactions: seq<Transaction>): real
  {
    if transactions == [] then 0.0
    else
      var last := transactions[|transactions| - 1];
      ExpenseTotal(transactions[..|transactions| - 1]) + if last.amount <= 0.0 then Abs(last.amount) else 0.0
  }

  lemma {:induction false} SumSeqZeros(n: nat)
    ensures SumSeq(seq(n, _ => 0.0)) == 0.0
  {
    if n > 0 {
      assert seq(n, _ => 0.0)[1..] == seq(n - 1, _ => 0.0);
      SumSeqZeros(n - 1);
    }
  }

  lemma {:induction false} SumSeqUpdate(s: seq<real>, k: nat, d: real)
    requires k < |s|
    ensures SumSeq(s[k := s[k] + d]) == SumSeq(s) + d
  {
    if k > 0 {
      assert s[k := s[k] + d][1..] == s[1..][k - 1 := s[1..][k - 1] + d];
      SumSeqUpdate(s[1..], k - 1, d);
    }
  }

  /** Dropping the zero totals does not change the sum. */
  lemma {:induction false} KeepPositiveSum(names: seq<string>, totals: seq<real>)
    requires |names| == |totals|
    requires forall c :: 0 <= c < |totals| ==> totals[c] >= 0.0
    ensures SumValues(KeepPositive(names, totals)) == SumSeq(totals)
  {
    if names != [] {
      KeepPositiveSum(names[1..], totals[1..]);
      var rest := KeepPositive(names[1..], totals[1..]);
      if totals[0] > 0.0 {
        SumValuesAppend([(names[0], totals[0])], rest);
        assert SumValues([(names[0], totals[0])]) == totals[0];
      }
    }
  }

  /** Every expense lands in exactly one category: the totals add up to the
      sum of all expenses. */
  lemma {:induction false} TotalsSum(transactions: seq<Transaction>)
    ensures SumSeq(Totals(transactions)) == ExpenseTotal(transactions)
  {
    if transactions == [] {
      SumSeqZeros(|CategoryNames|);
    } else {
      var prefix := transactions[..|transactions| - 1];
      TotalsSum(prefix);
      var last := transactions[|transactions| - 1];
      if last.amount <= 0.0 {
        SumSeqUpdate(Totals(prefix), CategoryOf(ToLower(last.description)), Abs(last.amount));
      }
    }
  }

  /** The categoriser's result: keys among the ten categories and "Other",
      positive values, and values summing to the total of the expenses. */
  lemma CategorizedExpenses(transactions: seq<Transaction>)
    ensures var categories := KeepPositive(CategoryNames, Totals(transactions));
            && (forall i :: 0 <= i < |categories| ==> categories[i].0 in CategoryNames && categories[i].1 > 0.0)
            && SumValues(categories) == ExpenseTotal(transactions)
  {
    KeepPositiveSum(CategoryNames, Totals(transactions));
    TotalsSum(transactions);
  }
}
