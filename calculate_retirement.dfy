/**
 * The retirement depletion simulation (src/utils/calculateRetirement.js).
 *
 * Each simulated year withdraws that year's inflation-grown expenses from the
 * balance and then applies one year of return; the run stops at the first year
 * whose balance is no longer positive.
 */
module CalculateRetirement {
  import opened Wrappers
  import opened Powers

  /** The argument object; a `None` field was omitted. */
  datatype Args = Args(
    initialSavings: Option<real>,
    annualExpenses: Option<real>,
    annualInterestRate: Option<real>,
    inflationRate: Option<real>,
    retirementAge: Option<real>,
    years: Option<int>)

  /** The arguments after defaulting; rates are percentages. */
  datatype Params = Params(
    initialSavings: real,
    annualExpenses: real,
    annualInterestRate: real,
    inflationRate: real,
    retirementAge: real,
    years: int)

  datatype RetirementResult = RetirementResult(sustainableYears: int, depletionAge: real, canSustain: bool)

  const NegativeInputMessage := "Inputs must be non-negative numbers"

  /** Every omitted argument defaults to 0. */
  function Resolve(a: Args): Params
  {
    Params(a.initialSavings.GetOr(0.0), a.annualExpenses.GetOr(0.0), a.annualInterestRate.GetOr(0.0),
           a.inflationRate.GetOr(0.0), a.retirementAge.GetOr(0.0), a.years.GetOr(0))
  }

  /** Some argument was supplied with a negative value (an omitted one defaults to 0 and is never negative). */
  predicate SuppliedNegative(a: Args)
  {
    || (a.initialSavings.Some? && a.initialSavings.value < 0.0)
    || (a.annualExpenses.Some? && a.annualExpenses.value < 0.0)
    || (a.annualInterestRate.Some? && a.annualInterestRate.value < 0.0)
    || (a.inflationRate.Some? && a.inflationRate.value < 0.0)
    || (a.retirementAge.Some? && a.retirementAge.value < 0.0)
    || (a.years.Some? && a.years.value < 0)
  }

  /** The guard that throws before any simulation. */
  predicate HasNegative(p: Params)
  {
    p.initialSavings < 0.0 || p.annualExpenses < 0.0 || p.annualInterestRate / 100.0 < 0.0
    || p.inflationRate / 100.0 < 0.0 || p.retirementAge < 0.0 || p.years < 0
  }

  /** The expenses withdrawn in year `t` (counting from 0), grown by inflation. */
  function AdjustedExpenses(p: Params, t: nat): real
  {
    p.annualExpenses * Pow(1.0 + p.inflationRate / 100.0, t)
  }

  /** The balance after `k` simulated years, ignoring the early stop. */
  function Balance(p: Params, k: nat): real
  {
    if k == 0 then p.initialSavings
    else (Balance(p, k - 1) - AdjustedExpenses(p, k - 1)) * (1.0 + p.annualInterestRate / 100.0)
  }

  /**
   * The first year from `k` on whose balance is not positive, or `years` when
   * every year from `k` to `years` stays positive.
   */
  function FirstDepletion(p: Params, k: nat): (n: nat)
    requires p.years >= 0
    ensures k <= p.years ==> k <= n
    ensures n <= p.years
    ensures forall j :: k <= j < n ==> Balance(p, j) > 0.0
    ensures n < p.years ==> Balance(p, n) <= 0.0
    decreases p.years + 1 - k
  {
    if k > p.years then p.years
    else if Balance(p, k) <= 0.0 then k
    else FirstDepletion(p, k + 1)
  }

  /** The number of years the savings last, counting the year they run out. */
  function SustainableYears(p: Params): nat
    requires p.years >= 0
  {
    FirstDepletion(p, 1)
  }

  /** The result of a run that passed the guard. */
  function Simulate(p: Params): RetirementResult
    requires p.years >= 0
  {
    var n := SustainableYears(p);
    RetirementResult(n, p.retirementAge + n as real, Balance(p, n) > 0.0)
  }

  /** calculateRetirement as a function of the defaulted arguments. */
  function Retirement(p: Params): Result<RetirementResult>
  {
    if HasNegative(p) then Err(NegativeInputMessage) else Ok(Simulate(p))
  }

  /** Omitting an argument gives the same outcome as passing 0 for it. */
  lemma OmittedMeansZero(a: Args)
    ensures Retirement(Resolve(a.(initialSavings := None))) == Retirement(Resolve(a.(initialSavings := Some(0.0))))
    ensures Retirement(Resolve(a.(annualExpenses := None))) == Retirement(Resolve(a.(annualExpenses := Some(0.0))))
    ensures Retirement(Resolve(a.(annualInterestRate := None))) == Retirement(Resolve(a.(annualInterestRate := Some(0.0))))
    ensures Retirement(Resolve(a.(inflationRate := None))) == Retirement(Resolve(a.(inflationRate := Some(0.0))))
    ensures Retirement(Resolve(a.(retirementAge := None))) == Retirement(Resolve(a.(retirementAge := Some(0.0))))
    ensures Retirement(Resolve(a.(years := None))) == Retirement(Resolve(a.(years := Some(0))))
  {
  }

  /** After defaulting, the guard fires exactly when some supplied argument is negative. */
  lemma GuardOnSuppliedArguments(a: Args)
    ensures HasNegative(Resolve(a)) <==> SuppliedNegative(a)
  {
    var r := a.annualInterestRate.GetOr(0.0);
    var i := a.inflationRate.GetOr(0.0);
    assert r / 100.0 < 0.0 <==> r < 0.0;
    assert i / 100.0 < 0.0 <==> i < 0.0;
  }

  // ---------------------------------------------------------------------------
  // Properties of the simulation
  // ---------------------------------------------------------------------------

  /** sustainableYears lies in [0, years] and depletionAge is always retirementAge + sustainableYears. */
  lemma ResultInRange(p: Params)
    requires !HasNegative(p)
    ensures 0 <= Simulate(p).sustainableYears <= p.years
    ensures Simulate(p).depletionAge == p.retirementAge + Simulate(p).sustainableYears as real
  {
  }

  lemma {:induction false} FirstDepletionFinds(p: Params, i: nat, k: nat)
    requires p.years >= 0
    requires i <= k <= p.years
    requires Balance(p, k) <= 0.0
    requires forall j :: i <= j < k ==> Balance(p, j) > 0.0
    ensures FirstDepletion(p, i) == k
    decreases k - i
  {
    if i < k {
      FirstDepletionFinds(p, i + 1, k);
    }
  }

  lemma {:induction false} FirstDepletionNone(p: Params, i: nat)
    requires p.years >= 0
    requires forall j :: i <= j <= p.years ==> Balance(p, j) > 0.0
    ensures FirstDepletion(p, i) == p.years
    decreases p.years + 1 - i
  {
    if i <= p.years {
      FirstDepletionNone(p, i + 1);
    }
  }

  /** If the balance first stops being positive in year k, the run stops there and cannot sustain. */
  lemma DepletionStopsRun(p: Params, k: nat)
    requires !HasNegative(p)
    requires 1 <= k <= p.years
    requires Balance(p, k) <= 0.0
    requires forall j :: 1 <= j < k ==> Balance(p, j) > 0.0
    ensures Simulate(p) == RetirementResult(k, p.retirementAge + k as real, false)
  {
    FirstDepletionFinds(p, 1, k);
  }

  /** If every simulated year ends positive, the savings last the whole horizon. */
  lemma FullHorizonSustains(p: Params)
    requires !HasNegative(p)
    requires p.years >= 1
    requires forall j :: 1 <= j <= p.years ==> Balance(p, j) > 0.0
    ensures Simulate(p) == RetirementResult(p.years, p.retirementAge + p.years as real, true)
  {
    FirstDepletionNone(p, 1);
  }

  /** canSustain implies that the savings lasted every simulated year. */
  lemma CanSustainMeansFullHorizon(p: Params)
    requires !HasNegative(p)
    requires Simulate(p).canSustain
    ensures Simulate(p).sustainableYears == p.years
    ensures forall j :: 1 <= j <= p.years ==> Balance(p, j) > 0.0
  {
    var n := SustainableYears(p);
    assert Balance(p, n) > 0.0;
    if n < p.years {
      assert false;
    }
  }

  /** With no years to simulate nothing happens: 0 sustainable years, and canSustain iff there are savings. */
  lemma ZeroYears(p: Params)
    requires !HasNegative(p) && p.years == 0
    ensures Simulate(p).sustainableYears == 0
    ensures Simulate(p).canSustain <==> p.initialSavings > 0.0
  {
  }

  /** The sum of the inflation-grown expenses of the first `k` years. */
  function TotalExpenses(p: Params, k: nat): real
  {
    if k == 0 then 0.0 else TotalExpenses(p, k - 1) + AdjustedExpenses(p, k - 1)
  }

  lemma {:induction false} AdjustedExpensesNonNegative(p: Params, t: nat)
    requires !HasNegative(p)
    ensures AdjustedExpenses(p, t) >= 0.0
  {
    PowAtLeastOne(1.0 + p.inflationRate / 100.0, t);
  }

  lemma {:induction false} TotalExpensesGrow(p: Params, j: nat, k: nat)
    requires !HasNegative(p) && j <= k
    ensures TotalExpenses(p, j) <= TotalExpenses(p, k)
    decreases k - j
  {
    if j < k {
      TotalExpensesGrow(p, j, k - 1);
      AdjustedExpensesNonNegative(p, k - 1);
    }
  }

  /** While the savings exceed everything withdrawn so far, returns only add to what is left. */
  lemma {:induction false} BalanceCoversWithdrawals(p: Params, k: nat)
    requires !HasNegative(p)
    requires p.initialSavings > TotalExpenses(p, k)
    ensures Balance(p, k) >= p.initialSavings - TotalExpenses(p, k)
  {
    if k > 0 {
      AdjustedExpensesNonNegative(p, k - 1);
      BalanceCoversWithdrawals(p, k - 1);
      var left := Balance(p, k - 1) - AdjustedExpenses(p, k - 1);
      assert left >= p.initialSavings - TotalExpenses(p, k);
      ReturnKeepsAbove(left, p.initialSavings - TotalExpenses(p, k), p.annualInterestRate / 100.0);
    }
  }

  lemma ReturnKeepsAbove(left: real, bound: real, growth: real)
    requires left >= bound > 0.0 && growth >= 0.0
    ensures left * (1.0 + growth) >= bound
  {
    GrowthPreservesOrder(left, 0.0, growth);
  }

  /** Savings above the total inflation-grown expenses of the horizon always last it. */
  lemma SufficientSavingsSustain(p: Params)
    requires !HasNegative(p) && p.years >= 1
    requires p.initialSavings > TotalExpenses(p, p.years)
    ensures Simulate(p) == RetirementResult(p.years, p.retirementAge + p.years as real, true)
  {
    forall j | 1 <= j <= p.years
      ensures Balance(p, j) > 0.0
    {
      TotalExpensesGrow(p, j, p.years);
      BalanceCoversWithdrawals(p, j);
    }
    FullHorizonSustains(p);
  }

  lemma GrowthPreservesOrder(a: real, b: real, g: real)
    requires a >= b && g >= 0.0
    ensures a * g >= b * g
  {
  }

  /** Starting from more savings, the balance stays at least as large every year. */
  lemma {:induction false} BalanceMonotone(p: Params, q: Params, k: nat)
    requires !HasNegative(p)
    requires q == p.(initialSavings := q.initialSavings) && q.initialSavings >= p.initialSavings
    ensures Balance(q, k) >= Balance(p, k)
  {
    if k > 0 {
      BalanceMonotone(p, q, k - 1);
      var spent := AdjustedExpenses(p, k - 1);
      assert AdjustedExpenses(q, k - 1) == spent;
      GrowthPreservesOrder(Balance(q, k - 1) - spent, Balance(p, k - 1) - spent, 1.0 + p.annualInterestRate / 100.0);
    }
  }

  /** More initial savings never shorten the run. */
  lemma MoreSavingsLastLonger(p: Params, extra: real)
    requires !HasNegative(p) && extra >= 0.0
    ensures SustainableYears(p.(initialSavings := p.initialSavings + extra)) >= SustainableYears(p)
  {
    var q := p.(initialSavings := p.initialSavings + extra);
    var m, n := SustainableYears(q), SustainableYears(p);
    if m < n {
      BalanceMonotone(p, q, m);
      assert false;
    }
  }

  /** The first canSustain scenario of the test file: ten years at 5% return and 2% inflation from age 65. */
  lemma FirstTestScenario()
    ensures Simulate(Params(1492340.5, 50000.0, 5.0, 2.0, 65.0, 10)).canSustain
  {
    var p := Params(1492340.5, 50000.0, 5.0, 2.0, 65.0, 10);
    assert TotalExpenses(p, 10) < 600000.0;
    SufficientSavingsSustain(p);
  }

  /** The second canSustain scenario of the test file, with lower expenses. */
  lemma SecondTestScenario()
    ensures Simulate(Params(1759969.0, 40000.0, 5.0, 2.0, 65.0, 10)).canSustain
  {
    var p := Params(1759969.0, 40000.0, 5.0, 2.0, 65.0, 10);
    assert TotalExpenses(p, 10) < 600000.0;
    SufficientSavingsSustain(p);
  }

  // ---------------------------------------------------------------------------
  // The simulation loop
  // ---------------------------------------------------------------------------

  /** One simulated year: withdraw that year's expenses, then apply the return. */
  lemma YearStep(p: Params, t: nat)
    ensures (Balance(p, t) - AdjustedExpenses(p, t)) * (1.0 + p.annualInterestRate / 100.0) == Balance(p, t + 1)
  {
  }

  /** calculateRetirement: the guard, then the year-by-year loop with its early exit. */
  method Calculate(args: Args) returns (res: Result<RetirementResult>)
    ensures res == Retirement(Resolve(args))
    ensures res.Err? <==> HasNegative(Resolve(args))
    ensures res.Err? <==> SuppliedNegative(args)
    ensures res.Ok? ==> 0 <= res.value.sustainableYears <= Resolve(args).years
    ensures res.Ok? ==> res.value.depletionAge == Resolve(args).retirementAge + res.value.sustainableYears as real
  {
    var p := Resolve(args);
    GuardOnSuppliedArguments(args);
    var r := p.annualInterestRate / 100.0;
    var infl := p.inflationRate / 100.0;
    var assets := p.initialSavings;
    var sustainableYears := 0;

    if p.initialSavings < 0.0 || p.annualExpenses < 0.0 || r < 0.0 || infl < 0.0
       || p.retirementAge < 0.0 || p.years < 0 {
      return Err(NegativeInputMessage);
    }

    var t := 0;
    while t < p.years
      invariant 0 <= t <= p.years
      invariant assets == Balance(p, t)
      invariant forall j :: 1 <= j <= t ==> Balance(p, j) > 0.0
      invariant sustainableYears == if t == p.years then p.years else 0
    {
      var adjustedExpenses := p.annualExpenses * Pow(1.0 + infl, t);
      assert adjustedExpenses == AdjustedExpenses(p, t);
      YearStep(p, t);
      assets := (assets - adjustedExpenses) * (1.0 + r);
      assert assets == Balance(p, t + 1);
      if assets <= 0.0 {
        sustainableYears := t + 1;
        DepletionStopsRun(p, t + 1);
        break;
      }
      if t == p.years - 1 {
        sustainableYears := p.years;
      }
      t := t + 1;
    }

    var canSustain := assets > 0.0;
    assert Simulate(p) == RetirementResult(sustainableYears, p.retirementAge + sustainableYears as real, canSustain) by {
      if p.years == 0 {
        ZeroYears(p);
      } else if sustainableYears == p.years && assets > 0.0 {
        FullHorizonSustains(p);
      }
    }
    res := Ok(RetirementResult(sustainableYears, p.retirementAge + sustainableYears as real, canSustain));
  }
}
