/**
 * The future-value calculator (src/utils/calculateFV.js): a lump sum plus an
 * ordinary annuity of monthly or yearly contributions, compounded at an
 * effective period rate and rounded to cents.
 *
 * `Math.pow` with a fractional exponent is not modelled: the calculation takes
 * the power function as a parameter and relies only on the facts `IsPower` states.
 */
module CalculateFV {
  import opened Wrappers
  import opened Powers

  /** `Math.pow(base, exponent)` on reals. */
  type Power = (real, real) -> real

  /** What the calculation assumes of `Math.pow`: b^0 is 1, and b^e exceeds 1 when b > 1 and e > 0. */
  ghost predicate IsPower(pow: Power)
  {
    && (forall b :: pow(b, 0.0) == 1.0)
    && (forall b, e :: b > 1.0 && e > 0.0 ==> pow(b, e) > 1.0)
  }

  /** The argument object; a `None` field was omitted. */
  datatype Args = Args(
    initialSavings: Option<real>,
    contribution: Option<real>,
    contributionFrequency: Option<string>,
    annualInterestRate: Option<real>,
    years: Option<real>)

  /** The arguments after defaulting; the rate is a percentage. */
  datatype Params = Params(
    initialSavings: real,
    contribution: real,
    contributionFrequency: string,
    annualInterestRate: real,
    years: real)

  const NegativeInputMessage := "Inputs must be non-negative"
  const FrequencyMessage := "Invalid contribution frequency"

  /** Omitted amounts, rate and horizon default to 0; an omitted frequency defaults to 'monthly'. */
  function Resolve(a: Args): Params
  {
    Params(a.initialSavings.GetOr(0.0), a.contribution.GetOr(0.0), a.contributionFrequency.GetOr("monthly"),
           a.annualInterestRate.GetOr(0.0), a.years.GetOr(0.0))
  }

  /** `Number(x.toFixed(2))`, taken as rounding half up to the nearest hundredth. */
  function Round2(x: real): real
  {
    ((x * 100.0 + 0.5).Floor as real) / 100.0
  }

  /** The decimal annual rate. */
  function Rate(p: Params): real
  {
    p.annualInterestRate / 100.0
  }

  predicate IsMonthly(p: Params)
  {
    p.contributionFrequency == "monthly"
  }

  /** Contributions (and compounding periods) per year: 12 for 'monthly', otherwise 1. */
  function PeriodsPerYear(p: Params): (n: nat)
    ensures n == 12 || n == 1
  {
    if IsMonthly(p) then 12 else 1
  }

  /** The guard that throws 'Inputs must be non-negative'. */
  predicate HasNegative(p: Params)
  {
    Rate(p) < 0.0 || p.years < 0.0 || p.initialSavings < 0.0 || p.contribution < 0.0
  }

  /** The guard that throws 'Invalid contribution frequency'. */
  predicate IsKnownFrequency(p: Params)
  {
    p.contributionFrequency == "monthly" || p.contributionFrequency == "yearly"
  }

  /** The effective rate per contribution period: (1+r)^(1/12) - 1 for monthly, r for yearly. */
  function PeriodRate(p: Params, pow: Power): (pr: real)
    requires IsPower(pow) && Rate(p) > 0.0
    ensures pr > 0.0
  {
    if IsMonthly(p) then pow(1.0 + Rate(p), 1.0 / 12.0) - 1.0 else Rate(p)
  }

  /** The growth of one unit over the whole horizon: (1 + periodRate)^(periods per year * years). */
  function CompoundFactor(p: Params, pow: Power): real
    requires IsPower(pow) && Rate(p) > 0.0
  {
    if IsMonthly(p) then pow(1.0 + PeriodRate(p, pow), p.years * 12.0) else pow(1.0 + Rate(p), p.years)
  }

  /** The future value before rounding. */
  function Unrounded(p: Params, pow: Power): real
    requires IsPower(pow) && Rate(p) >= 0.0
  {
    if Rate(p) == 0.0 then
      p.initialSavings + p.contribution * PeriodsPerYear(p) as real * p.years
    else
      var compoundFactor := CompoundFactor(p, pow);
      var contributionTerm := p.contribution * ((compoundFactor - 1.0) / PeriodRate(p, pow));
      p.initialSavings * compoundFactor + contributionTerm
  }

  /** calculateFV on defaulted arguments: the negative guard, then the frequency guard, then the rounded value. */
  function FutureValue(p: Params, pow: Power): (r: Result<real>)
    requires IsPower(pow)
    ensures r.Err? <==> HasNegative(p) || !IsKnownFrequency(p)
    ensures HasNegative(p) ==> r == Err(NegativeInputMessage)
    ensures !HasNegative(p) && !IsKnownFrequency(p) ==> r == Err(FrequencyMessage)
  {
    if HasNegative(p) then Err(NegativeInputMessage)
    else if !IsKnownFrequency(p) then Err(FrequencyMessage)
    else Ok(Round2(Unrounded(p, pow)))
  }

  /** Some amount, the rate or the horizon was supplied with a negative value. */
  predicate SuppliedNegative(a: Args)
  {
    || (a.initialSavings.Some? && a.initialSavings.value < 0.0)
    || (a.contribution.Some? && a.contribution.value < 0.0)
    || (a.annualInterestRate.Some? && a.annualInterestRate.value < 0.0)
    || (a.years.Some? && a.years.value < 0.0)
  }

  /** A frequency was supplied and it is neither 'monthly' nor 'yearly'. */
  predicate SuppliedUnknownFrequency(a: Args)
  {
    a.contributionFrequency.Some? && a.contributionFrequency.value != "monthly"
    && a.contributionFrequency.value != "yearly"
  }

  /**
   * calculateFV: defaults first, then the calculation. It fails exactly when a supplied
   * argument is bad, so an omitted argument never causes a failure; a negative input is
   * reported before a bad frequency.
   */
  function CalculateFV(a: Args, pow: Power): (r: Result<real>)
    requires IsPower(pow)
    ensures r.Err? <==> SuppliedNegative(a) || SuppliedUnknownFrequency(a)
    ensures SuppliedNegative(a) ==> r == Err(NegativeInputMessage)
    ensures !SuppliedNegative(a) && SuppliedUnknownFrequency(a) ==> r == Err(FrequencyMessage)
  {
    ResolvedGuards(a);
    FutureValue(Resolve(a), pow)
  }

  /** Omitting an argument gives the same outcome as passing its default: 0, or 'monthly' for the frequency. */
  lemma OmittedMeansDefault(a: Args, pow: Power)
    requires IsPower(pow)
    ensures CalculateFV(a.(initialSavings := None), pow) == CalculateFV(a.(initialSavings := Some(0.0)), pow)
    ensures CalculateFV(a.(contribution := None), pow) == CalculateFV(a.(contribution := Some(0.0)), pow)
    ensures CalculateFV(a.(contributionFrequency := None), pow) == CalculateFV(a.(contributionFrequency := Some("monthly")), pow)
    ensures CalculateFV(a.(annualInterestRate := None), pow) == CalculateFV(a.(annualInterestRate := Some(0.0)), pow)
    ensures CalculateFV(a.(years := None), pow) == CalculateFV(a.(years := Some(0.0)), pow)
  {
  }

  /** After defaulting, each guard fires exactly when a supplied argument trips it. */
  lemma ResolvedGuards(a: Args)
    ensures HasNegative(Resolve(a)) <==> SuppliedNegative(a)
    ensures IsKnownFrequency(Resolve(a)) <==> !SuppliedUnknownFrequency(a)
  {
    var rate := a.annualInterestRate.GetOr(0.0);
    assert rate / 100.0 < 0.0 <==> rate < 0.0;
    if a.contributionFrequency.None? {
      assert Resolve(a).contributionFrequency == "monthly";
    }
  }

  // ---------------------------------------------------------------------------
  // Rounding to cents
  // ---------------------------------------------------------------------------

  /** Rounding moves a value by at most half a cent. */
  lemma Round2Close(x: real)
    ensures x - 0.005 < Round2(x) <= x + 0.005
  {
    var y := x * 100.0 + 0.5;
    assert y.Floor as real <= y < y.Floor as real + 1.0;
  }

  /** A whole number of cents is left as it is. */
  lemma Round2OfCents(cents: int)
    ensures Round2(cents as real / 100.0) == cents as real / 100.0
  {
    var y := (cents as real / 100.0) * 100.0 + 0.5;
    assert y == cents as real + 0.5;
    assert y.Floor == cents;
  }

  /** Rounding never reverses the order of two values. */
  lemma Round2Monotone(x: real, y: real)
    requires x <= y
    ensures Round2(x) <= Round2(y)
  {
    var a, b := x * 100.0 + 0.5, y * 100.0 + 0.5;
    assert a <= b;
    assert a.Floor <= b.Floor;
  }

  /** Rounding twice is rounding once. */
  lemma Round2Idempotent(x: real)
    ensures Round2(Round2(x)) == Round2(x)
  {
    Round2OfCents((x * 100.0 + 0.5).Floor);
  }

  // ---------------------------------------------------------------------------
  // The three branches of the calculation
  // ---------------------------------------------------------------------------

  /** At a zero rate there is no compounding: savings plus every contribution, rounded. */
  lemma ZeroRateIsSimpleSum(p: Params, pow: Power)
    requires IsPower(pow) && !HasNegative(p) && IsKnownFrequency(p) && Rate(p) == 0.0
    ensures IsMonthly(p) ==> FutureValue(p, pow) == Ok(Round2(p.initialSavings + p.contribution * 12.0 * p.years))
    ensures !IsMonthly(p) ==> FutureValue(p, pow) == Ok(Round2(p.initialSavings + p.contribution * p.years))
  {
    if IsMonthly(p) {
      assert Unrounded(p, pow) == p.initialSavings + p.contribution * 12.0 * p.years;
    } else {
      assert PeriodsPerYear(p) == 1;
      assert Unrounded(p, pow) == p.initialSavings + p.contribution * p.years;
    }
  }

  /** Yearly contributions compound at the annual rate: p(1+r)^t + pmt((1+r)^t - 1)/r, rounded. */
  lemma YearlyCompounding(p: Params, pow: Power)
    requires IsPower(pow) && !HasNegative(p) && p.contributionFrequency == "yearly" && Rate(p) > 0.0
    ensures PeriodRate(p, pow) == Rate(p)
    ensures CompoundFactor(p, pow) == pow(1.0 + Rate(p), p.years)
    ensures FutureValue(p, pow) == Ok(Round2(p.initialSavings * CompoundFactor(p, pow)
              + p.contribution * ((CompoundFactor(p, pow) - 1.0) / PeriodRate(p, pow))))
  {
    assert |p.contributionFrequency| == 6;
    assert !IsMonthly(p) && IsKnownFrequency(p);
    assert Unrounded(p, pow) == p.initialSavings * CompoundFactor(p, pow)
              + p.contribution * ((CompoundFactor(p, pow) - 1.0) / PeriodRate(p, pow));
  }

  /**
   * Monthly contributions compound at the effective monthly rate (1+r)^(1/12) - 1,
   * not r/12, over 12 periods a year.
   */
  lemma MonthlyCompounding(p: Params, pow: Power)
    requires IsPower(pow) && !HasNegative(p) && p.contributionFrequency == "monthly" && Rate(p) > 0.0
    ensures PeriodRate(p, pow) == pow(1.0 + Rate(p), 1.0 / 12.0) - 1.0
    ensures CompoundFactor(p, pow) == pow(1.0 + PeriodRate(p, pow), p.years * 12.0)
    ensures FutureValue(p, pow) == Ok(Round2(p.initialSavings * CompoundFactor(p, pow)
              + p.contribution * ((CompoundFactor(p, pow) - 1.0) / PeriodRate(p, pow))))
  {
    assert IsMonthly(p) && IsKnownFrequency(p);
    assert Unrounded(p, pow) == p.initialSavings * CompoundFactor(p, pow)
              + p.contribution * ((CompoundFactor(p, pow) - 1.0) / PeriodRate(p, pow));
  }

  /** Over a zero horizon nothing compounds and nothing is contributed: the savings, rounded. */
  lemma ZeroYearsKeepsSavings(p: Params, pow: Power)
    requires IsPower(pow) && !HasNegative(p) && IsKnownFrequency(p) && p.years == 0.0
    ensures FutureValue(p, pow) == Ok(Round2(p.initialSavings))
  {
    if Rate(p) > 0.0 {
      assert CompoundFactor(p, pow) == 1.0;
    }
  }

  /** The worked example with no interest: 10000 + 500 * 12 * 20 is exactly 130000. */
  lemma ZeroRateExample(pow: Power)
    requires IsPower(pow)
    ensures FutureValue(Params(10000.0, 500.0, "monthly", 0.0, 20.0), pow) == Ok(130000.0)
  {
    Round2OfCents(13000000);
  }

  // ---------------------------------------------------------------------------
  // The closed form against the contribution schedule
  // ---------------------------------------------------------------------------

  /**
   * The balance after `k` periods when `savings` earns `rate` per period and
   * `payment` is added at the end of each period (an ordinary annuity).
   */
  function Accumulate(savings: real, payment: real, rate: real, k: nat): real
  {
    if k == 0 then savings else Accumulate(savings, payment, rate, k - 1) * (1.0 + rate) + payment
  }

  /** Without interest the schedule is the savings plus k payments. */
  lemma {:induction false} AccumulateWithoutInterest(savings: real, payment: real, k: nat)
    ensures Accumulate(savings, payment, 0.0, k) == savings + payment * k as real
  {
    if k > 0 {
      AccumulateWithoutInterest(savings, payment, k - 1);
    }
  }

  lemma DivisionCancels(x: real, c: real)
    requires c != 0.0
    ensures (x / c) * c == x
    ensures (x * c) / c == x
  {
  }

  lemma MulCancel(x: real, y: real, c: real)
    requires c != 0.0 && x * c == y * c
    ensures x == y
  {
    DivisionCancels(x, c);
    DivisionCancels(y, c);
  }

  /** One more period: compounding the schedule grows `balance * rate + payment` by the factor 1 + rate. */
  lemma GeometricStep(acc: real, before: real, scale: real, payment: real, rate: real, next: real, after: real)
    requires acc * rate + payment == scale * before
    requires next == acc * (1.0 + rate) + payment
    requires after == (1.0 + rate) * before
    ensures next * rate + payment == scale * after
  {
    calc {
      next * rate + payment;
      (acc * (1.0 + rate) + payment) * rate + payment;
      (acc * rate + payment) * (1.0 + rate);
      scale * before * (1.0 + rate);
      scale * after;
    }
  }

  /** One period of the schedule, stated on the schedule itself. */
  lemma AccumulateStep(savings: real, payment: real, rate: real, k: nat)
    requires k > 0
    requires Accumulate(savings, payment, rate, k - 1) * rate + payment
          == (savings * rate + payment) * Pow(1.0 + rate, k - 1)
    ensures Accumulate(savings, payment, rate, k) * rate + payment
         == (savings * rate + payment) * Pow(1.0 + rate, k)
  {
    GeometricStep(Accumulate(savings, payment, rate, k - 1), Pow(1.0 + rate, k - 1), savings * rate + payment,
                  payment, rate, Accumulate(savings, payment, rate, k), Pow(1.0 + rate, k));
  }

  /** The schedule as a geometric progression: balance * rate + payment grows by 1 + rate each period. */
  lemma {:induction false} AnnuityGeometric(savings: real, payment: real, rate: real, k: nat)
    ensures Accumulate(savings, payment, rate, k) * rate + payment
         == (savings * rate + payment) * Pow(1.0 + rate, k)
  {
    if k > 0 {
      AnnuityGeometric(savings, payment, rate, k - 1);
      AccumulateStep(savings, payment, rate, k);
    }
  }

  /** The annuity formula: the schedule equals s(1+i)^k + pmt((1+i)^k - 1)/i. */
  lemma AnnuityClosedForm(savings: real, payment: real, rate: real, k: nat)
    requires rate != 0.0
    ensures Accumulate(savings, payment, rate, k)
         == savings * Pow(1.0 + rate, k) + payment * ((Pow(1.0 + rate, k) - 1.0) / rate)
  {
    var factor := Pow(1.0 + rate, k);
    var closed := savings * factor + payment * ((factor - 1.0) / rate);
    AnnuityGeometric(savings, payment, rate, k);
    DivisionCancels(factor - 1.0, rate);
    calc {
      closed * rate;
      savings * factor * rate + payment * (((factor - 1.0) / rate) * rate);
      savings * factor * rate + payment * (factor - 1.0);
      (savings * rate + payment) * factor - payment;
      Accumulate(savings, payment, rate, k) * rate;
    }
    MulCancel(Accumulate(savings, payment, rate, k), closed, rate);
  }

  /** The rate the schedule uses for one contribution period. */
  function ScheduleRate(p: Params, pow: Power): real
    requires IsPower(pow) && Rate(p) >= 0.0
  {
    if Rate(p) == 0.0 then 0.0 else PeriodRate(p, pow)
  }

  /** At rate 0 the unrounded value is the schedule of `periods` contributions without interest. */
  lemma ZeroRateSchedule(p: Params, pow: Power, periods: nat)
    requires IsPower(pow) && !HasNegative(p) && IsKnownFrequency(p) && Rate(p) == 0.0
    requires PeriodsPerYear(p) as real * p.years == periods as real
    ensures Unrounded(p, pow) == Accumulate(p.initialSavings, p.contribution, 0.0, periods)
  {
    AccumulateWithoutInterest(p.initialSavings, p.contribution, periods);
    assert p.contribution * PeriodsPerYear(p) as real * p.years == p.contribution * (PeriodsPerYear(p) as real * p.years);
  }

  /** At a positive rate the unrounded value is the schedule compounded at the period rate over `periods` periods. */
  lemma CompoundingSchedule(p: Params, pow: Power, periods: nat)
    requires IsPower(pow) && !HasNegative(p) && IsKnownFrequency(p) && Rate(p) > 0.0
    requires PeriodsPerYear(p) as real * p.years == periods as real
    requires pow(1.0 + PeriodRate(p, pow), periods as real) == Pow(1.0 + PeriodRate(p, pow), periods)
    ensures Unrounded(p, pow) == Accumulate(p.initialSavings, p.contribution, PeriodRate(p, pow), periods)
  {
    var i := PeriodRate(p, pow);
    assert CompoundFactor(p, pow) == Pow(1.0 + i, periods) by {
      if IsMonthly(p) {
        assert p.years * 12.0 == periods as real;
      } else {
        assert p.years == periods as real;
      }
    }
    AnnuityClosedForm(p.initialSavings, p.contribution, i, periods);
  }

  /**
   * Whenever the horizon is a whole number of periods, and `Math.pow` agrees with
   * repeated multiplication on that whole exponent, the calculator returns the
   * rounded balance of contributing every period and compounding at the period rate.
   */
  lemma MatchesContributionSchedule(p: Params, pow: Power, periods: nat)
    requires IsPower(pow) && !HasNegative(p) && IsKnownFrequency(p)
    requires PeriodsPerYear(p) as real * p.years == periods as real
    requires Rate(p) > 0.0 ==>
      pow(1.0 + PeriodRate(p, pow), periods as real) == Pow(1.0 + PeriodRate(p, pow), periods)
    ensures FutureValue(p, pow)
      == Ok(Round2(Accumulate(p.initialSavings, p.contribution, ScheduleRate(p, pow), periods)))
  {
    if Rate(p) == 0.0 {
      ZeroRateSchedule(p, pow, periods);
    } else {
      CompoundingSchedule(p, pow, periods);
    }
  }

  // ---------------------------------------------------------------------------
  // Monotonicity
  // ---------------------------------------------------------------------------

  /**
   * Over a positive horizon a larger contribution gives a strictly larger value
   * before rounding, and a value at least as large after rounding.
   */
  lemma ContributionMonotone(p: Params, pow: Power, extra: real)
    requires IsPower(pow) && !HasNegative(p) && IsKnownFrequency(p) && p.years > 0.0 && extra > 0.0
    ensures var q := p.(contribution := p.contribution + extra);
      && Unrounded(p, pow) < Unrounded(q, pow)
      && FutureValue(p, pow).value <= FutureValue(q, pow).value
  {
    var q := p.(contribution := p.contribution + extra);
    if Rate(p) == 0.0 {
      assert Unrounded(q, pow) - Unrounded(p, pow) == extra * PeriodsPerYear(p) as real * p.years;
    } else {
      var i := PeriodRate(p, pow);
      var factor := CompoundFactor(p, pow);
      assert factor > 1.0 by {
        if IsMonthly(p) {
          assert p.years * 12.0 > 0.0;
        }
      }
      var growth := (factor - 1.0) / i;
      assert growth > 0.0;
      assert PeriodRate(q, pow) == i && CompoundFactor(q, pow) == factor;
      assert Unrounded(q, pow) - Unrounded(p, pow) == extra * growth;
    }
    Round2Monotone(Unrounded(p, pow), Unrounded(q, pow));
  }
}
