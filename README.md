# Retirement calculator core in Dafny

This project models the three computational functions of a browser-based retirement
calculator and proves properties of them:

- **validateInputs** (`validate_inputs.dfy`, module `ValidateInputs`) checks the calculator
  form. It visits ten required fields in declaration order, from `currentAge` to
  `bondsPercentage`, and reports "cannot be empty" or "must be a non-negative number" for
  each. It then runs three cross-field checks: the contribution frequency, retirement age
  after current age, and stocks plus bonds within 0.01 of 100. Every violation is pushed
  onto an error list, and `isValid` holds exactly when that list is empty.
  - `Validate` is a method that fills the list in a `for` loop over the fields, then
    `PushCrossFieldErrors` makes the three conditional appends. Each pushed string is the
    message `Message` gives for the error.
  - It is proved equal to the messages of a structured specification, `Errors`. The
    properties are proved about `Errors`.
  - Raw form values are the datatype `FieldValue` (`Undefined | Null | EmptyStr | Num |
    NonNumeric`). JavaScript's `Number(...)` coercion is `ToNumber`, which maps to NaN or a
    finite number. Any comparison with NaN is false.
- **calculateRetirement** (`calculate_retirement.dfy`, module `CalculateRetirement`) is
  the year-by-year depletion simulation. Each year it withdraws inflation-grown expenses,
  then applies one year of return, and it stops at the first year whose balance is no
  longer positive.
  - `Calculate` keeps the source's loop with its early `break`.
  - It is proved equal to `Retirement`, which is defined through the recursive balance
    function `Balance` and the first-depletion search `FirstDepletion`.
- **calculateFV** (`calculate_fv.dfy`, module `CalculateFV`) gives the future value of a
  lump sum plus an ordinary annuity.
  - It applies defaults, then two guards: negative inputs, then an unknown frequency.
  - Then comes an exact zero-rate branch, or monthly or yearly compounding, and the result
    is rounded to cents.
  - It is a pure function, `FutureValue`. The closed form is proved equal to the balance of
    contributing period by period (`Accumulate`).

Shared pieces are `Wrappers` (`Option`, `Result`) and `Powers`. `Pow` is exponentiation
with a natural-number exponent, which is what `Math.pow(1 + infl, t)` computes for whole
`t`.

## Model

| member | source | states |
|---|---|---|
| ValidateInputs.CoercionAgrees | src/utils/validateInputs.js:51-67 | on a present value, the per-field test (value is NaN, or value < 0) holds exactly when `Number(value)` is NaN or negative, so the field check and the cross-field checks coerce alike |
| ValidateInputs.PushCrossFieldErrors | src/utils/validateInputs.js:56-70 | the three cross-field checks append to the error list exactly the messages of the frequency, age and allocation errors that fire, in that order |
| ValidateInputs.Validate | src/utils/validateInputs.js:19-76 | never fails; the returned errors are exactly the messages of `Errors(inp)`, in check order; `isValid` holds exactly when the list is empty |
| ValidateInputs.NoErrorsIffAcceptable | src/utils/validateInputs.js:48-75 | no error is reported exactly when all ten fields are non-negative numbers, the frequency is 'monthly' or 'yearly', retirement age exceeds current age, and stocks + bonds is within 0.01 of 100 |
| ValidateInputs.EmptyFieldReported | src/utils/validateInputs.js:49-50 | a field is reported as empty exactly when it is undefined, null or '' |
| ValidateInputs.NegativeFieldReported | src/utils/validateInputs.js:49-52 | a field is reported as not a non-negative number exactly when it is present and NaN or negative; an empty field never is, so emptiness suppresses the second check |
| ValidateInputs.FrequencyReported | src/utils/validateInputs.js:57-59 | the frequency error fires exactly when the frequency is neither 'monthly' nor 'yearly' |
| ValidateInputs.AgeOrderReported | src/utils/validateInputs.js:62-64 | the age error fires exactly when both ages coerce to numbers and retirement age <= current age, equality included; a NaN age never fires it |
| ValidateInputs.AllocationReported | src/utils/validateInputs.js:67-70 | the allocation error fires exactly when both percentages coerce to numbers whose sum is above 100.01 or below 99.99; a NaN percentage never fires it |
| ValidateInputs.ErrorsInCheckOrder | src/utils/validateInputs.js:35-70 | errors come in the order of their checks: field errors in declaration order, then frequency, age and allocation, each check at most once |
| ValidateInputs.AtMostThirteenErrors | src/utils/validateInputs.js:35-70 | at most 13 errors are reported |
| ValidateInputs.AtMostOneErrorPerField | src/utils/validateInputs.js:48-54 | no required field appears in two errors |
| ValidateInputs.SingleBadFieldSingleError | src/utils/validateInputs.js:48-54 | when one field alone is bad, the field checks report exactly one error for it: "empty" if it is empty, else "non-negative" |
| ValidateInputs.MessageInjective | src/utils/validateInputs.js:50-69 | different errors have different messages |
| ValidateInputs.MessageReported | src/utils/validateInputs.js:50-69 | a message is in the reported list exactly when its error is in the error list |
| ValidateInputs.ValidExampleAccepted | src/utils/validateInputs.test.js:5-21 | the valid example (ages 30/65, 70/30 allocation, monthly) gives no errors |
| ValidateInputs.NegativeSavingsExample | src/utils/validateInputs.test.js:25-41 | initialSavings -100000 gives exactly "Field initialSavings must be a non-negative number" |
| ValidateInputs.EmptySavingsExample | src/utils/validateInputs.test.js:45-61 | initialSavings '' gives exactly "Field initialSavings cannot be empty" |
| ValidateInputs.EqualAgesExample | src/utils/validateInputs.test.js:65-81 | equal ages 65/65 give exactly the age-order error |
| ValidateInputs.AllocationExample | src/utils/validateInputs.test.js:85-101 | a 70/20 allocation gives exactly the allocation error |
| ValidateInputs.WeeklyFrequencyExample | src/utils/validateInputs.test.js:105-121 | frequency 'weekly' gives exactly the frequency error |
| CalculateRetirement.FirstDepletion | src/utils/calculateRetirement.js:43-53 | the result is the first year from k whose balance is not positive, or `years` when every year stays positive; it lies in [k, years] |
| CalculateRetirement.OmittedMeansZero | src/utils/calculateRetirement.js:26-33 | omitting any one argument gives the same outcome as passing 0 for it |
| CalculateRetirement.GuardOnSuppliedArguments | src/utils/calculateRetirement.js:26-41 | after defaulting, the negative-input guard fires exactly when some supplied argument is negative; an omitted one never trips it |
| CalculateRetirement.Calculate | src/utils/calculateRetirement.js:26-61 | returns the negative-input error exactly when some supplied argument is negative; otherwise the result of the year-by-year simulation, with 0 <= sustainableYears <= years and depletionAge = retirementAge + sustainableYears |
| CalculateRetirement.ResultInRange | src/utils/calculateRetirement.js:37-59 | 0 <= sustainableYears <= years, and depletionAge = retirementAge + sustainableYears whatever canSustain is |
| CalculateRetirement.DepletionStopsRun | src/utils/calculateRetirement.js:46-49 | if the balance first becomes <= 0 after year k, the run stops with sustainableYears = k and canSustain false |
| CalculateRetirement.FullHorizonSustains | src/utils/calculateRetirement.js:50-55 | if years >= 1 and every year ends positive, sustainableYears = years and canSustain is true |
| CalculateRetirement.CanSustainMeansFullHorizon | src/utils/calculateRetirement.js:50-55 | canSustain implies sustainableYears = years and every year ended positive |
| CalculateRetirement.ZeroYears | src/utils/calculateRetirement.js:36-55 | with years = 0 the loop does not run: sustainableYears = 0, and canSustain holds exactly when initialSavings > 0 |
| CalculateRetirement.BalanceCoversWithdrawals | src/utils/calculateRetirement.js:44-45 | while savings exceed the total withdrawn so far, the balance is at least savings minus that total |
| CalculateRetirement.SufficientSavingsSustain | src/utils/calculateRetirement.js:43-55 | savings above the total inflation-grown expenses of the horizon last the whole horizon |
| CalculateRetirement.BalanceMonotone | src/utils/calculateRetirement.js:44-45 | more initial savings give a balance at least as large in every year |
| CalculateRetirement.MoreSavingsLastLonger | src/utils/calculateRetirement.js:43-53 | more initial savings never give fewer sustainable years |
| CalculateRetirement.FirstTestScenario | src/utils/calculateRetirement.test.js:5-18 | 1492340.5 savings, 50000 expenses, 5% return, 2% inflation, 10 years: canSustain |
| CalculateRetirement.SecondTestScenario | src/utils/calculateRetirement.test.js:19-32 | 1759969 savings, 40000 expenses, 5% return, 2% inflation, 10 years: canSustain |
| CalculateFV.CalculateFV | src/utils/calculateFV.js:22-41 | fails exactly when a supplied amount, rate or horizon is negative or a supplied frequency is neither 'monthly' nor 'yearly', so an omitted argument never causes a failure; a negative input is reported before a bad frequency |
| CalculateFV.OmittedMeansDefault | src/utils/calculateFV.js:22-28 | omitting any one argument gives the same outcome as passing its default: 0, or 'monthly' for the contribution frequency |
| CalculateFV.ResolvedGuards | src/utils/calculateFV.js:22-41 | after defaulting, each guard fires exactly when a supplied argument trips it; the default frequency 'monthly' is known |
| CalculateFV.PeriodRate | src/utils/calculateFV.js:51-57 | at a positive annual rate the period rate is positive, so the division that follows is defined |
| CalculateFV.FutureValue | src/utils/calculateFV.js:36-41 | fails exactly when an input is negative or the frequency is unknown; the negative check comes first and gives 'Inputs must be non-negative', then 'Invalid contribution frequency' |
| CalculateFV.Round2Monotone | src/utils/calculateFV.js:64 | rounding to cents preserves order |
| CalculateFV.Round2Idempotent | src/utils/calculateFV.js:64 | rounding an already rounded value changes nothing |
| CalculateFV.Round2OfCents | src/utils/calculateFV.js:64 | a whole number of cents is unchanged by rounding |
| CalculateFV.Round2Close | src/utils/calculateFV.js:64 | rounding moves a value by at most half a cent |
| CalculateFV.ZeroRateIsSimpleSum | src/utils/calculateFV.js:44-47 | at rate 0 the result is round(savings + contribution * 12 * years) for monthly and round(savings + contribution * years) for yearly |
| CalculateFV.YearlyCompounding | src/utils/calculateFV.js:55-64 | yearly at rate r > 0: period rate r, factor (1+r)^years, result round(p * factor + pmt * (factor - 1) / r) |
| CalculateFV.MonthlyCompounding | src/utils/calculateFV.js:51-54 | monthly at r > 0: period rate (1+r)^(1/12) - 1, factor (1 + periodRate)^(12 * years), same annuity formula |
| CalculateFV.ZeroYearsKeepsSavings | src/utils/calculateFV.js:44-64 | over zero years the result is the rounded initial savings, at any rate |
| CalculateFV.ZeroRateExample | src/utils/calculateFV.test.js:31-40 | 10000 savings and 500 a month for 20 years at 0% give exactly 130000 |
| CalculateFV.AnnuityGeometric | src/utils/calculateFV.js:61-62 | balance * rate + payment grows by the factor 1 + rate every period |
| CalculateFV.AnnuityClosedForm | src/utils/calculateFV.js:61-62 | the annuity formula s(1+i)^k + pmt((1+i)^k - 1)/i equals the balance of contributing pmt at the end of each of k periods at rate i |
| CalculateFV.MatchesContributionSchedule | src/utils/calculateFV.js:44-64 | for a whole number of periods, and a `Math.pow` that agrees with repeated multiplication there, the result is the rounded balance of contributing every period at the period rate |
| CalculateFV.ContributionMonotone | src/utils/calculateFV.js:61-64 | over a positive horizon a larger contribution gives a strictly larger unrounded value and an at least equal rounded one |

## Left out

- Floating point: money, rates and ages are exact `real`s. IEEE-754 rounding, `Infinity`,
  and the 0.1 tolerances of the future-value tests are not modelled.
- `Math.pow` with a fractional exponent is not modelled. `FutureValue` takes the power
  function as a parameter and assumes only two facts about it (`IsPower`): b^0 = 1, and
  b^e > 1 when b > 1 and e > 0. So the two compounding tests (229435.22 and 224928.70) are
  not reproduced.
- `toFixed(2)` is modelled as rounding half up to the nearest hundredth (`Round2`), not as
  JavaScript's decimal formatting of a binary double.
- Full JavaScript coercion is not modelled. Validator values are the five-case
  `FieldValue`. A non-string or absent `contributionFrequency` is `None`, which is never a
  known frequency. `calculateRetirement` and `calculateFV` take numbers only, so there is
  no NaN input there.
- `calculateRetirement` with a non-integer `years`: the source's `t === years - 1` then
  never holds, so a run that never depletes reports `sustainableYears = 0`. The model takes
  `years` as an integer and does not reproduce this.
- Thrown errors are modelled as `Err` results carrying the error message.
- The local-storage wrapper (src/utils/storage.js), the React UI (src/App.jsx), the
  translation setup (src/i18n/i18n.js) and the styling configuration are not part of this
  model: they do no computation of their own.
