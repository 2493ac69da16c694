/**
 * The input validator of the retirement calculator (src/utils/validateInputs.js).
 *
 * Ten required fields are checked in declaration order, each for being empty and
 * then for being a non-negative number; three cross-field checks follow (the
 * contribution frequency, retirement age after current age, stocks plus bonds
 * equal to 100%). Every violation is appended to an error list; nothing throws.
 */
module ValidateInputs {
  import opened Wrappers

  /**
   * A raw form value as JavaScript sees it. `Num(x)` is any value that coerces to
   * the finite number x (a number or a numeric string); `NonNumeric` is any other
   * present value, which coerces to NaN.
   */
  datatype FieldValue = Undefined | Null | EmptyStr | Num(x: real) | NonNumeric

  /** The result of JavaScript's `Number(...)` coercion: NaN or a finite number. */
  datatype JsNumber = NaN | Finite(v: real)

  /** `Number(value)`: undefined and non-numeric values give NaN, null and '' give 0. */
  function ToNumber(v: FieldValue): JsNumber
  {
    match v
    case Undefined => NaN
    case Null => Finite(0.0)
    case EmptyStr => Finite(0.0)
    case Num(x) => Finite(x)
    case NonNumeric => NaN
  }

  /** JavaScript `a <= b` on numbers: false whenever either side is NaN. */
  predicate JsLessEq(a: JsNumber, b: JsNumber)
  {
    a.Finite? && b.Finite? && a.v <= b.v
  }

  /** JavaScript `a + b` on numbers: NaN whenever either side is NaN. */
  function JsAdd(a: JsNumber, b: JsNumber): (s: JsNumber)
    ensures s.Finite? <==> a.Finite? && b.Finite?
  {
    if a.Finite? && b.Finite? then Finite(a.v + b.v) else NaN
  }

  /** The ten required fields, in the order the validator visits them. */
  datatype FieldName =
    | CurrentAge | RetirementAge | InitialSavings | Contribution | AnnualInterestRate
    | Years | AnnualExpenses | InflationRate | StocksPercentage | BondsPercentage
  {
    /** The property name used in error messages. */
    function Key(): string
    {
      match this
      case CurrentAge => "currentAge"
      case RetirementAge => "retirementAge"
      case InitialSavings => "initialSavings"
      case Contribution => "contribution"
      case AnnualInterestRate => "annualInterestRate"
      case Years => "years"
      case AnnualExpenses => "annualExpenses"
      case InflationRate => "inflationRate"
      case StocksPercentage => "stocksPercentage"
      case BondsPercentage => "bondsPercentage"
    }

    /** The position of the field in declaration order. */
    function Index(): (i: nat)
      ensures i < 10
    {
      match this
      case CurrentAge => 0
      case RetirementAge => 1
      case InitialSavings => 2
      case Contribution => 3
      case AnnualInterestRate => 4
      case Years => 5
      case AnnualExpenses => 6
      case InflationRate => 7
      case StocksPercentage => 8
      case BondsPercentage => 9
    }
  }

  /** The required fields in declaration order. */
  const RequiredFields: seq<FieldName> :=
    [CurrentAge, RetirementAge, InitialSavings, Contribution, AnnualInterestRate,
     Years, AnnualExpenses, InflationRate, StocksPercentage, BondsPercentage]

  /** The validator's argument object. `contributionFrequency` is `None` when it is absent or not a string. */
  datatype Inputs = Inputs(
    currentAge: FieldValue,
    retirementAge: FieldValue,
    initialSavings: FieldValue,
    contribution: FieldValue,
    annualInterestRate: FieldValue,
    years: FieldValue,
    annualExpenses: FieldValue,
    inflationRate: FieldValue,
    stocksPercentage: FieldValue,
    bondsPercentage: FieldValue,
    contributionFrequency: Option<string>)
  {
    /** The value of a required field. */
    function Get(f: FieldName): FieldValue
    {
      match f
      case CurrentAge => currentAge
      case RetirementAge => retirementAge
      case InitialSavings => initialSavings
      case Contribution => contribution
      case AnnualInterestRate => annualInterestRate
      case Years => years
      case AnnualExpenses => annualExpenses
      case InflationRate => inflationRate
      case StocksPercentage => stocksPercentage
      case BondsPercentage => bondsPercentage
    }
  }

  /** What the validator returns. */
  datatype ValidationResult = ValidationResult(isValid: bool, errors: seq<string>)

  /** The violations the validator reports, one constructor per message. */
  datatype ValidationError =
    | EmptyField(field: FieldName)
    | NotNonNegative(field: FieldName)
    | BadFrequency
    | AgeOrder
    | AllocationSum
  {
    /** The position of the check that emits this error in the validator's order of checks. */
    function Rank(): (k: nat)
      ensures k < 13
    {
      match this
      case EmptyField(f) => f.Index()
      case NotNonNegative(f) => f.Index()
      case BadFrequency => 10
      case AgeOrder => 11
      case AllocationSum => 12
    }
  }

  /** The human-readable message pushed for an error. */
  function Message(e: ValidationError): string
  {
    match e
    case EmptyField(f) => "Field " + f.Key() + " cannot be empty"
    case NotNonNegative(f) => "Field " + f.Key() + " must be a non-negative number"
    case BadFrequency => "Contribution frequency must be either 'monthly' or 'yearly'"
    case AgeOrder => "Retirement age must be greater than current age"
    case AllocationSum => "Sum of stocks and bonds allocation must equal 100%"
  }

  /** The messages of a list of errors, in the same order. */
  function Messages(es: seq<ValidationError>): (ms: seq<string>)
    ensures |ms| == |es|
    ensures forall i :: 0 <= i < |es| ==> ms[i] == Message(es[i])
  {
    seq(|es|, i requires 0 <= i < |es| => Message(es[i]))
  }

  // ---------------------------------------------------------------------------
  // Specification of the error list
  // ---------------------------------------------------------------------------

  /** `value === undefined || value === null || value === ''` */
  predicate IsEmpty(v: FieldValue)
  {
    v.Undefined? || v.Null? || v.EmptyStr?
  }

  /** `isNaN(value) || value < 0`, for a value that is not empty. */
  predicate IsNaNOrNegative(v: FieldValue)
  {
    v.NonNumeric? || (v.Num? && v.x < 0.0)
  }

  /** The error (at most one) that the per-field check emits for one field. */
  function FieldError(f: FieldName, v: FieldValue): seq<ValidationError>
  {
    if IsEmpty(v) then [EmptyField(f)]
    else if IsNaNOrNegative(v) then [NotNonNegative(f)]
    else []
  }

  /** The errors of the per-field check over the fields `fs`, in the order of `fs`. */
  function FieldErrors(inp: Inputs, fs: seq<FieldName>): seq<ValidationError>
  {
    if fs == [] then []
    else FieldErrors(inp, fs[..|fs| - 1]) + FieldError(fs[|fs| - 1], inp.Get(fs[|fs| - 1]))
  }

  /** `['monthly', 'yearly'].includes(contributionFrequency)` */
  predicate IsKnownFrequency(freq: Option<string>)
  {
    freq == Some("monthly") || freq == Some("yearly")
  }

  /** `Number(retirementAge) <= Number(currentAge)` */
  predicate AgesOutOfOrder(inp: Inputs)
  {
    JsLessEq(ToNumber(inp.retirementAge), ToNumber(inp.currentAge))
  }

  /** `Math.abs(Number(stocksPercentage) + Number(bondsPercentage) - 100) > 0.01` */
  predicate AllocationOff(inp: Inputs)
  {
    var sum := JsAdd(ToNumber(inp.stocksPercentage), ToNumber(inp.bondsPercentage));
    sum.Finite? && (sum.v - 100.0 > 0.01 || 100.0 - sum.v > 0.01)
  }

  /** The errors of the three cross-field checks, in the order they run. */
  function CrossErrors(inp: Inputs): seq<ValidationError>
  {
    CrossList(!IsKnownFrequency(inp.contributionFrequency), AgesOutOfOrder(inp), AllocationOff(inp))
  }

  /** The cross-field errors, given which of the three checks fire. */
  function CrossList(badFrequency: bool, ageOrder: bool, allocation: bool): seq<ValidationError>
  {
    (if badFrequency then [BadFrequency] else [])
    + (if ageOrder then [AgeOrder] else [])
    + (if allocation then [AllocationSum] else [])
  }

  /** Every error the validator reports for `inp`, in reporting order. */
  function Errors(inp: Inputs): seq<ValidationError>
  {
    FieldErrors(inp, RequiredFields) + CrossErrors(inp)
  }

  lemma MessagesSnoc(es: seq<ValidationError>, e: ValidationError)
    ensures Messages(es + [e]) == Messages(es) + [Message(e)]
  {
  }

  lemma MessagesSingleton(e: ValidationError)
    ensures Messages([e]) == [Message(e)]
  {
  }

  lemma MessagesAppend(es: seq<ValidationError>, fs: seq<ValidationError>)
    ensures Messages(es + fs) == Messages(es) + Messages(fs)
  {
  }

  // ---------------------------------------------------------------------------
  // The validator
  // ---------------------------------------------------------------------------

  /**
   * validateInputs: never fails, reports exactly `Errors(inp)` as messages, and is
   * valid exactly when that list is empty.
   */
  method Validate(inp: Inputs) returns (result: ValidationResult)
    ensures result.errors == Messages(Errors(inp))
    ensures result.isValid <==> result.errors == []
  {
    var errors: seq<string> := [];
    ghost var reported: seq<ValidationError> := [];

    for i := 0 to |RequiredFields|
      invariant reported == FieldErrors(inp, RequiredFields[..i])
      invariant errors == Messages(reported)
    {
      var f := RequiredFields[i];
      var value := inp.Get(f);
      assert RequiredFields[..i + 1][..i] == RequiredFields[..i];
      ghost var next := FieldErrors(inp, RequiredFields[..i + 1]);
      assert next == reported + FieldError(f, value);
      if value.Undefined? || value.Null? || value.EmptyStr? {
        MessagesSnoc(reported, EmptyField(f));
        errors := errors + [Message(EmptyField(f))];
        reported := reported + [EmptyField(f)];
      } else if value.NonNumeric? || (value.Num? && value.x < 0.0) {
        MessagesSnoc(reported, NotNonNegative(f));
        errors := errors + [Message(NotNonNegative(f))];
        reported := reported + [NotNonNegative(f)];
      }
      assert reported == next;
    }
    assert RequiredFields[..|RequiredFields|] == RequiredFields;
    errors := PushCrossFieldErrors(inp, errors);
    MessagesAppend(reported, CrossErrors(inp));
    result := ValidationResult(|errors| == 0, errors);
  }

  /**
   * The three cross-field checks of validateInputs, each pushing its message onto
   * `errors` when it fires: exactly the messages of `CrossErrors(inp)` are appended.
   */
  method PushCrossFieldErrors(inp: Inputs, errors: seq<string>) returns (pushed: seq<string>)
    ensures pushed == errors + Messages(CrossErrors(inp))
  {
    pushed := errors;

    var freq := inp.contributionFrequency;
    ghost var badFrequency := !(freq == Some("monthly") || freq == Some("yearly"));
    if !(freq == Some("monthly") || freq == Some("yearly")) {
      pushed := pushed + [Message(BadFrequency)];
    }
    ghost var one := if badFrequency then [Message(BadFrequency)] else [];
    assert pushed == errors + one;

    var retirement := ToNumber(inp.retirementAge);
    var current := ToNumber(inp.currentAge);
    ghost var ageOrder := retirement.Finite? && current.Finite? && retirement.v <= current.v;
    if retirement.Finite? && current.Finite? && retirement.v <= current.v {
      pushed := pushed + [Message(AgeOrder)];
    }
    ghost var two := if ageOrder then [Message(AgeOrder)] else [];
    assert pushed == errors + one + two;

    var sumPercentage := JsAdd(ToNumber(inp.stocksPercentage), ToNumber(inp.bondsPercentage));
    ghost var allocation := sumPercentage.Finite? && (sumPercentage.v - 100.0 > 0.01 || 100.0 - sumPercentage.v > 0.01);
    if sumPercentage.Finite? && (sumPercentage.v - 100.0 > 0.01 || 100.0 - sumPercentage.v > 0.01) {
      pushed := pushed + [Message(AllocationSum)];
    }
    ghost var three := if allocation then [Message(AllocationSum)] else [];
    assert pushed == errors + one + two + three;

    assert badFrequency == !IsKnownFrequency(inp.contributionFrequency);
    assert ageOrder == AgesOutOfOrder(inp);
    assert allocation == AllocationOff(inp);
    CrossListMessages(errors, pushed, badFrequency, ageOrder, allocation);
  }

  /** The messages pushed for the cross-field checks that fire, in check order. */
  lemma CrossListMessages(errors: seq<string>, pushed: seq<string>, badFrequency: bool, ageOrder: bool, allocation: bool)
    requires pushed == errors
      + (if badFrequency then [Message(BadFrequency)] else [])
      + (if ageOrder then [Message(AgeOrder)] else [])
      + (if allocation then [Message(AllocationSum)] else [])
    ensures pushed == errors + Messages(CrossList(badFrequency, ageOrder, allocation))
  {
    var a := if badFrequency then [BadFrequency] else [];
    var b := if ageOrder then [AgeOrder] else [];
    var c := if allocation then [AllocationSum] else [];
    MessagesAppend(a, b);
    MessagesAppend(a + b, c);
  }

  // ---------------------------------------------------------------------------
  // Properties of the error list
  // ---------------------------------------------------------------------------

  /** A field passes the per-field check exactly when it holds a non-negative number. */
  predicate FieldOk(v: FieldValue)
  {
    v.Num? && v.x >= 0.0
  }

  /** Everything the validator demands, stated independently of how it reports violations. */
  predicate Acceptable(inp: Inputs)
  {
    && (forall f: FieldName :: FieldOk(inp.Get(f)))
    && IsKnownFrequency(inp.contributionFrequency)
    && inp.retirementAge.Num? && inp.currentAge.Num?
    && inp.retirementAge.x > inp.currentAge.x
    && inp.stocksPercentage.Num? && inp.bondsPercentage.Num?
    && -0.01 <= inp.stocksPercentage.x + inp.bondsPercentage.x - 100.0 <= 0.01
  }

  lemma {:induction false} FieldErrorEmpty(f: FieldName, v: FieldValue)
    ensures FieldError(f, v) == [] <==> FieldOk(v)
  {
  }

  /**
   * The per-field test `isNaN(value) || value < 0` agrees with the `Number(...)` coercion
   * used by the cross-field checks: on a present value it holds exactly when the coerced
   * value is NaN or negative.
   */
  lemma CoercionAgrees(v: FieldValue)
    requires !IsEmpty(v)
    ensures IsNaNOrNegative(v) <==> ToNumber(v).NaN? || ToNumber(v).v < 0.0
  {
  }

  /** The per-field check over `fs` is silent exactly when every field of `fs` holds a non-negative number. */
  lemma {:induction false} FieldErrorsEmpty(inp: Inputs, fs: seq<FieldName>)
    ensures FieldErrors(inp, fs) == [] <==> forall i :: 0 <= i < |fs| ==> FieldOk(inp.Get(fs[i]))
  {
    if fs != [] {
      var init, last := fs[..|fs| - 1], fs[|fs| - 1];
      FieldErrorsEmpty(inp, init);
      FieldErrorEmpty(last, inp.Get(last));
      if FieldErrors(inp, fs) == [] {
        forall i | 0 <= i < |fs| ensures FieldOk(inp.Get(fs[i])) {
          if i < |fs| - 1 {
            assert fs[i] == init[i];
          }
        }
      }
    }
  }

  lemma RequiredFieldsCover(f: FieldName)
    ensures exists i :: 0 <= i < |RequiredFields| && RequiredFields[i] == f
    ensures f in RequiredFields
  {
    assert RequiredFields[f.Index()] == f;
  }

  /** isValid: the validator reports nothing exactly when the inputs are acceptable. */
  lemma NoErrorsIffAcceptable(inp: Inputs)
    ensures Errors(inp) == [] <==> Acceptable(inp)
  {
    FieldErrorsEmpty(inp, RequiredFields);
    CrossErrorsShape(inp, BadFrequency);
    CrossErrorsShape(inp, AgeOrder);
    CrossErrorsShape(inp, AllocationSum);
    if Errors(inp) == [] {
      assert FieldErrors(inp, RequiredFields) == [] && CrossErrors(inp) == [];
      forall f: FieldName ensures FieldOk(inp.Get(f)) {
        RequiredFieldsCover(f);
      }
      assert FieldOk(inp.Get(RetirementAge)) && FieldOk(inp.Get(CurrentAge));
      assert FieldOk(inp.Get(StocksPercentage)) && FieldOk(inp.Get(BondsPercentage));
    }
  }

  /** The errors of the per-field check over `fs` are empty- or number-errors of fields of `fs`. */
  lemma {:induction false} FieldErrorsShape(inp: Inputs, fs: seq<FieldName>, e: ValidationError)
    ensures e in FieldErrors(inp, fs) <==>
      ((e.EmptyField? || e.NotNonNegative?) && e.field in fs && e in FieldError(e.field, inp.Get(e.field)))
  {
    if fs != [] {
      var init, last := fs[..|fs| - 1], fs[|fs| - 1];
      FieldErrorsShape(inp, init, e);
      assert fs == init + [last];
    }
  }

  lemma ErrorsSplit(inp: Inputs, e: ValidationError)
    ensures e in Errors(inp) <==> e in FieldErrors(inp, RequiredFields) || e in CrossErrors(inp)
  {
  }

  lemma CrossErrorsShape(inp: Inputs, e: ValidationError)
    ensures e in CrossErrors(inp) <==>
      || (e == BadFrequency && !IsKnownFrequency(inp.contributionFrequency))
      || (e == AgeOrder && AgesOutOfOrder(inp))
      || (e == AllocationSum && AllocationOff(inp))
  {
    var a := if IsKnownFrequency(inp.contributionFrequency) then [] else [BadFrequency];
    var b := if AgesOutOfOrder(inp) then [AgeOrder] else [];
    var c := if AllocationOff(inp) then [AllocationSum] else [];
    assert CrossErrors(inp) == a + b + c;
    assert e in a + b + c <==> e in a || e in b || e in c;
  }

  /** An empty field is reported as empty, and only an empty field is. */
  lemma EmptyFieldReported(inp: Inputs, f: FieldName)
    ensures EmptyField(f) in Errors(inp) <==> IsEmpty(inp.Get(f))
  {
    var e := EmptyField(f);
    ErrorsSplit(inp, e);
    CrossErrorsShape(inp, e);
    assert e !in CrossErrors(inp);
    FieldErrorsShape(inp, RequiredFields, e);
    RequiredFieldsCover(f);
    FieldErrorKinds(f, inp.Get(f));
  }

  /** A present value that is NaN or negative is reported as not a non-negative number; an empty one never is. */
  lemma NegativeFieldReported(inp: Inputs, f: FieldName)
    ensures NotNonNegative(f) in Errors(inp) <==> !IsEmpty(inp.Get(f)) && IsNaNOrNegative(inp.Get(f))
  {
    var e := NotNonNegative(f);
    ErrorsSplit(inp, e);
    CrossErrorsShape(inp, e);
    assert e !in CrossErrors(inp);
    FieldErrorsShape(inp, RequiredFields, e);
    RequiredFieldsCover(f);
    FieldErrorKinds(f, inp.Get(f));
  }

  lemma FieldErrorKinds(f: FieldName, v: FieldValue)
    ensures EmptyField(f) in FieldError(f, v) <==> IsEmpty(v)
    ensures NotNonNegative(f) in FieldError(f, v) <==> !IsEmpty(v) && IsNaNOrNegative(v)
  {
  }

  /** Any frequency other than exactly 'monthly' or 'yearly' is reported, and those two never are. */
  lemma FrequencyReported(inp: Inputs)
    ensures BadFrequency in Errors(inp) <==> inp.contributionFrequency !in {Some("monthly"), Some("yearly")}
  {
    ErrorsSplit(inp, BadFrequency);
    FieldErrorsShape(inp, RequiredFields, BadFrequency);
    CrossErrorsShape(inp, BadFrequency);
  }

  /** The age-ordering error fires exactly when both ages coerce to numbers and retirement is not later. */
  lemma AgeOrderReported(inp: Inputs)
    ensures AgeOrder in Errors(inp) <==>
      ToNumber(inp.retirementAge).Finite? && ToNumber(inp.currentAge).Finite?
      && ToNumber(inp.retirementAge).v <= ToNumber(inp.currentAge).v
  {
    ErrorsSplit(inp, AgeOrder);
    FieldErrorsShape(inp, RequiredFields, AgeOrder);
    CrossErrorsShape(inp, AgeOrder);
  }

  /** The allocation error fires exactly when the coerced sum is a number more than 0.01 away from 100. */
  lemma AllocationReported(inp: Inputs)
    ensures AllocationSum in Errors(inp) <==>
      var stocks, bonds := ToNumber(inp.stocksPercentage), ToNumber(inp.bondsPercentage);
      stocks.Finite? && bonds.Finite? && (stocks.v + bonds.v > 100.01 || stocks.v + bonds.v < 99.99)
  {
    assert AllocationSum in Errors(inp) <==> AllocationOff(inp) by {
      ErrorsSplit(inp, AllocationSum);
      FieldErrorsShape(inp, RequiredFields, AllocationSum);
      CrossErrorsShape(inp, AllocationSum);
    }
  }

  /** Errors appear in the order of the checks that emit them, each check at most once. */
  ghost predicate StrictlyRanked(es: seq<ValidationError>)
  {
    forall i, j :: 0 <= i < j < |es| ==> es[i].Rank() < es[j].Rank()
  }

  /** Fields listed in strictly increasing declaration order. */
  ghost predicate InDeclarationOrder(fs: seq<FieldName>)
  {
    forall i, j :: 0 <= i < j < |fs| ==> fs[i].Index() < fs[j].Index()
  }

  lemma {:induction false} FieldErrorsRanked(inp: Inputs, fs: seq<FieldName>)
    requires InDeclarationOrder(fs)
    ensures StrictlyRanked(FieldErrors(inp, fs))
    ensures fs != [] ==> forall k :: 0 <= k < |FieldErrors(inp, fs)| ==>
      FieldErrors(inp, fs)[k].Rank() <= fs[|fs| - 1].Index()
  {
    if fs != [] {
      var init, last := fs[..|fs| - 1], fs[|fs| - 1];
      FieldErrorsRanked(inp, init);
      var pre := FieldErrors(inp, init);
      var one := FieldError(last, inp.Get(last));
      assert FieldErrors(inp, fs) == pre + one;
      assert forall k :: 0 <= k < |one| ==> one[k].Rank() == last.Index();
      if init != [] {
        assert init[|init| - 1].Index() < last.Index();
      }
    }
  }

  /** Field errors come in declaration order, then the frequency, age and allocation errors. */
  lemma ErrorsInCheckOrder(inp: Inputs)
    ensures StrictlyRanked(Errors(inp))
  {
    assert forall i :: 0 <= i < |RequiredFields| ==> RequiredFields[i].Index() == i;
    FieldErrorsRanked(inp, RequiredFields);
    var fe := FieldErrors(inp, RequiredFields);
    var badFrequency, ageOrder, allocation :=
      !IsKnownFrequency(inp.contributionFrequency), AgesOutOfOrder(inp), AllocationOff(inp);
    var ce := CrossList(badFrequency, ageOrder, allocation);
    assert Errors(inp) == fe + ce;
    assert forall k :: 0 <= k < |fe| ==> fe[k].Rank() <= 9;
    CrossListRanked(badFrequency, ageOrder, allocation);
    RankedAppend(fe, ce, 0, 9);
  }

  lemma CrossListRanked(badFrequency: bool, ageOrder: bool, allocation: bool)
    ensures StrictlyRanked(CrossList(badFrequency, ageOrder, allocation))
    ensures forall k :: 0 <= k < |CrossList(badFrequency, ageOrder, allocation)| ==>
      CrossList(badFrequency, ageOrder, allocation)[k].Rank() >= 10
  {
    var cs := CrossList(badFrequency, ageOrder, allocation);
    if badFrequency && ageOrder && allocation {
      assert cs == [BadFrequency, AgeOrder, AllocationSum];
    } else if badFrequency && ageOrder {
      assert cs == [BadFrequency, AgeOrder];
    } else if badFrequency && allocation {
      assert cs == [BadFrequency, AllocationSum];
    } else if ageOrder && allocation {
      assert cs == [AgeOrder, AllocationSum];
    } else {
      assert |cs| <= 1;
    }
  }

  /** Two ranked lists whose ranks are separated by `bound` stay ranked when joined. */
  lemma RankedAppend(xs: seq<ValidationError>, ys: seq<ValidationError>, low: nat, bound: nat)
    requires StrictlyRanked(xs) && StrictlyRanked(ys)
    requires low <= bound
    requires forall k :: 0 <= k < |xs| ==> low <= xs[k].Rank() <= bound
    requires forall k :: 0 <= k < |ys| ==> bound < ys[k].Rank()
    ensures StrictlyRanked(xs + ys)
    ensures forall k :: 0 <= k < |xs + ys| ==> low <= (xs + ys)[k].Rank()
  {
    var es := xs + ys;
    forall i, j | 0 <= i < j < |es| ensures es[i].Rank() < es[j].Rank() {
      if j < |xs| {
        assert es[i] == xs[i] && es[j] == xs[j];
      } else if i < |xs| {
        assert es[i] == xs[i] && es[j] == ys[j - |xs|];
      } else {
        assert es[i] == ys[i - |xs|] && es[j] == ys[j - |xs|];
      }
    }
    forall k | 0 <= k < |es| ensures low <= es[k].Rank() {
      if k < |xs| {
        assert es[k] == xs[k];
      } else {
        assert es[k] == ys[k - |xs|];
      }
    }
  }

  lemma {:induction false} RankBoundsPosition(es: seq<ValidationError>, i: nat)
    requires StrictlyRanked(es) && i < |es|
    ensures es[i].Rank() >= i
  {
    if i > 0 {
      RankBoundsPosition(es, i - 1);
    }
  }

  /** Ten field checks and three cross-field checks: at most 13 errors. */
  lemma AtMostThirteenErrors(inp: Inputs)
    ensures |Errors(inp)| <= 13
  {
    ErrorsInCheckOrder(inp);
    if |Errors(inp)| > 13 {
      RankBoundsPosition(Errors(inp), 13);
    }
  }

  /** No required field is reported twice, whether as empty or as not a non-negative number. */
  lemma AtMostOneErrorPerField(inp: Inputs, i: nat, j: nat)
    requires i < |Errors(inp)| && j < |Errors(inp)|
    requires Errors(inp)[i].EmptyField? || Errors(inp)[i].NotNonNegative?
    requires Errors(inp)[j].EmptyField? || Errors(inp)[j].NotNonNegative?
    requires Errors(inp)[i].field == Errors(inp)[j].field
    ensures i == j
  {
    ErrorsInCheckOrder(inp);
  }

  lemma OrderedPrefix(fs: seq<FieldName>)
    requires InDeclarationOrder(fs) && fs != []
    ensures InDeclarationOrder(fs[..|fs| - 1])
    ensures forall k :: 0 <= k < |fs| - 1 ==> fs[k].Index() < fs[|fs| - 1].Index()
  {
  }

  lemma {:induction false} OnlyFieldInError(inp: Inputs, fs: seq<FieldName>, f: FieldName)
    requires InDeclarationOrder(fs)
    requires forall g: FieldName :: g != f ==> FieldOk(inp.Get(g))
    requires !FieldOk(inp.Get(f))
    ensures FieldErrors(inp, fs) == if f in fs then FieldError(f, inp.Get(f)) else []
  {
    if fs != [] {
      var init, last := fs[..|fs| - 1], fs[|fs| - 1];
      OrderedPrefix(fs);
      OnlyFieldInError(inp, init, f);
      assert fs == init + [last];
      assert f in fs <==> f in init || f == last;
      assert FieldErrors(inp, fs) == FieldErrors(inp, init) + FieldError(last, inp.Get(last));
      if last == f {
        assert f !in init by {
          forall k | 0 <= k < |init| ensures init[k] != f {
            assert init[k].Index() < last.Index();
          }
        }
      } else {
        FieldErrorEmpty(last, inp.Get(last));
      }
    }
  }

  /**
   * A single bad field among otherwise valid fields gives exactly one field error, naming it:
   * "cannot be empty" when it is empty, "must be a non-negative number" otherwise.
   */
  lemma SingleBadFieldSingleError(inp: Inputs, f: FieldName)
    requires forall g: FieldName :: g != f ==> FieldOk(inp.Get(g))
    requires !FieldOk(inp.Get(f))
    ensures FieldErrors(inp, RequiredFields) ==
      if IsEmpty(inp.Get(f)) then [EmptyField(f)] else [NotNonNegative(f)]
  {
    assert forall i :: 0 <= i < |RequiredFields| ==> RequiredFields[i].Index() == i;
    OnlyFieldInError(inp, RequiredFields, f);
    RequiredFieldsCover(f);
  }

  /** Distinct fields have distinct property names (told apart by length and first letter). */
  lemma KeyInjective(f: FieldName, g: FieldName)
    requires f.Key() == g.Key()
    ensures f == g
  {
    assert |f.Key()| == |g.Key()| && f.Key()[0] == g.Key()[0];
  }

  lemma {:induction false} FieldMessageParts(e: ValidationError)
    requires e.EmptyField? || e.NotNonNegative?
    ensures var m, n := Message(e), if e.EmptyField? then 16 else 30;
      && |m| == 6 + |e.field.Key()| + n
      && m[0] == 'F'
      && m[|m| - 1] == (if e.EmptyField? then 'y' else 'r')
      && m[6..|m| - n] == e.field.Key()
  {
    var suffix := if e.EmptyField? then " cannot be empty" else " must be a non-negative number";
    var m := Message(e);
    assert m == "Field " + e.field.Key() + suffix;
    assert m[|m| - 1] == suffix[|suffix| - 1];
  }

  /** Distinct errors have distinct messages, so the message list determines the error list. */
  lemma MessageInjective(a: ValidationError, b: ValidationError)
    requires Message(a) == Message(b)
    ensures a == b
  {
    var m := Message(a);
    if a.EmptyField? || a.NotNonNegative? {
      FieldMessageParts(a);
      if b.EmptyField? || b.NotNonNegative? {
        FieldMessageParts(b);
        assert a.EmptyField? <==> b.EmptyField?;
        KeyInjective(a.field, b.field);
      }
    } else if b.EmptyField? || b.NotNonNegative? {
      FieldMessageParts(b);
    } else {
      assert m[0] == Message(b)[0];
    }
  }

  /** A message is in the reported list exactly when its error is in the error list. */
  lemma MessageReported(es: seq<ValidationError>, e: ValidationError)
    ensures Message(e) in Messages(es) <==> e in es
  {
    if Message(e) in Messages(es) {
      var k :| 0 <= k < |es| && Messages(es)[k] == Message(e);
      MessageInjective(es[k], e);
    }
  }

  // ---------------------------------------------------------------------------
  // The scenarios of the validator's test file
  // ---------------------------------------------------------------------------

  /** A fully valid argument object: ages 30 and 65, a 70/30 allocation, monthly contributions. */
  function ValidExample(): Inputs
  {
    Inputs(Num(30.0), Num(65.0), Num(100000.0), Num(500.0), Num(5.0), Num(35.0),
           Num(30000.0), Num(2.0), Num(70.0), Num(30.0), Some("monthly"))
  }

  lemma ValidExampleAccepted()
    ensures Messages(Errors(ValidExample())) == []
  {
    var inp := ValidExample();
    assert Acceptable(inp) by {
      forall f: FieldName ensures FieldOk(inp.Get(f)) {
      }
    }
    NoErrorsIffAcceptable(inp);
    assert Errors(inp) == [];
  }

  /** The message the negative-savings scenario looks for. */
  lemma NegativeSavingsMessage()
    ensures Message(NotNonNegative(InitialSavings)) == "Field initialSavings" + " must be a non-negative number"
  {
    assert "Field " + InitialSavings.Key() == "Field initialSavings";
  }

  /** The message the empty-savings scenario looks for. */
  lemma EmptySavingsMessage()
    ensures Message(EmptyField(InitialSavings)) == "Field initialSavings cannot be empty"
  {
    assert "Field " + InitialSavings.Key() == "Field initialSavings";
  }

  /** In the valid example, a bad savings value is the only thing reported. */
  lemma SavingsOnlyError(v: FieldValue)
    requires !FieldOk(v)
    ensures Errors(ValidExample().(initialSavings := v)) ==
      if IsEmpty(v) then [EmptyField(InitialSavings)] else [NotNonNegative(InitialSavings)]
  {
    var inp := ValidExample().(initialSavings := v);
    assert forall g: FieldName :: g != InitialSavings ==> FieldOk(inp.Get(g)) by {
      forall g: FieldName | g != InitialSavings ensures FieldOk(inp.Get(g)) {
      }
    }
    SingleBadFieldSingleError(inp, InitialSavings);
    assert IsKnownFrequency(inp.contributionFrequency);
    assert !AgesOutOfOrder(inp);
    AllocationOffOnNumbers(inp, 70.0, 30.0);
    assert CrossErrors(inp) == [];
  }

  lemma NegativeSavingsExample()
    ensures Messages(Errors(ValidExample().(initialSavings := Num(-100000.0))))
      == ["Field initialSavings" + " must be a non-negative number"]
  {
    SavingsOnlyError(Num(-100000.0));
    MessagesSingleton(NotNonNegative(InitialSavings));
    NegativeSavingsMessage();
  }

  lemma EmptySavingsExample()
    ensures Messages(Errors(ValidExample().(initialSavings := EmptyStr)))
      == ["Field initialSavings cannot be empty"]
  {
    SavingsOnlyError(EmptyStr);
    MessagesSingleton(EmptyField(InitialSavings));
    EmptySavingsMessage();
  }

  /** On two numeric percentages, the allocation check compares their sum with 100 within 0.01. */
  lemma AllocationOffOnNumbers(inp: Inputs, stocks: real, bonds: real)
    requires inp.stocksPercentage == Num(stocks) && inp.bondsPercentage == Num(bonds)
    ensures AllocationOff(inp) <==> stocks + bonds - 100.0 > 0.01 || 100.0 - (stocks + bonds) > 0.01
  {
  }

  /** With every field a non-negative number, only the cross-field checks can report. */
  lemma OnlyCrossErrors(inp: Inputs)
    requires forall f: FieldName :: FieldOk(inp.Get(f))
    ensures Errors(inp) == CrossErrors(inp)
  {
    FieldErrorsEmpty(inp, RequiredFields);
  }

  lemma EqualAgesExample()
    ensures Messages(Errors(ValidExample().(currentAge := Num(65.0))))
      == ["Retirement age must be greater than current age"]
  {
    var inp := ValidExample().(currentAge := Num(65.0));
    assert forall f: FieldName :: FieldOk(inp.Get(f)) by {
      forall f: FieldName ensures FieldOk(inp.Get(f)) {
      }
    }
    OnlyCrossErrors(inp);
    assert IsKnownFrequency(inp.contributionFrequency);
    assert AgesOutOfOrder(inp);
    AllocationOffOnNumbers(inp, 70.0, 30.0);
    assert CrossErrors(inp) == [AgeOrder];
    MessagesSingleton(AgeOrder);
  }

  lemma AllocationExample()
    ensures Messages(Errors(ValidExample().(bondsPercentage := Num(20.0))))
      == ["Sum of stocks and bonds allocation must equal 100%"]
  {
    var inp := ValidExample().(bondsPercentage := Num(20.0));
    assert forall f: FieldName :: FieldOk(inp.Get(f)) by {
      forall f: FieldName ensures FieldOk(inp.Get(f)) {
      }
    }
    OnlyCrossErrors(inp);
    assert IsKnownFrequency(inp.contributionFrequency);
    assert !AgesOutOfOrder(inp);
    AllocationOffOnNumbers(inp, 70.0, 20.0);
    assert CrossErrors(inp) == [AllocationSum];
    MessagesSingleton(AllocationSum);
  }

  lemma WeeklyFrequencyExample()
    ensures Messages(Errors(ValidExample().(contributionFrequency := Some("weekly"))))
      == ["Contribution frequency must be either 'monthly' or 'yearly'"]
  {
    var inp := ValidExample().(contributionFrequency := Some("weekly"));
    assert forall f: FieldName :: FieldOk(inp.Get(f)) by {
      forall f: FieldName ensures FieldOk(inp.Get(f)) {
      }
    }
    OnlyCrossErrors(inp);
    assert !IsKnownFrequency(inp.contributionFrequency);
    assert !AgesOutOfOrder(inp);
    AllocationOffOnNumbers(inp, 70.0, 30.0);
    assert CrossErrors(inp) == [BadFrequency];
    MessagesSingleton(BadFrequency);
  }
}
