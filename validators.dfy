/**
 The range validators of validators.js. Each one answers `true` for an
 accepted number or a fixed human-readable message for a rejected one; here
 that is `Accepted` or `Rejected(message)`. Inputs are the prompt's
 JavaScript numbers: a finite value, an infinity, or `NaN`, which every
 comparison answers with `false`.
 */
module Validators {

  datatype Verdict = Accepted | Rejected(message: string)

  /** A JavaScript number as a number prompt can deliver it. */
  datatype PromptNumber = Finite(value: real) | PositiveInfinity | NegativeInfinity | NaN

  /** `input < bound`: false for `NaN`. */
  predicate Below(input: PromptNumber, bound: real)
  {
    match input
    case Finite(x) => x < bound
    case PositiveInfinity => false
    case NegativeInfinity => true
    case NaN => false
  }

  /** `input > bound`: false for `NaN`. */
  predicate Above(input: PromptNumber, bound: real)
  {
    match input
    case Finite(x) => x > bound
    case PositiveInfinity => true
    case NegativeInfinity => false
    case NaN => false
  }

  /** Ages from 1 to 100, both inclusive; the lower bound is checked first. `NaN` fails neither test. */
  function ValidateAge(input: PromptNumber): (v: Verdict)
    ensures v == Accepted <==> input.NaN? || (input.Finite? && 1.0 <= input.value <= 100.0)
    ensures v == Rejected("Age must be at least 1.") <==>
              input.NegativeInfinity? || (input.Finite? && input.value < 1.0)
    ensures v == Rejected("Age must be at most 100.") <==>
              input.PositiveInfinity? || (input.Finite? && input.value > 100.0)
  {
    if Below(input, 1.0) then Rejected("Age must be at least 1.")
    else if Above(input, 100.0) then Rejected("Age must be at most 100.")
    else Accepted
  }

  /** Target amounts of at least 100000. */
  function ValidateTargetAmount(input: PromptNumber): (v: Verdict)
    ensures v == Accepted <==>
              input.NaN? || input.PositiveInfinity? || (input.Finite? && input.value >= 100000.0)
    ensures v == Rejected("Amount must be at least 100000.") <==>
              input.NegativeInfinity? || (input.Finite? && input.value < 100000.0)
  {
    if Below(input, 100000.0) then Rejected("Amount must be at least 100000.")
    else Accepted
  }

  /** Non-negative amounts (used for the current amount and the regular contribution). */
  function ValidateAmount(input: PromptNumber): (v: Verdict)
    ensures v == Accepted <==>
              input.NaN? || input.PositiveInfinity? || (input.Finite? && input.value >= 0.0)
    ensures v == Rejected("Amount must be at least 0.") <==>
              input.NegativeInfinity? || (input.Finite? && input.value < 0.0)
  {
    if Below(input, 0.0) then Rejected("Amount must be at least 0.")
    else Accepted
  }

  /** Contribution intervals from 0 to 12 months, both inclusive. */
  function ValidateInvestInterval(input: PromptNumber): (v: Verdict)
    ensures v == Accepted <==> input.NaN? || (input.Finite? && 0.0 <= input.value <= 12.0)
    ensures v == Rejected("Interval must be at least 0.") <==>
              input.NegativeInfinity? || (input.Finite? && input.value < 0.0)
    ensures v == Rejected("Interval must be at most 12.") <==>
              input.PositiveInfinity? || (input.Finite? && input.value > 12.0)
  {
    if Below(input, 0.0) then Rejected("Interval must be at least 0.")
    else if Above(input, 12.0) then Rejected("Interval must be at most 12.")
    else Accepted
  }

  /** Annual rates from 0 to 100 percent, both inclusive. */
  function ValidateAnnualRate(input: PromptNumber): (v: Verdict)
    ensures v == Accepted <==> input.NaN? || (input.Finite? && 0.0 <= input.value <= 100.0)
    ensures v == Rejected("Rate must be at least 0.") <==>
              input.NegativeInfinity? || (input.Finite? && input.value < 0.0)
    ensures v == Rejected("Rate must be at most 100.") <==>
              input.PositiveInfinity? || (input.Finite? && input.value > 100.0)
  {
    if Below(input, 0.0) then Rejected("Rate must be at least 0.")
    else if Above(input, 100.0) then Rejected("Rate must be at most 100.")
    else Accepted
  }
}
