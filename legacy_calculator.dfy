/**
 The older copy of `calculateFireAge` kept in index.js. Its loop is the loop
 of calculator.js (same contribution, compounding and check order, the
 ceiling written as the literal 70), but it has no immediate-success check:
 the first period always runs. index.js feeds it the prompt answers checked
 by the validators of validators.js.
 */
module LegacyCalculator {
  import opened Wrappers
  import opened Calculator
  import opened Validators

  /** What the index.js `calculateFireAge` returns: the projection loop from period 0. */
  function LegacyFireAge(inp: Input, periodRate: real): (res: Outcome)
    ensures res.canReach <==> res.ageReached.Some?
    ensures res.canReach ==> res.finalAmount >= inp.fireAmount
    ensures inp.currentAge > MaxFireAge ==> res == NotReached(inp.currentAmount)
  {
    Simulate(inp, periodRate, 0, inp.currentAmount)
  }

  /** The index.js `calculateFireAge`. */
  method CalculateFireAge(inp: Input, periodRate: real) returns (result: Outcome)
    ensures result == LegacyFireAge(inp, periodRate)
  {
    var age := inp.currentAge;
    var amount := inp.currentAmount;
    var periodsPerYear := PeriodsPerYear(inp.compoundFrequency);
    var cadence := Cadence(inp.investInterval, periodsPerYear);
    var periods: nat := 0;
    assert periodsPerYear == Ppy(inp) && (70 - age) * periodsPerYear == Headroom(age, periodsPerYear);
    while periods <= (70 - age) * periodsPerYear
      invariant Simulate(inp, periodRate, periods, amount) == LegacyFireAge(inp, periodRate)
      decreases (70 - age) * periodsPerYear - periods + 1
    {
      ghost var before := amount;
      ghost var contribution := Contribution(inp, periods);
      assert contribution == if ContributesAt(periods, cadence) then inp.regularlyInvestment else 0.0;
      if cadence != 0 && periods % cadence == 0 && periods != 0 {
        amount := amount + inp.regularlyInvestment;
      }
      GrowAfterContribution(inp, periodRate, periods, before, amount);
      amount := amount * (1.0 + periodRate);
      assert amount == Grow(inp, periodRate, periods, before);
      if amount >= inp.fireAmount {
        return Reached(AgeAt(age, periodsPerYear, periods), amount);
      }
      periods := periods + 1;
    }
    return NotReached(amount);
  }

  /**
   Exactly where the two copies agree: below the target always; at or above
   it only when the starting age is within the ceiling and the first
   compounding step leaves the amount unchanged.
   */
  lemma AgreementExactly(inp: Input, periodRate: real)
    ensures LegacyFireAge(inp, periodRate) == FireAge(inp, periodRate)
        <==> inp.currentAmount < inp.fireAmount
             || (inp.currentAge <= MaxFireAge && AmountAfter(inp, periodRate, 1) == inp.currentAmount)
  {
    var ppy := Ppy(inp);
    var h := HorizonSteps(inp.currentAge, ppy);
    var legacy := LegacyFireAge(inp, periodRate);
    if inp.currentAmount >= inp.fireAmount && inp.currentAge <= MaxFireAge {
      var first := AmountAfter(inp, periodRate, 1);
      assert InHorizon(inp.currentAge, ppy, 0);
      assert AmountAfter(inp, periodRate, 0) == inp.currentAmount;
      assert first == Grow(inp, periodRate, 0, inp.currentAmount);
      if first >= inp.fireAmount {
        assert legacy == Reached(AgeAt(inp.currentAge, ppy, 0), first);
      } else {
        assert legacy == Simulate(inp, periodRate, 1, first);
        assert ShortOf(inp, periodRate, 1);
        SimulateOutcome(inp, periodRate, 1);
        if legacy.canReach {
          var n :| 1 < n <= h
            && legacy == Reached(AgeAt(inp.currentAge, ppy, n - 1), AmountAfter(inp, periodRate, n));
          assert AgeAt(inp.currentAge, ppy, n - 1) > inp.currentAge as real;
        }
      }
    }
  }

  /** Already at the target, the legacy copy still compounds once before reporting success. */
  lemma AlreadyAtTarget(inp: Input, periodRate: real)
    requires inp.currentAmount >= inp.fireAmount && inp.currentAmount >= 0.0
    requires inp.currentAge <= MaxFireAge && periodRate >= 0.0
    ensures LegacyFireAge(inp, periodRate)
         == Reached(inp.currentAge as real, inp.currentAmount * (1.0 + periodRate))
    ensures FireAge(inp, periodRate) == Reached(inp.currentAge as real, inp.currentAmount)
  {
    var ppy := Ppy(inp);
    assert InHorizon(inp.currentAge, ppy, 0);
    assert inp.currentAmount * (1.0 + periodRate) == inp.currentAmount + inp.currentAmount * periodRate;
  }

  /** Past the ceiling the legacy loop never runs, so even a met target is reported unreachable. */
  lemma PastCeiling(inp: Input, periodRate: real)
    requires inp.currentAge > MaxFireAge
    ensures LegacyFireAge(inp, periodRate) == NotReached(inp.currentAmount)
    ensures inp.currentAmount >= inp.fireAmount ==>
              FireAge(inp, periodRate) == Reached(inp.currentAge as real, inp.currentAmount)
  {
    assert !InHorizon(inp.currentAge, Ppy(inp), 0);
  }

  /**
   Shape of the legacy result: a reachable target comes with an age within
   `[currentAge, 70]` and an amount that meets it; an unreachable one with a
   null age, and an amount below the target whenever the loop ran at all.
   */
  lemma LegacyOutcomeShape(inp: Input, periodRate: real)
    ensures var res := LegacyFireAge(inp, periodRate);
      && (res.canReach ==>
           && res.ageReached.Some?
           && res.finalAmount >= inp.fireAmount
           && inp.currentAge as real <= res.ageReached.value <= MaxFireAge as real)
      && (!res.canReach ==>
           res.ageReached == None
           && (inp.currentAge <= MaxFireAge ==> res.finalAmount < inp.fireAmount))
  {
    var ppy := Ppy(inp);
    var h := HorizonSteps(inp.currentAge, ppy);
    var res := LegacyFireAge(inp, periodRate);
    SimulateOutcome(inp, periodRate, 0);
    if res.canReach {
      var n :| 0 < n <= h
        && res == Reached(AgeAt(inp.currentAge, ppy, n - 1), AmountAfter(inp, periodRate, n));
      assert InHorizon(inp.currentAge, ppy, n - 1);
      InHorizonIsAgeBound(inp.currentAge, ppy, n - 1);
    } else if inp.currentAge <= MaxFireAge {
      assert ShortOf(inp, periodRate, h);
    }
  }

  /** The five prompt validators of index.js all accept the inputs, each read as a finite number. */
  predicate AcceptedByPrompts(inp: Input)
  {
    && ValidateAge(Finite(inp.currentAge as real)) == Accepted
    && ValidateTargetAmount(Finite(inp.fireAmount)) == Accepted
    && ValidateAmount(Finite(inp.currentAmount)) == Accepted
    && ValidateAmount(Finite(inp.regularlyInvestment)) == Accepted
    && ValidateInvestInterval(Finite(inp.investInterval as real)) == Accepted
    && ValidateAnnualRate(Finite(inp.annualPercentage)) == Accepted
  }

  /**
   Inputs that pass the prompts, with the effective periodic rate of their
   annual percentage, never end below the starting amount, and contributions
   fall at most once per period.
   */
  lemma ValidatedProjectionGrows(inp: Input, periodRate: real)
    requires AcceptedByPrompts(inp)
    requires IsPeriodRate(inp.annualPercentage, Ppy(inp), periodRate)
    ensures LegacyFireAge(inp, periodRate).finalAmount >= inp.currentAmount
    ensures 0 <= Cadence(inp.investInterval, Ppy(inp)) <= Ppy(inp)
  {
    RateNonNegative(inp.annualPercentage, Ppy(inp), periodRate);
    var h := HorizonSteps(inp.currentAge, Ppy(inp));
    var res := LegacyFireAge(inp, periodRate);
    SimulateOutcome(inp, periodRate, 0);
    if res.canReach {
      var n :| 0 < n <= h
        && res == Reached(AgeAt(inp.currentAge, Ppy(inp), n - 1), AmountAfter(inp, periodRate, n));
      AmountNonDecreasing(inp, periodRate, n);
    } else {
      AmountNonDecreasing(inp, periodRate, h);
    }
  }
}
