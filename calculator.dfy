/**
 The coast-FIRE projection of calculator.js: starting from the current
 balance, simulate one compounding period after another (adding the regular
 contribution on its cadence) until the target amount is reached or the
 fixed age ceiling is passed.

 Money is modelled with `real`; the per-period growth rate, which the source
 obtains from `Math.pow`, is a parameter `periodRate` (see IsPeriodRate).
 */
module Calculator {
  import opened Wrappers

  /** The fixed age ceiling of the projection (MAX_FIRE_AGE). */
  const MaxFireAge: int := 70

  /** The seven scalar inputs of one projection. */
  datatype Input = Input(
    currentAge: int,
    fireAmount: real,
    currentAmount: real,
    regularlyInvestment: real,
    investInterval: int,        // months between contributions
    annualPercentage: real,
    compoundFrequency: string)

  /** The result record `{canReach, ageReached, finalAmount}`; `None` stands for `null`. */
  datatype Outcome = Outcome(canReach: bool, ageReached: Option<real>, finalAmount: real)

  function Reached(age: real, amount: real): Outcome
  {
    Outcome(true, Some(age), amount)
  }

  function NotReached(amount: real): Outcome
  {
    Outcome(false, None, amount)
  }

  /** Compounding periods per year: 'annual' and 'quarter' are recognised, anything else is monthly. */
  function PeriodsPerYear(compoundFrequency: string): (ppy: int)
    ensures ppy == 1 <==> compoundFrequency == "annual"
    ensures ppy == 4 <==> compoundFrequency == "quarter"
    ensures ppy == 12 <==> compoundFrequency != "annual" && compoundFrequency != "quarter"
  {
    if compoundFrequency == "annual" then 1
    else if compoundFrequency == "quarter" then 4
    else 12
  }

  function Ppy(inp: Input): (ppy: int)
    ensures ppy > 0
  {
    PeriodsPerYear(inp.compoundFrequency)
  }

  /**
   The number of periods between two contributions,
   `Math.round(investInterval / (12 / periodsPerYear))`: the nearest integer,
   halves rounded up. A cadence of 0 makes `periods % 0` NaN, so no
   contribution is ever made.
   */
  function Cadence(investInterval: int, ppy: int): (c: int)
    requires ppy > 0
    ensures investInterval >= 0 ==> 0 <= c
  {
    (investInterval * ppy + 6) / 12
  }

  /** The cadence is `Math.round` of the interval measured in periods: the nearest integer, halves up. */
  lemma CadenceRounds(investInterval: int, ppy: int)
    requires ppy > 0
    ensures var c := Cadence(investInterval, ppy);
      (c as real) - 0.5 <= (investInterval as real) / (12.0 / ppy as real) < (c as real) + 0.5
  {
    var c := Cadence(investInterval, ppy);
    assert 12 * c - 6 <= investInterval * ppy < 12 * c + 6;
    assert (investInterval as real) / (12.0 / ppy as real) == (investInterval * ppy) as real / 12.0;
  }

  /** Is a contribution due at period `k`? Never at period 0, never with cadence 0. */
  predicate ContributesAt(k: nat, cadence: int)
  {
    k != 0 && cadence != 0 && k % cadence == 0
  }

  /** How many periods separate the current age from the ceiling (negative once past it). */
  function Headroom(currentAge: int, ppy: int): int
  {
    (MaxFireAge - currentAge) * ppy
  }

  lemma HeadroomSign(currentAge: int, ppy: int)
    requires ppy > 0
    ensures currentAge <= MaxFireAge <==> Headroom(currentAge, ppy) >= 0
  {
    var d := MaxFireAge - currentAge;
    if d < 0 {
      assert d * ppy <= -1 * ppy by { MulMonotone(d, -1, ppy); }
    } else {
      assert d * ppy >= 0 * ppy by { MulMonotone(0, d, ppy); }
    }
  }

  lemma MulMonotone(x: int, y: int, z: int)
    requires x <= y && z >= 0
    ensures x * z <= y * z
  {
    assert y * z - x * z == (y - x) * z;
  }

  /** The loop condition `age + periods / periodsPerYear <= MAX_FIRE_AGE`, evaluated in integers. */
  predicate InHorizon(currentAge: int, ppy: int, k: nat)
  {
    k <= Headroom(currentAge, ppy)
  }

  /** The integer loop condition is exactly the source's comparison of the fractional age with the ceiling. */
  lemma InHorizonIsAgeBound(currentAge: int, ppy: int, k: nat)
    requires ppy > 0
    ensures InHorizon(currentAge, ppy, k) <==> AgeAt(currentAge, ppy, k) <= MaxFireAge as real
  {
    assert MaxFireAge as real - AgeAt(currentAge, ppy, k)
        == (Headroom(currentAge, ppy) - k) as real / (ppy as real);
  }

  /** How many periods the loop can visit: exactly the periods `0 .. n-1`. */
  function HorizonSteps(currentAge: int, ppy: int): (n: nat)
    requires ppy > 0
    ensures forall k: nat :: InHorizon(currentAge, ppy, k) <==> k < n
    ensures currentAge <= MaxFireAge ==> n == (MaxFireAge - currentAge) * ppy + 1
    ensures currentAge > MaxFireAge ==> n == 0
  {
    HeadroomSign(currentAge, ppy);
    if currentAge <= MaxFireAge then Headroom(currentAge, ppy) + 1 else 0
  }

  /** The age at period `k`: `age + periods / periodsPerYear`. */
  function AgeAt(currentAge: int, ppy: int, k: nat): real
    requires ppy > 0
  {
    (currentAge as real) + (k as real) / (ppy as real)
  }

  /** What is added before compounding at period `k`: the contribution when due, otherwise nothing. */
  function Contribution(inp: Input, k: nat): real
  {
    if ContributesAt(k, Cadence(inp.investInterval, Ppy(inp))) then inp.regularlyInvestment else 0.0
  }

  /** One loop body: the contribution (if due at period `k`), then one compounding step. */
  function Grow(inp: Input, periodRate: real, k: nat, amount: real): real
  {
    (amount + Contribution(inp, k)) * (1.0 + periodRate)
  }

  /** Compounding the amount with the period's contribution added is one loop body. */
  lemma GrowAfterContribution(inp: Input, periodRate: real, k: nat, before: real, added: real)
    requires added == before + Contribution(inp, k)
    ensures added * (1.0 + periodRate) == Grow(inp, periodRate, k, before)
  {
  }

  /** The running amount after the first `n` loop bodies (periods `0 .. n-1`). */
  function AmountAfter(inp: Input, periodRate: real, n: nat): real
  {
    if n == 0 then inp.currentAmount
    else Grow(inp, periodRate, n - 1, AmountAfter(inp, periodRate, n - 1))
  }

  /** The target is still missed after `n` periods. */
  predicate ShortOf(inp: Input, periodRate: real, n: nat)
  {
    AmountAfter(inp, periodRate, n) < inp.fireAmount
  }

  /** The loop of calculator.js entered at period `k` with running amount `amount`. */
  function Simulate(inp: Input, periodRate: real, k: nat, amount: real): (res: Outcome)
    ensures res.canReach <==> res.ageReached.Some?
    ensures res.canReach ==> res.finalAmount >= inp.fireAmount
    ensures !res.canReach && amount < inp.fireAmount ==> res.finalAmount < inp.fireAmount
    ensures !InHorizon(inp.currentAge, Ppy(inp), k) ==> res == NotReached(amount)
    decreases Headroom(inp.currentAge, Ppy(inp)) - k + 1
  {
    var ppy := Ppy(inp);
    if !InHorizon(inp.currentAge, ppy, k) then NotReached(amount)
    else
      var next := Grow(inp, periodRate, k, amount);
      if next >= inp.fireAmount then Reached(AgeAt(inp.currentAge, ppy, k), next)
      else Simulate(inp, periodRate, k + 1, next)
  }

  /** What `calculateFireAge` returns. */
  function FireAge(inp: Input, periodRate: real): (res: Outcome)
    ensures res.canReach <==> res.ageReached.Some?
    ensures res.canReach <==> res.finalAmount >= inp.fireAmount
    ensures inp.currentAmount >= inp.fireAmount ==> res == Reached(inp.currentAge as real, inp.currentAmount)
  {
    if inp.currentAmount >= inp.fireAmount then Reached(inp.currentAge as real, inp.currentAmount)
    else Simulate(inp, periodRate, 0, inp.currentAmount)
  }

  /** calculateFireAge: the immediate-success check, then the bounded projection loop. */
  method CalculateFireAge(inp: Input, periodRate: real) returns (result: Outcome)
    ensures result == FireAge(inp, periodRate)
  {
    var age := inp.currentAge;
    var amount := inp.currentAmount;
    if amount >= inp.fireAmount {
      return Reached(age as real, amount);
    }
    var periodsPerYear := PeriodsPerYear(inp.compoundFrequency);
    var cadence := Cadence(inp.investInterval, periodsPerYear);
    var periods: nat := 0;
    while InHorizon(age, periodsPerYear, periods)
      invariant Simulate(inp, periodRate, periods, amount) == FireAge(inp, periodRate)
      decreases Headroom(age, periodsPerYear) - periods + 1
    {
      ghost var before := amount;
      ghost var contribution := Contribution(inp, periods);
      assert contribution == if ContributesAt(periods, cadence) then inp.regularlyInvestment else 0.0;
      if cadence != 0 && periods % cadence == 0 && periods != 0 {
        amount := amount + inp.regularlyInvestment;
      }
      GrowAfterContribution(inp, periodRate, periods, before, amount);
      amount := amount * (1.0 + periodRate);
      assert amount == Grow(inp, periodRate, periods, before);
      if amount >= inp.fireAmount {
        return Reached(AgeAt(age, periodsPerYear, periods), amount);
      }
      periods := periods + 1;
    }
    return NotReached(amount);
  }

  // ---------------------------------------------------------------------------
  // What the projection promises.

  /**
   The loop entered at period `k`, with no earlier period having reached the
   target, either stops at the first period whose post-compounding amount
   reaches the target, or exhausts the horizon with the amount after its last
   period.
   */
  lemma {:induction false} SimulateOutcome(inp: Input, periodRate: real, k: nat)
    requires k <= HorizonSteps(inp.currentAge, Ppy(inp))
    requires forall m :: 1 <= m <= k ==> ShortOf(inp, periodRate, m)
    ensures var res := Simulate(inp, periodRate, k, AmountAfter(inp, periodRate, k));
      var h := HorizonSteps(inp.currentAge, Ppy(inp));
      && (res.canReach ==>
           exists n :: k < n <= h
             && res == Reached(AgeAt(inp.currentAge, Ppy(inp), n - 1), AmountAfter(inp, periodRate, n))
             && AmountAfter(inp, periodRate, n) >= inp.fireAmount
             && forall m :: 1 <= m < n ==> ShortOf(inp, periodRate, m))
      && (!res.canReach ==>
           res == NotReached(AmountAfter(inp, periodRate, h))
           && forall m :: 1 <= m <= h ==> ShortOf(inp, periodRate, m))
    decreases HorizonSteps(inp.currentAge, Ppy(inp)) - k
  {
    var ppy := Ppy(inp);
    var h := HorizonSteps(inp.currentAge, ppy);
    var amount := AmountAfter(inp, periodRate, k);
    var res := Simulate(inp, periodRate, k, amount);
    if k < h {
      var next := AmountAfter(inp, periodRate, k + 1);
      assert next == Grow(inp, periodRate, k, amount);
      assert InHorizon(inp.currentAge, ppy, k);
      if next >= inp.fireAmount {
        assert res == Reached(AgeAt(inp.currentAge, ppy, k), next);
        assert k < k + 1 <= h;
      } else {
        assert res == Simulate(inp, periodRate, k + 1, next);
        SimulateOutcome(inp, periodRate, k + 1);
      }
    } else {
      assert !InHorizon(inp.currentAge, ppy, k);
      assert res == NotReached(amount);
    }
  }

  /**
   The whole contract of calculateFireAge: immediate success without
   simulating, otherwise the first in-horizon period whose amount reaches the
   target, otherwise the amount after the last in-horizon period.
   */
  lemma FireAgeOutcome(inp: Input, periodRate: real)
    ensures var res := FireAge(inp, periodRate);
      var h := HorizonSteps(inp.currentAge, Ppy(inp));
      && (inp.currentAmount >= inp.fireAmount ==>
           res == Reached(inp.currentAge as real, inp.currentAmount))
      && (inp.currentAmount < inp.fireAmount && res.canReach ==>
           exists n :: 1 <= n <= h
             && res == Reached(AgeAt(inp.currentAge, Ppy(inp), n - 1), AmountAfter(inp, periodRate, n))
             && AmountAfter(inp, periodRate, n) >= inp.fireAmount
             && forall m :: 1 <= m < n ==> ShortOf(inp, periodRate, m))
      && (!res.canReach ==>
           inp.currentAmount < inp.fireAmount
           && res == NotReached(AmountAfter(inp, periodRate, h))
           && forall m :: 1 <= m <= h ==> ShortOf(inp, periodRate, m))
  {
    if inp.currentAmount < inp.fireAmount {
      SimulateOutcome(inp, periodRate, 0);
    }
  }

  /** The target is reported reachable exactly when it is met at the start or after some in-horizon period. */
  lemma CanReachIff(inp: Input, periodRate: real)
    ensures FireAge(inp, periodRate).canReach <==>
      (inp.currentAmount >= inp.fireAmount
       || exists n :: 1 <= n <= HorizonSteps(inp.currentAge, Ppy(inp))
                      && AmountAfter(inp, periodRate, n) >= inp.fireAmount)
  {
    FireAgeOutcome(inp, periodRate);
    var h := HorizonSteps(inp.currentAge, Ppy(inp));
    if !FireAge(inp, periodRate).canReach {
      forall n | 1 <= n <= h
        ensures AmountAfter(inp, periodRate, n) < inp.fireAmount
      {
        assert ShortOf(inp, periodRate, n);
      }
    }
  }

  /**
   Shape of the result: a reachable target comes with an age no earlier than
   the current one and, whenever the projection starts at or below the
   ceiling, no later than it, and an amount that meets the target; an
   unreachable one with a null age and an amount below the target.
   */
  lemma OutcomeShape(inp: Input, periodRate: real)
    ensures var res := FireAge(inp, periodRate);
      && (res.canReach ==>
           && res.ageReached.Some?
           && res.finalAmount >= inp.fireAmount
           && inp.currentAge as real <= res.ageReached.value
           && (inp.currentAge <= MaxFireAge ==> res.ageReached.value <= MaxFireAge as real))
      && (!res.canReach ==> res.ageReached == None && res.finalAmount < inp.fireAmount)
  {
    FireAgeOutcome(inp, periodRate);
    var res := FireAge(inp, periodRate);
    var ppy := Ppy(inp);
    if res.canReach && inp.currentAmount < inp.fireAmount {
      var n :| 1 <= n <= HorizonSteps(inp.currentAge, ppy)
        && res == Reached(AgeAt(inp.currentAge, ppy, n - 1), AmountAfter(inp, periodRate, n));
      assert InHorizon(inp.currentAge, ppy, n - 1);
    }
    if !res.canReach {
      var h := HorizonSteps(inp.currentAge, ppy);
      if h > 0 {
        assert ShortOf(inp, periodRate, h);
      }
    }
  }

  /** With a non-negative rate, contribution and start, the running amount never decreases. */
  lemma {:induction false} AmountNonDecreasing(inp: Input, periodRate: real, n: nat)
    requires periodRate >= 0.0 && inp.regularlyInvestment >= 0.0 && inp.currentAmount >= 0.0
    ensures inp.currentAmount <= AmountAfter(inp, periodRate, n) <= AmountAfter(inp, periodRate, n + 1)
  {
    if n > 0 {
      AmountNonDecreasing(inp, periodRate, n - 1);
    }
    var b := AmountAfter(inp, periodRate, n) + Contribution(inp, n);
    GrowthNonNegative(b, periodRate);
  }

  lemma GrowthNonNegative(b: real, periodRate: real)
    requires b >= 0.0 && periodRate >= 0.0
    ensures b * (1.0 + periodRate) >= b
  {
    assert b * (1.0 + periodRate) == b + b * periodRate;
  }

  /** Under the same conditions the reported amount is at least the starting amount. */
  lemma FinalAmountAtLeastStart(inp: Input, periodRate: real)
    requires periodRate >= 0.0 && inp.regularlyInvestment >= 0.0 && inp.currentAmount >= 0.0
    ensures FireAge(inp, periodRate).finalAmount >= inp.currentAmount
  {
    FireAgeOutcome(inp, periodRate);
    var res := FireAge(inp, periodRate);
    if res.canReach {
      if inp.currentAmount < inp.fireAmount {
        var n :| 1 <= n <= HorizonSteps(inp.currentAge, Ppy(inp))
          && res == Reached(AgeAt(inp.currentAge, Ppy(inp), n - 1), AmountAfter(inp, periodRate, n));
        AmountNonDecreasing(inp, periodRate, n);
      }
    } else {
      AmountNonDecreasing(inp, periodRate, HorizonSteps(inp.currentAge, Ppy(inp)));
    }
  }

  // ---------------------------------------------------------------------------
  // Independent descriptions of the running amount.

  /** How many contributions the first `n` periods receive: the positive multiples of the cadence below `n`. */
  function ContributionCount(n: nat, cadence: nat): nat
  {
    if n == 0 || cadence == 0 then 0 else (n - 1) / cadence
  }

  lemma ContributionCountStep(n: nat, cadence: nat)
    ensures ContributionCount(n + 1, cadence)
         == ContributionCount(n, cadence) + (if ContributesAt(n, cadence) then 1 else 0)
  {
    if n > 0 && cadence > 0 {
      var q, r := (n - 1) / cadence, (n - 1) % cadence;
      if r == cadence - 1 {
        DivModUnique(n, cadence, q + 1, 0);
      } else {
        DivModUnique(n, cadence, q, r + 1);
      }
    }
  }

  /** Quotient and remainder are determined by `n == q * d + r` with `0 <= r < d`. */
  lemma DivModUnique(n: int, d: int, q: int, r: int)
    requires d > 0 && n == q * d + r && 0 <= r < d
    ensures n / d == q && n % d == r
  {
    var q', r' := n / d, n % d;
    assert (q - q') * d == r' - r;
    if q' < q {
      MulMonotone(1, q - q', d);
    } else if q < q' {
      MulMonotone(1, q' - q, d);
    }
  }

  /** Contributions fall exactly on the positive multiples of the cadence. */
  lemma DueExactlyAtMultiples(q: nat, r: nat, cadence: int)
    requires cadence > 0 && r < cadence
    ensures ContributesAt(q * cadence + r, cadence) <==> q > 0 && r == 0
  {
    DivModUnique(q * cadence + r, cadence, q, r);
    if q > 0 {
      MulMonotone(1, q, cadence);
    }
  }

  /** Without growth, the amount is the start plus one contribution per due period. */
  lemma {:induction false} ZeroRateAmount(inp: Input, n: nat)
    requires inp.investInterval >= 0
    ensures AmountAfter(inp, 0.0, n)
         == inp.currentAmount
            + inp.regularlyInvestment * ContributionCount(n, Cadence(inp.investInterval, Ppy(inp))) as real
  {
    var cadence := Cadence(inp.investInterval, Ppy(inp));
    if n > 0 {
      ZeroRateAmount(inp, n - 1);
      ContributionCountStep(n - 1, cadence);
      assert AmountAfter(inp, 0.0, n) == AmountAfter(inp, 0.0, n - 1) + Contribution(inp, n - 1);
    }
  }

  /** `x` to the power `n`. */
  function Power(x: real, n: nat): real
  {
    if n == 0 then 1.0 else x * Power(x, n - 1)
  }

  lemma ScaleAssociates(c: real, p: real, x: real)
    ensures c * p * x == c * (x * p)
  {
  }

  /** Without contributions (none made, or a cadence of 0), the amount is pure compounding of the start. */
  lemma {:induction false} NoContributionAmount(inp: Input, periodRate: real, n: nat)
    requires inp.regularlyInvestment == 0.0 || Cadence(inp.investInterval, Ppy(inp)) == 0
    ensures AmountAfter(inp, periodRate, n) == inp.currentAmount * Power(1.0 + periodRate, n)
  {
    if n > 0 {
      NoContributionAmount(inp, periodRate, n - 1);
      var a := AmountAfter(inp, periodRate, n - 1);
      assert Contribution(inp, n - 1) == 0.0;
      GrowAfterContribution(inp, periodRate, n - 1, a, a);
      assert AmountAfter(inp, periodRate, n) == a * (1.0 + periodRate);
      ScaleAssociates(inp.currentAmount, Power(1.0 + periodRate, n - 1), 1.0 + periodRate);
    }
  }

  /**
   `periodRate` is the effective per-period rate of `annualPercentage`:
   compounded `ppy` times it gives the annual growth factor. This is what
   `Math.pow(1 + annualRate, 1 / periodsPerYear) - 1` computes, up to floating point.
   */
  ghost predicate IsPeriodRate(annualPercentage: real, ppy: nat, periodRate: real)
  {
    periodRate > -1.0 && Power(1.0 + periodRate, ppy) == 1.0 + annualPercentage / 100.0
  }

  lemma {:induction false} PowerBelowOne(x: real, n: nat)
    requires 0.0 < x < 1.0 && n > 0
    ensures 0.0 < Power(x, n) < 1.0
  {
    if n > 1 {
      PowerBelowOne(x, n - 1);
      var p := Power(x, n - 1);
      assert x * p < 1.0 * p;
    }
  }

  /** A non-negative annual percentage gives a non-negative periodic rate at every frequency. */
  lemma RateNonNegative(annualPercentage: real, ppy: nat, periodRate: real)
    requires ppy > 0 && annualPercentage >= 0.0 && IsPeriodRate(annualPercentage, ppy, periodRate)
    ensures periodRate >= 0.0
  {
    if periodRate < 0.0 {
      PowerBelowOne(1.0 + periodRate, ppy);
    }
  }
}
