# Coast-FIRE calculator and release script, modelled in Dafny

This project models the computational core of the coast-FIRE calculator CLI
and of its release script.

- `calculator.dfy` (module `Calculator`) models `calculateFireAge` of
  calculator.js. The projection starts from the current balance. It then runs
  one compounding period after another, adding the regular contribution on its
  cadence, until the balance reaches the target or the age passes the ceiling
  `MAX_FIRE_AGE` = 70.
  - The loop is a `method` with a `while` loop. It is proved equal to the
    specification function `FireAge`.
  - Lemmas about `FireAge` state what it returns in each case, the shape of the
    result, monotonicity, and closed forms with no growth or no contributions.
- `legacy_calculator.dfy` (module `LegacyCalculator`) models the older copy of
  `calculateFireAge` in index.js. It has no immediate-success check and writes
  the ceiling as a literal. The module proves exactly when the two copies agree.
  It also connects the prompt validators to the projection.
- `validators.dfy` (module `Validators`) models the five range validators of
  validators.js. Each returns `true` or a fixed message; here that is
  `Accepted` or `Rejected(message)`. The input is a JavaScript number: a
  finite value, an infinity or `NaN`. Every comparison with `NaN` is false,
  so every validator accepts `NaN`.
- `wrappers.dfy` (module `Wrappers`) holds the `Option` and `Result` types
  the other modules share.
- `text.dfy` (module `Text`) models the JavaScript string behaviour the release
  script depends on:
  - `split` and `join` with a one-character separator;
  - `startsWith`;
  - rendering a natural number in decimal and reading one back.
- `release.dfy` (module `Release`) models the pure logic of scripts/release.js:
  - `parseVersion` and `bumpVersion`, with JavaScript's `Number`, `NaN`,
    `undefined` and template rendering written out;
  - the release-type check of `main`;
  - the tag name;
  - the commit list of a changelog entry.

  The changelog's line array is a class, `ChangelogLines`, whose `lines` field
  is changed in place by `splice`. `package.json` is a class,
  `PackageManifest`, whose `version` field is reassigned.

Money is modelled as `real`. The per-period growth rate is a parameter,
`periodRate`, because the source computes it with `Math.pow` in floating point.
The predicate `IsPeriodRate` says what that rate is meant to be: compounded
once per period for a year, it gives the annual growth factor.

The reported age is not always at most 70. The tests bound `ageReached` by 70
only for starting ages up to 69 (__tests__/index.test.js:51, 68, 85 and 169).
calculator.js:17-19 reports an investor older than 70 who already holds the
target as reaching it at their current age. `Calculator.OutcomeShape`
therefore bounds the age by 70 only when the current age is at most 70.
`LegacyCalculator.PastCeiling` shows that the index.js copy reports the same
investor as never reaching the target.

The release script has a quirk when a pre-release is bumped again.
`Release.PrereleaseThenPatch` states the result. A `prepatch` bump writes
`M.m.(p+1)-0`. A later `patch` bump of that version reads the last field
`(p+1)-0` as `NaN`, so the new version is `M.m.NaN`.

## Model

| member | source | states |
|---|---|---|
| `Calculator.PeriodsPerYear` | calculator.js:21-24 | 'annual' gives exactly 1 period a year, 'quarter' exactly 4, and every other frequency 12 |
| `Calculator.Cadence` | calculator.js:31 | the number of periods between contributions is never negative for a non-negative month interval |
| `Calculator.CadenceRounds` | calculator.js:31 | the cadence is within one half of `investInterval / (12 / periodsPerYear)`, so it is `Math.round` of that quotient |
| `Calculator.HeadroomSign` | calculator.js:29 | the projection has non-negative room exactly when the current age is at most the ceiling |
| `Calculator.InHorizonIsAgeBound` | calculator.js:29 | the integer loop test is equivalent to the source's test `age + periods / periodsPerYear <= MAX_FIRE_AGE` |
| `Calculator.HorizonSteps` | calculator.js:29 | the periods the loop can visit are exactly `0 .. (70 - age) * periodsPerYear`, and there are none past the ceiling |
| `Calculator.Simulate` | calculator.js:29-42 | the loop from any period reports `canReach` exactly with a non-null age; a reached target comes with an amount at least the target; a loop entered below the target that ends unreached ends below it; a period past the ceiling ends at once with the amount unchanged |
| `Calculator.FireAge` | calculator.js:17-43 | `canReach` holds exactly when the age is non-null, and exactly when the final amount meets the target; an already-met target is reported at the current age with the current amount |
| `Calculator.CalculateFireAge` | calculator.js:3-44 | the loop (contribute if due, compound, test, advance) returns exactly the outcome `FireAge` specifies |
| `Calculator.SimulateOutcome` | calculator.js:29-43 | from any period before the target was met, the loop stops at the first period whose compounded amount reaches the target, or it ends with the amount after the last in-horizon period, every period short of the target |
| `Calculator.FireAgeOutcome` | calculator.js:16-43 | an already-met target is reported at once at the current age with the current amount; otherwise the first in-horizon period that meets it gives the age and amount; otherwise the result is `canReach: false` with the amount after the last period and every period short |
| `Calculator.CanReachIff` | calculator.js:17-43 | `canReach` holds if and only if the target is met at the start or after some in-horizon period |
| `Calculator.OutcomeShape` | calculator.js:17-43 | a reached target has an age no earlier than the current one (no later than 70 when starting at or below it) and an amount at least the target; an unreached one has a null age and an amount below the target |
| `Calculator.AmountNonDecreasing` | calculator.js:31-35 | with a non-negative rate, contribution and start, the running amount never falls and never drops below the start |
| `Calculator.FinalAmountAtLeastStart` | calculator.js:17-43 | under the same conditions the reported final amount is at least the starting amount |
| `Calculator.DueExactlyAtMultiples` | calculator.js:31 | with a positive cadence, a contribution is due at period `q * cadence + r` (`r < cadence`) exactly when `q > 0` and `r == 0`: at the positive multiples of the cadence |
| `Calculator.ContributionCountStep` | calculator.js:31-33 | a contribution is due at period `n` exactly when the count of positive cadence multiples below `n + 1` exceeds the count below `n` |
| `Calculator.ZeroRateAmount` | calculator.js:31-35 | with no growth the amount is the start plus one contribution per due period, `(n - 1) / cadence` of them |
| `Calculator.NoContributionAmount` | calculator.js:31-35 | without contributions the amount after `n` periods is the start times `(1 + periodRate)` to the power `n` |
| `Calculator.PowerBelowOne` | calculator.js:26 | a positive base below one stays strictly between 0 and 1 under any positive power |
| `Calculator.RateNonNegative` | calculator.js:26 | a non-negative annual percentage gives a non-negative per-period rate at every frequency |
| `LegacyCalculator.LegacyFireAge` | index.js:22-58 | the index.js copy reports `canReach` exactly with a non-null age and a reached target with an amount at least the target; past the ceiling it reports `canReach: false` with the starting amount |
| `LegacyCalculator.CalculateFireAge` | index.js:22-58 | the index.js loop returns exactly the projection loop started at period 0, with no immediate-success check |
| `LegacyCalculator.AgreementExactly` | index.js:43-57 | the two copies agree if and only if the target is not yet met, or the age is within the ceiling and the first compounding step leaves the amount unchanged |
| `LegacyCalculator.AlreadyAtTarget` | index.js:43-53 | with the target already met, index.js still compounds once and reports the compounded amount, while calculator.js reports the current amount |
| `LegacyCalculator.PastCeiling` | index.js:43-57 | past the ceiling the index.js loop never runs and reports `canReach: false` with the starting amount, even for a met target |
| `LegacyCalculator.LegacyOutcomeShape` | index.js:43-57 | the index.js copy reports an age within `[currentAge, 70]` and an amount meeting the target, or a null age and (for ages within the ceiling) an amount below the target |
| `LegacyCalculator.ValidatedProjectionGrows` | index.js:61-124 | inputs the five prompts accept, with the periodic rate of their annual percentage, never end below the starting amount, and the contribution cadence is between 0 and the periods per year |
| `Validators.ValidateAge` | validators.js:1-5 | accepted exactly for `NaN` and for 1 to 100; "Age must be at least 1." exactly below 1 (including minus infinity); "Age must be at most 100." exactly above 100 (including plus infinity) |
| `Validators.ValidateTargetAmount` | validators.js:7-10 | accepted exactly for `NaN`, plus infinity and values from 100000; "Amount must be at least 100000." exactly below 100000 (including minus infinity) |
| `Validators.ValidateAmount` | validators.js:12-15 | accepted exactly for `NaN`, plus infinity and non-negative values; "Amount must be at least 0." exactly for negative values (including minus infinity) |
| `Validators.ValidateInvestInterval` | validators.js:17-21 | accepted exactly for `NaN` and for 0 to 12; "Interval must be at least 0." exactly below 0; "Interval must be at most 12." exactly above 12 (infinities on their side) |
| `Validators.ValidateAnnualRate` | validators.js:23-27 | accepted exactly for `NaN` and for 0 to 100; "Rate must be at least 0." exactly below 0; "Rate must be at most 100." exactly above 100 (infinities on their side) |
| `Text.Split` | scripts/release.js:154 | `split` on one character gives at least one part, and no part contains the separator |
| `Text.JoinSplit` | scripts/release.js:154-159 | joining the parts of a split with the same separator gives the original text back |
| `Text.SplitJoin` | scripts/release.js:131 | joining separator-free parts and splitting again gives the same parts back |
| `Text.Join` | scripts/release.js:159 | `join` of no parts is empty; otherwise the text starts with the first part, and with two or more parts that part is followed by the separator |
| `Text.SplitJoinAround` | scripts/release.js:158-159 | splitting a joined list with one multi-line element in the middle returns the other elements unchanged and that element's own lines |
| `Text.StartsWith` | scripts/release.js:155 | `startsWith` holds exactly when the prefix is no longer than the text and agrees with it position by position |
| `Text.NatToString` | scripts/release.js:64 | a number in a template string is rendered as a non-empty string of digits with no leading zero |
| `Text.DigitsRoundTrip` | scripts/release.js:55 | reading back the digits of a rendered natural gives that natural |
| `Release.JsNumber` | scripts/release.js:55 | `Number` of a version field is an integer exactly when the field is all digits, otherwise `NaN` |
| `Release.ParseVersion` | scripts/release.js:54-57 | the major field is never `undefined`; a version without a dot has `undefined` minor and patch fields; a version of digits only reads as its value with the other two fields `undefined` |
| `Release.ParseRender` | scripts/release.js:54-57 | parsing the text `major.minor.patch` of three naturals gives those three numbers |
| `Release.BumpVersion` | scripts/release.js:59-78 | the bump succeeds exactly for the six release types; any other type throws "Invalid release type: " followed by the type; each pre-release type gives a version ending in "-0" |
| `Release.BumpRendered` | scripts/release.js:59-68 | for a well-formed version, major resets minor and patch, minor resets patch, and patch increments only the patch |
| `Release.PreBumpRendered` | scripts/release.js:69-74 | for a well-formed version, premajor, preminor and prepatch give the matching plain bump followed by "-0" |
| `Release.PreReleaseAppendsSuffix` | scripts/release.js:63-74 | for any version text, each pre-release type is its plain counterpart followed by "-0" |
| `Release.BumpIsNewer` | scripts/release.js:63-68 | a major, minor or patch bump of a well-formed version gives a well-formed version that is strictly newer |
| `Release.AcceptsReleaseType` | scripts/release.js:248 | the command-line check accepts exactly the arguments that are present and that `bumpVersion` accepts for every current version |
| `Release.PrereleaseThenPatch` | scripts/release.js:67-74 | a prepatch bump gives `M.m.(p+1)-0`, and a patch bump of that gives `M.m.NaN` |
| `Release.PatchOfPrerelease` | scripts/release.js:67-68 | a patch bump of any `M.m.p-0` version gives `M.m.NaN` |
| `Release.ParsePrerelease` | scripts/release.js:54-57 | `M.m.p-0` parses to `M`, `m` and a `NaN` patch field |
| `Release.TagName` | scripts/release.js:99 | the tag is "v" followed by exactly the version |
| `Release.Bulleted` | scripts/release.js:131 | each commit line becomes "- " followed by that line, with the count and order kept |
| `Release.CommitList` | scripts/release.js:131 | the commit block splits into exactly one bulleted line per commit line, in order |
| `Release.ChangelogEntry` | scripts/release.js:116-135 | the entry starts with the heading "## [version] - date", and so with the heading marker "## " |
| `Release.FirstHeading` | scripts/release.js:155 | `findIndex` gives the first line starting with "## ", or -1 when no line does |
| `Release.InsertionIndex` | scripts/release.js:155-158 | the insertion point is always within the lines, as `splice` clamps 2 to the length |
| `Release.InsertAt` | scripts/release.js:158 | the entry lands at the index, and removing it gives back the original lines |
| `Release.NewestEntryFirst` | scripts/release.js:154-158 | after a block opening with a heading is inserted at the insertion index, its first line is the first heading, unless the changelog already began with a heading |
| `Release.FirstLineKeepsHeading` | scripts/release.js:154-158 | the first line of a multi-line entry that opens with "## " is itself a heading line |
| `Release.SplitAfterInsert` | scripts/release.js:154-159 | the written changelog reads back as the old lines with the entry's lines inserted at the index |
| `Release.ChangelogLines.constructor` | scripts/release.js:154 | the lines are the changelog text split on newlines |
| `Release.ChangelogLines.FindHeading` | scripts/release.js:155 | the loop finds the first heading line, or -1 when there is none |
| `Release.ChangelogLines.Splice` | scripts/release.js:158 | the lines become the old lines with the item inserted at the start index, clamped to the length |
| `Release.ChangelogLines.InsertEntry` | scripts/release.js:154-158 | the lines become the old lines with the entry at `InsertionIndex` of the old lines |
| `Release.GenerateChangelog` | scripts/release.js:114-159 | the text written back splits into the old changelog lines with the entry's own lines inserted at the insertion index, and the new entry's heading is the first heading of the result unless the changelog already began with one |
| `Release.PackageManifest.constructor` | scripts/release.js:174-175 | the manifest holds the version read from package.json |
| `Release.PackageManifest.ApplyRelease` | scripts/release.js:178-183 | the result is the bump of the old version, stored as the new version on success; when the bump throws, the version is unchanged |

## Left out

- Floating point is not modelled in the projection. Money, rates and ages are finite `real`s and integers, so the IEEE rounding of `amount *= (1 + periodRate)` is not captured. `NaN` and the infinities do not reach `calculateFireAge` in this model.
- `Math.pow(1 + annualRate, 1 / periodsPerYear) - 1` is not computed. `periodRate` is a parameter, and `IsPeriodRate` states what it is meant to satisfy.
- Ages and month intervals are integers. The source accepts any number the prompt returns, including fractions.
- The cadence is `Math.round` written in integers. `Math.round` of a fractional interval is not modelled.
- `Number` is modelled only for strings of decimal digits; any other field text gives `NaN`. Whitespace, signs, exponents, hexadecimal forms and the precision limit above 2^53 are not modelled.
- The `main` of index.js is left out: the prompts, the spinner, the animation and printing. The prompt answers are objects that index.js assigns to its globals as they are. The model passes the answered numbers instead.
- LegacyCalculator.ValidatedProjectionGrows: it assumes the validated numbers reach the projection. index.js as written passes the answer objects instead.
- utils.js (`sleep`) is not modelled, because it only waits.
- The I/O of scripts/release.js is not modelled: `execSync` of git and npm, file reads and writes, the clock, the terminal colours and `process.exit`. The changelog text, the commits, the date and the version read from package.json are parameters.
- The git checks of scripts/release.js are not modelled: whether the tag already exists, the working-tree status, and the ordering of steps in `performRelease`. They depend only on command output.
- The default changelog template used when CHANGELOG.md is missing is not modelled. It is only a different starting text for the same insertion.
- No property relates different contribution cadences or different compounding frequencies to each other, because with a free `periodRate` and floating point they do not hold exactly.
