# Pricing comparison engine — a Dafny model

This project models the calculation engine of the Pricing Comparison Tool
(`index.jsx`, lines 13-64). The tool compares a household's current gas plan
with a new one. Each plan has a flat rate per therm and a monthly fee. The
engine computes:

- a monthly breakdown that follows a fixed seasonal usage curve;
- the annual costs, the annual savings and the first-year net savings (after
  the switching incentive and the exit fee);
- the break-even period, meaning how many months of savings it takes to pay
  back the exit fee;
- a five-row sensitivity table at 80%, 90%, 100% ("Baseline"), 110% and 120%
  of the annual usage.

Money and usage are exact `real`s. JavaScript's `Math.round(x)` is
`(x + 0.5).Floor`. This is round-half-up, so ties go toward +infinity, also
for negative amounts. `Math.ceil(x)` is `-((-x).Floor)`. Rounding to cents is
`Math.round(x * 100) / 100`. All three are in `rounding.dfy` (module
`Rounding`). The seasonal table, the monthly rows, the annual summary and the
break-even rule are pure functions in `pricing.dfy` (module `PricingTool`).

The sensitivity table is in `sensitivity.dfy` (module `Sensitivity`). The
source builds it as an array literal. A `forEach` then writes a `savings`
field into each record in place. The model does the same: `ComputeSensitivity`
allocates the array and `AddSavings` updates it in a loop. Before that pass a
record's `savings` is `None`, because the field does not exist yet.
`AddSavings` is proved to apply `WithSavings` to every record of any array.
`ComputeSensitivity` is proved to return exactly `SensitivityTable(s)`, and
the lemmas are stated about that function.

The seven inputs must be non-negative (`Scenario.Valid()`). The tool's input
fields do not check this; they convert whatever is typed with `Number(...)`.

Three behaviours of the code are easy to miss:

- Rounding is half-up (`Math.round`), not half-away-from-zero. A negative
  amount that is an exact half-cent rounds toward zero: −0.005 gives 0.00,
  not −0.01.
- The Baseline row's usage is the unrounded annual usage (line 56). The
  other rows round their usage to whole therms.
- At the default inputs (lines 5-11) the formulas of lines 46-50 give annual
  costs of 1059.02 and 938.82, savings of 120.20, a net first year of 70.20
  and a break-even of 15 months (`DefaultSummary`).

## Model

| member | source | states |
|---|---|---|
| `Rounding.RoundHalfUp` | index.jsx:38 | `Math.round` gives an integer in (x − 1/2, x + 1/2] |
| `Rounding.RoundHalfUpUnique` | index.jsx:38 | the integer in (x − 1/2, x + 1/2] is unique, so the bounds fully determine `Math.round` |
| `Rounding.RoundHalfUpTieGoesUp` | index.jsx:38 | an exact half rounds to the integer above it, for negative values too (−2.5 → −2) |
| `Rounding.RoundHalfUpMonotone` | index.jsx:38 | `Math.round` preserves order |
| `Rounding.Ceil` | index.jsx:50 | `Math.ceil` gives an integer n with x ≤ n < x + 1 |
| `Rounding.CeilIsLeast` | index.jsx:50 | `Math.ceil(x)` is at most every integer at or above x |
| `Rounding.CeilMonotone` | index.jsx:50 | `Math.ceil` preserves order |
| `Rounding.RoundCents` | index.jsx:39-41 | the cent-rounded amount is a whole number of cents in (x − 0.005, x + 0.005] |
| `Rounding.RoundCentsMonotone` | index.jsx:54-58 | cent rounding never reverses the order of two amounts |
| `Rounding.RoundCentsOfWholeCents` | index.jsx:63 | rounding an amount that is already whole cents leaves it unchanged |
| `Rounding.WholeCentsDifference` | index.jsx:63 | the difference of two whole-cent amounts is whole cents |
| `PricingTool.SeasonalTableWellFormed` | index.jsx:14-27 | the seasonal table has 12 entries, none negative, and they sum to exactly 1 |
| `PricingTool.MonthlyRow` | index.jsx:30-42 | a month keeps its label and share; its usage is within half a therm of annualUsage × share; each cost is whole cents and within half a cent of usage × rate + fee; savings is within half a cent of the exact difference of the unrounded costs |
| `PricingTool.MonthlyBreakdown` | index.jsx:30-43 | one row per table entry, in table order, each row being that entry's month |
| `PricingTool.MonthlySavingsZeroForEqualPlans` | index.jsx:32-41 | when the plans have equal rate and fee, a month's savings is 0 and its two costs are equal |
| `PricingTool.TotalExactThermsIsShare` | index.jsx:31 | the unrounded usages of a table add up to annualUsage times the table's total share |
| `PricingTool.TotalExactCostIsShare` | index.jsx:32-33 | the unrounded monthly costs of a table add up to its total usage × rate plus the fee once per month |
| `PricingTool.MonthlyTotalsMatchAnnual` | index.jsx:14-47 | on the seasonal table, the unrounded monthly usages add up to annualUsage and the unrounded monthly costs add up to the annual costs of lines 46-47 |
| `PricingTool.RoundedThermsDrift` | index.jsx:31-38 | the rounded usages of an n-month table lie within n/2 therms of the exact total |
| `PricingTool.SeasonalUsageDrift` | index.jsx:14-38 | the twelve rounded monthly usages add up to within 6 therms of annualUsage |
| `PricingTool.SeasonalUsageDriftOccurs` | index.jsx:14-38 | the drift is not corrected: at 10 therms a year the rounded months add up to 9 |
| `PricingTool.TotalThermsOf` | index.jsx:38 | the total rounded usage depends only on the rows' rounded usages |
| `PricingTool.AnnualCurrentCost` | index.jsx:46 | the direct annual formula for the current plan equals the sum of the twelve unrounded monthly costs of lines 31-32 |
| `PricingTool.AnnualNewCost` | index.jsx:47 | the direct annual formula for the new plan equals the sum of the twelve unrounded monthly costs of lines 31 and 33 |
| `PricingTool.AnnualCostIsMonthlySum` | index.jsx:46-47 | for any rate and fee, the twelve unrounded monthly costs add up to annualUsage × rate + 12 × fee |
| `PricingTool.FullYearCost` | index.jsx:31-47 | over any twelve-month table whose shares sum to 1, the unrounded monthly usages add up to annualUsage and the unrounded monthly costs to annualUsage × rate + 12 × fee |
| `PricingTool.Summarize` | index.jsx:46-50 | the annual costs are annualUsage × rate + 12 × fee for each plan, and equal the sums of the twelve unrounded monthly costs; annual savings = current cost − new cost = annualUsage × (currentRate − newRate) + 12 × (currentFee − newFee); net first-year savings = savings + incentive − exitFee; both annual costs are non-negative; break-even follows the break-even rule |
| `PricingTool.BreakEvenRule` | index.jsx:50 | Immediate exactly when there is no exit fee; Never exactly when there is an exit fee and savings ≤ 0; a month count is at least 1 |
| `PricingTool.BreakEvenIsLeastMonth` | index.jsx:50 | with an exit fee and positive savings, the month count n is the least integer such that n months of savings (annualSavings / 12 each) reach the exit fee |
| `PricingTool.BreakEvenFromAnnual` | index.jsx:50 | the month count equals ceil(12 × exitFee / annualSavings) |
| `PricingTool.BreakEvenMonotone` | index.jsx:50 | with a fixed exit fee, larger positive savings never give a longer break-even |
| `PricingTool.DivideByLarger` | index.jsx:50 | a non-negative fee divided by a larger positive divisor is no larger |
| `PricingTool.ImmediateWithoutExitFee` | index.jsx:50 | without an exit fee the break-even is Immediate, whatever the savings |
| `PricingTool.BreakEvenAsWritten` | index.jsx:50 | line 50 without a sign guard: 0 without an exit fee; +Infinity when savings are exactly 0; otherwise the integer n with n − 1 < 12 × exitFee / annualSavings ≤ n, which is at most 0 when savings are negative |
| `PricingTool.ShownAsImmediate` | index.jsx:269 | the card shows "Immediate" exactly for finite values ≤ 0; +Infinity is shown as a number of months |
| `PricingTool.AsWrittenShownImmediateExactly` | index.jsx:269 | with line 50 as written, for every non-negative exit fee and any savings, the card reads "Immediate" exactly when there is no exit fee or the savings are negative |
| `PricingTool.DefaultSummary` | index.jsx:5-50 | the default inputs are valid and give 1059.02, 938.82, 120.20, 70.20 and a break-even of 15 months |
| `PricingTool.DefaultJanuaryRow` | index.jsx:15-41 | January at the default inputs is 237 therms, 153.45 against 136.06, savings 17.39 |
| `PricingTool.AsWrittenAgreesWhenDefined` | index.jsx:50 | with no exit fee, or with positive savings, line 50 as written gives the same number as the break-even rule |
| `PricingTool.AsWrittenShowsLossAsImmediate` | index.jsx:50 | with an exit fee and a new plan that costs more, line 50 as written gives a count ≤ 0, which line 269 shows as "Immediate"; the break-even rule gives Never |
| `PricingTool.AsWrittenLossExample` | index.jsx:50 | a concrete case: a higher new rate and a 150 exit fee give −18 as written, and Never under the rule |
| `Sensitivity.Row` | index.jsx:53-58 | a row has its level's label and no savings yet; a scaled row's usage is the rounded scaled usage and the Baseline's is the exact annualUsage; both costs equal the cent-rounded annual formula at the level's multiplier (1 for the Baseline) |
| `Sensitivity.BaselineIsScaledAtOne` | index.jsx:54-56 | the scaled-row cost formula at multiplier 1 equals the annual costs of lines 46-47 |
| `Sensitivity.BaseRows` | index.jsx:53-59 | one row per level, in level order |
| `Sensitivity.WithSavings` | index.jsx:63 | the pass keeps a record's label, usage and costs and adds a whole-cent savings; when both costs are whole cents, the savings is exactly their difference |
| `Sensitivity.DifferenceNeedsNoRounding` | index.jsx:63 | rounding the difference of two whole-cent amounts leaves it unchanged |
| `Sensitivity.SensitivityTable` | index.jsx:53-64 | the table has one row per level, five in all, each being its level's row after the savings pass |
| `Sensitivity.AddSavings` | index.jsx:62-64 | after the pass each record is its old self with savings set to the cent-rounded difference of its costs, and no other field changes |
| `Sensitivity.ComputeSensitivity` | index.jsx:53-64 | the new array holds exactly the sensitivity table |
| `Sensitivity.SensitivityShape` | index.jsx:53-64 | the table has five rows labelled −20%, −10%, Baseline, +10%, +20%, each with its savings |
| `Sensitivity.SensitivitySavingsExact` | index.jsx:62-64 | each row's savings is exactly its rounded current cost minus its rounded new cost, and is whole cents, so the outer rounding adds nothing |
| `Sensitivity.BaselineMatchesSummary` | index.jsx:46-56 | the Baseline row holds the unrounded annual usage and the cent-rounded annual costs of the summary, and its savings is within a cent of the annual savings |
| `Sensitivity.BaselineSavingsOffByACent` | index.jsx:46-63 | the Baseline does not reproduce the annual savings exactly, even cent-rounded: with no usage and fees of 0.005/12 and 0.004/12 it saves 0.01, while the annual savings round to 0.00 |
| `Sensitivity.BaselineMatchesScaledFormula` | index.jsx:54-58 | the Baseline's costs are those of a scaled row at multiplier 1; that row's usage would be rounded, which the Baseline's is not |
| `Sensitivity.ScaledCostMonotone` | index.jsx:54-58 | with non-negative usage and rate, a plan's scaled annual cost does not decrease as the multiplier grows |
| `Sensitivity.RowCostsMonotone` | index.jsx:54-58 | a row at a larger multiplier has current and new costs at least as high |
| `Sensitivity.SensitivityCostsMonotone` | index.jsx:53-59 | down the table, both plans' costs do not decrease |

## Findings

| source | as written | input that shows it | evidently intended | confidence | as-written member | corrected member |
|---|---|---|---|---|---|---|
| index.jsx:50 | `exitFee > 0 ? Math.ceil(exitFee / (annualSavings / 12)) : 0` does not check the sign of `annualSavings`. When the new plan costs more, the result is zero or negative, and line 269 then shows "Immediate". | annualUsage 1000, rates 0.5 → 0.6, equal fees, exitFee 150: savings −100 gives −18 months, shown "Immediate" | the exit fee is never recovered, so the result should be a distinct "never" state | high (not executed) | `PricingTool.AsWrittenShowsLossAsImmediate` | `PricingTool.BreakEvenRule` |

## Left out

- The JSX markup, the Recharts charts and the `toFixed` formatting (index.jsx:66-306) only display results.
- The `useState` hooks and the `onChange` bindings, including `Number(e.target.value)` parsing (index.jsx:5-11, 78-182). The model takes an explicit `Scenario` value and requires non-negative inputs instead.
- The provider-name text fields (index.jsx:104-153) have no logic.
- The insight strings (index.jsx:296-300). Line 299 divides by `annualUsage`, which is undefined at zero usage, and is display only. Line 298 claims that savings grow with usage whenever `annualSavings > 0`. That holds only when `currentRate > newRate`, so it is not stated as a property.
- IEEE-754 doubles: the model uses exact reals. It does not capture the order of the multiplications at index.jsx:54-58, binary representation error, `-0`, or `NaN`.
- `BreakEvenRule`: when savings are exactly 0 and there is an exit fee, line 50 gives `Infinity`, which line 269 shows as "Infinity months". The rule answers Never. `BreakEvenAsWritten` keeps the `Infinity` case. `ShownAsImmediate` models only the choice between "Immediate" and a month count, not the text itself.
- Sensitivity usage is not claimed to rise down the table. With very small usage, a rounded scaled usage can exceed the unrounded Baseline usage (0.9 × 0.6 rounds to 1).
