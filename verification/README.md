# IRR calculator — a Dafny model of its arithmetic core

The calculator is a single-page form with five tabs. Four tabs each compute an
internal rate of return (IRR) for one kind of cash flow:

- a constant perpetuity;
- a growing perpetuity (the Gordon growth model);
- a finite run of constant flows;
- a finite run whose last period also pays a residual value.

The fifth tab compares several projects, each with several scenarios. Every
scenario picks one of the four cash-flow types. The tab collects one IRR per
scenario into a summary table and shows a fixed failure marker (`计算失败`,
"calculation failed") when a scenario yields no rate.

Under the widgets sit a few pure rules, and this project models them over
Dafny's exact `real`:

- **Perpetuity closed forms** (`Perpetuity`). The constant-perpetuity rate is
  `-cf / investment`. The Gordon rate is `g - cf1 / investment`. Each formula
  appears at two call sites with different guards, and the model keeps all
  four sites separate:
  - the constant tab refuses a zero flow;
  - the comparison table returns no rate for a zero flow;
  - the growth tab refuses a growth rate of 1 or more;
  - the comparison table returns no rate for a zero investment and never
    checks the growth rate.

  A division the form leaves unguarded raises in Python. On exactly the
  branches that divide, the model requires the divisor to be nonzero.
- **Schedule builders** (`CashFlow`). `[investment] + [cf] * n` and
  `[investment] + [cf] * (n - 1) + [cf + fv]` follow Python's list
  repetition, which yields the empty list for a non-positive count. The
  module also defines the present value of a schedule. It is the quantity
  whose zero the root finder looks for.
- **Links between the two** (`Valuation`). This module gives the closed
  form of a finite constant schedule's net present value (NPV). It also
  proves that a finite schedule whose residual returns the principal has
  the constant perpetuity's rate as an exact IRR.
- **Scenario dispatch and the summary table** (`Comparison`). A four-way
  `Scenario` datatype maps each scenario to its formula or its schedule. No
  rate is displayed as the failure marker. The table gets one row per
  scenario, in entry order.

The numeric root finder (`numpy_financial.irr`) is a library call. It enters
the model only as a function parameter `irr: seq<real> -> real`, applied to
the schedule the code builds.

Where the code and a natural reading of the calculator's design differ, the
model follows the code:

- No exception is caught anywhere. A zero investment with a nonzero flow in
  the constant-perpetuity branch (line 85, and line 23 on its tab) divides by
  zero and stops the page. The model states this as a precondition; it is
  not a failure result.
- In the comparison table, the root finder's answer for a finite schedule is
  always displayed as a rate. Finite scenarios never show the failure marker
  (`FiniteNeverFails`). On the finite tabs, `if irr:` (lines 48 and 61)
  hides a rate of exactly 0.
- The Gordon formula's two checks, growth rate below 1 and nonzero
  investment, are split between the two call sites rather than applied
  together.
- The residual builder accepts any `n`. For `n <= 1` it gives
  `[investment, cf + fv]`.
- There is no finite *growing* schedule in the code, so none is modelled.

## Model

| member | source | states |
|---|---|---|
| `CashFlow.Replicate` | irr_calculator_extended.py:46 | `[x] * k` has `max(k, 0)` entries, each equal to `x`, so a non-positive count gives the empty list |
| `CashFlow.ConstantSchedule` | irr_calculator_extended.py:95 | the finite constant schedule (also line 46) has length `max(n, 0) + 1`; index 0 is the investment and every later entry is `cf` |
| `CashFlow.ResidualSchedule` | irr_calculator_extended.py:58-59 | the residual schedule (also line 102) has length `max(n - 1, 0) + 2`; it starts with the investment, ends in `cf + fv` for every `n`, and has `cf` in between |
| `CashFlow.ResidualExtendsConstant` | irr_calculator_extended.py:102 | for `n >= 1` the residual schedule has the constant schedule's length (line 95) and equals it at every index except the last, where it is larger by exactly `fv` |
| `CashFlow.ShortResidualSchedule` | irr_calculator_extended.py:102 | for `n <= 1` the residual schedule is exactly `[investment, cf + fv]`, because the repeated part is empty |
| `CashFlow.DefaultResidualSchedule` | irr_calculator_extended.py:54-59 | with the form's defaults (-1000, 100, 5 periods, residual 200) the residual tab hands over `[-1000, 100, 100, 100, 100, 300]`, and the constant tab's schedule ends in 100 instead |
| `CashFlow.PresentValueIsDiscountedSum` | irr_calculator_extended.py:47 | the Horner-form present value of a schedule passed to the root finder equals the period-by-period sum of `flows[t] * v^t` |
| `CashFlow.ResidualNpv` | irr_calculator_extended.py:102 | for `n >= 1` and any rate other than -1, the residual schedule's NPV is the constant schedule's NPV plus `fv` discounted over `n` periods |
| `Perpetuity.ConstantComparison` | irr_calculator_extended.py:85 | no rate exactly when `cf == 0`; otherwise a nonzero rate `r` with `cf / r + invest == 0` (NPV zero), positive when `invest < 0 < cf` |
| `Perpetuity.ConstantTab` | irr_calculator_extended.py:22-26 | the tab refuses exactly when `cf == 0`; otherwise it shows the NPV-zero rate, which is the comparison table's rate |
| `Perpetuity.ConstantRateUnique` | irr_calculator_extended.py:23 | any nonzero rate pricing the constant perpetuity at the investment is the rate returned, so the NPV-zero rate is unique |
| `Perpetuity.GrowthComparison` | irr_calculator_extended.py:90 | no rate exactly when `invest == 0`, with `g` unchecked; otherwise `r != g` and `cf1 / (r - g) + invest == 0` when `cf1 != 0`, `r == g` when `cf1 == 0`, and `r > g` when `invest < 0 < cf1` |
| `Perpetuity.GrowthRateUnique` | irr_calculator_extended.py:35 | any rate other than `g` that prices the growing perpetuity at the investment is the Gordon rate returned |
| `Perpetuity.GrowthTab` | irr_calculator_extended.py:34-38 | the tab yields a rate exactly when `g < 1`; for a nonzero flow that rate satisfies the Gordon NPV-zero equation, and a zero flow yields `g` |
| `Perpetuity.GrowthPathsAgree` | irr_calculator_extended.py:90 | when `g < 1` and the investment is nonzero, the growth tab (line 35) and the comparison table give the same rate |
| `Perpetuity.GrowthGuardsDiverge` | irr_calculator_extended.py:90 | for `g >= 1` and a nonzero investment, the tab refuses (line 34) but the comparison table still reports `g - cf1 / invest` |
| `Perpetuity.ZeroGrowthIsConstant` | irr_calculator_extended.py:85-90 | for a nonzero flow and `g = 0`, the Gordon rate equals the constant-perpetuity rate |
| `Perpetuity.ZeroFlowDiverges` | irr_calculator_extended.py:85-90 | for a zero flow and a nonzero investment, the constant perpetuity yields no rate (the failure marker) while the growing perpetuity yields `g` |
| `Valuation.ConstantScheduleNpv` | irr_calculator_extended.py:95-96 | the NPV of the finite constant schedule at a rate `r` other than 0 and -1 is `investment + (cf / r) * (1 - (1 + r)^-max(n, 0))`, for every integer `n` the form accepts |
| `Valuation.FiniteBelowPerpetuity` | irr_calculator_extended.py:95 | at a positive rate, `n` positive flows are worth strictly less than the perpetuity of the same flow (line 85) |
| `Valuation.PerpetualRateOnFiniteSchedule` | irr_calculator_extended.py:83-96 | at the perpetuity's rate the finite constant schedule's NPV is the investment discounted over `max(n, 0)` periods, which is never zero, so that rate is not an IRR of the finite schedule |
| `Valuation.PrincipalReturningSchedule` | irr_calculator_extended.py:98-103 | if the residual is minus the investment, the perpetuity rate of line 85 is an exact IRR (NPV zero) of the residual schedule for every `n >= 1` |
| `Comparison.Evaluate` | irr_calculator_extended.py:83-103 | dispatch over the four cash-flow types is total; no rate exactly for a zero constant flow or a zero growth investment; a constant perpetuity's rate zeroes its NPV; a growing perpetuity's rate zeroes its NPV for a nonzero flow and is `g` for a zero flow; finite types apply the root finder to the built schedule |
| `Comparison.Display` | irr_calculator_extended.py:105 | the failure marker is shown exactly when there is no rate, and otherwise the rate itself |
| `Comparison.FiniteNeverFails` | irr_calculator_extended.py:92-105 | the two finite cash-flow types never display the failure marker |
| `Comparison.ScenarioRows` | irr_calculator_extended.py:76-111 | one row per scenario of a project, in order; row `j` carries the project name, scenario `j`'s name, type label and displayed IRR |
| `Comparison.TableRows` | irr_calculator_extended.py:71-111 | the summary table has exactly as many rows as there are scenarios across all projects |
| `Comparison.RowOrigin` | irr_calculator_extended.py:106-111 | the row at offset (scenarios of earlier projects) + `j` is the row of scenario `j` of project `i`, so each result sits beside its originating scenario |
| `Comparison.AppendProjectRows` | irr_calculator_extended.py:76-111 | the inner loop over one project's scenarios appends exactly that project's rows, in order, after the rows already built |
| `Comparison.BuildTable` | irr_calculator_extended.py:69-111 | the nested project and scenario loops that append rows produce exactly the summary table |

## Left out

- Page setup, tabs, expanders, text inputs, session keys and warning texts
  (lines 6-21, 68-81): these are UI. The tabs' warnings appear as `None`.
- The input widgets' ranges (1 to 5 projects and scenarios, line 68 and
  line 74) and their defaults. They are UI limits; the table model accepts
  any number.
- `numpy_financial.irr` (lines 47, 60, 96, 103): an iterative
  floating-point library routine. It is the parameter `irr` of
  `Comparison.Evaluate`. `Valuation.IsIrr` states what a root means, but
  nothing is assumed about which root the routine returns, or whether it
  returns one.
- Comparison.Evaluate: for the finite types it states only which schedule
  the root finder receives, because the root finder is not modelled.
- The `if irr:` checks of the finite tabs (lines 48, 61). They depend on
  float and NaN truthiness. The finite tabs are modelled by the schedules
  they build.
- Percentage formatting with `:.2%` (lines 24, 36, 105): float-to-string
  rendering. `Comparison.Display` keeps the rate itself.
- The pandas table display (lines 113-115).
- `int(n)` (lines 46, 58, 95, 102). The period inputs are integer widgets,
  so the conversion is the identity, and `n` is a Dafny `int`.
- IEEE-754 rounding, infinities, NaN and signed zero. All arithmetic is
  exact `real`. As a result, the finite tabs' schedules equal their
  comparison-table counterparts, and a zero divisor is a precondition
  rather than a raised `ZeroDivisionError`.
