# Career earnings projection and break-even, in Dafny

This project models the computational core of `career_calc.py`, a small
calculator that compares career paths. A career path has five parameters:
the number of college years, the college cost per year, the starting salary,
the annual raise rate and the number of working years.

- `career_projection` produces the cumulative net earnings, one entry per
  year. Each college year subtracts the cost from a running total. Each
  working year adds the current salary, and only afterwards multiplies the
  salary by `1 + annual_raise`, so a raise first pays off in the following
  year.
- `find_break_even` scans two such series over their common length and
  returns the first year in which series B is at least series A, together
  with B's value there, or nothing.

`career_calc.dfy` (module `CareerCalc`) holds the model:

- `CareerProjection` is the source's two loops as a Dafny method. It is
  proved equal to the specification function `Projection`. `Projection`
  gives entry `i` in closed form as `NetAfter(p, i + 1)`: the education
  costs paid so far, plus `SalarySum`, the sum of the geometric salaries
  `startingSalary * (1 + annualRaise)^k`.
- An independent reference describes the same series as the running totals
  of per-year deltas (`RunningTotals(YearDeltas(p))`). The lemma
  `ProjectionIsRunningTotals` shows the two descriptions agree.
- `FindBreakEven` is the source's scan with an early return. Its contract
  states that a returned year is the first break-even year (`IsFirstBreakEven`)
  and that it returns `None` exactly when B stays below A over the whole
  overlap (`NeverBreaksEven`).

`career_examples.dfy` (module `CareerCalcExamples`) fixes worked cases:
compounding, education costs, a tie, an absent break-even and the truncation
to the shorter series.

Money and the raise rate are exact `real` numbers and year counts are `nat`.
The five parameters are bundled in the `CareerProfile` datatype for the
specification. The method keeps the source's five separate parameters.

The working segment never decreases when the starting salary is
non-negative and the raise rate is at least -100%. A positive starting
salary alone is not enough: below -1 the salary alternates in sign, and
salary 100 with rate -3 gives `[100, -100]`. `WorkingNonDecreasing`
therefore requires both.

## Model

| member | source | states |
|---|---|---|
| CareerCalc.CareerProjection | career_calc.py:3-25 | returns exactly `collegeYears + workingYears` entries, and entry `i` is the cumulative net earnings after year `i` (`Projection`): costs are subtracted first, then salaries are added, each raised only after it has been added |
| CareerCalc.NetAfterStep | career_calc.py:14-23 | each year moves the cumulative total by exactly that year's delta: minus the cost in a college year, the current salary in a working year |
| CareerCalc.SalaryRaise | career_calc.py:23 | multiplying working year `j`'s salary by `1 + annual_raise` gives the salary of year `j + 1` |
| CareerCalc.TotalOfDeltas | career_calc.py:10-22 | the sum of the first `y` year deltas equals the closed-form cumulative total after `y` years |
| CareerCalc.ProjectionIsRunningTotals | career_calc.py:10-22 | the series is the list of running totals of the per-year deltas, built only by appending |
| CareerCalc.ProjectionStep | career_calc.py:14-22 | entry `i` is entry `i - 1` plus year `i`'s delta; entry 0 is the first delta alone |
| CareerCalc.EducationEntry | career_calc.py:14-16 | college entry `i` equals `-(i + 1) * college_cost_per_year` |
| CareerCalc.EducationNonIncreasing | career_calc.py:14-16 | with a non-negative cost, the college segment never increases |
| CareerCalc.NoWorkingYears | career_calc.py:13-16 | with no working years, every entry of the series is one cost below the previous one, and with a non-negative cost every entry is at most zero |
| CareerCalc.FirstWorkingEntry | career_calc.py:19-23 | the first working entry is the college total plus the unraised starting salary |
| CareerCalc.WorkingEntryStep | career_calc.py:20-23 | working entry `j` is the previous entry plus `Salary(p, j)`, that is `starting_salary * (1 + annual_raise)^j` |
| CareerCalc.WorkingEntry | career_calc.py:19-23 | working entry `j` is the college total plus the salaries of working years `0..j` |
| CareerCalc.SalarySumGeometric | career_calc.py:19-23 | the salaries of the first `j` working years form a geometric series: `r * sum == s * ((1 + r)^j - 1)` |
| CareerCalc.SalarySumNoRaise | career_calc.py:19-23 | with no raise, `j` working years earn exactly `j * starting_salary` |
| CareerCalc.SalaryNonNegative | career_calc.py:19-23 | a non-negative starting salary with a raise of at least -100% keeps every salary non-negative |
| CareerCalc.WorkingNonDecreasing | career_calc.py:19-23 | under the same conditions the working segment never decreases |
| CareerCalc.FindBreakEven | career_calc.py:28-36 | a returned `(year, v)` has `year` below both lengths, `B[year] >= A[year]` (a tie counts), `B[k] < A[k]` for every earlier `k` and `v == B[year]`; `None` is returned exactly when `B < A` at every year of the overlap |
| CareerCalc.FirstBreakEvenUnique | career_calc.py:33-35 | at most one year is the first break-even year |
| CareerCalc.BreakEvenExistsUnlessNever | career_calc.py:33-36 | B never reaching A over the overlap is equivalent to there being no first break-even year, so the two outcomes of the scan are exhaustive |
| CareerCalc.LeastReached | career_calc.py:33-35 | any year at which B has reached A has a first break-even year at or before it |
| CareerCalcExamples.CompoundingExample | career_calc.py:19-23 | no college, salary 100 and a 10% raise over three years give `[100, 210, 331]` |
| CareerCalcExamples.EducationCostExample | career_calc.py:13-23 | two college years at 50, then one working year at salary 0, give `[-50, -100, -100]` |
| CareerCalcExamples.AlternatingSalaryExample | career_calc.py:19-23 | no college, salary 100 and a raise rate of -3 over two years give `[100, -100]`: the working segment falls once the rate is below -1 |
| CareerCalcExamples.NoEducationStartsWithSalary | career_calc.py:19-22 | with no college years the first entry is the starting salary |
| CareerCalcExamples.EmptySeriesNeverBreaksEven | career_calc.py:33 | an empty series never breaks even, because the overlap is empty; `BreakEvenExamples` shows `FindBreakEven` then returns `None` |

## Left out

- The example career dictionaries and the calls that project them (career_calc.py:40-83): fixed data, not logic.
- The console summary and its currency formatting (career_calc.py:86-94): output only.
- The matplotlib chart, the break-even marker and its annotation (career_calc.py:1, 97-118): a foreign plotting library and a user interface.
- Binary floating-point rounding: `salary *= (1 + annual_raise)` and the running total are exact `real` arithmetic here, not IEEE doubles.
- Python's mix of `int` and `float` values: every amount is a `real`.
- Negative year counts, for which Python's `range` is empty: the year counts are `nat`.
