# Work/break interval search, modelled in Dafny

`periods.py` proposes ways to fill the time left before a stop time with N
work periods separated by N-1 breaks, for N = 1, 2, ..., 19, keeping a fixed
ratio between work length and break length. For each N, `calculate_periods`
rounds an initial break length, multiplies it by the ratio to get the work
length, and runs a correction loop. On try t the loop cuts the work length by
one minute when t is not a multiple of 3 and cuts the break length otherwise.
It stops as soon as the total fits. The search ends at the first N whose work
length is below 19 minutes. `display_intervals` prints one table row per
proposal.

The model:

- `rounding.dfy` (module `PyRound`): Python 3's `round` of an exact rational,
  which rounds half to even. It is defined by its property, and the property
  is proved to determine the value uniquely.
- `periods.dfy` (module `IntervalSearch`): `calculate_periods`.
  - `CalculatePeriods` is the outer `for` loop with its early exit.
  - `FitIntervals` is one pass: the rounding and the inner `while` loop.
  - Both are imperative methods proved against the specification functions
    `Outcome`, `Outcomes`, `KeptPrefix` and `Periods`.
  - The `while` loop is specified by `Step` (one try) and `Shrink` (the
    whole loop).
- `periods_props.dfy` (module `SearchProperties`): properties that relate
  several passes or several tries, and one worked input.
- `display.dfy` (module `Display`): the numbers in the rows printed by
  `display_intervals`.
- `stop_time.dfy` (module `StopTime`): how `(endtime - now).seconds` turns a
  stop time into the seconds the search plans with.

The time left is an input: whole seconds `seconds` (the `timedelta.seconds`
value, 0 to 86399). The source's `minutes` is `seconds / 60`. The budget test
`totaltime > minutes` is modelled as `60 * Total > seconds`, which is exact.
The initial break length is Python's round of the exact rational
`seconds / (60 * (N*ratio + N - 1))`. With `FUDGE_FACTOR = 1` the float
computation gives the same integer. An exact tie is a multiple of 1/2, so
both float divisions are exact there. Away from a tie, float error is far
smaller than the distance to the nearest half.

The model follows Python 3, which the source's `print(...)` and `input(...)`
calls target. Line 40 divides by 60 with true division, and line 48 divides
the float minutes by the denominator before `round` rounds half to even and
returns an integer. Under Python 2 both divisions would floor and `round`
would round half away from zero. That behaviour is not modelled.

Every integer ratio is accepted, as in the source. Line 48 can raise two
exceptions, and `CalculatePeriods` returns an `Err` for each:

- `Err(ZeroDivision)`: a ratio of 0 makes the denominator zero for N = 1,
  where the source raises `ZeroDivisionError`. `DenominatorZero` proves that
  this is the only zero denominator.
- `Err(Overflow)`: dividing a float by an int first converts the int to a
  float. That conversion raises `OverflowError` once the denominator's
  magnitude is at least 2^1024 - 2^970 = (2^54 - 1) * 2^970
  (`TooLargeForFloat`). The model states this as a quotient by 2^970
  reaching 2^54 - 1, with the division by 2^970 taken in steps of 2^64, so
  no numeral wider than 2^64 appears in a proof. `ThresholdExact` proves
  that this is the magnitude reaching (2^54 - 1) * 2^970. The search overflows when it reaches such a pass
  (`OverflowReached`). With the seconds a `timedelta` can hold, that
  happens exactly when the ratio itself is that large, at the first pass
  (`OverflowOnlyAtFirstPass`). A
  ratio of magnitude at least 2880 already ends the search after the first
  pass with no proposal (`LargeRatioStops`).

Behaviour the proofs bring out:

- With one work period the break length does not enter the total, yet the
  loop still cuts it on every third try. The proposal can therefore carry a
  negative break. With 19 minutes left (1140 seconds) and ratio 25, the only
  proposal is 19 minutes of work with a break of -1
  (`SinglePeriodNegativeBreak`). The table hides this: its BREAK column shows
  `n - 1 and breaklen`, which is 0 when n = 1 (`NegativeBreakShownAsZero`).
- The outer loop is an early exit, not a filter. Once a pass falls below 19
  minutes no later N is offered, even one that would pass (`EarlyExit`,
  `PeriodsCharacterized`).
- A stop time earlier than the current time of day plans until that time
  tomorrow (`SecondsLeft`). This follows the code: `.seconds` keeps only the
  remainder modulo a day.
- A comment at periods.py:44 speaks of 20 passes. `range(1, 20)` makes 19,
  and the model follows the code (`CountBound` is 20, exclusive).

## Model

| member | source | states |
|---|---|---|
| IntervalSearch.CalculatePeriods | periods.py:29-68 | a ratio of 0 raises the division error; any other ratio raises the overflow error exactly when the search reaches a pass whose denominator is too large for a float, and otherwise returns exactly Periods |
| IntervalSearch.Periods | periods.py:42-68 | at most 19 candidates, interval counts 1, 2, ... in order, work lengths at least 19, every total within budget |
| SearchProperties.PeriodsCharacterized | periods.py:46-66 | a list is the result exactly when it holds the outcomes for 1, 2, ... in order, each at least 19, and the next outcome, if any, is below 19 |
| SearchProperties.EarlyExit | periods.py:62-65 | if the pass for m falls below 19, no candidate with m or more intervals is returned |
| SearchProperties.OverflowOnlyAtFirstPass | periods.py:39-48 | for the seconds a timedelta holds and a nonzero ratio, the search overflows exactly when the ratio, the first pass's denominator, is too large for a float |
| SearchProperties.LargeRatioStops | periods.py:46-65 | when 60 times the ratio's magnitude is at least twice the seconds, the first pass yields no work and the result is empty |
| IntervalSearch.FitIntervals | periods.py:47-61 | the rounding followed by the inner while loop returns the pass outcome for N |
| IntervalSearch.Outcome | periods.py:47-61 | one pass for N intervals yields a candidate with N intervals whose total fits the budget |
| IntervalSearch.Outcomes | periods.py:46 | the list of pass outcomes has one entry per interval count, 1 to 19 |
| IntervalSearch.KeptPrefix | periods.py:62-66 | the kept list is a prefix of the outcomes, every kept work length is at least 19, and the first outcome not kept is below 19 |
| IntervalSearch.KeptPrefixUnique | periods.py:62-66 | a prefix with those three properties is the kept list |
| IntervalSearch.InitialBreak | periods.py:48 | the initial break length is Python's round of minutes over the denominator: within half a unit of it, and even on an exact tie |
| IntervalSearch.ShrinkRun | periods.py:47-61 | the correction loop for N, started from the rounded break and ratio times it as work, ends within budget |
| IntervalSearch.Shrink | periods.py:51-61 | the correction loop terminates, never lowers the try count, and ends with a total within budget |
| IntervalSearch.WorkCuts | periods.py:54-57 | definition: the work minutes cut by tries 1 to t, one per try whose number is not a multiple of 3 |
| IntervalSearch.BreakCuts | periods.py:54-60 | definition: the break minutes cut by tries 1 to t, one per try whose number is a multiple of 3 |
| IntervalSearch.Advance | periods.py:54-60 | definition: the state k tries later, budget or not; its contract is AdvanceCuts |
| IntervalSearch.Step | periods.py:54-60 | one try of the loop; its contract is StepCuts |
| IntervalSearch.StepCuts | periods.py:54-60 | one try counts itself and removes exactly the minute that the 2-in-3 rule assigns to work or to break |
| IntervalSearch.AdvanceCuts | periods.py:54-60 | after k tries the work length has lost the work cuts of those tries and the break length their break cuts |
| IntervalSearch.ShrinkAdvances | periods.py:51-61 | the loop's result is the state reached after exactly the number of tries it made |
| IntervalSearch.ShrinkCuts | periods.py:51-61 | the loop's result is the start state minus t - t/3 work minutes and t/3 break minutes, t counted from the start |
| IntervalSearch.ShrinkStopsAtFirstFit | periods.py:51 | every state the loop passes through before its last one is over budget |
| SearchProperties.ShrinkPattern | periods.py:48-61 | after t tries the work length is b0*ratio - (t - t/3) and the break length b0 - t/3; the result fits, and every earlier try count was over budget |
| SearchProperties.OverBudgetUntilStop | periods.py:51-61 | every try count before the one the loop stops at leaves the total over budget |
| SearchProperties.UnchangedIffWithinBudget | periods.py:48-51 | the pass returns the rounded lengths unchanged exactly when they already fit |
| SearchProperties.ThreeTriesLowerTotal | periods.py:51-61 | every three tries lower the total by 3N - 1, which is at least 2 |
| SearchProperties.SingleShrink | periods.py:51-61 | with one work period the loop stops at the first try count whose work length alone fits |
| SearchProperties.SingleShrinkTries | periods.py:51-61 | with one work period, a try count that fits while the one before it did not is the count the loop stops at |
| SearchProperties.FirstFitUnique | periods.py:51-61 | at most one try count fits while the one before it does not |
| SearchProperties.SinglePeriodNegativeBreak | periods.py:46-66 | for 1140 seconds and ratio 25 the result is the single candidate of 19 work minutes with a break of -1 |
| SearchProperties.SingleOutcomeExample | periods.py:47-61 | for 1140 seconds and ratio 25 the pass for N = 1 yields work 19 and break -1 |
| SearchProperties.SecondOutcomeExample | periods.py:47-62 | for 1140 seconds and ratio 25 the pass for N = 2 yields work 0, which ends the search |
| IntervalSearch.Total | periods.py:50 | definition: work times N plus break times N - 1 |
| IntervalSearch.OverBudget | periods.py:51 | definition: the loop test totaltime > minutes, stated exactly as 60 * Total > seconds |
| IntervalSearch.Denominator | periods.py:48 | definition: N*ratio + N - 1, the divisor of the minutes |
| IntervalSearch.DenominatorZero | periods.py:48 | the denominator N*ratio + N - 1 is zero exactly when N = 1 and ratio = 0 |
| IntervalSearch.TooLargeForFloat | periods.py:48 | definition: float() of the denominator raises OverflowError; its meaning is stated by ThresholdExact |
| IntervalSearch.ThresholdExact | periods.py:48 | the overflow test holds exactly when the magnitude is at least (2^54 - 1) * 2^970 = 2^1024 - 2^970, the first integer that rounds past the largest finite double |
| IntervalSearch.OverflowReached | periods.py:46-48 | definition: some pass up to and including the first one not kept has a denominator too large for a float |
| PyRound.RoundHalfEven | periods.py:48 | the result lies within half a unit of n/d, and on an exact tie it is even |
| PyRound.RoundHalfEvenUnique | periods.py:48 | any integer with that property equals RoundHalfEven, so the function is Python's round and nothing else |
| Display.RowOf | periods.py:77-85 | the row is numbered index + 1, shows BREAK 0 for a single period and the break otherwise, and its TOTAL is T.WORK plus T.BREAK, the candidate's total |
| Display.DisplayRows | periods.py:77-85 | one row per candidate in order, numbered from 1; BREAK is 0 for a single period; T.WORK is N*work, T.BREAK is (N-1)*break, and TOTAL is their sum |
| Display.PeriodsTable | periods.py:77-85 | in the table of a search result the choice number equals the number of periods, WORK is at least 19, and TOTAL fits the budget |
| Display.NegativeBreakShownAsZero | periods.py:81 | the single-period candidate with break -1 shows BREAK 0 and TOTAL 19 |
| StopTime.TimedeltaSeconds | periods.py:39-40 | the seconds attribute lies in [0, 86400) and is the whole seconds of the time difference modulo a day |
| StopTime.SecondsLeft | periods.py:37-40 | the planned seconds are the whole seconds until the next hh:mm, today if it has not passed and tomorrow otherwise, whatever the dates |
| IntervalSearch.Shift970Div | periods.py:48 | helper: the stepwise shift of the overflow test divides by 2^970 |
| IntervalSearch.Shift64Div | periods.py:48 | helper: k shifts by 64 bits divide by 2^(64k) |
| IntervalSearch.ThresholdByQuotient | periods.py:48 | helper: a quotient by d reaches q exactly when the dividend reaches q times d |
| IntervalSearch.NestedDivision | periods.py:48 | helper: dividing by b and then by c is dividing by b times c |
| IntervalSearch.Pow2Add | periods.py:48 | helper: 2^(a+b) is 2^a times 2^b |
| IntervalSearch.Pow2Of64 | periods.py:48 | helper: the shift step 0x1_0000_0000_0000_0000 is 2^64 |
| IntervalSearch.Shift64Bound | periods.py:48 | helper: the stepwise shift never makes a magnitude larger |
| IntervalSearch.OneTry | periods.py:54-60 | helper: try t+1 adds one minute to the break cuts when t+1 is a multiple of 3, and one minute to the work cuts otherwise |
| IntervalSearch.TotalCuts | periods.py:50 | helper: cutting one minute of work lowers the total by N; cutting one minute of break lowers it by N-1 |
| IntervalSearch.ShrinkStep | periods.py:51-61 | helper: a try made while over budget does not change where the loop ends |
| IntervalSearch.ShrinkStops | periods.py:51 | helper: a state within budget is where the loop stops |
| IntervalSearch.KeptPrefixLength | periods.py:62-66 | helper: a prefix of the outcomes whose work lengths all meet the floor is no longer than the kept list |
| IntervalSearch.NoOverflowBefore | periods.py:46-48 | helper: if every pass before m converts its denominator and the search stops before m, it does not overflow |
| IntervalSearch.OutcomeAt | periods.py:46 | helper: the outcome at position N - 1 is the pass for N |
| IntervalSearch.OverflowExit | periods.py:46-48 | helper: a pass that overflows after every earlier pass was kept is reached by the search |
| IntervalSearch.FloorExit | periods.py:62-65 | helper: leaving at the first pass below the floor, with no overflow so far, returns the search result |
| IntervalSearch.ExhaustedExit | periods.py:46-68 | helper: finishing all 19 passes with no miss and no overflow returns the search result |
| SearchProperties.OverflowWhenNothingKept | periods.py:46-48 | helper: when nothing is kept, the search overflows exactly when the ratio is too large for a float |
| SearchProperties.NoOverflowForSmallRatio | periods.py:46-48 | helper: a ratio below 172800 in magnitude never overflows |
| SearchProperties.RunClosedForm | periods.py:48-61 | helper: one pass ends b0*ratio - (t - t/3) work and b0 - t/3 break after its t tries |
| SearchProperties.RunOverBudgetBefore | periods.py:51-61 | helper: every try count of one pass before its last is over budget |
| SearchProperties.FirstPassNoWork | periods.py:48-61 | helper: such a ratio leaves the first pass with no work |
| SearchProperties.LargeRatioKeepsNothing | periods.py:46-65 | helper: such a ratio keeps no candidate |
| SearchProperties.FirstBreakZero | periods.py:48 | helper: a ratio that large rounds the first break length to 0 |
| SearchProperties.ZeroBreakNoWork | periods.py:49-61 | helper: a first break of 0 gives the candidate with no work and no break |
| SearchProperties.DenominatorBound | periods.py:48 | helper: for a ratio below 172800 in magnitude every denominator stays below 172800 * 40 |
| SearchProperties.WorkCutsMonotone | periods.py:54-57 | helper: the work cuts never decrease as the try count grows |
| SearchProperties.SinglePeriodTotal | periods.py:50 | helper: with one work period the total is the work length |
| SearchProperties.NothingToCut | periods.py:50-51 | helper: a start state within budget is returned unchanged after zero tries |
| StopTime.WholeDaysVanish | periods.py:39-40 | helper: whole days between the two dates do not change the remainder modulo a day |

## Left out

- Reading the clock and parsing the stop time (`datetime.now`, `strptime`,
  periods.py:37-38). They are parameters: `SecondsLeft` takes the current
  time of day and the day difference as inputs.
- Floating point and `FUDGE_FACTOR` (periods.py:22, 40). Only the shipped
  value 1 is modelled, with exact integer arithmetic; any other factor would
  need the float semantics.
- Printing (periods.py:76, 79). `DisplayRows` returns the numbers of each row
  rather than formatted text.
- The `__main__` block (periods.py:88-110): argument handling, `sys.exit`,
  the check for the timer program, the interactive choice (including a
  choice of 0, which `choices[-1]` turns into the last row) and the
  `subprocess.call` hand-off. These are I/O and process control.
- FitIntervals: the inner `while` loop is written inline in
  `calculate_periods`. Here it is a separate method called once per pass,
  with the same statements.
