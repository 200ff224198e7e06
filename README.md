# FirstDosesFirst: the vaccine-immunity engine in Dafny

FirstDosesFirst estimates how much immunity a population has built up from
its daily vaccinations. It compares a "first doses first" policy with the
usual two-dose schedule. This project models the engine of that program and
proves properties of the model. It has four parts.

- **Efficacy curves** (`efficacy.dfy`, module `Efficacy`).
  - A curve is a list of control points (day, efficacy).
  - The engine precomputes one value per integer day by linear interpolation and holds the last value after the last point.
  - Lookups past the end of the table are clamped. `get_eff` in `FDF.py` and `fdf_calculator.py` clamps to the table's maximum; `VaccineEfficacy.__get_eff` in `old/FDF.py` clamps to its last entry.
  - Efficacy is a `real` (exact rationals).
- **Second-dose backlog** (`backlog.dfy`, module `Backlog`).
  - Each country has a fixed-length queue with one slot per day until a person is due their second dose.
  - Each day the front slot is popped: that is the day's second-dose demand, and it is served first.
  - A shortfall is added to the new front slot. The day's new first doses are appended at the back.
  - The queue is the class `SecondDoseBacklog`, whose `Advance` updates its slots in place. The pure function `Step` specifies it.
- **Immunity accumulation** (`immunity.dfy`, module `Immunity`).
  - `calc_immunity_1d` and `calc_immunity_2d` add `doses[i] * eff(max(0, x - i))` into a result array for every day `x`, then divide by one million.
  - The methods keep the `+=` loops over an `array<real>`. They are proved equal to the closed-form causal sum `Accum`.
- **Allocation by age priority** (`age_allocation.dfy`, module `AgeAllocation`, and `redistribution.dfy`, module `Redistribution`).
  - The cascade of `calc_immunity_1d_age` / `calc_immunity_2d_age` fills the oldest bracket before spilling into the next. It updates a `need` array in place.
  - The population-weighted "Total" column is modelled too.
  - `redistribute_doses` hands each column's doses to the (dose, group) pair at the back of a priority list. Each pair takes at most what its group still lacks, and the overflow moves on; a completed pair leaves the list.
  - It is modelled as value-level specification functions (`GetRemainder`, `AssignD`, `Take`, `Place`, `RowFrom`, `Rows`, `Redistribute`). The methods `PlaceBatch`, `ProcessRow` and `RedistributeDoses` keep the source's loops and are proved equal to those functions.
  - `Place` and `PlaceBatch` run the corrected `while vacc > 0` loop of "## Findings": a batch ends as soon as no dose is left, before the next pair is read. `PlaceAsWritten` models the loop as the code has it.

`common.dfy` (module `Common`) holds `Result`, `Option` and the sum lemmas used
throughout.

Error paths of `redistribute_doses` are `Result` failures:
- `EmptyFrame`: `df.iloc[0]` on a frame without rows.
- `PriorityListEmpty`: `priorities[-1]` on an empty list.
- `NotInPriorities`: `priorities.remove` of a pair that is not listed.

## Model

| member | source | states |
|---|---|---|
| Common.Min | dose_redistributing_methods.py:69 | the result is one of the two arguments and bounds both from below |
| Common.SumSplit | dose_redistributing_methods.py:95-101 | a prefix sum plus the matching suffix sum is the whole sum (used for the per-row totals) |
| Common.SumUpdate | dose_redistributing_methods.py:78-85 | adding to one cell changes the total by exactly that amount |
| Efficacy.Interpolate | FDF.py:72-77 | interpolate() between bracketing control points, flat after the last one: the value never leaves the range of the control values; InterpolateAtPoint, InterpolatePlateau, InterpolateBounds and InterpolateMonotone state the rest; the same code stands at fdf_calculator.py:55-60 and old/FDF.py:68-74 |
| Efficacy.InterpolateAtPoint | FDF.py:72-77 | the interpolated curve passes through every control point |
| Efficacy.InterpolatePlateau | FDF.py:72-77 | from the last control day on, the interpolated curve is flat at the last control value |
| Efficacy.InterpolateBounds | FDF.py:72-77 | with non-decreasing control values, every interpolated value lies between the first and the last control value |
| Efficacy.InterpolateMonotone | FDF.py:72-77 | with non-decreasing control values, the interpolated curve is non-decreasing in the day |
| Efficacy.InterpolateSharedPrefix | old/FDF.py:55-66 | two curves with the same first k+1 control points agree on every day up to the k-th control day |
| Efficacy.EffTable | FDF.py:72-77 | the table has one entry per day 0..total-1 and holds each control value at its control day; the same code stands at fdf_calculator.py:55-60 |
| Efficacy.SeqMax | FDF.py:83 | the maximum is an entry of the table and no entry exceeds it |
| Efficacy.LookupClampMax | FDF.py:82-85 | within the table the entry of that day; past it the table maximum, an entry no other entry exceeds; LookupClampMaxIsCurve shows this is the interpolated curve on every day |
| Efficacy.LookupClampLast | old/FDF.py:88-92 | within the table the entry of that day; past it the last entry; LookupClampLastIsCurve shows this is the interpolated curve on every day |
| Efficacy.SortedMaxIsLast | old/FDF.py:89-90 | in a non-decreasing table the maximum is the last entry, so clamping to the maximum and clamping to the last entry agree |
| Efficacy.TableSorted | FDF.py:72-77 | the table of a curve with non-decreasing control values is sorted |
| Efficacy.LookupClampMaxIsCurve | FDF.py:80-85 | a lookup clamped to the table maximum returns the interpolated curve on every day, including days past the table |
| Efficacy.LookupClampLastIsCurve | old/FDF.py:86-92 | a lookup clamped to the last entry returns the interpolated curve on every day, including days past the table |
| Efficacy.GetEff | FDF.py:80-85 | get_eff picks the one-dose curve for doses == 1 and the two-dose curve otherwise; the value lies in [0, 1] and equals that curve's interpolation on every day; the same code stands at fdf_calculator.py:63-68 |
| Efficacy.FdfCurvesShareRise | FDF.py:61-70 | both curves coincide on days 0..21: they share (0, 0) and (21, 0.65); the same code stands at fdf_calculator.py:44-53 |
| Efficacy.FdfPlateaus | FDF.py:61-70 | the one-dose curve is 0.85 from day 56 on and the two-dose curve 0.98 from day 35 on, also past the table's end |
| Efficacy.GetEffSamples | FDF.py:80-85 | day 10 lies 10/21 of the way up to 0.65, day 1000 is clamped to 0.85, day 0 gives 0 |
| Efficacy.GetEffMonotone | FDF.py:80-85 | each curve is non-decreasing in the days since the shot |
| Efficacy.MaxDay | old/FDF.py:68 | the latest control day is one of the control days and bounds all of them |
| Efficacy.OldOneDosePoints | old/FDF.py:55-63 | one_dose is first_dose plus one point (dbs + 10, 0.75); for any second-shot day after day 7 it has strictly increasing days from 0 and non-decreasing efficacy |
| Efficacy.OldTwoDosePoints | old/FDF.py:55-65 | two_dose is first_dose plus one point (dbs + 14, 0.90); for any second-shot day after day 7 it has strictly increasing days from 0 and non-decreasing efficacy |
| Efficacy.OldPointsWellFormed | old/FDF.py:55-66 | one_dose and two_dose are first_dose plus (31, 0.75) and (35, 0.90) respectively; both have strictly increasing days from 0 and non-decreasing efficacy |
| Efficacy.NewVaccineEfficacy | old/FDF.py:52-74 | days_between_shots is 21, the curves extend the shared first-dose prefix, and both tables span days 0..35 |
| Efficacy.OldGetEff | old/FDF.py:86-98 | __get_eff returns an entry of the regimen's table, the entry of that day within the table; OldGetEffIsCurve shows past the table it is the last entry, and the interpolated curve on every day |
| Efficacy.OldGetEffIsCurve | old/FDF.py:86-98 | one_dose / two_dose return the interpolated curve on every day and lie in [0, 0.9] |
| Efficacy.OldGetEffMonotone | old/FDF.py:86-98 | each old curve is non-decreasing in the days since the shot |
| Efficacy.OldGetEffAtShot | old/FDF.py:55-56 | no protection on the day of the shot |
| Efficacy.OldCurvesShareRise | old/FDF.py:61-66 | the old one-dose and two-dose lookups agree on days 0..21 |
| Efficacy.OldPlateaus | old/FDF.py:64-66 | the old one-dose curve is flat at 0.75 from day 31 on and the two-dose curve at 0.90 from day 35 on, also past the table |
| Backlog.Step | FDF.py:130-139 | one day: the queue keeps its length, second doses are min(front, supply), second doses plus new first doses make up the day's supply, and the new first doses land in the back slot; the same code stands at fdf_calculator.py:113-122 |
| Backlog.StepConserves | FDF.py:130-139 | doses in the queue plus second doses given equal doses before plus new first doses |
| Backlog.StepSlots | FDF.py:133-139 | every slot moves one place forward and the new front slot also carries the unmet demand |
| Backlog.Slots | FDF.py:122-139 | the queue after j days of a run from n zeros keeps its n slots; QueueShape, FrontSlot and RunConserves state its contents; the same code stands at fdf_calculator.py:105-122 |
| Backlog.FirstsTo | FDF.py:128-139 | new_vacs of days 0..j-1: one entry per day, each that day's new first doses |
| Backlog.SecondsTo | FDF.py:128-139 | second doses of days 0..j-1: one entry per day, each that day's second doses |
| Backlog.Firsts | FDF.py:128-139 | new_vacs of the whole run, one entry per day |
| Backlog.Seconds | FDF.py:128-139 | second doses of the whole run, one entry per day |
| Backlog.DailyConservation | FDF.py:137-138 | over a run, each day's new first doses plus second doses equal that day's supply |
| Backlog.RunConserves | FDF.py:128-139 | over a run, what is still queued plus all second doses given equals all first doses given |
| Backlog.QueueShape | FDF.py:122-139 | after j days every slot but the front holds the first doses of the day that is due on it |
| Backlog.FrontSlot | FDF.py:131-136 | the front slot holds the first doses of the day n days back plus the carried shortfall |
| Backlog.NoDemandBeforeGap | FDF.py:122 | before n days have passed no second dose is due |
| Backlog.AllFirstBeforeGap | FDF.py:137-138 | during the first n days every dose is a first dose |
| Backlog.FirstCohortReturns | FDF.py:117-118 | day 0's first doses come back as day n's demand |
| Backlog.ShortageCarries | FDF.py:119-136 | with a owed and b < a given on day n, all b go to second doses, no first doses are given, and a - b are carried to the next day; the same code stands at old/FDF.py:149-154 |
| Backlog.SecondDoseBacklog.constructor | FDF.py:122 | a new backlog holds days-between-shots zeros |
| Backlog.SecondDoseBacklog.Advance | FDF.py:130-139 | popleft, the shortfall added to the new front, append: the new slots and the returned first doses are those of Step on the old slots |
| Backlog.SecondDoseBacklog.AdvanceOn | fdf_calculator.py:113-122 | advancing on day i of a run moves the queue to its day i+1 contents and returns that day's new first doses |
| Immunity.DaysSince | FDF.py:107 | max(0, x - i): x - i from the dosing day on, 0 before it |
| Immunity.AsReal | FDF.py:108 | the doses as reals, entry by entry |
| Immunity.Accum | FDF.py:105-109 | the closed-form sum over the cohorts of days 0..k-1 of dose * eff(days since its day) on day x; its contract is empty, and AccumCausal, AccumNonDecreasing, AccumBounds and AccumMonotoneInDoses state its properties |
| Immunity.AccumCausal | FDF.py:105-109 | with eff(0) == 0, cohorts from day x on add nothing to day x |
| Immunity.AccumNonDecreasing | FDF.py:105-109 | with non-negative doses and a non-decreasing curve, accumulated immunity is non-decreasing in the day |
| Immunity.AccumBounds | FDF.py:105-109 | with a curve in [0, 1], accumulated immunity lies between 0 and the doses given |
| Immunity.AccumMonotoneInDoses | FDF.py:140-141 | fewer doses on every day give no more immunity on any day |
| Immunity.FdfCurve | FDF.py:89-90 | one_dose / two_dose as curves over the days since the shot: each starts at 0, lies in [0, 1] and never decreases |
| Immunity.OldCurve | old/FDF.py:94-98 | VACC.one_dose / VACC.two_dose as curves over the days since the shot: each starts at 0, lies in [0, 1] and never decreases |
| Immunity.AddCohort | FDF.py:107-108 | one cohort adds dose * eff(days since its day) to every cell of the result |
| Immunity.AddDay | old/FDF.py:116-120 | after day i's cohort the result holds the causal sum over days 0..i |
| Immunity.ScalePerMillion | FDF.py:109 | every cell is divided by 1e6 |
| Immunity.ScaleAccumulated | FDF.py:109 | the final division turns the accumulated sums into per-person immunity |
| Immunity.CalcImmunity1d | FDF.py:94-110 | every day's result is the causal sum of all cohorts weighted by the curve, divided by 1e6; the same code stands at fdf_calculator.py:77-93 and old/FDF.py:105-122 |
| Immunity.TwoDoseDay | FDF.py:128-141 | one day advances the backlog and adds only the day's new first doses to the result |
| Immunity.CalcImmunity2d | FDF.py:113-143 | every day's result is the causal sum over the new first doses that the backlog leaves, not the total doses, divided by 1e6; the same code stands at fdf_calculator.py:96-126 and old/FDF.py:128-164 |
| Immunity.Immunity1dProperties | FDF.py:94-110 | with a well-shaped curve the accumulation lies between 0 and the doses given, never decreases, and day x depends only on days before x |
| Immunity.BacklogNeverAddsCohorts | FDF.py:140-141 | the two-dose accumulation never exceeds the one-dose accumulation of the same supply |
| AgeAllocation.PriorityOrder | old/FDF.py:241-242 | the brackets reversed, so the oldest comes first |
| AgeAllocation.InitialNeed | old/FDF.py:245-246 | need is the population except for 0-4 and 5-14; need is 0 exactly for those brackets or an empty bracket |
| AgeAllocation.Avail | old/FDF.py:260-273 | supply left before bracket g never exceeds the day's supply |
| AgeAllocation.Given | old/FDF.py:265-273 | a bracket gets at most its need and at most the supply left |
| AgeAllocation.Allot | old/FDF.py:259-273 | get_one: each bracket's doses are those the cascade gives it |
| AgeAllocation.Remaining | old/FDF.py:267-272 | the need left plus the doses given is the need before |
| AgeAllocation.AvailClosedForm | old/FDF.py:260-273 | supply left before bracket g is the day's supply minus all earlier needs, or 0 once they exceed it |
| AgeAllocation.CascadeConservesTo | old/FDF.py:265-273 | doses given so far plus supply left is the day's supply |
| AgeAllocation.CascadeTotal | old/FDF.py:274-275 | doses allocated plus leftover is the supply, and the allocation is min(supply, total need) |
| AgeAllocation.AvailStep | old/FDF.py:265-273 | a bracket needing at least what is left takes it all; otherwise it is filled and the rest moves on |
| AgeAllocation.AvailNonIncreasing | old/FDF.py:265-273 | the supply left never grows along the cascade |
| AgeAllocation.CascadePriority | old/FDF.py:265-269 | once a bracket is not filled completely, no later bracket gets anything |
| AgeAllocation.CascadeLeftover | old/FDF.py:274-275 | a leftover remains only when every bracket was filled completely |
| AgeAllocation.Exhausted | old/FDF.py:268-269 | once the supply is used up, every later bracket gets nothing |
| AgeAllocation.AllocateDay | old/FDF.py:258-275 | the in-place cascade returns get_one and the leftover, and leaves the need array at the remaining need |
| AgeAllocation.NeedAfter | old/FDF.py:251-273 | need_1 carried across days 0..j-1 keeps one entry per bracket; NeedAccounting states that doses given plus the need left equal the initial need |
| AgeAllocation.GroupDoses | old/FDF.py:276-280 | a bracket's first doses per day, as the cascade over the days gives them |
| AgeAllocation.NeedAccounting | old/FDF.py:251-273 | over the days, the doses a bracket got plus its remaining need equal its initial need |
| AgeAllocation.GivenWithinPopulation | old/FDF.py:279 | no day gives a bracket more doses than its population |
| AgeAllocation.Share | old/FDF.py:279 | p = n / population is never negative; an empty bracket has need 0 and is skipped by the code (old/FDF.py:262-263), and its share here is 0, which adds nothing |
| AgeAllocation.ShareScales | old/FDF.py:279 | p = n / population: scaled back by the population it is n, and it lies in [0, 1] when n is at most the population |
| AgeAllocation.Shares | old/FDF.py:279 | each day's share is that day's doses over the bracket's population |
| AgeAllocation.SharesSum | old/FDF.py:279 | the shares sum to the doses over the population |
| AgeAllocation.SharesAtMostOne | old/FDF.py:276-280 | when a bracket never gets more doses than its population, its shares sum to at most 1 |
| AgeAllocation.GroupShares | old/FDF.py:276-280 | one share per day for a bracket |
| AgeAllocation.GroupImmunityBounds | old/FDF.py:276-280 | every bracket's immunity lies in [0, 1] |
| AgeAllocation.WeightedMean | old/FDF.py:281-285 | the Total column exists exactly when the population is non-zero |
| AgeAllocation.WeightedSumBounds | old/FDF.py:283-284 | with immunities in [0, 1], the weighted sum lies between 0 and the population |
| AgeAllocation.WeightedMeanBounds | old/FDF.py:281-285 | the population-weighted mean of immunities in [0, 1] lies in [0, 1] |
| AgeAllocation.AddCohortColumn | old/FDF.py:280 | a cohort adds p * eff(days since) to its own bracket's column only |
| AgeAllocation.AddGroupDay | old/FDF.py:276-280 | one bracket's cohort of a day joins its accumulated column |
| AgeAllocation.CascadeOn | old/FDF.py:258-273 | the cascade on day i moves the need array to its day i+1 contents and returns that day's doses per bracket |
| AgeAllocation.AddDayCohorts | old/FDF.py:276-280 | all of a day's bracket cohorts join the result |
| AgeAllocation.AgeDay | old/FDF.py:251-280 | one day keeps the whole run's invariant: need and result are those after day i+1 |
| AgeAllocation.Row | old/FDF.py:284 | one day's row of the per-bracket result |
| AgeAllocation.TotalColumn | old/FDF.py:281-285 | each day's Total is the population-weighted mean of that day's bracket immunities |
| AgeAllocation.AgeSetUp | old/FDF.py:241-246 | brackets and populations reversed, need as InitialNeed, within the population |
| AgeAllocation.RunAgeDays | old/FDF.py:251-280 | the day loop reaches the state after the last day |
| AgeAllocation.CalcImmunity1dAge | old/FDF.py:234-286 | every bracket's immunity is the causal sum of its daily shares weighted by the one-dose curve, and Total is their population-weighted mean |
| AgeAllocation.AgeDay2d | old/FDF.py:307-350 | one day advances the backlog and runs the cascade on the new first doses only |
| AgeAllocation.RunAgeDays2d | old/FDF.py:307-350 | the day loop reaches the state after the last day |
| AgeAllocation.CalcImmunity2dAge | old/FDF.py:289-356 | the same as the one-dose version, but the cascade runs on the first doses the backlog leaves and the two-dose curve is used |
| AgeAllocation.AgeImmunityInUnitInterval | old/FDF.py:276-285 | every bracket's immunity and the Total lie in [0, 1] |
| Redistribution.PriorityList | dose_redistributing_methods.py:38-53 | `priority or [...]`: a given non-empty list is used as it is, an empty one falls back to the default order; the working list is never empty at the start |
| Redistribution.DefaultPrioritiesWellFormed | dose_redistributing_methods.py:38-63 | the default list has 14 distinct pairs with 1D 85-99 at the back, every listed group has a fraction, and every fraction lies in (0, 1] |
| Redistribution.Overflow | dose_redistributing_methods.py:72-75 | int(missing * (1 - fraction)): the floor of that product, below missing whenever missing > 0 |
| Redistribution.GetRemainder | dose_redistributing_methods.py:65-76 | missing is min(vacc, pop - have); without fractional dosing missing + remainder == vacc; with it, the overflow is added to the remainder |
| Redistribution.RemoveFirst | dose_redistributing_methods.py:83 | list.remove: no result exactly when the pair is not listed, else one entry shorter |
| Redistribution.RemoveFirstKeeps | dose_redistributing_methods.py:83 | removing a pair from a list without repeats keeps every other pair and leaves no repeats |
| Redistribution.Next | dose_redistributing_methods.py:99 | priorities[-1] names a column whose group is not yet complete |
| Redistribution.AssignD | dose_redistributing_methods.py:78-86 | counter and output cell grow by m; the call fails exactly when it completes a group whose pair is not listed; the invariant (counts within population, complete pairs unlisted) is kept |
| Redistribution.AssignDKeeps | dose_redistributing_methods.py:81-83 | the list keeps every pair except the one whose group assign_d completes |
| Redistribution.Take | dose_redistributing_methods.py:96-98 | one pass keeps the invariant and can only fail on an unlisted pair |
| Redistribution.TakeRoom | dose_redistributing_methods.py:96-98 | whatever a pass assigns is taken from the room the populations leave |
| Redistribution.TakeEffect | dose_redistributing_methods.py:78-86 | one pass adds missing to the counter and the output cell of the same column and drops the pair only when its group is complete |
| Redistribution.Place | dose_redistributing_methods.py:95-99 | a column's batch keeps the invariant and never reports an empty frame |
| Redistribution.PlaceEffect | dose_redistributing_methods.py:95-99 | counters only grow, every dose placed lands in counter and output cell alike, and the list only loses pairs |
| Redistribution.PlaceDropsOnlyFull | dose_redistributing_methods.py:81-83 | a pair leaves the list only once its group is complete |
| Redistribution.PlaceTotal | dose_redistributing_methods.py:95-99 | without fractional dosing the output row gains exactly the batch; with it, at least the batch |
| Redistribution.PlaceServesFirst | dose_redistributing_methods.py:94-98 | the pair a batch is offered first gets everything its group lacks, up to the whole batch |
| Redistribution.PlaceRejects | dose_redistributing_methods.py:80-99 | a batch fails with NotInPriorities (the `priorities.remove` of assign_d) exactly when its first pass completes a group whose pair is not listed; every later pass serves a listed pair |
| Redistribution.PlaceRunsOut | dose_redistributing_methods.py:95-99 | without fractional dosing, a batch fails with PriorityListEmpty exactly when the first pass is admitted and the batch exceeds what the listed pairs, and the first pair if unlisted, still lack |
| Redistribution.PlaceSucceeds | dose_redistributing_methods.py:95-99 | without fractional dosing, a batch is placed exactly when its first pass completes no unlisted pair and it fits into what the listed pairs (and the first pair) still lack |
| Redistribution.PlaceFits | dose_redistributing_methods.py:95-99 | without fractional dosing, a batch the listed current pair can take whole is placed there whole |
| Redistribution.PlaceAsWritten | dose_redistributing_methods.py:95-99 | the loop as written keeps the invariant |
| Redistribution.PlaceAsWrittenAgrees | dose_redistributing_methods.py:95-99 | wherever the loop as written succeeds, the corrected loop gives the same result |
| Redistribution.PlaceAsWrittenExactFit | dose_redistributing_methods.py:95-99 | five doses for one 2D 85-99 column of five people: the loop as written fails on the empty list, the corrected loop places them |
| Redistribution.PlaceBatch | dose_redistributing_methods.py:95-99 | the while loop over the state returns what Place specifies |
| Redistribution.Start | dose_redistributing_methods.py:92-94 | second doses, and first doses when distr_first is set, start at the back of the list, failing exactly when it is empty; other first doses start at their own column |
| Redistribution.RowFrom | dose_redistributing_methods.py:91-99 | filling a row keeps the invariant, counters only grow, every dose placed lands in counter and output alike, and the output row's total is the input's (at least the input's with fractional dosing) |
| Redistribution.ProcessRow | dose_redistributing_methods.py:89-101 | the row loop over the columns returns what RowFrom specifies for a zeroed output row |
| Redistribution.Rows | dose_redistributing_methods.py:88-102 | output rows have the input's shape and per-row totals, and each column's doses plus the starting count never exceed its group's population |
| Redistribution.RowFromListedStarts | dose_redistributing_methods.py:91-99 | when every remaining column starts at the back of the list (second doses, or distr_first), filling a row never fails with NotInPriorities |
| Redistribution.RowsListedStarts | dose_redistributing_methods.py:88-102 | under the same condition, no row of the frame fails with NotInPriorities |
| Redistribution.ColumnTotalCons | dose_redistributing_methods.py:78-80 | the population bound carries from the later rows to the row added in front |
| Redistribution.Redistribute | dose_redistributing_methods.py:13-102 | fails with EmptyFrame exactly on an empty frame; otherwise the output has the input's shape, every row keeps its total (at least it, with fractional dosing), and no column gives its group more doses in total than its population |
| Redistribution.RedistributeListedStarts | dose_redistributing_methods.py:13-102 | with distr_first, or a frame of second doses only, redistribute_doses can fail only on an empty frame or an emptied list, never on an unlisted pair |
| Redistribution.RedistributeDoses | dose_redistributing_methods.py:13-102 | the procedure with its loops returns what Redistribute specifies |

## Left out

- Data loading, caching, pandas pivots, plotting, Markdown reports, `VaccineEfficacy.print_table` and `guesstimate_excess_deaths`: I/O and presentation only.
- The `print(country)` / `print(country, new_vac)` calls of the age cascade (old/FDF.py:256, 274-275) are output. The leftover is returned by `AllocateDay` instead.
- Floating point: efficacy and immunity are exact `real`s, dose counts are `nat`. The `/ 1e6` is exact division. `int(...)` of the non-negative fractional overflow is the floor.
- pandas frames are modelled column by column as sequences. Each country (column) is independent in `calc_immunity_1d` / `_2d`, so the methods take one country's daily doses. The loop over countries is not modelled.
- The lazy `defaultdict` of backlogs is one explicit `SecondDoseBacklog` per country.
- `SecondDoseBacklog.constructor` requires at least two days between shots. With one, the shortage branch writes to the front of an empty deque (an IndexError); with zero, `popleft` fails. The engine uses 21.
- The chained assignment `need_1.loc[country][grp] -= new_vac` (old/FDF.py:267, 337) is modelled as the intended decrement of that bracket's need.
- The `country not in need_1.index` guard of the age cascade (old/FDF.py:255-257) is not modelled. The countries are the intersection of both indexes, so the branch is never taken.
- The per-country, per-bracket MultiIndex columns of the age result are not modelled. The methods take one country's brackets and return an `array2` of days by brackets.
- Redistribution.RedistributeDoses: `have_d`, `priorities` and `row_new` are `seq` values that the methods reassign, not pandas Series or a list updated in place.
- Aliasing is not modelled. `priorities = priority or [...]` makes the caller's list the working list, and `priorities.remove` edits it.
- Redistribution.Redistribute requires more than the code needs (`Ready`). The code reads `pop[group]`, `have_d` and the fraction only for the pair a batch is being given to (dose_redistributing_methods.py:66-67, 72), so it fails only on a bad pair that a batch actually reaches. `Ready` asks the following of every column and every listed pair, reached or not:
  - every column's group has a population, and under fractional dosing a fraction. The code raises a KeyError only when a batch reaches a group without one;
  - the columns are distinct;
  - the priority list holds distinct pairs, each a column of the frame with a positive population. A listed pair with population 0, or a pair listed twice, makes the code's `while vacc > 0` loop spin forever only when a batch with doses left reaches it at the back of the list.
- Redistribution.Redistribute: with fractional dosing, a row's output total is stated as at least its input total, not equal. The overflow is added to the remainder on top of what was assigned, so the output can exceed the input. The docstring's claim that daily totals do not change holds only without fractional dosing.
- Redistribution.PlaceRunsOut and Redistribution.PlaceSucceeds hold without fractional dosing only. With it, the overflow is handed out on top of the batch, so a batch can run out of listed pairs although it fits into what they lack. Whether a whole row or frame fails is stated pass by pass (`RowStep`, `RowsStep`) and, for the unlisted-pair error, by `RedistributeListedStarts`; there is no closed condition on the whole frame.
- Redistribution.Start follows the code. Second doses (and first doses under `distr_first`) read `priorities[-1]` before the batch loop, even for a column with 0 doses. So once every listed group is complete, the next such column fails with `PriorityListEmpty`.
- The code has no check that a curve is well formed. The curves are constants, and `FdfCurve`, `OldPointsWellFormed` and `OldCurve` prove them well formed.

## Findings

| source | as written | input that shows it | evidently intended | confidence | as-written member | corrected member |
|---|---|---|---|---|---|---|
| dose_redistributing_methods.py:95-99 | after every pass of `while vacc > 0` the next pair is read with `priorities[-1]`, also when no dose is left | one column (2D, 85-99), population 5, priority list [(2D, 85-99)], a row of 5 doses: the pass completes the group, the list becomes empty, and `priorities[-1]` raises IndexError although every dose was placed | read the next pair only while doses are left, so a batch that completes the last listed group ends normally | high that the loop fails on this input as written; medium that it is unintended (not executed) | Redistribution.PlaceAsWritten, Redistribution.PlaceAsWrittenExactFit | Redistribution.Place, Redistribution.PlaceFits, Redistribution.PlaceAsWrittenAgrees |
