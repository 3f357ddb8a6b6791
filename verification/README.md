# Duty planner — a Dafny model

`duty_planner.py` plans one month of duties. It reads a staff table with a name, an
"On Leave/Course" field and a current score for each person. It also reads the public
holidays of the month and whether the last day of the month is a holiday eve. From these it:

- weights every day (1.0, 1.5 or 2.0 points);
- decides who may do duty on which day;
- hands the hard rules and a balancing objective to a constraint solver;
- adds each person's duty points to their score;
- gives every day a standby person, chosen greedily;
- computes the scores that seed next month's run.

This project models all of that except the solver itself. Scores are integers scaled by 1000,
as the program's own arithmetic has them. The solver is a call into code that is not part of
this model. In its place there are three things:
- the hard rules, as predicates over a candidate schedule (a sequence of optional staff indices);
- a checker method proved to decide them;
- the assignment constraints the program posts (lines 117-146), with a proof that a schedule
  satisfies every one of them exactly when it obeys the rules. The program also posts the score
  equations and domains (lines 176-177) and the deviation constraints and domains
  (lines 196-198). `Objective.Feasible` states those on top of the rules.

Modules, one per file:

- `Common`: `Option`, `Abs`, `Sum`.
- `Text`: Python's `strip`, `split()`, `split(sep)`, `lower`, `replace` and `isdigit`, on `seq<char>`.
- `Inputs`: the staff row, frozen names, and the holiday and leave parsers, with their round trips.
- `Calendar`: the month, the day-weight rule and the duty-day list.
- `Eligibility`: the table of (day, person) assignment variables.
- `Roster`: schedules, the hard rules, the checker, and the pigeonhole consequence of the week rule.
- `Constraints`: the constraints as posted (`ExactlyOne`, `AtMostOne`) and the methods that post them.
- `Solutions`: the posted assignment constraints hold exactly when the schedule obeys the hard rules.
- `Scores`: current and final scores, and the score reconciliation loop.
- `Objective`: the average monthly points, the target, the deviation variables and next month's scores.
- `Standby`: the greedy standby allocation, as methods, and the functions that specify it.
- `StandbyRules`: what the standby allocation guarantees.

The week used by the one-duty-per-week rule is the ISO 8601 week number (section 4.1.4 of
ISO 8601:2004, week dates). Within one month, two days share an ISO week exactly when they
share a Monday-to-Sunday week. `Roster.WeekOf` numbers those weeks `(firstWeekday + day - 1) / 7`.

## Model

| member | source | states |
|---|---|---|
| Text.LowerIdempotent | duty_planner.py:140 | lower-casing an already lower-cased text changes nothing |
| Inputs.LoweredFrozenKeys | duty_planner.py:140 | lower-casing the frozen names again leaves the set unchanged, so the gap loop skips a row exactly when it is frozen |
| Text.StripPadded | duty_planner.py:29-31 | stripping removes exactly the surrounding whitespace of a word whose ends are not whitespace |
| Text.JoinSplit | duty_planner.py:15 | joining the pieces of `split(sep)` with `sep` gives back the text |
| Text.SplitJoin | duty_planner.py:15 | splitting a join of separator-free pieces gives back the pieces |
| Text.WordsOfJoin | duty_planner.py:102 | `split()` of words joined by single spaces gives back the words |
| Inputs.IsFrozenText | duty_planner.py:29 | the leave field marks a frozen row when, stripped and lower-cased, it reads `frozen` |
| Inputs.FrozenKeys | duty_planner.py:27-32 | the set of stripped, lower-cased names of the rows marked frozen |
| Inputs.IsFrozen | duty_planner.py:91 | a row is frozen when its stripped, lower-cased name is one of the frozen names |
| Inputs.FrozenSentinel | duty_planner.py:27-32 | a leave field reading `frozen` after padding with whitespace still marks the person frozen |
| Inputs.FrozenKeysBound | duty_planner.py:188-190 | there are never more distinct frozen names than rows, so the avg divisor is never negative |
| Inputs.HolidayDays | duty_planner.py:11-15 | the holiday parser: the stripped answer split on `/`, keeping the pieces that are digits once stripped |
| Inputs.HolidayRoundTrip | duty_planner.py:15 | parsing the `/`-joined decimal forms of any days gives exactly that set of days |
| Inputs.HolidayExamples | duty_planner.py:15 | `"5 / x /19"` gives {5, 19}: padded tokens are stripped and non-digit tokens skipped; empty text gives {} |
| Inputs.BlockedDays | duty_planner.py:94-103 | the leave parser: stripped, lower-cased, commas made spaces, split on whitespace, all-digit tokens kept |
| Inputs.LeaveRoundTrip | duty_planner.py:94-103 | parsing the `,`-joined decimal forms of any days gives exactly that set of days |
| Inputs.LeaveExamples | duty_planner.py:94-103 | `"5, 12 19"` gives {5, 12, 19}; the token `"5/12"` is ignored, not rejected; empty leave blocks nothing |
| Calendar.DayWeight | duty_planner.py:51-68 | 2.0 exactly on weekends and holidays; 1.5 exactly on a non-holiday Friday, holiday eve or flagged last weekday; 1.0 otherwise; never below the weekday weight |
| Calendar.BuildDutyDays | duty_planner.py:50-77 | one entry per day, in date order, with its weekday and scaled weight; the weights equal `MonthWeights` |
| Calendar.MonthTotalBounds | duty_planner.py:161 | the month's points lie between 1000 and 2000 per day |
| Calendar.FourPlainWeeks | duty_planner.py:51-58 | a 28-day month that starts on a Monday and has no holidays totals 38 points (Friday 1.5, weekend days 2.0) |
| Calendar.LastDayRaisedByFirstOfMonth | duty_planner.py:63-64 | the eve test reads the next day of month, so a holiday on the 1st raises a weekday last day to 1.5 |
| Calendar.LastDayEve | duty_planner.py:66-68 | the last-day eve flag raises a weekday last day to 1.5 and leaves a weekend last day at 2.0 |
| Eligibility.AssignmentVars | duty_planner.py:87-113 | a (day, person) variable exists exactly when the person is not frozen and the day is not in their blocked days |
| Eligibility.BuildAssignmentVars | duty_planner.py:87-113 | the nested loop builds exactly the variable set `AssignmentVars` |
| Eligibility.FrozenHaveNoVars | duty_planner.py:90-92 | a frozen person has no variable on any day |
| Eligibility.LeaveBlocksDay | duty_planner.py:107-109 | a blocked day of month has no variable for that person |
| Roster.ValidSchedule | duty_planner.py:117-146 | the hard rules: one entry per day, existing variables only, exactly one assignee on staffable days and none otherwise, one duty per week, duties at least 4 days apart |
| Roster.WeekOf | duty_planner.py:130 | the week number a day is grouped under; two days of the month share it exactly when they share a Monday-to-Sunday week |
| Roster.SameWeekUntilSunday | duty_planner.py:130 | a later day shares an earlier day's week number exactly when it falls no later than that week's Sunday |
| Roster.CheckSchedule | duty_planner.py:117-146 | decides exactly `ValidSchedule`: uses existing variables, exactly one assignee on staffable days and none otherwise, one duty per week, duties at least 4 days apart |
| Roster.FindEligible | duty_planner.py:119-120 | decides whether anybody is eligible on a day |
| Roster.CheckPairsFrom | duty_planner.py:127-146 | decides whether a day breaks the week or gap rule against any later day |
| Roster.FullWeekNeedsSeven | duty_planner.py:127-136 | covering a full Monday-to-Sunday week in which every day is staffable needs at least seven people |
| Roster.FourStaffNoSchedule | duty_planner.py:117-136 | four people who are always eligible cannot staff a 28-day month that starts on a Monday |
| Roster.DistinctBelow | duty_planner.py:127-136 | pigeonhole: pairwise different indices below n number at most n |
| Constraints.CountAtMostOne | duty_planner.py:136 | the number of true variables in a list with no two true ones is at most 1 |
| Constraints.CountTwo | duty_planner.py:146 | two true variables make the count at least 2 |
| Constraints.CollectDayCells | duty_planner.py:119 | the loop collects exactly the day's variables `DayCells` |
| Constraints.CollectWeekCells | duty_planner.py:134 | the loop collects exactly the person's variables in that week, `WeekCells` |
| Constraints.DayCellsSpec | duty_planner.py:119 | the variables collected for a day are exactly that day's, in staff order |
| Constraints.WeekCellsSpec | duty_planner.py:129-134 | the variables collected for a person and week are exactly those of that week's days, in date order |
| Constraints.DayCellsNonEmpty | duty_planner.py:119-124 | a day gets a constraint exactly when somebody is eligible |
| Constraints.PostDayConstraints | duty_planner.py:117-124 | posts `ExactlyOne` for exactly the staffable days; the warned-about days are exactly the unstaffable ones, in date order |
| Constraints.PostWeekConstraints | duty_planner.py:126-136 | posts `AtMostOne` for exactly the (person, week) pairs with a variable |
| Constraints.PostGapConstraints | duty_planner.py:138-146 | posts `AtMostOne` for exactly the pairs of a non-frozen person's days closer than 4 days |
| Constraints.PostConstraints | duty_planner.py:117-146 | the posted list holds exactly the day, week and gap constraints |
| Solutions.AssignmentVarsWellFormed | duty_planner.py:87-113 | every variable has a day of the month and a staff index |
| Solutions.ScheduleSolvesIffValid | duty_planner.py:117-146 | a schedule's true variables satisfy every posted constraint exactly when the schedule obeys the hard rules |
| Solutions.HoldsDayRule | duty_planner.py:117-124 | satisfied day constraints staff exactly the staffable days |
| Solutions.HoldsWeekRule | duty_planner.py:126-136 | satisfied week constraints leave nobody two duties in one week |
| Solutions.HoldsGapRule | duty_planner.py:138-146 | satisfied gap constraints keep every person's duties at least 4 days apart |
| Solutions.SolutionIsSchedule | duty_planner.py:209-221 | any assignment satisfying the posted constraints reads back as a schedule with exactly those true variables |
| Solutions.OneTruePerDay | duty_planner.py:117-121 | a satisfying assignment has at most one true variable per day |
| Scores.ReconcileScores | duty_planner.py:209-221 | each final score is the current score plus the weights of that person's assigned days |
| Scores.NoDutyNoPoints | duty_planner.py:212-221 | a person with no duty gains nothing |
| Scores.AssignedPointsBounds | duty_planner.py:161-169 | a person's month points lie between 0 and the month's total |
| Scores.ScoreWithinDomain | duty_planner.py:173-176 | every final score lies in the domain the score variable is given |
| Scores.ScoreConservation | duty_planner.py:212-221 | the final scores sum to the current scores plus the points of the staffed days |
| Objective.AvgMonthPoints | duty_planner.py:188-190 | the month's points divided, rounded down, by the staff count less the distinct frozen names; none when that count is 0 |
| Objective.RoundHalfEven | duty_planner.py:191 | the nearest integer to the quotient, ties to the even one |
| Objective.Feasible | duty_planner.py:176-198 | a schedule the solver may return: it obeys the hard rules, and every person's final score (current plus assigned points, line 176) has a deviation from the target that fits the deviation domain; the score domain itself always holds, by `Scores.ScoreWithinDomain` |
| Objective.Target | duty_planner.py:188-191 | the target is the mean current score plus the average, rounded to nearest |
| Objective.LevelTarget | duty_planner.py:188-191 | when everybody starts level, the target is exactly one average month above them |
| Objective.MinDeviation | duty_planner.py:193-199 | the least deviation value the solver admits, or none when none fits the domain |
| Objective.ObjectiveLowerBound | duty_planner.py:193-201 | admissible deviations always sum to at least the total distance from the target |
| Objective.ObjectiveAttained | duty_planner.py:193-201 | when every distance fits the domain, the distances themselves are admissible and reach that bound |
| Objective.FrozenOutlierInfeasible | duty_planner.py:176-198 | a frozen score further from the target than the month's points makes every schedule infeasible |
| Objective.FrozenNeverOnDuty | duty_planner.py:87-92 | a frozen person is never on duty |
| Objective.NextScore | duty_planner.py:282-292 | the corrected next score: a frozen row keeps its current score, any other row carries its final score less the average |
| Objective.NextScoreAsWritten | duty_planner.py:282-292 | the next score as written: the override matches the lower-cased but unstripped name |
| Objective.AsWrittenAgrees | duty_planner.py:282-292 | for a name without surrounding whitespace the override as written and the corrected one agree |
| Objective.NextScoresTotal | duty_planner.py:282-292 | the corrected next scores sum to the final scores less one average per person who is not frozen; by `AsWrittenAgrees` this holds of the program as written when no name has surrounding whitespace |
| Objective.CycleDrift | duty_planner.py:188-292 | when every day is staffed and the active count equals the staff count less the distinct frozen names, the corrected next scores sum to current scores plus the month's points less the average handed out, and that remainder lies between 0 and the active count less 1; as written, this holds when no name has surrounding whitespace |
| Objective.AvgRemainder | duty_planner.py:190 | when the active count equals the staff count less the distinct frozen names, rounding the average down withholds between 0 and the active count less 1 points |
| Objective.FinalTotal | duty_planner.py:212-221 | with every day staffed, final scores add the whole month to the current ones |
| Objective.FrozenFinalIsCurrent | duty_planner.py:212-221 | a frozen person's final score is their current score |
| Objective.FrozenKeepScore | duty_planner.py:285-292 | a frozen person's final score is their current score (true as written); with the corrected override they also keep it into next month whatever the padding of their name, which fails as written for padded names (see Findings) |
| Objective.ActiveCarryOver | duty_planner.py:282-283 | a person who is not frozen carries their final score less the average |
| Objective.PaddedFrozenNameMismatch | duty_planner.py:285-292 | as written, a frozen person named `" Ann "` loses the average; the corrected override keeps their score |
| Standby.BuildActualDuties | duty_planner.py:223-228 | the table maps every name key to exactly that person's duty dates, in date order |
| Standby.CollectCandidates | duty_planner.py:232-239 | the candidates are the stripped names of the staff who are not frozen, in staff order |
| Standby.ZeroCounts | duty_planner.py:241 | every candidate starts with a count of 0 |
| Standby.TooCloseSpec | duty_planner.py:252-253 | the scan finds a date within 4 days exactly when one exists |
| Standby.Best | duty_planner.py:245-262 | the pick: the first candidate with its flag set in (count, position) order, the order a stable sort by count gives |
| Standby.BestSpec | duty_planner.py:245-262 | the pick qualifies and precedes every other qualifying candidate in (count, position) order; no pick exactly when nobody qualifies |
| Standby.ChooseStandby | duty_planner.py:245-264 | the candidate loop makes the pick `Best` specifies |
| Standby.AllocateDay | duty_planner.py:244-270 | one day appends its entry and raises only the pick's count |
| Standby.Step | duty_planner.py:244-270 | one day of the allocation: one more entry, and the counts keep their keys |
| Standby.Run | duty_planner.py:244-270 | the list and counts after the first k days: k entries, and a count for exactly the candidates |
| Standby.AllocateDays | duty_planner.py:244-270 | the day loop produces the list and counts of `Run` |
| Standby.AllocateStandby | duty_planner.py:223-270 | the whole allocation produces the list and counts of `Run` |
| StandbyRules.RunStep | duty_planner.py:256-270 | each day appends one entry for that day; only the chosen count rises, by exactly 1, and none when nobody qualifies |
| StandbyRules.RunPrefix | duty_planner.py:244-270 | an earlier day's entry is never revised |
| StandbyRules.EntryPerDay | duty_planner.py:244-270 | the list holds one entry per day, in date order |
| StandbyRules.PickSpec | duty_planner.py:245-262 | the pick qualifies and comes first among qualifying candidates in stable count order |
| StandbyRules.StandbyChoice | duty_planner.py:244-270 | each day's standby in the final list is the first qualifying candidate in stable count order; "No eligible staff" exactly when nobody qualifies |
| StandbyRules.DutyDatesSpec | duty_planner.py:223-228 | a date is among a key's duty dates exactly when that key's person is on duty then |
| StandbyRules.StandbyKeepsGap | duty_planner.py:252-255 | a standby is at least 4 days from each of their own duties, so is never that day's assignee |
| StandbyRules.CountsTally | duty_planner.py:241-262 | each candidate's count is the number of days they stand by |
| StandbyRules.CandidatesNotFrozen | duty_planner.py:234-238 | every candidate is the stripped name of a row that is not frozen |
| StandbyRules.StandbyNeverFrozen | duty_planner.py:234-262 | no standby's name key is a frozen name |

## Left out

- Console input (`input()`, lines 11 and 43) is not modelled. The holiday text and the last-day flag are parameters.
- Excel reading and writing, DataFrame plumbing and printing are I/O and are left out. So are the date strings and the display rename to `NAME (Frozen)` (line 295).
- `datetime.now()` and `calendar.monthrange` are not modelled. The month is given by the weekday of its first day and its length.
- The OR-Tools search is a foreign call and is not modelled: its model building, the 10-second limit, and its choice among optimal or merely feasible solutions. The model states the constraints, the checker and the objective's bounds. It does not state that the returned schedule minimises the objective.
- Floating point is not modelled. Scores enter already scaled to integers, so `float()` parsing, `round(p * SCALE)` and the conversions back with `/ 1000` are left out. The weights 1.0, 1.5 and 2.0 scale exactly.
- Objective.Target: requires a non-empty staff table, and so do `Scores.MinOf` and `Scores.MaxOf`. On an empty table the source raises a `ValueError` from `min([])` at line 183 before any target is computed, so this case has no target to model.
- Objective.Target: rounds the exact rational mean. The source rounds a float mean, which can differ for sums beyond 2^53.
- Text.Lower: lower-cases ASCII letters only. Python's `lower()` also maps other Unicode letters.
- Text.IsDigit: accepts ASCII digits only. Python's `isdigit()` also accepts other Unicode digits, and some of those make `int()` raise, which the source's `except` branch would catch.
- A day can have no eligible person. The source then leaves it unassigned, and line 301 then assigns a per-day standby column to a schedule with fewer rows, which fails. That line is output glue and is not modelled.
- Standby.Best: the source sorts the candidates stably by count and takes the first that qualifies. The model takes the qualifying candidate that comes first in (count, position) order, the `Precedes` order. By definition that is the order a stable sort by count gives, so the sort itself is not modelled. `BestSpec` proves the pick comes first in that order.
- The week grouping loop (lines 127-136) visits persons, then a dictionary of weeks. `PostWeekConstraints` visits persons, then week numbers in ascending order. Both post the same constraint set; the order the constraints are posted in is not modelled.
- Objective.CycleDrift and Objective.AvgRemainder: assume the active count equals the staff count less the distinct frozen names. The source divides by that difference (line 190) even when a row that is not frozen shares a frozen row's name. Rows "Ann" (frozen), "ann" and "Bob" give a divisor of 2 with one active person. Nothing is proved about the drift in that case.
- Scores.CurrentScores: takes each current score as an already scaled integer. The `float()` parse with its fallback to 0 (lines 154-157) is left out with floating point.
- Standby.DutyDates: ignores a schedule entry whose index is outside the staff table. A schedule that uses only existing variables has none.
- The `defaultdict` lookup at line 253 inserts an empty list for a candidate without duties. This is not observable and is not modelled.

## Findings

| source | as written | input that shows it | evidently intended | confidence | as-written member | corrected member |
|---|---|---|---|---|---|---|
| duty_planner.py:285-292 | the next-score override matches frozen names against `Name.str.lower()`, which is not stripped, while frozen names are stripped (line 31) | a frozen row named `" Ann "` with current score 5 and month average 38: its next score becomes 5 - 38 | frozen staff keep their current score whatever the padding of their name, as they do for eligibility (line 91) | high (not executed) | Objective.NextScoreAsWritten, Objective.PaddedFrozenNameMismatch | Objective.NextScore |
