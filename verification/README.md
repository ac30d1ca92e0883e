# Maintenance scheduler core, in Dafny

This project models the scheduling and analytics core of a small equipment
maintenance tracker. Each piece of equipment has recurring task definitions,
such as "clean every 7 days" or "disinfect monthly". A definition expands
into dated task occurrences. Completing an occurrence marks it done and
appends a record to an audit history. The analytics endpoints read those
tables back as a completion rate, per-equipment scores, a breakdown by type
and equipment, and a streak of consecutive completion days.

How the model represents the system:
- The database is an immutable `Store`: equipment, definitions, occurrences
  and completion records, each a sequence in storage order.
- Every endpoint is a pure function from a store, plus its request, to a
  result (`Result` for endpoints that can answer 404).
- Calendar dates are whole day numbers: the proleptic Gregorian ordinal
  (`date.toordinal()`), so Python's dates are days 1 to 3652059
  (`Calendar.InRange`). Timestamps are whole seconds.
  `datetime.date()` is floor division by 86400 (`Calendar.DayOf`).
- The wall clock is an explicit parameter. `date.today()` becomes `today`
  and `datetime.utcnow()` becomes `now`.
- Random UUIDs are also parameters. `idOf(k)` is the k-th generated
  occurrence id. `recordIdOf(k)` is the k-th batch record id. `recordId` is
  the id of a single completion record.
- A Python dict built with `d[k] = d.get(k, 0) + 1` is an association list
  in insertion order (module `Tally`).
- Rates are exact reals.

Modules, in dependency order:
- `Wrappers`: `Option`, `Result`.
- `Calendar`: day numbers and timestamps.
- `Records`: the stored entities.
- `Seqs`: order-preserving filtering and counting.
- `Tally`: dict-style counting.
- `Schedule`: the generator and definition creation.
- `Tracker`: single and batch completion.
- `Queries`: the task lists.
- `Analytics`: rate, scores and breakdown.
- `Streak`: the completion streak.
- `UuidDisplay`: the id shortener.
- `Lifecycle`: how the operations interact.

Behaviour of the code that the model keeps as it is:
- A "monthly" rule adds a fixed 30 days per month, not a calendar month.
- The streak walk accepts a date equal to the expected day or to the day
  before it, at every step, including the first. So a streak may start
  yesterday, and one-day gaps do not break it.
- The generator does not de-duplicate against existing occurrences. It runs
  once, when the definition is created.
- The batch completion only takes occurrences due on or before today.
- The completion-rate window has no upper end, so occurrences due in the
  future count towards the total.

## Model

| member | source | states |
|---|---|---|
| Calendar.DayOf | backend/main.py:266 | The calendar date of a timestamp is the day whose 86400-second span contains it. This is a floor, so timestamps before the epoch map to earlier days. |
| Schedule.DueDates | backend/main.py:226-249 | The loop's dates are `start + k*step` for consecutive k. Each lies between `start` and `end`, and the next step would pass `end`. The result is empty when `start > end`, and otherwise begins with `start`. |
| Schedule.GenerateTaskOccurrences | backend/main.py:219-255 | The k-th occurrence is due `start + k*step`, not before the start date and not after the horizon, and no further step fits. Each occurrence copies the definition id, equipment id and task type. Each starts uncompleted, with no completion time, notes or photo. Generation stops at the horizon without computing the next date. That differs from the loop at backend/main.py:244-249 when the unused next date is past 31 December 9999, the case `Schedule.LoopAgreesWithDueDates` states. |
| Schedule.DueDatesCount | backend/main.py:226-249 | The generator yields no dates when start is after end, and otherwise `(end - start) / step + 1` dates. |
| Schedule.GeneratorOrder | backend/main.py:226-249 | When start is not after end, the first date is the start date. The dates strictly increase, so none repeats. |
| Schedule.DueDatesSound | backend/main.py:226-249 | Every generated date lies in `[start, end]` a whole number of steps after start. |
| Schedule.DueDatesComplete | backend/main.py:226-249 | Every date in `[start, end]` a whole number of steps after start is generated. |
| Schedule.DueDatesMembership | backend/main.py:226-249 | A date is generated if and only if it lies in `[start, end]` a whole number of steps after start. |
| Schedule.GeneratedDueDatesByFrequency | backend/main.py:243-249 | The step is `frequency_value` days for "days", `7*frequency_value` days for "weekly", and `30*frequency_value` days for "monthly". |
| Schedule.DefaultHorizon | backend/main.py:221-222 | With no end date, no occurrence falls after today + 90. If the start is on or before that day, the first occurrence is on the start date. |
| Schedule.SevenDayExample | backend/main.py:243-246 | A 7-day rule and a 1-week rule have the same step. From any start day d to d + 21 they give exactly d, d + 7, d + 14 and d + 21. |
| Schedule.MonthlyIsThirtyDays | backend/main.py:247-249 | The second occurrence of a monthly rule falls exactly 30 days after the first, whatever the calendar month. |
| Schedule.StepSign | backend/main.py:243-249 | For every frequency type, the step is positive, zero or negative exactly when `frequency_value` is. |
| Schedule.ZeroStepNeverTerminates | backend/main.py:226-249 | With a step of zero and a valid start date on or before the end, the loop never ends, for any number of iterations. |
| Schedule.NegativeStepOverflows | backend/main.py:226-249 | With a negative step and a valid start date on or before the end, the loop walks back past 1 January of year 1 and raises `OverflowError`, given one iteration per day back to that date. |
| Schedule.GenerateLoopAsWritten | backend/main.py:226-249 | The loop as written, for any step. It ends at once with no dates when the start is after the end, and has not ended when it has no iterations left. When it finishes, its dates are `start + k*step`, none after the end, and the step after the last one passes the end. Every date it computed is a valid date, including that unused next date. |
| Schedule.LoopAgreesWithDueDates | backend/main.py:226-249 | With a positive step, a valid start date, an end no later than 31 December 9999 and enough iterations, the loop yields exactly `DueDates`. The one exception is an `OverflowError` when the date one step after the last due date is past 31 December 9999. |
| Schedule.CreateTaskDefinitionAsWritten | backend/main.py:424-447 | Unknown equipment answers "equipment not found" and a start date that is not a date is rejected; both leave the store as it was. A `frequency_value` outside the 64-bit INTEGER column makes the commit fail, and nothing is stored. Past those checks the definition is committed. Any later failure is an `OverflowError` that leaves the definition stored with no occurrences. Equipment and completions never change. |
| Schedule.CreateTaskDefinition | backend/main.py:424-447 | The corrected endpoint fails with an invalid frequency exactly when the value is below one. Otherwise it fails with "equipment not found" exactly when no equipment row has the id. Otherwise it rejects a start date outside the calendar, then a value too wide for its 64-bit column, then a horizon past 31 December 9999. Each of these failures is stated as an if-and-only-if, and the request succeeds exactly when every check passes. Each failure changes nothing. On success, the new definition carries the request's fields and is appended, with its occurrences up to today + 90, all valid dates. Equipment and completions are unchanged. |
| Schedule.ZeroFrequencyNeverAnswers | backend/main.py:424-447 | With `frequency_value = 0`, known equipment and a valid start date on or before today + 90, the endpoint as written never answers. The corrected one rejects the value. |
| Schedule.NegativeFrequencyFailsAfterCommit | backend/main.py:424-447 | With a negative `frequency_value` that fits the 64-bit column, the endpoint as written commits the definition and then fails with `OverflowError`, adding no occurrences. The corrected one rejects the value. |
| Schedule.HugeFrequencyFailsAfterCommit | backend/main.py:424-447 | When `frequency_value` fits the 64-bit column and one step from the start date passes 31 December 9999, the endpoint as written commits the definition and then fails with `OverflowError`. The corrected one succeeds with exactly one occurrence, due on the start date. |
| Schedule.WideFrequencyFailsAtCommit | backend/main.py:432-441 | With known equipment and a valid start date, a `frequency_value` outside the 64-bit INTEGER column makes the commit fail, and the store is unchanged. The corrected endpoint rejects such a value before committing: as an invalid frequency when negative, as too wide otherwise. |
| Schedule.AsWrittenAgreesWhenInRange | backend/main.py:424-447 | With a positive `frequency_value`, and no date computed past 31 December 9999, the endpoint as written gives the same store and response as the corrected one. |
| Tracker.FirstIndexOf | backend/main.py:528 | Returns the first position holding the id, and nothing exactly when no occurrence has it. |
| Tracker.CompleteTask | backend/main.py:525-552 | Fails with "task not found" exactly when no occurrence has the id. On success, the first occurrence with that id becomes completed at `now`. Its notes and photo are replaced by the request's, and its other fields are kept. Every other occurrence is unchanged. Exactly one record is appended, carrying the occurrence id, its equipment and type, `now`, and the request's notes and photo. Equipment and definitions are unchanged. |
| Tracker.RecompleteAppendsAnotherRecord | backend/main.py:525-552 | Completing an already completed occurrence succeeds again. The history then holds both records, and the occurrence shows the second call's time and notes. |
| Tracker.CompleteAll | backend/main.py:554-591 | Each occurrence of the equipment that is due on or before today and pending becomes completed at `now`, with notes and photo kept. Every other occurrence is unchanged. The returned tasks are the eligible ones in query order, after the update, and the count equals their number. One record with no notes or photo is appended per task, in the same order. Equipment and definitions are unchanged. |
| Tracker.CompleteAllCountsEligible | backend/main.py:557-562 | The completed count equals the number of eligible occurrences, and every returned task was eligible before the update. |
| Tracker.CompleteAllNothingDue | backend/main.py:557-591 | When nothing is eligible, the batch completes nothing and returns the store unchanged. |
| Tracker.CompleteAllIdempotent | backend/main.py:557-591 | After a batch completion nothing of that equipment is due and pending. A second batch on the same day completes nothing and changes nothing. |
| Queries.InsertByDue | backend/main.py:486 | Inserting into a list sorted by due date keeps it sorted and adds exactly the one element. |
| Queries.InsertAfterAll | backend/main.py:486 | An element due no earlier than all others goes last, so insertion is stable. |
| Queries.SortByDue | backend/main.py:486 | The result is sorted by due date and is a permutation of the input. |
| Queries.SortSortedIsIdentity | backend/main.py:486 | Sorting an already sorted list leaves it as it is. |
| Queries.GetTasks | backend/main.py:463-487 | An occurrence is listed exactly when it is stored and passes every supplied filter. The date range is inclusive at both ends, and an empty equipment id does not filter. The result is sorted by due date and is a permutation of the matching occurrences. |
| Queries.TasksOnDate | backend/main.py:489-493 | Lists exactly the occurrences due on the date, completed or not. |
| Queries.TasksToday | backend/main.py:495-503 | Lists exactly the pending occurrences due today. |
| Queries.TasksTomorrow | backend/main.py:505-513 | Lists exactly the pending occurrences due the day after today. |
| Queries.TasksOverdue | backend/main.py:515-523 | Lists exactly the pending occurrences due before today. |
| Queries.PendingPartition | backend/main.py:495-523 | Every pending occurrence is in exactly one of: overdue, today, tomorrow, or due later than tomorrow. |
| Queries.OneDayRangeIsTasksOnDate | backend/main.py:463-493 | A range query whose start and end are the same day returns the same occurrences, each as often, as the by-date listing. In the model, where rows come in storage order and the sort is stable, the two lists are also in the same order. |
| Analytics.Percent | backend/main.py:605 | The rate is `100*completed/total`, lies between 0 and 100, and is 0 when the total is 0. |
| Analytics.CompletionRate | backend/main.py:594-606 | The total counts occurrences due on or after today - 7 for "weekly" and today - 30 for any other period string. The completed count is those among them that are completed. It never exceeds the total, and the rate is their percentage. |
| Analytics.WeeklyWithinMonthly | backend/main.py:597-602 | The weekly window never counts more occurrences, or more completed ones, than the monthly window. |
| Analytics.FutureOccurrenceCounts | backend/main.py:602 | An occurrence due today or later always adds one to the total, however far ahead it is due. |
| Analytics.ScoreFor | backend/main.py:619-634 | One equipment's score counts its occurrences due in the last 30 days or later, and the completed ones among them. The score is their percentage, and the entry carries the equipment's id and name. |
| Analytics.EquipmentScores | backend/main.py:613-636 | There is one score per equipment row, in table order, each computed by the 30-day rule. |
| Analytics.ScoreIsMonthlyRateOfEquipment | backend/main.py:594-634 | An equipment's score, totals and completed count equal the monthly completion rate computed over that equipment's occurrences alone. |
| Analytics.LastIndexOf | backend/main.py:647 | Returns the last equipment row with the id, and nothing exactly when there is none. |
| Analytics.NameOf | backend/main.py:647 | Gives the name of the last equipment row with the id, as a dict comprehension keeps. Gives nothing exactly when no row has the id. |
| Analytics.TaskBreakdown | backend/main.py:638-658 | Keys are distinct in both maps. Each type's count is the number of occurrences of that type. Each name's count is the number of occurrences whose equipment maps to that name, with "Unknown" for missing equipment. Both maps sum to the number of occurrences, and their keys are exactly the values that occur. |
| Analytics.OrphansCountAsUnknown | backend/main.py:654-656 | Occurrences whose equipment id has no row are all counted under "Unknown". |
| Analytics.SharedNameMerges | backend/main.py:647-656 | Two equipment ids with the same name share one bucket, which counts the occurrences of both. |
| Tally.Increment | backend/main.py:652 | `d[k] = d.get(k, 0) + 1` raises exactly k's count by one and the total by one. It adds k to the keys and keeps keys distinct and counts positive. |
| Tally.TallyBy | backend/main.py:646-656 | Counting by key gives each key the number of elements with that key. Keys are distinct, counts sum to the number of elements, and the keys are exactly those that occur. |
| Streak.DistinctDescending | backend/main.py:265-268 | The result is strictly decreasing, and holds exactly the dates of the input. |
| Streak.DecreasingCardinality | backend/main.py:265-268 | A strictly decreasing sequence has as many elements as distinct values. |
| Streak.Walk | backend/main.py:273-281 | The walk never counts more dates than it is given. |
| Streak.CompletionStreak | backend/main.py:257-283 | The streak is 0 with no completions. It never exceeds the number of distinct completion dates. |
| Streak.StreakIsAcceptedPrefix | backend/main.py:257-283 | For a non-empty history, the distinct completion dates newest first hold exactly the completion days. The streak is the length of their longest accepted prefix: each of its dates is accepted, and the next date, if any, is not. |
| Streak.WalkIsLongestAcceptedPrefix | backend/main.py:273-281 | Every step the walk counts is accepted. A date is accepted when it is the expected day or the day before; the expected day is today first, then the day before the last accepted date. The first step not counted, if any, is not accepted. |
| Streak.StreakCharacterization | backend/main.py:273-281 | Any length whose steps are all accepted and which is followed by an unaccepted step (or the end) is the walk's length. |
| Streak.StreakSpan | backend/main.py:273-281 | A positive streak starts today or yesterday, and its n-th date is at most 2n days back. |
| Streak.GapExamples | backend/main.py:277-279 | Completions today, two days ago and four days ago make a streak of 3. A two-day gap after yesterday ends the streak at 1. |
| Streak.CompletionAfterTodayGivesZero | backend/main.py:265-281 | A completion dated after today makes the streak 0. |
| Streak.StaleCompletionsGiveZero | backend/main.py:273-281 | With no completion today or yesterday, the streak is 0. |
| UuidDisplay.SlicePrefix | backend/uuid_utils.py:35 | Python's `s[:n]` is a prefix of `s`. It has length n for `0 <= n <= len(s)` and is `s` itself for larger n. For negative n it drops `-n` characters from the end. |
| UuidDisplay.FormatUuidDisplay | backend/uuid_utils.py:28-35 | A missing or empty id gives "". An id no longer than the limit is returned unchanged. A longer one gives its first `max_length` characters followed by "...". For a non-negative limit the result is at most `max_length + 3` long. The result is always the id itself, or a prefix of it followed by "...". |
| UuidDisplay.DefaultShortensUuid | backend/uuid_utils.py:28-35 | With the default limit of 8, a 36-character UUID displays as 11 characters: its first 8 followed by "...". |
| UuidDisplay.DisplayKeepsPrefix | backend/uuid_utils.py:35 | Two long ids whose first `max_length` characters differ display differently. |
| Lifecycle.CompletedTaskLeavesPendingLists | backend/main.py:495-552 | After a successful completion, the task is in none of the overdue, today or tomorrow lists. |
| Lifecycle.CompleteAllClearsDueLists | backend/main.py:495-591 | After a batch completion for some equipment, none of its occurrences is overdue or due today. |
| Lifecycle.CompletingRaisesCompletedCount | backend/main.py:525-606 | Completing a pending occurrence inside the rate window keeps the total. It raises the completed count by exactly one. |
| Lifecycle.PastStartIsOverdueAtOnce | backend/main.py:424-447 | A definition created with a past start date immediately has an overdue occurrence, due on the start date. |
| Seqs.Filter | backend/main.py:602-603 | Keeps exactly the elements that satisfy the predicate. Its length is the number of positions that satisfy it. |
| Seqs.Selected | backend/main.py:602-603 | The positions whose element satisfies the predicate, every one of them, in strictly increasing order. |
| Seqs.FilterInOrder | backend/main.py:602-603 | `Filter` keeps the elements in their original order: its k-th element is the one at the k-th selected position. |
| Seqs.CountOfFilter | backend/main.py:602-603 | Counting within a filtered list counts the original positions that satisfy both predicates. |

## Left out

- The HTTP layer is not modelled: FastAPI routes, status codes, CORS and the HTML pages. A 404 is a `Failure` value.
- Sessions, commits, refreshes and ORM cascades are not modelled. The store is a value, and every operation returns the whole new store.
- Parsing ISO date strings (`date.fromisoformat`) is not modelled. Dates arrive already as day numbers; a start day outside `Calendar.InRange` stands for a string the parser rejects.
- Row order from the database is unspecified: `.all()` has no `ORDER BY`, and `order_by(due_date)` leaves ties unordered. The model reads rows in storage order and sorts stably. So the order of `get_tasks` ties, of the tasks and records `Tracker.CompleteAll` returns, and of the breakdown keys is the model's choice, not a promise of the code.
- The calendar range is modelled only where the generator runs: definition creation checks the start date and the horizon, and the loop raises `OverflowError` past either end. Date arithmetic in the queries, the rate, the scores and the streak (`today ± 1`, `today - 7`, `today - 30`, `comp_date - 1`) is integer arithmetic. So its `OverflowError` is not modelled: within 30 days of 1 January of year 1 for the rate and the scores, and within a day of either end for the day lists and the streak. Timestamps are not bounded to the `datetime` range.
- `Schedule.CreateTaskDefinitionAsWritten`: the store is the default SQLite database, whose `Integer` columns are signed 64-bit (`backend/database.py:80`). The column width is modelled only for `frequency_value`, the one integer the endpoint writes. Another database behind `DATABASE_URL` may have another width.
- `Schedule.CreateTaskDefinitionAsWritten`: the generator's `OverflowError` surfaces as a failed request (a server error) after the definition is committed; the model returns the committed store with a `DateOverflow` failure and does not model the HTTP 500.
- UUID generation and validation are not modelled. Generated ids are parameters (`idOf`, `recordIdOf`, `recordId`).
- Wall-clock reads become the parameters `today` and `now`. The source mixes a local `date.today()` with `datetime.utcnow()` timestamps. The model takes both as given and does not relate them; `Streak.CompletionAfterTodayGivesZero` shows one effect of a mismatch.
- `round(rate, 2)` is not modelled, because it is floating-point formatting. Rates are exact reals.
- Deleting a definition with its occurrences (cascade) is not modelled, because it is a storage cascade. Equipment CRUD, `delete_equipment`, the profile endpoints, the exports, authentication and the maintenance scripts are also not modelled. None is part of the scheduling core.
- Only the equipment fields the core reads (id and name) are kept. Definition creation timestamps are not kept either.
- `Tracker.CompleteAll`: the loop over the queried rows is given by its effect, not iteration by iteration. The k-th queried row is marked and yields the k-th record. Nothing is observable between iterations, because there is one commit at the end.
- `Tally.TallyBy`: the dict's iteration order is kept as first-seen order. No property about the order is stated.
- `Streak.CompletionStreak`: the `if c.completed_at` guard is not modelled, because the history column is non-null (`backend/database.py:120`). Every record has a timestamp.
- `UuidDisplay.FormatUuidDisplay`: the `len(result) <= max_length + 3` bound is stated only for non-negative limits. With a negative limit, `s[:max_length]` counts from the end, and the result can be longer.

## Findings

| source | as written | input that shows it | evidently intended | confidence | as-written member | corrected member |
|---|---|---|---|---|---|---|
| backend/main.py:120 | `frequency_value` is an unchecked `int`. The generator loop at backend/main.py:226-249 adds `frequency_value` days (or weeks, or 30-day months) to the current date until it passes the end date. | `frequency_value = 0` with a start date on or before today + 90. The date never moves, so the loop never ends and the request never answers. The definition is already committed at backend/main.py:439-441. | Reject a frequency value below one when the definition is created. | not executed | Schedule.ZeroFrequencyNeverAnswers | Schedule.CreateTaskDefinition |
| backend/main.py:120 | The same unchecked value, when it is negative and fits the 64-bit column. | `frequency_value = -1` with `frequency_type = "monthly"` and a start date on or before today + 90. The date moves back 30 days per iteration until it passes 1 January of year 1, and `OverflowError` ends the request. The definition stays committed with no occurrences. | Reject a frequency value below one when the definition is created. | not executed | Schedule.NegativeFrequencyFailsAfterCommit | Schedule.CreateTaskDefinition |
| backend/main.py:243-249 | The loop computes the next date after every occurrence, even when that date will not be used. | `frequency_value = 3000000` with `frequency_type = "days"` and a start date on or before today + 90. The first occurrence is due on the start date, but computing the next date passes 31 December 9999, so `OverflowError` ends the request after the commit. The definition stays with no occurrences. | Stop at the horizon: create the definition with its one occurrence, due on the start date. | not executed | Schedule.HugeFrequencyFailsAfterCommit | Schedule.CreateTaskDefinition |
