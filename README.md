# Habit tracker: the period and streak engine

This project models the part of the habit tracker that decides when a habit may be
completed again and how long its streak is. A habit has a frequency: daily, weekly
(Monday-start weeks) or monthly (calendar months). There are three versions of the engine:

- `backend/habitHelpers.js` (modules `HabitHelpers`, `Periods`, `Walks`):
  - `needsReset(habit_id)` answers whether the habit can be completed. That is the case when
    no log with `status = true` lies in the current period. The current period is computed
    from today's UTC date.
  - `calculateStreak(habit_id)` does three things:
    - it groups completion logs by period-start key and drops keys after the current period;
    - it applies the grace rule: the newest key must be this period or the previous one;
    - it counts the consecutive periods backwards with a `while` loop.
- `backend/Routes/habits.js` (module `HabitRoutes`) is the older, flag-based variant. It has:
  - a pure `needsReset(completedAt, frequency)` that compares the completion time with now;
  - the validation of `POST /`;
  - the `HabitRecord` row class, whose `is_completed`, `completed_at` and `streak` fields
    change in two places: the reset sweep of `GET /` and `POST /:habit_id/complete`.
- `habitHelpers.js` at the repository root (module `EarlyHelpers`) is the early
  `needsReset`. It mutates a `startDate` step by step, has no upper bound on the window and
  looks only at the newest log.

Supporting modules:

- `Calendar` follows the Date arithmetic of section 21.4.1 of ECMA-262:
  - days are counted from 1970-01-01 (a Thursday);
  - `Day(t) = floor(t / msPerDay)`;
  - the `DayFromYear` closed form;
  - `MakeDay` with month overflow (not Date.UTC's mapping of years 0-99, see Left out);
  - month starts, and the UTC year/month/date of a day.
- `Text` gives `toLowerCase`, `trim` and UTF-16 `.length`.
- `Tables` holds the rows of the two tables.
- `Options` holds `Option` and `Result`.

The database becomes values:

- `habit_logs` is a `seq<HabitLog>` of (habit id, day number, status).
- The `frequency` column of `habits` is a map from habit id to `Option<string>`. `None` is
  SQL NULL.
- The clock is a parameter: `today` is a day number, and `now` is milliseconds since the epoch.

`Walks` holds the backward walk for any strictly decreasing step. `Periods.Step` instantiates
it with one day, seven days or one calendar month. `HabitHelpers.CalculateStreak` is the
loop, proved equal to the specification function `HabitHelpers.Streak`. The properties of
the streak are then lemmas about `Streak`.

## Model

| member | source | states |
|---|---|---|
| HabitHelpers.NeedsReset | backend/habitHelpers.js:10-60 | NotFound exactly when the habit row is missing. Throws exactly when the frequency is NULL or not daily/weekly/monthly after lower-casing. Otherwise the habit can be completed exactly when no completion log of the habit lies in the current window. |
| HabitHelpers.CompletionsIn | backend/habitHelpers.js:45-54 | The rows the query returns: exactly the habit's `status = true` logs dated in `[start, end)`. |
| HabitHelpers.GateClosedIffCompleted | backend/habitHelpers.js:44-59 | For a known frequency, needsReset is `false` exactly when some completion is grouped under today's period key. |
| HabitHelpers.GateStaysClosed | backend/habitHelpers.js:27-39 | A closed gate stays closed on every later day of the same period. |
| HabitHelpers.GateClosedUnderAppend | backend/habitHelpers.js:45-57 | Inserting more logs never reopens a closed gate. |
| HabitHelpers.CompletingClosesGate | backend/habitHelpers.js:45-59 | After a completion dated today is logged, needsReset answers `false` for today. |
| HabitHelpers.CompletionDays | backend/habitHelpers.js:83-88 | The dates are exactly those of the habit's `status = true` logs. |
| HabitHelpers.MapKeys | backend/habitHelpers.js:150-154 | Position by position, the period key of each date. |
| HabitHelpers.NotAfter | backend/habitHelpers.js:155 | Keeps exactly the keys not after the current period's key. |
| HabitHelpers.Dedup | backend/habitHelpers.js:158 | `[...new Set(s)]`: the same elements, with no duplicates. |
| HabitHelpers.StreakKeys | backend/habitHelpers.js:190-201 | A key is present exactly when it is not after today's key and some completion is grouped under it. The weekly and monthly keys have no duplicates. |
| HabitHelpers.Streak | backend/habitHelpers.js:67-238 | calculateStreak's answer. It is non-zero only for an existing habit with a recognised frequency. Its value is characterised by StreakGrace, StreakIsRun and StreakBound. |
| HabitHelpers.StreakOfKeys | backend/habitHelpers.js:203-219 | The count from the period keys is non-zero exactly when there are keys and the newest is the current or the previous period's key. |
| HabitHelpers.CalculateStreak | backend/habitHelpers.js:67-238 | The `while` loop returns exactly `Streak`. Its invariant: the count so far plus the run still ahead equals the run from the start key. |
| HabitHelpers.StreakZeroCases | backend/habitHelpers.js:76-92 | The streak is 0 for a missing habit, for a NULL or unknown frequency (the error is caught), and when there are no completion logs. |
| HabitHelpers.StreakStart | backend/habitHelpers.js:162-176 | The period the count starts from is today's period or the one step before it. |
| HabitHelpers.NewestIsStreakStart | backend/habitHelpers.js:164-176 | When this period or the previous one holds a completion, `Math.max` of the keys is that starting period. |
| HabitHelpers.StreakGrace | backend/habitHelpers.js:113-127 | The grace rule, both directions: the streak is non-zero exactly when this period or the previous one holds a completion. |
| HabitHelpers.StreakIsRun | backend/habitHelpers.js:129-135 | For every n, the streak is n exactly when n consecutive periods back from the start period hold a completion and the next one back does not. |
| HabitHelpers.StreakIsRunFromStart | backend/habitHelpers.js:178-184 | The same, when the current or the previous period holds a completion, for every n. |
| HabitHelpers.WalkKeys | backend/habitHelpers.js:181 | Walking back from a period not after today's, `includes` finds a key exactly when that period holds a completion. |
| HabitHelpers.StreakBound | backend/habitHelpers.js:158-184 | The streak is at most the number of distinct completed periods up to today's. For weekly and monthly, it is at most the number of deduplicated keys. |
| HabitHelpers.StreakOfSameKeys | backend/habitHelpers.js:201 | Only which keys are present matters, not their order or repetition. |
| HabitHelpers.StreakSamePeriods | backend/habitHelpers.js:190-201 | Two log tables that complete the same periods up to today's give the same streak. |
| HabitHelpers.ExtraLogSameStreak | backend/habitHelpers.js:158 | A second completion in an already completed period does not change the streak. |
| HabitHelpers.ClosedGateHasStreak | backend/habitHelpers.js:56-59 | When needsReset answers `false`, the streak is at least 1. |
| HabitHelpers.DailyTwoDays | backend/habitHelpers.js:99-135 | Daily completions yesterday and today: the gate is closed and the streak is 2. |
| HabitHelpers.DailyGap | backend/habitHelpers.js:115-127 | A daily habit last completed two days ago has streak 0. |
| HabitHelpers.ThreeMondays | backend/habitHelpers.js:150-158 | Completions on three consecutive Mondays are grouped under exactly those three week keys. |
| HabitHelpers.WeeklyThreeWeeks | backend/habitHelpers.js:139-185 | Completions on three consecutive Mondays, checked during the following week: the habit can be completed and the streak is 3. |
| Periods.ParseFrequency | backend/habitHelpers.js:27-39 | Exactly "daily", "weekly" and "monthly" name a frequency, each its own: Daily exactly for "daily", Weekly exactly for "weekly", Monthly exactly for "monthly". |
| Periods.FrequencyOf | backend/habitHelpers.js:80 | A NULL column has no frequency. Otherwise the frequency is Daily, Weekly or Monthly exactly when the lower-cased column is "daily", "weekly" or "monthly". |
| Periods.MondayOffset | backend/habitHelpers.js:32-33 | The offset lies in 0..6 and moves the day back to a Monday. |
| Periods.WeekStart | backend/habitHelpers.js:141-147 | getWeekStart: the Monday at most six days before the day. |
| Periods.WeekStartUnique | backend/habitHelpers.js:141-147 | Any Monday at most six days back is the week start. |
| Periods.WeekStartLastWeek | backend/habitHelpers.js:163 | The week start of seven days earlier is the previous Monday. |
| Periods.MondaysApart | backend/habitHelpers.js:179-183 | Two different week starts are at least seven days apart. |
| Periods.CurrentWindow | backend/habitHelpers.js:27-39 | `start <= today < end`. Daily lasts one day. Weekly starts on a Monday and lasts seven days. Monthly lasts 28 to 31 days. |
| Periods.MonthlyWindow | backend/habitHelpers.js:36-38 | The monthly window runs from the 1st of today's UTC month to the 1st of the next month. In December the end is January 1 of the next year. |
| Periods.MonthOfIndex | backend/habitHelpers.js:205-206 | For years outside 0-99 (see Calendar.MakeDay under Left out), `Date.UTC(year, month + k, 1)` is the start of the month k months away, also when `month + k` leaves 0..11. |
| Periods.NextMonthIndex | backend/habitHelpers.js:38 | The month after December is January of the next year. |
| Periods.SamePeriodSameWindow | backend/habitHelpers.js:27-39 | Every day of the current window has that same window as its own. |
| Periods.SameWeekSameWindow | backend/habitHelpers.js:30-35 | The weekly case of SamePeriodSameWindow. |
| Periods.SameMonthSameWindow | backend/habitHelpers.js:36-38 | The monthly case of SamePeriodSameWindow. |
| Periods.MonthlyWindowIs | backend/habitHelpers.js:36-38 | The monthly window is `[MonthStart(mi), MonthStart(mi + 1))` for today's month index mi. |
| Periods.WindowMonotone | backend/habitHelpers.js:27-39 | A later day never has an earlier window start or end. |
| Periods.PeriodKey | backend/habitHelpers.js:190-194 | The period key of a date (the date itself at line 104, its Monday at line 153, the 1st of its month here) is never after it. Daily: the day itself. Weekly: a Monday less than seven days back. Monthly: the first day of the same month. |
| Periods.KeyIsWindowStart | backend/habitHelpers.js:190-194 | A log's period key is the start of the window of the day it is dated. |
| Periods.InWindowIffSameKey | backend/habitHelpers.js:45-51 | A log lies in today's window exactly when its key equals today's key. This ties needsReset to calculateStreak. |
| Periods.KeyBeforeCurrent | backend/habitHelpers.js:162-176 | No period key lies strictly between the previous period's key and the current one, so a newest key before the current one is at most the previous one. |
| Periods.MonthBeforeMonth | backend/habitHelpers.js:205-206 | A month that starts before month b starts no later than month b - 1: no month start lies strictly between lastMonthStart and currentMonthStart. |
| Periods.PreviousKey | backend/habitHelpers.js:206 | The previous period's key (yesterdayUTC at line 116, lastWeekStart at line 163, lastMonthStart here) is before the current key. Daily: the day before. Weekly: the current Monday minus seven days. Monthly: the first day of the month before today's. |
| Periods.StepBack | backend/habitHelpers.js:222-230 | One step back moves to a strictly earlier key. |
| Periods.Step | backend/habitHelpers.js:179-184 | The step as a function is strictly decreasing, so the walk ends. |
| Periods.PreviousIsStepBack | backend/habitHelpers.js:162-176 | yesterdayUTC, lastWeekStart and lastMonthStart are each one step back from the current key. |
| Periods.PreviousIsStepBackMonthly | backend/habitHelpers.js:205-206 | The monthly case of PreviousIsStepBack. |
| Periods.StepBackMonthStart | backend/habitHelpers.js:224 | From the 1st of a month, the monthly step lands on the 1st of the month before, across year ends. |
| Periods.StepMonthStart | backend/habitHelpers.js:229 | The same, for the step as applied by the walk. |
| Periods.StepAlongMonths | backend/habitHelpers.js:226-230 | The same, for every month index. |
| Periods.BackFixedStep | backend/habitHelpers.js:129-135 | Walking back i steps daily or weekly moves exactly i or 7i days. |
| Periods.BackMonthly | backend/habitHelpers.js:221-230 | Walking back i steps monthly from the 1st of month mi lands on the 1st of month mi - i, whatever the month lengths. |
| Walks.MaxOf | backend/habitHelpers.js:113 | `Math.max(...s)` is an element of s and no element is larger. |
| Walks.MaxOfSameElements | backend/habitHelpers.js:207 | Sequences with the same elements have the same maximum. |
| Walks.Back | backend/habitHelpers.js:132-135 | For a strictly decreasing step, i steps back reach a key at least i below the start. |
| Walks.Run | backend/habitHelpers.js:181-184 | The count of the `while (includes(check))` loop is 0 exactly when the start key is absent, and never more than the span from the start down to the smallest key. |
| Walks.BackAlong | backend/habitHelpers.js:226-230 | A step that maps g(k) to g(k - 1) walks g(m) to g(m - i) in i steps. |
| Walks.BackDecreasing | backend/habitHelpers.js:132-135 | Each step of the walk reaches a strictly earlier key. |
| Walks.BackShift | backend/habitHelpers.js:181-184 | Stepping once and then i times is stepping i + 1 times. |
| Walks.RunIsRunLength | backend/habitHelpers.js:132-135 | The loop's count: the first Run keys of the walk are present and the next is not. |
| Walks.RunIffRunLength | backend/habitHelpers.js:181-184 | Run equals n exactly when n consecutive keys are present and the next one is not. |
| Walks.RunSameElements | backend/habitHelpers.js:201 | The run depends only on which keys are present. |
| Walks.RunBound | backend/habitHelpers.js:226-230 | A run counts at most the distinct keys not after its start. |
| Walks.DistinctCard | backend/habitHelpers.js:158 | A deduplicated sequence has as many distinct elements as entries. |
| Calendar.Day | backend/habitHelpers.js:22 | The day of an instant: `d * msPerDay <= t < (d + 1) * msPerDay`. |
| Calendar.WeekDay | backend/habitHelpers.js:32 | getUTCDay lies in 0..6. |
| Calendar.DayFromYear | backend/habitHelpers.js:37 | January 1 of year y (the day count Date.UTC starts from) is between 365 and 366 days per year away from 1970, in the right direction. |
| Calendar.MonthStart | backend/habitHelpers.js:37-38 | MakeDay(y, m, 1) as a day number (`Date.UTC(y, m, 1)` for years outside 0-99), counted month by month from January 1970. It has no contract of its own; MonthStartIsFirstOfMonth, MonthStartMonotone and MonthOf state its properties. |
| Calendar.MakeDay | backend/habitHelpers.js:104 | ECMA-262 MakeDay: day d - 1 of the month with index `12y + m`, for any m and d, also out of range. This is `Date.UTC(y, m, d)` for years outside 0-99 (see Left out). |
| Calendar.DayFromYearFormula | backend/habitHelpers.js:37 | Counting years from 1970 agrees with the ECMA-262 closed form of DayFromYear, for every year. |
| Calendar.YearFormulaStep | backend/habitHelpers.js:37 | The closed form grows by the year's length from one January 1 to the next. |
| Calendar.LeapCount | backend/habitHelpers.js:37 | The leap-year rule equals the three corrections of the closed form. |
| Calendar.MonthStartIsFirstOfMonth | backend/habitHelpers.js:37-38 | Counting months from January 1970 agrees with DayFromYear plus the days before the month. |
| Calendar.FirstOfMonthStep | backend/habitHelpers.js:38 | In the closed form, the next month starts right after this one, also from December into January. |
| Calendar.MonthStartMonotone | backend/habitHelpers.js:224-229 | Later months start later, by at least 28 days. |
| Calendar.MonthOf | backend/habitHelpers.js:193 | The month containing a day: its start is not after the day, and the next month's start is after it. |
| Calendar.MonthOfUnique | backend/habitHelpers.js:193 | Only one month contains a given day. |
| Calendar.MonthOfMonthStart | backend/habitHelpers.js:228-229 | The 1st of month mi lies in month mi. |
| Calendar.MonthOfMonotone | backend/Routes/habits.js:25-26 | A later day is never in an earlier month. |
| Calendar.DateOf | backend/habitHelpers.js:104 | getUTCMonth lies in 0..11, and getUTCDate lies between 1 and the month's length. |
| Calendar.MakeDayOfDateOf | backend/habitHelpers.js:104 | MakeDay of the UTC year, month and date gives back the same day, as `Date.UTC(getUTCFullYear, getUTCMonth, getUTCDate)` does for years outside 0-99. |
| Calendar.DateOfMakeDay | backend/habitHelpers.js:104 | A valid calendar date survives MakeDay followed by DateOf. |
| Calendar.DateOfMonthStart | backend/habitHelpers.js:193 | The first day of month mi is the 1st of year `mi / 12`, month `mi % 12`. |
| Calendar.DateOfInjective | backend/Routes/habits.js:18 | Two days have the same date string exactly when they are the same day. |
| Calendar.SameMonthIndex | backend/Routes/habits.js:25-26 | Same month index exactly when both the month and the year agree. |
| HabitRoutes.NeedsReset | backend/Routes/habits.js:9-30 | Without completedAt: false. For a frequency other than exactly daily/weekly/monthly: false. Daily: due exactly when the dates differ. Weekly: due exactly when at least 7×24h have passed. Monthly: due exactly when the month or year differs. |
| HabitRoutes.NotDueWhenJustCompleted | backend/Routes/habits.js:9-30 | A habit completed at an instant is not due at that same instant. |
| HabitRoutes.DueStaysDue | backend/Routes/habits.js:15-26 | Once a completion is due, it stays due later. |
| HabitRoutes.RollingWeek | backend/Routes/habits.js:19-22 | Completed on a Sunday, checked the next Monday: not due, although the Monday-start week has changed. |
| HabitRoutes.NormalizedFrequency | backend/Routes/habits.js:85 | An absent or empty frequency becomes "daily". A non-empty frequency becomes exactly its lower-cased form. |
| HabitRoutes.ValidateCreate | backend/Routes/habits.js:67-95 | Each 400 answer exactly when its check is the first to fail: TitleRequired when the title is missing or blank, TitleTooLong past 200 code units, DescriptionTooLong past 1000, InvalidFrequency when the normalised frequency is not daily/weekly/monthly. Ok exactly when every check passes. It stores the title, the description (or "") and the normalised frequency. |
| HabitRoutes.CreatedFrequencyIsRecognised | backend/Routes/habits.js:84-93 | A created habit's stored frequency is recognised by the period engine. |
| HabitRoutes.CreateLowerCasesFrequency | backend/Routes/habits.js:85-93 | "WEEKLY" is accepted and stored as "weekly", with description "". |
| HabitRoutes.LowerExample | backend/Routes/habits.js:85 | "WEEKLY" lower-cases to "weekly". |
| HabitRoutes.TrimExample | backend/Routes/habits.js:72-76 | "Run" is not blank and is 3 code units long. |
| HabitRoutes.StoredStreak | backend/Routes/habits.js:139 | `habit.streak` or 0: a NULL streak counts as 0. |
| HabitRoutes.Swept | backend/Routes/habits.js:42-55 | A completed row that is due gets `is_completed = false` and `completed_at = NULL`. Every other row is unchanged. The streak is always kept. No swept row is left completed and due. |
| HabitRoutes.SweptIdempotent | backend/Routes/habits.js:42-55 | Sweeping twice is sweeping once. |
| HabitRoutes.HabitRecord.constructor | backend/Routes/habits.js:91-95 | A new row is not completed, has no completion time and has streak 0. |
| HabitRoutes.HabitRecord.ResetIfDue | backend/Routes/habits.js:43-52 | The row's new state is `Swept` of its old state. |
| HabitRoutes.HabitRecord.Complete | backend/Routes/habits.js:119-147 | A completed row that is not due is refused and left unchanged. Otherwise the row becomes completed now, with streak 1 after a reset and the stored streak + 1 otherwise. It is then not due. |
| HabitRoutes.Sweep | backend/Routes/habits.js:42-57 | Every row of the list ends in `Swept` of its old state, and none is completed and due. |
| HabitRoutes.FindRow | backend/Routes/habits.js:110-117 | A row with this id owned by this user, or None when there is none. |
| HabitRoutes.CompleteHabit | backend/Routes/habits.js:104-159 | NotFound exactly when the user owns no such habit. Otherwise: AlreadyCompleted exactly when the row is completed and not due, and then it is unchanged. A completion returns streak 1 when due and the stored streak + 1 otherwise, and the row stores that streak, completed now. |
| HabitRoutes.CompleteDailyTwice | backend/Routes/habits.js:119-139 | Without a sweep between them, completions on two consecutive days both yield streak 1. |
| HabitRoutes.CompleteWithSweepBetween | backend/Routes/habits.js:42-57 | With the GET sweep between them, the second completion yields streak 2, even after a gap of several days. |
| EarlyHelpers.WindowStartDay | habitHelpers.js:11-21 | The start is not after today. Weekly: a Monday within the last 7 days. Monthly: the 1st of today's month. Any other value, including NULL and mixed case: today. |
| EarlyHelpers.StartOfWindow | habitHelpers.js:12-21 | The Date mutated by setHours and setDate ends at midnight of WindowStartDay. |
| EarlyHelpers.Newest | habitHelpers.js:25-31 | None exactly when no log of the habit is dated on or after the start. Otherwise it is such a log with the latest date. |
| EarlyHelpers.CanComplete | habitHelpers.js:32-33 | With no log from the start on, the habit can be completed. When it cannot, a completion of the habit is among the newest logs from the start on. |
| EarlyHelpers.NeedsReset | habitHelpers.js:3-34 | None exactly when the habit is missing. Otherwise `!completed` for the newest log from the window start on. |
| EarlyHelpers.NoLogMeansOpen | habitHelpers.js:25-33 | With no log from the start on, the habit can be completed. |
| EarlyHelpers.NewestCompletionCloses | habitHelpers.js:32-33 | A completion dated after every other considered log closes the habit. |
| EarlyHelpers.LaterFailureReopens | habitHelpers.js:25-33 | A failed log after a completion makes the habit completable again. |
| EarlyHelpers.FutureCompletionCloses | habitHelpers.js:28 | No upper bound: a completion dated tomorrow closes the habit today, for every frequency. |
| EarlyHelpers.YesterdayDoesNotCount | habitHelpers.js:12-13 | For a daily habit, yesterday's completion is outside the window. |
| Text.LowerChar | backend/habitHelpers.js:18 | Each of A-Z maps to the letter 32 code points up (a-z). The Kelvin sign maps to 'k'. Every other character is kept. |
| Text.Lower | backend/habitHelpers.js:80 | Same length, each character lower-cased. |
| Text.LowerIdempotent | backend/Routes/habits.js:85 | Lower-casing twice is lower-casing once. |
| Text.LowerOfLowerAscii | backend/Routes/habits.js:84 | A lower-case ASCII string is its own lower-case form. |
| Text.LowerOfFrequencyName | backend/Routes/habits.js:84-85 | "daily", "weekly" and "monthly" are their own lower-case forms. |
| Text.TrimStart | backend/Routes/habits.js:72 | Removes exactly the leading whitespace. |
| Text.TrimEnd | backend/Routes/habits.js:72 | Removes exactly the trailing whitespace. |
| Text.Trim | backend/Routes/habits.js:72 | trim(): the result neither starts nor ends with whitespace, is a slice of the title, and everything cut off before and after it is whitespace. |
| Text.IsWhitespace | backend/Routes/habits.js:72 | The WhiteSpace and LineTerminator characters trim removes: space, tab, CR, LF, NBSP and BOM among them, and never a letter or digit. |
| Text.TrimEmptyIffBlank | backend/Routes/habits.js:72 | A title trims to "" exactly when every character is whitespace. |
| Text.Utf16Length | backend/Routes/habits.js:76-80 | `.length` lies between the number of characters and twice that. |

## Left out

- Time zones. The code mixes local-time calls (`getFullYear`, `getDate`, `toDateString`,
  `getMonth`, `setHours`, `setDate`) with UTC calls. The model puts every date in UTC day
  numbers. The time-zone offset is host configuration, not something the code controls.
- HabitRoutes.NeedsReset: daily and monthly compare UTC dates, where the source uses
  `toDateString`, `getMonth` and `getFullYear` in local time (see Time zones).
- EarlyHelpers.StartOfWindow: the midnight and the `setDate` moves happen in UTC, where the
  source uses local time. `toISOString` and the comparison of that string against the DATE
  column are not modelled. The start is compared as a day number.
- The clock (`new Date()`, `CURRENT_TIMESTAMP`) is a parameter. The database's
  `CURRENT_TIMESTAMP` is taken to equal the `now` that needsReset saw.
- SQL and concurrency are not modelled:
  - queries are filters over in-memory sequences;
  - the `Promise.all` of the sweep runs the rows one after another;
  - the race between checking and inserting a log is out of scope;
  - database errors, and the 500 answers they produce, are out of scope.
- EarlyHelpers.Newest: `ORDER BY date DESC LIMIT 1` has no tie-break on equal DATE values. The
  model picks the first such row in table order, and its contracts hold for any newest row.
- The `status` column: the model assumes a boolean column, and so differs from the schema as
  written. backend/setup-database.js:66 declares `status VARCHAR(50)`. With that schema,
  PostgreSQL has no implicit comparison of a varchar with a boolean, so `AND status = true`
  (backend/habitHelpers.js:51 and 86) is an error, not a filter. The driver returns a VARCHAR as
  a JavaScript string, so `logs[0].status === true` (habitHelpers.js:32) is never true, and the
  early needsReset would always answer "can complete". The model reads `status` as the
  completion flag, which is what the code evidently means.
- `.sort` in calculateStreak is not modelled. The result does not depend on the order:
  `Math.max`, `includes` and `new Set` only look at which keys are present (RunSameElements).
- Text.Lower: only A-Z and the Kelvin sign are lower-cased. Other characters are kept, so
  `toLowerCase` on non-ASCII text is modelled only as far as it decides whether the result is
  "daily", "weekly" or "monthly".
- Text.Utf16Length: a string is a sequence of Unicode scalar values, so lone surrogates cannot
  occur.
- HabitRoutes.ValidateCreate: the title, description and frequency are taken to be strings when
  present. A non-string JSON value is not modelled: for a title, `title.trim` throws; for a
  frequency such as 5, `frequency?.toLowerCase()` (backend/Routes/habits.js:85) throws.
- Calendar.MakeDay: Date.UTC's rule that a year from 0 to 99 means 1900 + year is left out;
  the model's Date.UTC is MakeDay alone. The source applies Date.UTC to the UTC year of a log
  date (backend/habitHelpers.js:104, 146, 193), so a log dated in years 0-99 is keyed 1900
  years later there. For a today after 1999 this is harmless in practice: either key is far
  before the previous period, so it never starts a streak, and the walk can reach the 1900s
  key only through an unbroken run of completed periods from today back to it (decades of
  them). The gate compares DATE values in SQL and does not use Date.UTC.
- Walks.MaxOf: the engine's argument-count limit on `Math.max(...keys)` is not modelled.
- The route handlers' HTTP plumbing (`res.status(...).json`, `req.user`, authentication) is
  not modelled. Outcomes are datatypes (`CreateError`, `CompleteOutcome`).
- The model follows the code in two places where one might expect otherwise:
  - an unrecognised frequency in backend `needsReset` throws (`Throws`) rather than
    answering, because `startDate` stays undefined;
  - daily streak keys are not deduplicated. Only the weekly and monthly keys go through
    `new Set`.
