# Habit dashboard statistics, in Dafny

This project models the statistics code of the habit tracker's `Dashboard` component
(`src/components/dashboard.tsx`) and proves what it computes. Each habit has a completion
ledger: a map from a calendar day to the number of completions recorded that day, plus an
optional daily target (`targetCompletions || 1`). From these ledgers the dashboard derives:

- the ledger written when the +/- buttons change today's count;
- each habit's count and "done" status for a day;
- today's completed/target totals and the progress percentage;
- the all-time completion total;
- the union-based current and longest streaks;
- the weekly bar chart;
- the per-habit streak progression over the selected month;
- the calendar highlight days.

Calendar dates are integer day numbers (day 0 is 1970-01-01). The selected date is a
`CivilDate`, converted with the days-from-civil formula. Weeks start on Monday, as with
`weekStartsOn: 1`.

Modules (one file each):
- `Calendar` (calendar.dfy): day numbers, weekdays, week and month spans.
- `Days` (days.dfy): the earliest day of a set, sorting a set of days, runs of consecutive days.
- `Habits` (habits.dfy): the habit record, `Target`, `Count`, `IsDone`, the today filter, `FindHabit`.
- `Ledger` (ledger.dfy): the ledger write, the button clamping, the all-time total.
- `Progress` (progress.dfy): today's totals and the percentage.
- `Streaks` (streaks.dfy): the union of dates, the current and longest streaks.
- `Charts` (charts.dfy): calendar days, the weekly chart, the streak matrix.

Loops in the source are methods with loops here. Each method's `ensures` ties its result
to a specification function, and the lemmas prove the properties of those functions. The
methods are the `forEach` accumulations, the streak `while`/`for` loops and the
streak-matrix walk back. `getCompletionCount`, the filter, `calendarDays` and the
all-time reduce are pure functions.

Behaviour of the code worth knowing, which the model keeps:
- The streak union holds every ledger key (`Object.keys`), including a key whose count is 0.
- The union is taken across habits. One habit done on day t - 2 and another on days
  t - 1 and t give a current streak of 3 on day t, although neither habit has a run
  longer than 2. `Streaks.UnionScenario` proves this.
- The current streak walks back from the clock's day (`new Date()`), not from the
  selected date, so `Streaks.Streaks` takes a separate `now` parameter.
- A streak-chart row is one object holding the `date` label and one streak per habit
  name, so a habit named "date" replaces the x-axis label (see "## Findings").
- `src/lib/types.ts` declares an older habit shape with `completed_dates`. The model
  follows the shape the dashboard reads: `completions` and `targetCompletions`.

## Model

| member | source | states |
|---|---|---|
| `Calendar.DayNumber` | src/components/dashboard.tsx:100 | days-from-civil numbering of a calendar date, with 1970-01-01 as day 0 |
| `Calendar.EpochIsThursday` | src/components/dashboard.tsx:275 | day 0, 1970-01-01, falls on weekday 3, a Thursday |
| `Calendar.Weekday` | src/components/dashboard.tsx:275 | the weekday is below 7 and counts the days since the last Monday (1970-01-05 + 7k) |
| `Calendar.WeekStart` | src/components/dashboard.tsx:260-262 | the week's start is a Monday, on or before the selected day and less than 7 days before it |
| `Calendar.WeekdayAfterMonday` | src/components/dashboard.tsx:266-275 | the i-th day after a Monday has weekday i, so the 'EEE' labels run Mon..Sun |
| `Calendar.MonthStart` | src/components/dashboard.tsx:284 | the month's first day s, with day k of the month numbered s + k - 1 |
| `Calendar.DaysInMonth` | src/components/dashboard.tsx:284-286 | a month has 28 to 31 days, 29 exactly for February of a leap year |
| `Calendar.MonthsAreContiguous` | src/components/dashboard.tsx:284-286 | the day after a month's last day is the next month's first day, so start + k for k < length are exactly the month's days |
| `Days.SortedDays` | src/components/dashboard.tsx:190 | the sorted distinct dates are strictly increasing and hold exactly the set's days |
| `Days.RunBack` | src/components/dashboard.tsx:203-206 | the run ending at d counts consecutive present days back from d and stops at the first absent one |
| `Days.RunBackAtLeast` | src/components/dashboard.tsx:203-206 | if the k days ending at d are all present, the run ending at d is at least k |
| `Days.MaxRun` | src/components/dashboard.tsx:210-221 | bounds the run ending at every day considered, is reached by one of them, and is 0 when there are none |
| `Days.LongestRun` | src/components/dashboard.tsx:209-221 | every run in the set is at most the longest run, and some day of a non-empty set reaches it |
| `Days.LongestRunUnique` | src/components/dashboard.tsx:210-221 | any value that bounds every run and is reached by one is the longest run |
| `Days.LongestRunZero` | src/components/dashboard.tsx:185-192 | the longest run is 0 exactly when there are no dates |
| `Habits.Target` | src/components/dashboard.tsx:176 | the effective target is at least 1: the stored target when positive, 1 when absent or 0 |
| `Habits.Count` | src/components/dashboard.tsx:152-154 | the count stored for the day, and 0 for a day the ledger does not hold |
| `Habits.IsDone` | src/components/dashboard.tsx:382-384 | done needs at least one completion; with no target set, done is exactly one completion or more |
| `Habits.DoneHasKey` | src/components/dashboard.tsx:152-154 | a habit is done on a day only if its ledger holds that day with a count of at least 1; a missing day counts 0 |
| `Habits.TargetThreeExample` | src/components/dashboard.tsx:382-384 | with target 3, count 2 is not done, count 3 is done, a missing day is not done |
| `Habits.IsScheduledToday` | src/components/dashboard.tsx:158-167 | the filter's test keeps a habit exactly when its frequency is one of daily, weekly, monthly |
| `Habits.HabitsForToday` | src/components/dashboard.tsx:156-168 | keeps exactly the habits with a daily, weekly or monthly frequency; with no unrecognised frequency it returns the list unchanged |
| `Habits.FindHabit` | src/components/dashboard.tsx:103 | returns the first habit carrying the id, or None exactly when no habit has it |
| `Ledger.UpdatedCompletions` | src/components/dashboard.tsx:107-113 | today's key holds the count iff the count is positive, and is absent otherwise; every other day's entry is unchanged |
| `Ledger.UpdateHabitCompletion` | src/components/dashboard.tsx:102-116 | nothing is written when no user is signed in or the id is unknown; otherwise the written ledger is the found habit's ledger with today updated |
| `Ledger.Decremented` | src/components/dashboard.tsx:392 | the minus button's count is never negative and is one less than a positive count |
| `Ledger.Incremented` | src/components/dashboard.tsx:404 | the plus button's count never exceeds the target, is one more below the target, and stays at the target at or above it |
| `Ledger.MinusEnabled` | src/components/dashboard.tsx:392-393 | the minus button is enabled exactly when pressing it would lower today's count |
| `Ledger.PlusEnabled` | src/components/dashboard.tsx:404-405 | the plus button is enabled exactly when pressing it would raise today's count |
| `Ledger.PressMinus` | src/components/dashboard.tsx:392 | the written ledger holds today with one less than the count, or drops today when the count was at most 1 |
| `Ledger.PressPlus` | src/components/dashboard.tsx:404 | the written ledger holds today with a count between 1 and the target, one more than before when below the target |
| `Ledger.ButtonsKeepCountInRange` | src/components/dashboard.tsx:388-405 | a count in [0, target] stays in [0, target] after either button |
| `Ledger.PlusAddsOne` | src/components/dashboard.tsx:400-408 | an enabled plus button adds exactly one completion today and changes no other day |
| `Ledger.MinusRemovesOne` | src/components/dashboard.tsx:388-396 | an enabled minus button removes exactly one completion today and changes no other day |
| `Ledger.PlusAtTargetIsNoOp` | src/components/dashboard.tsx:404 | plus at the target leaves the ledger unchanged |
| `Ledger.PlusThenMinusRestores` | src/components/dashboard.tsx:102-116 | plus then minus gives back the original ledger when it holds no explicit zero for today |
| `Ledger.LedgerTotal` | src/components/dashboard.tsx:359 | a ledger's total is 0 exactly when every count in it is 0 |
| `Ledger.AllTimeTotal` | src/components/dashboard.tsx:359 | the all-time total is at least each habit's own ledger total |
| `Ledger.LedgerTotalWithout` | src/components/dashboard.tsx:359 | a ledger's total is any one day's count plus the total of the rest, whichever day is taken |
| `Ledger.UpdatedTotal` | src/components/dashboard.tsx:107-113 | writing a count for today moves the ledger total by exactly the change in today's count |
| `Ledger.LedgerTotalCoversDay` | src/components/dashboard.tsx:359 | a ledger's total is at least any single day's count |
| `Ledger.AllTimeTotalAfterUpdate` | src/components/dashboard.tsx:359 | writing one habit's updated ledger moves the all-time total by exactly the change in that habit's count today |
| `Progress.CompletedOn` | src/components/dashboard.tsx:174-175 | the completed sum is at least each habit's count that day |
| `Progress.TargetSum` | src/components/dashboard.tsx:176 | the target sum is at least each habit's target |
| `Progress.TodayTotals` | src/components/dashboard.tsx:171-179 | the completed total is the sum of today's counts, and the target total the sum of targets, over the habits kept by the today filter |
| `Progress.TargetSumAtLeastCount` | src/components/dashboard.tsx:176 | the target total is at least the number of habits |
| `Progress.CompletedWithinTarget` | src/components/dashboard.tsx:171-179 | when no habit is past its target today, the completed total is at most the target total |
| `Progress.ScheduledCompletedAtMostAll` | src/components/dashboard.tsx:156-179 | the completed total over the filtered habits never exceeds the total over all habits |
| `Progress.Percentage` | src/components/dashboard.tsx:181 | 0 when the target total is 0; otherwise the whole number nearest 100 * completed / total, halves rounded up |
| `Progress.PercentageAtMostHundred` | src/components/dashboard.tsx:181 | the percentage is at most 100 while completions do not exceed the target total |
| `Progress.PercentageFull` | src/components/dashboard.tsx:181 | completions equal to the target total give 100 |
| `Streaks.AllDates` | src/components/dashboard.tsx:189 | a day is in the union exactly when some habit's ledger holds it |
| `Streaks.CurrentStreak` | src/components/dashboard.tsx:197-207 | 0 exactly when neither the clock's day nor the day before is recorded; otherwise every day of the streak, ending on that day, is recorded |
| `Streaks.WalkBackStreak` | src/components/dashboard.tsx:196-207 | the walk back from the clock's day (or the day before, when the day itself is absent) gives the run ending there |
| `Streaks.RunBackAlongSorted` | src/components/dashboard.tsx:210-216 | along the sorted dates, the run grows by one on a date exactly one day after the previous one and restarts at 1 otherwise |
| `Streaks.ScanLongestStreak` | src/components/dashboard.tsx:209-221 | the scan of the sorted dates returns the longest run of consecutive days |
| `Streaks.LongestFromScan` | src/components/dashboard.tsx:210-221 | a value that bounds the run at every sorted date, and is reached by one of them, is the longest run |
| `Streaks.NoDays` | src/components/dashboard.tsx:190-192 | an empty sorted listing means no dates |
| `Streaks.Streaks` | src/components/dashboard.tsx:184-225 | returns the union-based current streak from the clock's day and the longest run in the union, both 0 with no habits or no dates |
| `Streaks.LongestAtLeastCurrent` | src/components/dashboard.tsx:184-224 | the longest streak is never shorter than the current streak |
| `Streaks.NoDatesNoStreaks` | src/components/dashboard.tsx:185-192 | with every ledger empty both streaks are 0; with any recorded day the longest streak is positive |
| `Streaks.AllDatesEmpty` | src/components/dashboard.tsx:189 | empty ledgers give an empty union |
| `Streaks.CurrentStreakCoversRecentDays` | src/components/dashboard.tsx:198-206 | if today and the k - 1 days before it are recorded, the current streak is at least k |
| `Streaks.FourDayScenario` | src/components/dashboard.tsx:196-221 | four consecutive days ending today give a current and a longest streak of 4 |
| `Streaks.GapScenario` | src/components/dashboard.tsx:196-221 | with yesterday missing, the current streak is 1 and the longest is 2 |
| `Streaks.UnionScenario` | src/components/dashboard.tsx:189-221 | days of two habits that meet only in the union form one streak of 3, current and longest |
| `Charts.CalendarDays` | src/components/dashboard.tsx:227-231 | the highlighted days are exactly the streak union's days, each listed at most once per habit |
| `Charts.DayTotal` | src/components/dashboard.tsx:268-272 | a day's bar is the sum over all habits of that day's count, with absent days counting 0 |
| `Charts.WeeklyChartData` | src/components/dashboard.tsx:259-279 | no bars for a null collection; otherwise exactly 7 bars, Monday first: bar i is named for weekday i and holds the completions of the week's start + i |
| `Charts.TodayBarMatchesProgress` | src/components/dashboard.tsx:171-175 | the selected day falls in the charted week at position weekday, and with recognised frequencies that bar equals today's completed total |
| `Charts.DoneRun` | src/components/dashboard.tsx:293-300 | the matrix entry n is the length of the habit's done run ending at d: the habit reaches its target on each of the n days up to d and not on day d - n |
| `Charts.WalkBackDone` | src/components/dashboard.tsx:294-300 | the walk back while the count reaches the target gives that run |
| `Charts.DoneRunWithinUnion` | src/components/dashboard.tsx:293-300 | a habit's own streak ending on a day never exceeds the union streak ending on it |
| `Charts.MatrixWithinLongest` | src/components/dashboard.tsx:293-300 | every matrix entry is at most the longest streak on the streak card |
| `Charts.StreakColumnsNames` | src/components/dashboard.tsx:289-302 | a row has a column for exactly the habits' names |
| `Charts.StreakColumns` | src/components/dashboard.tsx:293-302 | one row's streaks per habit name, each habit writing in turn, so the later of two same-named habits is kept; see the three lemmas that follow |
| `Charts.StreakColumnsOrigin` | src/components/dashboard.tsx:293-302 | every column holds the streak of the last habit carrying that name |
| `Charts.StreakColumnsValue` | src/components/dashboard.tsx:293-302 | the column of a habit whose name no later habit reuses holds that habit's streak |
| `Charts.Flatten` | src/components/dashboard.tsx:289-301 | a row object has the `date` key and one key per habit name, each name holding its streak; the label survives exactly when no habit is named "date" |
| `Charts.StreakRowFor` | src/components/dashboard.tsx:288-304 | one row's loop, started from `{ date: label }`, gives the flattened row of the label and each name's streak |
| `Charts.LabelledStreakRows` | src/components/dashboard.tsx:284-301 | one row per day of the month, row k labelled k + 1 and holding each habit name's streak ending on that day |
| `Charts.LabelledRowsKeepLabelAndStreaks` | src/components/dashboard.tsx:289-301 | in a labelled row, the label and each habit's streak are both kept, whatever the habit is called |
| `Charts.StreakChartData` | src/components/dashboard.tsx:281-306 | no rows without habits; otherwise one row per day of the selected month, row k being the flattened labelled row for day k + 1 |
| `Charts.FlattenedLabelShown` | src/components/dashboard.tsx:289-301 | a chart row shows its day label exactly when no habit is named "date" |
| `Charts.DateNamedHabitHidesLabel` | src/components/dashboard.tsx:289-301 | with one habit named "date", every row's `date` entry is that habit's streak instead of the day of the month |

## Findings

| source | as written | input that shows it | evidently intended | confidence | as-written member | corrected member |
|---|---|---|---|---|---|---|
| src/components/dashboard.tsx:289-301 | each chart row is one object: the x-axis label under `date`, then each habit's streak under `habit.name` | one habit named "date" (the add-habit form only asks for 2 characters); every row's `date` entry becomes a streak number, so the x-axis shows streaks instead of days | each row keeps its day-of-month label beside every habit's streak | not executed | `Charts.DateNamedHabitHidesLabel` | `Charts.LabelledStreakRows` |

## Left out

- React rendering, tabs, dialogs, the chart configuration and the achievements card are presentation only.
- Firestore, auth and routing are not modelled. This covers `useCollection`, the document writes (lines 115, 123, 127 and 137), `handleHabitSubmit` and `handleDeleteHabit`. The model stops at the ledger `updateHabitCompletion` hands to the store. Habits arrive as a parameter, and "a user is signed in" is the `signedIn` flag.
- The reminder effect (lines 234-256) is left out. It uses browser notifications, `setTimeout` and the wall clock.
- Time zones and daylight saving are not modelled. Every date is an integer day number. In the source, `todayISO` and the current streak key days by UTC `toISOString`, the longest streak compares local midnights by a 24-hour difference, and the charts format local days. Across a time-zone offset or a daylight-saving change these can disagree by a day, or miss a consecutive pair.
- Sorting: `Days.SortedDays` sorts day numbers. The source sorts `YYYY-MM-DD` strings, which gives the same order for four-digit years.
- `Progress.Percentage`: `Math.round` of a floating-point quotient is modelled as exact rational rounding, halves up. Float error at the exact .5 boundaries is not modelled.
- `Charts.CalendarDays` returns a multiset, because the order in which `Object.keys` lists a ledger is not modelled. Converting the keys to `Date` objects with `parseISO` is not modelled either.
- A null habit collection is modelled only for `Charts.WeeklyChartData`, the one place where its result differs from the empty list's. Elsewhere `habits` is a list. A null collection gives the same result as the empty list in the filter, the streaks, the calendar days, the streak chart and the total (lines 157, 188, 228, 282 and 359). `updateHabitCompletion` would throw on it (line 103), and that is not modelled.
- Negative or fractional counts and targets are not modelled: counts and targets are `nat`. The dashboard's own writes never make a count negative. The minus button clamps at 0 (line 392), and a count of 0 deletes the key rather than storing it (lines 109-113). A missing `completions` field is the empty map.
- `Charts.StreakColumns` (with `Charts.Flatten` and `Charts.StreakColumnsNames`) treats a chart row as a map from string keys, so every habit name gets a column. In the source the row is a plain JavaScript object (line 289). For a habit named `__proto__`, `dayData[habit.name] = streak` (line 301) goes to the inherited `__proto__` setter. That setter ignores a number, so the habit gets no column, and its chart line (line 530) reads the object's prototype instead of a streak. This special key is not modelled.
- `Charts.WeeklyChartData` and `Charts.StreakChartData` take a valid calendar date. JavaScript's `Date` normalises out-of-range fields, which is not modelled.
- The mock data, the AI flows, the AI helper panel, the habit form schema, the background animation and the layout files are not part of this model.
