/** The progress tab's data: calendar highlight days, the weekly bar chart, and the
    per-habit streak progression over the selected month. */
module Charts {
  import opened Calendar
  import opened Days
  import opened Habits
  import opened Progress
  import opened Streaks

  /** calendarDays: every habit's ledger days, concatenated. The order in which
      Object.keys lists a ledger is not modelled, so the days form a multiset. */
  function CalendarDays(habits: seq<Habit>): (r: multiset<Day>)
    ensures forall d :: d in r <==> d in AllDates(habits)
    ensures forall d :: r[d] <= |habits|
  {
    if habits == [] then multiset{}
    else
      var n := |habits| - 1;
      var earlier := CalendarDays(habits[..n]);
      assert forall d :: d in AllDates(habits) <==> d in AllDates(habits[..n]) || d in habits[n].completions by {
        forall d ensures d in AllDates(habits) <==> d in AllDates(habits[..n]) || d in habits[n].completions {
          if d in AllDates(habits) {
            var i :| 0 <= i < |habits| && d in habits[i].completions;
            if i < n {
              assert d in habits[..n][i].completions;
            }
          }
          if d in AllDates(habits[..n]) {
            var i :| 0 <= i < n && d in habits[..n][i].completions;
            assert d in habits[i].completions;
          }
        }
      }
      earlier + multiset(habits[n].completions.Keys)
  }

  /** One bar of the weekly chart: the short weekday name and the completions of that day. */
  datatype WeekBar = WeekBar(dayName: string, completed: nat)

  /** The inner `forEach` of the weekly chart: the day's completions summed over all habits. */
  method DayTotal(habits: seq<Habit>, day: Day) returns (completedCount: nat)
    ensures completedCount == CompletedOn(habits, day)
  {
    completedCount := 0;
    var i := 0;
    while i < |habits|
      invariant 0 <= i <= |habits|
      invariant completedCount == CompletedOn(habits[..i], day)
    {
      assert habits[..i + 1][..i] == habits[..i];
      completedCount := completedCount + Count(habits[i], day);
      i := i + 1;
    }
    assert habits[..i] == habits;
  }

  /** weeklyChartData: the seven days Monday to Sunday of the week holding `selected`,
      each labelled with its short weekday name and carrying that day's completions.
      The store may hand over a null collection (`None`); then `if (!habits) return [];`
      draws no bars at all. */
  method WeeklyChartData(habits: Option<seq<Habit>>, selected: CivilDate) returns (bars: seq<WeekBar>)
    requires ValidDate(selected)
    ensures habits.None? ==> bars == []
    ensures habits.Some? ==> |bars| == 7
    ensures habits.Some? ==> forall i :: 0 <= i < |bars| ==>
              bars[i].dayName == ShortDayNames[i]
              && bars[i].completed == CompletedOn(habits.value, WeekStart(DayNumber(selected)) + i)
  {
    var weekStart := WeekStart(DayNumber(selected));
    if habits.None? {
      return [];
    }
    bars := [];
    var k := 0;
    while k < 7
      invariant 0 <= k <= 7
      invariant |bars| == k
      invariant forall i :: 0 <= i < k ==>
                  bars[i].dayName == ShortDayNames[i]
                  && bars[i].completed == CompletedOn(habits.value, weekStart + i)
    {
      var day := weekStart + k;
      var completedCount := DayTotal(habits.value, day);
      WeekdayAfterMonday(weekStart, k);
      bars := bars + [WeekBar(ShortDayNames[Weekday(day)], completedCount)];
      k := k + 1;
    }
  }

  /** The selected day lies in the charted week, and today's card and today's bar agree:
      with every frequency recognised, today's completed count is the bar for today's weekday. */
  lemma TodayBarMatchesProgress(habits: seq<Habit>, today: Day)
    requires AllRecognised(habits)
    ensures var monday := WeekStart(today);
            monday <= today < monday + 7
            && Weekday(today) == today - monday
            && CompletedOn(HabitsForToday(habits), today) == CompletedOn(habits, monday + Weekday(today))
  {
    WeekdayAfterMonday(WeekStart(today), today - WeekStart(today));
  }

  /** Length of the run of days ending at `d` on which habit `h` is done (the streak matrix entry). */
  function DoneRun(h: Habit, d: Day): (n: nat)
    ensures forall x :: d - n < x <= d ==> IsDone(h, x)
    ensures !IsDone(h, d - n)
    decreases if d in h.completions then d - Earliest(h.completions.Keys) + 1 else 0
  {
    if IsDone(h, d) then
      DoneHasKey(h, d);
      assert d in h.completions.Keys;
      assert d - 1 in h.completions ==> d - 1 in h.completions.Keys;
      1 + DoneRun(h, d - 1)
    else 0
  }

  /** A habit's own streak never exceeds the union streak ending on the same day. */
  lemma {:induction false} DoneRunWithinUnion(habits: seq<Habit>, i: nat, d: Day)
    requires i < |habits|
    ensures DoneRun(habits[i], d) <= RunBack(AllDates(habits), d)
  {
    var n := DoneRun(habits[i], d);
    forall x | d - n < x <= d
      ensures x in AllDates(habits)
    {
      DoneHasKey(habits[i], x);
    }
    RunBackAtLeast(AllDates(habits), d, n);
  }

  /** The per-name streaks of one row, as the `forEach` over habits assigns them: each
      habit in turn writes its streak under its name, so of two habits sharing a name
      the later one's streak is kept. */
  function StreakColumns(habits: seq<Habit>, d: Day): map<string, nat> {
    if habits == [] then map[]
    else StreakColumns(habits[..|habits| - 1], d)[habits[|habits| - 1].name := DoneRun(habits[|habits| - 1], d)]
  }

  /** No habit after position i shares its name. */
  predicate LastWithName(habits: seq<Habit>, i: nat)
    requires i < |habits|
  {
    forall j :: i < j < |habits| ==> habits[j].name != habits[i].name
  }

  /** A row has a column for exactly the names of the habits. */
  lemma {:induction false} StreakColumnsNames(habits: seq<Habit>, d: Day, name: string)
    ensures name in StreakColumns(habits, d) <==> exists i :: 0 <= i < |habits| && habits[i].name == name
  {
    if habits != [] {
      var n := |habits| - 1;
      StreakColumnsNames(habits[..n], d, name);
      if exists i :: 0 <= i < n && habits[..n][i].name == name {
        var i :| 0 <= i < n && habits[..n][i].name == name;
        assert habits[i].name == name;
      }
      if exists i :: 0 <= i < |habits| && habits[i].name == name {
        var i :| 0 <= i < |habits| && habits[i].name == name;
        if i < n {
          assert habits[..n][i].name == name;
        }
      }
    }
  }

  /** Every column holds the streak of the last habit carrying its name. */
  lemma {:induction false} StreakColumnsOrigin(habits: seq<Habit>, d: Day, name: string)
    requires name in StreakColumns(habits, d)
    ensures exists i :: 0 <= i < |habits| && habits[i].name == name && LastWithName(habits, i)
                        && StreakColumns(habits, d)[name] == DoneRun(habits[i], d)
  {
    var n := |habits| - 1;
    if name == habits[n].name {
      assert LastWithName(habits, n);
    } else {
      StreakColumnsOrigin(habits[..n], d, name);
      var i :| 0 <= i < n && habits[..n][i].name == name && LastWithName(habits[..n], i)
               && StreakColumns(habits[..n], d)[name] == DoneRun(habits[..n][i], d);
      assert habits[..n][i] == habits[i];
      assert LastWithName(habits, i);
    }
  }

  /** The column of a habit whose name no later habit reuses holds that habit's streak. */
  lemma {:induction false} StreakColumnsValue(habits: seq<Habit>, d: Day, i: nat)
    requires i < |habits| && LastWithName(habits, i)
    ensures habits[i].name in StreakColumns(habits, d)
    ensures StreakColumns(habits, d)[habits[i].name] == DoneRun(habits[i], d)
  {
    var n := |habits| - 1;
    if i < n {
      assert habits[..n][i] == habits[i];
      assert LastWithName(habits[..n], i);
      StreakColumnsValue(habits[..n], d, i);
    }
  }

  /** The inner walk of streakChartData: count back from `day` while the habit is done. */
  method WalkBackDone(habit: Habit, day: Day) returns (streak: nat)
    ensures streak == DoneRun(habit, day)
  {
    streak := 0;
    var checkDate := day;
    while Count(habit, checkDate) >= Target(habit)
      invariant checkDate == day - streak
      invariant DoneRun(habit, day) == streak + DoneRun(habit, checkDate)
      decreases if checkDate in habit.completions then checkDate - Earliest(habit.completions.Keys) + 1 else 0
    {
      DoneHasKey(habit, checkDate);
      assert checkDate in habit.completions.Keys;
      if checkDate - 1 in habit.completions {
        assert checkDate - 1 in habit.completions.Keys;
      }
      streak := streak + 1;
      checkDate := checkDate - 1;
    }
  }

  /** The key under which a streak-chart row carries its x-axis label (`dataKey="date"`). */
  const DateKey: string := "date"

  /** A value in a row of the streak chart: the x-axis label `format(day, 'd')`, which is
      the day of the month in decimal (kept here as that number), or a habit's streak. */
  datatype Cell = DayLabel(dayOfMonth: nat) | Streak(length: nat)

  /** A row of the streak chart with the day label kept apart from the per-name streaks. */
  datatype StreakRow = StreakRow(dayOfMonth: nat, streaks: map<string, nat>)

  /** The one object the chart builds per day: `{ date: label }`, then each streak stored
      under its habit's name. A habit named "date" therefore replaces the label. */
  function Flatten(row: StreakRow): (cells: map<string, Cell>)
    ensures cells.Keys == row.streaks.Keys + {DateKey}
    ensures forall name :: name in row.streaks ==> cells[name] == Streak(row.streaks[name])
    ensures cells[DateKey] == DayLabel(row.dayOfMonth) <==> DateKey !in row.streaks
  {
    map[DateKey := DayLabel(row.dayOfMonth)] + map name | name in row.streaks :: Streak(row.streaks[name])
  }

  /** Storing one more streak in the flattened row is storing it among the streaks. */
  lemma FlattenStore(row: StreakRow, name: string, n: nat)
    ensures Flatten(row.(streaks := row.streaks[name := n])) == Flatten(row)[name := Streak(n)]
  {
    var left := Flatten(row.(streaks := row.streaks[name := n]));
    var right := Flatten(row)[name := Streak(n)];
    assert left.Keys == right.Keys;
    forall key | key in left
      ensures left[key] == right[key]
    {
      if key != name && key in row.streaks {
        assert left[key] == Streak(row.streaks[key]);
      }
    }
  }

  /** One row's `forEach` over the habits: the row starts as `{ date: label }` and each
      habit's walk-back streak is stored under its name. */
  method StreakRowFor(habits: seq<Habit>, day: Day, dayOfMonth: nat) returns (dayData: map<string, Cell>)
    ensures dayData == Flatten(StreakRow(dayOfMonth, StreakColumns(habits, day)))
  {
    dayData := map[DateKey := DayLabel(dayOfMonth)];
    assert dayData == Flatten(StreakRow(dayOfMonth, map[]));
    var i := 0;
    while i < |habits|
      invariant 0 <= i <= |habits|
      invariant dayData == Flatten(StreakRow(dayOfMonth, StreakColumns(habits[..i], day)))
    {
      var streak := WalkBackDone(habits[i], day);
      assert habits[..i + 1][..i] == habits[..i];
      FlattenStore(StreakRow(dayOfMonth, StreakColumns(habits[..i], day)), habits[i].name, streak);
      dayData := dayData[habits[i].name := Streak(streak)];
      i := i + 1;
    }
    assert habits[..i] == habits;
  }

  /** The rows the chart evidently means to draw: row k is labelled with day k + 1 of the
      month and carries every habit's streak ending that day, the label apart from the names. */
  function LabelledStreakRows(habits: seq<Habit>, year: int, month: int): (rows: seq<StreakRow>)
    requires 1 <= month <= 12
    ensures |rows| == DaysInMonth(year, month)
    ensures forall k :: 0 <= k < |rows| ==> rows[k].dayOfMonth == k + 1
    ensures forall k :: 0 <= k < |rows| ==> rows[k].streaks == StreakColumns(habits, MonthStart(year, month) + k)
  {
    seq(DaysInMonth(year, month), k requires 0 <= k => StreakRow(k + 1, StreakColumns(habits, MonthStart(year, month) + k)))
  }

  /** In the labelled rows every day keeps its label and every habit its streak, whatever
      the habits are called, a habit named "date" included. */
  lemma LabelledRowsKeepLabelAndStreaks(habits: seq<Habit>, year: int, month: int, k: nat, i: nat)
    requires 1 <= month <= 12 && k < DaysInMonth(year, month)
    requires i < |habits| && LastWithName(habits, i)
    ensures LabelledStreakRows(habits, year, month)[k].dayOfMonth == k + 1
    ensures habits[i].name in LabelledStreakRows(habits, year, month)[k].streaks
            && LabelledStreakRows(habits, year, month)[k].streaks[habits[i].name]
               == DoneRun(habits[i], MonthStart(year, month) + k)
  {
    StreakColumnsValue(habits, MonthStart(year, month) + k, i);
  }

  /** streakChartData: nothing without habits; otherwise one row per day of the selected
      month, each the flattened labelled row for that day. */
  method StreakChartData(habits: seq<Habit>, selected: CivilDate) returns (rows: seq<map<string, Cell>>)
    requires ValidDate(selected)
    ensures |habits| == 0 ==> rows == []
    ensures |habits| > 0 ==> |rows| == DaysInMonth(selected.year, selected.month)
    ensures forall k :: 0 <= k < |rows| ==>
              rows[k] == Flatten(LabelledStreakRows(habits, selected.year, selected.month)[k])
  {
    rows := [];
    if |habits| == 0 {
      return;
    }
    var monthStart := MonthStart(selected.year, selected.month);
    var days := DaysInMonth(selected.year, selected.month);
    var k := 0;
    while k < days
      invariant 0 <= k <= days
      invariant |rows| == k
      invariant forall m :: 0 <= m < k ==> rows[m] == Flatten(StreakRow(m + 1, StreakColumns(habits, monthStart + m)))
    {
      var dayData := StreakRowFor(habits, monthStart + k, k + 1);
      rows := rows + [dayData];
      k := k + 1;
    }
    ghost var labelled := LabelledStreakRows(habits, selected.year, selected.month);
    forall m | 0 <= m < |rows|
      ensures rows[m] == Flatten(labelled[m])
    {
      assert labelled[m] == StreakRow(m + 1, StreakColumns(habits, monthStart + m));
    }
  }

  /** A flattened row shows its day label exactly when no habit is named "date". */
  lemma FlattenedLabelShown(habits: seq<Habit>, year: int, month: int, k: nat)
    requires 1 <= month <= 12 && k < DaysInMonth(year, month)
    ensures Flatten(LabelledStreakRows(habits, year, month)[k])[DateKey] == DayLabel(k + 1)
            <==> forall i :: 0 <= i < |habits| ==> habits[i].name != DateKey
  {
    StreakColumnsNames(habits, MonthStart(year, month) + k, DateKey);
  }

  /** One habit named "date": every row's x-axis label is replaced by that habit's streak. */
  lemma DateNamedHabitHidesLabel(h: Habit, year: int, month: int, k: nat)
    requires h.name == DateKey
    requires 1 <= month <= 12 && k < DaysInMonth(year, month)
    ensures Flatten(LabelledStreakRows([h], year, month)[k])[DateKey]
            == Streak(DoneRun(h, MonthStart(year, month) + k))
  {
    assert [h][..0] == [];
  }

  /** Every entry of the matrix is bounded by the union streak ending that day, hence by
      the longest streak on the streak card. */
  lemma MatrixWithinLongest(habits: seq<Habit>, i: nat, d: Day)
    requires i < |habits|
    ensures DoneRun(habits[i], d) <= LongestRun(AllDates(habits))
  {
    DoneRunWithinUnion(habits, i, d);
    var dates := AllDates(habits);
    if RunBack(dates, d) > 0 {
      assert d in dates;
    }
  }
}
