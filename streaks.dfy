/** The union-based streak card: the current streak counted back from the clock's day,
    and the longest run of consecutive days in the union of all habits' ledgers. */
module Streaks {
  import opened Calendar
  import opened Days
  import opened Habits

  /** new Set(habits.flatMap(h => Object.keys(h.completions))): every day some habit's
      ledger holds, whatever count it records. */
  function AllDates(habits: seq<Habit>): (r: set<Day>)
    ensures forall d :: d in r <==> exists i :: 0 <= i < |habits| && d in habits[i].completions
  {
    if habits == [] then {}
    else
      var n := |habits| - 1;
      var earlier := AllDates(habits[..n]);
      assert forall i :: 0 <= i < n ==> habits[..n][i] == habits[i];
      earlier + habits[n].completions.Keys
  }

  /** The current streak: walk back from `now` (from the day before when `now` is absent)
      while each day is in the union. */
  function CurrentStreak(dates: set<Day>, now: Day): (n: nat)
    ensures now !in dates && now - 1 !in dates <==> n == 0
    ensures now in dates ==> forall x :: now - n < x <= now ==> x in dates
    ensures now !in dates ==> forall x :: now - 1 - n < x < now ==> x in dates
  {
    RunBack(dates, if now in dates then now else now - 1)
  }

  /** The current-streak loop: step back one day when `now` is absent, then count the
      consecutive days present in `dates`. */
  method WalkBackStreak(dates: set<Day>, now: Day) returns (current: nat)
    ensures current == CurrentStreak(dates, now)
  {
    var tempCurrentStreak := 0;
    var checkDate := now;
    if checkDate !in dates {
      checkDate := checkDate - 1;
    }
    ghost var start := checkDate;
    while checkDate in dates
      invariant checkDate == start - tempCurrentStreak
      invariant RunBack(dates, start) == tempCurrentStreak + RunBack(dates, checkDate)
      decreases if checkDate in dates then checkDate - Earliest(dates) + 1 else 0
    {
      tempCurrentStreak := tempCurrentStreak + 1;
      checkDate := checkDate - 1;
    }
    current := tempCurrentStreak;
  }

  /** The longest-streak scan over the sorted distinct dates: the running streak grows by
      one when a date is exactly one day after the previous one and restarts at 1 otherwise;
      the longest value seen is kept. */
  method ScanLongestStreak(dates: set<Day>) returns (longest: nat)
    ensures longest == LongestRun(dates)
  {
    var sortedDates := SortedDays(dates);
    longest := 0;
    var streak := 0;
    var lastDate: Option<Day> := None;
    var i := 0;
    ghost var best := 0;
    while i < |sortedDates|
      invariant 0 <= i <= |sortedDates|
      invariant i == 0 <==> lastDate.None?
      invariant i > 0 ==> lastDate == Some(sortedDates[i - 1])
      invariant i > 0 ==> streak == RunBack(dates, sortedDates[i - 1])
      invariant forall j {:trigger RunBack(dates, sortedDates[j])} :: 0 <= j < i ==> RunBack(dates, sortedDates[j]) <= longest
      invariant i == 0 ==> longest == 0
      invariant i > 0 ==> best < i && RunBack(dates, sortedDates[best]) == longest
    {
      var currentDate := sortedDates[i];
      if lastDate.Some? && currentDate - lastDate.value == 1 {
        streak := streak + 1;
      } else {
        streak := 1;
      }
      RunBackAlongSorted(dates, i);
      assert streak == RunBack(dates, currentDate);
      ghost var previous := longest;
      if streak > longest {
        longest := streak;
        best := i;
      }
      assert previous <= longest;
      forall j | 0 <= j < i + 1
        ensures RunBack(dates, sortedDates[j]) <= longest
      {
        if j < i {
          assert RunBack(dates, sortedDates[j]) <= previous;
        }
      }
      lastDate := Some(currentDate);
      i := i + 1;
    }
    LongestFromScan(dates, longest, best);
  }

  /** A bound on the runs ending at every sorted date that one of them reaches is the longest run. */
  lemma LongestFromScan(dates: set<Day>, longest: nat, best: nat)
    requires forall j :: 0 <= j < |SortedDays(dates)| ==> RunBack(dates, SortedDays(dates)[j]) <= longest
    requires |SortedDays(dates)| == 0 ==> longest == 0
    requires |SortedDays(dates)| > 0 ==> best < |SortedDays(dates)| && RunBack(dates, SortedDays(dates)[best]) == longest
    ensures longest == LongestRun(dates)
  {
    var sortedDates := SortedDays(dates);
    forall d | d in dates
      ensures RunBack(dates, d) <= longest
    {
      assert d in sortedDates;
    }
    if |sortedDates| > 0 {
      assert sortedDates[best] in dates;
      LongestRunUnique(dates, longest);
    } else {
      NoDays(dates);
      LongestRunZero(dates);
    }
  }

  /** Along the sorted dates, the run ending at a date is one more than the run ending at
      the previous date when the two are consecutive days, and 1 otherwise. */
  lemma RunBackAlongSorted(dates: set<Day>, i: nat)
    requires i < |SortedDays(dates)|
    ensures var s := SortedDays(dates);
            RunBack(dates, s[i]) == if i > 0 && s[i] - s[i - 1] == 1 then RunBack(dates, s[i - 1]) + 1 else 1
  {
    var s := SortedDays(dates);
    assert s[i] in dates;
    if !(i > 0 && s[i] - s[i - 1] == 1) {
      YesterdayAbsent(dates, i);
    }
  }

  /** A sorted date not exactly one day after its predecessor has no recorded day before it. */
  lemma YesterdayAbsent(dates: set<Day>, i: nat)
    requires i < |SortedDays(dates)|
    requires !(i > 0 && SortedDays(dates)[i] - SortedDays(dates)[i - 1] == 1)
    ensures SortedDays(dates)[i] - 1 !in dates
  {
    var s := SortedDays(dates);
    forall j | 0 <= j < |s|
      ensures s[j] != s[i] - 1
    {
      if j + 1 < i {
        assert s[j] < s[i - 1] < s[i];
      } else if i < j {
        assert s[i] < s[j];
      }
    }
    assert s[i] - 1 !in s;
  }

  /** A set of days whose sorted listing is empty is empty. */
  lemma NoDays(dates: set<Day>)
    requires SortedDays(dates) == []
    ensures dates == {}
  {
    forall d | d in dates
      ensures d in SortedDays(dates)
    {
    }
    assert dates == {};
  }

  /** The `streaks` computation: both streaks are 0 unless there are habits and recorded
      dates; otherwise the walk back and the scan give them. */
  method Streaks(habits: seq<Habit>, now: Day) returns (current: nat, longest: nat)
    ensures current == CurrentStreak(AllDates(habits), now)
    ensures longest == LongestRun(AllDates(habits))
  {
    longest, current := 0, 0;
    var dates := AllDates(habits);
    if |habits| > 0 {
      var sortedDates := SortedDays(dates);
      if |sortedDates| > 0 {
        current := WalkBackStreak(dates, now);
        longest := ScanLongestStreak(dates);
        return;
      }
      NoDays(dates);
    }
    LongestRunZero(dates);
  }

  /** The longest streak is never shorter than the current one. */
  lemma LongestAtLeastCurrent(dates: set<Day>, now: Day)
    ensures LongestRun(dates) >= CurrentStreak(dates, now)
  {
    var start := if now in dates then now else now - 1;
    if RunBack(dates, start) > 0 {
      assert start in dates;
    }
  }

  /** With no recorded day at all, both streaks are 0; with some recorded day, the longest is positive. */
  lemma NoDatesNoStreaks(habits: seq<Habit>, now: Day)
    ensures (forall i :: 0 <= i < |habits| ==> habits[i].completions == map[]) ==>
              CurrentStreak(AllDates(habits), now) == 0 && LongestRun(AllDates(habits)) == 0
    ensures (exists i :: 0 <= i < |habits| && habits[i].completions != map[]) ==>
              LongestRun(AllDates(habits)) > 0
  {
    var dates := AllDates(habits);
    LongestRunZero(dates);
    if exists i :: 0 <= i < |habits| && habits[i].completions != map[] {
      var i :| 0 <= i < |habits| && habits[i].completions != map[];
      HasMember(habits[i].completions.Keys);
      var d :| d in habits[i].completions.Keys;
      assert d in dates;
    } else {
      AllDatesEmpty(habits);
    }
  }

  /** With every ledger empty, the union of dates is empty. */
  lemma {:induction false} AllDatesEmpty(habits: seq<Habit>)
    requires forall i :: 0 <= i < |habits| ==> habits[i].completions == map[]
    ensures AllDates(habits) == {}
  {
    if habits != [] {
      var n := |habits| - 1;
      AllDatesEmpty(habits[..n]);
      assert habits[n].completions.Keys == {};
    }
  }

  /** If today and the k - 1 days before it are all recorded, the current streak is at least k. */
  lemma CurrentStreakCoversRecentDays(dates: set<Day>, now: Day, k: nat)
    requires k > 0
    requires forall x :: now - k < x <= now ==> x in dates
    ensures CurrentStreak(dates, now) >= k
  {
    assert now in dates;
    RunBackAtLeast(dates, now, k);
  }

  lemma AllDatesOfOne(h: Habit)
    ensures AllDates([h]) == h.completions.Keys
  {
    assert [h][..0] == [];
  }

  lemma AllDatesOfTwo(a: Habit, b: Habit)
    ensures AllDates([a, b]) == a.completions.Keys + b.completions.Keys
  {
    assert [a, b][..1] == [a];
    AllDatesOfOne(a);
  }

  /** One habit completed on four consecutive days ending today: both streaks are 4. */
  lemma FourDayScenario(h: Habit, t: Day)
    requires h.completions == map[t - 3 := 1, t - 2 := 1, t - 1 := 1, t := 1]
    ensures CurrentStreak(AllDates([h]), t) == 4
    ensures LongestRun(AllDates([h])) == 4
  {
    var dates := AllDates([h]);
    AllDatesOfOne(h);
    assert RunBack(dates, t - 4) == 0;
    assert RunBack(dates, t - 3) == 1;
    assert RunBack(dates, t - 2) == 2;
    assert RunBack(dates, t - 1) == 3;
    assert RunBack(dates, t) == 4;
    LongestRunUnique(dates, 4);
  }

  /** The same habit with the day before today missing: current streak 1, longest 2. */
  lemma GapScenario(h: Habit, t: Day)
    requires h.completions == map[t - 3 := 1, t - 2 := 1, t := 1]
    ensures CurrentStreak(AllDates([h]), t) == 1
    ensures LongestRun(AllDates([h])) == 2
  {
    var dates := AllDates([h]);
    AllDatesOfOne(h);
    assert RunBack(dates, t - 4) == 0;
    assert RunBack(dates, t - 3) == 1;
    assert RunBack(dates, t - 2) == 2;
    assert RunBack(dates, t - 1) == 0;
    assert RunBack(dates, t) == 1;
    LongestRunUnique(dates, 2);
  }

  /** Two habits whose days only join up in the union: a on t - 2, b on t - 1 and t.
      The union streak runs over all three days, although no single habit does. */
  lemma UnionScenario(a: Habit, b: Habit, t: Day)
    requires a.completions == map[t - 2 := 1]
    requires b.completions == map[t - 1 := 1, t := 1]
    ensures CurrentStreak(AllDates([a, b]), t) == 3
    ensures LongestRun(AllDates([a, b])) == 3
  {
    var dates := AllDates([a, b]);
    AllDatesOfTwo(a, b);
    assert RunBack(dates, t - 3) == 0;
    assert RunBack(dates, t - 2) == 1;
    assert RunBack(dates, t - 1) == 2;
    assert RunBack(dates, t) == 3;
    LongestRunUnique(dates, 3);
  }
}
