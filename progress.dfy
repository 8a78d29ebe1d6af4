/** Today's progress card: completions recorded today against the day's combined target. */
module Progress {
  import opened Calendar
  import opened Habits

  /** Sum over `habits` of the count each recorded on `d` (a missing day counts 0). */
  function CompletedOn(habits: seq<Habit>, d: Day): (r: nat)
    ensures forall i :: 0 <= i < |habits| ==> Count(habits[i], d) <= r
  {
    if habits == [] then 0
    else
      var n := |habits| - 1;
      assert forall i :: 0 <= i < n ==> habits[..n][i] == habits[i];
      CompletedOn(habits[..n], d) + Count(habits[n], d)
  }

  /** Sum over `habits` of `targetCompletions || 1`. */
  function TargetSum(habits: seq<Habit>): (r: nat)
    ensures forall i :: 0 <= i < |habits| ==> Target(habits[i]) <= r
  {
    if habits == [] then 0
    else
      var n := |habits| - 1;
      assert forall i :: 0 <= i < n ==> habits[..n][i] == habits[i];
      TargetSum(habits[..n]) + Target(habits[n])
  }

  /** The `forEach` that accumulates today's completed count and today's target total
      over the habits scheduled today. */
  method TodayTotals(habits: seq<Habit>, today: Day) returns (completed: nat, total: nat)
    ensures completed == CompletedOn(HabitsForToday(habits), today)
    ensures total == TargetSum(HabitsForToday(habits))
  {
    var scheduled := HabitsForToday(habits);
    completed, total := 0, 0;
    var i := 0;
    while i < |scheduled|
      invariant 0 <= i <= |scheduled|
      invariant completed == CompletedOn(scheduled[..i], today)
      invariant total == TargetSum(scheduled[..i])
    {
      assert scheduled[..i + 1][..i] == scheduled[..i];
      completed := completed + Count(scheduled[i], today);
      total := total + Target(scheduled[i]);
      i := i + 1;
    }
    assert scheduled[..i] == scheduled;
  }

  /** Every habit contributes at least one to the target total. */
  lemma {:induction false} TargetSumAtLeastCount(habits: seq<Habit>)
    ensures TargetSum(habits) >= |habits|
  {
    if habits != [] {
      TargetSumAtLeastCount(habits[..|habits| - 1]);
    }
  }

  /** When no habit has gone past its target today, today's completions do not exceed the target total. */
  lemma {:induction false} CompletedWithinTarget(habits: seq<Habit>, d: Day)
    requires forall i :: 0 <= i < |habits| ==> Count(habits[i], d) <= Target(habits[i])
    ensures CompletedOn(habits, d) <= TargetSum(habits)
  {
    if habits != [] {
      CompletedWithinTarget(habits[..|habits| - 1], d);
    }
  }

  /** The filter never adds completions: today's total over the scheduled habits is at most the total over all. */
  lemma {:induction false} ScheduledCompletedAtMostAll(habits: seq<Habit>, d: Day)
    ensures CompletedOn(HabitsForToday(habits), d) <= CompletedOn(habits, d)
  {
    if habits != [] {
      var n := |habits| - 1;
      ScheduledCompletedAtMostAll(habits[..n], d);
      var kept := HabitsForToday(habits[..n]);
      if IsScheduledToday(habits[n]) {
        assert HabitsForToday(habits) == kept + [habits[n]];
        assert (kept + [habits[n]])[..|kept|] == kept;
      } else {
        assert HabitsForToday(habits) == kept;
      }
    }
  }

  /** completionPercentage: Math.round(completed / total * 100), or 0 when the total is 0.
      The result is the whole number nearest to 100 * completed / total, halves rounded up. */
  function Percentage(completed: nat, total: nat): (p: nat)
    ensures total == 0 ==> p == 0
    ensures total > 0 ==> 2 * total * p <= 200 * completed + total < 2 * total * (p + 1)
  {
    if total > 0 then (200 * completed + total) / (2 * total) else 0
  }

  /** With a positive factor, a strictly smaller product means a strictly smaller factor. */
  lemma CancelFactor(k: nat, a: nat, b: nat)
    requires k > 0 && k * a < k * b
    ensures a < b
  {
  }

  /** The percentage stays within 0..100 while completions do not exceed the target. */
  lemma PercentageAtMostHundred(completed: nat, total: nat)
    requires 0 < total && completed <= total
    ensures Percentage(completed, total) <= 100
  {
    var p := Percentage(completed, total);
    var k := 2 * total;
    assert k * p <= 200 * completed + total;
    assert 200 * completed <= 200 * total;
    assert k * p < k * 101;
    CancelFactor(k, p, 101);
  }

  /** Completions meeting the target total give exactly 100 percent. */
  lemma PercentageFull(total: nat)
    requires total > 0
    ensures Percentage(total, total) == 100
  {
    var p := Percentage(total, total);
    var k := 2 * total;
    assert k * p <= 200 * total + total < k * (p + 1);
    assert k * 99 < 200 * total + total < k * 101;
    CancelFactor(k, p, 101);
    CancelFactor(k, 99, p + 1);
  }
}
