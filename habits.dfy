/** The habit records the dashboard reads, and the per-day questions it asks of them. */
module Habits {
  import opened Calendar

  datatype Option<T> = None | Some(value: T)

  /** How often a habit is meant to be done. Firestore does not validate the stored
      string, so a value other than the three known ones is kept as `Unrecognised`. */
  datatype Frequency = Daily | Weekly | Monthly | Unrecognised(raw: string)

  /** A habit as the dashboard uses it: `completions` is the ledger from day to the
      number of completions recorded that day (an absent ledger is the empty map). */
  datatype Habit = Habit(
    id: string,
    name: string,
    frequency: Frequency,
    completions: map<Day, nat>,
    targetCompletions: Option<nat>)

  /** `habit.targetCompletions || 1`: an absent or zero target means one completion a day. */
  function Target(h: Habit): (t: nat)
    ensures t >= 1
    ensures h.targetCompletions.Some? && h.targetCompletions.value > 0 ==> t == h.targetCompletions.value
    ensures h.targetCompletions == None || h.targetCompletions == Some(0) ==> t == 1
  {
    match h.targetCompletions
    case Some(t) => if t > 0 then t else 1
    case None => 1
  }

  /** getCompletionCount: the count recorded on `d`, with a missing day counting 0. */
  function Count(h: Habit, d: Day): (n: nat)
    ensures d in h.completions ==> n == h.completions[d]
    ensures d !in h.completions ==> n == 0
  {
    if d in h.completions then h.completions[d] else 0
  }

  /** A habit is done on `d` when its count there reaches its target. */
  predicate IsDone(h: Habit, d: Day)
    ensures IsDone(h, d) ==> Count(h, d) >= 1
    ensures h.targetCompletions.None? ==> (IsDone(h, d) <==> Count(h, d) >= 1)
  {
    Count(h, d) >= Target(h)
  }

  /** A habit is done on a day only if its ledger holds that day. */
  lemma DoneHasKey(h: Habit, d: Day)
    requires IsDone(h, d)
    ensures d in h.completions && h.completions[d] >= 1
  {
  }

  /** The target-3 case: two completions are not enough, three are. */
  lemma TargetThreeExample(h: Habit, d: Day)
    requires h.targetCompletions == Some(3)
    ensures d in h.completions && h.completions[d] == 2 ==> !IsDone(h, d)
    ensures d in h.completions && h.completions[d] == 3 ==> IsDone(h, d)
    ensures d !in h.completions ==> !IsDone(h, d)
  {
  }

  /** The `habitsForToday` filter keeps a habit whose frequency is daily, weekly or monthly. */
  predicate IsScheduledToday(h: Habit)
    ensures IsScheduledToday(h) <==> !h.frequency.Unrecognised?
  {
    if h.frequency == Daily then true
    else if h.frequency == Weekly then true
    else if h.frequency == Monthly then true
    else false
  }

  predicate AllRecognised(habits: seq<Habit>) {
    forall i :: 0 <= i < |habits| ==> !habits[i].frequency.Unrecognised?
  }

  /** habitsForToday: the habits the filter keeps, in their original order. */
  function HabitsForToday(habits: seq<Habit>): (r: seq<Habit>)
    ensures |r| <= |habits|
    ensures forall h :: h in r <==> h in habits && IsScheduledToday(h)
    ensures AllRecognised(habits) ==> r == habits
  {
    if habits == [] then []
    else
      var n := |habits| - 1;
      var kept := HabitsForToday(habits[..n]);
      assert forall h :: h in habits <==> h in habits[..n] || h == habits[n];
      assert AllRecognised(habits) ==> AllRecognised(habits[..n]);
      assert habits == habits[..n] + [habits[n]];
      if IsScheduledToday(habits[n]) then kept + [habits[n]] else kept
  }

  /** habits.find(h => h.id === id): the first habit carrying `id`, if any. */
  function FindHabit(habits: seq<Habit>, id: string): (r: Option<Habit>)
    ensures r.None? <==> forall i :: 0 <= i < |habits| ==> habits[i].id != id
    ensures r.Some? ==> exists i :: 0 <= i < |habits| && habits[i] == r.value && habits[i].id == id
                          && forall j :: 0 <= j < i ==> habits[j].id != id
  {
    if habits == [] then None
    else if habits[0].id == id then Some(habits[0])
    else
      var r := FindHabit(habits[1..], id);
      assert forall i :: 1 <= i < |habits| ==> habits[i] == habits[1..][i - 1];
      if r.Some? then
        var i :| 0 <= i < |habits[1..]| && habits[1..][i] == r.value && habits[1..][i].id == id
                  && forall j :: 0 <= j < i ==> habits[1..][j].id != id;
        assert habits[i + 1] == r.value && forall j :: 0 <= j < i + 1 ==> habits[j].id != id;
        r
      else r
  }
}
