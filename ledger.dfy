/** Recording completions: the ledger write behind the dashboard's +/- buttons, the
    clamping of the new count, and the all-time completion total. */
module Ledger {
  import opened Calendar
  import opened Days
  import opened Habits

  /** The ledger `updateHabitCompletion` writes: `today` set to `count` when the count is
      positive, removed otherwise, every other day as before. */
  function UpdatedCompletions(completions: map<Day, nat>, today: Day, count: int): (r: map<Day, nat>)
    ensures today in r <==> count > 0
    ensures count > 0 ==> r[today] == count
    ensures forall d :: d != today ==> (d in r <==> d in completions)
    ensures forall d :: d != today && d in r ==> r[d] == completions[d]
  {
    if count > 0 then completions[today := count] else completions - {today}
  }

  /** updateHabitCompletion: find the habit, copy its ledger, set or delete today's entry.
      The result is the ledger handed to the store, or None when nothing is written
      (no signed-in user, or no habit with that id). */
  method UpdateHabitCompletion(habits: seq<Habit>, signedIn: bool, today: Day, habitId: string, count: int)
    returns (write: Option<map<Day, nat>>)
    ensures write.None? <==> !signedIn || forall i :: 0 <= i < |habits| ==> habits[i].id != habitId
    ensures write.Some? ==> FindHabit(habits, habitId).Some?
                            && write.value == UpdatedCompletions(FindHabit(habits, habitId).value.completions, today, count)
  {
    var habit := FindHabit(habits, habitId);
    if habit.None? || !signedIn {
      return None;
    }
    var newCompletions := habit.value.completions;
    if count > 0 {
      newCompletions := newCompletions[today := count];
    } else {
      newCompletions := newCompletions - {today};
    }
    write := Some(newCompletions);
  }

  /** The count the minus button asks for: Math.max(0, count - 1). */
  function Decremented(count: nat): (r: nat)
    ensures r <= count
    ensures count > 0 ==> r + 1 == count
  {
    if count > 0 then count - 1 else 0
  }

  /** The count the plus button asks for: Math.min(target, count + 1). */
  function Incremented(count: nat, target: nat): (r: nat)
    ensures r <= target
    ensures count < target ==> r == count + 1
    ensures count >= target ==> r == target
  {
    if count + 1 < target then count + 1 else target
  }

  /** The minus button is disabled while today's count is 0. */
  predicate MinusEnabled(h: Habit, today: Day)
    ensures MinusEnabled(h, today) <==> Decremented(Count(h, today)) < Count(h, today)
  {
    Count(h, today) != 0
  }

  /** The plus button is disabled once the habit is done today. */
  predicate PlusEnabled(h: Habit, today: Day)
    ensures PlusEnabled(h, today) <==> Incremented(Count(h, today), Target(h)) > Count(h, today)
  {
    !IsDone(h, today)
  }

  /** The ledger written by the minus button: `updateHabitCompletion(id, Math.max(0, count - 1))`. */
  function PressMinus(h: Habit, today: Day): (r: map<Day, nat>)
    ensures today in r ==> r[today] + 1 == Count(h, today)
    ensures today !in r <==> Count(h, today) <= 1
  {
    UpdatedCompletions(h.completions, today, Decremented(Count(h, today)))
  }

  /** The ledger written by the plus button: `updateHabitCompletion(id, Math.min(target, count + 1))`. */
  function PressPlus(h: Habit, today: Day): (r: map<Day, nat>)
    ensures today in r && 1 <= r[today] <= Target(h)
    ensures Count(h, today) < Target(h) ==> r[today] == Count(h, today) + 1
  {
    UpdatedCompletions(h.completions, today, Incremented(Count(h, today), Target(h)))
  }

  /** A count in [0, target] stays there after either button. */
  lemma ButtonsKeepCountInRange(h: Habit, today: Day)
    requires Count(h, today) <= Target(h)
    ensures Count(h.(completions := PressPlus(h, today)), today) <= Target(h)
    ensures Count(h.(completions := PressMinus(h, today)), today) <= Target(h)
  {
  }

  /** An enabled plus button adds exactly one completion today and touches no other day. */
  lemma PlusAddsOne(h: Habit, today: Day)
    requires PlusEnabled(h, today)
    ensures Count(h.(completions := PressPlus(h, today)), today) == Count(h, today) + 1
    ensures forall d :: d != today ==> Count(h.(completions := PressPlus(h, today)), d) == Count(h, d)
  {
  }

  /** An enabled minus button removes exactly one completion today and touches no other day. */
  lemma MinusRemovesOne(h: Habit, today: Day)
    requires MinusEnabled(h, today)
    ensures Count(h.(completions := PressMinus(h, today)), today) + 1 == Count(h, today)
    ensures forall d :: d != today ==> Count(h.(completions := PressMinus(h, today)), d) == Count(h, d)
  {
  }

  /** Pressing plus when today's count already equals the target leaves the ledger as it was. */
  lemma PlusAtTargetIsNoOp(h: Habit, today: Day)
    requires Count(h, today) == Target(h)
    ensures PressPlus(h, today) == h.completions
  {
    var r := PressPlus(h, today);
    assert today in h.completions;
    forall d | d in r ensures d in h.completions && r[d] == h.completions[d] {
    }
    forall d | d in h.completions ensures d in r {
    }
  }

  /** Plus followed by minus restores the ledger, provided the ledger does not hold an
      explicit zero for today (the dashboard itself never stores one). */
  lemma PlusThenMinusRestores(h: Habit, today: Day)
    requires PlusEnabled(h, today)
    requires today in h.completions ==> h.completions[today] > 0
    ensures PressMinus(h.(completions := PressPlus(h, today)), today) == h.completions
  {
    var h' := h.(completions := PressPlus(h, today));
    var r := PressMinus(h', today);
    assert Count(h', today) == Count(h, today) + 1;
    forall d | d in r ensures d in h.completions && r[d] == h.completions[d] {
    }
    forall d | d in h.completions ensures d in r {
    }
  }

  /** Sum of every count in a ledger: Object.values(completions).reduce((a, b) => a + b, 0). */
  function LedgerTotal(completions: map<Day, nat>): (t: nat)
    ensures t == 0 <==> forall d :: d in completions ==> completions[d] == 0
    decreases |completions|
  {
    if completions == map[] then 0
    else
      var e := Earliest(completions.Keys);
      var rest := completions - {e};
      assert forall d :: d in completions <==> d == e || d in rest;
      completions[e] + LedgerTotal(rest)
  }

  /** A ledger's total splits off any one of its days, whichever is taken out. */
  lemma {:induction false} LedgerTotalWithout(completions: map<Day, nat>, d: Day)
    requires d in completions
    ensures LedgerTotal(completions) == completions[d] + LedgerTotal(completions - {d})
    decreases |completions|
  {
    assert completions.Keys != {} by { assert d in completions.Keys; }
    assert completions != map[] by { assert d in completions; }
    var e := Earliest(completions.Keys);
    if e != d {
      var rest := completions - {e};
      assert d in rest;
      LedgerTotalWithout(rest, d);
      var without := completions - {d};
      assert e in without;
      assert without != map[];
      forall x | x in without.Keys ensures e <= x {
        assert x in completions.Keys;
      }
      assert Earliest(without.Keys) == e;
      assert rest - {d} == without - {e};
    }
  }

  /** Writing `count` for `today` moves the ledger total by exactly the change in today's count. */
  lemma UpdatedTotal(completions: map<Day, nat>, today: Day, count: int)
    ensures LedgerTotal(UpdatedCompletions(completions, today, count))
              + (if today in completions then completions[today] else 0)
            == LedgerTotal(completions) + (if count > 0 then count else 0)
  {
    var r := UpdatedCompletions(completions, today, count);
    var base := completions - {today};
    if today in completions {
      LedgerTotalWithout(completions, today);
    } else {
      assert base == completions;
    }
    if count > 0 {
      LedgerTotalWithout(r, today);
      assert r - {today} == base;
    } else {
      assert r == base;
    }
  }

  /** A ledger's total is at least the count of any one day. */
  lemma LedgerTotalCoversDay(completions: map<Day, nat>, d: Day)
    ensures LedgerTotal(completions) >= (if d in completions then completions[d] else 0)
  {
    if d in completions {
      LedgerTotalWithout(completions, d);
    }
  }

  /** The "Completed Habits / All time" figure: the sum of every habit's ledger total. */
  function AllTimeTotal(habits: seq<Habit>): (t: nat)
    ensures forall i :: 0 <= i < |habits| ==> LedgerTotal(habits[i].completions) <= t
  {
    if habits == [] then 0
    else
      var n := |habits| - 1;
      assert forall i :: 0 <= i < n ==> habits[..n][i] == habits[i];
      AllTimeTotal(habits[..n]) + LedgerTotal(habits[n].completions)
  }

  /** Writing a habit's updated ledger back moves the all-time total by the change in its count today. */
  lemma {:induction false} AllTimeTotalAfterUpdate(habits: seq<Habit>, i: nat, today: Day, count: int)
    requires i < |habits|
    ensures AllTimeTotal(habits[i := habits[i].(completions := UpdatedCompletions(habits[i].completions, today, count))])
              + Count(habits[i], today)
            == AllTimeTotal(habits) + (if count > 0 then count else 0)
  {
    var updated := habits[i := habits[i].(completions := UpdatedCompletions(habits[i].completions, today, count))];
    var n := |habits| - 1;
    assert updated[..n] == if i == n then habits[..n] else habits[..n][i := updated[i]];
    if i == n {
      UpdatedTotal(habits[i].completions, today, count);
    } else {
      AllTimeTotalAfterUpdate(habits[..n], i, today, count);
    }
  }
}
