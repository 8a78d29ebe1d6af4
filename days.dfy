/** Sets of calendar days: their earliest member, their sorted listing, and runs of
    consecutive days. These are the building blocks of the streak statistics. */
module Days {
  import opened Calendar

  /** A non-empty set of days has a member. */
  lemma HasMember(days: set<Day>)
    requires days != {}
    ensures exists d :: d in days
  {
    if forall d :: d !in days {
      assert false;
    }
  }

  /** Every non-empty finite set of days has an earliest member. */
  lemma {:induction false} HasEarliest(days: set<Day>)
    requires days != {}
    ensures exists e :: e in days && forall d :: d in days ==> e <= d
    decreases |days|
  {
    HasMember(days);
    var x :| x in days;
    var rest := days - {x};
    if rest == {} {
      forall d | d in days
        ensures x <= d
      {
        assert d == x || d in rest;
      }
    } else {
      HasEarliest(rest);
      var e :| e in rest && forall d :: d in rest ==> e <= d;
      var least := if x < e then x else e;
      forall d | d in days
        ensures least <= d
      {
        assert d == x || d in rest;
      }
      assert least in days;
    }
  }

  function Earliest(days: set<Day>): (e: Day)
    requires days != {}
    ensures e in days
    ensures forall d :: d in days ==> e <= d
  {
    HasEarliest(days);
    var e :| e in days && forall d :: d in days ==> e <= d;
    e
  }

  predicate StrictlyIncreasing(s: seq<Day>) {
    forall i, j :: 0 <= i < j < |s| ==> s[i] < s[j]
  }

  /** Array.from(days).sort(): the distinct days in ascending order. For `YYYY-MM-DD`
      keys the string order the source sorts by is the order of day numbers. */
  function SortedDays(days: set<Day>): (s: seq<Day>)
    ensures StrictlyIncreasing(s)
    ensures forall d :: d in s <==> d in days
    ensures |s| == |days|
    decreases |days|
  {
    if days == {} then []
    else
      var e := Earliest(days);
      [e] + SortedDays(days - {e})
  }

  /** Length of the run of consecutive days of `days` that ends at `d` (0 when d is absent). */
  function RunBack(days: set<Day>, d: Day): (n: nat)
    ensures forall x :: d - n < x <= d ==> x in days
    ensures d - n !in days
    decreases if d in days then d - Earliest(days) + 1 else 0
  {
    if d in days then
      1 + RunBack(days, d - 1)
    else 0
  }

  /** If the k days ending at d all belong to the set, the run ending at d is at least k long. */
  lemma {:induction false} RunBackAtLeast(days: set<Day>, d: Day, k: nat)
    requires forall x :: d - k < x <= d ==> x in days
    ensures RunBack(days, d) >= k
    decreases k
  {
    if k > 0 {
      RunBackAtLeast(days, d - 1, k - 1);
    }
  }

  /** The longest run of `days` ending at a day of `ends` (0 when `ends` is empty). */
  function MaxRun(days: set<Day>, ends: set<Day>): (n: nat)
    ensures forall d :: d in ends ==> RunBack(days, d) <= n
    ensures ends == {} ==> n == 0
    ensures ends != {} ==> exists d :: d in ends && RunBack(days, d) == n
    decreases |ends|
  {
    if ends == {} then 0
    else
      var e := Earliest(ends);
      var rest := MaxRun(days, ends - {e});
      if RunBack(days, e) > rest then RunBack(days, e) else rest
  }

  /** The longest run of consecutive days anywhere in `days`. */
  function LongestRun(days: set<Day>): (n: nat)
    ensures forall d :: d in days ==> RunBack(days, d) <= n
    ensures days != {} ==> exists d :: d in days && RunBack(days, d) == n
  {
    MaxRun(days, days)
  }

  /** A value that bounds every run and is reached by one is the longest run. */
  lemma LongestRunUnique(days: set<Day>, n: nat)
    requires days != {}
    requires forall d :: d in days ==> RunBack(days, d) <= n
    requires exists d :: d in days && RunBack(days, d) == n
    ensures LongestRun(days) == n
  {
    var d :| d in days && RunBack(days, d) == n;
    var d' :| d' in days && RunBack(days, d') == LongestRun(days);
  }

  /** The longest run is 0 exactly when there are no days. */
  lemma LongestRunZero(days: set<Day>)
    ensures LongestRun(days) == 0 <==> days == {}
  {
    if days != {} {
      HasMember(days);
      var d :| d in days;
      assert RunBack(days, d) >= 1;
    }
  }
}
