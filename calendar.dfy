/** Calendar arithmetic standing in for the JavaScript `Date` and date-fns calls of the
    dashboard: every calendar day is an integer day number (day 0 is 1970-01-01). */
module Calendar {

  /** A calendar day, counted from 1970-01-01. */
  type Day = int

  /** A proleptic Gregorian date, as picked in the dashboard's calendar widget. */
  datatype CivilDate = CivilDate(year: int, month: int, day: int)

  predicate IsLeapYear(year: int) {
    year % 4 == 0 && (year % 100 != 0 || year % 400 == 0)
  }

  function DaysInMonth(year: int, month: int): (n: nat)
    requires 1 <= month <= 12
    ensures 28 <= n <= 31
    ensures n == 29 <==> month == 2 && IsLeapYear(year)
  {
    if month == 2 then (if IsLeapYear(year) then 29 else 28)
    else if month == 4 || month == 6 || month == 9 || month == 11 then 30
    else 31
  }

  predicate ValidDate(date: CivilDate) {
    1 <= date.month <= 12 && 1 <= date.day <= DaysInMonth(date.year, date.month)
  }

  /** Days from the era origin (1 March of year 0) to 1 March of the March-based year `y`. */
  function MarchStart(y: int): int {
    var era := y / 400;
    var yearOfEra := y - era * 400;
    era * 146097 + yearOfEra * 365 + yearOfEra / 4 - yearOfEra / 100
  }

  /** Days from 1 March to the first day of the month `shiftedMonth` months later (0 is March, 11 is February). */
  function MonthOffset(shiftedMonth: int): int {
    (153 * shiftedMonth + 2) / 5
  }

  /** Number of the day `date` names (days-from-civil; Dafny's `/` on a positive divisor floors). */
  function DayNumber(date: CivilDate): (n: Day)
    ensures date == CivilDate(1970, 1, 1) ==> n == 0
  {
    var y := if date.month <= 2 then date.year - 1 else date.year;
    var shiftedMonth := if date.month > 2 then date.month - 3 else date.month + 9;
    MarchStart(y) + MonthOffset(shiftedMonth) + date.day - 1 - 719468
  }

  /** Position of `d` in its week, Monday = 0 through Sunday = 6. */
  function Weekday(d: Day): (w: nat)
    ensures w < 7
    ensures (d - w) % 7 == 4  // d is w days after a Monday; day 4, 1970-01-05, is one
  {
    (d + 3) % 7
  }

  /** startOfWeek(d, { weekStartsOn: 1 }): the Monday on or before `d`. */
  function WeekStart(d: Day): (m: Day)
    ensures m <= d < m + 7
    ensures Weekday(m) == 0
  {
    d - Weekday(d)
  }

  /** startOfMonth: the first day of the given month. */
  function MonthStart(year: int, month: int): (s: Day)
    requires 1 <= month <= 12
    ensures forall k :: DayNumber(CivilDate(year, month, k)) == s + k - 1
  {
    DayNumber(CivilDate(year, month, 1))
  }

  /** Short English weekday names, as date-fns formats them with 'EEE'. */
  const ShortDayNames: seq<string> := ["Mon", "Tue", "Wed", "Thu", "Fri", "Sat", "Sun"]

  /** 1970-01-01, day 0, was a Thursday. */
  lemma EpochIsThursday()
    ensures Weekday(DayNumber(CivilDate(1970, 1, 1))) == 3
  {
  }

  /** The i-th day after a Monday falls on weekday i. */
  lemma WeekdayAfterMonday(monday: Day, i: nat)
    requires Weekday(monday) == 0 && i < 7
    ensures Weekday(monday + i) == i
  {
  }

  /** Euclidean division is unique: a quotient and a remainder in range are `/` and `%`. */
  lemma DivModUnique(a: int, m: int, quotient: int, remainder: int)
    requires 0 < m && a == m * quotient + remainder && 0 <= remainder < m
    ensures a / m == quotient && a % m == remainder
  {
    var d := a / m - quotient;
    assert m * d == remainder - a % m by {
      assert m * (a / m) + a % m == a;
      assert m * d == m * (a / m) - m * quotient;
    }
    if d > 0 {
      AtLeastDivisor(m, d);
    } else if d < 0 {
      AtLeastDivisor(m, -d);
    }
  }

  lemma {:induction false} AtLeastDivisor(m: int, d: int)
    requires 0 < m && 0 < d
    ensures m * d >= m
    decreases d
  {
    if d > 1 {
      AtLeastDivisor(m, d - 1);
      assert m * d == m * (d - 1) + m;
    }
  }

  /** Moving forward by one crosses a multiple of `m` exactly when the new value is one. */
  lemma DivStep(x: int, m: int)
    requires 0 < m
    ensures (x + 1) / m - x / m == if (x + 1) % m == 0 then 1 else 0
  {
    var k := (x + 1) / m;
    var r := (x + 1) % m;
    if r == 0 {
      DivModUnique(x, m, k - 1, m - 1);
    } else {
      DivModUnique(x, m, k, r - 1);
    }
  }

  /** From 1 March of one year to 1 March of the next there are 365 days, 366 when the
      February in between is a leap February. */
  lemma MarchToMarch(y: int)
    ensures MarchStart(y + 1) - MarchStart(y) == if IsLeapYear(y + 1) then 366 else 365
  {
    var era := y / 400;
    var q := y - era * 400;
    if q == 399 {
      DivModUnique(y + 1, 400, era + 1, 0);
      DivModUnique(y + 1, 4, 100 * (era + 1), 0);
    } else {
      DivModUnique(y + 1, 400, era, q + 1);
      DivModUnique(y + 1, 4, 100 * era + (q + 1) / 4, (q + 1) % 4);
      DivModUnique(y + 1, 100, 4 * era + (q + 1) / 100, (q + 1) % 100);
      DivStep(q, 4);
      DivStep(q, 100);
    }
  }

  /** A month that is not February is 30 or 31 days after the month before it, counting from March. */
  lemma MonthStep(shiftedMonth: int)
    requires 0 <= shiftedMonth < 11
    ensures MonthOffset(shiftedMonth + 1) - MonthOffset(shiftedMonth)
            == if shiftedMonth in {1, 3, 6, 8} then 30 else 31
  {
  }

  /** The day after the last day of a month is the first day of the next month, so the
      days MonthStart(y, m) + k for k < DaysInMonth(y, m) are exactly the days of that month. */
  lemma MonthsAreContiguous(year: int, month: int)
    requires 1 <= month <= 12
    ensures MonthStart(year, month) + DaysInMonth(year, month)
            == if month == 12 then MonthStart(year + 1, 1) else MonthStart(year, month + 1)
  {
    if month == 2 {
      MarchToMarch(year - 1);
      assert MonthOffset(11) == 337 && MonthOffset(0) == 0;
    } else {
      MonthStep(if month > 2 then month - 3 else month + 9);
    }
  }
}
