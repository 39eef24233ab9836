/** Dates of the proleptic Gregorian calendar, one day at a time, and the numbers that order them. */
module Calendar {

  datatype Date = Date(year: int, month: int, day: int)

  /** The cumulative table `monthjday` of a common year. */
  function MonthJDay(i: int): (n: int)
    requires 0 <= i <= 12
    ensures 0 <= n <= 365
  {
    if i == 0 then 0 else if i == 1 then 31 else if i == 2 then 59 else if i == 3 then 90
    else if i == 4 then 120 else if i == 5 then 151 else if i == 6 then 181 else if i == 7 then 212
    else if i == 8 then 243 else if i == 9 then 273 else if i == 10 then 304 else if i == 11 then 334
    else 365
  }

  function Leap(year: int): (n: int)
    ensures n == 1 <==> year % 4 == 0 && (year % 100 != 0 || year % 400 == 0)
    ensures n == 0 || n == 1
  {
    if year % 4 != 0 then 0
    else if year % 100 != 0 then 1
    else if year % 400 == 0 then 1 else 0
  }

  /** Thirty days hath September: the lengths of the months, as people know them. */
  function DaysInMonth(year: int, month: int): (n: int)
    ensures 28 <= n <= 31
  {
    if month == 2 then 28 + Leap(year)
    else if month in {4, 6, 9, 11} then 30
    else 31
  }

  /** The table knows how many days come before this month, which may be one after December. The day may be too large
      or too small for it. */
  predicate InTable(d: Date) {
    1 <= d.month <= 13
  }

  ghost predicate Valid(d: Date) {
    1 <= d.month <= 12 && 1 <= d.day <= DaysInMonth(d.year, d.month)
  }

  function NextDay(d: Date): (r: Date)
    requires Valid(d)
    ensures Valid(r)
  {
    if d.day < DaysInMonth(d.year, d.month) then Date(d.year, d.month, d.day + 1)
    else if d.month < 12 then Date(d.year, d.month + 1, 1)
    else Date(d.year + 1, 1, 1)
  }

  function PreviousDay(d: Date): (r: Date)
    requires Valid(d)
    ensures Valid(r) && NextDay(r) == d
  {
    if d.day > 1 then Date(d.year, d.month, d.day - 1)
    else if d.month > 1 then Date(d.year, d.month - 1, DaysInMonth(d.year, d.month - 1))
    else Date(d.year - 1, 12, 31)
  }

  /** `k` days on, or `-k` days back, counted one at a time. */
  function StepDays(d: Date, k: int): (r: Date)
    requires Valid(d)
    ensures Valid(r)
    decreases if k < 0 then -k else k
  {
    if k > 0 then NextDay(StepDays(d, k - 1))
    else if k < 0 then PreviousDay(StepDays(d, k + 1))
    else d
  }

  /** The first of the month; the month after December is January. */
  function FirstOfMonth(d: Date): (r: Date)
    requires InTable(d)
    ensures Valid(r)
  {
    if d.month == 13 then Date(d.year + 1, 1, 1) else Date(d.year, d.month, 1)
  }

  /** `k` days on from the first of the month and the days from there; 31 April is 1 May. */
  function DaysOn(d: Date, k: int): (r: Date)
    requires InTable(d)
    ensures Valid(r)
  {
    StepDays(FirstOfMonth(d), d.day - 1 + k)
  }

  /** Days before 1 January of `year`, in closed form. */
  function YearStart(year: int): int {
    365 * year + (year - 1) / 4 - (year - 1) / 100 + (year - 1) / 400
  }

  /** Days of `year` before the first of `month`. */
  function MonthStart(year: int, month: int): int
    requires 1 <= month <= 13
  {
    MonthJDay(month - 1) + if month > 2 then Leap(year) else 0
  }

  lemma MonthLength(year: int, month: int)
    requires 1 <= month <= 12
    ensures MonthStart(year, month + 1) == MonthStart(year, month) + DaysInMonth(year, month)
  {
  }

  /** The table by the rule of five months: 153 days from March to July, and from August to December. */
  lemma MonthsByRule(year: int, month: int)
    requires 3 <= month <= 13
    ensures MonthStart(year, month) == 59 + Leap(year) + (153 * (month - 3) + 2) / 5
    ensures MonthStart(year, 1) == 0 && MonthStart(year, 2) == 31
  {
  }

  lemma {:induction false} LaterMonth(year: int, a: int, b: int)
    requires 1 <= a <= b <= 13
    ensures MonthStart(year, a) <= MonthStart(year, b)
    decreases b - a
  {
    if a < b {
      MonthLength(year, a);
      LaterMonth(year, a + 1, b);
    }
  }

  function DayOfYear(d: Date): (n: int)
    requires InTable(d)
  {
    d.day + MonthStart(d.year, d.month)
  }

  ghost function DayNumber(d: Date): int
    requires InTable(d)
  {
    YearStart(d.year) + DayOfYear(d)
  }

  lemma YearLength(year: int)
    ensures YearStart(year + 1) == YearStart(year) + 365 + Leap(year)
  {
    LeapSteps(year);
    Multiples(year);
  }

  lemma Multiples(year: int)
    ensures year % 100 == 0 ==> year % 4 == 0
    ensures year % 400 == 0 ==> year % 100 == 0
  {
    MultipleOfFour(year, year / 100);
    MultipleOfHundred(year, year / 400);
  }

  lemma MultipleOfFour(year: int, q: int)
    ensures year == 100 * q ==> year % 4 == 0
  {
    assert 100 * q == 4 * (25 * q);
  }

  lemma MultipleOfHundred(year: int, q: int)
    ensures year == 400 * q ==> year % 100 == 0
  {
    assert 400 * q == 100 * (4 * q);
  }

  lemma LeapSteps(y: int)
    ensures y / 4 == (y - 1) / 4 + if y % 4 == 0 then 1 else 0
    ensures y / 100 == (y - 1) / 100 + if y % 100 == 0 then 1 else 0
    ensures y / 400 == (y - 1) / 400 + if y % 400 == 0 then 1 else 0
  {
  }

  lemma DayOfYearRange(d: Date)
    requires Valid(d)
    ensures 1 <= DayOfYear(d) <= 365 + Leap(d.year)
  {
    LaterMonth(d.year, 1, d.month);
    MonthLength(d.year, d.month);
    LaterMonth(d.year, d.month + 1, 13);
  }

  lemma EarlierMonth(a: Date, b: Date)
    requires Valid(a) && Valid(b) && a.year == b.year && a.month < b.month
    ensures DayOfYear(a) < DayOfYear(b)
  {
    MonthLength(a.year, a.month);
    LaterMonth(a.year, a.month + 1, b.month);
  }

  lemma EarlierYear(a: Date, b: Date)
    requires Valid(a) && Valid(b) && a.year < b.year
    ensures DayNumber(a) < DayNumber(b)
  {
    DayOfYearRange(a);
    DayOfYearRange(b);
    YearLength(a.year);
    LaterYear(a.year + 1, b.year);
  }

  lemma {:induction false} LaterYear(a: int, b: int)
    requires a <= b
    ensures YearStart(a) <= YearStart(b)
    decreases b - a
  {
    if a < b {
      YearLength(a);
      LaterYear(a + 1, b);
    }
  }

  /** A day number belongs to one valid date only. */
  lemma DayNumberIsUnique(a: Date, b: Date)
    requires Valid(a) && Valid(b) && DayNumber(a) == DayNumber(b)
    ensures a == b
  {
    if a.year < b.year {
      EarlierYear(a, b);
    } else if b.year < a.year {
      EarlierYear(b, a);
    } else if a.month < b.month {
      EarlierMonth(a, b);
    } else if b.month < a.month {
      EarlierMonth(b, a);
    }
  }

  lemma NextDayNumber(d: Date)
    requires Valid(d)
    ensures DayNumber(NextDay(d)) == DayNumber(d) + 1
  {
    if d.day == DaysInMonth(d.year, d.month) {
      MonthLength(d.year, d.month);
      YearLength(d.year);
    }
  }

  /** Stepping by days is adding to the day number. */
  lemma {:induction false} StepDaysNumber(d: Date, k: int)
    requires Valid(d)
    ensures DayNumber(StepDays(d, k)) == DayNumber(d) + k
    decreases if k < 0 then -k else k
  {
    if k > 0 {
      StepDaysNumber(d, k - 1);
      NextDayNumber(StepDays(d, k - 1));
    } else if k < 0 {
      StepDaysNumber(d, k + 1);
      NextDayNumber(StepDays(d, k));
    }
  }

  /** The date with a given day number is the date that many days on. */
  lemma ReachedDate(d: Date, k: int, r: Date)
    ensures Valid(d) && Valid(r) && DayNumber(r) == DayNumber(d) + k ==> r == StepDays(d, k)
  {
    if Valid(d) && Valid(r) && DayNumber(r) == DayNumber(d) + k {
      StepDaysNumber(d, k);
      DayNumberIsUnique(r, StepDays(d, k));
    }
  }

  lemma FirstOfMonthNumber(d: Date)
    requires InTable(d)
    ensures DayNumber(d) == DayNumber(FirstOfMonth(d)) + d.day - 1
  {
    YearLength(d.year);
  }

  /** The date with a given day number is reached from the first of the month. */
  lemma ReachedOn(d: Date, k: int, r: Date)
    requires InTable(d) && Valid(r) && DayNumber(r) == DayNumber(d) + k
    ensures r == DaysOn(d, k)
  {
    FirstOfMonthNumber(d);
    ReachedDate(FirstOfMonth(d), d.day - 1 + k, r);
  }

  /** From a valid date these are the days on or back. */
  lemma DaysOnIsStep(d: Date, k: int)
    requires Valid(d)
    ensures DaysOn(d, k) == StepDays(d, k)
  {
    StepDaysNumber(d, k);
    ReachedDate(FirstOfMonth(d), d.day - 1 + k, StepDays(d, k));
  }

  /** The integers act on the valid dates by days. */
  lemma DaysAct(d: Date, a: int, b: int)
    requires Valid(d)
    ensures StepDays(StepDays(d, a), b) == StepDays(d, a + b)
    ensures StepDays(StepDays(d, a), -a) == d
  {
    DaysCompose(d, a, b);
    DaysCompose(d, a, -a);
  }

  lemma DaysCompose(d: Date, a: int, b: int)
    requires Valid(d)
    ensures StepDays(StepDays(d, a), b) == StepDays(d, a + b)
  {
    var there := StepDays(d, a);
    StepDaysNumber(d, a);
    StepDaysNumber(there, b);
    ReachedDate(d, a + b, StepDays(there, b));
  }
}
