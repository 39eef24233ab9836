/** Time increments on the reference time of a product definition section. */
module ReferenceTime {
  import opened Bits
  import opened Calendar

  datatype TimeFrame =
    | Minute | Hour | Day | Month | Year | Decade | Normal | Century
    | Hours3 | Hours6 | Hours12 | Second | Other(code: Byte)

  datatype DateTime = DateTime(date: Date, hour: int)

  const FEB29 := 31 + 29

  /** Division and remainder of C, which truncate towards zero. */
  function CDiv(a: int, b: int): int
    requires b > 0
  {
    if a >= 0 then a / b else -(-a / b)
  }

  function CMod(a: int, b: int): int
    requires b > 0
  {
    a - b * CDiv(a, b)
  }

  /** `k` hours on or back: whole days by the calendar, the rest on the clock. */
  function AddHours(t: DateTime, k: int): (r: DateTime)
    requires InTable(t.date)
    ensures Valid(r.date) && 0 <= r.hour < 24
  {
    DateTime(DaysOn(t.date, (t.hour + k) / 24), (t.hour + k) % 24)
  }

  /** Months since the beginning of year 0. */
  function MonthNumber(d: Date): int {
    12 * d.year + d.month - 1
  }

  /** `k` months on or back, the day cut to the length of the new month. */
  function AddMonths(d: Date, k: int): (r: Date)
    ensures 1 <= r.month <= 12 && (d.day >= 1 ==> Valid(r)) && MonthNumber(r) == MonthNumber(d) + k
    ensures r.day == if d.day <= DaysInMonth(r.year, r.month) then d.day else DaysInMonth(r.year, r.month)
  {
    var n := MonthNumber(d) + k;
    var length := DaysInMonth(n / 12, n % 12 + 1);
    Date(n / 12, n % 12 + 1, if d.day <= length then d.day else length)
  }

  function AddYears(d: Date, k: int): Date {
    Date(d.year + k, d.month, d.day)
  }

  /** What is left of an increment of months once whole years have made it positive. */
  function Forward(k: int): int {
    if k < 0 then k + 12 * (-k / 12 + 1) else k
  }

  /** The month is one that the table can be asked for, if it is asked at all: counting in days needs the month of the
      date, counting in months the one it arrives at, and counting in years none. */
  predicate Answerable(d: Date, k: int, unit: TimeFrame) {
    match unit
    case Year | Decade | Normal | Century | Other(_) => true
    case Month => CMod(Forward(k) + d.month - 1, 12) >= 0
    case _ => InTable(d)
  }

  /** What an increment of `k` units means. */
  function Shifted(t: DateTime, k: int, unit: TimeFrame): (r: DateTime)
    requires Answerable(t.date, k, unit)
  {
    match unit
    case Year => DateTime(AddYears(t.date, k), t.hour)
    case Decade => DateTime(AddYears(t.date, 10 * k), t.hour)
    case Normal => DateTime(AddYears(t.date, 30 * k), t.hour)
    case Century => DateTime(AddYears(t.date, 100 * k), t.hour)
    case Month => DateTime(AddMonths(t.date, k), t.hour)
    case Day => DateTime(DaysOn(t.date, k), t.hour)
    case Second => AddHours(t, CDiv(k, 3600))
    case Minute => AddHours(t, CDiv(k, 60))
    case Hour => AddHours(t, k)
    case Hours3 => AddHours(t, 3 * k)
    case Hours6 => AddHours(t, 6 * k)
    case Hours12 => AddHours(t, 12 * k)
    case Other(_) => t
  }

  lemma TruncateTwice(k: int)
    ensures CDiv(CDiv(k, 60), 60) == CDiv(k, 3600)
  {
    if k >= 0 {
      SixtySixty(k);
    } else {
      SixtySixty(-k);
    }
  }

  lemma SixtySixty(n: nat)
    ensures n / 60 / 60 == n / 3600
  {
    assert n == 60 * (n / 60) + n % 60;
    assert n / 60 == 60 * (n / 60 / 60) + n / 60 % 60;
  }

  /** Carrying the borrow of a negative clock turns C's division into the floor. */
  lemma CarryIsFloor(x: int)
    ensures if CMod(x, 24) < 0 then CMod(x, 24) + 24 == x % 24 && CDiv(x, 24) - 1 == x / 24
            else CMod(x, 24) == x % 24 && CDiv(x, 24) == x / 24
  {
  }

  function WholeHours(k: int, unit: TimeFrame): int {
    match unit
    case Second => CDiv(k, 3600)
    case Minute => CDiv(k, 60)
    case Hours3 => 3 * k
    case Hours6 => 6 * k
    case Hours12 => 12 * k
    case _ => k
  }

  /** Units shorter than a day, and their multiples, are counted in hours. */
  method InHours(increment: int, unit0: TimeFrame) returns (dtime: int, unit: TimeFrame)
    ensures dtime == WholeHours(increment, unit0)
    ensures unit == if unit0 in {Second, Minute, Hours3, Hours6, Hours12} then Hour else unit0
  {
    dtime, unit := increment, unit0;
    if unit == Second {
      TruncateTwice(increment);
      dtime, unit := CDiv(dtime, 60), Minute;
    }
    if unit == Minute {
      dtime, unit := CDiv(dtime, 60), Hour;
    }
    if unit == Hours3 {
      dtime, unit := dtime * 3, Hour;
    } else if unit == Hours6 {
      dtime, unit := dtime * 6, Hour;
    } else if unit == Hours12 {
      dtime, unit := dtime * 12, Hour;
    }
  }

  lemma ShiftedInHours(t: DateTime, k: int, unit: TimeFrame)
    requires Answerable(t.date, k, unit)
    ensures unit in {Hour, Second, Minute, Hours3, Hours6, Hours12} ==>
              Shifted(t, k, unit) == AddHours(t, WholeHours(k, unit))
  {
  }

  /** `add_time`: the new time, and 1 for a unit it does not know. */
  method AddTime(t: DateTime, increment: int, unit0: TimeFrame) returns (r: DateTime, status: int)
    requires Answerable(t.date, increment, unit0)
    ensures r == Shifted(t, increment, unit0)
    ensures status == if unit0.Other? then 1 else 0
  {
    var dtime, unit := increment, unit0;
    match unit0 {
      case Year => return DateTime(AddYears(t.date, dtime), t.hour), 0;
      case Decade => return DateTime(AddYears(t.date, 10 * dtime), t.hour), 0;
      case Century => return DateTime(AddYears(t.date, 100 * dtime), t.hour), 0;
      case Normal => return DateTime(AddYears(t.date, 30 * dtime), t.hour), 0;
      case Month =>
        var d := MonthBranch(t.date, dtime);
        return DateTime(d, t.hour), 0;
      case _ =>
    }
    dtime, unit := InHours(dtime, unit);
    ShiftedInHours(t, increment, unit0);
    var hour := t.hour;
    if unit == Hour {
      hour, dtime := HourBranch(hour, dtime);
      unit := Day;
    }
    if unit == Day {
      var d := DayBranch(t.date, dtime);
      return DateTime(d, hour), 0;
    }
    return t, 1;
  }

  method HourBranch(hour0: int, increment: int) returns (hour: int, dtime: int)
    ensures hour == (hour0 + increment) % 24 && dtime == (hour0 + increment) / 24
  {
    dtime := increment + hour0;
    CarryIsFloor(dtime);
    hour, dtime := CMod(dtime, 24), CDiv(dtime, 24);
    if hour < 0 {
      hour, dtime := hour + 24, dtime - 1;
    }
  }

  method MonthBranch(d: Date, increment: int) returns (r: Date)
    requires CMod(Forward(increment) + d.month - 1, 12) >= 0
    ensures r == AddMonths(d, increment)
  {
    var y, m, dtime := d.year, d.month, increment;
    if dtime < 0 {
      var i := CDiv(-dtime, 12) + 1;
      y := y - i;
      dtime := dtime + i * 12;
    }
    dtime := dtime + (m - 1);
    y := y + CDiv(dtime, 12);
    m := 1 + CMod(dtime, 12);
    var daysInMonth := MonthJDay(m) - MonthJDay(m - 1);
    if m == 2 && Leap(y) != 0 {
      daysInMonth := daysInMonth + 1;
    }
    MonthLength(y, m);
    assert MonthNumber(Date(y, m, 1)) == MonthNumber(d) + increment;
    r := Date(y, m, if daysInMonth < d.day then daysInMonth else d.day);
  }

  /** The month and day of a day of the year, by the table of common years. */
  method MonthAndDay(y: int, dayOfYear: int) returns (r: Date)
    requires 1 <= dayOfYear <= 365 + Leap(y)
    ensures Valid(r) && r.year == y && DayOfYear(r) == dayOfYear
  {
    var dtime := dayOfYear;
    if Leap(y) != 0 && dtime == FEB29 {
      r := Date(y, 2, 29);
    } else {
      if Leap(y) != 0 && dtime > FEB29 {
        dtime := dtime - 1;
      }
      var i := 11;
      while MonthJDay(i) >= dtime
        invariant 0 <= i <= 11 && 1 <= dtime <= MonthJDay(i + 1)
      {
        i := i - 1;
      }
      r := Date(y, i + 1, dtime - MonthJDay(i));
      MonthLength(y, i + 1);
    }
  }

  /** Counts the days from the beginning of the year, walks whole years in either direction and looks the month
      up in the table. */
  method DayBranch(d: Date, increment: int) returns (r: Date)
    requires InTable(d)
    ensures r == DaysOn(d, increment)
  {
    ghost var goal := DayNumber(d) + increment;
    var y := d.year;
    var jday := d.day + MonthJDay(d.month - 1);
    if Leap(y) != 0 && d.month > 2 {
      jday := jday + 1;
    }
    var dtime := increment + jday;
    while dtime < 1
      invariant YearStart(y) + dtime == goal
    {
      y := y - 1;
      YearLength(y);
      dtime := dtime + 365 + Leap(y);
    }
    while dtime > 365 + Leap(y)
      invariant 1 <= dtime && YearStart(y) + dtime == goal
    {
      YearLength(y);
      dtime := dtime - (365 + Leap(y));
      y := y + 1;
    }
    r := MonthAndDay(y, dtime);
    assert Valid(r) && DayNumber(r) == goal;
    ReachedOn(d, increment, r);
  }

  ghost function HourNumber(t: DateTime): int
    requires Valid(t.date)
  {
    24 * DayNumber(t.date) + t.hour
  }

  /** An increment in hours adds to the absolute hour count, and gives the only such time on the clock. */
  lemma AddHoursNumber(t: DateTime, k: int, r: DateTime)
    requires Valid(t.date)
    ensures r == AddHours(t, k) <==> Valid(r.date) && 0 <= r.hour < 24 && HourNumber(r) == HourNumber(t) + k
  {
    DaysOnIsStep(t.date, (t.hour + k) / 24);
    StepDaysNumber(t.date, (t.hour + k) / 24);
    if Valid(r.date) && 0 <= r.hour < 24 && HourNumber(r) == HourNumber(t) + k {
      DayNumberIsUnique(r.date, AddHours(t, k).date);
    }
  }

  /** The integers act on the valid times by hours. */
  lemma HoursAct(t: DateTime, a: int, b: int)
    requires Valid(t.date) && 0 <= t.hour < 24
    ensures AddHours(AddHours(t, a), b) == AddHours(t, a + b)
    ensures AddHours(AddHours(t, a), -a) == t
  {
    AddHoursNumber(t, a, AddHours(t, a));
    AddHoursNumber(AddHours(t, a), b, AddHours(AddHours(t, a), b));
    AddHoursNumber(AddHours(t, a), -a, t);
    AddHoursNumber(t, a + b, AddHours(AddHours(t, a), b));
  }

  ghost predicate OnClock(t: DateTime) {
    Valid(t.date) && 0 <= t.hour < 24
  }

  /** How many hours lie between two times. */
  ghost function HoursBetween(t: DateTime, r: DateTime): int
    requires Valid(t.date) && Valid(r.date)
  {
    HourNumber(r) - HourNumber(t)
  }

  /** The fixed-length units keep a time valid and add their hours. */
  lemma FixedUnits(t: DateTime, k: int)
    requires OnClock(t)
    ensures OnClock(Shifted(t, k, Day)) && HoursBetween(t, Shifted(t, k, Day)) == 24 * k
    ensures OnClock(Shifted(t, k, Hour)) && HoursBetween(t, Shifted(t, k, Hour)) == k
    ensures OnClock(Shifted(t, k, Hours3)) && HoursBetween(t, Shifted(t, k, Hours3)) == 3 * k
    ensures OnClock(Shifted(t, k, Hours6)) && HoursBetween(t, Shifted(t, k, Hours6)) == 6 * k
    ensures OnClock(Shifted(t, k, Hours12)) && HoursBetween(t, Shifted(t, k, Hours12)) == 12 * k
  {
    DaysOnIsStep(t.date, k);
    StepDaysNumber(t.date, k);
    AddHoursNumber(t, k, AddHours(t, k));
    AddHoursNumber(t, 3 * k, AddHours(t, 3 * k));
    AddHoursNumber(t, 6 * k, AddHours(t, 6 * k));
    AddHoursNumber(t, 12 * k, AddHours(t, 12 * k));
  }

  /** `h` hours are `k` parts of an hour, `parts` of which make one, cut towards zero. */
  predicate CutToHours(k: int, parts: int, h: int) {
    && (k >= 0 ==> parts * h <= k < parts * h + parts)
    && (k <= 0 ==> parts * h - parts < k <= parts * h)
  }

  /** Seconds and minutes add the whole hours in them. */
  lemma CutUnits(t: DateTime, k: int)
    requires OnClock(t)
    ensures OnClock(Shifted(t, k, Second)) && CutToHours(k, 3600, HoursBetween(t, Shifted(t, k, Second)))
    ensures OnClock(Shifted(t, k, Minute)) && CutToHours(k, 60, HoursBetween(t, Shifted(t, k, Minute)))
  {
    AddHoursNumber(t, CDiv(k, 3600), AddHours(t, CDiv(k, 3600)));
    AddHoursNumber(t, CDiv(k, 60), AddHours(t, CDiv(k, 60)));
    CDivCuts(k, 3600);
    CDivCuts(k, 60);
  }

  lemma CDivCuts(k: int, parts: int)
    requires parts > 0
    ensures CutToHours(k, parts, CDiv(k, parts))
  {
    if k < 0 {
      Remainder(-k, parts);
    } else {
      Remainder(k, parts);
    }
  }

  lemma Remainder(n: nat, parts: int)
    requires parts > 0
    ensures parts * (n / parts) <= n < parts * (n / parts) + parts
  {
    assert n == parts * (n / parts) + n % parts;
  }

  /** `r` is `n` months from `t` with the clock as it was. */
  predicate MonthsOn(t: DateTime, n: int, r: DateTime) {
    r.hour == t.hour && 12 * r.date.year + r.date.month == 12 * t.date.year + t.date.month + n
  }

  /** Months leave the clock alone and keep the day as far as the new month has it. */
  lemma MonthUnit(t: DateTime, k: int)
    requires Answerable(t.date, k, Month)
    ensures var r := Shifted(t, k, Month);
            && MonthsOn(t, k, r) && 1 <= r.date.month <= 12
            && r.date.day == Min(t.date.day, DaysInMonth(r.date.year, r.date.month))
  {
  }

  /** Years and their multiples leave the clock, the month and the day alone. */
  lemma YearUnits(t: DateTime, k: int)
    ensures MonthsOn(t, 12 * k, Shifted(t, k, Year))
    ensures MonthsOn(t, 120 * k, Shifted(t, k, Decade))
    ensures MonthsOn(t, 360 * k, Shifted(t, k, Normal))
    ensures MonthsOn(t, 1200 * k, Shifted(t, k, Century))
    ensures forall unit :: unit in {Year, Decade, Normal, Century} ==>
              Shifted(t, k, unit).date.(year := t.date.year) == t.date
  {
  }

  /** Going `k` months and back restores the date exactly if the month between is long enough. */
  lemma MonthsBack(d: Date, k: int)
    requires Valid(d)
    ensures var there := AddMonths(d, k);
            AddMonths(there, -k) == d <==> d.day <= DaysInMonth(there.year, there.month)
  {
    var there := AddMonths(d, k);
    SameMonth(AddMonths(there, -k), d);
  }

  lemma SameMonth(a: Date, b: Date)
    ensures Valid(a) && Valid(b) ==>
              (MonthNumber(a) == MonthNumber(b) ==> a.year == b.year && a.month == b.month)
  {
  }

  /** It does so for every `k` exactly for the days that every month has. */
  lemma MonthsAlwaysBack(d: Date)
    requires Valid(d)
    ensures (forall k: int :: AddMonths(AddMonths(d, k), -k) == d) <==> d.day <= 28
  {
    forall k: int
      ensures AddMonths(AddMonths(d, k), -k) == d
         <==> d.day <= DaysInMonth(AddMonths(d, k).year, AddMonths(d, k).month)
    {
      MonthsBack(d, k);
    }
    if d.day > 28 {
      // some year near by has a short February
      var y := if Leap(d.year) == 0 then d.year else d.year + 1;
      assert Leap(y) == 0;
      var k := MonthNumber(Date(y, 2, 1)) - MonthNumber(d);
      SameMonth(AddMonths(d, k), Date(y, 2, 1));
      assert AddMonths(AddMonths(d, k), -k) != d;
    }
  }

  /** Months are no action: two increments agree with their sum unless the first one cuts the day further. */
  lemma MonthsAct(d: Date, a: int, b: int)
    requires Valid(d)
    ensures var there, end := AddMonths(d, a), AddMonths(d, a + b);
            AddMonths(there, b) == end <==> end.day <= DaysInMonth(there.year, there.month)
  {
    var there := AddMonths(d, a);
    SameMonth(AddMonths(there, b), AddMonths(d, a + b));
  }

  /** Adding bare years leaves the calendar exactly when it carries 29 February into a common year. */
  lemma YearsValid(d: Date, k: int)
    requires Valid(d)
    ensures Valid(AddYears(d, k)) <==> !(d.month == 2 && d.day == 29 && Leap(d.year + k) == 0)
  {
  }

  function FrameOf(code: Byte): TimeFrame {
    match code
    case 0 => Minute
    case 1 => Hour
    case 2 => Day
    case 3 => Month
    case 4 => Year
    case 5 => Decade
    case 6 => Normal
    case 7 => Century
    case 10 => Hours3
    case 11 => Hours6
    case 12 => Hours12
    case 254 => Second
    case _ => Other(code)
  }

  /** The increment that FM 92 GRIB edition 1, Code table 5, attaches to the time range indicator. */
  function Increment(indicator: Byte, p1: Byte, p2: Byte): int {
    if indicator == 10 then 256 * p1 + p2
    else if 2 <= indicator <= 5 then p2
    else if indicator == 6 || indicator == 7 then -(p1 as int)
    else p1
  }

  function HeaderDate(pds: seq<Byte>): Date
    requires |pds| >= 25
  {
    Date(pds[12] + 100 * ((pds[24] as int) - 1), pds[13], pds[14])
  }

  function HeaderIncrement(pds: seq<Byte>): int
    requires |pds| >= 25
  {
    Increment(pds[20], pds[18], pds[19])
  }

  predicate HeaderAnswerable(pds: seq<Byte>)
    requires |pds| >= 25
  {
    HeaderIncrement(pds) == 0 || Answerable(HeaderDate(pds), HeaderIncrement(pds), FrameOf(pds[17]))
  }

  function VerificationTime(pds: seq<Byte>): DateTime
    requires |pds| >= 25 && HeaderAnswerable(pds)
  {
    var t := DateTime(HeaderDate(pds), pds[15]);
    if HeaderIncrement(pds) == 0 then t else Shifted(t, HeaderIncrement(pds), FrameOf(pds[17]))
  }

  /** `verf_time`: the time at which a product is valid. */
  method VerfTime(pds: seq<Byte>) returns (r: DateTime, status: int)
    requires |pds| >= 25 && HeaderAnswerable(pds)
    ensures r == VerificationTime(pds)
    ensures status == if HeaderIncrement(pds) != 0 && FrameOf(pds[17]).Other? then 1 else 0
  {
    var t := DateTime(HeaderDate(pds), pds[15]);
    var dtime: int := pds[18];
    var tr: int := pds[20];
    if tr == 10 {
      dtime := (pds[18] as int) * 256 + pds[19];
    }
    if tr > 1 && tr < 6 {
      dtime := pds[19];
    }
    if tr == 6 || tr == 7 {
      dtime := -(pds[18] as int);
    }
    if dtime == 0 {
      return t, 0;
    }
    r, status := AddTime(t, dtime, FrameOf(pds[17]));
  }

  /** The reference time in the octets of a product definition section: year of the century and century, month, day
      and hour. */
  ghost predicate RefersTo(pds: seq<Byte>, t: DateTime)
    requires |pds| >= 25
  {
    && t.date.year == 100 * ((pds[24] as int) - 1) + pds[12]
    && t.date.month == pds[13] && t.date.day == pds[14] && t.hour == pds[15]
  }

  /** `k` is the increment in the octets for P1, P2 and the time range indicator. */
  predicate IsIncrement(pds: seq<Byte>, k: int)
    requires |pds| >= 25
  {
    var indicator, p1: int, p2: int := pds[20], pds[18], pds[19];
    && (indicator == 10 ==> k == 256 * p1 + p2)
    && (indicator in {2, 3, 4, 5} ==> k == p2)
    && (indicator in {6, 7} ==> k == -p1)
    && (indicator !in {2, 3, 4, 5, 6, 7, 10} ==> k == p1)
  }

  /** What an increment means by the code of its unit: so many hours, or so many months with the clock as it was. */
  ghost predicate Meant(t: DateTime, k: int, unit: Byte, r: DateTime)
    requires OnClock(t)
  {
    match unit
    case 0 => OnClock(r) && CutToHours(k, 60, HoursBetween(t, r))
    case 1 => OnClock(r) && HoursBetween(t, r) == k
    case 2 => OnClock(r) && HoursBetween(t, r) == 24 * k
    case 3 => MonthsOn(t, k, r) && OnClock(r) && r.date.day == Min(t.date.day, DaysInMonth(r.date.year, r.date.month))
    case 4 => MonthsOn(t, 12 * k, r) && r.date.month == t.date.month && r.date.day == t.date.day
    case 5 => MonthsOn(t, 120 * k, r) && r.date.month == t.date.month && r.date.day == t.date.day
    case 6 => MonthsOn(t, 360 * k, r) && r.date.month == t.date.month && r.date.day == t.date.day
    case 7 => MonthsOn(t, 1200 * k, r) && r.date.month == t.date.month && r.date.day == t.date.day
    case 10 => OnClock(r) && HoursBetween(t, r) == 3 * k
    case 11 => OnClock(r) && HoursBetween(t, r) == 6 * k
    case 12 => OnClock(r) && HoursBetween(t, r) == 12 * k
    case 254 => OnClock(r) && CutToHours(k, 3600, HoursBetween(t, r))
    case _ => r == t
  }

  lemma ShiftIsMeant(t: DateTime, k: int, unit: Byte)
    requires OnClock(t)
    ensures Answerable(t.date, k, FrameOf(unit)) && Meant(t, k, unit, Shifted(t, k, FrameOf(unit)))
  {
    if unit in {1, 2, 10, 11, 12} {
      FixedUnits(t, k);
    } else if unit in {0, 254} {
      CutUnits(t, k);
    } else if unit == 3 {
      MonthUnit(t, k);
    } else if unit in {4, 5, 6, 7} {
      YearUnits(t, k);
    }
  }

  lemma NothingIsMeant(t: DateTime, unit: Byte)
    ensures OnClock(t) ==> Meant(t, 0, unit, t)
  {
  }

  /** The verification time is the reference time with the increment added by its unit. */
  lemma VerifiedFrom(pds: seq<Byte>, t: DateTime, k: int)
    requires |pds| >= 25 && RefersTo(pds, t) && OnClock(t) && IsIncrement(pds, k)
    ensures HeaderAnswerable(pds) && Meant(t, k, pds[17], VerificationTime(pds))
  {
    assert HeaderIncrement(pds) == k && DateTime(HeaderDate(pds), pds[15]) == t;
    ShiftIsMeant(t, k, pds[17]);
    NothingIsMeant(t, pds[17]);
  }
}
