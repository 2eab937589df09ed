/** Civil time in UTC, to the second: the proleptic Gregorian calendar. */
module Calendar {
  datatype Time = Time(year: int, month: nat, day: nat, hour: nat, minute: nat, second: nat)

  predicate Leap(year: int) {
    year % 4 == 0 && (year % 100 != 0 || year % 400 == 0)
  }

  function DaysIn(year: int, month: nat): nat {
    if month == 2 then if Leap(year) then 29 else 28
    else if month == 4 || month == 6 || month == 9 || month == 11 then 30
    else 31
  }

  predicate Civil(t: Time) {
    && 1 <= t.month <= 12 && 1 <= t.day <= DaysIn(t.year, t.month)
    && t.hour < 24 && t.minute < 60 && t.second < 60
  }

  // Position on the time line.

  /** Days from 1 January of year 1 to 1 January of the given year. */
  function DaysBeforeYear(year: int): int {
    var y := year - 1;
    365 * y + y / 4 - y / 100 + y / 400
  }

  function DaysBeforeMonth(year: int, month: nat): nat {
    if month <= 1 then 0 else DaysBeforeMonth(year, month - 1) + DaysIn(year, month - 1)
  }

  /** Day 1 is 1 January of year 1, a Monday. */
  function DayNumber(t: Time): int {
    DaysBeforeYear(t.year) + DaysBeforeMonth(t.year, t.month) + t.day
  }

  /** 0 is Sunday. */
  function Weekday(t: Time): nat {
    DayNumber(t) % 7
  }

  function Seconds(t: Time): int {
    86400 * DayNumber(t) + 3600 * t.hour + 60 * t.minute + t.second
  }

  // Field by field order.

  predicate Before(a: Time, b: Time) {
    a.year < b.year || (a.year == b.year && (
      a.month < b.month || (a.month == b.month && (
        a.day < b.day || (a.day == b.day && (
          a.hour < b.hour || (a.hour == b.hour && (
            a.minute < b.minute || (a.minute == b.minute && a.second < b.second)))))))))
  }

  lemma YearLength(year: int)
    ensures DaysBeforeYear(year + 1) == DaysBeforeYear(year) + 365 + if Leap(year) then 1 else 0
  {
    FloorSteps(year - 1);
    LeapIs(year);
    hide Leap;
  }

  lemma LeapIs(year: int)
    ensures (if Leap(year) then 1 else 0) ==
            (if year % 4 == 0 then 1 else 0) - (if year % 100 == 0 then 1 else 0) + (if year % 400 == 0 then 1 else 0)
  {
    FourHundreds(year);
    Hundreds(year);
  }

  lemma FourHundreds(y: int)
    ensures y % 400 == 0 ==> y % 100 == 0
  {
    if y % 400 == 0 {
      var q := y / 400;
      assert y == 100 * (4 * q);
    }
  }

  lemma Hundreds(y: int)
    ensures y % 100 == 0 ==> y % 4 == 0
  {
    if y % 100 == 0 {
      var q := y / 100;
      assert y == 4 * (25 * q);
    }
  }

  lemma FloorSteps(y: int)
    ensures (y + 1) / 4 == y / 4 + if (y + 1) % 4 == 0 then 1 else 0
    ensures (y + 1) / 100 == y / 100 + if (y + 1) % 100 == 0 then 1 else 0
    ensures (y + 1) / 400 == y / 400 + if (y + 1) % 400 == 0 then 1 else 0
  {
  }

  lemma MonthStep(year: int, month: nat)
    requires month >= 1
    ensures DaysBeforeMonth(year, month + 1) == DaysBeforeMonth(year, month) + DaysIn(year, month)
  {
  }

  lemma MonthsOf(year: int)
    ensures DaysBeforeMonth(year, 13) == 365 + if Leap(year) then 1 else 0
  {
    MonthStep(year, 1);
    MonthStep(year, 2);
    MonthStep(year, 3);
    MonthStep(year, 4);
    MonthStep(year, 5);
    MonthStep(year, 6);
    MonthStep(year, 7);
    MonthStep(year, 8);
    MonthStep(year, 9);
    MonthStep(year, 10);
    MonthStep(year, 11);
    MonthStep(year, 12);
    assert DaysBeforeMonth(year, 1) == 0;
    hide DaysBeforeMonth, Leap;
  }

  lemma {:induction false} LaterYear(a: int, b: int)
    requires a < b
    ensures DaysBeforeYear(a + 1) <= DaysBeforeYear(b)
    decreases b - a
  {
    if a + 1 < b {
      YearLength(a + 1);
      hide DaysBeforeYear;
      LaterYear(a + 1, b);
    }
  }

  lemma {:induction false} LaterMonth(year: int, a: nat, b: nat)
    requires 1 <= a < b
    ensures DaysBeforeMonth(year, a + 1) <= DaysBeforeMonth(year, b)
  {
    if a + 1 < b {
      LaterMonth(year, a, b - 1);
    }
  }

  lemma DayInYear(t: Time)
    requires Civil(t)
    ensures DaysBeforeYear(t.year) < DayNumber(t) <= DaysBeforeYear(t.year + 1)
    ensures DayNumber(t) <= DaysBeforeYear(t.year) + DaysBeforeMonth(t.year, t.month + 1)
  {
    MonthsOf(t.year);
    YearLength(t.year);
    assert DaysBeforeMonth(t.year, t.month + 1) == DaysBeforeMonth(t.year, t.month) + DaysIn(t.year, t.month);
    hide DaysBeforeYear;
    if t.month < 12 {
      LaterMonth(t.year, t.month, 13);
    }
  }

  /** Comparing field by field is comparing on the time line. */
  lemma BeforeIsEarlier(a: Time, b: Time)
    requires Civil(a) && Civil(b)
    ensures Before(a, b) <==> Seconds(a) < Seconds(b)
    ensures a == b <==> Seconds(a) == Seconds(b)
  {
    if Before(a, b) {
      BeforeEarlier(a, b);
    } else if a != b {
      BeforeEarlier(b, a);
    }
  }

  lemma BeforeEarlier(a: Time, b: Time)
    requires Civil(a) && Civil(b) && Before(a, b)
    ensures Seconds(a) < Seconds(b)
  {
    if (a.year, a.month, a.day) != (b.year, b.month, b.day) {
      EarlierDay(a, b);
    }
    hide DayNumber;
  }

  lemma EarlierDay(a: Time, b: Time)
    requires Civil(a) && Civil(b) && Before(a, b) && (a.year, a.month, a.day) != (b.year, b.month, b.day)
    ensures DayNumber(a) < DayNumber(b)
  {
    DayInYear(a);
    DayInYear(b);
    hide DaysBeforeYear, DaysIn;
    if a.year < b.year {
      LaterYear(a.year, b.year);
    } else if a.month < b.month {
      LaterMonth(a.year, a.month, b.month);
    }
  }

  // Steps.

  function MonthStart(t: Time): Time {
    Time(t.year, t.month, 1, 0, 0, 0)
  }

  function DayStart(t: Time): Time {
    t.(hour := 0, minute := 0, second := 0)
  }

  function HourStart(t: Time): Time {
    t.(minute := 0, second := 0)
  }

  function MinuteStart(t: Time): Time {
    t.(second := 0)
  }

  function FollowingMonth(year: int, month: nat): (int, nat) {
    if month == 12 then (year + 1, 1) else (year, month + 1)
  }

  /** The same day of the next month; days it does not have run on into the month after. */
  function AddMonth(t: Time): Time {
    var (y, m) := FollowingMonth(t.year, t.month);
    if t.day <= DaysIn(y, m) then t.(year := y, month := m)
    else
      var (y', m') := FollowingMonth(y, m);
      t.(year := y', month := m', day := t.day - DaysIn(y, m))
  }

  function AddDay(t: Time): Time {
    if t.day < DaysIn(t.year, t.month) then t.(day := t.day + 1)
    else
      var (y, m) := FollowingMonth(t.year, t.month);
      t.(year := y, month := m, day := 1)
  }

  function AddHour(t: Time): Time {
    if t.hour < 23 then t.(hour := t.hour + 1) else AddDay(t.(hour := 0))
  }

  function AddMinute(t: Time): Time {
    if t.minute < 59 then t.(minute := t.minute + 1) else AddHour(t.(minute := 0))
  }

  function AddSecond(t: Time): Time {
    if t.second < 59 then t.(second := t.second + 1) else AddMinute(t.(second := 0))
  }

  lemma AddDayNumber(t: Time)
    requires Civil(t)
    ensures Civil(AddDay(t)) && DayNumber(AddDay(t)) == DayNumber(t) + 1
  {
    YearLength(t.year);
    MonthsOf(t.year);
    assert DaysBeforeMonth(t.year, t.month + 1) == DaysBeforeMonth(t.year, t.month) + DaysIn(t.year, t.month);
    assert DaysBeforeMonth(t.year + 1, 1) == 0;
    hide DaysBeforeYear, DaysBeforeMonth;
  }

  // The steps are what their names say on the time line.

  lemma DayLater(t: Time)
    requires Civil(t)
    ensures Civil(AddDay(t)) && Seconds(AddDay(t)) == Seconds(t) + 86400
  {
    AddDayNumber(t);
    hide DayNumber;
  }

  lemma HourLater(t: Time)
    requires Civil(t)
    ensures Civil(AddHour(t)) && Seconds(AddHour(t)) == Seconds(t) + 3600
  {
    if t.hour < 23 {
      SameDay(t, AddHour(t));
    } else {
      DayLater(t.(hour := 0));
      SameDay(t, t.(hour := 0));
      hide AddDay;
    }
    hide DayNumber;
  }

  lemma MinuteLater(t: Time)
    requires Civil(t)
    ensures Civil(AddMinute(t)) && Seconds(AddMinute(t)) == Seconds(t) + 60
  {
    if t.minute < 59 {
      SameDay(t, AddMinute(t));
    } else {
      HourLater(t.(minute := 0));
      SameDay(t, t.(minute := 0));
      hide AddHour;
    }
    hide DayNumber;
  }

  lemma SecondLater(t: Time)
    requires Civil(t)
    ensures Civil(AddSecond(t)) && Seconds(AddSecond(t)) == Seconds(t) + 1
  {
    if t.second < 59 {
      SameDay(t, AddSecond(t));
    } else {
      MinuteLater(t.(second := 0));
      SameDay(t, t.(second := 0));
      hide AddMinute;
    }
    hide DayNumber;
  }

  lemma SameDay(a: Time, b: Time)
    requires (a.year, a.month, a.day) == (b.year, b.month, b.day)
    ensures DayNumber(a) == DayNumber(b)
  {
  }

  // Against the calendar on the wall.

  /** u is the day after t. */
  predicate DayAfter(t: Time, u: Time) {
    || (u.year == t.year && u.month == t.month && u.day == t.day + 1)
    || (u.year == t.year && u.month == t.month + 1 && t.day == DaysIn(t.year, t.month) && u.day == 1)
    || (u.year == t.year + 1 && t.month == 12 && t.day == 31 && u.month == 1 && u.day == 1)
  }

  /** Days follow one another on the time line, and so do weekdays. */
  lemma DaysFollow(t: Time, u: Time)
    requires Civil(t) && Civil(u) && DayAfter(t, u)
    ensures DayNumber(u) == DayNumber(t) + 1 && Weekday(u) == (Weekday(t) + 1) % 7
  {
    NextNumber(t, u);
    NextOfSeven(DayNumber(t));
    hide DayNumber;
  }

  lemma NextNumber(t: Time, u: Time)
    requires Civil(t) && Civil(u) && DayAfter(t, u)
    ensures DayNumber(u) == DayNumber(t) + 1
  {
    MonthStep(t.year, t.month);
    MonthsOf(t.year);
    YearLength(t.year);
    assert DaysBeforeMonth(t.year, 1) == 0 && DaysBeforeMonth(u.year, 1) == 0;
    assert DaysIn(t.year, 12) == 31;
    hide DaysBeforeMonth, DaysBeforeYear, Leap, DaysIn;
  }

  lemma NextOfSeven(n: int)
    ensures (n + 1) % 7 == (n % 7 + 1) % 7
  {
  }

  /** 1 January 1970 was a Thursday, and the time line starts 62135596800 seconds before it, at the first day of year 1. */
  lemma Epoch()
    ensures Weekday(Time(1970, 1, 1, 0, 0, 0)) == 4
    ensures Seconds(Time(1970, 1, 1, 0, 0, 0)) - Seconds(Time(1, 1, 1, 0, 0, 0)) == 62_135_596_800
  {
  }
}
