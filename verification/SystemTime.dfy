/** The calendar of the system clock: day counts forwards and in closed form. */
module SystemTime {
  import opened Basics

  const DAY_2_SECOND := 24 * 60 * 60
  const BEGIN_YEAR := 2000
  // What the closed form counts up to the first day of the clock, 2000-01-01, which belongs to
  // month 14 of the year before.
  const BEGIN_DATE := 1461 * (BEGIN_YEAR - 1) / 4 + 153 * (1 + 13) / 5 + 1

  datatype Date = Date(year: int, month: int, day: int)

  predicate LeapYearCheck(year: int) {
    year % 4 == 0 && (year % 100 != 0 || year % 400 == 0)
  }

  // The table DayPerMonth.
  function DayPerMonth(leap: bool, month: int): int
    requires 1 <= month <= 12
  {
    if month == 2 then (if leap then 29 else 28)
    else if month == 4 || month == 6 || month == 9 || month == 11 then 30
    else 31
  }

  predicate ValidDate(d: Date) {
    && d.year >= BEGIN_YEAR && 1 <= d.month <= 12
    && 1 <= d.day <= DayPerMonth(LeapYearCheck(d.year), d.month)
  }

  /** The day after: the step of the loop in SystemTimeSecToDateConv. */
  function Next(d: Date): (n: Date)
    requires ValidDate(d)
    ensures ValidDate(n)
  {
    if d.day + 1 > DayPerMonth(LeapYearCheck(d.year), d.month) then
      if d.month + 1 > 12 then Date(d.year + 1, 1, 1) else Date(d.year, d.month + 1, 1)
    else Date(d.year, d.month, d.day + 1)
  }

  /** The date n days after the first day of the clock, by counting. */
  function NthDay(n: nat): (d: Date)
    ensures ValidDate(d)
  {
    if n == 0 then Date(BEGIN_YEAR, 1, 1) else Next(NthDay(n - 1))
  }

  // The year that a closed form counts a day to: January and February go to the year before.
  function CountYear(d: Date): int {
    if d.month <= 2 then d.year - 1 else d.year
  }

  function CountMonth(d: Date): int {
    if d.month <= 2 then d.month + 13 else d.month + 1
  }

  /** The closed form of SystemTimeDateToSecConv for the number of days since the beginning. */
  function ClosedDays(d: Date): int {
    1461 * CountYear(d) / 4 + 153 * CountMonth(d) / 5 + d.day - BEGIN_DATE
  }

  /** The 29ths of February between the beginning and the date that the closed form counts
      although the calendar omits them: those of 2100, 2200, 2300, 2500 and so on. */
  function Omitted(d: Date): int {
    CountYear(d) / 100 - CountYear(d) / 100 / 4 - 15
  }

  // The day before such a missing day.
  predicate BeforeGap(d: Date) {
    d.month == 2 && d.day == 28 && d.year % 100 == 0 && d.year % 400 != 0
  }

  // The first of the month after.
  function NextMonth(year: int, month: int): Date {
    if month == 12 then Date(year + 1, 1, 1) else Date(year, month + 1, 1)
  }

  lemma NextCounts(d: Date)
    requires ValidDate(d)
    ensures ClosedDays(Next(d)) == ClosedDays(d) + (if BeforeGap(d) then 2 else 1)
    ensures Omitted(Next(d)) == Omitted(d) + (if BeforeGap(d) then 1 else 0)
  {
    hide ClosedDays, Omitted, CountYear;
    DayCounts(d);
    if d.day == DayPerMonth(LeapYearCheck(d.year), d.month) {
      MonthCounts(d.year, d.month);
      CenturyCounts(d.year, d.month);
    } else {
      DayCounts(Next(d));
    }
  }

  lemma DayCounts(d: Date)
    ensures ClosedDays(d) == ClosedDays(Date(d.year, d.month, 1)) + d.day - 1
    ensures Omitted(d) == Omitted(Date(d.year, d.month, 1))
  {
  }

  // From the first of a month to the first of the next, the closed form counts the days of
  // the month under the rule that every fourth year is a leap year.
  lemma MonthCounts(year: int, month: int)
    requires 1 <= month <= 12
    ensures ClosedDays(NextMonth(year, month)) == ClosedDays(Date(year, month, 1)) + DayPerMonth(year % 4 == 0, month)
  {
    if month == 2 {
      assert 1461 * year / 4 == 365 * year + year / 4;
      assert 1461 * (year - 1) / 4 == 365 * (year - 1) + (year - 1) / 4;
    }
  }

  lemma CenturyCounts(year: int, month: int)
    requires 1 <= month <= 12
    ensures Omitted(NextMonth(year, month)) == Omitted(Date(year, month, 1))
                                               + if month == 2 && year % 100 == 0 && year % 400 != 0 then 1 else 0
  {
    if month == 2 {
      var c := year / 100;
      assert (year - 1) / 100 == if year % 100 == 0 then c - 1 else c;
      assert year % 100 == 0 ==> (year % 400 == 0 <==> c % 4 == 0);
      QuarterSteps(c);
    }
  }

  lemma QuarterSteps(c: int)
    ensures c / 4 - (c - 1) / 4 == if c % 4 == 0 then 1 else 0
  {
  }

  /** The closed form of the n-th day is n plus the days it wrongly counts. */
  lemma {:induction false} ClosedDaysOfNth(n: nat)
    ensures ClosedDays(NthDay(n)) == n + Omitted(NthDay(n))
  {
    hide ClosedDays, Omitted;
    if n > 0 {
      ClosedDaysOfNth(n - 1);
      NextCounts(NthDay(n - 1));
    } else {
      assert NthDay(0) == Date(2000, 1, 1);
      FirstDay();
    }
  }

  lemma FirstDay()
    ensures ClosedDays(Date(2000, 1, 1)) == Omitted(Date(2000, 1, 1)) == 0
  {
  }

  // ---- Every date has its number ----

  function Prev(d: Date): (p: Date)
    requires ValidDate(d) && d != Date(BEGIN_YEAR, 1, 1)
    ensures ValidDate(p) && Next(p) == d
  {
    if d.day > 1 then Date(d.year, d.month, d.day - 1)
    else if d.month > 1 then Date(d.year, d.month - 1, DayPerMonth(LeapYearCheck(d.year), d.month - 1))
    else Date(d.year - 1, 12, 31)
  }

  /** The number of a date counted from the beginning. */
  function DayNumber(d: Date): int {
    ClosedDays(d) - Omitted(d)
  }

  /** Counting that many days from the beginning reaches the date. */
  lemma {:induction false} DateIsNth(d: Date)
    requires ValidDate(d)
    ensures DayNumber(d) >= 0 && NthDay(DayNumber(d)) == d
    decreases d.year, d.month, d.day
  {
    hide ClosedDays, Omitted;
    if d == Date(BEGIN_YEAR, 1, 1) {
      FirstDay();
    } else {
      DateIsNth(Prev(d));
      NextCounts(Prev(d));
    }
  }

  // The numbers of some days.
  lemma FirstNumbers()
    ensures DayNumber(Date(2000, 1, 1)) == 0 && DayNumber(Date(2000, 1, 2)) == 1
  {
  }

  lemma LeapDayNumber()
    ensures DayNumber(Date(2000, 2, 29)) == 59
  {
  }

  lemma SecondYearNumber()
    ensures DayNumber(Date(2001, 1, 1)) == 366
  {
  }

  lemma CenturyNumber()
    ensures DayNumber(Date(2100, 2, 28)) == 36583
  {
  }

  lemma GapNumber()
    ensures DayNumber(Date(2100, 3, 1)) == 36584
  {
  }

  lemma FourCenturiesNumber()
    ensures DayNumber(Date(2400, 1, 1)) == 146097
  {
  }

  lemma NextLeapCenturyNumber()
    ensures DayNumber(Date(2400, 2, 29)) == 146097 + 59
  {
  }

  /** Where the counting begins and that four centuries have 146097 days: by the Gregorian
      calendar, 2000 and 2400 are leap years and 2100 is not. */
  lemma KnownDays()
    ensures NthDay(0) == Date(2000, 1, 1) && NthDay(1) == Date(2000, 1, 2) && NthDay(59) == Date(2000, 2, 29)
    ensures NthDay(366) == Date(2001, 1, 1)
    ensures NthDay(36583) == Date(2100, 2, 28) && NthDay(36584) == Date(2100, 3, 1)
    ensures NthDay(146097) == Date(2400, 1, 1) && NthDay(146097 + 59) == Date(2400, 2, 29)
  {
    hide NthDay, DayNumber;
    FirstNumbers();
    LeapDayNumber();
    SecondYearNumber();
    CenturyNumber();
    GapNumber();
    FourCenturiesNumber();
    NextLeapCenturyNumber();
    NumberIs(Date(2000, 1, 1), 0);
    NumberIs(Date(2000, 1, 2), 1);
    NumberIs(Date(2000, 2, 29), 59);
    NumberIs(Date(2001, 1, 1), 366);
    NumberIs(Date(2100, 2, 28), 36583);
    NumberIs(Date(2100, 3, 1), 36584);
    NumberIs(Date(2400, 1, 1), 146097);
    NumberIs(Date(2400, 2, 29), 146097 + 59);
  }

  lemma NumberIs(d: Date, n: nat)
    requires ValidDate(d) && DayNumber(d) == n
    ensures NthDay(n) == d
  {
    DateIsNth(d);
  }

  // The number of 2100-03-01, the first day that the closed form gets wrong.
  const FIRST_WRONG_DAY := 36584

  /** The closed form is exact up to 2100-02-28 and for no later day. */
  lemma WhenExact(n: nat)
    ensures var d := NthDay(n);
            && (Omitted(d) == 0 <==> n < FIRST_WRONG_DAY)
            && (Omitted(d) == 0 <==> d.year < 2100 || (d.year == 2100 && d.month <= 2))
            && 0 <= Omitted(d) <= d.year / 100
            && (n < 2 * FIRST_WRONG_DAY - 200 ==> Omitted(d) <= 1)
  {
    ClosedDaysOfNth(n);
    DaysBound(NthDay(n));
  }

  lemma DaysBound(d: Date)
    requires ValidDate(d)
    ensures 0 <= Omitted(d) <= d.year / 100
    ensures Omitted(d) == 0 <==> CountYear(d) < 2100
    ensures CountYear(d) < 2100 ==> ClosedDays(d) < FIRST_WRONG_DAY
    ensures CountYear(d) >= 2100 ==> ClosedDays(d) - Omitted(d) >= FIRST_WRONG_DAY
    ensures CountYear(d) >= 2200 ==> ClosedDays(d) - Omitted(d) >= 2 * FIRST_WRONG_DAY - 200
    ensures CountYear(d) < 2200 ==> Omitted(d) <= 1
  {
  }

  // ---- Seconds ----

  datatype Time = Time(date: Date, hour: int, minute: int, second: int)

  predicate ValidTime(t: Time) {
    && ValidDate(t.date) && t.date.year <= 0xFFFF
    && 0 <= t.hour < 24 && 0 <= t.minute < 60 && 0 <= t.second < 60
  }

  function TimeOfDay(t: Time): int {
    t.hour * 60 * 60 + t.minute * 60 + t.second
  }

  // The time that many seconds after the beginning.
  function FromSeconds(n: nat): (t: Time) {
    var rest := n % DAY_2_SECOND % (60 * 60);
    Time(NthDay(n / DAY_2_SECOND), n % DAY_2_SECOND / (60 * 60), rest / 60, rest % 60)
  }

  // The 32-bit second count that the closed form gives to a time.
  function ToSeconds(t: Time): int {
    (ClosedDays(t.date) * DAY_2_SECOND + TimeOfDay(t)) % U32
  }

  /** Splitting a second count into day and time of day loses nothing. */
  lemma SplitSeconds(n: nat)
    ensures var t := FromSeconds(n);
            && 0 <= t.hour < 24 && 0 <= t.minute < 60 && 0 <= t.second < 60
            && DAY_2_SECOND * (n / DAY_2_SECOND) + TimeOfDay(t) == n
  {
  }

  /** The count begins at midnight, and a day ends after 86399 seconds. */
  lemma KnownSeconds()
    ensures FromSeconds(0) == Time(Date(2000, 1, 1), 0, 0, 0)
    ensures FromSeconds(86399) == Time(Date(2000, 1, 1), 23, 59, 59)
    ensures FromSeconds(86400 + 3661) == Time(Date(2000, 1, 2), 1, 1, 1)
  {
    hide NthDay;
    SecondsAre(0, 0, 0, 0, 0);
    SecondsAre(86399, 0, 23, 59, 59);
    SecondsAre(86400 + 3661, 1, 1, 1, 1);
    KnownDays();
  }

  lemma SecondsAre(n: nat, day: nat, hour: nat, minute: nat, second: nat)
    requires n == day * 86400 + hour * 3600 + minute * 60 + second && hour < 24 && minute < 60 && second < 60
    ensures FromSeconds(n) == Time(NthDay(day), hour, minute, second)
  {
    hide NthDay;
  }

  /** Converting a second count to a date and back gives it again exactly when the date is
      before 2100-03-01; from then on a day is added, modulo 2^32. */
  lemma SecondsRoundTrip(n: nat)
    requires n < U32
    ensures ToSeconds(FromSeconds(n)) == n <==> n < FIRST_WRONG_DAY * DAY_2_SECOND
    ensures n >= FIRST_WRONG_DAY * DAY_2_SECOND ==> ToSeconds(FromSeconds(n)) == (n + DAY_2_SECOND) % U32
  {
    hide ClosedDays, Omitted, NthDay, TimeOfDay;
    var day := n / DAY_2_SECOND;
    SplitSeconds(n);
    ClosedDaysOfNth(day);
    WhenExact(day);
  }

  lemma NumberOfNth(n: nat)
    ensures DayNumber(NthDay(n)) == n
  {
    ClosedDaysOfNth(n);
  }

  // Two times with the same day and the same second of the day are the same.
  lemma TimeOfDayFixes(t: Time, n: nat)
    requires ValidTime(t) && n < DAY_2_SECOND && n == TimeOfDay(t)
    ensures n / (60 * 60) == t.hour && n % (60 * 60) / 60 == t.minute && n % (60 * 60) % 60 == t.second
  {
  }

  // The second count of a time: exact, plus a day for each day wrongly counted.
  lemma SecondsOf(t: Time)
    requires ValidTime(t)
    ensures 0 <= TimeOfDay(t) < DAY_2_SECOND
    ensures ToSeconds(t) == ((DayNumber(t.date) + Omitted(t.date)) * DAY_2_SECOND + TimeOfDay(t)) % U32
  {
  }

  lemma ExactRoundTrip(t: Time)
    requires ValidTime(t) && Omitted(t.date) == 0
    ensures FromSeconds(ToSeconds(t)) == t
  {
    hide ClosedDays, Omitted, NthDay, TimeOfDay;
    var day := DayNumber(t.date);
    DateIsNth(t.date);
    WhenExact(day);
    SecondsOf(t);
    assert ToSeconds(t) / DAY_2_SECOND == day && ToSeconds(t) % DAY_2_SECOND == TimeOfDay(t);
    TimeOfDayFixes(t, TimeOfDay(t));
  }

  lemma InexactRoundTrip(t: Time)
    requires ValidTime(t) && 0 < Omitted(t.date) <= 655
    ensures FromSeconds(ToSeconds(t)) != t
  {
    hide ClosedDays, Omitted, NthDay, TimeOfDay;
    if FromSeconds(ToSeconds(t)) == t {
      SecondsOf(t);
      NumberOfNth(ToSeconds(t) / DAY_2_SECOND);
      SplitSeconds(ToSeconds(t));
      NotWrapped(ToSeconds(t), Omitted(t.date) * DAY_2_SECOND);
    }
  }

  lemma NotWrapped(n: int, more: int)
    requires 0 < more < U32 && 0 <= n < U32
    ensures n != (n + more) % U32
  {
  }

  /** A date and time survives the conversion to seconds and back exactly when it is before
      2100-03-01. */
  lemma TimeRoundTrip(t: Time)
    requires ValidTime(t)
    ensures FromSeconds(ToSeconds(t)) == t <==> Omitted(t.date) == 0
    ensures Omitted(t.date) == 0 <==> t.date.year < 2100 || (t.date.year == 2100 && t.date.month <= 2)
  {
    DaysBound(t.date);
    hide ClosedDays, Omitted, NthDay, TimeOfDay;
    if Omitted(t.date) == 0 {
      ExactRoundTrip(t);
    } else {
      InexactRoundTrip(t);
    }
  }

  lemma {:induction false} YearBound(n: nat)
    ensures BEGIN_YEAR <= NthDay(n).year <= BEGIN_YEAR + n
  {
    if n > 0 { YearBound(n - 1); }
  }

  lemma FirstOfNth()
    ensures NthDay(0) == Date(BEGIN_YEAR, 1, 1)
  {
  }

  lemma NextOfNth(n: nat)
    requires n > 0
    ensures NthDay(n) == Next(NthDay(n - 1))
  {
  }

  // The record that the conversions fill in; the fields have the widths their names say.
  class SystemTimeRecord {
    var u32TimeStamp: int
    var u16Year: int
    var u08Month: int
    var u08Day: int
    var u08Hour: int
    var u08Minute: int
    var u08Second: int

    ghost function Now(): Time
      reads this
    {
      Time(Date(u16Year, u08Month, u08Day), u08Hour, u08Minute, u08Second)
    }

    // One turn of the loop: the day after.
    method NextDay()
      requires ValidDate(Now().date) && u16Year < 0xFFFF
      modifies `u16Year, `u08Month, `u08Day
      ensures Now().date == Next(old(Now().date))
    {
      u08Day := (u08Day + 1) % 0x100;
      if u08Day > DayPerMonth(LeapYearCheck(u16Year), u08Month) {
        u08Day := 1;
        u08Month := (u08Month + 1) % 0x100;
        if u08Month > 12 {
          u08Month := 1;
          u16Year := (u16Year + 1) % 0x1_0000;
        }
      }
    }

    // The loop of SystemTimeSecToDateConv.
    method CountDays(days: nat)
      requires days < 0xF000
      modifies `u16Year, `u08Month, `u08Day
      ensures Now().date == NthDay(days)
    {
      hide NthDay, Next;
      FirstOfNth();
      u16Year, u08Month, u08Day := BEGIN_YEAR, 1, 1;
      var day := days;
      while day != 0
        invariant 0 <= day <= days
        invariant Now().date == NthDay(days - day)
      {
        day := day - 1;
        YearBound(days - day - 1);
        NextDay();
        NextOfNth(days - day);
      }
    }

    /** SystemTimeSecToDateConv: counts the days one by one. */
    method FromSecond(second: int)
      requires 0 <= second < U32
      modifies this
      ensures Now() == FromSeconds(second) && u32TimeStamp == second
      ensures u16Year <= 0xFFFF
    {
      hide NthDay;
      u32TimeStamp := second;
      var day := second / DAY_2_SECOND;
      u08Hour := second % DAY_2_SECOND / (60 * 60);
      var rest := second % DAY_2_SECOND % (60 * 60);
      u08Minute := rest / 60;
      u08Second := rest % 60;
      CountDays(day);
      YearBound(day);
    }

    /** SystemTimeDateToSecConv: the closed form in unsigned 32-bit arithmetic. In January and
        February of the year 0 the year counted wraps, and the number of days is 2^30 too large;
        the seconds are the same. */
    method ToSecond() returns (second: int)
      requires 0 <= u16Year <= 0xFFFF && 0 <= u08Month <= 0xFF && 0 <= u08Day <= 0xFF
      ensures second == ToSeconds(Now())
    {
      hide ToSeconds, WrappedDays;
      var f, g;
      if u08Month <= 2 { f := (u16Year - 1) % U32; } else { f := u16Year; }
      if u08Month <= 2 { g := u08Month + 13; } else { g := u08Month + 1; }
      assert f == CountYear(Now().date) % U32 && g == CountMonth(Now().date);
      var days := WrappedDays(f, g, u08Day);
      second := (days * DAY_2_SECOND + (u08Hour * 60 * 60 + u08Minute * 60 + u08Second)) % U32;
      WrappedSeconds(Now());
    }
  }

  // The number of days in 32 bits, of the year and the month counted.
  function WrappedDays(f: int, g: int, day: int): int {
    (1461 * f % U32 / 4 + 153 * g / 5 + day - BEGIN_DATE) % U32
  }

  lemma WrappedSeconds(t: Time)
    requires 0 <= t.date.year <= 0xFFFF
    ensures (WrappedDays(CountYear(t.date) % U32, CountMonth(t.date), t.date.day) * DAY_2_SECOND + TimeOfDay(t)) % U32
            == ToSeconds(t)
  {
    var year, days, rest := CountYear(t.date), ClosedDays(t.date), TimeOfDay(t);
    YearDays(year);
    ClosedDaysIs(t.date);
    hide ClosedDays, TimeOfDay, CountMonth;
    if year < 0 {
      WrapDays(days + LAP, rest);
      WrapLap(days, rest);
    } else {
      WrapDays(days, rest);
    }
  }

  lemma ClosedDaysIs(d: Date)
    ensures ClosedDays(d) == 1461 * CountYear(d) / 4 + 153 * CountMonth(d) / 5 + d.day - BEGIN_DATE
  {
  }

  const LAP := 0x4000_0000

  // The days of the years in 32 bits.
  lemma YearDays(year: int)
    requires -1 <= year <= 0xFFFF
    ensures 1461 * (year % U32) % U32 / 4 == 1461 * year / 4 + if year < 0 then LAP else 0
  {
  }

  // As many days make up whole laps of 2^32 seconds.
  lemma WrapLap(days: int, rest: int)
    ensures ((days + LAP) * DAY_2_SECOND + rest) % U32 == (days * DAY_2_SECOND + rest) % U32
  {
    assert (days + LAP) * DAY_2_SECOND + rest == days * DAY_2_SECOND + rest + 21600 * U32;
    WrapAway(days * DAY_2_SECOND + rest, 21600);
  }

  // Wrapping the day count first does not change the wrapped second count.
  lemma WrapDays(days: int, rest: int)
    ensures (days % U32 * DAY_2_SECOND + rest) % U32 == (days * DAY_2_SECOND + rest) % U32
  {
    var q := days / U32;
    assert days * DAY_2_SECOND + rest == (days % U32 * DAY_2_SECOND + rest) + q * DAY_2_SECOND * U32;
    WrapAway(days % U32 * DAY_2_SECOND + rest, q * DAY_2_SECOND);
  }

  lemma WrapAway(m: int, k: int)
    ensures (m + k * U32) % U32 == m % U32
  {
  }
}
