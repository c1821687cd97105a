/** The month page of the calendar: the weekday of a date in closed form, and the grid of days. */
module Calendar {
  import opened Basics
  import opened SystemTime

  // The weekday of 2000-01-01, a Saturday when Sunday is 0.
  const WEEKDAY_BAS := 6

  // ---- The weekday ----

  // The table DaysTab.
  function DaysTab(month: int): int
    requires 0 <= month <= 12
  {
    if month == 2 then 28
    else if month == 4 || month == 6 || month == 9 || month == 11 then 30
    else 31
  }

  // The days of the months before the month in a year that is not a leap year.
  function DaysBefore(month: int): int
    requires 1 <= month <= 12
  {
    if month == 1 then 0 else DaysBefore(month - 1) + DaysTab(month - 1)
  }

  lemma FirstMonth()
    ensures DaysBefore(1) == 0
  {
  }

  lemma DaysBeforeNext(month: int)
    requires 1 <= month < 12
    ensures DaysBefore(month + 1) == DaysBefore(month) + DaysTab(month)
  {
  }

  /** The weekday that the closed form of the system clock gives. */
  function WeekDay(d: Date): (w: int)
    ensures 0 <= w < 7
  {
    (ClosedDays(d) + WEEKDAY_BAS) % 7
  }

  // A year of the clock starts after 365 days for each year and one for each fourth year.
  lemma YearStart(year: int)
    requires 0 <= year
    ensures ClosedDays(Date(BEGIN_YEAR + year, 1, 1)) == if year != 0 then year * 365 + (year - 1) / 4 + 1 else 0
  {
    assert 1461 * (BEGIN_YEAR + year - 1) / 4 == 365 * (BEGIN_YEAR + year - 1) + (BEGIN_YEAR + year - 1) / 4;
  }

  lemma TableDays(year: int, month: int)
    requires 1 <= month <= 12
    ensures DayPerMonth(year % 4 == 0, month) == DaysTab(month) + if month == 2 && year % 4 == 0 then 1 else 0
  {
  }

  // Counting the days of the year by the table of months, or in closed form.
  lemma {:induction false} MonthStart(year: int, month: int)
    requires 0 <= year && 1 <= month <= 12
    ensures ClosedDays(Date(BEGIN_YEAR + year, month, 1))
            == ClosedDays(Date(BEGIN_YEAR + year, 1, 1)) + DaysBefore(month) + if month > 2 && year % 4 == 0 then 1 else 0
    decreases month
  {
    hide ClosedDays, DayPerMonth;
    if month > 1 {
      MonthStart(year, month - 1);
      MonthCounts(BEGIN_YEAR + year, month - 1);
      TableDays(BEGIN_YEAR + year, month - 1);
      assert (BEGIN_YEAR + year) % 4 == year % 4;
    }
  }

  lemma DayOfMonth(year: int, month: int, day: int)
    ensures ClosedDays(Date(year, month, day)) == ClosedDays(Date(year, month, 1)) + day - 1
  {
  }

  /** The first day of the clock is a Saturday, with Sunday as 0. */
  lemma FirstWeekDay()
    ensures NthDay(0) == Date(2000, 1, 1) && WeekDay(Date(2000, 1, 1)) == 6
  {
  }

  /** GetWeekDay: year is the offset from 2000. */
  method GetWeekDay(year: int, month: int, day: int) returns (weekDay: int)
    requires 0 <= year < U16 && 1 <= month <= 12 && 1 <= day <= 0xFF
    ensures weekDay == WeekDay(Date(2000 + year, month, day))
  {
    var temp;
    if year != 0 {
      temp := year * 365 + (year - 1) / 4 + 1;
    } else {
      temp := 0;
    }
    ghost var base := temp;
    hide ClosedDays, DaysBefore, WeekDay, DaysTab;
    FirstMonth();
    var i := 1;
    while i < month
      invariant 1 <= i <= month
      invariant temp == base + DaysBefore(i)
    {
      DaysBeforeNext(i);
      temp := temp + DaysTab(i);
      i := i + 1;
    }
    if month > 2 && year % 4 == 0 {
      temp := temp + 1;
    }
    temp := temp + (day - 1);
    DaysCounted(year, month, day, base);
    WeekDayIs(Date(BEGIN_YEAR + year, month, day), temp);
    temp := temp + WEEKDAY_BAS;
    weekDay := temp % 7;
  }

  lemma DaysCounted(year: int, month: int, day: int, base: int)
    requires 0 <= year && 1 <= month <= 12 && base == if year != 0 then year * 365 + (year - 1) / 4 + 1 else 0
    ensures ClosedDays(Date(BEGIN_YEAR + year, month, day))
            == base + DaysBefore(month) + (if month > 2 && year % 4 == 0 then 1 else 0) + (day - 1)
  {
    hide ClosedDays, DaysBefore;
    YearStart(year);
    MonthStart(year, month);
    DayOfMonth(BEGIN_YEAR + year, month, day);
  }

  lemma WeekDayIs(d: Date, days: int)
    requires days == ClosedDays(d)
    ensures WeekDay(d) == (days + WEEKDAY_BAS) % 7
  {
  }

  /** From one day to the next the weekday advances by one, except where the calendar omits a
      29th of February. */
  lemma WeekDayAdvances(d: Date)
    requires ValidDate(d)
    ensures WeekDay(Next(d)) == (WeekDay(d) + 1) % 7 <==> !BeforeGap(d)
    ensures BeforeGap(d) ==> WeekDay(Next(d)) == (WeekDay(d) + 2) % 7
  {
    hide ClosedDays;
    NextCounts(d);
    AddModSeven(ClosedDays(d) + WEEKDAY_BAS, if BeforeGap(d) then 2 else 1);
  }

  /** The weekday is right for the n-th day exactly when the number of leap days wrongly counted
      before it is a multiple of seven. Before 2100-03-01 it is zero. */
  lemma WeekDayIsGregorian(n: nat)
    ensures WeekDay(NthDay(n)) == (n + 6) % 7 <==> Omitted(NthDay(n)) % 7 == 0
    ensures n < FIRST_WRONG_DAY ==> WeekDay(NthDay(n)) == (n + 6) % 7
  {
    ClosedDaysOfNth(n);
    WhenExact(n);
    hide ClosedDays, Omitted, NthDay;
  }

  // ---- The page ----

  /** GetMonthDays. */
  function GetMonthDays(year: int, month: int): (days: int)
    requires 1 <= month <= 12
    ensures days == DayPerMonth(LeapYearCheck(year), month)
  {
    if month == 2 && LeapYearCheck(year) then 29 else DaysTab(month)
  }

  datatype Style = Today | NormalDay | Sunday

  // One day drawn, with the corner of its rectangle.
  datatype DrawnDay = DrawnDay(day: int, style: Style, x: int, y: int)

  class Rect {
    var x: int
    var y: int
    const w: int
    const h: int

    constructor (x: int, y: int, w: int, h: int)
      ensures this.x == x && this.y == y && this.w == w && this.h == h
    {
      this.x, this.y, this.w, this.h := x, y, w, h;
    }
  }

  class Window {
    var drawn: seq<DrawnDay>

    constructor ()
      ensures drawn == []
    {
      drawn := [];
    }

    method Draw(day: int, style: Style, pRect: Rect)
      modifies this
      ensures drawn == old(drawn) + [DrawnDay(day, style, pRect.x, pRect.y)]
    {
      drawn := drawn + [DrawnDay(day, style, pRect.x, pRect.y)];
    }
  }

  // The first column of the page; the year is given to GetWeekDay as a 16-bit offset.
  function FirstColumn(year: int, month: int): (column: int)
    ensures 0 <= column < 7
  {
    WeekDay(Date(BEGIN_YEAR + (year - BEGIN_YEAR) % U16, month, 1))
  }

  function Column(first: int, day: int): int {
    (first + day - 1) % 7
  }

  function Row(first: int, day: int): int {
    (first + day - 1) / 7
  }

  /** How a day is drawn on a page whose first day stands in column first and whose corner is
      (x, y), with cells of size w by h. */
  function Cell(first: int, day: int, today: int, x: int, y: int, w: int, h: int): DrawnDay {
    var style := if day == today then Today else if Column(first, day) == 0 then Sunday else NormalDay;
    DrawnDay(day, style, (x + Column(first, day) * w) % U16, (y + Row(first, day) * h) % U16)
  }

  lemma NextCell(first: int, day: int)
    requires 0 <= first && 1 <= day
    ensures Column(first, day) < 6 ==> Column(first, day + 1) == Column(first, day) + 1 && Row(first, day + 1) == Row(first, day)
    ensures Column(first, day) >= 6 ==> Column(first, day + 1) == 0 && Row(first, day + 1) == Row(first, day) + 1
  {
  }

  lemma OneMore(k: int, w: int)
    ensures (k + 1) * w == k * w + w && 0 * w == 0
  {
  }

  // The days from the first on as the cells say.
  ghost predicate IsPage(page: seq<DrawnDay>, first: int, today: int, x: int, y: int, w: int, h: int) {
    forall k :: 0 <= k < |page| ==> page[k] == Cell(first, k + 1, today, x, y, w, h)
  }

  lemma PageGrows(page: seq<DrawnDay>, first: int, today: int, x: int, y: int, w: int, h: int, e: DrawnDay)
    requires IsPage(page, first, today, x, y, w, h) && e == Cell(first, |page| + 1, today, x, y, w, h)
    ensures IsPage(page + [e], first, today, x, y, w, h)
  {
  }

  /** Calendar_DrawDays: each day of the month once, in order, today in its style, the other days
      by the weekday they have, and each in the cell of its weekday and week. */
  method DrawDays(psWin: Window, year: int, month: int, today: int, pRect: Rect) returns (ghost page: seq<DrawnDay>)
    requires 0 <= year < U16 && 1 <= month <= 12
    requires 0 <= pRect.x < U16 && 0 <= pRect.y < U16 && 0 <= pRect.w < U16 && 0 <= pRect.h < U16
    modifies psWin, pRect
    ensures psWin.drawn == old(psWin.drawn) + page && |page| == GetMonthDays(year, month) > 0
    ensures IsPage(page, FirstColumn(year, month), today, old(pRect.x), old(pRect.y), pRect.w, pRect.h)
    ensures pRect.x == page[|page| - 1].x && pRect.y == page[|page| - 1].y
    ensures year >= 2000 ==> forall k :: 0 <= k < |page| ==>
              && page[k].day == k + 1 && (page[k].style == Today <==> k + 1 == today)
              && (page[k].style == Sunday <==> k + 1 != today && WeekDay(Date(year, month, k + 1)) == 0)
    ensures year >= 2000 && old(pRect.x) + 7 * pRect.w <= U16 && old(pRect.y) + 6 * pRect.h <= U16 ==>
              forall k :: 0 <= k < |page| ==>
                && page[k].x == old(pRect.x) + WeekDay(Date(year, month, k + 1)) * pRect.w
                && page[k].y == old(pRect.y) + (WeekDay(Date(year, month, 1)) + k) / 7 * pRect.h
  {
    hide WeekDay, Column, Row, IsPage;
    var startX, startY := pRect.x, pRect.y;
    var weekDay := GetWeekDay((year - BEGIN_YEAR) % U16, month, 1);
    var monthDays := GetMonthDays(year, month);
    var x := startX + weekDay * pRect.w;
    var y := pRect.y;
    ghost var first := weekDay;
    FirstCell(first);
    OneMore(0, pRect.h);
    page := [];
    assert IsPage(page, first, today, startX, startY, pRect.w, pRect.h) by { NoDays(first, today, startX, startY, pRect.w, pRect.h); }
    var day := 1;
    while day <= monthDays
      invariant 1 <= day <= monthDays + 1 && |page| == day - 1 && psWin.drawn == old(psWin.drawn) + page
      invariant weekDay == Column(first, day)
      invariant x == startX + Column(first, day) * pRect.w && y == startY + Row(first, day) * pRect.h
      invariant IsPage(page, first, today, startX, startY, pRect.w, pRect.h)
      invariant day > 1 ==> pRect.x == page[|page| - 1].x && pRect.y == page[|page| - 1].y
    {
      pRect.x, pRect.y := x % U16, y % U16;
      if day == today {
        psWin.Draw(day, Today, pRect);
      } else if weekDay != 0 {
        psWin.Draw(day, NormalDay, pRect);
      } else {
        psWin.Draw(day, Sunday, pRect);
      }
      PageGrows(page, first, today, startX, startY, pRect.w, pRect.h, psWin.drawn[|psWin.drawn| - 1]);
      page := page + [psWin.drawn[|psWin.drawn| - 1]];
      NextCell(first, day);
      OneMore(weekDay, pRect.w);
      OneMore(Row(first, day), pRect.h);
      if weekDay < 6 {
        x := x + pRect.w;
        weekDay := weekDay + 1;
      } else {
        weekDay := 0;
        x := startX;
        y := y + pRect.h;
      }
      day := day + 1;
    }
    if year >= 2000 {
      PageMeans(year, month, today, startX, startY, pRect.w, pRect.h, page);
    }
  }

  lemma NoDays(first: int, today: int, x: int, y: int, w: int, h: int)
    ensures IsPage([], first, today, x, y, w, h)
  {
  }

  // What the cells of a page mean, by the weekdays of its days.
  lemma PageMeans(year: int, month: int, today: int, x: int, y: int, w: int, h: int, page: seq<DrawnDay>)
    requires BEGIN_YEAR <= year < U16 && 1 <= month <= 12 && |page| == GetMonthDays(year, month)
    requires 0 <= x < U16 && 0 <= y < U16 && 0 <= w && 0 <= h
    requires IsPage(page, FirstColumn(year, month), today, x, y, w, h)
    ensures forall k :: 0 <= k < |page| ==>
              && page[k].day == k + 1 && (page[k].style == Today <==> k + 1 == today)
              && (page[k].style == Sunday <==> k + 1 != today && WeekDay(Date(year, month, k + 1)) == 0)
    ensures x + 7 * w <= U16 && y + 6 * h <= U16 ==> forall k :: 0 <= k < |page| ==>
              && page[k].x == x + WeekDay(Date(year, month, k + 1)) * w
              && page[k].y == y + (WeekDay(Date(year, month, 1)) + k) / 7 * h
  {
    hide WeekDay, Cell, FirstColumn, GetMonthDays;
    forall k | 0 <= k < |page|
      ensures && page[k].day == k + 1 && (page[k].style == Today <==> k + 1 == today)
              && (page[k].style == Sunday <==> k + 1 != today && WeekDay(Date(year, month, k + 1)) == 0)
              && (x + 7 * w <= U16 && y + 6 * h <= U16 ==>
                    && page[k].x == x + WeekDay(Date(year, month, k + 1)) * w
                    && page[k].y == y + (WeekDay(Date(year, month, 1)) + k) / 7 * h)
    {
      CellMeans(year, month, k + 1, today, x, y, w, h);
    }
  }

  // What a cell means, by the weekday of its day.
  lemma CellMeans(year: int, month: int, d: int, today: int, x: int, y: int, w: int, h: int)
    requires BEGIN_YEAR <= year < U16 && 1 <= month <= 12 && 1 <= d <= GetMonthDays(year, month)
    requires 0 <= x < U16 && 0 <= y < U16 && 0 <= w && 0 <= h
    ensures var e, weekDay := Cell(FirstColumn(year, month), d, today, x, y, w, h), WeekDay(Date(year, month, d));
            && e.day == d && (e.style == Today <==> d == today) && (e.style == Sunday <==> d != today && weekDay == 0)
            && (x + 7 * w <= U16 && y + 6 * h <= U16 ==>
                  e.x == x + weekDay * w && e.y == y + (WeekDay(Date(year, month, 1)) + d - 1) / 7 * h)
  {
    PageAgrees(year, month, d, d);
    FirstColumnIs(year, month);
    var first := FirstColumn(year, month);
    var c, r := Column(first, d), Row(first, d);
    assert r == (WeekDay(Date(year, month, 1)) + d - 1) / 7;
    hide WeekDay, ClosedDays, FirstColumn, Column, Row, GetMonthDays;
    Fits(x, c, 6, w);
    Fits(y, r, 5, h);
  }

  lemma FirstColumnIs(year: int, month: int)
    requires BEGIN_YEAR <= year < U16
    ensures FirstColumn(year, month) == WeekDay(Date(year, month, 1))
  {
  }

  // What fits before the next place does not wrap.
  lemma Fits(x: int, k: int, n: int, w: int)
    requires 0 <= x < U16 && 0 <= k <= n && 0 <= w
    ensures x + n * w + w <= U16 && w > 0 ==> (x + k * w) % U16 == x + k * w
    ensures w == 0 ==> (x + k * w) % U16 == x + k * w
  {
    if w > 0 { Within(k, n, w); }
  }

  lemma FirstCell(first: int)
    requires 0 <= first < 7
    ensures Column(first, 1) == first && Row(first, 1) == 0
  {
  }

  // ---- The page agrees with the weekday on every cell ----

  lemma AddModSeven(a: int, k: int)
    ensures (a % 7 + k) % 7 == (a + k) % 7
  {
  }

  /** Every day of the page stands under its weekday, within six rows, and no two days share a
      cell. */
  lemma PageAgrees(year: int, month: int, day: int, other: int)
    requires BEGIN_YEAR <= year < U16 && 1 <= month <= 12
    requires 1 <= day <= GetMonthDays(year, month) && 1 <= other <= GetMonthDays(year, month)
    ensures var first := FirstColumn(year, month);
            && Column(first, day) == WeekDay(Date(year, month, day))
            && 0 <= Row(first, day) <= 5
            && (Column(first, day) == Column(first, other) && Row(first, day) == Row(first, other) ==> day == other)
  {
    hide ClosedDays;
    DayOfMonth(year, month, day);
    AddModSeven(ClosedDays(Date(year, month, 1)) + WEEKDAY_BAS, day - 1);
  }

  /** On a page whose grid fits into the 16-bit coordinates, the rectangles of two days do not
      overlap. */
  lemma CellsApart(first: int, day: int, other: int, today: int, x: int, y: int, w: int, h: int)
    requires 0 <= first < 7 && 1 <= day < other <= 31
    requires 0 <= x && 0 <= y && 0 < w && 0 < h && x + 7 * w <= U16 && y + 6 * h <= U16
    ensures var a, b := Cell(first, day, today, x, y, w, h), Cell(first, other, today, x, y, w, h);
            a.x + w <= b.x || b.x + w <= a.x || a.y + h <= b.y
  {
    var c, d := Column(first, day), Column(first, other);
    var r, s := Row(first, day), Row(first, other);
    Order(first, day, other);
    hide Column, Row;
    Fits(x, c, 6, w);
    Fits(x, d, 6, w);
    Fits(y, r, 5, h);
    Fits(y, s, 5, h);
    if r < s {
      Apart(r, s, h);
    } else if c < d {
      Apart(c, d, w);
    } else {
      Apart(d, c, w);
    }
  }

  // The days fill the rows one after the other.
  lemma Order(first: int, day: int, other: int)
    requires 0 <= first < 7 && 1 <= day < other <= 31
    ensures 0 <= Row(first, day) <= Row(first, other) <= 5
    ensures 0 <= Column(first, day) <= 6 && 0 <= Column(first, other) <= 6
    ensures Row(first, day) == Row(first, other) ==> Column(first, day) < Column(first, other)
  {
  }

  lemma Apart(k: int, n: int, w: int)
    requires 0 <= k < n && 0 < w
    ensures k * w + w <= n * w
  {
    OneMore(k, w);
    Within(k + 1, n, w);
  }

  lemma Within(k: int, n: int, w: int)
    requires 0 <= k <= n && 0 < w
    ensures 0 <= k * w <= n * w
  {
  }

  /** The page of the next month goes on in the column after the last day, except from a
      February without the 29th that every fourth year would have. */
  lemma NextPageFollows(year: int, month: int)
    requires BEGIN_YEAR <= year < U16 - 1 && 1 <= month <= 12
    ensures var last := Date(year, month, GetMonthDays(year, month));
            var next := NextMonth(year, month);
            FirstColumn(next.year, next.month) == (WeekDay(last) + 1) % 7 <==> !BeforeGap(last)
  {
    hide ClosedDays, WeekDay;
    WeekDayAdvances(Date(year, month, GetMonthDays(year, month)));
  }

  /** On the page of any month up to February 2100, a day stands in the column of its weekday
      counted day by day from 2000-01-01. */
  lemma PageIsGregorian(n: nat)
    requires NthDay(n).year < U16
    ensures var d := NthDay(n);
            Column(FirstColumn(d.year, d.month), d.day) == (n + 6) % 7 <==> Omitted(d) % 7 == 0
    ensures n < FIRST_WRONG_DAY ==> Omitted(NthDay(n)) == 0
  {
    var d := NthDay(n);
    PageAgrees(d.year, d.month, d.day, d.day);
    WeekDayIsGregorian(n);
    WhenExact(n);
  }
}
