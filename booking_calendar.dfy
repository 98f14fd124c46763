/** The month calendar of the meeting-booking widget: month navigation, the grid of
    blank and day cells, the classification of each day, and the past-date click guard. */
module BookingCalendar {
  import opened Gregorian
  import opened JsDate
  import opened Wrappers

  /** The displayed month: a year and a 0-based month, as `getFullYear()` / `getMonth()` report them */
  datatype YearMonth = YearMonth(year: int, month: int)

  predicate ValidMonth(ym: YearMonth) {
    0 <= ym.month < 12
  }

  /** handlePrevMonth: the month of `new Date(year, month - 1, 1)`, built without the
      two-digit-year rule (see StepMonthAsWritten). Counting months as 12 * year + month,
      it is the month just before, and it is always a valid month. */
  function PrevMonthOf(ym: YearMonth): (r: YearMonth)
    ensures ValidMonth(r)
    ensures 12 * r.year + r.month == 12 * ym.year + ym.month - 1
  {
    var d := NewDate(ym.year, ym.month - 1, 1);
    YearMonth(d.year, d.month)
  }

  /** handleNextMonth: the month of `new Date(year, month + 1, 1)`, built without the
      two-digit-year rule (see StepMonthAsWritten): the month just after, always valid */
  function NextMonthOf(ym: YearMonth): (r: YearMonth)
    ensures ValidMonth(r)
    ensures 12 * r.year + r.month == 12 * ym.year + ym.month + 1
  {
    var d := NewDate(ym.year, ym.month + 1, 1);
    YearMonth(d.year, d.month)
  }

  /** Either handler with the Date constructor's two-digit-year rule in force: the step is
      taken from year 1900 + year when the displayed year is 0 to 99 */
  function StepMonthAsWritten(ym: YearMonth, delta: int): (r: YearMonth)
    ensures ValidMonth(r)
    ensures 0 <= ym.year <= 99 ==> 12 * r.year + r.month == 12 * (1900 + ym.year) + ym.month + delta
    ensures !(0 <= ym.year <= 99) ==> 12 * r.year + r.month == 12 * ym.year + ym.month + delta
  {
    var d := NewDateAsWritten(ym.year, ym.month + delta, 1);
    YearMonth(d.year, d.month)
  }

  /** Going back from January lands on December of the previous year; otherwise on the month before */
  lemma PrevMonthWraps(ym: YearMonth)
    requires ValidMonth(ym)
    ensures PrevMonthOf(ym) == if ym.month == 0 then YearMonth(ym.year - 1, 11)
                               else YearMonth(ym.year, ym.month - 1)
  {
    if ym.month == 0 {
      assert (ym.month - 1) / 12 == -1 && (ym.month - 1) % 12 == 11;
    } else {
      assert (ym.month - 1) / 12 == 0 && (ym.month - 1) % 12 == ym.month - 1;
    }
  }

  /** Going forward from December lands on January of the next year; otherwise on the month after */
  lemma NextMonthWraps(ym: YearMonth)
    requires ValidMonth(ym)
    ensures NextMonthOf(ym) == if ym.month == 11 then YearMonth(ym.year + 1, 0)
                               else YearMonth(ym.year, ym.month + 1)
  {
    if ym.month == 11 {
      assert (ym.month + 1) / 12 == 1 && (ym.month + 1) % 12 == 0;
    } else {
      assert (ym.month + 1) / 12 == 0 && (ym.month + 1) % 12 == ym.month + 1;
    }
  }

  /** "Next" undoes "previous" */
  lemma NextUndoesPrev(ym: YearMonth)
    requires ValidMonth(ym)
    ensures ValidMonth(PrevMonthOf(ym)) && NextMonthOf(PrevMonthOf(ym)) == ym
  {
    PrevMonthWraps(ym);
    NextMonthWraps(PrevMonthOf(ym));
  }

  /** "Previous" undoes "next" */
  lemma PrevUndoesNext(ym: YearMonth)
    requires ValidMonth(ym)
    ensures ValidMonth(NextMonthOf(ym)) && PrevMonthOf(NextMonthOf(ym)) == ym
  {
    NextMonthWraps(ym);
    PrevMonthWraps(NextMonthOf(ym));
  }

  /** Inside years 0 to 99 "next" as written moves on from the same month of year
      1900 + year, so the displayed year jumps by about nineteen centuries */
  lemma TwoDigitYearJumps(ym: YearMonth)
    requires ValidMonth(ym) && 0 <= ym.year <= 99
    ensures StepMonthAsWritten(ym, 1) == NextMonthOf(YearMonth(1900 + ym.year, ym.month))
    ensures StepMonthAsWritten(ym, 1).year >= 1900
  {
    NextMonthWraps(YearMonth(1900 + ym.year, ym.month));
  }

  /** With the two-digit-year rule, "previous" from January of year 100 shows December of
      year 99, and "next" from there shows January 2000 instead of January 100 */
  lemma TwoDigitYearBreaksRoundTrip()
    ensures StepMonthAsWritten(YearMonth(100, 0), -1) == YearMonth(99, 11)
    ensures StepMonthAsWritten(YearMonth(99, 11), 1) == YearMonth(2000, 0)
    ensures NextMonthOf(PrevMonthOf(YearMonth(100, 0))) == YearMonth(100, 0)
  {
    PrevMonthWraps(YearMonth(100, 0));
    TwoDigitYearJumps(YearMonth(99, 11));
    NextMonthWraps(YearMonth(1999, 11));
    NextUndoesPrev(YearMonth(100, 0));
  }

  /** firstDayOfMonth: the weekday (0 = Sunday) of the 1st, which is the number of blank
      cells before it; the 1st is built without the two-digit-year rule */
  function FirstDayOfMonth(year: int, month: int): (blanks: int)
    ensures 0 <= blanks < 7
  {
    GetDay(NewDate(year, month, 1))
  }

  /** "Day 0 of the next month" is the last day of this month */
  lemma DayZeroIsLastDay(year: int, month: int)
    requires 0 <= month < 12
    ensures NewDate(year, month + 1, 0) == CivilDate(year, month, MonthLength(year, month))
  {
    NextMonthWraps(YearMonth(year, month));
    var (ny, nm) := NextOf(year, month);
    assert NewDate(year, month + 1, 0) == NormalizeDay(ny, nm, 0);
    assert PrevOf(ny, nm) == (year, month);
    assert NormalizeDay(ny, nm, 0) == NormalizeDay(year, month, MonthLength(year, month));
  }

  /** daysInMonth: the date of "day 0 of the next month", i.e. the last day of this one.
      It is the Gregorian month length: 30 or 31, and 29 for February exactly in leap years. */
  function DaysInMonth(year: int, month: int): (n: int)
    ensures 0 <= month < 12 ==> n == MonthLength(year, month)
    ensures 0 <= month < 12 ==> 28 <= n <= 31
  {
    if 0 <= month < 12 then
      DayZeroIsLastDay(year, month);
      NewDate(year, month + 1, 0).day
    else
      NewDate(year, month + 1, 0).day
  }

  /** The first of the next month comes exactly DaysInMonth days after the first of this one */
  lemma NextFirstFollowsLastDay(ym: YearMonth)
    requires ValidMonth(ym)
    ensures TimeValue(NewDate(NextMonthOf(ym).year, NextMonthOf(ym).month, 1))
         == TimeValue(NewDate(ym.year, ym.month, 1)) + DaysInMonth(ym.year, ym.month)
  {
    var y, m := ym.year, ym.month;
    var (ny, nm) := NextOf(y, m);
    NextMonthWraps(ym);
    NewDateFields(ny, nm, 1);
    NewDateFields(y, m, 1);
    MakeDayCarry(y, m, MonthLength(y, m) + 1);
    MakeDayInRange(y, m, 1);
    MakeDayInRange(y, m, MonthLength(y, m) + 1);
  }

  /** The next month's grid starts on the weekday after this month's last day */
  lemma NextMonthContinuesWeek(ym: YearMonth)
    requires ValidMonth(ym)
    ensures FirstDayOfMonth(NextMonthOf(ym).year, NextMonthOf(ym).month)
         == (FirstDayOfMonth(ym.year, ym.month) + DaysInMonth(ym.year, ym.month)) % 7
  {
    NextFirstFollowsLastDay(ym);
    WeekDayShift(TimeValue(NewDate(ym.year, ym.month, 1)), DaysInMonth(ym.year, ym.month));
  }

  /** isPast: the cell's midnight is before today's midnight; today itself is never past */
  predicate IsPast(date: CivilDate, today: CivilDate): (b: bool)
    ensures b ==> !IsToday(date, today)
  {
    TimeValue(date) < TimeValue(today)
  }

  /** isToday: both print the same `toDateString()`, i.e. have the same calendar date
      (the weekday it also prints follows from the date), and so the same time value */
  predicate IsToday(date: CivilDate, today: CivilDate): (b: bool)
    ensures b ==> TimeValue(date) == TimeValue(today)
  {
    date == today
  }

  /** isSelected: a date is selected and prints the same `toDateString()` as the cell.
      Without a selected date no cell is selected, and only the cell of the selected date is. */
  predicate IsSelected(date: CivilDate, selected: Option<CivilDate>): (b: bool)
    ensures selected.None? ==> !b
    ensures b ==> selected.value == date
  {
    selected == Some(date)
  }

  /** The click guard of handleDateClick: `clickedDate >= today`. It turns away exactly
      the days drawn as past. */
  predicate ClickAccepted(date: CivilDate, today: CivilDate): (b: bool)
    ensures b <==> !IsPast(date, today)
  {
    TimeValue(date) >= TimeValue(today)
  }

  /** A day is past exactly when it comes earlier on the calendar than today */
  lemma PastIffEarlier(date: CivilDate, today: CivilDate)
    requires ValidDate(date) && ValidDate(today)
    ensures IsPast(date, today) <==> Earlier(date, today)
    ensures ClickAccepted(date, today) <==> !Earlier(date, today)
  {
    DayOfOrder(date, today);
  }

  /** One cell of the grid: a leading blank, or a numbered day with its flags */
  datatype Cell = Blank | Day(day: int, isToday: bool, isSelected: bool, isPast: bool)

  /** The cell rendered for `day` of the displayed month. The grid only draws days 1 to
      `daysInMonth`; for those, `new Date(year, month, day)` (without the two-digit-year
      rule) has exactly these fields and
      comparing its time value with today's is comparing calendar dates (DayCellFlags), so
      the cell is computed from the fields directly. */
  function DayCell(ym: YearMonth, day: int, today: CivilDate, selected: Option<CivilDate>): (c: Cell)
    ensures c.Day? && c.day == day
    ensures c.isToday ==> !c.isPast
    ensures c.isSelected ==> selected == Some(CivilDate(ym.year, ym.month, day))
    ensures c.isToday && c.isSelected ==> selected == Some(today)
  {
    var date := CivilDate(ym.year, ym.month, day);
    Day(day, IsToday(date, today), IsSelected(date, selected), Earlier(date, today))
  }

  /** For every day the grid draws, the cell carries the flags renderCalendar computes from
      `new Date(year, month, day)`, built without the two-digit-year rule */
  lemma DayCellFlags(ym: YearMonth, day: int, today: CivilDate, selected: Option<CivilDate>)
    requires ValidMonth(ym) && 1 <= day <= MonthLength(ym.year, ym.month) && ValidDate(today)
    ensures var date := NewDate(ym.year, ym.month, day);
            DayCell(ym, day, today, selected)
              == Day(day, IsToday(date, today), IsSelected(date, selected), IsPast(date, today))
  {
    NewDateFields(ym.year, ym.month, day);
    PastIffEarlier(CivilDate(ym.year, ym.month, day), today);
  }

  /** A cell for today is never drawn as past */
  lemma TodayCellNotPast(ym: YearMonth, day: int, today: CivilDate, selected: Option<CivilDate>)
    ensures DayCell(ym, day, today, selected).isToday ==> !DayCell(ym, day, today, selected).isPast
  {
  }

  /** `n` leading blank cells */
  function Blanks(n: int): seq<Cell>
    decreases n
  {
    if n <= 0 then [] else Blanks(n - 1) + [Blank]
  }

  /** The cells of days 1 to `n` of the month, in order */
  function DayCellsUpTo(ym: YearMonth, n: int, today: CivilDate, selected: Option<CivilDate>): seq<Cell>
    decreases n
  {
    if n <= 0 then [] else DayCellsUpTo(ym, n - 1, today, selected) + [DayCell(ym, n, today, selected)]
  }

  /** The grid renderCalendar builds: `blanks` leading blanks, then the cells of days 1 to
      `days` */
  function Grid(blanks: int, ym: YearMonth, days: int, today: CivilDate, selected: Option<CivilDate>): seq<Cell> {
    Blanks(blanks) + DayCellsUpTo(ym, days, today, selected)
  }

  lemma {:induction false} BlanksLayout(n: nat)
    ensures |Blanks(n)| == n
    ensures forall i :: 0 <= i < n ==> Blanks(n)[i] == Blank
  {
    if n > 0 {
      BlanksLayout(n - 1);
    }
  }

  lemma {:induction false} DayCellsLayout(ym: YearMonth, n: nat, today: CivilDate, selected: Option<CivilDate>)
    ensures |DayCellsUpTo(ym, n, today, selected)| == n
    ensures forall i :: 0 <= i < n ==> DayCellsUpTo(ym, n, today, selected)[i] == DayCell(ym, i + 1, today, selected)
  {
    if n > 0 {
      DayCellsLayout(ym, n - 1, today, selected);
    }
  }

  /** The grid has exactly `blanks` blanks, then the cells of days 1 to `days` in increasing
      order */
  lemma GridLayout(blanks: nat, ym: YearMonth, days: nat, today: CivilDate, selected: Option<CivilDate>)
    ensures var g := Grid(blanks, ym, days, today, selected);
            |g| == blanks + days
            && (forall i :: 0 <= i < blanks ==> g[i] == Blank)
            && (forall i :: blanks <= i < |g| ==> g[i] == DayCell(ym, i - blanks + 1, today, selected))
  {
    BlanksLayout(blanks);
    DayCellsLayout(ym, days, today, selected);
    var g := Grid(blanks, ym, days, today, selected);
    forall i | blanks <= i < |g|
      ensures g[i] == DayCell(ym, i - blanks + 1, today, selected)
    {
      assert g[i] == DayCellsUpTo(ym, days, today, selected)[i - blanks];
    }
  }

  /** No cell of the grid is marked both today and past */
  lemma GridTodayNeverPast(blanks: nat, ym: YearMonth, days: nat, today: CivilDate, selected: Option<CivilDate>)
    ensures var g := Grid(blanks, ym, days, today, selected);
            forall i :: 0 <= i < |g| && g[i].Day? && g[i].isToday ==> !g[i].isPast
  {
    var g := Grid(blanks, ym, days, today, selected);
    GridLayout(blanks, ym, days, today, selected);
    forall i | blanks <= i < |g|
      ensures g[i].isToday ==> !g[i].isPast
    {
      TodayCellNotPast(ym, i - blanks + 1, today, selected);
    }
  }

  /** renderCalendar: `firstDay` blank cells, then one cell per day from 1 to `days` */
  method RenderCalendar(ym: YearMonth, firstDay: int, days: int, today: CivilDate, selected: Option<CivilDate>)
    returns (cells: seq<Cell>)
    ensures cells == Grid(firstDay, ym, days, today, selected)
  {
    cells := [];
    var i := 0;
    while i < firstDay
      invariant 0 <= i && (i <= firstDay || i == 0)
      invariant cells == Blanks(i)
      decreases firstDay - i
    {
      cells := cells + [Blank];
      i := i + 1;
    }
    ghost var blanks := cells;
    var day := 1;
    while day <= days
      invariant 1 <= day && (day <= days + 1 || day == 1)
      invariant cells == blanks + DayCellsUpTo(ym, day - 1, today, selected)
      decreases days - day
    {
      cells := cells + [DayCell(ym, day, today, selected)];
      day := day + 1;
    }
  }

  /** The BookingCalendar component's own state: the displayed month of `currentDate` */
  class Calendar {
    var year: int
    var month: int

    ghost predicate Valid()
      reads this
    {
      0 <= month < 12
    }

    function Shown(): YearMonth
      reads this
    {
      YearMonth(year, month)
    }

    /** Mounting: `useState(new Date())` shows the month of today */
    constructor (today: CivilDate)
      requires ValidDate(today)
      ensures Valid()
      ensures year == today.year && month == today.month
    {
      year := today.year;
      month := today.month;
    }

    method PrevMonth()
      requires Valid()
      modifies this
      ensures Valid()
      ensures Shown() == if old(month) == 0 then YearMonth(old(year) - 1, 11)
                         else YearMonth(old(year), old(month) - 1)
    {
      PrevMonthWraps(Shown());
      var ym := PrevMonthOf(Shown());
      year, month := ym.year, ym.month;
    }

    method NextMonth()
      requires Valid()
      modifies this
      ensures Valid()
      ensures Shown() == if old(month) == 11 then YearMonth(old(year) + 1, 0)
                         else YearMonth(old(year), old(month) + 1)
    {
      NextMonthWraps(Shown());
      var ym := NextMonthOf(Shown());
      year, month := ym.year, ym.month;
    }

    /** handleDateClick: the date handed to `onDateSelect`, or None when the click is
        ignored. Only rendered day cells can be clicked. */
    method HandleDateClick(day: int, today: CivilDate) returns (picked: Option<CivilDate>)
      requires Valid() && ValidDate(today) && 1 <= day <= DaysInMonth(year, month)
      ensures picked.None? <==> IsPast(NewDate(year, month, day), today)
      ensures picked.None? <==> Earlier(CivilDate(year, month, day), today)
      ensures picked.Some? ==> picked.value == CivilDate(year, month, day)
    {
      var clicked := NewDate(year, month, day);
      NewDateFields(year, month, day);
      PastIffEarlier(clicked, today);
      if TimeValue(clicked) >= TimeValue(today) {
        picked := Some(clicked);
      } else {
        picked := None;
      }
    }

    /** The calendar's render: `firstDayOfMonth` and `daysInMonth` of the displayed month,
        then the renderCalendar grid; its layout is GridLayout's */
    method Render(today: CivilDate, selected: Option<CivilDate>) returns (cells: seq<Cell>)
      requires Valid()
      ensures cells == Grid(FirstDayOfMonth(year, month), Shown(), MonthLength(year, month), today, selected)
    {
      var firstDayOfMonth := FirstDayOfMonth(year, month);
      var daysInMonth := DaysInMonth(year, month);
      cells := RenderCalendar(Shown(), firstDayOfMonth, daysInMonth, today, selected);
    }
  }
}
