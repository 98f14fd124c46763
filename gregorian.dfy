/** Proleptic Gregorian day arithmetic, as the ECMAScript Date algorithms define it
    (section 21.4.1 of ECMA-262): days are counted from 1970-01-01, months are 0-based. */
module Gregorian {

  predicate IsLeapYear(y: int) {
    y % 4 == 0 && (y % 100 != 0 || y % 400 == 0)
  }

  /** DaysInYear of ECMA-262 */
  function YearLength(y: int): int {
    if IsLeapYear(y) then 366 else 365
  }

  /** Number of days in month m (0 = January) of year y: February alone is short, and it
      has a 29th day exactly in leap years */
  function MonthLength(y: int, m: int): (n: int)
    requires 0 <= m < 12
    ensures 28 <= n <= 31
    ensures n < 30 <==> m == 1
    ensures n == 29 <==> m == 1 && IsLeapYear(y)
  {
    if m == 1 then (if IsLeapYear(y) then 29 else 28)
    else if m == 3 || m == 5 || m == 8 || m == 10 then 30
    else 31
  }

  /** Days of year y that come before the first of month m (the thresholds of MonthFromTime) */
  function MonthStart(y: int, m: int): int
    requires 0 <= m < 12
  {
    [0, 31, 59, 90, 120, 151, 181, 212, 243, 273, 304, 334][m]
      + (if m >= 2 && IsLeapYear(y) then 1 else 0)
  }

  /** DayFromYear of ECMA-262: the day number of January 1 of year y, in the closed form
      the standard gives */
  function DayFromYearFormula(y: int): int {
    365 * (y - 1970) + (y - 1969) / 4 - (y - 1901) / 100 + (y - 1601) / 400
  }

  /** The day number of January 1 of year y, counted year by year from 1970, so positive
      exactly after 1970 and negative exactly before. It is the closed form above
      (DayFromYearAgrees); the year-by-year form is the one the proofs below work with. */
  function DayFromYear(y: int): (t: int)
    decreases if y < 1970 then 1970 - y else y - 1970
    ensures t > 0 <==> y > 1970
    ensures t < 0 <==> y < 1970
  {
    if y == 1970 then 0
    else if y > 1970 then DayFromYear(y - 1) + YearLength(y - 1)
    else DayFromYear(y + 1) - YearLength(y)
  }

  /** MakeDay of ECMA-262 for integral arguments: an out-of-range month carries into the
      year, and an out-of-range date simply counts on from the first of the month, which
      lies inside the year the month carried into. */
  function MakeDay(year: int, month: int, date: int): (t: int)
    ensures DayFromYear(year + month / 12) <= t - (date - 1)
                < DayFromYear(year + month / 12) + YearLength(year + month / 12)
  {
    var ym := year + month / 12;
    var mn := month % 12;
    DayFromYear(ym) + MonthStart(ym, mn) + date - 1
  }

  /** WeekDay of ECMA-262: 0 = Sunday; 1970-01-01 was a Thursday */
  function WeekDay(t: int): (w: int)
    ensures 0 <= w < 7
  {
    (t + 4) % 7
  }

  /** Moving k days forward moves the weekday k places round the week */
  lemma WeekDayShift(t: int, k: int)
    ensures WeekDay(t + k) == (WeekDay(t) + k) % 7
  {
  }

  /** A calendar date as the getters of a Date object report it */
  datatype CivilDate = CivilDate(year: int, month: int, day: int)

  predicate ValidDate(d: CivilDate) {
    0 <= d.month < 12 && 1 <= d.day <= MonthLength(d.year, d.month)
  }

  function DayOf(d: CivilDate): int {
    MakeDay(d.year, d.month, d.day)
  }

  /** For a month already in range MakeDay does no normalisation */
  lemma MakeDayInRange(y: int, m: int, date: int)
    requires 0 <= m < 12
    ensures MakeDay(y, m, date) == DayFromYear(y) + MonthStart(y, m) + date - 1
  {
    assert m / 12 == 0 && m % 12 == m;
  }

  lemma MonthStartStep(y: int, m: int)
    requires 0 <= m < 12
    ensures m < 11 ==> MonthStart(y, m + 1) == MonthStart(y, m) + MonthLength(y, m)
    ensures m == 11 ==> MonthStart(y, m) + MonthLength(y, m) == YearLength(y)
  {
  }

  /** The months of a year are laid out one after another, without gaps or overlaps */
  lemma {:induction false} MonthStartMonotone(y: int, m1: int, m2: int)
    requires 0 <= m1 < m2 < 12
    ensures MonthStart(y, m1) + MonthLength(y, m1) <= MonthStart(y, m2)
    decreases m2 - m1
  {
    MonthStartStep(y, m1);
    if m1 + 1 < m2 {
      MonthStartMonotone(y, m1 + 1, m2);
      MonthStartStep(y, m1 + 1);
    }
  }

  /** The three leap-year corrections of DayFromYear each grow by one exactly in the years
      their rule picks out */
  lemma QuadrennialStep(y: int)
    ensures (y - 1968) / 4 == (y - 1969) / 4 + (if y % 4 == 0 then 1 else 0)
  {
  }

  lemma CenturyStep(y: int)
    ensures (y - 1900) / 100 == (y - 1901) / 100 + (if y % 100 == 0 then 1 else 0)
  {
  }

  lemma QuadricentennialStep(y: int)
    ensures (y - 1600) / 400 == (y - 1601) / 400 + (if y % 400 == 0 then 1 else 0)
  {
  }

  /** Together the corrections grow by one exactly in leap years */
  lemma LeapDaysStep(y: int)
    ensures ((y - 1968) / 4 - (y - 1969) / 4) - ((y - 1900) / 100 - (y - 1901) / 100)
            + ((y - 1600) / 400 - (y - 1601) / 400) == YearLength(y) - 365
  {
    QuadrennialStep(y);
    CenturyStep(y);
    QuadricentennialStep(y);
  }

  /** Consecutive Januaries are one year length apart */
  lemma DayFromYearStep(y: int)
    ensures DayFromYear(y + 1) == DayFromYear(y) + YearLength(y)
  {
  }

  /** Counting year by year gives the closed form of ECMA-262 */
  lemma {:induction false} DayFromYearAgrees(y: int)
    ensures DayFromYear(y) == DayFromYearFormula(y)
    decreases if y < 1970 then 1970 - y else y - 1970
  {
    if y > 1970 {
      DayFromYearAgrees(y - 1);
      LeapDaysStep(y - 1);
    } else if y < 1970 {
      DayFromYearAgrees(y + 1);
      LeapDaysStep(y);
    }
  }

  lemma {:induction false} DayFromYearMonotone(a: int, b: int)
    requires a < b
    ensures DayFromYear(a) + YearLength(a) <= DayFromYear(b)
    decreases b - a
  {
    DayFromYearStep(a);
    if a + 1 < b {
      DayFromYearMonotone(a + 1, b);
      DayFromYearStep(a + 1);
    }
  }

  /** A valid date falls inside its own year */
  lemma DayOfWithinYear(d: CivilDate)
    requires ValidDate(d)
    ensures DayFromYear(d.year) <= DayOf(d) < DayFromYear(d.year) + YearLength(d.year)
  {
    MakeDayInRange(d.year, d.month, d.day);
    if d.month < 11 {
      MonthStartMonotone(d.year, d.month, 11);
    }
    MonthStartStep(d.year, 11);
  }

  /** A valid date that is earlier on the calendar has a smaller day number */
  lemma DayOfMonotone(a: CivilDate, b: CivilDate)
    requires ValidDate(a) && ValidDate(b) && Earlier(a, b)
    ensures DayOf(a) < DayOf(b)
  {
    DayOfWithinYear(a);
    DayOfWithinYear(b);
    if a.year < b.year {
      DayFromYearMonotone(a.year, b.year);
    } else {
      MakeDayInRange(a.year, a.month, a.day);
      MakeDayInRange(b.year, b.month, b.day);
      if a.month < b.month {
        MonthStartMonotone(a.year, a.month, b.month);
      }
    }
  }

  /** Calendar order: by year, then month, then day */
  predicate Earlier(a: CivilDate, b: CivilDate) {
    a.year < b.year
    || (a.year == b.year && a.month < b.month)
    || (a.year == b.year && a.month == b.month && a.day < b.day)
  }

  /** Comparing day numbers is comparing calendar dates */
  lemma {:induction false} DayOfOrder(a: CivilDate, b: CivilDate)
    requires ValidDate(a) && ValidDate(b)
    ensures DayOf(a) < DayOf(b) <==> Earlier(a, b)
    ensures DayOf(a) == DayOf(b) <==> a == b
  {
    if Earlier(a, b) {
      DayOfMonotone(a, b);
    } else if Earlier(b, a) {
      DayOfMonotone(b, a);
    } else {
      assert a == b;
    }
  }

  /** The month before (y, m) */
  function PrevOf(y: int, m: int): (r: (int, int))
    requires 0 <= m < 12
  {
    if m == 0 then (y - 1, 11) else (y, m - 1)
  }

  /** The month after (y, m) */
  function NextOf(y: int, m: int): (r: (int, int))
    requires 0 <= m < 12
  {
    if m == 11 then (y + 1, 0) else (y, m + 1)
  }

  /** Day `date` of (y, m) and day `date + MonthLength` of the month before are the same day */
  lemma MakeDayBorrow(y: int, m: int, date: int)
    requires 0 <= m < 12
    ensures var (py, pm) := PrevOf(y, m);
            MakeDay(py, pm, date + MonthLength(py, pm)) == MakeDay(y, m, date)
  {
    MakeDayInRange(y, m, date);
    if m == 0 {
      MakeDayInRange(y - 1, 11, date + 31);
      MonthStartStep(y - 1, 11);
      DayFromYearStep(y - 1);
    } else {
      MakeDayInRange(y, m - 1, date + MonthLength(y, m - 1));
      MonthStartStep(y, m - 1);
    }
  }

  /** Day `date` of (y, m) is day `date - MonthLength` of the month after */
  lemma MakeDayCarry(y: int, m: int, date: int)
    requires 0 <= m < 12
    ensures var (ny, nm) := NextOf(y, m);
            MakeDay(ny, nm, date - MonthLength(y, m)) == MakeDay(y, m, date)
  {
    MakeDayInRange(y, m, date);
    MonthStartStep(y, m);
    if m == 11 {
      MakeDayInRange(y + 1, 0, date - 31);
      DayFromYearStep(y);
    } else {
      MakeDayInRange(y, m + 1, date - MonthLength(y, m));
    }
  }

  /** The calendar date of day `date` of month m (in range) of year y, where `date` may
      fall before the 1st or after the last day: it borrows from or carries into the
      neighbouring months. */
  function NormalizeDay(y: int, m: int, date: int): (d: CivilDate)
    requires 0 <= m < 12
    ensures ValidDate(d)
    decreases if date < 1 then 1 else 0, if date < 1 then -date else date
  {
    if date < 1 then
      var (py, pm) := PrevOf(y, m);
      NormalizeDay(py, pm, date + MonthLength(py, pm))
    else if date > MonthLength(y, m) then
      var (ny, nm) := NextOf(y, m);
      NormalizeDay(ny, nm, date - MonthLength(y, m))
    else
      CivilDate(y, m, date)
  }

  /** The calendar fields of MakeDay(year, month, date): the month carries into the year,
      then the date into the months */
  function NormalizeDate(year: int, month: int, date: int): (d: CivilDate)
    ensures ValidDate(d)
  {
    NormalizeDay(year + month / 12, month % 12, date)
  }

  /** Normalising keeps the day number MakeDay gives */
  lemma {:induction false} NormalizeDayAgrees(y: int, m: int, date: int)
    requires 0 <= m < 12
    ensures DayOf(NormalizeDay(y, m, date)) == MakeDay(y, m, date)
    decreases if date < 1 then 1 else 0, if date < 1 then -date else date
  {
    if date < 1 {
      var (py, pm) := PrevOf(y, m);
      NormalizeDayAgrees(py, pm, date + MonthLength(py, pm));
      MakeDayBorrow(y, m, date);
    } else if date > MonthLength(y, m) {
      var (ny, nm) := NextOf(y, m);
      NormalizeDayAgrees(ny, nm, date - MonthLength(y, m));
      MakeDayCarry(y, m, date);
    } else {
      MakeDayInRange(y, m, date);
    }
  }

  /** NormalizeDate gives the one valid date whose day number is MakeDay(year, month, date) */
  lemma NormalizeDateAgrees(year: int, month: int, date: int)
    ensures DayOf(NormalizeDate(year, month, date)) == MakeDay(year, month, date)
    ensures forall d :: ValidDate(d) && DayOf(d) == MakeDay(year, month, date) ==>
              d == NormalizeDate(year, month, date)
  {
    var ym, mn := year + month / 12, month % 12;
    NormalizeDayAgrees(ym, mn, date);
    MakeDayInRange(ym, mn, date);
    forall d | ValidDate(d) && DayOf(d) == MakeDay(year, month, date)
      ensures d == NormalizeDate(year, month, date)
    {
      DayOfOrder(d, NormalizeDate(year, month, date));
    }
  }

  /** Every day number is the day number of a valid date (and, by DayOfOrder, of only one),
      so a date can stand for its day number and back */
  lemma EveryDayHasADate(t: int)
    ensures ValidDate(NormalizeDate(1970, 0, t + 1)) && DayOf(NormalizeDate(1970, 0, t + 1)) == t
  {
    NormalizeDateAgrees(1970, 0, t + 1);
    MakeDayInRange(1970, 0, t + 1);
    assert DayFromYear(1970) == 0;
  }
}
