/** The part of the JavaScript Date object the booking widget uses. Every Date the widget
    builds is a local midnight, so a Date is modelled by the calendar date its getters
    report; its time value in whole days is DayOf of that date (EveryDayHasADate and
    DayOfOrder make the two interchangeable). "Now" enters only as a `today` parameter. */
module JsDate {
  import opened Gregorian

  /** `new Date(year, monthIndex, day)` with the two-digit-year rule left out (see
      NewDateAsWritten): out-of-range months and days roll over as MakeDay says */
  function NewDate(year: int, month: int, day: int): (d: CivilDate)
    ensures ValidDate(d)
  {
    NormalizeDate(year, month, day)
  }

  /** `new Date(year, monthIndex, day)` as the ECMAScript Date constructor defines it:
      a year from 0 to 99 is read as 1900 + year */
  function NewDateAsWritten(year: int, month: int, day: int): (d: CivilDate)
    ensures ValidDate(d)
  {
    NormalizeDate(if 0 <= year <= 99 then 1900 + year else year, month, day)
  }

  /** The time value of a local-midnight Date, in days since 1970-01-01 */
  function TimeValue(d: CivilDate): int {
    DayOf(d)
  }

  /** `getDay()`: 0 = Sunday */
  function GetDay(d: CivilDate): (w: int)
    ensures 0 <= w < 7
  {
    WeekDay(TimeValue(d))
  }

  /** The Date built from (year, month, day) has the time value MakeDay gives */
  lemma NewDateTimeValue(year: int, month: int, day: int)
    ensures TimeValue(NewDate(year, month, day)) == MakeDay(year, month, day)
  {
    NormalizeDateAgrees(year, month, day);
  }

  /** The getters read back exactly the fields a valid date was built from */
  lemma NewDateFields(year: int, month: int, day: int)
    requires ValidDate(CivilDate(year, month, day))
    ensures NewDate(year, month, day) == CivilDate(year, month, day)
  {
    assert month / 12 == 0 && month % 12 == month;
  }

  /** Outside years 0 to 99 the constructor and the intended construction agree */
  lemma NewDateAsWrittenAgrees(year: int, month: int, day: int)
    requires year < 0 || year > 99
    ensures NewDateAsWritten(year, month, day) == NewDate(year, month, day)
  {
  }
}
