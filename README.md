# Meeting-booking widget of The Connector's contact page

The site is a bilingual (English/Arabic) marketing page. Its one component with rules is the
"Book Meeting" widget on the contact page. A month calendar lets the visitor pick a day that is
not in the past. Then a time view offers a timezone label and a half-hour slot. This project
models that widget and the header's language and dropdown toggles, and proves their properties.

- `gregorian.dfy` (`Gregorian`): the proleptic Gregorian arithmetic of the ECMAScript Date
  algorithms (ECMA-262, section 21.4.1). It holds DayFromYear, MakeDay (including its carrying of
  out-of-range months and days) and WeekDay. DayFromYear is counted year by year from 1970, and
  a lemma proves that this count equals the closed form the standard gives. A calendar date has a day number (days since
  1970-01-01), and the module proves that valid dates and day numbers match one to one, in the
  same order.
- `js_date.dfy` (`JsDate`): `new Date(y, m, d)` and `getDay()`. Every Date the widget builds is a
  local midnight, so a Date is modelled by the calendar date its getters report. Its time value
  is that date's day number.
- `booking_calendar.dfy` (`BookingCalendar`): month navigation, `firstDayOfMonth`, `daysInMonth`,
  the past/today/selected flags, the click guard, the two loops of `renderCalendar`, and the
  `Calendar` class. That class holds the displayed month. Its `Render` computes
  `firstDayOfMonth` and `daysInMonth` and hands them to `renderCalendar`, as the component body
  does for its closure.
- `time_selection.dfy` (`TimeSelection`): the fixed timezone and time-slot lists and the
  `TimeSelectionView` class.
- `contact_page.dfy` (`Contact`): the `ContactPage` class. It holds `showForm` and
  `selectedDate`, plus the currently mounted calendar or time view (null when not shown). Each
  child is a fresh object when it appears, as React does when it swaps one conditionally
  rendered component for another.
- `header.dfy` (`Header`): the language toggle and the dropdown toggle.
- `wrappers.dfy` (`Wrappers`): `Option`, standing for JavaScript's value-or-`null`.

Months are 0-based (0 = January), as `getMonth()` returns them. "Today" is a parameter: the
constructor of the calendar, the click handler and the grid each receive today's date instead of
reading the clock.

Three consequences of the code that a reader might not expect, all modelled as written:
- Going back from the time view unmounts it. The timezone and time chosen there are therefore
  lost, and the next date starts again at 'Africa/Cairo' with no time.
- Showing the calendar again mounts a fresh one. It displays today's month, not the month the
  visitor had navigated to.
- The calendar is only shown while no date is selected, so no grid cell is ever marked selected.

## Model

| member | source | states |
|---|---|---|
| Gregorian.WeekDay | app/page.js:1154 | `getDay()` of a day number is in 0..6 (0 = Sunday, 1970-01-01 a Thursday) |
| Gregorian.WeekDayShift | app/page.js:1154 | moving k days on moves the weekday k places round the week |
| Gregorian.MakeDayInRange | app/page.js:1164 | for a month already in 0..11 MakeDay does no carrying: January 1 of the year plus the days before the month plus the date |
| Gregorian.LeapDaysStep | app/page.js:1155 | the leap-day corrections of ECMA-262's DayFromYear grow by one from year y to y+1 exactly when y is a leap year (divisible by 4, centuries only when divisible by 400) |
| Gregorian.DayFromYear | app/page.js:1154-1155 | January 1 of year y has a positive day number exactly after 1970 and a negative one exactly before |
| Gregorian.MakeDay | app/page.js:1154-1155 | the first of the month MakeDay counts from lies inside the year that the month carried into |
| Gregorian.DayFromYearAgrees | app/page.js:1155 | counting 365 or 366 days a year from 1970 gives ECMA-262's closed-form DayFromYear, before and after 1970 |
| Gregorian.DayFromYearStep | app/page.js:1155 | January 1 of year y+1 is YearLength(y) days after January 1 of year y |
| Gregorian.DayFromYearMonotone | app/page.js:1155 | every later year starts after the whole of an earlier year |
| Gregorian.MonthLength | app/page.js:1155 | a month has 28 to 31 days; only February has fewer than 30, and it has 29 exactly in leap years |
| Gregorian.MonthStartStep | app/page.js:1155 | each month starts on the day after the previous one ends (no gap), and December ends at the length of the year |
| Gregorian.MonthStartMonotone | app/page.js:1155 | an earlier month of a year ends no later than a later month starts (no overlap) |
| Gregorian.DayOfWithinYear | app/page.js:1164 | a valid date's day number lies within its own year |
| Gregorian.DayOfMonotone | app/page.js:1167 | a date earlier on the calendar has a smaller day number |
| Gregorian.DayOfOrder | app/page.js:1147 | for valid dates, comparing day numbers is comparing calendar dates (less-than iff earlier, equal iff same date) |
| Gregorian.MakeDayBorrow | app/page.js:1155 | day d of a month is day d + length of the previous month, in the previous month (also across January) |
| Gregorian.MakeDayCarry | app/page.js:1136 | day d of a month is day d - its length, in the next month (also across December) |
| Gregorian.NormalizeDay | app/page.js:1155 | rolling an out-of-range day into the neighbouring months always ends on a valid date |
| Gregorian.NormalizeDate | app/page.js:1136 | the fields of `new Date(y, m, d)` always form a valid date, whatever m and d are |
| Gregorian.NormalizeDayAgrees | app/page.js:1155 | rolling over keeps the day number MakeDay assigns |
| Gregorian.NormalizeDateAgrees | app/page.js:1144 | the normalised date has MakeDay's day number, and it is the only valid date that does |
| Gregorian.EveryDayHasADate | app/page.js:1124 | every day number belongs to a valid date, so a Date can be represented by its fields |
| JsDate.NewDate | app/page.js:1144 | `new Date(year, month, day)` yields a valid calendar date |
| JsDate.NewDateAsWritten | app/page.js:1136 | the ECMAScript constructor, which reads years 0..99 as 1900 + year, also yields a valid date |
| JsDate.GetDay | app/page.js:1154 | `getDay()` is in 0..6 |
| JsDate.NewDateTimeValue | app/page.js:1147 | the time value of `new Date(y, m, d)` is MakeDay(y, m, d) |
| JsDate.NewDateFields | app/page.js:1144 | a Date built from a valid (year, month, day) reads back exactly those fields |
| JsDate.NewDateAsWrittenAgrees | app/page.js:1136 | outside years 0..99 the constructor and the intended construction agree |
| BookingCalendar.PrevMonthOf | app/page.js:1135-1137 | "previous" gives a valid month exactly one before in the month count 12 * year + month |
| BookingCalendar.NextMonthOf | app/page.js:1139-1141 | "next" gives a valid month exactly one after in the month count 12 * year + month |
| BookingCalendar.StepMonthAsWritten | app/page.js:1135-1141 | as written, a step of delta months gives a valid month delta after the displayed one, counted from year 1900 + year when the displayed year is 0..99 |
| BookingCalendar.PrevMonthWraps | app/page.js:1135-1137 | "previous" from January goes to December of year-1; otherwise to month-1 of the same year |
| BookingCalendar.NextMonthWraps | app/page.js:1139-1141 | "next" from December goes to January of year+1; otherwise to month+1 of the same year |
| BookingCalendar.NextUndoesPrev | app/page.js:1135-1141 | next after previous returns to the original (year, month) |
| BookingCalendar.PrevUndoesNext | app/page.js:1135-1141 | previous after next returns to the original (year, month) |
| BookingCalendar.TwoDigitYearJumps | app/page.js:1139-1141 | as written, "next" from a month of year 0..99 lands in year 1900 or later |
| BookingCalendar.TwoDigitYearBreaksRoundTrip | app/page.js:1135-1141 | as written, previous then next from January 100 shows January 2000; the intended handlers return to January 100 |
| BookingCalendar.FirstDayOfMonth | app/page.js:1154 | the number of leading blanks is in 0..6 |
| BookingCalendar.DayZeroIsLastDay | app/page.js:1155 | `new Date(year, month + 1, 0)` is the last day of (year, month), December included |
| BookingCalendar.DaysInMonth | app/page.js:1155 | `daysInMonth` is the Gregorian month length (31/30, February 29 exactly in leap years), so 28..31 |
| BookingCalendar.NextFirstFollowsLastDay | app/page.js:1154-1155 | the 1st of the next month comes exactly `daysInMonth` days after the 1st of this month |
| BookingCalendar.NextMonthContinuesWeek | app/page.js:1154-1155 | next month's blank count is this month's blanks plus its length, mod 7 |
| BookingCalendar.IsPast | app/page.js:1167 | a day drawn as past is never today |
| BookingCalendar.IsToday | app/page.js:1165 | a day drawn as today has today's time value |
| BookingCalendar.IsSelected | app/page.js:1166 | with no selected date no day is selected, and a selected day is the selected date |
| BookingCalendar.ClickAccepted | app/page.js:1147 | a click is accepted exactly when the day is not past |
| BookingCalendar.PastIffEarlier | app/page.js:1147 | a day is past iff it is earlier on the calendar than today, and a click is accepted iff it is not |
| BookingCalendar.DayCell | app/page.js:1164-1167 | a day cell carries its day number, is never both today and past, is selected only for the selected date, and is both today and selected only when today is the selected date |
| BookingCalendar.DayCellFlags | app/page.js:1164-1167 | for every day the grid draws, the cell's today, selected and past flags are those computed from `new Date(year, month, day)`, the past flag by comparing time values with today's midnight |
| BookingCalendar.BlanksLayout | app/page.js:1159-1161 | the first loop produces exactly n blank cells |
| BookingCalendar.DayCellsLayout | app/page.js:1163-1184 | the second loop produces exactly n cells, the k-th for day k+1 |
| BookingCalendar.GridLayout | app/page.js:1157-1186 | the grid is `blanks` blanks followed by the cells of days 1 to `days` in order, and nothing else |
| BookingCalendar.GridTodayNeverPast | app/page.js:1165-1167 | no cell is marked both today and past |
| BookingCalendar.RenderCalendar | app/page.js:1157-1186 | the two loops build exactly the grid of `firstDay` blanks and days 1 to `days`; a negative or zero count produces no cells, as the JavaScript loops do |
| BookingCalendar.Calendar.constructor | app/page.js:1124 | a newly mounted calendar shows today's year and month |
| BookingCalendar.Calendar.PrevMonth | app/page.js:1135-1137 | the displayed month becomes the previous one, wrapping at January, and stays valid |
| BookingCalendar.Calendar.NextMonth | app/page.js:1139-1141 | the displayed month becomes the next one, wrapping at December, and stays valid |
| BookingCalendar.Calendar.HandleDateClick | app/page.js:1143-1150 | a click is ignored iff the cell is drawn as past (iff the day is before today); otherwise `onDateSelect` gets exactly (displayed year, displayed month, clicked day) |
| BookingCalendar.Calendar.Render | app/page.js:1152-1157 | the displayed grid is the renderCalendar grid for the weekday of the 1st and the Gregorian length of the displayed month |
| TimeSelection.TimeSelectionView.constructor | app/page.js:1206-1207 | a newly mounted time view has timezone 'Africa/Cairo' and no time |
| TimeSelection.TimeSelectionView.SetTimezone | app/page.js:1247 | only a listed timezone can be set; the time is unchanged |
| TimeSelection.TimeSelectionView.SelectTime | app/page.js:1262 | only a listed slot can be chosen; the timezone is unchanged and no other state exists |
| Contact.ContactPage.constructor | app/page.js:1039-1040 | the page starts on the message form with no date |
| Contact.ContactPage.ClickSendMessage | app/page.js:1074 | the form is shown, both booking children are unmounted, the date is kept |
| Contact.ContactPage.ClickBookMeeting | app/page.js:1079 | always leaves `showForm` false and `selectedDate` null, showing the calendar; an already shown calendar keeps its month, otherwise a fresh one shows today's month |
| Contact.ContactPage.ClickPrevMonth | app/page.js:1135-1137 | the shown calendar moves to the previous month; the flow state is unchanged |
| Contact.ContactPage.ClickNextMonth | app/page.js:1139-1141 | the shown calendar moves to the next month; the flow state is unchanged |
| Contact.ContactPage.ClickDay | app/page.js:1106-1112 | a past day changes nothing; another day becomes `selectedDate` and replaces the calendar by a fresh time view ('Africa/Cairo', no time) |
| Contact.ContactPage.ClickBack | app/page.js:1112 | `selectedDate` becomes null, the time view is discarded, and a fresh calendar shows today's month |
| Contact.ContactPage.ChooseTimezone | app/page.js:1247 | only the timezone of the shown time view changes |
| Contact.ContactPage.ChooseTime | app/page.js:1262 | only the time of the shown time view changes; the flow stays in the time view |
| Contact.ContactPage.CalendarCells | app/page.js:1109 | whenever the grid is displayed no cell is marked selected, and it has blanks plus month-length cells |
| Contact.BackForgetsTimeChoices | app/page.js:1206-1207 | after choosing a timezone and a time, going back and picking a date again starts from 'Africa/Cairo' and no time |
| Contact.BackResetsDisplayedMonth | app/page.js:1124 | after moving to another month, picking a date and going back, the calendar shows today's month again |
| Header.NextLanguage | app/page.js:67 | the language becomes 'ar' exactly when it was 'en', else 'en' |
| Header.NextOpenDropdown | app/page.js:71 | the dropdown closes iff it was the open one; otherwise it becomes the open one |
| Header.ToggleLanguageTwice | app/page.js:66-68 | toggling the language twice restores it |
| Header.ToggleDropdownTwice | app/page.js:70-72 | toggling one dropdown twice restores the state it started from when it was closed or open, and closes it when another one was open |
| Header.HeaderState.constructor | app/page.js:18 | no dropdown is open at first, and the language starts as 'en' (the App state at app/page.js:1330) |
| Header.HeaderState.ToggleLanguage | app/page.js:66-68 | the language alternates between 'en' and 'ar'; the dropdown is unchanged |
| Header.HeaderState.ToggleDropdown | app/page.js:97 | the open dropdown follows NextOpenDropdown; the language is unchanged |
| Header.HeaderState.CloseDropdown | app/page.js:27 | a click outside or a navigation link closes the dropdown and nothing else |

## Findings

| source | as written | input that shows it | evidently intended | confidence | as-written member | corrected member |
|---|---|---|---|---|---|---|
| app/page.js:1135-1141 | `new Date(currentDate.getFullYear(), month ± 1, 1)`. The Date constructor reads a year from 0 to 99 as 1900 + year. | Display January of year 100, press "previous" (December 99 is shown), then "next": January 2000 is shown. | Previous and next step one month and undo each other in every year. | not executed; the constructor's rule is certain, but reaching year 100 takes about 23,000 clicks | BookingCalendar.TwoDigitYearBreaksRoundTrip | BookingCalendar.NextUndoesPrev |

The rest of the model uses `JsDate.NewDate`, which has no two-digit-year rule. The same rule
would also misplace the blanks and day flags of the grid in years 0 to 99
(app/page.js:1154-1155, 1164).

## Left out

- Markup, Tailwind class strings, bilingual copy, weekday and month names, and the cell class
  computation. The cell flags that drive the classes are modelled.
- Animations, the IntersectionObserver effects, and the document-level click-outside listener
  (its state effect is `HeaderState.CloseDropdown`). Also left out: the font and style injection
  and `document.documentElement.lang`.
- `Intl.DateTimeFormat` formatting of the selected date and the `tz.replace` labels.
- Timezone semantics: the timezone is an opaque label. Local time and daylight saving are left
  out, so every Date the widget builds is taken to be a local midnight.
- Time values in milliseconds and the ECMAScript range limit of ±100,000,000 days (an Invalid
  Date beyond it). Dates are unbounded day numbers.
- The clock. Each cell reads it again in the source; the model passes one `today` to a whole
  render, so a render that straddles midnight is not modelled.
- The contact and login forms, which have no handlers. The page router, the mobile menu's
  `isMenuOpen` toggle, and the `setPage` calls of the navigation links.
- BookingCalendar.PrevMonthOf, BookingCalendar.NextMonthOf, BookingCalendar.FirstDayOfMonth,
  BookingCalendar.DaysInMonth, BookingCalendar.DayCellFlags, Calendar.PrevMonth,
  Calendar.NextMonth, Calendar.HandleDateClick, Calendar.Render, Contact.ContactPage.ClickPrevMonth,
  Contact.ContactPage.ClickNextMonth, Contact.ContactPage.ClickDay: these build dates with
  `JsDate.NewDate`, which leaves out the Date constructor's two-digit-year rule. In years 0 to
  99 they give the intended result, not what the code does there (see Findings and
  `StepMonthAsWritten`).
- Calendar.HandleDateClick, Contact.ContactPage.ClickDay: only a rendered day (1 to
  `daysInMonth`) can be clicked, so a day outside that range is excluded by `requires` rather
  than normalised into a neighbouring month.
