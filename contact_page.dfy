/** The contact page's booking flow. The page holds `showForm` and `selectedDate`; the
    calendar and the time view are child components rendered conditionally, so each is
    mounted (a fresh object with its initial state) when it appears and discarded when it
    disappears. `calendar` and `timeView` are the mounted instances, or null. */
module Contact {
  import opened Gregorian
  import opened Wrappers
  import opened BookingCalendar
  import opened TimeSelection

  class ContactPage {
    var showForm: bool
    var selectedDate: Option<CivilDate>
    var calendar: Calendar?
    var timeView: TimeSelectionView?

    /** The message form is shown */
    predicate ShowsForm()
      reads this
    {
      showForm
    }

    /** Booking, no date yet: the calendar is shown */
    predicate ShowsCalendar()
      reads this
    {
      !showForm && selectedDate.None?
    }

    /** Booking with a date: the time view is shown instead of the calendar */
    predicate ShowsTimeView()
      reads this
    {
      !showForm && selectedDate.Some?
    }

    /** A child component is mounted exactly while it is shown */
    ghost predicate Valid()
      reads this, calendar, timeView
    {
      (calendar != null <==> ShowsCalendar())
      && (timeView != null <==> ShowsTimeView())
      && (calendar != null ==> calendar.Valid())
      && (timeView != null ==> timeView.Valid())
      && (selectedDate.Some? ==> ValidDate(selectedDate.value))
    }

    /** `useState(true)` and `useState(null)` */
    constructor ()
      ensures Valid() && ShowsForm()
      ensures selectedDate == None
    {
      showForm := true;
      selectedDate := None;
      calendar := null;
      timeView := null;
    }

    /** The "Send Message" button: `setShowForm(true)`; the selected date is kept */
    method ClickSendMessage()
      requires Valid()
      modifies this
      ensures Valid() && ShowsForm()
      ensures selectedDate == old(selectedDate)
    {
      showForm := true;
      calendar, timeView := null, null;
    }

    /** The "Book Meeting" button: `setShowForm(false); setSelectedDate(null)`. When the
        calendar was already shown nothing changes and it keeps its month; otherwise a
        fresh calendar is mounted on today's month. */
    method ClickBookMeeting(today: CivilDate)
      requires Valid() && ValidDate(today)
      modifies this
      ensures Valid() && ShowsCalendar()
      ensures !showForm && selectedDate == None
      ensures old(ShowsCalendar()) ==> calendar == old(calendar)
      ensures !old(ShowsCalendar()) ==> fresh(calendar) && calendar.Shown() == YearMonth(today.year, today.month)
    {
      if !ShowsCalendar() {
        calendar := new Calendar(today);
      }
      showForm, selectedDate, timeView := false, None, null;
    }

    /** The calendar's "previous month" arrow */
    method ClickPrevMonth()
      requires Valid() && ShowsCalendar()
      modifies calendar
      ensures Valid() && ShowsCalendar() && calendar == old(calendar)
      ensures calendar.Shown() == PrevMonthOf(old(calendar.Shown()))
    {
      PrevMonthWraps(calendar.Shown());
      calendar.PrevMonth();
    }

    /** The calendar's "next month" arrow */
    method ClickNextMonth()
      requires Valid() && ShowsCalendar()
      modifies calendar
      ensures Valid() && ShowsCalendar() && calendar == old(calendar)
      ensures calendar.Shown() == NextMonthOf(old(calendar.Shown()))
    {
      NextMonthWraps(calendar.Shown());
      calendar.NextMonth();
    }

    /** A click on day `day` of the displayed month. A past day is ignored; any other day
        becomes the selected date (`onDateSelect`), which swaps the calendar for a freshly
        mounted time view. */
    method ClickDay(day: int, today: CivilDate)
      requires Valid() && ShowsCalendar() && ValidDate(today)
      requires 1 <= day <= DaysInMonth(calendar.year, calendar.month)
      modifies this
      ensures Valid() && showForm == old(showForm)
      ensures Earlier(CivilDate(old(calendar.year), old(calendar.month), day), today) ==>
                selectedDate == None && calendar == old(calendar) && timeView == null
      ensures !Earlier(CivilDate(old(calendar.year), old(calendar.month), day), today) ==>
                selectedDate == Some(CivilDate(old(calendar.year), old(calendar.month), day))
                && ShowsTimeView() && calendar == null && fresh(timeView)
                && timeView.timezone == DefaultTimezone && timeView.selectedTime == None
    {
      var picked := calendar.HandleDateClick(day, today);
      if picked.Some? {
        selectedDate := picked;
        calendar := null;
        timeView := new TimeSelectionView();
      }
    }

    /** The time view's back arrow: `setSelectedDate(null)`. The time view and its choices
        are discarded and a fresh calendar is mounted on today's month. */
    method ClickBack(today: CivilDate)
      requires Valid() && ShowsTimeView() && ValidDate(today)
      modifies this
      ensures Valid() && ShowsCalendar() && selectedDate == None
      ensures timeView == null && fresh(calendar)
      ensures calendar.Shown() == YearMonth(today.year, today.month)
    {
      selectedDate := None;
      timeView := null;
      calendar := new Calendar(today);
    }

    method ChooseTimezone(tz: string)
      requires Valid() && ShowsTimeView() && tz in Timezones
      modifies timeView
      ensures Valid() && ShowsTimeView() && timeView == old(timeView)
      ensures timeView.timezone == tz && timeView.selectedTime == old(timeView.selectedTime)
    {
      timeView.SetTimezone(tz);
    }

    method ChooseTime(time: string)
      requires Valid() && ShowsTimeView() && time in AvailableTimes
      modifies timeView
      ensures Valid() && ShowsTimeView() && timeView == old(timeView)
      ensures timeView.selectedTime == Some(time) && timeView.timezone == old(timeView.timezone)
    {
      timeView.SelectTime(time);
    }

    /** The grid the page shows: the calendar is only mounted while no date is selected,
        so the `selectedDate` it is given is null and no cell is ever marked selected */
    method CalendarCells(today: CivilDate) returns (cells: seq<Cell>)
      requires Valid() && ShowsCalendar()
      ensures |cells| == FirstDayOfMonth(calendar.year, calendar.month)
                         + MonthLength(calendar.year, calendar.month)
      ensures forall i :: 0 <= i < |cells| ==> !(cells[i].Day? && cells[i].isSelected)
    {
      cells := calendar.Render(today, selectedDate);
      GridLayout(FirstDayOfMonth(calendar.year, calendar.month), calendar.Shown(),
                 MonthLength(calendar.year, calendar.month), today, selectedDate);
    }
  }

  /** Going back discards the time view, so the timezone and time picked before are
      forgotten: picking a date again starts from 'Africa/Cairo' and no time */
  method BackForgetsTimeChoices(today: CivilDate, tz: string, time: string)
    returns (tzAfter: string, timeAfter: Option<string>)
    requires ValidDate(today) && tz in Timezones && time in AvailableTimes
    ensures tzAfter == DefaultTimezone && timeAfter == None
  {
    var page := new ContactPage();
    page.ClickBookMeeting(today);
    page.ClickDay(today.day, today);
    page.ChooseTimezone(tz);
    page.ChooseTime(time);
    page.ClickBack(today);
    page.ClickDay(today.day, today);
    tzAfter, timeAfter := page.timeView.timezone, page.timeView.selectedTime;
  }

  /** Going back also remounts the calendar, so a month the user had moved to is lost:
      after moving on a month, picking its 1st and going back, the calendar shows today's
      month again */
  method BackResetsDisplayedMonth(today: CivilDate) returns (shown: YearMonth)
    requires ValidDate(today)
    ensures shown == YearMonth(today.year, today.month)
  {
    var page := new ContactPage();
    page.ClickBookMeeting(today);
    page.ClickNextMonth();
    NextMonthWraps(YearMonth(today.year, today.month));
    page.ClickDay(1, today);
    page.ClickBack(today);
    shown := page.calendar.Shown();
  }
}
