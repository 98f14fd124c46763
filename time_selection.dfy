/** The time step of the booking widget: a timezone label and a time slot, each chosen
    from a fixed list. The timezone is an opaque label; nothing converts times with it. */
module TimeSelection {
  import opened Wrappers

  const Timezones: seq<string> := [
    "Africa/Cairo", "Europe/London", "America/New_York",
    "UTC-05:00", "UTC+00:00", "UTC+02:00", "UTC+08:00"
  ]

  /** Half-hour slots from 12:00 to 15:00 */
  const AvailableTimes: seq<string> := ["12:00", "12:30", "13:00", "13:30", "14:00", "14:30", "15:00"]

  const DefaultTimezone: string := "Africa/Cairo"

  /** The TimeSelectionView component's own state */
  class TimeSelectionView {
    var timezone: string
    var selectedTime: Option<string>

    ghost predicate Valid()
      reads this
    {
      timezone in Timezones && (selectedTime.Some? ==> selectedTime.value in AvailableTimes)
    }

    /** Mounting: `useState('Africa/Cairo')` and `useState(null)` */
    constructor ()
      ensures Valid()
      ensures timezone == DefaultTimezone && selectedTime == None
    {
      timezone := DefaultTimezone;
      selectedTime := None;
    }

    /** The timezone select's onChange; the select only offers the listed labels */
    method SetTimezone(tz: string)
      requires Valid() && tz in Timezones
      modifies this
      ensures Valid()
      ensures timezone == tz && selectedTime == old(selectedTime)
    {
      timezone := tz;
    }

    /** A time button's onClick; only the listed slots have buttons. Nothing confirms the
        choice: it only marks the slot. */
    method SelectTime(time: string)
      requires Valid() && time in AvailableTimes
      modifies this
      ensures Valid()
      ensures selectedTime == Some(time) && timezone == old(timezone)
    {
      selectedTime := Some(time);
    }
  }
}
