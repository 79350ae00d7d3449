/**
What a thermostat does with the schedule and calendar objects it holds.

The meaning follows ANSI/ASHRAE 135: section 12.24 (Schedule object) for lists
of time values, exceptions, their priorities and Schedule_Default; section 12.9
(Calendar object) and section 21 (BACnetCalendarEntry, BACnetWeekNDay) for the
days a calendar entry names.
*/
module BacnetObjects {
  import opened Prelude
  import opened Dates

  // ------------------------------------------------------------- time values

  /** One entry of a daily schedule or of an exception. */
  datatype TimeValue = TimeValue(hour: nat, minute: nat, second: nat, hundredth: nat, value: int)

  /** Hundredths of a second since midnight. */
  function Instant(tv: TimeValue): nat {
    ((tv.hour * 60 + tv.minute) * 60 + tv.second) * 100 + tv.hundredth
  }

  /** The entry in effect at `t`: the latest not after it, the later in the list among equals. */
  function Latest(list: seq<TimeValue>, t: nat): (r: Option<TimeValue>)
    ensures r.Some? ==> Instant(r.value) <= t
  {
    if list == [] then None
    else
      var before, e := Latest(list[..|list| - 1], t), list[|list| - 1];
      if Instant(e) <= t && (before.None? || Instant(before.value) <= Instant(e)) then Some(e) else before
  }

  /** What a list of time values prescribes at `t`, if anything yet. */
  function ValueAt(list: seq<TimeValue>, t: nat): Option<int> {
    match Latest(list, t)
    case None => None
    case Some(tv) => Some(tv.value)
  }

  /** A day of the weekly schedule: before its first entry, and on an empty day, Schedule_Default applies. */
  function DayValue(list: seq<TimeValue>, scheduleDefault: int, t: nat): int {
    ValueAt(list, t).GetOr(scheduleDefault)
  }

  // -------------------------------------------------------- calendar entries

  const ANY := 255

  /** BACnetDate: the year counts from 1900; 255 matches anything. */
  datatype BacnetDate = BacnetDate(year: int, month: nat, day: nat, weekday: nat)

  datatype CalendarEntry =
    | SingleDate(date: BacnetDate)
    | DateRange(startDate: BacnetDate, endDate: BacnetDate)
    | WeekNDay(month: nat, week: nat, weekday: nat)

  predicate DateMatches(p: BacnetDate, d: Date) {
    && (p.year == ANY || p.year + 1900 == d.year)
    && (p.month == ANY || p.month == d.month)
    && (p.day == ANY || p.day == d.day)
    && (p.weekday == ANY || p.weekday == Weekday(d))
  }

  /** Section 21, BACnetWeekNDay: weeks 1 to 4 are days 1-7 to 22-28, 5 is days 29-31, 6 the last seven days. */
  predicate WeekMatches(week: nat, d: Date) {
    if week == ANY then true
    else if week == 6 then d.day + 7 > DaysInMonth(d.year, d.month)
    else 1 <= week <= 5 && 7 * week - 6 <= d.day <= 7 * week
  }

  /** A date range compares dates; a wildcard year in a range has no meaning in this model and matches nothing. */
  predicate Matches(e: CalendarEntry, d: Date) {
    match e
    case SingleDate(p) => DateMatches(p, d)
    case DateRange(s, e) =>
      && s.year != ANY && e.year != ANY
      && s.year + 1900 >= 0 && e.year + 1900 >= 0
      && !Before(d, Date(s.year + 1900, s.month, s.day))
      && !Before(Date(e.year + 1900, e.month, e.day), d)
    case WeekNDay(m, w, k) => (m == ANY || m == d.month) && WeekMatches(w, d) && (k == ANY || k == Weekday(d))
  }

  /** A calendar object is active on the days any of its entries names. */
  predicate CalendarActive(entries: seq<CalendarEntry>, d: Date) {
    exists i :: 0 <= i < |entries| && Matches(entries[i], d)
  }

  // -------------------------------------------------------------- exceptions

  datatype Period = InlineEntry(entry: CalendarEntry) | CalendarReference

  /** BACnetSpecialEvent; a lower number is a stronger priority. */
  datatype SpecialEvent = SpecialEvent(period: Period, values: seq<TimeValue>, priority: nat)

  predicate EventActive(e: SpecialEvent, calendar: seq<CalendarEntry>, d: Date) {
    match e.period
    case InlineEntry(entry) => Matches(entry, d)
    case CalendarReference => CalendarActive(calendar, d)
  }

  /** What an event prescribes at `t` on `d`, if it is active and has begun. */
  function EventValue(e: SpecialEvent, calendar: seq<CalendarEntry>, d: Date, t: nat): Option<int> {
    if EventActive(e, calendar, d) then ValueAt(e.values, t) else None
  }

  /** The event that decides: the strongest priority among those that prescribe something, the first in the list among equals. */
  function Deciding(events: seq<SpecialEvent>, calendar: seq<CalendarEntry>, d: Date, t: nat): Option<SpecialEvent> {
    if events == [] then None
    else
      var rest := Deciding(events[1..], calendar, d, t);
      if EventValue(events[0], calendar, d, t).Some? && (rest.None? || events[0].priority <= rest.value.priority)
      then Some(events[0]) else rest
  }

  function ExceptionValue(events: seq<SpecialEvent>, calendar: seq<CalendarEntry>, d: Date, t: nat): Option<int> {
    match Deciding(events, calendar, d, t)
    case None => None
    case Some(e) => EventValue(e, calendar, d, t)
  }

  /** The schedule object as a whole. */
  datatype Schedule = Schedule(weekly: seq<seq<TimeValue>>, exceptions: seq<SpecialEvent>, scheduleDefault: int)

  /** Present_Value on date `d` at instant `t`: exceptions, else the weekday's entries, else the default. */
  function PresentValue(s: Schedule, calendar: seq<CalendarEntry>, d: Date, t: nat): int
    requires |s.weekly| == 7
  {
    match ExceptionValue(s.exceptions, calendar, d, t)
    case Some(v) => v
    case None => DayValue(s.weekly[Weekday(d) - 1], s.scheduleDefault, t)
  }
}
