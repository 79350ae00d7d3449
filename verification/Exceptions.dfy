/**
Dated one-offs and holidays composed into one exception list (bms/store.py,
exceptions_for; bms/schedules.py, exception_to_bacnet; bms/reconciler.py,
_reconcile_exceptions), and what the device makes of it.
*/
module Exceptions {
  import opened Prelude
  import opened TextOrder
  import opened TableQueries
  import opened Dates
  import opened Transitions
  import opened BacnetObjects
  import opened DayStates
  import opened WeekSchedule
  import opened Holidays

  datatype Scope = GlobalScope | ZoneScope(zone: string) | DeviceScope(device: string)

  /** A row of `occupancy_exception`; dates are the text the caller sent, unchecked by the API. */
  datatype Row = Row(enabled: bool, scope: Scope, startDate: string, endDate: Option<string>, transitions: seq<RawTransition>)

  const PRIORITY_ONE_OFF := 1
  const PRIORITY_HOLIDAY := 2

  // --------------------------------------------------------------- the query

  predicate Applies(r: Row, device: string, zone: string) {
    r.enabled && (r.scope == GlobalScope || r.scope == ZoneScope(zone) || r.scope == DeviceScope(device))
  }

  /** `COALESCE(end_date, start_date) >= on_or_after`, on text. */
  predicate Current(r: Row, onOrAfter: Option<string>) {
    onOrAfter.None? || onOrAfter.value == "" || !Less(r.endDate.GetOr(r.startDate), onOrAfter.value)
  }

  function ExceptionsFor(rows: seq<Row>, device: string, zone: string, onOrAfter: Option<string>): seq<Row> {
    OrderBy(Keep(rows, (r: Row) => Applies(r, device, zone) && Current(r, onOrAfter)), (r: Row) => r.startDate)
  }

  // ------------------------------------------------------------ the events

  /** First and last day of a one-off, or a ValueError. */
  function Span(r: Row): Option<(Date, Option<Date>)> {
    match ParseIso(r.startDate)
    case None => None
    case Some(start) =>
      if r.endDate.None? || r.endDate.value == "" then Some((start, None))
      else match ParseIso(r.endDate.value)
           case None => None
           case Some(end) => if Before(end, start) then None else Some((start, Some(end)))
  }

  function Inline(d: Date): BacnetDate {
    BacnetDate(d.year - 1900, d.month, d.day, ANY)
  }

  function SpanEntry(span: (Date, Option<Date>)): CalendarEntry {
    match span.1
    case None => SingleDate(Inline(span.0))
    case Some(end) => DateRange(Inline(span.0), Inline(end))
  }

  /** `exception_to_bacnet`, or a ValueError. */
  function ToEvent(r: Row): Option<SpecialEvent> {
    match (Span(r), Validate(r.transitions))
    case (Some(span), Success(day)) =>
      (match EncodeDay(day)
       case None => None
       case Some(values) => Some(SpecialEvent(InlineEntry(SpanEntry(span)), values, PRIORITY_ONE_OFF)))
    case _ => None
  }

  /** The events of the rows that convert; a row that does not is reported and skipped. */
  function Events(rows: seq<Row>): seq<SpecialEvent> {
    if rows == [] then []
    else (match ToEvent(rows[0]) case None => [] case Some(e) => [e]) + Events(rows[1..])
  }

  /** The one holiday event carries the state of the first holiday. */
  function HolidayEvent(hs: seq<Holiday>): SpecialEvent
    requires hs != []
  {
    SpecialEvent(CalendarReference, [TimeValue(0, 0, 0, 0, hs[0].state)], PRIORITY_HOLIDAY)
  }

  /** What is written to `exceptionSchedule`. */
  function Compose(hs: seq<Holiday>, oneOffs: seq<Row>): seq<SpecialEvent> {
    (if hs == [] then [] else [HolidayEvent(hs)]) + Events(oneOffs)
  }

  /** Asking for current rows only is asking for all of them and dropping the expired, order included. */
  lemma {:induction false} QueryFiltered(rows: seq<Row>, device: string, zone: string, today: Option<string>)
    ensures ExceptionsFor(rows, device, zone, today)
            == Keep(ExceptionsFor(rows, device, zone, None), (r: Row) => Current(r, today))
  {
    var applies := (r: Row) => Applies(r, device, zone) && Current(r, None);
    var current := (r: Row) => Current(r, today);
    var both := (r: Row) => Applies(r, device, zone) && Current(r, today);
    KeepBoth(rows, applies, current, both);
    OrderKeep(Keep(rows, applies), (r: Row) => r.startDate, current);
  }

  // ----------------------------------------------------- expired means inactive

  /** A blank end date: no end to exception_to_bacnet, but text before every date to the query. */
  predicate BlankEnd(r: Row) {
    r.endDate == Some("")
  }

  /** No end of the span is 2155, the year whose octet means any. */
  predicate PlainYears(r: Row) {
    Span(r).Some? ==> Span(r).value.0.year != UNSAYABLE && (Span(r).value.1.Some? ==> Span(r).value.1.value.year != UNSAYABLE)
  }

  lemma {:induction false} SpanText(r: Row)
    requires Span(r).Some?
    ensures var (start, end) := Span(r).value;
            && ValidDate(start) && r.startDate == Iso(start)
            && (end.None? ==> r.endDate.None? || BlankEnd(r))
            && (end.Some? ==> ValidDate(end.value) && r.endDate == Some(Iso(end.value)) && !Before(end.value, start))
  {
    var (start, end) := Span(r).value;
    ParseIsoExact(r.startDate, start);
    if end.Some? {
      ParseIsoExact(r.endDate.value, end.value);
    }
  }

  /** The days a one-off is stored for. */
  predicate Covers(r: Row, d: Date)
    requires Span(r).Some?
  {
    var (start, end) := Span(r).value;
    !Before(d, start) && !Before(end.GetOr(start), d)
  }

  lemma {:induction false} SpanDays(r: Row, d: Date)
    requires Span(r).Some? && PlainYears(r) && ValidDate(d)
    ensures Matches(SpanEntry(Span(r).value), d) <==> Covers(r, d)
  {
    SpanText(r);
  }

  /** The device takes a one-off for the days it is stored for exactly when no end of it is in 2155. */
  lemma {:induction false} SpanDaysExactly(r: Row)
    requires Span(r).Some?
    ensures (forall d :: ValidDate(d) ==> (Matches(SpanEntry(Span(r).value), d) <==> Covers(r, d))) <==> PlainYears(r)
  {
    SpanText(r);
    var (start, end) := Span(r).value;
    if PlainYears(r) {
      forall d | ValidDate(d) ensures Matches(SpanEntry(Span(r).value), d) <==> Covers(r, d) {
        SpanDays(r, d);
      }
    } else if end.None? {
      var earlier := Date(2154, start.month, start.day);
      assert ValidDate(earlier) && Matches(SpanEntry(Span(r).value), earlier) && !Covers(r, earlier);
    } else {
      assert !Matches(SpanEntry(Span(r).value), start) && Covers(r, start);
    }
  }

  lemma {:induction false} LessBlank(text: string)
    requires text != ""
    ensures Less("", text)
  {
  }

  /** With no blank end, the query keeps a row exactly when the one-off has not ended before today. */
  lemma {:induction false} CurrentExact(r: Row, today: Date)
    requires Span(r).Some? && ValidDate(today)
    ensures BlankEnd(r) ==> !Current(r, Some(Iso(today)))
    ensures !BlankEnd(r) ==>
              (Current(r, Some(Iso(today))) <==> !Before(Span(r).value.1.GetOr(Span(r).value.0), today))
  {
    SpanText(r);
    IsoParts(today);
    if BlankEnd(r) {
      LessBlank(Iso(today));
    } else {
      IsoOrder(Span(r).value.1.GetOr(Span(r).value.0), today);
    }
  }

  /**
  The query drops a day the device would still show: of a one-off whose end date
  is blank and whose one day is not past, or, the device taking 2155 for every
  year, of a past one-day one-off of that year whose day comes round again.
  */
  predicate HidesLiveDay(r: Row, today: Date) {
    && Span(r).Some?
    && var (start, end) := Span(r).value;
       || (BlankEnd(r) && !Before(start, today))
       || (end.None? && start.year == UNSAYABLE && Before(start, today) && !Before(Date(MAX_YEAR, start.month, start.day), today))
  }

  /** Exactly then: the row is dropped and the device would show it on some date from today on. */
  lemma {:induction false} DropsLiveRow(r: Row, today: Date)
    requires Span(r).Some? && ValidDate(today)
    ensures (!Current(r, Some(Iso(today))) && exists d :: ValidDate(d) && !Before(d, today) && Matches(SpanEntry(Span(r).value), d))
            <==> HidesLiveDay(r, today)
  {
    SpanText(r);
    CurrentExact(r, today);
    var (start, end) := Span(r).value;
    if HidesLiveDay(r, today) {
      var d := if Before(start, today) then Date(MAX_YEAR, start.month, start.day) else start;
      assert ValidDate(d) && !Before(d, today) && Matches(SpanEntry(Span(r).value), d);
    }
    if !Current(r, Some(Iso(today))) {
      forall d | ValidDate(d) && !Before(d, today) && Matches(SpanEntry(Span(r).value), d) ensures HidesLiveDay(r, today) {
        LiveDayHidden(r, today, d);
      }
    }
  }

  lemma {:induction false} LiveDayHidden(r: Row, today: Date, d: Date)
    requires Span(r).Some? && ValidDate(today) && ValidDate(d) && !Before(d, today)
    requires Matches(SpanEntry(Span(r).value), d)
    requires BlankEnd(r) || Before(Span(r).value.1.GetOr(Span(r).value.0), today)
    ensures HidesLiveDay(r, today)
  {
    SpanText(r);
  }

  /** No row loses a live day to the query. */
  predicate NoneHidden(rows: seq<Row>, today: Date) {
    forall i :: 0 <= i < |rows| ==> !HidesLiveDay(rows[i], today)
  }

  lemma {:induction false} DroppedIsInactive(r: Row, today: Date, calendar: seq<CalendarEntry>, d: Date)
    requires ValidDate(today) && ValidDate(d) && !Before(d, today)
    requires !Current(r, Some(Iso(today))) && !HidesLiveDay(r, today)
    ensures ToEvent(r).Some? ==> !EventActive(ToEvent(r).value, calendar, d)
  {
    if ToEvent(r).Some? {
      DropsLiveRow(r, today);
    }
  }

  lemma {:induction false} BlankSpan(r: Row, day: Date)
    requires ValidDate(day) && r.startDate == Iso(day) && BlankEnd(r)
    ensures Span(r) == Some((day, None))
  {
    ParseIsoExact(r.startDate, day);
  }

  lemma {:induction false} NotAskedFor(r: Row, device: string, zone: string, today: Option<string>)
    requires !Current(r, today)
    ensures ExceptionsFor([r], device, zone, today) == []
  {
    var asked := (r: Row) => Applies(r, device, zone) && Current(r, today);
    assert [r][1..] == [] && !asked(r);
    assert Keep([], asked) == [];
    assert Keep([r], asked) == [];
  }

  /** A one-off on 24 December 2026 with a blank end date: convertible, still to come on the 20th, and not asked for. */
  lemma {:induction false} BlankEndIsDropped(r: Row, device: string, zone: string)
    requires r.startDate == Iso(Date(2026, 12, 24)) && r.endDate == Some("")
    ensures Span(r) == Some((Date(2026, 12, 24), None)) && Matches(SpanEntry(Span(r).value), Date(2026, 12, 24))
    ensures HidesLiveDay(r, Date(2026, 12, 20)) && !Current(r, Some(Iso(Date(2026, 12, 20))))
    ensures ExceptionsFor([r], device, zone, Some(Iso(Date(2026, 12, 20)))) == []
  {
    var eve, today := Date(2026, 12, 24), Date(2026, 12, 20);
    BlankSpan(r, eve);
    CurrentExact(r, today);
    NotAskedFor(r, device, zone, Some(Iso(today)));
  }

  // -------------------------------------------------- what the device makes of it

  /** What a one-off prescribes at `t` on `d`. */
  function RowValue(r: Row, calendar: seq<CalendarEntry>, d: Date, t: nat): Option<int> {
    match ToEvent(r)
    case None => None
    case Some(e) => EventValue(e, calendar, d, t)
  }

  /** The first of some one-offs that prescribes anything, in query order. */
  function FirstOneOff(rows: seq<Row>, calendar: seq<CalendarEntry>, d: Date, t: nat): Option<int> {
    FirstOf(rows, (r: Row) => RowValue(r, calendar, d, t))
  }

  /** Dropping the expired one-offs changes nothing from today on. */
  lemma {:induction false} FilterInvisible(rows: seq<Row>, today: Date, calendar: seq<CalendarEntry>, d: Date, t: nat)
    requires ValidDate(today) && ValidDate(d) && !Before(d, today) && NoneHidden(rows, today)
    ensures FirstOneOff(Keep(rows, (r: Row) => Current(r, Some(Iso(today)))), calendar, d, t)
            == FirstOneOff(rows, calendar, d, t)
  {
    var current := (r: Row) => Current(r, Some(Iso(today)));
    var val := (r: Row) => RowValue(r, calendar, d, t);
    forall i | 0 <= i < |rows| && !current(rows[i]) ensures val(rows[i]).None? {
      DroppedIsInactive(rows[i], today, calendar, d);
    }
    FirstOfKeep(rows, current, val);
  }

  /** The deciding one-off is the first, all having the same priority. */
  lemma {:induction false} OneOffsDecide(rows: seq<Row>, calendar: seq<CalendarEntry>, d: Date, t: nat)
    ensures ExceptionValue(Events(rows), calendar, d, t) == FirstOneOff(rows, calendar, d, t)
    ensures Deciding(Events(rows), calendar, d, t).Some? ==>
              Deciding(Events(rows), calendar, d, t).value.priority == PRIORITY_ONE_OFF
              && EventValue(Deciding(Events(rows), calendar, d, t).value, calendar, d, t).Some?
  {
    if rows != [] {
      OneOffsDecide(rows[1..], calendar, d, t);
      if ToEvent(rows[0]).Some? {
        assert Events(rows)[1..] == Events(rows[1..]);
      } else {
        assert Events(rows) == Events(rows[1..]);
      }
    }
  }

  lemma {:induction false} AllDay(state: int, t: nat)
    ensures ValueAt([TimeValue(0, 0, 0, 0, state)], t) == Some(state)
  {
    assert Latest([TimeValue(0, 0, 0, 0, state)][..0], t) == None;
  }

  lemma {:induction false} OneOffPriority(rows: seq<Row>, i: nat)
    requires i < |Events(rows)|
    ensures Events(rows)[i].priority == 1 && Events(rows)[i].period.InlineEntry?
  {
    if ToEvent(rows[0]).None? {
      assert Events(rows) == Events(rows[1..]);
      OneOffPriority(rows[1..], i);
    } else if i > 0 {
      assert Events(rows)[i] == Events(rows[1..])[i - 1];
      OneOffPriority(rows[1..], i - 1);
    }
  }

  /** One-offs go out with priority 1 and dates of their own, the holiday event with priority 2 and the calendar's. */
  lemma {:induction false} PrioritiesAre(hs: seq<Holiday>, oneOffs: seq<Row>, i: nat)
    requires i < |Compose(hs, oneOffs)|
    ensures var e := Compose(hs, oneOffs)[i];
            if hs != [] && i == 0 then e.priority == 2 && e.period.CalendarReference? else e.priority == 1 && e.period.InlineEntry?
  {
    ComposedAt(hs, oneOffs, i);
    if hs == [] {
      OneOffPriority(oneOffs, i);
    } else if i > 0 {
      OneOffPriority(oneOffs, i - 1);
    }
  }

  lemma {:induction false} ComposedAt(hs: seq<Holiday>, oneOffs: seq<Row>, i: nat)
    requires i < |Compose(hs, oneOffs)|
    ensures hs == [] ==> i < |Events(oneOffs)| && Compose(hs, oneOffs)[i] == Events(oneOffs)[i]
    ensures hs != [] && i == 0 ==> Compose(hs, oneOffs)[i] == HolidayEvent(hs)
    ensures hs != [] && i > 0 ==> i - 1 < |Events(oneOffs)| && Compose(hs, oneOffs)[i] == Events(oneOffs)[i - 1]
  {
  }

  /** The composed list means: the first one-off that says anything, else the holiday state on a calendar day, else nothing. */
  lemma {:induction false} ComposedMeans(hs: seq<Holiday>, oneOffs: seq<Row>, calendar: seq<CalendarEntry>, d: Date, t: nat)
    ensures ExceptionValue(Compose(hs, oneOffs), calendar, d, t)
            == match FirstOneOff(oneOffs, calendar, d, t)
               case Some(v) => Some(v)
               case None => if hs != [] && CalendarActive(calendar, d) then Some(hs[0].state) else None
  {
    var events := Events(oneOffs);
    OneOffsDecide(oneOffs, calendar, d, t);
    if hs == [] {
      assert Compose(hs, oneOffs) == events;
    } else {
      AllDay(hs[0].state, t);
      assert Compose(hs, oneOffs)[1..] == events;
    }
  }

  // ------------------------------------------------ what the stored intent asks

  /** What a stored one-off asks for on a date, at an instant. */
  function RowState(r: Row, d: Date, t: nat): Option<int> {
    match (Span(r), Validate(r.transitions))
    case (Some(_), Success(day)) => if Covers(r, d) then StateFrom(Says(day), t / MINUTE) else None
    case _ => None
  }

  /** The first of some one-offs, in query order, that asks for anything. */
  function FirstAsked(rows: seq<Row>, d: Date, t: nat): Option<int> {
    FirstOf(rows, (r: Row) => RowState(r, d, t))
  }

  /** The own state of a holiday that falls on the date, the first in the order they are stored. */
  function HolidayState(hs: seq<Holiday>, d: Date): Option<int> {
    FirstOf(hs, (h: Holiday) => if Falls(h, d) then Some(h.state) else None)
  }

  /** The store has the one-off for this device: for it, for its zone or for everyone, and not switched off. */
  predicate StoredFor(r: Row, device: string, zone: string) {
    r.enabled && match r.scope
                 case GlobalScope => true
                 case ZoneScope(z) => z == zone
                 case DeviceScope(id) => id == device
  }

  /** Of the stored one-offs for the device that ask for something, the one that starts first, the first stored among equals. */
  function DecidingRow(rows: seq<Row>, device: string, zone: string, d: Date, t: nat): Option<nat> {
    Leader(rows, (r: Row) => StoredFor(r, device, zone) && RowState(r, d, t).Some?, (r: Row) => r.startDate)
  }

  /** What the stored one-offs ask for. */
  function OneOffAsked(rows: seq<Row>, device: string, zone: string, d: Date, t: nat): Option<int> {
    match DecidingRow(rows, device, zone, d, t)
    case None => None
    case Some(i) => RowState(rows[i], d, t)
  }

  /** That is: some row asks, no other that asks starts earlier, and none stored before it starts on the same day; or no row asks. */
  lemma {:induction false} OneOffAskedExactly(rows: seq<Row>, device: string, zone: string, d: Date, t: nat, v: int)
    ensures var asks := (r: Row) => StoredFor(r, device, zone) && RowState(r, d, t).Some?;
            && (OneOffAsked(rows, device, zone, d, t) == Some(v)
                <==> exists i :: Leads(rows, i, asks, (r: Row) => r.startDate) && RowState(rows[i], d, t) == Some(v))
            && (OneOffAsked(rows, device, zone, d, t) == None <==> forall i :: 0 <= i < |rows| ==> !asks(rows[i]))
  {
    var asks := (r: Row) => StoredFor(r, device, zone) && RowState(r, d, t).Some?;
    LeaderLeads(rows, asks, (r: Row) => r.startDate);
    forall i ensures Leads(rows, i, asks, (r: Row) => r.startDate) <==> DecidingRow(rows, device, zone, d, t) == Some(i) {
      OneLeads(rows, i, asks, (r: Row) => r.startDate);
    }
  }

  /** The query gives every stored one-off for the device as often as it is stored, no other, and in order of the start dates. */
  lemma {:induction false} ExceptionsForExactly(rows: seq<Row>, device: string, zone: string)
    ensures var all := ExceptionsFor(rows, device, zone, None);
            && (forall r :: multiset(all)[r]
                            == if r.enabled && (r.scope == GlobalScope || r.scope == ZoneScope(zone) || r.scope == DeviceScope(device))
                               then multiset(rows)[r] else 0)
            && (forall i, j :: 0 <= i < j < |all| ==> !Less(all[j].startDate, all[i].startDate))
  {
    var asked := (r: Row) => Applies(r, device, zone) && Current(r, None);
    var key := (r: Row) => r.startDate;
    var all := ExceptionsFor(rows, device, zone, None);
    OrderCounts(Keep(rows, asked), key);
    OrderIsInOrder(Keep(rows, asked), key);
    forall r ensures multiset(all)[r] == if Applies(r, device, zone) then multiset(rows)[r] else 0 {
      KeepCounts(rows, asked, r);
    }
    forall i, j | 0 <= i < j < |all| ensures !Less(all[j].startDate, all[i].startDate) {
      InOrderAt(all, key, i, j);
    }
  }

  /** The first of the rows the query gives that asks for something is the one that decides among those stored. */
  lemma {:induction false} QueryAsks(rows: seq<Row>, device: string, zone: string, d: Date, t: nat)
    ensures FirstAsked(ExceptionsFor(rows, device, zone, None), d, t) == OneOffAsked(rows, device, zone, d, t)
  {
    var val := (r: Row) => RowState(r, d, t);
    FirstIsLeader(rows, (r: Row) => Applies(r, device, zone) && Current(r, None), (r: Row) => r.startDate, val,
                  (r: Row) => StoredFor(r, device, zone) && RowState(r, d, t).Some?);
    FirstOfIs(ExceptionsFor(rows, device, zone, None), val);
  }

  /** What the store asks beside the week: what its one-offs do, else the holiday's own state. */
  function AskedBeside(hs: seq<Holiday>, rows: seq<Row>, device: string, zone: string, d: Date, t: nat): Option<int> {
    match OneOffAsked(rows, device, zone, d, t)
    case Some(v) => Some(v)
    case None => HolidayState(hs, d)
  }

  /**
  What the store asks of a device at an instant: the first one-off that says
  anything, else the holiday's own state, else the stored day of the week, else
  the default.  Nothing here is encoded, and no BACnet object is looked at.
  */
  function Intended(hs: seq<Holiday>, rows: seq<Row>, device: string, zone: string, week: Week, scheduleDefault: int, d: Date, t: nat): int
    requires FullWeek(week)
  {
    AskedBeside(hs, rows, device, zone, d, t).GetOr(DayState(week[Weekday(d)], scheduleDefault, t))
  }

  /** An accepted one-off is shown by the device as the caller said it. */
  lemma {:induction false} RowIsObeyed(r: Row, calendar: seq<CalendarEntry>, d: Date, t: nat)
    requires PlainYears(r) && ValidDate(d)
    ensures RowValue(r, calendar, d, t) == RowState(r, d, t)
  {
    if Span(r).Some? && Validate(r.transitions).Success? {
      AcceptedIsObeyed(r.transitions, t);
      StoredAsSaid(r.transitions);
      SpanDays(r, d);
    }
  }

  /**
  Asked for today, the one-off is shown on the date exactly as it is stored.  It
  is not on its one day with a blank end date, which the query drops; nor, if an
  end is in 2155, on the days of a span, or on its one day in another year.
  */
  predicate ShownAsStored(r: Row, today: Date, d: Date) {
    Span(r).Some? ==>
      var (start, end) := Span(r).value;
      match end
      case None =>
        d.month == start.month && d.day == start.day ==>
          if BlankEnd(r) then d.year != start.year
          else start.year != UNSAYABLE || d.year == UNSAYABLE || Before(start, today)
      case Some(end) => Covers(r, d) ==> start.year != UNSAYABLE && end.year != UNSAYABLE
  }

  lemma {:induction false} ShownExactly(r: Row, today: Date, d: Date)
    requires Span(r).Some? && ValidDate(today) && ValidDate(d) && !Before(d, today)
    ensures (Current(r, Some(Iso(today))) && Matches(SpanEntry(Span(r).value), d) <==> Covers(r, d)) <==> ShownAsStored(r, today, d)
  {
    SpanText(r);
    CurrentExact(r, today);
  }

  lemma {:induction false} RowShown(r: Row, today: Date, calendar: seq<CalendarEntry>, d: Date, t: nat)
    requires ValidDate(today) && ValidDate(d) && !Before(d, today) && ShownAsStored(r, today, d)
    ensures (if Current(r, Some(Iso(today))) then RowValue(r, calendar, d, t) else None) == RowState(r, d, t)
  {
    if Span(r).Some? {
      ShownExactly(r, today, d);
      if Validate(r.transitions).Success? {
        AcceptedIsObeyed(r.transitions, t);
        StoredAsSaid(r.transitions);
      }
    }
  }

  ghost predicate AllShownAsStored(rows: seq<Row>, today: Date, d: Date) {
    forall i :: 0 <= i < |rows| ==> ShownAsStored(rows[i], today, d)
  }

  lemma {:induction false} RowsShown(rows: seq<Row>, today: Date, calendar: seq<CalendarEntry>, d: Date, t: nat)
    requires ValidDate(today) && ValidDate(d) && !Before(d, today) && AllShownAsStored(rows, today, d)
    ensures FirstOneOff(Keep(rows, (r: Row) => Current(r, Some(Iso(today)))), calendar, d, t) == FirstAsked(rows, d, t)
  {
    if rows != [] {
      RowShown(rows[0], today, calendar, d, t);
      RowsShown(rows[1..], today, calendar, d, t);
      var rest := Keep(rows[1..], (r: Row) => Current(r, Some(Iso(today))));
      assert ([rows[0]] + rest)[1..] == rest && [] + rest == rest;
    }
  }

  /** On this date every rule falls exactly if its calendar entry matches. */
  ghost predicate AgreeOn(hs: seq<Holiday>, calendar: seq<CalendarEntry>, d: Date) {
    |calendar| == |hs| && forall i :: 0 <= i < |hs| ==> (Falls(hs[i], d) <==> Matches(calendar[i], d))
  }

  /** So it is when every rule is read alike. */
  lemma {:induction false} RulesAgreeOn(hs: seq<Holiday>, calendar: seq<CalendarEntry>, d: Date)
    requires ToCalendarEntries(hs) == Success(calendar) && ValidDate(d)
    requires forall i :: 0 <= i < |hs| ==> RuleAgrees(hs[i], d)
    ensures AgreeOn(hs, calendar, d)
  {
    forall i | 0 <= i < |hs| ensures Falls(hs[i], d) <==> Matches(calendar[i], d) {
      EntriesAt(hs, calendar, i);
      FallsAsMatched(hs[i], d);
    }
  }

  lemma {:induction false} SomeHoliday(hs: seq<Holiday>, d: Date)
    ensures HolidayState(hs, d).Some? <==> exists i :: 0 <= i < |hs| && Falls(hs[i], d)
  {
    if hs != [] {
      SomeHoliday(hs[1..], d);
      if i :| 0 <= i < |hs| && Falls(hs[i], d) {
        if i > 0 { assert hs[1..][i - 1] == hs[i]; }
      }
      if i :| 0 <= i < |hs[1..]| && Falls(hs[1..][i], d) {
        assert hs[i + 1] == hs[1..][i];
      }
    }
  }

  lemma {:induction false} CalendarActiveExactly(hs: seq<Holiday>, calendar: seq<CalendarEntry>, d: Date)
    requires AgreeOn(hs, calendar, d)
    ensures CalendarActive(calendar, d) <==> HolidayState(hs, d).Some?
  {
    SomeHoliday(hs, d);
  }

  /** The state the one holiday event carries is the right one for this date. */
  predicate FirstStateServes(hs: seq<Holiday>, d: Date) {
    HolidayState(hs, d).None? || HolidayState(hs, d) == Some(hs[0].state)
  }

  /** The state the one holiday event puts in effect on a date. */
  function HolidayShown(hs: seq<Holiday>, calendar: seq<CalendarEntry>, d: Date): Option<int> {
    if hs != [] && CalendarActive(calendar, d) then Some(hs[0].state) else None
  }

  /** The one-offs the store has for a device are shown on a date as they are stored. */
  ghost predicate RowsServe(rows: seq<Row>, device: string, zone: string, today: Date, d: Date) {
    forall i :: 0 <= i < |rows| && StoredFor(rows[i], device, zone) ==> ShownAsStored(rows[i], today, d)
  }

  lemma {:induction false} ServedRows(rows: seq<Row>, device: string, zone: string, today: Date, d: Date)
    requires RowsServe(rows, device, zone, today, d)
    ensures AllShownAsStored(ExceptionsFor(rows, device, zone, None), today, d)
  {
    var all := ExceptionsFor(rows, device, zone, None);
    ExceptionsForExactly(rows, device, zone);
    forall i | 0 <= i < |all| ensures ShownAsStored(all[i], today, d) {
      assert multiset(all)[all[i]] > 0;
      assert all[i] in rows;
    }
  }

  /**
  On every date from today on and at every instant, whatever calendar the device
  has, the list written today prescribes what the store asks for beside the week
  exactly when a one-off speaks or the first holiday's state, shown or not, is
  what the holidays ask for.
  */
  lemma {:induction false} ExceptionsMeanIntent(hs: seq<Holiday>, rows: seq<Row>, device: string, zone: string, today: Date,
                                                calendar: seq<CalendarEntry>, d: Date, t: nat)
    requires ValidDate(today) && ValidDate(d) && !Before(d, today) && RowsServe(rows, device, zone, today, d)
    ensures var written := Compose(hs, ExceptionsFor(rows, device, zone, Some(Iso(today))));
            var asked := OneOffAsked(rows, device, zone, d, t);
            && ExceptionValue(written, calendar, d, t) == (if asked.Some? then asked else HolidayShown(hs, calendar, d))
            && (ExceptionValue(written, calendar, d, t) == AskedBeside(hs, rows, device, zone, d, t)
                <==> asked.Some? || HolidayShown(hs, calendar, d) == HolidayState(hs, d))
  {
    var all := ExceptionsFor(rows, device, zone, None);
    QueryFiltered(rows, device, zone, Some(Iso(today)));
    ServedRows(rows, device, zone, today, d);
    QueryAsks(rows, device, zone, d, t);
    RowsShown(all, today, calendar, d, t);
    ComposedMeans(hs, ExceptionsFor(rows, device, zone, Some(Iso(today))), calendar, d, t);
  }

  /** And with the week, whatever the device holds for it. */
  lemma {:induction false} ScheduleMeansIntent(hs: seq<Holiday>, rows: seq<Row>, device: string, zone: string, today: Date,
                                               calendar: seq<CalendarEntry>, weekly: seq<seq<TimeValue>>, scheduleDefault: int,
                                               week: Week, d: Date, t: nat)
    requires |weekly| == 7 && FullWeek(week)
    requires ValidDate(today) && ValidDate(d) && !Before(d, today) && RowsServe(rows, device, zone, today, d)
    ensures var written := Compose(hs, ExceptionsFor(rows, device, zone, Some(Iso(today))));
            var held, stored := DayValue(weekly[Weekday(d) - 1], scheduleDefault, t), DayState(week[Weekday(d)], scheduleDefault, t);
            PresentValue(Schedule(weekly, written, scheduleDefault), calendar, d, t)
            == Intended(hs, rows, device, zone, week, scheduleDefault, d, t)
            <==> OneOffAsked(rows, device, zone, d, t).Some?
                 || HolidayShown(hs, calendar, d).GetOr(held) == HolidayState(hs, d).GetOr(stored)
  {
    ExceptionsMeanIntent(hs, rows, device, zone, today, calendar, d, t);
  }

  /** On a date on which the rules are read alike, what is shown is what is asked exactly if the first state serves. */
  lemma {:induction false} AlikeServes(hs: seq<Holiday>, calendar: seq<CalendarEntry>, d: Date, w: int)
    requires AgreeOn(hs, calendar, d)
    ensures HolidayShown(hs, calendar, d) == HolidayState(hs, d) <==> FirstStateServes(hs, d)
    ensures HolidayShown(hs, calendar, d).GetOr(w) == HolidayState(hs, d).GetOr(w) <==> FirstStateServes(hs, d)
  {
    CalendarActiveExactly(hs, calendar, d);
  }

  // ------------------------------------------------------- one holiday event

  /** With no one-off in the way, the device shows each holiday's own state on every date its entry names. */
  ghost predicate ShowsOwnStates(hs: seq<Holiday>, calendar: seq<CalendarEntry>)
    requires |calendar| == |hs|
  {
    forall d, t: nat, i :: ValidDate(d) && 0 <= i < |hs| && Matches(calendar[i], d)
                           ==> ExceptionValue(Compose(hs, []), calendar, d, t) == Some(hs[i].state)
  }

  /** Every rule that can ever match has the state of the first rule. */
  predicate UniformStates(hs: seq<Holiday>)
    requires ToCalendarEntries(hs).Success?
  {
    forall i :: 0 <= i < |hs| && ToCalendarEntry(hs[i]).Success? && CanMatch(hs[i]) ==> hs[i].state == hs[0].state
  }

  lemma {:induction false} HolidayShows(hs: seq<Holiday>, calendar: seq<CalendarEntry>, d: Date, t: nat, i: nat)
    requires |calendar| == |hs| && i < |hs| && Matches(calendar[i], d)
    ensures ExceptionValue(Compose(hs, []), calendar, d, t) == Some(hs[0].state)
  {
    ComposedMeans(hs, [], calendar, d, t);
  }

  /** It does so, the ranges having their years, exactly when every rule that can ever match has the first one's state. */
  lemma {:induction false} HolidayStates(hs: seq<Holiday>, calendar: seq<CalendarEntry>)
    requires ToCalendarEntries(hs) == Success(calendar) && forall i :: 0 <= i < |hs| ==> Dated(hs[i])
    ensures ShowsOwnStates(hs, calendar) <==> UniformStates(hs)
  {
    if ShowsOwnStates(hs, calendar) {
      forall i | 0 <= i < |hs| && ToCalendarEntry(hs[i]).Success? && CanMatch(hs[i]) ensures hs[i].state == hs[0].state {
        EntriesAt(hs, calendar, i);
        CanMatchExactly(hs[i]);
        var d :| ValidDate(d) && Matches(calendar[i], d);
        HolidayShows(hs, calendar, d, 0, i);
        assert ExceptionValue(Compose(hs, []), calendar, d, 0) == Some(hs[i].state);
      }
    }
    if UniformStates(hs) {
      forall d, t: nat, i | ValidDate(d) && 0 <= i < |hs| && Matches(calendar[i], d)
        ensures ExceptionValue(Compose(hs, []), calendar, d, t) == Some(hs[i].state)
      {
        HolidayShows(hs, calendar, d, t, i);
        EntriesAt(hs, calendar, i);
        CanMatchExactly(hs[i]);
      }
    }
  }

  lemma {:induction false} HolidayStateOf(hs: seq<Holiday>, d: Date) returns (i: nat)
    requires HolidayState(hs, d).Some?
    ensures i < |hs| && Falls(hs[i], d) && HolidayState(hs, d) == Some(hs[i].state)
  {
    if Falls(hs[0], d) {
      i := 0;
    } else {
      var j := HolidayStateOf(hs[1..], d);
      i := j + 1;
    }
  }

  /** And then it is the right state on every date on which the rules agree with their entries. */
  lemma {:induction false} UniformServes(hs: seq<Holiday>, calendar: seq<CalendarEntry>, d: Date)
    requires ToCalendarEntries(hs) == Success(calendar) && UniformStates(hs) && AgreeOn(hs, calendar, d) && ValidDate(d)
    ensures FirstStateServes(hs, d)
  {
    if HolidayState(hs, d).Some? {
      var i := HolidayStateOf(hs, d);
      EntriesAt(hs, calendar, i);
      MatchedCan(hs[i], d);
    }
  }

  /** New Year unoccupied and Christmas Eve on standby: on Christmas Eve the device is unoccupied. */
  lemma {:induction false} TwoHolidayStates()
    ensures var hs := [Holiday(Fixed, 1, None, Some(1), Some(1), None, None, None, None),
                       Holiday(Fixed, 3, None, Some(12), Some(24), None, None, None, None)];
            var eve := Date(2026, 12, 24);
            && ToCalendarEntries(hs).Success? && ValidDate(eve) && HolidayState(hs, eve) == Some(3)
            && ExceptionValue(Compose(hs, []), ToCalendarEntries(hs).value, eve, 0) == Some(1)
            && !UniformStates(hs) && !FirstStateServes(hs, eve)
  {
    var first := Holiday(Fixed, 1, None, Some(1), Some(1), None, None, None, None);
    var second := Holiday(Fixed, 3, None, Some(12), Some(24), None, None, None, None);
    var hs, eve := [first, second], Date(2026, 12, 24);
    assert hs[..1] == [first] && hs[..1][..0] == [] && hs[1..] == [second];
    assert ToCalendarEntries([]) == Success([]);
    assert ToCalendarEntries([first]) == Success([] + [ToCalendarEntry(first).value]);
    var calendar := ToCalendarEntries(hs).value;
    EntriesAt(hs, calendar, 1);
    HolidayShows(hs, calendar, eve, 0, 1);
    assert Falls(second, eve) && !Falls(first, eve);
    assert HolidayState([second], eve) == Some(3);
  }
}
