/**
Pushing stored intent onto a thermostat (bms/reconciler.py, reconcile_device and
the steps it calls).

A write can be applied and acknowledged, applied without the acknowledgement
arriving, or lost; a read can fail or come back partial.  The theorems say
exactly which items still disagree after a cycle and after a run of cycles, what
a cycle sends, and what a device that agrees does.
*/
module Reconciler {
  import opened Prelude
  import opened Dates
  import opened BacnetObjects
  import opened WeekSchedule
  import opened Holidays
  import opened Exceptions
  import opened EntryCompare
  import opened Setpoints

  // ------------------------------------------------------------- the device

  /** What the reconciler reads and writes on one thermostat. */
  datatype Device = Device(
    weekly: seq<seq<TimeValue>>,
    scheduleDefault: int,
    calendar: seq<CalendarEntry>,
    exceptions: seq<SpecialEvent>,
    points: map<string, real>)

  /** How the network behaves during one cycle. */
  datatype Network = Network(
    weeklyRead: bool, defaultRead: bool, weeklyWrite: Outcome,
    calendarRead: bool, calendarWrite: Outcome, exceptionWrite: Outcome,
    pointsRead: bool, returned: set<string>, pointWrites: map<string, Outcome>)
  {
    function PointWrite(key: string): Outcome {
      if key in pointWrites then pointWrites[key] else Lost
    }
  }

  // ------------------------------------------------------------- the intent

  /** What the store holds for one device, and the keys of the writable points. */
  datatype Intent = Intent(
    group: Option<Week>, overrides: Week,
    holidays: seq<Holiday>, oneOffs: seq<Row>,
    setpoints: seq<SetpointRow>, writable: set<string>,
    device: string, zone: string)
  {
    /** A device without a group has no intended week. */
    function Week(): (w: Option<Week>)
      ensures w.Some? ==> FullWeek(w.value)
    {
      match group case None => None case Some(g) => Some(ResolveWeek(g, overrides))
    }

    function Setpoints(): Ordered {
      Resolved(setpoints, device, zone)
    }

    /** The clamped value a writable point should have. */
    function Wanted(key: string): Option<real> {
      match MostSpecific(setpoints, device, zone, key)
      case None => None
      case Some(v) => if key in writable then Some(Clamp(key, v)) else None
    }

    /** The exception list of the day: the holidays and the one-offs not yet over. */
    function Events(today: Date): seq<SpecialEvent>
      requires ValidDate(today)
    {
      Compose(holidays, ExceptionsFor(oneOffs, device, zone, Some(Iso(today))))
    }
  }

  // --------------------------------------------------------------- a cycle

  datatype Item = Weekly | Calendar | ExceptionList | Setpoint(key: string)

  /** How far a cycle has come: the device, the writes sent to it and the three lists of the result. */
  datatype Progress = Progress(device: Device, sent: seq<Item>, changed: seq<Item>, correct: seq<Item>, errors: seq<Item>)
  {
    function Failed(item: Item): Progress {
      this.(errors := errors + [item])
    }

    function Correct(item: Item): Progress {
      this.(correct := correct + [item])
    }

    /** A write is sent; `applied` is the device if it lands. */
    function Sent(item: Item, applied: Device, o: Outcome): Progress {
      this.(device := if o == Lost then device else applied,
            sent := sent + [item],
            changed := if o == Acked then changed + [item] else changed,
            errors := if o == Acked then errors else errors + [item])
    }
  }

  function Start(d: Device): Progress {
    Progress(d, [], [], [], [])
  }

  function ReadDefault(d: Device, n: Network): Option<int> {
    if n.defaultRead then Some(d.scheduleDefault) else None
  }

  /** `_reconcile_weekly`. */
  function WeeklyStep(p: Progress, intent: Intent, n: Network): Progress {
    match intent.Week()
    case None => p
    case Some(week) =>
      match WeekToBacnet(week)
      case None => p.Failed(Weekly)
      case Some(desired) =>
        if !n.weeklyRead then p.Failed(Weekly)
        else if AlreadyCorrect(p.device.weekly, ReadDefault(p.device, n), week) then p.Correct(Weekly)
        else p.Sent(Weekly, p.device.(weekly := desired), n.weeklyWrite)
  }

  /** `_same` on what the device returned; `text` is the normal form of an entry's wire form. */
  predicate SameCalendar(current: seq<CalendarEntry>, desired: seq<CalendarEntry>, text: CalendarEntry -> string) {
    SameSpec(current, desired, text, (a: CalendarEntry, b: CalendarEntry) => a == b)
  }

  /** The calendar half of `_reconcile_holidays`, and whether the exceptions are gone on with. */
  function CalendarStep(p: Progress, intent: Intent, n: Network, text: CalendarEntry -> string): (Progress, bool) {
    match ToCalendarEntries(intent.holidays)
    case Failure(_) => (p.Failed(Calendar), false)
    case Success(desired) =>
      if !n.calendarRead then (p.Failed(Calendar), false)
      else if SameCalendar(p.device.calendar, desired, text) then (p.Correct(Calendar), true)
      else (p.Sent(Calendar, p.device.(calendar := desired), n.calendarWrite), n.calendarWrite == Acked)
  }

  /** The rows that do not convert, each an error of its own. */
  function Complaints(rows: seq<Row>): seq<Item> {
    if rows == [] then []
    else (if ToEvent(rows[0]).None? then [ExceptionList] else []) + Complaints(rows[1..])
  }

  /** `_reconcile_exceptions`: always written, and reported as already correct. */
  function ExceptionStep(p: Progress, intent: Intent, today: Date, n: Network): Progress
    requires ValidDate(today)
  {
    var rows := ExceptionsFor(intent.oneOffs, intent.device, intent.zone, Some(Iso(today)));
    var applied := p.device.(exceptions := intent.Events(today));
    var errors := p.errors + Complaints(rows);
    p.(device := if n.exceptionWrite == Lost then p.device else applied,
       sent := p.sent + [ExceptionList],
       correct := if n.exceptionWrite == Acked then p.correct + [ExceptionList] else p.correct,
       errors := if n.exceptionWrite == Acked then errors else errors + [ExceptionList])
  }

  function HolidayStep(p: Progress, intent: Intent, today: Date, n: Network, text: CalendarEntry -> string): Progress
    requires ValidDate(today)
  {
    var (after, goOn) := CalendarStep(p, intent, n, text);
    if goOn then ExceptionStep(after, intent, today, n) else after
  }

  /** What a read of the points returns: only some of them may have answered. */
  function ReadPoints(d: Device, n: Network): map<string, real> {
    map key | key in d.points && key in n.returned :: d.points[key]
  }

  function PointStep(p: Progress, actual: map<string, real>, key: string, intended: real, writable: set<string>, n: Network): Progress {
    if key !in writable then p.Failed(Setpoint(key))
    else
      var want := Clamp(key, intended);
      if key in actual && Close(actual[key], want) then p.Correct(Setpoint(key))
      else p.Sent(Setpoint(key), p.device.(points := p.device.points[key := want]), n.PointWrite(key))
  }

  function PointSteps(p: Progress, actual: map<string, real>, intended: Ordered, writable: set<string>, n: Network): Progress {
    if intended == [] then p
    else
      var before, last := PointSteps(p, actual, intended[..|intended| - 1], writable, n), intended[|intended| - 1];
      PointStep(before, actual, last.0, last.1, writable, n)
  }

  /** `_reconcile_setpoints`; a failed read of the points is one error, recorded without a key. */
  function SetpointStep(p: Progress, intent: Intent, n: Network): Progress {
    var intended := intent.Setpoints();
    if intended == [] then p
    else if !n.pointsRead then p.Failed(Setpoint(""))
    else PointSteps(p, ReadPoints(p.device, n), intended, intent.writable, n)
  }

  /** `reconcile_device`, the clock aside. */
  function Cycle(d: Device, intent: Intent, today: Date, n: Network, text: CalendarEntry -> string): Progress
    requires ValidDate(today)
  {
    SetpointStep(HolidayStep(WeeklyStep(Start(d), intent, n), intent, today, n, text), intent, n)
  }

  // ------------------------------------------------------- as the code runs it

  /** What converts, in order. */
  function Converted<T(!new), E>(rows: seq<T>, convert: T -> Option<E>): seq<E> {
    if rows == [] then []
    else (match convert(rows[0]) case None => [] case Some(e) => [e]) + Converted(rows[1..], convert)
  }

  /** How many do not. */
  function Refused<T(!new), E>(rows: seq<T>, convert: T -> Option<E>, item: Item): seq<Item> {
    if rows == [] then []
    else (if convert(rows[0]).None? then [item] else []) + Refused(rows[1..], convert, item)
  }

  lemma {:induction false} ConvertedEvents(rows: seq<Row>)
    ensures Converted(rows, ToEvent) == Events(rows)
    ensures Refused(rows, ToEvent, ExceptionList) == Complaints(rows)
  {
    if rows != [] {
      ConvertedEvents(rows[1..]);
    }
  }

  lemma {:induction false} ConvertedAppend<T(!new), E>(rows: seq<T>, r: T, convert: T -> Option<E>, item: Item)
    ensures Converted(rows + [r], convert) == Converted(rows, convert) + match convert(r) case None => [] case Some(e) => [e]
    ensures Refused(rows + [r], convert, item) == Refused(rows, convert, item) + if convert(r).None? then [item] else []
  {
    if rows == [] {
      assert rows + [r] == [r] && [r][1..] == [];
    } else {
      assert (rows + [r])[1..] == rows[1..] + [r] && (rows + [r])[0] == rows[0];
      ConvertedAppend(rows[1..], r, convert, item);
      Regroup(match convert(rows[0]) case None => [] case Some(e) => [e], Converted(rows[1..], convert),
              match convert(r) case None => [] case Some(e) => [e]);
      Regroup(if convert(rows[0]).None? then [item] else [], Refused(rows[1..], convert, item),
              if convert(r).None? then [item] else []);
    }
  }

  /** Each row becomes an event, or an error that stops nothing. */
  method ConvertAll<T(!new), E>(rows: seq<T>, convert: T -> Option<E>, item: Item) returns (events: seq<E>, complaints: seq<Item>)
    ensures events == Converted(rows, convert) && complaints == Refused(rows, convert, item)
  {
    events, complaints := [], [];
    for i := 0 to |rows|
      invariant events == Converted(rows[..i], convert)
      invariant complaints == Refused(rows[..i], convert, item)
    {
      ConvertedAppend(rows[..i], rows[i], convert, item);
      assert rows[..i + 1] == rows[..i] + [rows[i]];
      match convert(rows[i]) {
        case None => complaints := complaints + [item];
        case Some(e) => events := events + [e];
      }
    }
    assert rows[..|rows|] == rows;
  }

  /** One device's reconciliation: its result lists, and the device as the writes leave it. */
  class DeviceReconciliation {
    const text: CalendarEntry -> string
    var device: Device
    var sent: seq<Item>
    var changed: seq<Item>
    var alreadyCorrect: seq<Item>
    var errors: seq<Item>

    ghost function Contents(): Progress
      reads this
    {
      Progress(device, sent, changed, alreadyCorrect, errors)
    }

    constructor (d: Device, text: CalendarEntry -> string)
      ensures Contents() == Start(d) && this.text == text
    {
      this.text := text;
      device, sent, changed, alreadyCorrect, errors := d, [], [], [], [];
    }

    /** Sends a write; `applied` is what the device becomes if it lands. */
    method Send(item: Item, applied: Device, o: Outcome)
      modifies this
      ensures Contents() == old(Contents()).Sent(item, applied, o)
    {
      sent := sent + [item];
      if o != Lost {
        device := applied;
      }
      if o == Acked {
        changed := changed + [item];
      } else {
        errors := errors + [item];
      }
    }

    method ReconcileWeekly(intent: Intent, n: Network)
      modifies this
      ensures Contents() == WeeklyStep(old(Contents()), intent, n)
    {
      if intent.group.None? {
        return;
      }
      var week := ResolveWeek(intent.group.value, intent.overrides);
      var desired := WeekToBacnet(week);
      if desired.None? || !n.weeklyRead {
        errors := errors + [Weekly];
        return;
      }
      if AlreadyCorrect(device.weekly, ReadDefault(device, n), week) {
        alreadyCorrect := alreadyCorrect + [Weekly];
        return;
      }
      Send(Weekly, device.(weekly := desired.value), n.weeklyWrite);
    }

    method ReconcileHolidays(intent: Intent, today: Date, n: Network)
      requires ValidDate(today)
      modifies this
      ensures Contents() == HolidayStep(old(Contents()), intent, today, n, text)
    {
      var desired := ToCalendarEntries(intent.holidays);
      if desired.Failure? || !n.calendarRead {
        errors := errors + [Calendar];
        return;
      }
      var same := Same(device.calendar, desired.value, text, (a: CalendarEntry, b: CalendarEntry) => a == b);
      if same {
        alreadyCorrect := alreadyCorrect + [Calendar];
      } else {
        Send(Calendar, device.(calendar := desired.value), n.calendarWrite);
        if n.calendarWrite != Acked {
          return;
        }
      }
      ReconcileExceptions(intent, today, n);
    }

    method ReconcileExceptions(intent: Intent, today: Date, n: Network)
      requires ValidDate(today)
      modifies this
      ensures Contents() == ExceptionStep(old(Contents()), intent, today, n)
    {
      var rows := ExceptionsFor(intent.oneOffs, intent.device, intent.zone, Some(Iso(today)));
      var oneOffs, complaints := ConvertAll(rows, ToEvent, ExceptionList);
      ConvertedEvents(rows);
      var events := (if intent.holidays == [] then [] else [HolidayEvent(intent.holidays)]) + oneOffs;
      errors := errors + complaints;
      sent := sent + [ExceptionList];
      if n.exceptionWrite != Lost {
        device := device.(exceptions := events);
      }
      if n.exceptionWrite == Acked {
        alreadyCorrect := alreadyCorrect + [ExceptionList];
      } else {
        errors := errors + [ExceptionList];
      }
    }

    method ReconcileSetpoints(intent: Intent, n: Network)
      modifies this
      ensures Contents() == SetpointStep(old(Contents()), intent, n)
    {
      var intended := SetpointsFor(intent.setpoints, intent.device, intent.zone);
      if intended == [] {
        return;
      }
      if !n.pointsRead {
        errors := errors + [Setpoint("")];
        return;
      }
      var actual := ReadPoints(device, n);
      for i := 0 to |intended|
        invariant Contents() == PointSteps(old(Contents()), actual, intended[..i], intent.writable, n)
      {
        assert intended[..i + 1][..i] == intended[..i];
        var (key, value) := intended[i];
        if key !in intent.writable {
          errors := errors + [Setpoint(key)];
        } else {
          var want := Clamp(key, value);
          if key in actual && Close(actual[key], want) {
            alreadyCorrect := alreadyCorrect + [Setpoint(key)];
          } else {
            Send(Setpoint(key), device.(points := device.points[key := want]), n.PointWrite(key));
          }
        }
      }
      assert intended[..|intended|] == intended;
    }

    method ReconcileDevice(intent: Intent, today: Date, n: Network)
      requires ValidDate(today) && Contents() == Start(device)
      modifies this
      ensures Contents() == Cycle(old(device), intent, today, n, text)
    {
      ReconcileWeekly(intent, n);
      ReconcileHolidays(intent, today, n);
      ReconcileSetpoints(intent, n);
    }
  }
}
