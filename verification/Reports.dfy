/**
What a cycle reports (bms/reconciler.py, DeviceResult): which items it lists as
changed, as already correct and as errors, against what the device had and what
became of the writes.
*/
module Reports {
  import opened Prelude
  import opened Dates
  import opened WeekSchedule
  import opened Holidays
  import opened Exceptions
  import opened BacnetObjects
  import opened Setpoints
  import opened Reconciler
  import opened Convergence

  /** What became of the write of an item, if it was sent. */
  function OutcomeOf(n: Network, item: Item): Outcome {
    match item
    case Weekly => n.weeklyWrite
    case Calendar => n.calendarWrite
    case ExceptionList => n.exceptionWrite
    case Setpoint(key) => n.PointWrite(key)
  }

  /** The lists say the same of an item. */
  ghost predicate SameReport(p: Progress, r: Progress, item: Item) {
    && (item in r.sent <==> item in p.sent) && (item in r.changed <==> item in p.changed)
    && (item in r.correct <==> item in p.correct) && (item in r.errors <==> item in p.errors)
  }

  /** Nothing has been said of the item. */
  ghost predicate Unreported(p: Progress, item: Item) {
    item !in p.sent && item !in p.changed && item !in p.correct && item !in p.errors
  }

  /** An item that is compared and, if it differs, written: `known` if its intent can be written. */
  ghost predicate Reported(r: Progress, item: Item, known: bool, differs: bool, refused: bool, o: Outcome) {
    && (item in r.sent <==> known && differs)
    && (item in r.changed <==> known && differs && o == Acked)
    && (item in r.correct <==> known && !differs)
    && (item in r.errors <==> refused || (known && differs && o != Acked))
  }

  /** The store has something for the item that cannot be written. */
  ghost predicate Unwritable(intent: Intent, item: Item) {
    !Tracked(intent, item)
    && match item
       case Weekly => intent.group.Some?
       case Calendar => true
       case ExceptionList => false
       case Setpoint(key) => MostSpecific(intent.setpoints, intent.device, intent.zone, key).Some?
  }

  lemma {:induction false} Carry(p: Progress, r: Progress, item: Item, known: bool, differs: bool, refused: bool, o: Outcome)
    requires SameReport(p, r, item) && Reported(p, item, known, differs, refused, o)
    ensures Reported(r, item, known, differs, refused, o)
  {
  }

  lemma {:induction false} SentReport(p: Progress, item: Item, applied: Device, o: Outcome, other: Item)
    ensures other != item ==> SameReport(p, p.Sent(item, applied, o), other)
    ensures Unreported(p, item) ==> Reported(p.Sent(item, applied, o), item, true, true, false, o)
  {
  }

  lemma {:induction false} CorrectReport(p: Progress, item: Item, o: Outcome, other: Item)
    ensures other != item ==> SameReport(p, p.Correct(item), other)
    ensures Unreported(p, item) ==> Reported(p.Correct(item), item, true, false, false, o)
  {
  }

  lemma {:induction false} FailedReport(p: Progress, item: Item, o: Outcome, other: Item)
    ensures other != item ==> SameReport(p, p.Failed(item), other)
    ensures Unreported(p, item) ==> Reported(p.Failed(item), item, false, false, true, o)
  {
  }

  lemma {:induction false} WeeklyReport(p: Progress, intent: Intent, n: Network, text: CalendarEntry -> string, other: Item)
    requires n.weeklyRead && n.defaultRead
    ensures var r := WeeklyStep(p, intent, n);
            && (other != Weekly ==> SameReport(p, r, other))
            && (Unreported(p, Weekly) ==>
                  Reported(r, Weekly, Tracked(intent, Weekly), Drifted(p.device, intent, text, Weekly), Unwritable(intent, Weekly), n.weeklyWrite))
  {
    if intent.Week().Some? {
      var week := intent.Week().value;
      FailedReport(p, Weekly, n.weeklyWrite, other);
      CorrectReport(p, Weekly, n.weeklyWrite, other);
      if WeekToBacnet(week).Some? {
        SentReport(p, Weekly, p.device.(weekly := WeekToBacnet(week).value), n.weeklyWrite, other);
      }
    }
  }

  lemma {:induction false} CalendarReport(p: Progress, intent: Intent, n: Network, text: CalendarEntry -> string, other: Item)
    requires n.calendarRead
    ensures var r := CalendarStep(p, intent, n, text).0;
            && (other != Calendar ==> SameReport(p, r, other))
            && (Unreported(p, Calendar) ==>
                  Reported(r, Calendar, Tracked(intent, Calendar), Drifted(p.device, intent, text, Calendar), Unwritable(intent, Calendar), n.calendarWrite))
  {
    match ToCalendarEntries(intent.holidays) {
      case Failure(_) => FailedReport(p, Calendar, n.calendarWrite, other);
      case Success(desired) =>
        SameIsAgreement(p.device.calendar, desired, text);
        CorrectReport(p, Calendar, n.calendarWrite, other);
        SentReport(p, Calendar, p.device.(calendar := desired), n.calendarWrite, other);
    }
  }

  lemma {:induction false} ComplaintsExactly(rows: seq<Row>, item: Item)
    ensures item in Complaints(rows) <==> item == ExceptionList && exists i :: 0 <= i < |rows| && ToEvent(rows[i]).None?
  {
    if rows != [] {
      ComplaintsExactly(rows[1..], item);
      if i :| 0 <= i < |rows| && ToEvent(rows[i]).None? {
        if i > 0 { assert rows[1..][i - 1] == rows[i]; }
      }
      if i :| 0 <= i < |rows[1..]| && ToEvent(rows[1..][i]).None? {
        assert rows[i + 1] == rows[1..][i];
      }
    }
  }

  /** Some current one-off of the device does not convert. */
  ghost predicate SomeRefused(intent: Intent, today: Date)
    requires ValidDate(today)
  {
    var rows := ExceptionsFor(intent.oneOffs, intent.device, intent.zone, Some(Iso(today)));
    exists i :: 0 <= i < |rows| && ToEvent(rows[i]).None?
  }

  /** What is said of the exception list: sent at all, it is never changed, and correct if acknowledged. */
  ghost predicate ExceptionsSaid(r: Progress, intent: Intent, today: Date, n: Network)
    requires ValidDate(today)
  {
    && ExceptionList !in r.changed
    && (ExceptionList in r.correct <==> ExceptionList in r.sent && n.exceptionWrite == Acked)
    && (ExceptionList in r.errors <==> ExceptionList in r.sent && (SomeRefused(intent, today) || n.exceptionWrite != Acked))
  }

  lemma {:induction false} ExceptionReport(p: Progress, intent: Intent, today: Date, n: Network, other: Item)
    requires ValidDate(today)
    ensures var r := ExceptionStep(p, intent, today, n);
            && (other != ExceptionList ==> SameReport(p, r, other))
            && (Unreported(p, ExceptionList) ==> ExceptionsSaid(r, intent, today, n))
  {
    var rows := ExceptionsFor(intent.oneOffs, intent.device, intent.zone, Some(Iso(today)));
    ComplaintsExactly(rows, other);
    ComplaintsExactly(rows, ExceptionList);
  }

  lemma {:induction false} HolidayReport(p: Progress, intent: Intent, today: Date, n: Network, text: CalendarEntry -> string, other: Item)
    requires ValidDate(today) && n.calendarRead
    ensures var r := HolidayStep(p, intent, today, n, text);
            && (other != Calendar && other != ExceptionList ==> SameReport(p, r, other))
            && (Unreported(p, Calendar) ==>
                  Reported(r, Calendar, Tracked(intent, Calendar), Drifted(p.device, intent, text, Calendar), Unwritable(intent, Calendar), n.calendarWrite))
            && (Unreported(p, ExceptionList) ==> ExceptionsSaid(r, intent, today, n))
  {
    var (after, goOn) := CalendarStep(p, intent, n, text);
    CalendarReport(p, intent, n, text, other);
    CalendarReport(p, intent, n, text, ExceptionList);
    if goOn {
      ExceptionReport(after, intent, today, n, other);
      ExceptionReport(after, intent, today, n, Calendar);
      if Unreported(p, Calendar) {
        Carry(after, ExceptionStep(after, intent, today, n), Calendar, Tracked(intent, Calendar), Drifted(p.device, intent, text, Calendar),
              Unwritable(intent, Calendar), n.calendarWrite);
      }
    }
  }

  lemma {:induction false} PointReport(p: Progress, actual: map<string, real>, k: string, v: real, writable: set<string>, n: Network, other: Item)
    ensures var r := PointStep(p, actual, k, v, writable, n);
            && (other != Setpoint(k) ==> SameReport(p, r, other))
            && (Unreported(p, Setpoint(k)) ==>
                  Reported(r, Setpoint(k), k in writable, k in writable && CalledFor(actual, k, Some(Clamp(k, v))), k !in writable, n.PointWrite(k)))
  {
    FailedReport(p, Setpoint(k), n.PointWrite(k), other);
    CorrectReport(p, Setpoint(k), n.PointWrite(k), other);
    SentReport(p, Setpoint(k), p.device.(points := p.device.points[k := Clamp(k, v)]), n.PointWrite(k), other);
  }

  lemma {:induction false} NotAmong(rest: Ordered, key: string, last: (string, real))
    requires DistinctKeys(rest + [last]) && last.0 == key
    ensures Get(rest, key).None?
  {
    forall i | 0 <= i < |rest| ensures rest[i].0 != key {
      assert (rest + [last])[i].0 != (rest + [last])[|rest|].0;
    }
  }

  lemma {:induction false} PointsReport(p: Progress, actual: map<string, real>, intended: Ordered, writable: set<string>, n: Network, key: string, other: Item)
    requires DistinctKeys(intended) && !other.Setpoint?
    ensures var r := PointSteps(p, actual, intended, writable, n);
            var wanted := WantedFrom(intended, writable, key);
            && SameReport(p, r, other)
            && (Unreported(p, Setpoint(key)) ==>
                  Reported(r, Setpoint(key), wanted.Some?, CalledFor(actual, key, wanted), Get(intended, key).Some? && wanted.None?, n.PointWrite(key)))
  {
    if intended != [] {
      var rest, last := intended[..|intended| - 1], intended[|intended| - 1];
      var before := PointSteps(p, actual, rest, writable, n);
      PointsReport(p, actual, rest, writable, n, key, other);
      GetSplit(intended, key);
      PointReport(before, actual, last.0, last.1, writable, n, other);
      PointReport(before, actual, last.0, last.1, writable, n, Setpoint(key));
      if last.0 == key {
        assert intended == rest + [last];
        NotAmong(rest, key, last);
      }
    }
  }

  lemma {:induction false} SetpointReport(p: Progress, intent: Intent, n: Network, text: CalendarEntry -> string, key: string, other: Item)
    requires n.pointsRead && p.device.points.Keys <= n.returned && !other.Setpoint?
    ensures var r := SetpointStep(p, intent, n);
            && SameReport(p, r, other)
            && (Unreported(p, Setpoint(key)) ==>
                  Reported(r, Setpoint(key), Tracked(intent, Setpoint(key)), Drifted(p.device, intent, text, Setpoint(key)),
                           Unwritable(intent, Setpoint(key)), n.PointWrite(key)))
  {
    WantedIs(intent, key);
    ResolvedIsMostSpecific(intent.setpoints, intent.device, intent.zone, key);
    PointsReport(p, ReadPoints(p.device, n), intent.Setpoints(), intent.writable, n, key, other);
  }

  lemma {:induction false} StartUnreported(d: Device, item: Item)
    ensures Unreported(Start(d), item)
  {
  }

  /** The weekly step of a cycle, for the weekly schedule and for any other item. */
  lemma {:induction false} AfterWeekly(d: Device, intent: Intent, n: Network, text: CalendarEntry -> string, item: Item)
    requires ReadsComplete(d, n)
    ensures var p := WeeklyStep(Start(d), intent, n);
            && ReadsComplete(p.device, n)
            && (if item == Weekly then Reported(p, item, Tracked(intent, item), Drifted(d, intent, text, item), Unwritable(intent, item), OutcomeOf(n, item))
                else Unreported(p, item) && (Drifted(p.device, intent, text, item) <==> Drifted(d, intent, text, item)))
  {
    StartUnreported(d, item);
    WeeklyReport(Start(d), intent, n, text, item);
    WeeklyFrame(Start(d), intent, n);
    if item != Weekly {
      WeeklyKeeps(Start(d), intent, n, text, item);
    }
  }

  /** Then the calendar and the exceptions. */
  lemma {:induction false} AfterHoliday(d: Device, intent: Intent, today: Date, n: Network, text: CalendarEntry -> string, item: Item)
    requires ValidDate(today) && ReadsComplete(d, n) && item != ExceptionList
    ensures var p := HolidayStep(WeeklyStep(Start(d), intent, n), intent, today, n, text);
            && ReadsComplete(p.device, n)
            && (if item.Setpoint? then Unreported(p, item) && (Drifted(p.device, intent, text, item) <==> Drifted(d, intent, text, item))
                else Reported(p, item, Tracked(intent, item), Drifted(d, intent, text, item), Unwritable(intent, item), OutcomeOf(n, item)))
  {
    var weekly := WeeklyStep(Start(d), intent, n);
    AfterWeekly(d, intent, n, text, item);
    HolidayReport(weekly, intent, today, n, text, item);
    HolidayEffect(weekly, intent, today, n, text);
    if item == Weekly {
      Carry(weekly, HolidayStep(weekly, intent, today, n, text), item, Tracked(intent, item), Drifted(d, intent, text, item),
            Unwritable(intent, item), OutcomeOf(n, item));
    }
  }

  /**
  With complete reads the result of a cycle says of each item what is the case: it
  is changed if it disagreed and its write was acknowledged, already correct if it
  agreed, and an error if it cannot be written or its write was not acknowledged.
  */
  lemma {:induction false} ReportExactly(d: Device, intent: Intent, today: Date, n: Network, text: CalendarEntry -> string, item: Item)
    requires ValidDate(today) && ReadsComplete(d, n) && item != ExceptionList
    ensures var r := Cycle(d, intent, today, n, text);
            && (item in r.changed <==> Drifted(d, intent, text, item) && OutcomeOf(n, item) == Acked)
            && (item in r.correct <==> Tracked(intent, item) && !Drifted(d, intent, text, item))
            && (item in r.errors <==> Unwritable(intent, item) || (Drifted(d, intent, text, item) && OutcomeOf(n, item) != Acked))
  {
    var holiday := HolidayStep(WeeklyStep(Start(d), intent, n), intent, today, n, text);
    AfterHoliday(d, intent, today, n, text, item);
    SetpointReport(holiday, intent, n, text, if item.Setpoint? then item.key else "", if item.Setpoint? then Weekly else item);
    if !item.Setpoint? {
      Carry(holiday, SetpointStep(holiday, intent, n), item, Tracked(intent, item), Drifted(d, intent, text, item),
            Unwritable(intent, item), OutcomeOf(n, item));
    }
  }

  /** The exception list, written unread, is never reported as changed: acknowledged it counts as correct. */
  lemma {:induction false} ExceptionsReported(d: Device, intent: Intent, today: Date, n: Network, text: CalendarEntry -> string)
    requires ValidDate(today) && ReadsComplete(d, n)
    ensures ExceptionsSaid(Cycle(d, intent, today, n, text), intent, today, n)
  {
    var weekly := WeeklyStep(Start(d), intent, n);
    var holiday := HolidayStep(weekly, intent, today, n, text);
    AfterWeekly(d, intent, n, text, ExceptionList);
    AfterHoliday(d, intent, today, n, text, Weekly);
    HolidayReport(weekly, intent, today, n, text, Weekly);
    SetpointReport(holiday, intent, n, text, "", ExceptionList);
    StillSaid(holiday, SetpointStep(holiday, intent, n), intent, today, n);
  }

  lemma {:induction false} StillSaid(p: Progress, r: Progress, intent: Intent, today: Date, n: Network)
    requires ValidDate(today) && SameReport(p, r, ExceptionList) && ExceptionsSaid(p, intent, today, n)
    ensures ExceptionsSaid(r, intent, today, n)
  {
  }

  // ------------------------------------------------------- in which order

  /** The step that sends an item: the week, the calendar, the exceptions, the setpoints. */
  function StepOf(item: Item): nat {
    match item
    case Weekly => 1
    case Calendar => 2
    case ExceptionList => 3
    case Setpoint(_) => 4
  }

  ghost predicate InStepOrder(sent: seq<Item>, last: nat) {
    (forall i, j :: 0 <= i < j < |sent| ==> StepOf(sent[i]) <= StepOf(sent[j])) && forall i :: 0 <= i < |sent| ==> StepOf(sent[i]) <= last
  }

  lemma {:induction false} NextInOrder(sent: seq<Item>, item: Item, last: nat)
    requires InStepOrder(sent, last) && last <= StepOf(item)
    ensures InStepOrder(sent + [item], StepOf(item))
  {
  }

  lemma {:induction false} PointsInOrder(p: Progress, actual: map<string, real>, intended: Ordered, writable: set<string>, n: Network)
    requires InStepOrder(p.sent, 4)
    ensures InStepOrder(PointSteps(p, actual, intended, writable, n).sent, 4)
  {
    if intended != [] {
      var before, last := PointSteps(p, actual, intended[..|intended| - 1], writable, n), intended[|intended| - 1];
      PointsInOrder(p, actual, intended[..|intended| - 1], writable, n);
      NextInOrder(before.sent, Setpoint(last.0), 4);
    }
  }

  /** A cycle sends the week before the calendar, that before the exceptions, and those before the setpoints. */
  lemma {:induction false} SentInOrder(d: Device, intent: Intent, today: Date, n: Network, text: CalendarEntry -> string)
    requires ValidDate(today)
    ensures InStepOrder(Cycle(d, intent, today, n, text).sent, 4)
  {
    var weekly := WeeklyStep(Start(d), intent, n);
    assert weekly.sent == [] || weekly.sent == [Weekly];
    HolidayInOrder(weekly, intent, today, n, text);
    PointsInOrder(HolidayStep(weekly, intent, today, n, text), ReadPoints(HolidayStep(weekly, intent, today, n, text).device, n),
                  intent.Setpoints(), intent.writable, n);
  }

  lemma {:induction false} HolidayInOrder(p: Progress, intent: Intent, today: Date, n: Network, text: CalendarEntry -> string)
    requires ValidDate(today) && InStepOrder(p.sent, 1)
    ensures InStepOrder(HolidayStep(p, intent, today, n, text).sent, 4)
  {
    var after := CalendarStep(p, intent, n, text).0;
    NextInOrder(p.sent, Calendar, 1);
    assert after.sent == p.sent || after.sent == p.sent + [Calendar];
    NextInOrder(after.sent, ExceptionList, 2);
  }

  // --------------------------------------------------- what incomplete reads do

  /** The intended value of a point differs from what the read returned, or the read did not return the point. */
  lemma {:induction false} CalledExactly(d: Device, intent: Intent, n: Network, text: CalendarEntry -> string, key: string)
    ensures CalledFor(ReadPoints(d, n), key, intent.Wanted(key))
            <==> Tracked(intent, Setpoint(key)) && (key !in n.returned || Drifted(d, intent, text, Setpoint(key)))
  {
  }

  lemma {:induction false} SetpointSends(p: Progress, intent: Intent, n: Network, text: CalendarEntry -> string, key: string)
    ensures Setpoint(key) in SetpointStep(p, intent, n).sent
            <==> Setpoint(key) in p.sent
                 || (n.pointsRead && Tracked(intent, Setpoint(key)) && (key !in n.returned || Drifted(p.device, intent, text, Setpoint(key))))
  {
    WantedIs(intent, key);
    CalledExactly(p.device, intent, n, text, key);
    PointsEffect(p, ReadPoints(p.device, n), intent.Setpoints(), intent.writable, n, key);
  }

  lemma {:induction false} WeeklySendsExactly(p: Progress, intent: Intent, n: Network, week: Week)
    requires intent.Week() == Some(week)
    ensures Weekly in WeeklyStep(p, intent, n).sent
            <==> Weekly in p.sent
                 || (n.weeklyRead && WeekToBacnet(week).Some?
                     && !AlreadyCorrect(p.device.weekly, if n.defaultRead then Some(p.device.scheduleDefault) else None, week))
  {
  }

  /**
  Whatever is read: the week is sent if it was read and does not compare as correct
  under its default, or as it is if that was not read; the calendar if it was read
  and disagrees; a setpoint if the points were read and it disagrees or was not
  among them.
  */
  lemma {:induction false} SentExactly(d: Device, intent: Intent, today: Date, n: Network, text: CalendarEntry -> string, key: string)
    requires ValidDate(today)
    ensures var r := Cycle(d, intent, today, n, text);
            && (Weekly in r.sent
                <==> n.weeklyRead && Tracked(intent, Weekly)
                     && !AlreadyCorrect(d.weekly, if n.defaultRead then Some(d.scheduleDefault) else None, intent.Week().value))
            && (Calendar in r.sent <==> n.calendarRead && Drifted(d, intent, text, Calendar))
            && (Setpoint(key) in r.sent
                <==> n.pointsRead && Tracked(intent, Setpoint(key)) && (key !in n.returned || Drifted(d, intent, text, Setpoint(key))))
  {
    WeekSent(d, intent, today, n, text);
    CalendarSent(d, intent, today, n, text);
    PointSent(d, intent, today, n, text, key);
  }

  lemma {:induction false} WeekSent(d: Device, intent: Intent, today: Date, n: Network, text: CalendarEntry -> string)
    requires ValidDate(today)
    ensures Weekly in Cycle(d, intent, today, n, text).sent
            <==> n.weeklyRead && Tracked(intent, Weekly)
                 && !AlreadyCorrect(d.weekly, if n.defaultRead then Some(d.scheduleDefault) else None, intent.Week().value)
  {
    var weekly := WeeklyStep(Start(d), intent, n);
    if intent.Week().Some? {
      WeeklySendsExactly(Start(d), intent, n, intent.Week().value);
    }
    RestSends(weekly, intent, today, n, text, Weekly);
  }

  lemma {:induction false} CalendarSent(d: Device, intent: Intent, today: Date, n: Network, text: CalendarEntry -> string)
    requires ValidDate(today)
    ensures Calendar in Cycle(d, intent, today, n, text).sent <==> n.calendarRead && Drifted(d, intent, text, Calendar)
  {
    var weekly := WeeklyStep(Start(d), intent, n);
    WeeklyKeeps(Start(d), intent, n, text, Calendar);
    if n.calendarRead {
      HolidayEffect(weekly, intent, today, n, text);
    } else {
      CalendarUnread(weekly, intent, today, n, text);
    }
    SetpointEffect(HolidayStep(weekly, intent, today, n, text), intent, n, text, "");
  }

  lemma {:induction false} PointSent(d: Device, intent: Intent, today: Date, n: Network, text: CalendarEntry -> string, key: string)
    requires ValidDate(today)
    ensures Setpoint(key) in Cycle(d, intent, today, n, text).sent
            <==> n.pointsRead && Tracked(intent, Setpoint(key)) && (key !in n.returned || Drifted(d, intent, text, Setpoint(key)))
  {
    var weekly := WeeklyStep(Start(d), intent, n);
    WeeklyKeeps(Start(d), intent, n, text, Setpoint(key));
    HolidayEffect(weekly, intent, today, n, text);
    SetpointSends(HolidayStep(weekly, intent, today, n, text), intent, n, text, key);
  }

  lemma {:induction false} CalendarUnread(p: Progress, intent: Intent, today: Date, n: Network, text: CalendarEntry -> string)
    requires ValidDate(today) && !n.calendarRead
    ensures Calendar in HolidayStep(p, intent, today, n, text).sent <==> Calendar in p.sent
  {
  }
}
