/**
What an error-free reconciliation means (bms/reconciler.py, `DeviceResult.ok`):
every item agrees, and from that day on the thermostat's schedule object does
what the stored weekly pattern, holidays and one-offs ask for.
*/
module Fulfilment {
  import opened Prelude
  import opened Dates
  import opened BacnetObjects
  import opened DayStates
  import opened WeekSchedule
  import opened Holidays
  import opened Exceptions
  import opened EntryCompare
  import opened WireForm
  import opened Setpoints
  import opened Reconciler
  import opened Convergence

  // --------------------------------------------------------- no errors, step by step

  /** Without an error the week was found correct or its write was acknowledged. */
  lemma {:induction false} WeeklyNoError(p: Progress, intent: Intent, n: Network)
    requires WeeklyStep(p, intent, n).errors == []
    ensures p.errors == []
    ensures intent.Week().Some? ==>
              WeekToBacnet(intent.Week().value).Some?
              && (Reaches(n, Weekly) || AlreadyCorrect(p.device.weekly, ReadDefault(p.device, n), intent.Week().value))
  {
  }

  lemma {:induction false} WeeklyOk(p: Progress, intent: Intent, n: Network, text: CalendarEntry -> string)
    requires WeeklyStep(p, intent, n).errors == []
    ensures p.errors == [] && (intent.Week().Some? ==> Tracked(intent, Weekly))
    ensures WeekSettles(intent) ==> !Drifted(WeeklyStep(p, intent, n).device, intent, text, Weekly)
  {
    WeeklyNoError(p, intent, n);
    WeeklyEffect(p, intent, n, text);
    if Tracked(intent, Weekly) && WeekSettles(intent) {
      WeeklyFacts(p.device.weekly, ReadDefault(p.device, n), intent.Week().value, p.device.scheduleDefault);
    }
  }

  lemma {:induction false} HolidayOk(p: Progress, intent: Intent, today: Date, n: Network, text: CalendarEntry -> string)
    requires ValidDate(today) && HolidayStep(p, intent, today, n, text).errors == []
    ensures p.errors == [] && Tracked(intent, Calendar)
    ensures !Drifted(HolidayStep(p, intent, today, n, text).device, intent, text, Calendar)
    ensures HolidayStep(p, intent, today, n, text).device.exceptions == intent.Events(today)
    ensures Complaints(ExceptionsFor(intent.oneOffs, intent.device, intent.zone, Some(Iso(today)))) == []
  {
    CalendarEffect(p, intent, n, text);
    HolidayEffect(p, intent, today, n, text);
  }

  lemma {:induction false} SetpointOk(p: Progress, intent: Intent, n: Network, text: CalendarEntry -> string, key: string)
    requires SetpointStep(p, intent, n).errors == []
    ensures p.errors == []
    ensures MostSpecific(intent.setpoints, intent.device, intent.zone, key).Some? ==> Tracked(intent, Setpoint(key))
    ensures !Drifted(SetpointStep(p, intent, n).device, intent, text, Setpoint(key))
  {
    WantedIs(intent, key);
    ResolvedIsMostSpecific(intent.setpoints, intent.device, intent.zone, key);
    PointsEffect(p, ReadPoints(p.device, n), intent.Setpoints(), intent.writable, n, key);
    SetpointEffect(p, intent, n, text, key);
  }

  /**
  A result without errors means the device agrees with the whole intent: nothing
  stored was left out, nothing disagrees, and the exception list is today's.
  */
  lemma {:induction false} OkMeansAgreement(d: Device, intent: Intent, today: Date, n: Network, text: CalendarEntry -> string, item: Item)
    requires ValidDate(today) && Cycle(d, intent, today, n, text).errors == []
    ensures (item == Weekly ==> WeekSettles(intent)) ==> !Drifted(Cycle(d, intent, today, n, text).device, intent, text, item)
    ensures Cycle(d, intent, today, n, text).device.exceptions == intent.Events(today)
    ensures item == Weekly && intent.group.Some? ==> Tracked(intent, item)
    ensures item == Calendar ==> Tracked(intent, item)
    ensures item.Setpoint? && MostSpecific(intent.setpoints, intent.device, intent.zone, item.key).Some? ==> Tracked(intent, item)
  {
    var weekly := WeeklyStep(Start(d), intent, n);
    var holiday := HolidayStep(weekly, intent, today, n, text);
    var key := if item.Setpoint? then item.key else "";
    SetpointOk(holiday, intent, n, text, key);
    HolidayOk(weekly, intent, today, n, text);
    WeeklyOk(Start(d), intent, n, text);
    SetpointEffect(holiday, intent, n, text, key);
    HolidayEffect(weekly, intent, today, n, text);
  }

  // ------------------------------------------ and a working network gives no errors

  /** Everything stored can be written. */
  ghost predicate Writable(intent: Intent, today: Date)
    requires ValidDate(today)
  {
    && (intent.group.Some? ==> Tracked(intent, Weekly))
    && Tracked(intent, Calendar)
    && Complaints(ExceptionsFor(intent.oneOffs, intent.device, intent.zone, Some(Iso(today)))) == []
    && forall key :: MostSpecific(intent.setpoints, intent.device, intent.zone, key).Some? ==> key in intent.writable
  }

  /** Reads are answered and the writes the intent may need are acknowledged. */
  ghost predicate Working(intent: Intent, n: Network) {
    && n.weeklyRead && n.calendarRead && n.pointsRead
    && n.weeklyWrite == Acked && n.calendarWrite == Acked && n.exceptionWrite == Acked
    && forall key :: MostSpecific(intent.setpoints, intent.device, intent.zone, key).Some? ==> n.PointWrite(key) == Acked
  }

  lemma {:induction false} WeeklyNoTrouble(p: Progress, intent: Intent, n: Network)
    requires p.errors == [] && (intent.group.Some? ==> Tracked(intent, Weekly)) && n.weeklyRead && n.weeklyWrite == Acked
    ensures WeeklyStep(p, intent, n).errors == []
  {
  }

  lemma {:induction false} HolidayNoTrouble(p: Progress, intent: Intent, today: Date, n: Network, text: CalendarEntry -> string)
    requires ValidDate(today) && p.errors == [] && Writable(intent, today) && Working(intent, n)
    ensures HolidayStep(p, intent, today, n, text).errors == []
  {
  }

  lemma {:induction false} PointsNoTrouble(p: Progress, actual: map<string, real>, intended: Ordered, writable: set<string>, n: Network)
    requires p.errors == []
    requires forall i :: 0 <= i < |intended| ==> intended[i].0 in writable && n.PointWrite(intended[i].0) == Acked
    ensures PointSteps(p, actual, intended, writable, n).errors == []
  {
    if intended != [] {
      PointsNoTrouble(p, actual, intended[..|intended| - 1], writable, n);
    }
  }

  lemma {:induction false} SetpointNoTrouble(p: Progress, intent: Intent, today: Date, n: Network)
    requires ValidDate(today) && p.errors == [] && Writable(intent, today) && Working(intent, n)
    ensures SetpointStep(p, intent, n).errors == []
  {
    var intended := intent.Setpoints();
    forall i | 0 <= i < |intended| ensures intended[i].0 in intent.writable && n.PointWrite(intended[i].0) == Acked {
      ResolvedIsMostSpecific(intent.setpoints, intent.device, intent.zone, intended[i].0);
      GetAt(intended, i);
    }
    PointsNoTrouble(p, ReadPoints(p.device, n), intended, intent.writable, n);
  }

  /** On a working network a cycle reports no errors, whatever the device held: what `OkMeansAgreement` asks for does happen. */
  lemma {:induction false} WorkingNetworkSucceeds(d: Device, intent: Intent, today: Date, n: Network, text: CalendarEntry -> string)
    requires ValidDate(today) && Writable(intent, today) && Working(intent, n)
    ensures Cycle(d, intent, today, n, text).errors == []
  {
    var weekly := WeeklyStep(Start(d), intent, n);
    WeeklyNoTrouble(Start(d), intent, n);
    HolidayNoTrouble(weekly, intent, today, n, text);
    SetpointNoTrouble(HolidayStep(weekly, intent, today, n, text), intent, today, n);
  }

  // ---------------------------------------------- what an agreeing device does

  /** No two entries read the same. */
  ghost predicate Faithful(text: CalendarEntry -> string) {
    forall a, b :: text(a) == text(b) ==> a == b
  }

  /** The text the comparison uses. */
  ghost predicate Normalises(text: CalendarEntry -> string, floatText: real -> string) {
    forall e :: text(e) == EntryText(floatText, e)
  }

  lemma {:induction false} NormalisedIsFaithful(text: CalendarEntry -> string, floatText: real -> string)
    requires Normalises(text, floatText)
    ensures Faithful(text)
  {
    forall a, b | text(a) == text(b) ensures a == b {
      TextTellsApart(a, b, floatText);
    }
  }

  lemma {:induction false} SameDaysActive(a: seq<CalendarEntry>, b: seq<CalendarEntry>, text: CalendarEntry -> string, d: Date)
    requires Faithful(text) && Norms(a, text) == Norms(b, text) && CalendarActive(a, d)
    ensures CalendarActive(b, d)
  {
    var i :| 0 <= i < |a| && Matches(a[i], d);
    NormsMember(a, text(a[i]), text);
    NormsMember(b, text(a[i]), text);
    var j :| 0 <= j < |b| && text(b[j]) == text(a[i]);
    assert b[j] == a[i];
  }

  /** A calendar that agrees is active on the same days. */
  lemma {:induction false} AgreeingCalendar(a: seq<CalendarEntry>, b: seq<CalendarEntry>, text: CalendarEntry -> string, d: Date)
    requires Faithful(text) && Norms(a, text) == Norms(b, text)
    ensures CalendarActive(a, d) == CalendarActive(b, d)
  {
    if CalendarActive(a, d) { SameDaysActive(a, b, text, d); }
    if CalendarActive(b, d) { SameDaysActive(b, a, text, d); }
  }

  /** What the store asks of the device on `d` at `t`, with a week. */
  function Asked(intent: Intent, scheduleDefault: int, d: Date, t: nat): int
    requires intent.Week().Some?
  {
    Intended(intent.holidays, intent.oneOffs, intent.device, intent.zone, intent.Week().value, scheduleDefault, d, t)
  }

  /** What it asks beside the week. */
  function AskedOfExceptions(intent: Intent, d: Date, t: nat): Option<int> {
    AskedBeside(intent.holidays, intent.oneOffs, intent.device, intent.zone, d, t)
  }

  /** What the stored week asks. */
  function WeekState(intent: Intent, scheduleDefault: int, d: Date, t: nat): int
    requires intent.Week().Some?
  {
    DayState(intent.Week().value[Weekday(d)], scheduleDefault, t)
  }

  /** At this instant the device's weekday does what the stored day asks. */
  ghost predicate WeekObeyed(dev: Device, intent: Intent, d: Date, t: nat)
    requires intent.Week().Some?
  {
    |dev.weekly| == 7 && DayValue(dev.weekly[Weekday(d) - 1], dev.scheduleDefault, t) == WeekState(intent, dev.scheduleDefault, d, t)
  }

  /** The one-offs of this device are shown on this date as they are stored. */
  ghost predicate OneOffsServe(intent: Intent, today: Date, d: Date) {
    RowsServe(intent.oneOffs, intent.device, intent.zone, today, d)
  }

  /** On this date gateway and device read every holiday rule alike. */
  ghost predicate RulesAgree(intent: Intent, d: Date) {
    forall i :: 0 <= i < |intent.holidays| ==> RuleAgrees(intent.holidays[i], d)
  }

  /** A one-off speaks at this instant. */
  predicate OneOffSpeaks(intent: Intent, d: Date, t: nat) {
    OneOffAsked(intent.oneOffs, intent.device, intent.zone, d, t).Some?
  }

  /** The state that the one holiday event puts in effect, by the entries of the stored rules. */
  function EventShown(intent: Intent, d: Date): Option<int>
    requires Tracked(intent, Calendar)
  {
    HolidayShown(intent.holidays, ToCalendarEntries(intent.holidays).value, d)
  }

  /** That is the holiday state the store asks for, against the state of the week. */
  predicate HolidaysServe(intent: Intent, d: Date, weekState: int)
    requires Tracked(intent, Calendar)
  {
    EventShown(intent, d).GetOr(weekState) == HolidayState(intent.holidays, d).GetOr(weekState)
  }

  /** The device holds today's exceptions and a calendar that agrees. */
  ghost predicate Agreeing(dev: Device, intent: Intent, today: Date, text: CalendarEntry -> string)
    requires ValidDate(today)
  {
    && dev.exceptions == intent.Events(today)
    && Tracked(intent, Calendar) && AsIntended(dev, intent, text, Calendar)
  }

  /** The schedule object's value on the device. */
  function Shown(dev: Device, d: Date, t: nat): int
    requires |dev.weekly| == 7
  {
    PresentValue(Schedule(dev.weekly, dev.exceptions, dev.scheduleDefault), dev.calendar, d, t)
  }

  lemma {:induction false} SameEventShown(dev: Device, intent: Intent, today: Date, text: CalendarEntry -> string, d: Date)
    requires ValidDate(today) && Agreeing(dev, intent, today, text) && Faithful(text)
    ensures HolidayShown(intent.holidays, dev.calendar, d) == EventShown(intent, d)
  {
    AgreeingCalendar(dev.calendar, ToCalendarEntries(intent.holidays).value, text, d);
  }

  /**
  From `today` on, at every instant of every date, the exceptions of an agreeing
  device, with a week or without, prescribe what the store asks for beside the
  week, exactly when a one-off speaks or the first holiday's state, where some
  entry matches, is what the holidays ask for.
  */
  lemma {:induction false} AgreeingExceptionsObey(dev: Device, intent: Intent, today: Date, text: CalendarEntry -> string, d: Date, t: nat)
    requires ValidDate(today) && ValidDate(d) && !Before(d, today)
    requires Agreeing(dev, intent, today, text) && Faithful(text) && OneOffsServe(intent, today, d)
    ensures ExceptionValue(dev.exceptions, dev.calendar, d, t) == AskedOfExceptions(intent, d, t)
            <==> OneOffSpeaks(intent, d, t) || EventShown(intent, d) == HolidayState(intent.holidays, d)
  {
    SameEventShown(dev, intent, today, text, d);
    ExceptionsMeanIntent(intent.holidays, intent.oneOffs, intent.device, intent.zone, today, dev.calendar, d, t);
  }

  /** And where the week is obeyed, the device shows what the store asks for exactly when the same holds against the week. */
  lemma {:induction false} AgreeingDeviceObeys(dev: Device, intent: Intent, today: Date, text: CalendarEntry -> string, d: Date, t: nat)
    requires ValidDate(today) && ValidDate(d) && !Before(d, today)
    requires Agreeing(dev, intent, today, text) && Faithful(text) && OneOffsServe(intent, today, d)
    requires intent.Week().Some? && WeekObeyed(dev, intent, d, t)
    ensures Shown(dev, d, t) == Asked(intent, dev.scheduleDefault, d, t)
            <==> OneOffSpeaks(intent, d, t) || HolidaysServe(intent, d, WeekState(intent, dev.scheduleDefault, d, t))
  {
    SameEventShown(dev, intent, today, text, d);
    ScheduleMeansIntent(intent.holidays, intent.oneOffs, intent.device, intent.zone, today, dev.calendar, dev.weekly,
                        dev.scheduleDefault, intent.Week().value, d, t);
  }

  /** On a date on which the rules are read alike, holidays are served exactly when the first one's state is the right one. */
  lemma {:induction false} AlikeHolidaysServe(intent: Intent, d: Date, weekState: int)
    requires ValidDate(d) && Tracked(intent, Calendar) && RulesAgree(intent, d)
    ensures HolidaysServe(intent, d, weekState) <==> FirstStateServes(intent.holidays, d)
    ensures EventShown(intent, d) == HolidayState(intent.holidays, d) <==> FirstStateServes(intent.holidays, d)
  {
    var calendar := ToCalendarEntries(intent.holidays).value;
    RulesAgreeOn(intent.holidays, calendar, d);
    AlikeServes(intent.holidays, calendar, d, weekState);
  }

  // -------------------------------------------------------- and so, a good cycle

  /** If the cycle finds the week correct, the device does on this weekday what its entries read as. */
  predicate FoundReadsRight(d: Device, intent: Intent, n: Network, day: int)
    requires intent.Week().Some? && 1 <= day <= 7
  {
    AlreadyCorrect(d.weekly, ReadDefault(d, n), intent.Week().value) ==>
      |d.weekly| == 7 && AllInRange(d.weekly[day - 1]) && RightAtEntries(d.weekly[day - 1], d.scheduleDefault)
  }

  /** The seconds, if there are any, do no harm on a weekday: not those found, and none are written. */
  predicate SecondsHarmless(d: Device, intent: Intent, n: Network, day: int)
    requires intent.Week().Some? && 1 <= day <= 7
  {
    var week := intent.Week().value;
    && FoundReadsRight(d, intent, n, day)
    && (!AlreadyCorrect(d.weekly, ReadDefault(d, n), week) && EncodeDay(week[day]).Some? ==> ToTheMinute(EncodeDay(week[day]).value))
  }

  /** A week that settles is written without seconds. */
  lemma {:induction false} SettledDayToTheMinute(intent: Intent, day: int)
    requires intent.Week().Some? && WeekSettles(intent) && 1 <= day <= 7
    ensures EncodeDay(intent.Week().value[day]).Some? && ToTheMinute(EncodeDay(intent.Week().value[day]).value)
  {
    CanonicalDayEncodes(intent.Week().value[day]);
  }

  lemma {:induction false} FoundCorrectObeyed(dev: Device, readDefault: Option<int>, intent: Intent, d: Date, t: nat)
    requires intent.Week().Some? && AlreadyCorrect(dev.weekly, readDefault, intent.Week().value)
    requires readDefault == None || readDefault == Some(dev.scheduleDefault)
    requires |dev.weekly| == 7 && AllInRange(dev.weekly[Weekday(d) - 1]) && RightAtEntries(dev.weekly[Weekday(d) - 1], dev.scheduleDefault)
    ensures WeekObeyed(dev, intent, d, t)
  {
    AlreadyCorrectExactly(dev.weekly, readDefault, intent.Week().value, dev.scheduleDefault, Weekday(d));
    assert SameAllDay(dev.weekly[Weekday(d) - 1], intent.Week().value[Weekday(d)], dev.scheduleDefault);
  }

  lemma {:induction false} WrittenObeyed(dev: Device, intent: Intent, d: Date, t: nat)
    requires intent.Week().Some? && WeekToBacnet(intent.Week().value) == Some(dev.weekly)
    requires var day := EncodeDay(intent.Week().value[Weekday(d)]); day.Some? ==> ToTheMinute(day.value)
    ensures WeekObeyed(dev, intent, d, t)
  {
    EncodedWeek(intent.Week().value);
    EncodedIsObeyed(intent.Week().value[Weekday(d)], dev.weekly[Weekday(d) - 1], dev.scheduleDefault, t);
  }

  /** Whether the week was found correct or was written, settled or not, it is obeyed at every instant. */
  lemma {:induction false} WeeklyOkObeyed(p: Progress, intent: Intent, n: Network, d: Date, t: nat)
    requires WeeklyStep(p, intent, n).errors == [] && intent.Week().Some?
    requires SecondsHarmless(p.device, intent, n, Weekday(d))
    ensures WeekObeyed(WeeklyStep(p, intent, n).device, intent, d, t)
  {
    WeeklyNoError(p, intent, n);
    WeeklyFrame(p, intent, n);
    WeeklyLeaves(p, intent, n, intent.Week().value, WeekToBacnet(intent.Week().value).value);
    EitherWay(p.device, WeeklyStep(p, intent, n).device, intent, n, d, t);
  }

  lemma {:induction false} EitherWay(before: Device, after: Device, intent: Intent, n: Network, d: Date, t: nat)
    requires intent.Week().Some? && Tracked(intent, Weekly) && SecondsHarmless(before, intent, n, Weekday(d))
    requires after == before.(weekly := after.weekly)
    requires Reaches(n, Weekly) || AlreadyCorrect(before.weekly, ReadDefault(before, n), intent.Week().value)
    requires after.weekly == if Reaches(n, Weekly) && !AlreadyCorrect(before.weekly, ReadDefault(before, n), intent.Week().value)
                             then WeekToBacnet(intent.Week().value).value else before.weekly
    ensures WeekObeyed(after, intent, d, t)
  {
    if AlreadyCorrect(before.weekly, ReadDefault(before, n), intent.Week().value) {
      FoundCorrectObeyed(after, ReadDefault(before, n), intent, d, t);
    } else {
      WrittenObeyed(after, intent, d, t);
    }
  }

  lemma {:induction false} WeeklyHadNoErrors(d: Device, intent: Intent, today: Date, n: Network, text: CalendarEntry -> string)
    requires ValidDate(today) && Cycle(d, intent, today, n, text).errors == []
    ensures WeeklyStep(Start(d), intent, n).errors == []
  {
    var weekly := WeeklyStep(Start(d), intent, n);
    SetpointOk(HolidayStep(weekly, intent, today, n, text), intent, n, text, "");
    HolidayOk(weekly, intent, today, n, text);
  }

  lemma {:induction false} OkCycleAgrees(d: Device, intent: Intent, today: Date, n: Network, text: CalendarEntry -> string)
    requires ValidDate(today) && Cycle(d, intent, today, n, text).errors == []
    ensures Agreeing(Cycle(d, intent, today, n, text).device, intent, today, text)
  {
    OkMeansAgreement(d, intent, today, n, text, Calendar);
  }

  lemma {:induction false} OkCycleWeek(d: Device, intent: Intent, today: Date, n: Network, text: CalendarEntry -> string, later: Date, t: nat)
    requires ValidDate(today) && Cycle(d, intent, today, n, text).errors == [] && intent.Week().Some?
    requires SecondsHarmless(d, intent, n, Weekday(later))
    ensures WeekObeyed(Cycle(d, intent, today, n, text).device, intent, later, t)
  {
    WeeklyHadNoErrors(d, intent, today, n, text);
    WeeklyOkObeyed(Start(d), intent, n, later, t);
    CycleWeekly(d, intent, today, n, text);
    WeeklyFrame(Start(d), intent, n);
  }

  /**
  A cycle reported without errors, for a device with a group or without one: on
  every date from that day on, at every instant, its exceptions prescribe what
  the stored one-offs and holidays ask for, exactly when a one-off speaks or the
  first holiday's state, where some entry matches, is what the holidays ask for.
  */
  lemma {:induction false} OkCycleExceptions(d: Device, intent: Intent, today: Date, n: Network, text: CalendarEntry -> string,
                                             floatText: real -> string, later: Date, t: nat)
    requires ValidDate(today) && ValidDate(later) && !Before(later, today)
    requires Normalises(text, floatText) && OneOffsServe(intent, today, later)
    requires Cycle(d, intent, today, n, text).errors == []
    ensures var r := Cycle(d, intent, today, n, text).device;
            && Tracked(intent, Calendar)
            && (intent.group.None? ==> r.weekly == d.weekly)
            && (ExceptionValue(r.exceptions, r.calendar, later, t) == AskedOfExceptions(intent, later, t)
                <==> OneOffSpeaks(intent, later, t) || EventShown(intent, later) == HolidayState(intent.holidays, later))
  {
    NormalisedIsFaithful(text, floatText);
    OkCycleAgrees(d, intent, today, n, text);
    CycleWeekly(d, intent, today, n, text);
    AgreeingExceptionsObey(Cycle(d, intent, today, n, text).device, intent, today, text, later, t);
  }

  /**
  And with a group: the device's schedule object shows what the stored week,
  holidays and one-offs ask for, exactly when a one-off speaks or the holidays
  are served.  Nothing is asked of what the device held before but that, if its
  week is left as it was, the seconds in it change nothing.
  */
  lemma {:induction false} OkCycleObeys(d: Device, intent: Intent, today: Date, n: Network, text: CalendarEntry -> string,
                                        floatText: real -> string, later: Date, t: nat)
    requires ValidDate(today) && ValidDate(later) && !Before(later, today)
    requires intent.group.Some? && Normalises(text, floatText) && OneOffsServe(intent, today, later)
    requires SecondsHarmless(d, intent, n, Weekday(later))
    requires Cycle(d, intent, today, n, text).errors == []
    ensures var r := Cycle(d, intent, today, n, text).device;
            && |r.weekly| == 7 && Tracked(intent, Calendar)
            && (Shown(r, later, t) == Asked(intent, r.scheduleDefault, later, t)
                <==> OneOffSpeaks(intent, later, t) || HolidaysServe(intent, later, WeekState(intent, r.scheduleDefault, later, t)))
  {
    NormalisedIsFaithful(text, floatText);
    OkCycleAgrees(d, intent, today, n, text);
    OkCycleWeek(d, intent, today, n, text, later, t);
    AgreeingDeviceObeys(Cycle(d, intent, today, n, text).device, intent, today, text, later, t);
  }

  /** What the API accepts leaves only the device's own seconds to ask about. */
  lemma {:induction false} AcceptedSecondsHarmless(d: Device, intent: Intent, n: Network, day: int)
    requires intent.group.Some? && AcceptedIntent(intent) && 1 <= day <= 7
    requires FoundReadsRight(d, intent, n, day)
    ensures SecondsHarmless(d, intent, n, day)
  {
    AcceptedIntentSettles(intent);
    SettledDayToTheMinute(intent, day);
  }

  /** What the API accepts, with holidays of one state, on a date on which the rules are read alike: the device simply does what the store asks. */
  lemma {:induction false} AcceptedIntentIsObeyed(d: Device, intent: Intent, today: Date, n: Network, text: CalendarEntry -> string,
                                                  floatText: real -> string, later: Date, t: nat)
    requires ValidDate(today) && ValidDate(later) && !Before(later, today)
    requires intent.group.Some? && AcceptedIntent(intent) && Normalises(text, floatText)
    requires OneOffsServe(intent, today, later) && RulesAgree(intent, later)
    requires ToCalendarEntries(intent.holidays).Success? && UniformStates(intent.holidays)
    requires FoundReadsRight(d, intent, n, Weekday(later))
    requires Cycle(d, intent, today, n, text).errors == []
    ensures var r := Cycle(d, intent, today, n, text).device;
            |r.weekly| == 7 && Shown(r, later, t) == Asked(intent, r.scheduleDefault, later, t)
  {
    var r := Cycle(d, intent, today, n, text).device;
    AcceptedSecondsHarmless(d, intent, n, Weekday(later));
    RulesAgreeOn(intent.holidays, ToCalendarEntries(intent.holidays).value, later);
    UniformServes(intent.holidays, ToCalendarEntries(intent.holidays).value, later);
    OkCycleObeys(d, intent, today, n, text, floatText, later, t);
    AlikeHolidaysServe(intent, later, WeekState(intent, r.scheduleDefault, later, t));
  }

  /**
  Memorial Day 2026, end to end.  It is the one holiday stored and nothing else
  is; after a cycle without errors the device shows, all through 25 May,
  the week, which is what is asked for only where the week has the same state.
  */
  lemma {:induction false} MemorialDayMissed(d: Device, intent: Intent, state: int, today: Date, n: Network, text: CalendarEntry -> string,
                                             floatText: real -> string, day: Date, t: nat)
    requires day == Date(2026, 5, 25) && ValidDate(today) && !Before(day, today)
    requires intent.group.Some? && AcceptedIntent(intent) && Normalises(text, floatText)
    requires intent.holidays == [FloatingRule(state, 5, 5, 1)] && intent.oneOffs == []
    requires FoundReadsRight(d, intent, n, Weekday(day))
    requires Cycle(d, intent, today, n, text).errors == []
    ensures var r := Cycle(d, intent, today, n, text).device;
            && |r.weekly| == 7 && Asked(intent, r.scheduleDefault, day, t) == state
            && Shown(r, day, t) == WeekState(intent, r.scheduleDefault, day, t)
  {
    var r := Cycle(d, intent, today, n, text).device;
    OnlyMemorialDay(intent, state);
    AcceptedSecondsHarmless(d, intent, n, Weekday(day));
    NormalisedIsFaithful(text, floatText);
    OkCycleAgrees(d, intent, today, n, text);
    OkCycleWeek(d, intent, today, n, text, day, t);
    NothingShown(r, intent, state, today, text, day, t);
  }

  /** A device whose calendar is not active on a holiday shows the week. */
  lemma {:induction false} NothingShown(dev: Device, intent: Intent, state: int, today: Date, text: CalendarEntry -> string, d: Date, t: nat)
    requires ValidDate(today) && ValidDate(d) && !Before(d, today)
    requires Agreeing(dev, intent, today, text) && Faithful(text) && intent.oneOffs == []
    requires intent.Week().Some? && WeekObeyed(dev, intent, d, t)
    requires EventShown(intent, d) == None && HolidayState(intent.holidays, d) == Some(state)
    ensures Asked(intent, dev.scheduleDefault, d, t) == state && Shown(dev, d, t) == WeekState(intent, dev.scheduleDefault, d, t)
  {
    NoOneOffs(intent, today, d, t);
    SameEventShown(dev, intent, today, text, d);
    ExceptionsMeanIntent(intent.holidays, intent.oneOffs, intent.device, intent.zone, today, dev.calendar, d, t);
  }

  lemma {:induction false} NoOneOffs(intent: Intent, today: Date, d: Date, t: nat)
    requires intent.oneOffs == []
    ensures OneOffsServe(intent, today, d) && !OneOffSpeaks(intent, d, t)
  {
  }

  /** Though it is the only holiday, so that no other state is in the way. */
  lemma {:induction false} OnlyMemorialDay(intent: Intent, state: int)
    requires intent.holidays == [FloatingRule(state, 5, 5, 1)]
    ensures Tracked(intent, Calendar) && ValidDate(Date(2026, 5, 25))
    ensures HolidayState(intent.holidays, Date(2026, 5, 25)) == Some(state) && EventShown(intent, Date(2026, 5, 25)) == None
    ensures UniformStates(intent.holidays) && FirstStateServes(intent.holidays, Date(2026, 5, 25))
  {
    var hs := intent.holidays;
    assert hs[..0] == [] && ToCalendarEntries([]) == Success([]);
    MemorialDay2026(state);
    EntriesAt(hs, ToCalendarEntries(hs).value, 0);
  }
}
