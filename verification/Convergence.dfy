/**
What reconciling achieves (bms/reconciler.py:243-474): which items still disagree
after any cycle and any run of cycles, what is sent, and what a device that was
reconciled without an error does from that day on.
*/
module Convergence {
  import opened Prelude
  import opened Dates
  import opened BacnetObjects
  import opened WeekSchedule
  import opened Holidays
  import opened EntryCompare
  import opened Setpoints
  import opened Reconciler

  // -------------------------------------------------------------- agreement

  /** The intent says something about the item that can be written. */
  ghost predicate Tracked(intent: Intent, item: Item) {
    match item
    case Weekly => intent.Week().Some? && WeekToBacnet(intent.Week().value).Some?
    case Calendar => ToCalendarEntries(intent.holidays).Success?
    case ExceptionList => false
    case Setpoint(key) => intent.Wanted(key).Some?
  }

  /** The device already is as the intent wants this item, under its own default. */
  ghost predicate AsIntended(d: Device, intent: Intent, text: CalendarEntry -> string, item: Item)
    requires Tracked(intent, item)
  {
    match item
    case Weekly => AlreadyCorrect(d.weekly, Some(d.scheduleDefault), intent.Week().value)
    case Calendar => Norms(d.calendar, text) == Norms(ToCalendarEntries(intent.holidays).value, text)
    case ExceptionList => true
    case Setpoint(key) => key in d.points && intent.Wanted(key).value - 0.1 < d.points[key] < intent.Wanted(key).value + 0.1
  }

  /** The item disagrees. */
  ghost predicate Drifted(d: Device, intent: Intent, text: CalendarEntry -> string, item: Item) {
    Tracked(intent, item) && !AsIntended(d, intent, text, item)
  }

  /** The cycle reads the item and a write of it would land. */
  predicate Reaches(n: Network, item: Item) {
    match item
    case Weekly => n.weeklyRead && n.weeklyWrite != Lost
    case Calendar => n.calendarRead && n.calendarWrite != Lost
    case ExceptionList => false
    case Setpoint(key) => n.pointsRead && n.PointWrite(key) != Lost
  }

  ghost predicate WeekSettles(intent: Intent) {
    intent.Week().Some? ==> Settles(intent.Week().value)
  }

  // ------------------------------------------------------------ weekly step

  /** A week without empty days that is correct as read is correct under any default. */
  lemma {:induction false} CorrectUnderAnyDefault(weekly: seq<seq<TimeValue>>, week: Week, v: int)
    requires FullWeek(week) && (forall day :: day in week ==> week[day] != [])
    requires AlreadyCorrect(weekly, None, week)
    ensures AlreadyCorrect(weekly, Some(v), week)
  {
    var decoded := DecodeWeek(weekly);
    var wanted := map day | day in DayNumbers(7) :: week[day];
    assert decoded == wanted;
    forall day | day in decoded ensures decoded[day] != [] {
      assert decoded[day] == wanted[day];
    }
    assert NormaliseWeek(decoded, Some(v)) == decoded;
  }

  /** Writing the week settles it exactly when it settles; being correct as read is being correct. */
  lemma {:induction false} WeeklyFacts(weekly: seq<seq<TimeValue>>, readDefault: Option<int>, week: Week, v: int)
    requires FullWeek(week) && WeekToBacnet(week).Some? && (readDefault == None || readDefault == Some(v))
    ensures AlreadyCorrect(WeekToBacnet(week).value, Some(v), week) <==> Settles(week)
    ensures Settles(week) && AlreadyCorrect(weekly, readDefault, week) ==> AlreadyCorrect(weekly, Some(v), week)
  {
    WrittenIsCorrect(week, Some(v));
    if readDefault == None && Settles(week) && AlreadyCorrect(weekly, None, week) {
      CorrectUnderAnyDefault(weekly, week, v);
    }
  }

  lemma {:induction false} WeeklyFrame(p: Progress, intent: Intent, n: Network)
    ensures var r := WeeklyStep(p, intent, n).device;
            r == p.device.(weekly := r.weekly)
  {
    match intent.Week() {
      case None =>
      case Some(week) =>
        var desired := WeekToBacnet(week);
        if desired.Some? && n.weeklyRead && !AlreadyCorrect(p.device.weekly, ReadDefault(p.device, n), week) {
          SentFrame(p, desired.value, n.weeklyWrite);
        }
    }
  }

  lemma {:induction false} SentFrame(p: Progress, desired: seq<seq<TimeValue>>, outcome: Outcome)
    ensures var r := p.Sent(Weekly, p.device.(weekly := desired), outcome).device;
            r == p.device.(weekly := r.weekly)
  {
  }

  /** What the step leaves on the device. */
  lemma {:induction false} WeeklyLeaves(p: Progress, intent: Intent, n: Network, week: Week, desired: seq<seq<TimeValue>>)
    requires intent.Week() == Some(week) && WeekToBacnet(week) == Some(desired)
    ensures WeeklyStep(p, intent, n).device.weekly
            == if n.weeklyRead && n.weeklyWrite != Lost && !AlreadyCorrect(p.device.weekly, ReadDefault(p.device, n), week)
               then desired else p.device.weekly
  {
  }

  lemma {:induction false} WeeklyDrift(before: Device, after: Device, intent: Intent, n: Network, week: Week, text: CalendarEntry -> string)
    requires intent.Week() == Some(week) && WeekToBacnet(week).Some? && after.scheduleDefault == before.scheduleDefault
    requires after.weekly == if Reaches(n, Weekly) && !AlreadyCorrect(before.weekly, ReadDefault(before, n), week)
                             then WeekToBacnet(week).value else before.weekly
    ensures Settles(week) ==>
              (Drifted(after, intent, text, Weekly) <==> Drifted(before, intent, text, Weekly) && !Reaches(n, Weekly))
  {
    WeeklyFacts(before.weekly, ReadDefault(before, n), week, before.scheduleDefault);
  }

  lemma {:induction false} WeeklyEffect(p: Progress, intent: Intent, n: Network, text: CalendarEntry -> string)
    ensures var r := WeeklyStep(p, intent, n);
            && r.device == p.device.(weekly := r.device.weekly)
            && (WeekSettles(intent) ==>
                  (Drifted(r.device, intent, text, Weekly) <==> Drifted(p.device, intent, text, Weekly) && !Reaches(n, Weekly)))
  {
    WeeklyFrame(p, intent, n);
    if Tracked(intent, Weekly) {
      var week := intent.Week().value;
      WeeklyLeaves(p, intent, n, week, WeekToBacnet(week).value);
      WeeklyDrift(p.device, WeeklyStep(p, intent, n).device, intent, n, week, text);
    }
  }

  lemma {:induction false} WeeklySends(p: Progress, intent: Intent, n: Network, text: CalendarEntry -> string)
    requires n.weeklyRead && n.defaultRead
    ensures WeeklyStep(p, intent, n).sent == p.sent + if Drifted(p.device, intent, text, Weekly) then [Weekly] else []
  {
  }

  // ---------------------------------------------------------- calendar step

  lemma {:induction false} SameIsAgreement(current: seq<CalendarEntry>, desired: seq<CalendarEntry>, text: CalendarEntry -> string)
    ensures SameCalendar(current, desired, text) <==> Norms(current, text) == Norms(desired, text)
  {
    SameExact(current, desired, text, (a: CalendarEntry, b: CalendarEntry) => a == b);
  }

  lemma {:induction false} CalendarEffect(p: Progress, intent: Intent, n: Network, text: CalendarEntry -> string)
    ensures var (r, goOn) := CalendarStep(p, intent, n, text);
            && r.device == p.device.(calendar := r.device.calendar)
            && (Drifted(r.device, intent, text, Calendar) <==> Drifted(p.device, intent, text, Calendar) && !Reaches(n, Calendar))
            && (n.calendarRead ==> r.sent == p.sent + if Drifted(p.device, intent, text, Calendar) then [Calendar] else [])
            && (goOn <==> Tracked(intent, Calendar) && n.calendarRead
                          && (!Drifted(p.device, intent, text, Calendar) || n.calendarWrite == Acked))
  {
    match ToCalendarEntries(intent.holidays) {
      case Failure(_) =>
      case Success(desired) => SameIsAgreement(p.device.calendar, desired, text);
    }
  }

  lemma {:induction false} HolidayEffect(p: Progress, intent: Intent, today: Date, n: Network, text: CalendarEntry -> string)
    requires ValidDate(today)
    ensures var r := HolidayStep(p, intent, today, n, text);
            && r.device == p.device.(calendar := r.device.calendar, exceptions := r.device.exceptions)
            && (Drifted(r.device, intent, text, Calendar) <==> Drifted(p.device, intent, text, Calendar) && !Reaches(n, Calendar))
            && (forall item: Item :: item != Calendar && item != ExceptionList ==> (item in r.sent <==> item in p.sent))
            && (n.calendarRead ==> (Calendar in r.sent <==> Calendar in p.sent || Drifted(p.device, intent, text, Calendar)))
            && (ExceptionList in r.sent <==> ExceptionList in p.sent || CalendarStep(p, intent, n, text).1)
  {
    CalendarEffect(p, intent, n, text);
  }

  // --------------------------------------------------------- setpoint step

  lemma {:induction false} GetSplit(d: Ordered, key: string)
    requires d != []
    ensures var last := d[|d| - 1];
            Get(d, key) == Over(Get(d[..|d| - 1], key), if last.0 == key then Some(last.1) else None)
  {
    if |d| > 1 {
      assert d[1..][..|d| - 2] == d[..|d| - 1][1..];
      GetSplit(d[1..], key);
    }
  }

  /** The clamped value the dictionary has for a writable key. */
  function WantedFrom(intended: Ordered, writable: set<string>, key: string): Option<real> {
    match Get(intended, key)
    case None => None
    case Some(v) => if key in writable then Some(Clamp(key, v)) else None
  }

  lemma {:induction false} WantedIs(intent: Intent, key: string)
    ensures DistinctKeys(intent.Setpoints())
    ensures WantedFrom(intent.Setpoints(), intent.writable, key) == intent.Wanted(key)
  {
    ResolvedIsMostSpecific(intent.setpoints, intent.device, intent.zone, key);
  }

  /** A write of `key` is called for: the point did not answer, or differs. */
  predicate CalledFor(actual: map<string, real>, key: string, wanted: Option<real>) {
    wanted.Some? && !(key in actual && Close(actual[key], wanted.value))
  }

  /** A point after the loop. */
  ghost predicate PointAfter(before: Device, after: Device, key: string, writes: bool, wanted: Option<real>) {
    if writes && wanted.Some? then key in after.points && after.points[key] == wanted.value
    else (key in after.points <==> key in before.points) && (key in before.points ==> after.points[key] == before.points[key])
  }

  lemma {:induction false} PointEffect(p: Progress, actual: map<string, real>, k: string, v: real, writable: set<string>, n: Network, key: string)
    ensures var r := PointStep(p, actual, k, v, writable, n);
            var wanted := if k == key && key in writable then Some(Clamp(key, v)) else None;
            && r.device == p.device.(points := r.device.points)
            && PointAfter(p.device, r.device, key, CalledFor(actual, key, wanted) && n.PointWrite(key) != Lost, wanted)
            && (forall item: Item :: !item.Setpoint? ==> (item in r.sent <==> item in p.sent))
            && (Setpoint(key) in r.sent <==> Setpoint(key) in p.sent || CalledFor(actual, key, wanted))
            && (r.errors == [] ==> p.errors == [] && (k == key ==> wanted.Some? && (CalledFor(actual, key, wanted) ==> n.PointWrite(key) == Acked)))
  {
  }

  lemma {:induction false} PointsEffect(p: Progress, actual: map<string, real>, intended: Ordered, writable: set<string>, n: Network, key: string)
    requires DistinctKeys(intended)
    ensures var r := PointSteps(p, actual, intended, writable, n);
            var wanted := WantedFrom(intended, writable, key);
            && r.device == p.device.(points := r.device.points)
            && PointAfter(p.device, r.device, key, CalledFor(actual, key, wanted) && n.PointWrite(key) != Lost, wanted)
            && (forall item: Item :: !item.Setpoint? ==> (item in r.sent <==> item in p.sent))
            && (Setpoint(key) in r.sent <==> Setpoint(key) in p.sent || CalledFor(actual, key, wanted))
            && (r.errors == [] ==> p.errors == []
                                   && (Get(intended, key).Some? ==>
                                         wanted.Some? && (CalledFor(actual, key, wanted) ==> n.PointWrite(key) == Acked)))
  {
    if intended != [] {
      var rest, last := intended[..|intended| - 1], intended[|intended| - 1];
      PointsEffect(p, actual, rest, writable, n, key);
      GetSplit(intended, key);
      PointEffect(PointSteps(p, actual, rest, writable, n), actual, last.0, last.1, writable, n, key);
    }
  }

  lemma {:induction false} SetpointEffect(p: Progress, intent: Intent, n: Network, text: CalendarEntry -> string, key: string)
    ensures var r := SetpointStep(p, intent, n);
            && r.device == p.device.(points := r.device.points)
            && (Drifted(r.device, intent, text, Setpoint(key))
                <==> Drifted(p.device, intent, text, Setpoint(key)) && !Reaches(n, Setpoint(key)))
            && (forall item: Item :: !item.Setpoint? ==> (item in r.sent <==> item in p.sent))
            && (n.pointsRead && p.device.points.Keys <= n.returned ==>
                  (Setpoint(key) in r.sent <==> Setpoint(key) in p.sent || Drifted(p.device, intent, text, Setpoint(key))))
  {
    WantedIs(intent, key);
    PointsEffect(p, ReadPoints(p.device, n), intent.Setpoints(), intent.writable, n, key);
  }

  // ---------------------------------------------------------------- a cycle

  /** Every read of the cycle answers in full. */
  predicate ReadsComplete(d: Device, n: Network) {
    n.weeklyRead && n.defaultRead && n.calendarRead && n.pointsRead && d.points.Keys <= n.returned
  }

  /** The weekly step touches nothing else. */
  lemma {:induction false} WeeklyKeeps(p: Progress, intent: Intent, n: Network, text: CalendarEntry -> string, item: Item)
    requires item != Weekly
    ensures var r := WeeklyStep(p, intent, n);
            && (item in r.sent <==> item in p.sent)
            && (Drifted(r.device, intent, text, item) <==> Drifted(p.device, intent, text, item))
            && (ReadsComplete(p.device, n) ==> ReadsComplete(r.device, n))
  {
    WeeklyFrame(p, intent, n);
  }

  /** Everything after the weekly step. */
  function Rest(p: Progress, intent: Intent, today: Date, n: Network, text: CalendarEntry -> string): Progress
    requires ValidDate(today)
  {
    SetpointStep(HolidayStep(p, intent, today, n, text), intent, n)
  }

  lemma {:induction false} RestDrift(p: Progress, intent: Intent, today: Date, n: Network, text: CalendarEntry -> string, item: Item)
    requires ValidDate(today)
    ensures var r := Rest(p, intent, today, n, text);
            Drifted(r.device, intent, text, item)
            <==> Drifted(p.device, intent, text, item) && (item == Weekly || !Reaches(n, item))
  {
    HolidayEffect(p, intent, today, n, text);
    SetpointEffect(HolidayStep(p, intent, today, n, text), intent, n, text, if item.Setpoint? then item.key else "");
  }

  lemma {:induction false} RestSends(p: Progress, intent: Intent, today: Date, n: Network, text: CalendarEntry -> string, item: Item)
    requires ValidDate(today)
    ensures var r := Rest(p, intent, today, n, text);
            && (Weekly in r.sent <==> Weekly in p.sent)
            && (item != Weekly && item != ExceptionList && ReadsComplete(p.device, n) ==>
                  (item in r.sent <==> item in p.sent || Drifted(p.device, intent, text, item)))
            && (ExceptionList in r.sent
                <==> (ExceptionList in p.sent
                      || (Tracked(intent, Calendar) && n.calendarRead
                          && (!Drifted(p.device, intent, text, Calendar) || n.calendarWrite == Acked))))
  {
    CalendarEffect(p, intent, n, text);
    HolidayEffect(p, intent, today, n, text);
    SetpointEffect(HolidayStep(p, intent, today, n, text), intent, n, text, if item.Setpoint? then item.key else "");
  }

  /**
  Exactly what a cycle leaves in disagreement: an item that disagreed before and
  that the cycle did not reach.  So nothing that agreed is broken, whatever was
  read and whatever became of each write, and every write that lands on a
  disagreeing item settles it.
  */
  lemma {:induction false} CycleDrift(d: Device, intent: Intent, today: Date, n: Network, text: CalendarEntry -> string, item: Item)
    requires ValidDate(today) && (item == Weekly ==> WeekSettles(intent))
    ensures Drifted(Cycle(d, intent, today, n, text).device, intent, text, item)
            <==> Drifted(d, intent, text, item) && !Reaches(n, item)
  {
    RestDrift(WeeklyStep(Start(d), intent, n), intent, today, n, text, item);
    if item == Weekly {
      WeeklyEffect(Start(d), intent, n, text);
    } else {
      WeeklyKeeps(Start(d), intent, n, text, item);
    }
  }

  /**
  With complete reads a cycle sends exactly what disagrees: nothing at all for
  the weekly schedule, the calendar and the setpoints once they agree.
  */
  lemma {:induction false} CycleSendsDrift(d: Device, intent: Intent, today: Date, n: Network, text: CalendarEntry -> string, item: Item)
    requires ValidDate(today) && ReadsComplete(d, n) && item != ExceptionList
    ensures item in Cycle(d, intent, today, n, text).sent <==> Drifted(d, intent, text, item)
  {
    RestSends(WeeklyStep(Start(d), intent, n), intent, today, n, text, item);
    if item == Weekly {
      WeeklySends(Start(d), intent, n, text);
    } else {
      WeeklyKeeps(Start(d), intent, n, text, item);
    }
  }

  /** The exception list is written in every cycle that gets past the calendar, agreeing or not. */
  lemma {:induction false} ExceptionsSentRegardless(d: Device, intent: Intent, today: Date, n: Network, text: CalendarEntry -> string)
    requires ValidDate(today)
    ensures ExceptionList in Cycle(d, intent, today, n, text).sent
            <==> Tracked(intent, Calendar) && n.calendarRead
                 && (!Drifted(d, intent, text, Calendar) || n.calendarWrite == Acked)
  {
    RestSends(WeeklyStep(Start(d), intent, n), intent, today, n, text, ExceptionList);
    WeeklyKeeps(Start(d), intent, n, text, Calendar);
    WeeklyKeeps(Start(d), intent, n, text, ExceptionList);
  }

  // ------------------------------------------------------------------ a run

  /** The device after some cycles, each with its own day and network. */
  function Run(d: Device, intent: Intent, days: seq<Date>, networks: seq<Network>, text: CalendarEntry -> string): Device
    requires |days| == |networks| && forall i :: 0 <= i < |days| ==> ValidDate(days[i])
  {
    if days == [] then d
    else
      var k := |days| - 1;
      Cycle(Run(d, intent, days[..k], networks[..k], text), intent, days[k], networks[k], text).device
  }

  ghost predicate Reached(networks: seq<Network>, item: Item) {
    exists k :: 0 <= k < |networks| && Reaches(networks[k], item)
  }

  /** Convergence: after any run, exactly the items that disagreed and that no cycle reached still disagree. */
  lemma {:induction false} RunConverges(d: Device, intent: Intent, days: seq<Date>, networks: seq<Network>,
                                        text: CalendarEntry -> string, item: Item)
    requires |days| == |networks| && (forall i :: 0 <= i < |days| ==> ValidDate(days[i]))
    requires item == Weekly ==> WeekSettles(intent)
    ensures Drifted(Run(d, intent, days, networks, text), intent, text, item)
            <==> Drifted(d, intent, text, item) && !Reached(networks, item)
  {
    if days != [] {
      var k := |days| - 1;
      RunConverges(d, intent, days[..k], networks[..k], text, item);
      CycleDrift(Run(d, intent, days[..k], networks[..k], text), intent, days[k], networks[k], text, item);
      ReachedSplit(networks, item);
    }
  }

  lemma {:induction false} ReachedSplit(networks: seq<Network>, item: Item)
    requires networks != []
    ensures Reached(networks, item)
            <==> Reached(networks[..|networks| - 1], item) || Reaches(networks[|networks| - 1], item)
  {
    var init := networks[..|networks| - 1];
    if Reached(init, item) {
      var k :| 0 <= k < |init| && Reaches(init[k], item);
      assert Reaches(networks[k], item);
    }
    if Reached(networks, item) && !Reaches(networks[|networks| - 1], item) {
      var k :| 0 <= k < |networks| && Reaches(networks[k], item);
      assert init[k] == networks[k];
    }
  }

  // ------------------------------------------------- weeks that do and do not settle

  /** Group and override days as the API stores them. */
  ghost predicate AcceptedIntent(intent: Intent) {
    (intent.group.Some? ==> AcceptedDays(intent.group.value)) && AcceptedDays(intent.overrides)
  }

  /** Whatever the API accepted settles, and can be written. */
  lemma {:induction false} AcceptedIntentSettles(intent: Intent)
    requires AcceptedIntent(intent)
    ensures WeekSettles(intent)
    ensures intent.group.Some? ==> Tracked(intent, Weekly)
  {
    if intent.group.Some? {
      AcceptedWeekSettles(intent.group.value, intent.overrides);
      ValidatedWeekConverges(intent.Week().value, None);
    }
  }

  lemma {:induction false} UnsettledDisagrees(d: Device, intent: Intent, text: CalendarEntry -> string)
    requires Tracked(intent, Weekly) && !WeekSettles(intent) && AllOctets(d.weekly)
    ensures Drifted(d, intent, text, Weekly)
  {
    if AlreadyCorrect(d.weekly, Some(d.scheduleDefault), intent.Week().value) {
      CorrectSettles(d.weekly, d.scheduleDefault, intent.Week().value);
    }
  }

  lemma {:induction false} CycleWeekly(d: Device, intent: Intent, today: Date, n: Network, text: CalendarEntry -> string)
    requires ValidDate(today)
    ensures var r := Cycle(d, intent, today, n, text).device;
            r.weekly == WeeklyStep(Start(d), intent, n).device.weekly && r.scheduleDefault == d.scheduleDefault
  {
    var weekly := WeeklyStep(Start(d), intent, n);
    WeeklyFrame(Start(d), intent, n);
    HolidayEffect(weekly, intent, today, n, text);
    SetpointEffect(HolidayStep(weekly, intent, today, n, text), intent, n, text, "");
  }

  lemma {:induction false} CycleKeepsOctets(d: Device, intent: Intent, today: Date, n: Network, text: CalendarEntry -> string)
    requires ValidDate(today) && AllOctets(d.weekly) && Tracked(intent, Weekly)
    ensures AllOctets(Cycle(d, intent, today, n, text).device.weekly)
  {
    var week := intent.Week().value;
    EncodedOctets(week);
    WeeklyLeaves(Start(d), intent, n, week, WeekToBacnet(week).value);
    CycleWeekly(d, intent, today, n, text);
  }

  lemma {:induction false} RunKeepsOctets(d: Device, intent: Intent, days: seq<Date>, networks: seq<Network>, text: CalendarEntry -> string)
    requires |days| == |networks| && (forall i :: 0 <= i < |days| ==> ValidDate(days[i]))
    requires AllOctets(d.weekly) && Tracked(intent, Weekly)
    ensures AllOctets(Run(d, intent, days, networks, text).weekly)
  {
    if days != [] {
      var k := |days| - 1;
      RunKeepsOctets(d, intent, days[..k], networks[..k], text);
      CycleKeepsOctets(Run(d, intent, days[..k], networks[..k], text), intent, days[k], networks[k], text);
    }
  }

  /** A week that does not settle disagrees after every run, and is sent again by every cycle that reads the week and the default. */
  lemma {:induction false} UnsettledWeekForEver(d: Device, intent: Intent, days: seq<Date>, networks: seq<Network>,
                                                text: CalendarEntry -> string, today: Date, n: Network)
    requires |days| == |networks| && (forall i :: 0 <= i < |days| ==> ValidDate(days[i])) && ValidDate(today)
    requires Tracked(intent, Weekly) && !WeekSettles(intent) && AllOctets(d.weekly)
    ensures Drifted(Run(d, intent, days, networks, text), intent, text, Weekly)
    ensures n.weeklyRead && n.defaultRead ==>
              Weekly in Cycle(Run(d, intent, days, networks, text), intent, today, n, text).sent
  {
    var dev := Run(d, intent, days, networks, text);
    RunKeepsOctets(d, intent, days, networks, text);
    UnsettledDisagrees(dev, intent, text);
    if n.weeklyRead && n.defaultRead {
      WeeklySends(Start(dev), intent, n, text);
      RestSends(WeeklyStep(Start(dev), intent, n), intent, today, n, text, Weekly);
    }
  }

  /** Once reached, the week agrees if and only if it settles. */
  lemma {:induction false} ReachedWeekAgreesExactly(d: Device, intent: Intent, days: seq<Date>, networks: seq<Network>,
                                                    text: CalendarEntry -> string)
    requires |days| == |networks| && (forall i :: 0 <= i < |days| ==> ValidDate(days[i]))
    requires Tracked(intent, Weekly) && AllOctets(d.weekly) && Reached(networks, Weekly)
    ensures !Drifted(Run(d, intent, days, networks, text), intent, text, Weekly) <==> WeekSettles(intent)
  {
    if WeekSettles(intent) {
      RunConverges(d, intent, days, networks, text, Weekly);
    } else {
      RunKeepsOctets(d, intent, days, networks, text);
      UnsettledDisagrees(Run(d, intent, days, networks, text), intent, text);
    }
  }
}
