/**
The weekly schedule between the database and the device (bms/schedules.py:
resolve_week, week_to_bacnet, bacnet_to_week, normalise_week; the comparison of
bms/reconciler.py).
*/
module WeekSchedule {
  import opened Prelude
  import opened TextOrder
  import opened DayEntries
  import opened Transitions
  import opened BacnetObjects
  import opened DayStates

  type Day = seq<Transition>
  type Week = map<int, Day>

  /** A day nobody is in: unoccupied from midnight, said explicitly. */
  const CLOSED_DAY: Day := [Transition("00:00", UNOCCUPIED)]

  /** 1 to n. */
  function DayNumbers(n: nat): (r: set<int>)
    ensures forall day :: day in r <==> 1 <= day <= n
  {
    if n == 0 then {} else DayNumbers(n - 1) + {n}
  }

  ghost predicate FullWeek(week: Week) {
    forall day :: day in week <==> 1 <= day <= 7
  }

  /** A device's own day beats its group's; a day neither has is closed. */
  function ResolveWeek(groupWeek: Week, overrides: Week): (w: Week)
    ensures FullWeek(w)
    ensures forall day :: day in w && day in overrides ==> w[day] == overrides[day]
    ensures forall day :: day in w && day !in overrides && day in groupWeek ==> w[day] == groupWeek[day]
    ensures forall day :: day in w && day !in overrides && day !in groupWeek ==> w[day] == CLOSED_DAY
  {
    map day | day in DayNumbers(7) ::
      if day in overrides then overrides[day] else if day in groupWeek then groupWeek[day] else CLOSED_DAY
  }

  // ---------------------------------------------------------------- encoding

  /** `TimeValue(parse_time(time), Unsigned(state))`, or a ValueError. */
  function EncodeOne(t: Transition): Option<TimeValue> {
    match ParseTime(t.time)
    case None => None
    case Some(c) => if t.state < 0 then None else Some(TimeValue(c.hour, c.minute, c.second, 0, t.state))
  }

  function EncodeDay(day: Day): Option<seq<TimeValue>> {
    if day == [] then Some([])
    else match (EncodeDay(day[..|day| - 1]), EncodeOne(day[|day| - 1]))
         case (Some(rest), Some(tv)) => Some(rest + [tv])
         case _ => None
  }

  function EncodeDays(days: seq<Day>): Option<seq<seq<TimeValue>>> {
    if days == [] then Some([])
    else match (EncodeDays(days[..|days| - 1]), EncodeDay(days[|days| - 1]))
         case (Some(rest), Some(day)) => Some(rest + [day])
         case _ => None
  }

  /** `week.get(day, CLOSED_DAY)` for Monday to Sunday. */
  function SevenDays(week: Week): (days: seq<Day>)
    ensures |days| == 7
    ensures forall day :: 1 <= day <= 7 && day in week ==> days[day - 1] == week[day]
  {
    seq(7, i requires 0 <= i < 7 => if i + 1 in week then week[i + 1] else CLOSED_DAY)
  }

  function WeekToBacnet(week: Week): Option<seq<seq<TimeValue>>> {
    EncodeDays(SevenDays(week))
  }

  // ---------------------------------------------------------------- decoding

  /** `f"{n:02d}"`. */
  function Pad2(n: nat): string {
    if n < 100 then Dec(n, 2) else if n < 1000 then Dec(n, 3) else Dec(n, 9)
  }

  function DecodeOne(tv: TimeValue): Transition {
    Transition(Pad2(tv.hour) + ":" + Pad2(tv.minute), tv.value)
  }

  function DecodeDay(day: seq<TimeValue>): (r: Day)
    ensures |r| == |day| && forall i :: 0 <= i < |day| ==> r[i] == DecodeOne(day[i])
  {
    seq(|day|, i requires 0 <= i < |day| => DecodeOne(day[i]))
  }

  /** `enumerate(weekly, start=1)`: however many days the device returned. */
  method BacnetToWeek(weekly: seq<seq<TimeValue>>) returns (out: Week)
    ensures out == DecodeWeek(weekly)
  {
    out := map[];
    var index := 1;
    while index <= |weekly|
      invariant 1 <= index <= |weekly| + 1
      invariant out == DecodeWeek(weekly[..index - 1])
    {
      var day: Day := [];
      for k := 0 to |weekly[index - 1]|
        invariant day == DecodeDay(weekly[index - 1])[..k]
      {
        day := day + [DecodeOne(weekly[index - 1][k])];
      }
      assert day == DecodeDay(weekly[index - 1]);
      out := out[index := day];
      DecodeWeekStep(weekly, index);
      index := index + 1;
    }
    assert weekly[..|weekly|] == weekly;
  }

  lemma {:induction false} DecodeWeekStep(weekly: seq<seq<TimeValue>>, n: nat)
    requires 1 <= n <= |weekly|
    ensures DecodeWeek(weekly[..n]) == DecodeWeek(weekly[..n - 1])[n := DecodeDay(weekly[n - 1])]
  {
  }

  function DecodeWeek(weekly: seq<seq<TimeValue>>): (w: Week)
    ensures forall day :: day in w <==> 1 <= day <= |weekly|
    ensures forall day :: day in w ==> w[day] == DecodeDay(weekly[day - 1])
  {
    map day | day in DayNumbers(|weekly|) :: DecodeDay(weekly[day - 1])
  }

  /** An empty day gets the meaning the device gives it, when that is known. */
  function NormaliseWeek(week: Week, scheduleDefault: Option<int>): Week {
    match scheduleDefault
    case None => week
    case Some(v) => map day | day in week :: if week[day] != [] then week[day] else [Transition("00:00", v)]
  }

  /** `current == {d: week[d] for d in range(1, 8)}`, on what the device returned. */
  predicate AlreadyCorrect(weekly: seq<seq<TimeValue>>, readDefault: Option<int>, week: Week)
    requires FullWeek(week)
  {
    NormaliseWeek(DecodeWeek(weekly), readDefault) == map day | day in DayNumbers(7) :: week[day]
  }

  // --------------------------------------------------- one entry, both ways

  /** A time on a whole minute, as the hardware keeps the ones written to it. */
  predicate WholeMinute(tv: TimeValue) {
    tv.hour < 24 && tv.minute < 60 && tv.second == 0 && tv.hundredth == 0 && tv.value >= 0
  }

  lemma {:induction false} DecodedTime(tv: TimeValue)
    requires tv.hour < 24 && tv.minute < 60
    ensures DecodeOne(tv).time == HhMm(tv.hour, tv.minute)
    ensures ParseTime(DecodeOne(tv).time) == Some(Clock(tv.hour, tv.minute, 0))
  {
    ParseHhMm(tv.hour, tv.minute);
  }

  /** Decoding loses nothing of an entry exactly when it is on a whole minute. */
  lemma {:induction false} EncodeDecoded(tv: TimeValue)
    requires InRange(tv) && tv.value >= 0
    ensures EncodeOne(DecodeOne(tv)).Some?
    ensures EncodeOne(DecodeOne(tv)) == Some(tv) <==> OnMinute(tv)
  {
    DecodedTime(tv);
  }

  /** A stored transition in the form the validator writes. */
  ghost predicate Canonical(t: Transition) {
    t.state >= 0 && exists e: Entry :: e.minute < 1440 && t == Written(e)
  }

  lemma {:induction false} ParseWritten(e: Entry)
    requires e.minute < 1440
    ensures ParseTime(Written(e).time) == Some(Clock(e.minute / 60, e.minute % 60, 0))
  {
    ParseHhMm(e.minute / 60, e.minute % 60);
  }

  /** What comes back for a transition whose time parsed to `c`. */
  lemma {:induction false} ComesBack(t: Transition, c: Clock)
    requires ParseTime(t.time) == Some(c) && t.state >= 0
    ensures EncodeOne(t) == Some(TimeValue(c.hour, c.minute, c.second, 0, t.state))
    ensures DecodeOne(EncodeOne(t).value) == Written(Entry(60 * c.hour + c.minute, t.state))
  {
    DecodedTime(EncodeOne(t).value);
    MinuteParts(c);
  }

  lemma {:induction false} MinuteParts(c: Clock)
    ensures (60 * c.hour + c.minute) / 60 == c.hour && (60 * c.hour + c.minute) % 60 == c.minute
  {
  }

  /** Encoding and decoding returns a transition exactly when it is in the validator's form. */
  lemma {:induction false} DecodeEncoded(t: Transition)
    requires EncodeOne(t).Some?
    ensures DecodeOne(EncodeOne(t).value) == t <==> Canonical(t)
  {
    var c := ParseTime(t.time).value;
    ComesBack(t, c);
    if Canonical(t) {
      var e: Entry :| e.minute < 1440 && t == Written(e);
      ParseWritten(e);
    }
  }

  lemma {:induction false} CanonicalEncodes(t: Transition)
    requires Canonical(t)
    ensures EncodeOne(t).Some? && WholeMinute(EncodeOne(t).value)
  {
    var e: Entry :| e.minute < 1440 && t == Written(e);
    ParseWritten(e);
  }

  // ------------------------------------------------------------ days, both ways

  lemma {:induction false} EncodeDayAt(day: Day)
    requires EncodeDay(day).Some?
    ensures |EncodeDay(day).value| == |day|
    ensures forall i :: 0 <= i < |day| ==> EncodeOne(day[i]) == Some(EncodeDay(day).value[i])
  {
    if day != [] {
      EncodeDayAt(day[..|day| - 1]);
    }
  }

  lemma {:induction false} EncodeDayIs(day: Day, tvs: seq<TimeValue>)
    requires |day| == |tvs| && forall i :: 0 <= i < |day| ==> EncodeOne(day[i]) == Some(tvs[i])
    ensures EncodeDay(day) == Some(tvs)
  {
    if day != [] {
      EncodeDayIs(day[..|day| - 1], tvs[..|day| - 1]);
      assert tvs == tvs[..|day| - 1] + [tvs[|day| - 1]];
    }
  }

  ghost predicate CanonicalEntries(day: Day) {
    forall i :: 0 <= i < |day| ==> Canonical(day[i])
  }

  predicate WholeMinutes(day: seq<TimeValue>) {
    forall i :: 0 <= i < |day| ==> WholeMinute(day[i])
  }

  lemma {:induction false} DecodeEncodedDay(day: Day)
    requires EncodeDay(day).Some?
    ensures DecodeDay(EncodeDay(day).value) == day <==> CanonicalEntries(day)
  {
    EncodeDayAt(day);
    var tvs := EncodeDay(day).value;
    forall i | 0 <= i < |day| ensures DecodeDay(tvs)[i] == day[i] <==> Canonical(day[i]) {
      DecodeEncoded(day[i]);
    }
  }

  lemma {:induction false} EncodeDaysAt(days: seq<Day>)
    requires EncodeDays(days).Some?
    ensures |EncodeDays(days).value| == |days|
    ensures forall i :: 0 <= i < |days| ==> EncodeDay(days[i]) == Some(EncodeDays(days).value[i])
  {
    if days != [] {
      EncodeDaysAt(days[..|days| - 1]);
    }
  }

  lemma {:induction false} EncodedWeek(week: Week)
    requires FullWeek(week) && WeekToBacnet(week).Some?
    ensures |WeekToBacnet(week).value| == 7
    ensures forall day :: 1 <= day <= 7 ==> EncodeDay(week[day]) == Some(WeekToBacnet(week).value[day - 1])
  {
    var days := SevenDays(week);
    EncodeDaysAt(days);
    forall day | 1 <= day <= 7 ensures EncodeDay(week[day]) == Some(WeekToBacnet(week).value[day - 1]) {
      assert days[day - 1] == week[day];
    }
  }

  /**
  What is written is what is read back: decoding an encoded week returns it
  exactly when every stored transition is in the validator's form.
  */
  lemma {:induction false} RoundTrip(week: Week)
    requires FullWeek(week) && WeekToBacnet(week).Some?
    ensures DecodeWeek(WeekToBacnet(week).value) == week <==> forall day :: day in week ==> CanonicalEntries(week[day])
  {
    EncodedWeek(week);
    SameDays(week, WeekToBacnet(week).value);
  }

  /** Times of day and states, as a device has them. */
  ghost predicate DeviceDay(tvs: seq<TimeValue>) {
    AllInRange(tvs) && forall i :: 0 <= i < |tvs| ==> tvs[i].value >= 0
  }

  lemma {:induction false} DeviceDayBack(tvs: seq<TimeValue>)
    requires DeviceDay(tvs)
    ensures EncodeDay(DecodeDay(tvs)).Some?
    ensures EncodeDay(DecodeDay(tvs)) == Some(tvs) <==> ToTheMinute(tvs)
  {
    var day := DecodeDay(tvs);
    var back := seq(|tvs|, i requires 0 <= i < |tvs| => EncodeOne(day[i]).GetOr(tvs[i]));
    forall i | 0 <= i < |tvs| ensures EncodeOne(day[i]) == Some(back[i]) && (back[i] == tvs[i] <==> OnMinute(tvs[i])) {
      EncodeDecoded(tvs[i]);
    }
    EncodeDayIs(day, back);
    assert back == tvs <==> forall i :: 0 <= i < |tvs| ==> back[i] == tvs[i];
  }

  lemma {:induction false} DeviceDaysBack(weekly: seq<seq<TimeValue>>, days: seq<Day>)
    requires |days| == |weekly| && forall k :: 0 <= k < |weekly| ==> DeviceDay(weekly[k]) && days[k] == DecodeDay(weekly[k])
    ensures EncodeDays(days).Some?
    ensures EncodeDays(days) == Some(weekly) <==> forall k :: 0 <= k < |weekly| ==> ToTheMinute(weekly[k])
  {
    if weekly != [] {
      var n := |weekly| - 1;
      DeviceDaysBack(weekly[..n], days[..n]);
      DeviceDayBack(weekly[n]);
      LastDayBack(weekly, EncodeDays(days[..n]).value, EncodeDay(days[n]).value);
    }
  }

  lemma {:induction false} LastDayBack(weekly: seq<seq<TimeValue>>, front: seq<seq<TimeValue>>, last: seq<TimeValue>)
    requires weekly != []
    ensures front + [last] == weekly <==> front == weekly[..|weekly| - 1] && last == weekly[|weekly| - 1]
  {
    if front + [last] == weekly {
      assert |front| == |weekly| - 1;
      assert (front + [last])[..|front|] == front && (front + [last])[|front|] == last;
    }
  }

  /** The other way round: encoding a decoded week returns it exactly when it is on whole minutes. */
  lemma {:induction false} DeviceRoundTrip(weekly: seq<seq<TimeValue>>)
    requires |weekly| == 7 && forall k :: 0 <= k < 7 ==> DeviceDay(weekly[k])
    ensures WeekToBacnet(DecodeWeek(weekly)).Some?
    ensures WeekToBacnet(DecodeWeek(weekly)) == Some(weekly) <==> forall k :: 0 <= k < 7 ==> ToTheMinute(weekly[k])
  {
    var days := SevenDays(DecodeWeek(weekly));
    forall k | 0 <= k < 7 ensures days[k] == DecodeDay(weekly[k]) {
      assert days[k] == DecodeWeek(weekly)[k + 1];
    }
    DeviceDaysBack(weekly, days);
  }

  lemma {:induction false} DayBack(day: Day, tvs: seq<TimeValue>)
    requires EncodeDay(day) == Some(tvs)
    ensures DecodeDay(tvs) == day <==> CanonicalEntries(day)
    ensures |tvs| == |day|
  {
    DecodeEncodedDay(day);
    EncodeDayAt(day);
  }

  lemma {:induction false} SameDays(week: Week, weekly: seq<seq<TimeValue>>)
    requires FullWeek(week) && |weekly| == 7
    requires forall day :: 1 <= day <= 7 ==> EncodeDay(week[day]) == Some(weekly[day - 1])
    ensures DecodeWeek(weekly) == week <==> forall day :: day in week ==> CanonicalEntries(week[day])
    ensures forall day :: day in week ==> (DecodeWeek(weekly)[day] == week[day] <==> CanonicalEntries(week[day]))
    ensures forall day :: day in week ==> |weekly[day - 1]| == |week[day]|
  {
    forall day | day in week
      ensures DecodeWeek(weekly)[day] == week[day] <==> CanonicalEntries(week[day])
      ensures |weekly[day - 1]| == |week[day]|
    {
      DayBack(week[day], weekly[day - 1]);
    }
    SameMaps(DecodeWeek(weekly), week);
  }

  lemma {:induction false} SameMaps(a: Week, b: Week)
    requires FullWeek(a) && FullWeek(b)
    ensures a == b <==> forall day :: day in b ==> a[day] == b[day]
  {
    assert forall day :: day in a <==> day in b;
    if forall day :: day in b ==> a[day] == b[day] {
      assert a.Keys == b.Keys;
      assert a == b;
    }
  }

  // ------------------------------------------------------- the comparison

  // -------------------------------------------------- what a stored day says

  /** What a stored day asks for at an instant: its last change so far, else the default. */
  function DayState(day: Day, scheduleDefault: int, t: nat): int {
    StateFrom(Says(day), t / MINUTE).GetOr(scheduleDefault)
  }

  /** A transition and a time value say the same, to the minute. */
  predicate SaySame(t: Transition, tv: TimeValue) {
    && ParseTime(t.time).Some? && Minute(ParseTime(t.time).value) == EntryOf(tv).minute
    && t.state == tv.value
  }

  lemma {:induction false} SaySameDays(day: Day, tvs: seq<TimeValue>)
    requires |day| == |tvs| && forall i :: 0 <= i < |day| ==> SaySame(day[i], tvs[i])
    ensures Says(day) == Changes(tvs)
  {
    if day != [] {
      var n := |day| - 1;
      SaySameDays(day[..n], tvs[..n]);
      assert SaySame(day[n], tvs[n]);
      SaysLast(day, ParseTime(day[n].time).value);
      ChangesStep(tvs);
    }
  }

  lemma {:induction false} EncodedSaysSame(t: Transition, tv: TimeValue)
    requires EncodeOne(t) == Some(tv)
    ensures SaySame(t, tv)
  {
  }

  lemma {:induction false} EncodedSays(day: Day, tvs: seq<TimeValue>)
    requires EncodeDay(day) == Some(tvs)
    ensures Says(day) == Changes(tvs)
  {
    EncodeDayAt(day);
    forall i | 0 <= i < |day| ensures SaySame(day[i], tvs[i]) {
      EncodedSaysSame(day[i], tvs[i]);
    }
    SaySameDays(day, tvs);
  }

  lemma {:induction false} DecodedSaysSame(tv: TimeValue)
    requires InRange(tv)
    ensures SaySame(DecodeOne(tv), tv)
  {
    DecodedTime(tv);
  }

  lemma {:induction false} DecodedSays(tvs: seq<TimeValue>)
    requires AllInRange(tvs)
    ensures Says(DecodeDay(tvs)) == Changes(tvs)
  {
    forall i | 0 <= i < |tvs| ensures SaySame(DecodeDay(tvs)[i], tvs[i]) {
      DecodedSaysSame(tvs[i]);
    }
    SaySameDays(DecodeDay(tvs), tvs);
  }

  /** On whole minutes, in any order. */
  predicate ToTheMinute(tvs: seq<TimeValue>) {
    AllInRange(tvs) && forall i :: 0 <= i < |tvs| ==> OnMinute(tvs[i])
  }

  /** A stored day that encodes to whole minutes is obeyed at every instant. */
  lemma {:induction false} EncodedIsObeyed(day: Day, tvs: seq<TimeValue>, scheduleDefault: int, t: nat)
    requires EncodeDay(day) == Some(tvs) && ToTheMinute(tvs)
    ensures ValueAt(tvs, t) == StateFrom(Says(day), t / MINUTE)
    ensures DayValue(tvs, scheduleDefault, t) == DayState(day, scheduleDefault, t)
  {
    EncodedSays(day, tvs);
    WholeMinutesState(tvs, t);
  }

  /**
  From the caller to the device: the transitions the API accepted can be written,
  and at every instant the device is in the state of the caller's last change.
  */
  lemma {:induction false} AcceptedIsObeyed(ts: seq<RawTransition>, t: nat)
    requires Validate(ts).Success?
    ensures AllAcceptable(ParseEach(ts)) && EncodeDay(Validate(ts).value).Some?
    ensures ValueAt(EncodeDay(Validate(ts).value).value, t) == StateFrom(Denote(ParseEach(ts)), t / MINUTE)
  {
    var day := Validate(ts).value;
    StoredAsSaid(ts);
    ValidateExact(ts);
    CanonicalDayIsCanonical(day, Sort(Entries(ParseEach(ts))));
    CanonicalDayEncodes(day);
    EncodedIsObeyed(day, EncodeDay(day).value, 0, t);
  }

  lemma {:induction false} CanonicalDayIsCanonical(day: Day, es: seq<Entry>)
    requires CanonicalDay(day, es)
    ensures CanonicalEntries(day) && day != []
  {
    forall i | 0 <= i < |day| ensures Canonical(day[i]) {
      ValidatedEntry(day, es, i);
    }
  }

  // ---------------------------------------------- what "already correct" means

  lemma {:induction false} SaysMidnight(v: int)
    ensures Says([Transition("00:00", v)]) == map[0 := v]
  {
    var day := [Transition("00:00", v)];
    ParseHhMm(0, 0);
    MidnightText();
    SaysLast(day, Clock(0, 0, 0));
    assert day[..0] == [];
  }

  lemma {:induction false} FromMidnight(v: int, minute: nat)
    ensures StateFrom(map[0 := v], minute) == Some(v)
  {
    LastChangeIsLast(map[0 := v], minute, 0);
  }

  lemma {:induction false} NoChange(minute: nat)
    ensures LastChange(map[], minute) == None
  {
    if minute > 0 { NoChange(minute - 1); }
  }

  /** Giving an empty day its default's meaning changes its state at no instant. */
  lemma {:induction false} NormaliseKeepsState(tvs: seq<TimeValue>, v: int, t: nat)
    requires ToTheMinute(tvs)
    ensures DayState(NormaliseWeek(map[1 := DecodeDay(tvs)], Some(v))[1], v, t) == DayValue(tvs, v, t)
  {
    NormalisedSays(tvs, v, t);
    WholeMinutesState(tvs, t);
  }

  lemma {:induction false} NormalisedSays(tvs: seq<TimeValue>, v: int, t: nat)
    requires AllInRange(tvs)
    ensures DayState(NormaliseWeek(map[1 := DecodeDay(tvs)], Some(v))[1], v, t) == StateFrom(Changes(tvs), t / MINUTE).GetOr(v)
  {
    if tvs == [] {
      SaysMidnight(v);
      FromMidnight(v, t / MINUTE);
      NoChange(t / MINUTE);
    } else {
      DecodedSays(tvs);
    }
  }

  /** A day that compares as correct says, under its default, what the device's entries say read to the minute. */
  lemma {:induction false} CorrectSays(weekly: seq<seq<TimeValue>>, readDefault: Option<int>, week: Week, trueDefault: int, day: int, t: nat)
    requires FullWeek(week) && AlreadyCorrect(weekly, readDefault, week) && 1 <= day <= 7
    requires readDefault == None || readDefault == Some(trueDefault)
    requires |weekly| == 7 ==> AllInRange(weekly[day - 1])
    ensures |weekly| == 7
    ensures DayState(week[day], trueDefault, t) == StateFrom(Changes(weekly[day - 1]), t / MINUTE).GetOr(trueDefault)
  {
    ComparedDay(weekly, readDefault, week, day);
    if readDefault == None {
      DecodedSays(weekly[day - 1]);
    } else {
      NormalisedSays(weekly[day - 1], trueDefault, t);
    }
  }

  /**
  When the reconciler says "already correct", the device is at every instant of
  every day in the state the intended day's last change asks for: under its own
  default when that was read, and under any default when it was not.
  */
  lemma {:induction false} AlreadyCorrectMeansSame(weekly: seq<seq<TimeValue>>, readDefault: Option<int>, week: Week, trueDefault: int, day: int, t: nat)
    requires FullWeek(week) && AlreadyCorrect(weekly, readDefault, week) && 1 <= day <= 7
    requires readDefault == None || readDefault == Some(trueDefault)
    requires |weekly| == 7 ==> ToTheMinute(weekly[day - 1])
    ensures |weekly| == 7
    ensures DayValue(weekly[day - 1], trueDefault, t) == DayState(week[day], trueDefault, t)
  {
    CorrectSays(weekly, readDefault, week, trueDefault, day, t);
    WholeMinutesState(weekly[day - 1], t);
  }

  /** Device and intent have the same state at every instant of the day. */
  ghost predicate SameAllDay(tvs: seq<TimeValue>, day: Day, scheduleDefault: int) {
    forall t: nat :: DayValue(tvs, scheduleDefault, t) == DayState(day, scheduleDefault, t)
  }

  /**
  For any device day, on whole minutes or not and in any order, "already correct"
  means that exactly when the device does what it reads as at each of its entries.
  */
  lemma {:induction false} AlreadyCorrectExactly(weekly: seq<seq<TimeValue>>, readDefault: Option<int>, week: Week, trueDefault: int, day: int)
    requires FullWeek(week) && AlreadyCorrect(weekly, readDefault, week) && 1 <= day <= 7
    requires readDefault == None || readDefault == Some(trueDefault)
    requires |weekly| == 7 ==> AllInRange(weekly[day - 1])
    ensures |weekly| == 7
    ensures SameAllDay(weekly[day - 1], week[day], trueDefault) <==> RightAtEntries(weekly[day - 1], trueDefault)
  {
    CorrectSays(weekly, readDefault, week, trueDefault, day, 0);
    var tvs := weekly[day - 1];
    AsReadInAnyOrder(tvs, trueDefault);
    forall t: nat ensures DayValue(tvs, trueDefault, t) == DayState(week[day], trueDefault, t) <==> ReadsRight(tvs, trueDefault, t) {
      CorrectSays(weekly, readDefault, week, trueDefault, day, t);
    }
    if SameAllDay(tvs, week[day], trueDefault) {
      forall t: nat ensures ReadsRight(tvs, trueDefault, t) {
        assert DayValue(tvs, trueDefault, t) == DayState(week[day], trueDefault, t);
      }
    }
  }

  /** For a day in order of time, exactly when every entry within a minute repeats the value already in effect. */
  lemma {:induction false} AlreadyCorrectInOrder(weekly: seq<seq<TimeValue>>, readDefault: Option<int>, week: Week, trueDefault: int, day: int)
    requires FullWeek(week) && AlreadyCorrect(weekly, readDefault, week) && 1 <= day <= 7
    requires readDefault == None || readDefault == Some(trueDefault)
    requires |weekly| == 7 ==> Ordered(weekly[day - 1]) && AllInRange(weekly[day - 1])
    ensures |weekly| == 7
    ensures SameAllDay(weekly[day - 1], week[day], trueDefault) <==> Repeats(weekly[day - 1], trueDefault)
  {
    AlreadyCorrectExactly(weekly, readDefault, week, trueDefault, day);
    AsReadInAnyOrder(weekly[day - 1], trueDefault);
    AsReadExactly(weekly[day - 1], trueDefault);
  }

  lemma {:induction false} ComparedDay(weekly: seq<seq<TimeValue>>, readDefault: Option<int>, week: Week, day: int)
    requires FullWeek(week) && AlreadyCorrect(weekly, readDefault, week) && 1 <= day <= 7
    ensures |weekly| == 7
    ensures readDefault == None ==> DecodeDay(weekly[day - 1]) == week[day]
    ensures readDefault.Some? ==> NormaliseWeek(map[1 := DecodeDay(weekly[day - 1])], readDefault)[1] == week[day]
  {
    var decoded := DecodeWeek(weekly);
    var current := NormaliseWeek(decoded, readDefault);
    assert 7 in current && 8 !in current;
    assert 7 in decoded && 8 !in decoded;
    assert current[day] == week[day];
  }

  /** A whole minute is needed: 06:00:30 reads back as 06:00, half a minute before the device switches. */
  lemma {:induction false} SecondsAreLost()
    ensures var device := [TimeValue(6, 0, 30, 0, OCCUPIED)];
            var intent := [Transition("06:00", OCCUPIED)];
            && DecodeDay(device) == intent
            && EncodeDay(intent) == Some([TimeValue(6, 0, 0, 0, OCCUPIED)])
            && DayValue(device, UNOCCUPIED, Instant(TimeValue(6, 0, 10, 0, 0))) == UNOCCUPIED
            && DayValue([TimeValue(6, 0, 0, 0, OCCUPIED)], UNOCCUPIED, Instant(TimeValue(6, 0, 10, 0, 0))) == OCCUPIED
  {
    var intent := [Transition("06:00", OCCUPIED)];
    assert Dec(6, 1) == Dec(0, 0) + ['6'] && Dec(0, 1) == Dec(0, 0) + ['0'];
    assert HhMm(6, 0) == "06:00";
    ParseHhMm(6, 0);
    EncodeDayIs(intent, [TimeValue(6, 0, 0, 0, OCCUPIED)]);
    assert DecodeDay([TimeValue(6, 0, 30, 0, OCCUPIED)]) == intent;
    assert Latest([TimeValue(6, 0, 30, 0, OCCUPIED)][..0], 2161000) == None;
  }

  /**
  After a weekly write was applied the next comparison is satisfied exactly when
  every stored transition is in the validator's form and, if the default can be
  read, no intended day is empty.  Otherwise the week is rewritten every cycle.
  */
  lemma {:induction false} WrittenIsCorrect(week: Week, readDefault: Option<int>)
    requires FullWeek(week) && WeekToBacnet(week).Some?
    ensures AlreadyCorrect(WeekToBacnet(week).value, readDefault, week)
            <==> (forall day :: day in week ==> CanonicalEntries(week[day]) && (readDefault.None? || week[day] != []))
  {
    EncodedWeek(week);
    EncodedIsCorrect(week, WeekToBacnet(week).value, readDefault);
  }

  lemma {:induction false} EncodedIsCorrect(week: Week, weekly: seq<seq<TimeValue>>, readDefault: Option<int>)
    requires FullWeek(week) && |weekly| == 7
    requires forall day :: 1 <= day <= 7 ==> EncodeDay(week[day]) == Some(weekly[day - 1])
    ensures AlreadyCorrect(weekly, readDefault, week)
            <==> (forall day :: day in week ==> CanonicalEntries(week[day]) && (readDefault.None? || week[day] != []))
  {
    SameDays(week, weekly);
    Compared(weekly, readDefault, week);
  }

  lemma {:induction false} Compared(weekly: seq<seq<TimeValue>>, readDefault: Option<int>, week: Week)
    requires FullWeek(week) && |weekly| == 7
    requires forall day :: day in week ==> |weekly[day - 1]| == |week[day]|
    ensures AlreadyCorrect(weekly, readDefault, week)
            <==> forall day :: day in week ==> DecodeWeek(weekly)[day] == week[day] && (readDefault.None? || week[day] != [])
  {
    var decoded := DecodeWeek(weekly);
    var current := NormaliseWeek(decoded, readDefault);
    assert (map day | day in DayNumbers(7) :: week[day]) == week;
    SameMaps(current, week);
  }

  // ------------------------------------------------------- validated weeks

  /** Every day is as the validator leaves it. */
  ghost predicate ValidatedWeek(week: Week) {
    FullWeek(week) && forall day :: day in week ==> exists es :: CanonicalDay(week[day], es)
  }

  lemma {:induction false} ValidatedEntry(day: Day, es: seq<Entry>, i: nat)
    requires CanonicalDay(day, es) && i < |day|
    ensures Canonical(day[i])
  {
    assert day[i] == Written(es[i]);
  }

  lemma {:induction false} CanonicalDayEncodes(day: Day)
    requires CanonicalEntries(day)
    ensures EncodeDay(day).Some? && WholeMinutes(EncodeDay(day).value)
  {
    if day != [] {
      CanonicalDayEncodes(day[..|day| - 1]);
      CanonicalEncodes(day[|day| - 1]);
    }
  }

  lemma {:induction false} CanonicalDaysEncode(days: seq<Day>)
    requires forall i :: 0 <= i < |days| ==> CanonicalEntries(days[i])
    ensures EncodeDays(days).Some?
  {
    if days != [] {
      CanonicalDaysEncode(days[..|days| - 1]);
      CanonicalDayEncodes(days[|days| - 1]);
    }
  }

  // -------------------------------------------------------- weeks that settle

  /** Every day is in the validator's form and says something. */
  ghost predicate Settles(week: Week) {
    forall day :: day in week ==> CanonicalEntries(week[day]) && week[day] != []
  }

  /** Days as the API stores them. */
  ghost predicate AcceptedDays(days: Week) {
    forall day :: day in days ==> exists es :: CanonicalDay(days[day], es)
  }

  lemma {:induction false} MidnightText()
    ensures HhMm(0, 0) == "00:00"
  {
    assert Dec(0, 1) == Dec(0, 0) + ['0'];
  }

  lemma {:induction false} ClosedDayIsCanonical()
    ensures CanonicalDay(CLOSED_DAY, [Entry(0, UNOCCUPIED)])
  {
    MidnightText();
    assert Write([Entry(0, UNOCCUPIED)]) == CLOSED_DAY;
  }

  /** Accepted group and override days resolve to a validated week, the days neither has included, and it settles. */
  lemma {:induction false} AcceptedWeekSettles(groupWeek: Week, overrides: Week)
    requires AcceptedDays(groupWeek) && AcceptedDays(overrides)
    ensures ValidatedWeek(ResolveWeek(groupWeek, overrides)) && Settles(ResolveWeek(groupWeek, overrides))
  {
    var week := ResolveWeek(groupWeek, overrides);
    ClosedDayIsCanonical();
    forall day | day in week ensures exists es :: CanonicalDay(week[day], es) {
    }
    forall day | day in week ensures CanonicalEntries(week[day]) && week[day] != [] {
      var es :| CanonicalDay(week[day], es);
      CanonicalDayIsCanonical(week[day], es);
    }
  }

  /** A BACnet time has four octets. */
  predicate Octets(tv: TimeValue) {
    tv.hour < 256 && tv.minute < 256
  }

  ghost predicate AllOctets(weekly: seq<seq<TimeValue>>) {
    forall k, i :: 0 <= k < |weekly| && 0 <= i < |weekly[k]| ==> Octets(weekly[k][i])
  }

  lemma {:induction false} PaddedParses(n: nat)
    requires n < 256
    ensures ParseInt(Pad2(n)) == Some(n) && ':' !in Pad2(n)
  {
    assert Pow10(3) == 10 * Pow10(2) == 100 * Pow10(1) == 1000 * Pow10(0);
    if n < 100 {
      TwoDigits(n);
    } else {
      ParseDec(n, 3);
      ParseIntDec(n, 3);
    }
  }

  lemma {:induction false} PairParses(a: string, b: string, m: nat, n: nat)
    requires ParseInt(a) == Some(m) && ParseInt(b) == Some(n) && ':' !in a && ':' !in b
    ensures ParseAll(Split(a + ":" + b, ':')) == Some([m as int, n as int])
  {
    SplitFirst(a, ':', b);
    SplitNone(b, ':');
    assert a + ":" + b == a + [':'] + b;
    assert Split(a + ":" + b, ':') == [a, b];
    assert [a, b][1..] == [b] && [b][1..] == [];
    assert ParseAll([]) == Some([]);
    assert ParseAll([b]) == Some([n as int] + []);
    assert ParseAll([a, b]) == Some([m as int] + ([n as int] + []));
    assert [m as int] + ([n as int] + []) == [m as int, n as int];
  }

  /** What a device holds reads back as a time only if it is one. */
  lemma {:induction false} ReadsAsTime(tv: TimeValue)
    requires Octets(tv) && ParseTime(DecodeOne(tv).time).Some?
    ensures tv.hour < 24 && tv.minute < 60
  {
    PaddedParses(tv.hour);
    PaddedParses(tv.minute);
    PairParses(Pad2(tv.hour), Pad2(tv.minute), tv.hour, tv.minute);
  }

  lemma {:induction false} DecodedIsCanonical(tv: TimeValue)
    requires Octets(tv) && EncodeOne(DecodeOne(tv)).Some?
    ensures Canonical(DecodeOne(tv))
  {
    ReadsAsTime(tv);
    DecodedTime(tv);
    var e := Entry(60 * tv.hour + tv.minute, tv.value);
    MinuteParts(Clock(tv.hour, tv.minute, 0));
    assert DecodeOne(tv) == Written(e);
  }

  lemma {:induction false} MidnightIsCanonical(v: int)
    requires v >= 0
    ensures Canonical(Transition("00:00", v))
  {
    MidnightText();
    assert Transition("00:00", v) == Written(Entry(0, v));
  }

  /** Only a week that settles ever compares as correct under a default that was read, whatever the device holds. */
  lemma {:induction false} CorrectSettles(weekly: seq<seq<TimeValue>>, v: int, week: Week)
    requires FullWeek(week) && WeekToBacnet(week).Some? && AllOctets(weekly)
    requires AlreadyCorrect(weekly, Some(v), week)
    ensures Settles(week)
  {
    EncodedWeek(week);
    forall day | day in week ensures CanonicalEntries(week[day]) && week[day] != [] {
      ComparedDay(weekly, Some(v), week, day);
      CorrectDaySettles(weekly[day - 1], v, week[day]);
    }
  }

  lemma {:induction false} CorrectDaySettles(tvs: seq<TimeValue>, v: int, day: Day)
    requires day == NormaliseWeek(map[1 := DecodeDay(tvs)], Some(v))[1] && EncodeDay(day).Some?
    requires forall i :: 0 <= i < |tvs| ==> Octets(tvs[i])
    ensures CanonicalEntries(day) && day != []
  {
    EncodeDayAt(day);
    forall i | 0 <= i < |day| ensures Canonical(day[i]) {
      assert EncodeOne(day[i]).Some?;
      if tvs == [] {
        MidnightIsCanonical(v);
      } else {
        DecodedIsCanonical(tvs[i]);
      }
    }
  }

  /** What is written holds octets, so an unsettled week stays unsettled on the device too. */
  lemma {:induction false} EncodedOctets(week: Week)
    requires FullWeek(week) && WeekToBacnet(week).Some?
    ensures AllOctets(WeekToBacnet(week).value)
  {
    EncodedWeek(week);
    var weekly := WeekToBacnet(week).value;
    forall k, i | 0 <= k < |weekly| && 0 <= i < |weekly[k]| ensures Octets(weekly[k][i]) {
      EncodeDayAt(week[k + 1]);
      EncodedInRange(week[k + 1][i], weekly[k][i]);
    }
  }

  lemma {:induction false} EncodedInRange(t: Transition, tv: TimeValue)
    requires EncodeOne(t) == Some(tv)
    ensures InRange(tv)
  {
  }

  /** An empty Sunday: written as it is, and never found correct once the default has been read. */
  lemma {:induction false} EmptyDayDoesNotSettle()
    ensures var week := ResolveWeek(map[7 := []], map[]);
            && WeekToBacnet(week).Some? && !Settles(week)
            && !AlreadyCorrect(WeekToBacnet(week).value, Some(UNOCCUPIED), week)
  {
    var week := ResolveWeek(map[7 := []], map[]);
    assert week[7] == [];
    ClosedDayIsCanonical();
    CanonicalDayIsCanonical(CLOSED_DAY, [Entry(0, UNOCCUPIED)]);
    forall i | 0 <= i < 7 ensures CanonicalEntries(SevenDays(week)[i]) {
      assert SevenDays(week)[i] == week[i + 1];
    }
    CanonicalDaysEncode(SevenDays(week));
    WrittenIsCorrect(week, Some(UNOCCUPIED));
  }

  /** A week the API accepted can always be written, survives the round trip, and once written is never rewritten. */
  lemma {:induction false} ValidatedWeekConverges(week: Week, readDefault: Option<int>)
    requires ValidatedWeek(week)
    ensures WeekToBacnet(week).Some?
    ensures DecodeWeek(WeekToBacnet(week).value) == week
    ensures AlreadyCorrect(WeekToBacnet(week).value, readDefault, week)
  {
    forall day | day in week ensures CanonicalEntries(week[day]) && week[day] != [] {
      var es :| CanonicalDay(week[day], es);
      CanonicalDayIsCanonical(week[day], es);
    }
    forall i | 0 <= i < 7 ensures CanonicalEntries(SevenDays(week)[i]) {
      assert SevenDays(week)[i] == week[i + 1];
    }
    CanonicalDaysEncode(SevenDays(week));
    RoundTrip(week);
    WrittenIsCorrect(week, readDefault);
  }
}
