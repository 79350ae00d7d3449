/** A day's transitions, checked and put in order (bms/schedules.py, parse_time and validate_transitions). */
module Transitions {
  import opened Prelude
  import opened TextOrder
  import opened DayEntries

  const OCCUPIED := 0
  const UNOCCUPIED := 1
  const STANDBY := 3

  /** A time of day. */
  datatype ClockFace = Clock(hour: nat, minute: nat, second: nat)
  type Clock = c: ClockFace | c.hour < 24 && c.minute < 60 && c.second < 60 witness Clock(0, 0, 0)

  /** A stored transition, `{"time": "HH:MM", "state": 0 | 1 | 3}`. */
  datatype Transition = Transition(time: string, state: int)

  /** A transition as a caller sends it: either key may be missing, and `int()` may refuse the state. */
  datatype StateField = Absent | Unconvertible | Number(n: int)
  datatype RawTransition = RawTransition(time: Option<string>, state: StateField)

  datatype Error = Empty | MissingField | BadTime | Duplicate | BadState | TooMany

  // -------------------------------------------------------------- parse_time

  /** `[int(p) for p in parts]`, or nothing if one of them is refused. */
  function ParseAll(parts: seq<string>): Option<seq<int>> {
    if parts == [] then Some([])
    else match (ParseInt(parts[0]), ParseAll(parts[1..]))
         case (Some(n), Some(rest)) => Some([n] + rest)
         case _ => None
  }

  function ParseTime(text: string): Option<Clock> {
    match ParseAll(Split(text, ':'))
    case None => None
    case Some(parts) =>
      var p := parts + [0, 0];
      if |parts| >= 1 && 0 <= p[0] <= 23 && 0 <= p[1] <= 59 && 0 <= p[2] <= 59
      then Some(Clock(p[0], p[1], p[2]))
      else None
  }

  /** `f"{hour:02d}:{minute:02d}"`. */
  function HhMm(hour: nat, minute: nat): string {
    Dec(hour, 2) + ":" + Dec(minute, 2)
  }

  lemma {:induction false} TwoDigits(n: nat)
    requires n < 100
    ensures ParseInt(Dec(n, 2)) == Some(n) && ':' !in Dec(n, 2) && n < Pow10(2)
  {
    assert Pow10(2) == 10 * Pow10(1) == 100 * Pow10(0);
    ParseDec(n, 2);
    ParseIntDec(n, 2);
  }

  /** What is written is what is read, and a time that is none of the day is refused. */
  lemma {:induction false} ParseHhMm(hour: nat, minute: nat)
    requires hour < 100 && minute < 100
    ensures ParseTime(HhMm(hour, minute)) == if hour < 24 && minute < 60 then Some(Clock(hour, minute, 0)) else None
  {
    var h, m := Dec(hour, 2), Dec(minute, 2);
    TwoDigits(hour);
    TwoDigits(minute);
    SplitFirst(h, ':', m);
    SplitNone(m, ':');
    assert Split(HhMm(hour, minute), ':') == [h, m];
    assert [h, m][1..] == [m] && [m][1..] == [];
    assert ParseAll([]) == Some([]);
    assert ParseAll([m]) == Some([minute as int] + []);
    assert ParseAll([h, m]) == Some([hour as int] + ([minute as int] + []));
  }

  /** An hour alone is on the hour. */
  lemma {:induction false} ParseHour(hour: nat)
    requires hour < 100
    ensures ParseTime(Dec(hour, 2)) == if hour < 24 then Some(Clock(hour, 0, 0)) else None
  {
    TwoDigits(hour);
    SplitNone(Dec(hour, 2), ':');
    assert [Dec(hour, 2)][1..] == [] && ParseAll([]) == Some([]);
    assert ParseAll([Dec(hour, 2)]) == Some([hour as int] + []);
  }

  /** So it is with seconds. */
  lemma {:induction false} ParseHhMmSs(hour: nat, minute: nat, second: nat)
    requires hour < 100 && minute < 100 && second < 100
    ensures ParseTime(HhMm(hour, minute) + ":" + Dec(second, 2))
            == if hour < 24 && minute < 60 && second < 60 then Some(Clock(hour, minute, second)) else None
  {
    var h, m, s := Dec(hour, 2), Dec(minute, 2), Dec(second, 2);
    TwoDigits(hour);
    TwoDigits(minute);
    TwoDigits(second);
    SplitThree(h, m, s);
    ParseThree(h, m, s, hour, minute, second);
  }

  lemma {:induction false} SplitThree(h: string, m: string, s: string)
    requires ':' !in h && ':' !in m && ':' !in s
    ensures Split(h + ":" + m + ":" + s, ':') == [h, m, s]
  {
    assert h + ":" + m + ":" + s == h + ":" + (m + ":" + s);
    SplitFirst(h, ':', m + ":" + s);
    SplitFirst(m, ':', s);
    SplitNone(s, ':');
  }

  lemma {:induction false} ParseThree(h: string, m: string, s: string, hour: int, minute: int, second: int)
    requires ParseInt(h) == Some(hour) && ParseInt(m) == Some(minute) && ParseInt(s) == Some(second)
    ensures ParseAll([h, m, s]) == Some([hour, minute, second])
  {
    assert [h, m, s][1..] == [m, s] && [m, s][1..] == [s] && [s][1..] == [];
    assert ParseAll([]) == Some([]);
    assert ParseAll([s]) == Some([second] + []);
    assert ParseAll([m, s]) == Some([minute] + ([second] + []));
    assert ParseAll([h, m, s]) == Some([hour] + ([minute] + ([second] + [])));
    assert [hour] + ([minute] + ([second] + [])) == [hour, minute, second];
  }

  /** String order on HH:MM is time order. */
  lemma {:induction false} HhMmOrder(h1: nat, m1: nat, h2: nat, m2: nat)
    requires h1 < 24 && m1 < 60 && h2 < 24 && m2 < 60
    ensures Less(HhMm(h1, m1), HhMm(h2, m2)) <==> 60 * h1 + m1 < 60 * h2 + m2
    ensures HhMm(h1, m1) == HhMm(h2, m2) <==> 60 * h1 + m1 == 60 * h2 + m2
  {
    TwoDigits(h1);
    TwoDigits(h2);
    DecOrder(h1, h2, 2);
    TwoDigits(m1);
    TwoDigits(m2);
    DecOrder(m1, m2, 2);
    AroundColon(Dec(h1, 2), Dec(m1, 2), Dec(h2, 2), Dec(m2, 2));
  }

  lemma {:induction false} AroundColon(a: string, b: string, c: string, d: string)
    requires |a| == |c|
    ensures Less(a + ":" + b, c + ":" + d) <==> Less(a, c) || (a == c && Less(b, d))
    ensures a + ":" + b == c + ":" + d <==> a == c && b == d
  {
    LessIrreflexive(":");
    LessConcat(":", b, ":", d);
    LessConcat(a, ":" + b, c, ":" + d);
    var s, t := a + ":" + b, c + ":" + d;
    assert s == a + (":" + b) && t == c + (":" + d);
    assert s[..|a|] == a && t[..|c|] == c && s[|a| + 1..] == b && t[|c| + 1..] == d;
  }

  // ------------------------------------------------------------ written days

  predicate ValidState(state: int) {
    state == OCCUPIED || state == UNOCCUPIED || state == STANDBY
  }

  predicate ValidEntry(e: Entry) {
    e.minute < 1440 && ValidState(e.state)
  }

  ghost predicate AllValid(es: seq<Entry>) {
    forall i :: 0 <= i < |es| ==> ValidEntry(es[i])
  }

  /** The stored form of an entry. */
  function Written(e: Entry): Transition {
    Transition(HhMm(e.minute / 60, e.minute % 60), e.state)
  }

  function Write(es: seq<Entry>): (ts: seq<Transition>)
    ensures |ts| == |es| && forall i :: 0 <= i < |es| ==> ts[i] == Written(es[i])
  {
    seq(|es|, i requires 0 <= i < |es| => Written(es[i]))
  }

  lemma {:induction false} WrittenOrder(a: Entry, b: Entry)
    requires a.minute < 1440 && b.minute < 1440
    ensures Less(Written(a).time, Written(b).time) <==> a.minute < b.minute
    ensures Written(a) == Written(b) <==> a == b
  {
    HhMmOrder(a.minute / 60, a.minute % 60, b.minute / 60, b.minute % 60);
  }

  lemma {:induction false} WriteInjective(a: seq<Entry>, b: seq<Entry>)
    requires AllValid(a) && AllValid(b) && Write(a) == Write(b)
    ensures a == b
  {
    forall i | 0 <= i < |a| ensures a[i] == b[i] {
      assert Write(a)[i] == Write(b)[i];
      WrittenOrder(a[i], b[i]);
    }
  }

  // -------------------------------------------------------------------- sort

  /** `sort(key=time)` compares strings, and is stable. */
  function InsertByTime(t: Transition, ts: seq<Transition>): seq<Transition> {
    if ts == [] || !Less(t.time, ts[|ts| - 1].time) then ts + [t]
    else InsertByTime(t, ts[..|ts| - 1]) + [ts[|ts| - 1]]
  }

  function SortByTime(ts: seq<Transition>): seq<Transition> {
    if ts == [] then [] else InsertByTime(ts[|ts| - 1], SortByTime(ts[..|ts| - 1]))
  }

  lemma {:induction false} InsertWritten(e: Entry, es: seq<Entry>)
    requires ValidEntry(e) && AllValid(es)
    ensures InsertByTime(Written(e), Write(es)) == Write(Insert(e, es))
  {
    if es != [] {
      var n := |es| - 1;
      var front := es[..n];
      assert es == front + [es[n]];
      WrittenOrder(e, es[n]);
      InsertWritten(e, front);
      WriteAppend(front, es[n]);
      WriteAppend(Insert(e, front), es[n]);
      WriteAppend(es, e);
      InsertLast(Written(e), Write(front), Written(es[n]));
    }
  }

  lemma {:induction false} InsertLast(t: Transition, front: seq<Transition>, last: Transition)
    ensures InsertByTime(t, front + [last])
            == if !Less(t.time, last.time) then front + [last] + [t] else InsertByTime(t, front) + [last]
  {
    assert (front + [last])[..|front|] == front;
  }

  lemma {:induction false} WriteAppend(es: seq<Entry>, e: Entry)
    ensures Write(es + [e]) == Write(es) + [Written(e)]
  {
  }

  /** Sorting the written forms as strings is sorting the entries as numbers. */
  lemma {:induction false} SortWritten(es: seq<Entry>)
    requires AllValid(es)
    ensures SortByTime(Write(es)) == Write(Sort(es))
    ensures AllValid(Sort(es))
  {
    if es != [] {
      var front := es[..|es| - 1];
      SortWritten(front);
      assert Write(es)[..|es| - 1] == Write(front);
      InsertWritten(es[|es| - 1], Sort(front));
      InsertMembers(es[|es| - 1], Sort(front));
      forall i | 0 <= i < |Sort(es)| ensures ValidEntry(Sort(es)[i]) {
        assert Sort(es)[i] in Sort(es);
      }
    }
  }

  // -------------------------------------------------------------- validation

  /** A transition with its time parsed. */
  datatype TimeField = NoTime | BadClock | At(clock: Clock)
  datatype Parsed = Parsed(time: TimeField, state: StateField)

  function Parse(t: RawTransition): Parsed {
    Parsed(match t.time
           case None => NoTime
           case Some(text) => (match ParseTime(text) case None => BadClock case Some(c) => At(c)),
           t.state)
  }

  function ParseEach(ts: seq<RawTransition>): (ps: seq<Parsed>)
    ensures |ps| == |ts| && forall i :: 0 <= i < |ts| ==> ps[i] == Parse(ts[i])
  {
    seq(|ts|, i requires 0 <= i < |ts| => Parse(ts[i]))
  }

  /** A transition every check of which passes, whatever its neighbours. */
  predicate Acceptable(p: Parsed) {
    p.time.At? && p.state.Number? && p.state.n in {0, 1, 3}
  }

  function Minute(c: Clock): (m: nat)
    ensures m < 1440
  {
    60 * c.hour + c.minute
  }

  /** What an acceptable transition says; seconds are dropped. */
  function Entered(p: Parsed): (e: Entry)
    requires Acceptable(p)
    ensures ValidEntry(e)
  {
    Entry(Minute(p.time.clock), p.state.n)
  }

  /** Why the loop stops at `p`, the minutes of `earlier` being taken; nothing if it goes on. */
  function Refusal(p: Parsed, earlier: seq<Entry>): Option<Error> {
    if p.time.NoTime? || p.state.Absent? then Some(MissingField)
    else if p.time.BadClock? then Some(BadTime)
    else if Minute(p.time.clock) in Minutes(earlier) then Some(Duplicate)
    else if p.state.Unconvertible? || !ValidState(p.state.n) then Some(BadState)
    else None
  }

  /** The entries the loop collected, or what stopped it. */
  function Scan(ps: seq<Parsed>): Result<seq<Entry>, Error> {
    if ps == [] then Success([])
    else
      match Scan(ps[..|ps| - 1])
      case Failure(e) => Failure(e)
      case Success(es) =>
        match Refusal(ps[|ps| - 1], es)
        case Some(e) => Failure(e)
        case None => Success(es + [Entered(ps[|ps| - 1])])
  }

  function Finish(ps: seq<Parsed>): Result<seq<Transition>, Error> {
    if ps == [] then Failure(Empty)
    else
      match Scan(ps)
      case Failure(e) => Failure(e)
      case Success(es) => if |es| > 8 then Failure(TooMany) else Success(Write(Sort(es)))
  }

  function Validate(ts: seq<RawTransition>): Result<seq<Transition>, Error> {
    Finish(ParseEach(ts))
  }

  // ------------------------------------------------- what validation achieves

  ghost predicate AllAcceptable(ps: seq<Parsed>) {
    forall i :: 0 <= i < |ps| ==> Acceptable(ps[i])
  }

  /** The entries of an acceptable list, in the caller's order. */
  ghost function Entries(ps: seq<Parsed>): (es: seq<Entry>)
    requires AllAcceptable(ps)
    ensures |es| == |ps| && forall i :: 0 <= i < |ps| ==> es[i] == Entered(ps[i])
  {
    seq(|ps|, i requires 0 <= i < |ps| => Entered(ps[i]))
  }

  /** 1 to 8 acceptable transitions at distinct minutes. */
  ghost predicate WellFormed(ps: seq<Parsed>) {
    1 <= |ps| <= 8 && AllAcceptable(ps) && Distinct(Entries(ps))
  }

  /** What the caller's list says: at which minutes the state changes, and to what. */
  ghost function Denote(ps: seq<Parsed>): map<nat, int>
    requires AllAcceptable(ps)
  {
    Meaning(Entries(ps))
  }

  lemma {:induction false} EntriesAppend(front: seq<Parsed>, p: Parsed)
    ensures AllAcceptable(front + [p]) <==> AllAcceptable(front) && Acceptable(p)
    ensures AllAcceptable(front + [p]) ==> Entries(front + [p]) == Entries(front) + [Entered(p)]
  {
    if AllAcceptable(front + [p]) {
      assert forall i :: 0 <= i < |front| ==> front[i] == (front + [p])[i];
      assert p == (front + [p])[|front|];
    }
  }

  lemma {:induction false} RefusalExact(p: Parsed, earlier: seq<Entry>)
    ensures Refusal(p, earlier).None? <==> Acceptable(p) && Entered(p).minute !in Minutes(earlier)
  {
  }

  lemma {:induction false} ScanStep(ps: seq<Parsed>)
    requires ps != []
    ensures var before, p := Scan(ps[..|ps| - 1]), ps[|ps| - 1];
            && (Scan(ps).Success? <==> before.Success? && Refusal(p, before.value).None?)
            && (Scan(ps).Success? ==> Scan(ps).value == before.value + [Entered(p)])
  {
  }

  /** The loop goes on exactly while everything so far is acceptable and no minute repeats. */
  lemma {:induction false} ScanExact(ps: seq<Parsed>)
    ensures Scan(ps).Success? <==> AllAcceptable(ps) && Distinct(Entries(ps))
    ensures Scan(ps).Success? ==> Scan(ps).value == Entries(ps) && AllValid(Scan(ps).value)
  {
    if ps != [] {
      var front, p := ps[..|ps| - 1], ps[|ps| - 1];
      assert ps == front + [p];
      ScanExact(front);
      ScanStep(ps);
      EntriesAppend(front, p);
      if Scan(front).Success? {
        RefusalExact(p, Entries(front));
      }
      if AllAcceptable(front) && Acceptable(p) {
        AppendDistinct(Entries(front), Entered(p));
      }
    }
  }

  /** A day as the validator leaves it: written, strictly increasing, 1 to 8 entries. */
  ghost predicate CanonicalDay(day: seq<Transition>, es: seq<Entry>) {
    1 <= |es| <= 8 && day == Write(es) && AllValid(es) && Increasing(es)
  }

  /**
  Validation succeeds exactly on 1 to 8 acceptable transitions at distinct
  minutes; its output is in canonical form and says what the input says.
  */
  lemma {:induction false} ValidateExact(ts: seq<RawTransition>)
    ensures Validate(ts).Success? <==> WellFormed(ParseEach(ts))
    ensures Validate(ts).Success? ==>
              var es := Sort(Entries(ParseEach(ts)));
              CanonicalDay(Validate(ts).value, es) && Meaning(es) == Denote(ParseEach(ts))
  {
    ScanExact(ParseEach(ts));
    if Scan(ParseEach(ts)).Success? {
      SortKeeps(Entries(ParseEach(ts)));
      SortWritten(Entries(ParseEach(ts)));
    }
  }

  // ------------------------------------------------------------ and why not

  ghost predicate FineUpTo(ps: seq<Parsed>, k: nat)
    requires k <= |ps|
  {
    AllAcceptable(ps[..k]) && Distinct(Entries(ps[..k]))
  }

  /** All before the `k`-th is fine, and this is what is wrong with it: the first of the checks, in their order, that fails. */
  ghost predicate FaultAt(ps: seq<Parsed>, k: int, e: Error) {
    && 0 <= k < |ps| && FineUpTo(ps, k)
    && var p := ps[k];
       match e
       case MissingField => p.time.NoTime? || p.state.Absent?
       case BadTime => p.time.BadClock? && !p.state.Absent?
       case Duplicate => p.time.At? && !p.state.Absent? && TakenBefore(ps, k)
       case BadState => p.time.At? && !TakenBefore(ps, k) && (p.state.Unconvertible? || (p.state.Number? && p.state.n !in {0, 1, 3}))
       case _ => false
  }

  /** An earlier transition has the same hour and minute. */
  ghost predicate TakenBefore(ps: seq<Parsed>, k: nat)
    requires k < |ps| && ps[k].time.At?
  {
    exists i :: 0 <= i < k && ps[i].time.At? && Minute(ps[i].time.clock) == Minute(ps[k].time.clock)
  }

  lemma {:induction false} TakenExactly(ps: seq<Parsed>, k: nat)
    requires k < |ps| && ps[k].time.At? && AllAcceptable(ps[..k])
    ensures TakenBefore(ps, k) <==> Minute(ps[k].time.clock) in Minutes(Entries(ps[..k]))
  {
    var front := ps[..k];
    MinutesAre(Entries(front), Minute(ps[k].time.clock));
    assert forall i :: 0 <= i < k ==> Entries(front)[i] == Entered(front[i]) && front[i] == ps[i];
    if TakenBefore(ps, k) {
      var i :| 0 <= i < k && ps[i].time.At? && Minute(ps[i].time.clock) == Minute(ps[k].time.clock);
      assert Entries(front)[i].minute == Minute(ps[k].time.clock);
    }
  }

  lemma {:induction false} FaultIsRefusal(ps: seq<Parsed>, e: Error)
    requires ps != [] && FineUpTo(ps, |ps| - 1)
    ensures FaultAt(ps, |ps| - 1, e) <==> Refusal(ps[|ps| - 1], Entries(ps[..|ps| - 1])) == Some(e)
  {
    if ps[|ps| - 1].time.At? {
      TakenExactly(ps, |ps| - 1);
    }
  }

  lemma {:induction false} FaultInFront(ps: seq<Parsed>, k: int, e: Error)
    requires ps != [] && k < |ps| - 1
    ensures FaultAt(ps, k, e) <==> FaultAt(ps[..|ps| - 1], k, e)
  {
    var front := ps[..|ps| - 1];
    if 0 <= k {
      assert front[..k] == ps[..k] && front[k] == ps[k];
      if ps[k].time.At? {
        assert TakenBefore(ps, k) <==> TakenBefore(front, k) by {
          assert forall i :: 0 <= i < k ==> front[i] == ps[i];
        }
      }
    }
  }

  lemma {:induction false} ScanFault(ps: seq<Parsed>, e: Error)
    ensures Scan(ps) == Failure(e) <==> exists k :: FaultAt(ps, k, e)
  {
    if ps != [] {
      var n := |ps| - 1;
      ScanFault(ps[..n], e);
      ScanExact(ps[..n]);
      if FineUpTo(ps, n) {
        FaultIsRefusal(ps, e);
      }
      forall k | k < n ensures FaultAt(ps, k, e) <==> FaultAt(ps[..n], k, e) {
        FaultInFront(ps, k, e);
      }
      if k :| FaultAt(ps[..n], k, e) {
        assert FaultAt(ps, k, e);
      }
    }
  }

  /** Why a list is refused: it is empty, something is wrong with a transition, or all are fine and there are more than eight. */
  lemma {:induction false} RefusedExactly(ts: seq<RawTransition>, e: Error)
    ensures var ps := ParseEach(ts);
            Validate(ts) == Failure(e)
            <==> (e == Empty && ts == []) || (e == TooMany && |ts| > 8 && FineUpTo(ps, |ps|)) || exists k :: FaultAt(ps, k, e)
  {
    var ps := ParseEach(ts);
    assert ps[..|ps|] == ps;
    ScanFault(ps, e);
    ScanExact(ps);
  }

  /** What a stored day says: at which minutes the state changes, and to what. */
  function Says(day: seq<Transition>): map<nat, int> {
    if day == [] then map[]
    else
      var before, t := Says(day[..|day| - 1]), day[|day| - 1];
      match ParseTime(t.time)
      case None => before
      case Some(c) => before[Minute(c) := t.state]
  }

  lemma {:induction false} SaysLast(day: seq<Transition>, c: Clock)
    requires day != [] && ParseTime(day[|day| - 1].time) == Some(c)
    ensures Says(day) == Says(day[..|day| - 1])[Minute(c) := day[|day| - 1].state]
  {
  }

  lemma {:induction false} WrittenMinute(e: Entry)
    requires e.minute < 1440
    ensures ParseTime(Written(e).time) == Some(Clock(e.minute / 60, e.minute % 60, 0))
    ensures Minute(Clock(e.minute / 60, e.minute % 60, 0)) == e.minute
  {
    ParseHhMm(e.minute / 60, e.minute % 60);
  }

  lemma {:induction false} SaysWritten(es: seq<Entry>)
    requires AllValid(es)
    ensures Says(Write(es)) == Meaning(es)
  {
    if es != [] {
      var n := |es| - 1;
      SaysWritten(es[..n]);
      assert Write(es)[..n] == Write(es[..n]);
      assert ValidEntry(es[n]);
      WrittenMinute(es[n]);
      SaysLast(Write(es), Clock(es[n].minute / 60, es[n].minute % 60, 0));
    }
  }

  /** What is stored for an accepted list says what the caller said. */
  lemma {:induction false} StoredAsSaid(ts: seq<RawTransition>)
    requires Validate(ts).Success?
    ensures AllAcceptable(ParseEach(ts)) && Says(Validate(ts).value) == Denote(ParseEach(ts))
  {
    ValidateExact(ts);
    SaysWritten(Sort(Entries(ParseEach(ts))));
  }

  /** Two accepted inputs get the same output exactly when they mean the same. */
  lemma {:induction false} CanonicalForm(a: seq<RawTransition>, b: seq<RawTransition>)
    requires WellFormed(ParseEach(a)) && WellFormed(ParseEach(b))
    ensures Validate(a) == Validate(b) <==> Denote(ParseEach(a)) == Denote(ParseEach(b))
  {
    ValidateExact(a);
    ValidateExact(b);
    var x, y := Sort(Entries(ParseEach(a))), Sort(Entries(ParseEach(b)));
    if Meaning(x) == Meaning(y) {
      MeaningDetermines(x, y);
    } else if Write(x) == Write(y) {
      WriteInjective(x, y);
    }
  }

  /** A stored day, sent back as input. */
  function AsInput(ts: seq<Transition>): (r: seq<RawTransition>)
    ensures |r| == |ts| && forall i :: 0 <= i < |ts| ==> r[i] == RawTransition(Some(ts[i].time), Number(ts[i].state))
  {
    seq(|ts|, i requires 0 <= i < |ts| => RawTransition(Some(ts[i].time), Number(ts[i].state)))
  }

  lemma {:induction false} WrittenParses(e: Entry)
    requires ValidEntry(e)
    ensures Parse(RawTransition(Some(Written(e).time), Number(e.state)))
            == Parsed(At(Clock(e.minute / 60, e.minute % 60, 0)), Number(e.state))
  {
    ParseHhMm(e.minute / 60, e.minute % 60);
  }

  /** A canonical day is accepted, and comes back as it is. */
  lemma {:induction false} CanonicalIsFixed(day: seq<Transition>, es: seq<Entry>)
    requires CanonicalDay(day, es)
    ensures Validate(AsInput(day)) == Success(day)
  {
    var ps := ParseEach(AsInput(day));
    forall i | 0 <= i < |ps| ensures Acceptable(ps[i]) && Entered(ps[i]) == es[i] {
      WrittenParses(es[i]);
    }
    assert Entries(ps) == es;
    ValidateExact(AsInput(day));
    SortKeeps(es);
    MeaningDetermines(Sort(es), es);
  }

  /** Validating again changes nothing. */
  lemma {:induction false} Idempotent(ts: seq<RawTransition>)
    requires Validate(ts).Success?
    ensures Validate(AsInput(Validate(ts).value)) == Validate(ts)
  {
    ValidateExact(ts);
    CanonicalIsFixed(Validate(ts).value, Sort(Entries(ParseEach(ts))));
  }

  lemma {:induction false} SameElements<T>(a: seq<T>, b: seq<T>)
    requires multiset(a) == multiset(b)
    ensures |a| == |b| && forall x :: x in a <==> x in b
  {
    assert |multiset(a)| == |a| && |multiset(b)| == |b|;
    assert forall x :: x in a <==> x in multiset(a);
    assert forall x :: x in b <==> x in multiset(b);
  }

  /** Every transition of `a`, as parsed, is one of `b`'s. */
  lemma {:induction false} Covered(a: seq<RawTransition>, b: seq<RawTransition>)
    requires forall x :: x in a ==> x in b
    ensures forall p :: p in ParseEach(a) ==> p in ParseEach(b)
  {
    forall p | p in ParseEach(a) ensures p in ParseEach(b) {
      var i :| 0 <= i < |a| && ParseEach(a)[i] == p;
      assert a[i] in b;
      var j :| 0 <= j < |b| && b[j] == a[i];
      assert ParseEach(b)[j] == p;
    }
  }

  lemma {:induction false} EntriesCovered(a: seq<Parsed>, b: seq<Parsed>)
    requires AllAcceptable(a) && AllAcceptable(b) && forall p :: p in a ==> p in b
    ensures forall e :: e in Entries(a) ==> e in Entries(b)
  {
    forall e | e in Entries(a) ensures e in Entries(b) {
      var i :| 0 <= i < |a| && Entries(a)[i] == e;
      assert a[i] in b;
      var j :| 0 <= j < |b| && b[j] == a[i];
      assert Entries(b)[j] == e;
    }
  }

  lemma {:induction false} PermutedIsWellFormed(a: seq<Parsed>, b: seq<Parsed>)
    requires |a| == |b| && (forall p :: p in a <==> p in b) && WellFormed(a)
    ensures WellFormed(b) && Denote(b) == Denote(a)
  {
    forall i | 0 <= i < |b| ensures Acceptable(b[i]) {
      assert b[i] in a;
    }
    EntriesCovered(a, b);
    EntriesCovered(b, a);
    Permuted(Entries(a), Entries(b));
  }

  /** The order in which the transitions are sent does not matter. */
  lemma {:induction false} OrderIndependent(a: seq<RawTransition>, b: seq<RawTransition>)
    requires multiset(a) == multiset(b)
    ensures Validate(a).Success? <==> Validate(b).Success?
    ensures Validate(a).Success? ==> Validate(a) == Validate(b)
  {
    SameElements(a, b);
    Covered(a, b);
    Covered(b, a);
    ValidateExact(a);
    ValidateExact(b);
    if WellFormed(ParseEach(a)) {
      PermutedIsWellFormed(ParseEach(a), ParseEach(b));
      CanonicalForm(a, b);
    } else if WellFormed(ParseEach(b)) {
      PermutedIsWellFormed(ParseEach(b), ParseEach(a));
    }
  }

  // -------------------------------------------------------------- the loop

  /** Once the loop has stopped, later transitions do not change why. */
  lemma {:induction false} StopsHere(ps: seq<Parsed>, n: nat)
    requires n <= |ps| && Scan(ps[..n]).Failure?
    ensures Scan(ps) == Scan(ps[..n])
  {
    if n < |ps| {
      assert ps[..|ps| - 1][..n] == ps[..n];
      StopsHere(ps[..|ps| - 1], n);
    } else {
      assert ps[..n] == ps;
    }
  }

  /** One turn of the loop. */
  lemma {:induction false} ScanTurn(ps: seq<Parsed>, i: nat, es: seq<Entry>)
    requires i < |ps| && Scan(ps[..i]) == Success(es)
    ensures Refusal(ps[i], es).None? ==> Acceptable(ps[i]) && Scan(ps[..i + 1]) == Success(es + [Entered(ps[i])])
    ensures Refusal(ps[i], es).Some? ==> Scan(ps) == Failure(Refusal(ps[i], es).value)
  {
    assert ps[..i + 1][..i] == ps[..i];
    if Refusal(ps[i], es).Some? {
      StopsHere(ps, i + 1);
    }
  }

  /** The (hour, minute) pairs of the entries so far. */
  function Keys(es: seq<Entry>): set<(nat, nat)> {
    if es == [] then {} else Keys(es[..|es| - 1]) + {(es[|es| - 1].minute / 60, es[|es| - 1].minute % 60)}
  }

  lemma {:induction false} KeysAre(es: seq<Entry>, c: Clock)
    ensures (c.hour, c.minute) in Keys(es) <==> Minute(c) in Minutes(es)
  {
    if es != [] {
      KeysAre(es[..|es| - 1], c);
      assert (c.hour, c.minute) == (es[|es| - 1].minute / 60, es[|es| - 1].minute % 60) <==> Minute(c) == es[|es| - 1].minute;
    }
  }

  lemma {:induction false} KeysGrow(es: seq<Entry>, p: Parsed)
    requires Acceptable(p)
    ensures Keys(es + [Entered(p)]) == Keys(es) + {(p.time.clock.hour, p.time.clock.minute)}
    ensures Write(es + [Entered(p)]) == Write(es) + [Transition(HhMm(p.time.clock.hour, p.time.clock.minute), p.state.n)]
  {
    assert (es + [Entered(p)])[..|es|] == es;
  }

  lemma {:induction false} SortsAsWritten(ps: seq<Parsed>, es: seq<Entry>)
    requires Scan(ps) == Success(es)
    ensures SortByTime(Write(es)) == Write(Sort(es)) && |Sort(es)| == |es|
  {
    ScanExact(ps);
    SortKeeps(es);
    SortWritten(es);
  }

  method ValidateTransitions(transitions: seq<RawTransition>) returns (r: Result<seq<Transition>, Error>)
    ensures r == Validate(transitions)
  {
    if transitions == [] {
      return Failure(Empty);
    }
    ghost var ps := ParseEach(transitions);
    ghost var es: seq<Entry> := [];
    var seen: set<(nat, nat)> := {};
    var normalised: seq<Transition> := [];
    for i := 0 to |transitions|
      invariant Scan(ps[..i]) == Success(es) && normalised == Write(es)
      invariant seen == Keys(es)
    {
      var t := transitions[i];
      ScanTurn(ps, i, es);
      if t.time.None? || t.state.Absent? {
        return Failure(MissingField);
      }
      var parsed := ParseTime(t.time.value);
      if parsed.None? {
        return Failure(BadTime);
      }
      var key := (parsed.value.hour, parsed.value.minute);
      KeysAre(es, parsed.value);
      if key in seen {
        return Failure(Duplicate);
      }
      seen := seen + {key};
      if t.state.Unconvertible? || !ValidState(t.state.n) {
        return Failure(BadState);
      }
      normalised := normalised + [Transition(HhMm(key.0, key.1), t.state.n)];
      KeysGrow(es, ps[i]);
      es := es + [Entered(ps[i])];
    }
    assert ps[..|ps|] == ps;
    SortsAsWritten(ps, es);
    normalised := SortByTime(normalised);
    return if |normalised| > 8 then Failure(TooMany) else Success(normalised);
  }
}
