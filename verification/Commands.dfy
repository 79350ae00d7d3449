/**
Commands made of several writes (bms/api.py, override and bypass).  A write may
be applied and acknowledged, applied without the acknowledgement arriving, or
lost; the handler stops at the first that is not acknowledged.
*/
module Commands {
  import opened Prelude

  datatype Occupancy = OCCUPIED | UNOCCUPIED | BYPASS | STANDBY | NO_OVERRIDE

  /** The points the two commands write; a duration is whole minutes, sent as a float. */
  datatype Points = Points(gate: bool, command: Occupancy, duration: nat, minutes: nat, enable: bool)

  datatype Write =
    | Gate(on: bool)               // network_override_enable
    | Command(state: Occupancy)    // occupancy_override
    | Duration(m: nat)            // bypass_duration_cfg
    | Minutes(m: nat)             // bypass_minutes
    | Enable(on: bool)             // bypass_enable

  function Apply(p: Points, w: Write): Points {
    match w
    case Gate(on) => p.(gate := on)
    case Command(state) => p.(command := state)
    case Duration(m) => p.(duration := m)
    case Minutes(m) => p.(minutes := m)
    case Enable(on) => p.(enable := on)
  }

  function OverrideWrites(state: Occupancy): seq<Write> {
    if state == NO_OVERRIDE then [Command(state), Gate(false)] else [Gate(true), Command(state)]
  }

  function BypassWrites(minutes: nat): seq<Write> {
    if minutes > 0 then [Duration(minutes), Minutes(minutes), Enable(true)] else [Minutes(minutes), Enable(false)]
  }

  /** One write and what became of it. */
  function Landed(p: Points, w: Write, o: Outcome): Points {
    if o == Lost then p else Apply(p, w)
  }

  /** The states a device goes through, the first included; nothing is sent after a write that was not acknowledged. */
  function Trace(p: Points, writes: seq<Write>, outcomes: seq<Outcome>): (t: seq<Points>)
    requires |outcomes| == |writes|
    ensures |t| > 0 && t[0] == p
    decreases |writes|
  {
    if writes == [] then [p]
    else
      var after := Landed(p, writes[0], outcomes[0]);
      [p] + if outcomes[0] == Acked then Trace(after, writes[1..], outcomes[1..]) else [after]
  }

  function Last(t: seq<Points>): Points
    requires t != []
  {
    t[|t| - 1]
  }

  predicate AllAcked(outcomes: seq<Outcome>) {
    forall i :: 0 <= i < |outcomes| ==> outcomes[i] == Acked
  }

  lemma {:induction false} TraceOfTwo(p: Points, v: Write, w: Write, outcomes: seq<Outcome>)
    requires |outcomes| == 2
    ensures Trace(p, [v, w], outcomes)
            == if outcomes[0] == Acked then [p, Apply(p, v), Landed(Apply(p, v), w, outcomes[1])] else [p, Landed(p, v, outcomes[0])]
  {
    assert [v, w][1..] == [w] && outcomes[1..] == [outcomes[1]];
    assert [w][1..] == [] && [outcomes[1]][1..] == [];
    var q := Apply(p, v);
    assert Trace(q, [w], [outcomes[1]]) == [q, Landed(q, w, outcomes[1])];
  }

  lemma {:induction false} TraceOfThree(p: Points, u: Write, v: Write, w: Write, outcomes: seq<Outcome>)
    requires |outcomes| == 3
    ensures Trace(p, [u, v, w], outcomes)
            == if outcomes[0] != Acked then [p, Landed(p, u, outcomes[0])]
               else [p] + Trace(Apply(p, u), [v, w], outcomes[1..])
  {
    assert [u, v, w][1..] == [v, w];
  }

  /** A bypass, spelled out. */
  lemma {:induction false} BypassTrace(p: Points, minutes: nat, outcomes: seq<Outcome>)
    requires |outcomes| == |BypassWrites(minutes)|
    ensures minutes == 0 ==>
              Trace(p, BypassWrites(minutes), outcomes)
              == if outcomes[0] != Acked then [p, Landed(p, Minutes(0), outcomes[0])]
                 else [p, p.(minutes := 0), Landed(p.(minutes := 0), Enable(false), outcomes[1])]
    ensures minutes > 0 ==>
              Trace(p, BypassWrites(minutes), outcomes)
              == if outcomes[0] != Acked then [p, Landed(p, Duration(minutes), outcomes[0])]
                 else
                   var q := p.(duration := minutes);
                   if outcomes[1] != Acked then [p, q, Landed(q, Minutes(minutes), outcomes[1])]
                   else [p, q, q.(minutes := minutes), Landed(q.(minutes := minutes), Enable(true), outcomes[2])]
  {
    if minutes > 0 {
      TraceOfThree(p, Duration(minutes), Minutes(minutes), Enable(true), outcomes);
      TraceOfTwo(Apply(p, Duration(minutes)), Minutes(minutes), Enable(true), outcomes[1..]);
    } else {
      TraceOfTwo(p, Minutes(minutes), Enable(false), outcomes);
    }
  }

  // ------------------------------------------------------ as the code runs it

  class Thermostat {
    var points: Points

    constructor (p: Points)
      ensures points == p
    {
      points := p;
    }

    /** Returns normally only when acknowledged. */
    method WritePoint(w: Write, o: Outcome) returns (ok: bool)
      modifies this
      ensures points == Landed(old(points), w, o) && ok == (o == Acked)
    {
      if o != Lost {
        points := Apply(points, w);
      }
      ok := o == Acked;
    }

    method Override(state: Occupancy, outcomes: seq<Outcome>) returns (ok: bool)
      requires |outcomes| == 2
      modifies this
      ensures points == Last(Trace(old(points), OverrideWrites(state), outcomes))
      ensures ok == AllAcked(outcomes)
    {
      TraceOfTwo(points, OverrideWrites(state)[0], OverrideWrites(state)[1], outcomes);
      var releasing := state == NO_OVERRIDE;
      var next := 0;
      if !releasing {
        ok := WritePoint(Gate(true), outcomes[next]);
        if !ok { return; }
        next := next + 1;
      }
      ok := WritePoint(Command(state), outcomes[next]);
      if !ok { return; }
      if releasing {
        ok := WritePoint(Gate(false), outcomes[next + 1]);
      }
    }

    method Bypass(minutes: nat, outcomes: seq<Outcome>) returns (ok: bool)
      requires |outcomes| == |BypassWrites(minutes)|
      modifies this
      ensures points == Last(Trace(old(points), BypassWrites(minutes), outcomes))
      ensures ok == AllAcked(outcomes)
    {
      BypassTrace(points, minutes, outcomes);
      var next := 0;
      if minutes > 0 {
        ok := WritePoint(Duration(minutes), outcomes[next]);
        if !ok { return; }
        next := next + 1;
      }
      ok := WritePoint(Minutes(minutes), outcomes[next]);
      if !ok { return; }
      ok := WritePoint(Enable(minutes > 0), outcomes[next + 1]);
    }
  }

  // ----------------------------------------------------------------- override

  /** What the thermostat obeys: the command is inert while the gate is off. */
  function Effective(p: Points): Occupancy {
    if p.gate then p.command else NO_OVERRIDE
  }

  /** With the gate off no command is left behind. */
  predicate NothingStale(p: Points) {
    !p.gate ==> p.command == NO_OVERRIDE
  }

  /** Every state a call goes through is one of these. */
  ghost predicate OldOrRequested(before: Points, t: seq<Points>, state: Occupancy) {
    forall i :: 0 <= i < |t| ==> Effective(t[i]) == Effective(before) || Effective(t[i]) == state
  }

  /**
  Whatever becomes of its writes, an override leaves nothing stale, never makes
  the device obey anything but the old override or the requested one, and when it
  reports success the device obeys what was requested, with the gate off again
  after a release.  The bypass is left alone.
  */
  lemma {:induction false} OverrideSafe(p: Points, state: Occupancy, outcomes: seq<Outcome>)
    requires NothingStale(p) && |outcomes| == 2
    ensures var t := Trace(p, OverrideWrites(state), outcomes);
            && (forall i :: 0 <= i < |t| ==> NothingStale(t[i]))
            && OldOrRequested(p, t, state)
            && (AllAcked(outcomes) ==> Effective(Last(t)) == state && Last(t).command == state && Last(t).gate == (state != NO_OVERRIDE))
            && (forall i :: 0 <= i < |t| ==> t[i].(gate := p.gate, command := p.command) == p)
  {
    TraceOfTwo(p, OverrideWrites(state)[0], OverrideWrites(state)[1], outcomes);
  }

  /**
  From any state: no call, whatever becomes of its writes, can make the device
  obey something that was neither in force nor requested, exactly when the call
  is a release, or the gate is on, or the command left behind is harmless.
  */
  lemma {:induction false} OverrideSafeExactly(p: Points, state: Occupancy)
    ensures (forall outcomes :: |outcomes| == 2 ==> OldOrRequested(p, Trace(p, OverrideWrites(state), outcomes), state))
            <==> state == NO_OVERRIDE || p.gate || p.command == NO_OVERRIDE || p.command == state
  {
    var both := [Acked, Acked];
    TraceOfTwo(p, OverrideWrites(state)[0], OverrideWrites(state)[1], both);
    if state == NO_OVERRIDE || p.gate || p.command == NO_OVERRIDE || p.command == state {
      forall outcomes: seq<Outcome> | |outcomes| == 2
        ensures OldOrRequested(p, Trace(p, OverrideWrites(state), outcomes), state)
      {
        TraceOfTwo(p, OverrideWrites(state)[0], OverrideWrites(state)[1], outcomes);
      }
    } else {
      var t := Trace(p, OverrideWrites(state), both);
      assert Effective(t[1]) == p.command;
      assert !OldOrRequested(p, t, state);
    }
  }

  datatype Call = OverrideCall(state: Occupancy, outcomes: seq<Outcome>) | BypassCall(minutes: nat, outcomes: seq<Outcome>) | Expire

  predicate WellFormed(c: Call) {
    match c
    case OverrideCall(_, outcomes) => |outcomes| == 2
    case BypassCall(minutes, outcomes) => |outcomes| == |BypassWrites(minutes)|
    case Expire => true
  }

  /** The states a call goes through; a bypass that runs out is switched off by the device itself. */
  function CallTrace(p: Points, c: Call): (t: seq<Points>)
    requires WellFormed(c)
    ensures |t| > 0 && t[0] == p
  {
    match c
    case OverrideCall(state, outcomes) => Trace(p, OverrideWrites(state), outcomes)
    case BypassCall(minutes, outcomes) => Trace(p, BypassWrites(minutes), outcomes)
    case Expire => [p, p.(enable := false)]
  }

  ghost predicate AllWellFormed(calls: seq<Call>) {
    forall i :: 0 <= i < |calls| ==> WellFormed(calls[i])
  }

  /** The state after some calls, one after the other. */
  function After(p: Points, calls: seq<Call>): Points
    requires AllWellFormed(calls)
  {
    if calls == [] then p else Last(CallTrace(After(p, calls[..|calls| - 1]), calls[|calls| - 1]))
  }

  /** Nothing stale at any moment, and only the old override or the requested one obeyed. */
  ghost predicate SafeTrace(p: Points, t: seq<Points>, state: Occupancy) {
    (forall i :: 0 <= i < |t| ==> NothingStale(t[i])) && OldOrRequested(p, t, state)
  }

  ghost predicate SafeCall(p: Points, c: Call)
    requires WellFormed(c)
  {
    SafeTrace(p, CallTrace(p, c), if c.OverrideCall? then c.state else Effective(p))
  }

  /** A bypass leaves the override points alone. */
  lemma {:induction false} BypassLeavesOverride(p: Points, minutes: nat, outcomes: seq<Outcome>)
    requires |outcomes| == |BypassWrites(minutes)| && NothingStale(p)
    ensures SafeTrace(p, Trace(p, BypassWrites(minutes), outcomes), Effective(p))
  {
    BypassTrace(p, minutes, outcomes);
  }

  lemma {:induction false} CallSafe(p: Points, c: Call)
    requires NothingStale(p) && WellFormed(c)
    ensures SafeCall(p, c) && NothingStale(Last(CallTrace(p, c)))
  {
    match c {
      case OverrideCall(state, outcomes) => OverrideSafe(p, state, outcomes);
      case BypassCall(minutes, outcomes) => BypassLeavesOverride(p, minutes, outcomes);
      case Expire =>
    }
  }

  lemma {:induction false} RunStaysClean(p: Points, calls: seq<Call>)
    requires NothingStale(p) && AllWellFormed(calls)
    ensures NothingStale(After(p, calls))
  {
    if calls != [] {
      RunStaysClean(p, calls[..|calls| - 1]);
      CallSafe(After(p, calls[..|calls| - 1]), calls[|calls| - 1]);
    }
  }

  /** In every run that starts clean every call is safe at every moment, whatever became of the writes of those before it. */
  lemma {:induction false} RunsAreSafe(p: Points, calls: seq<Call>, k: nat)
    requires NothingStale(p) && AllWellFormed(calls) && k < |calls|
    ensures SafeCall(After(p, calls[..k]), calls[k])
  {
    RunStaysClean(p, calls[..k]);
    CallSafe(After(p, calls[..k]), calls[k]);
  }

  /** A command left behind a closed gate: asking for standby makes the device obey it first, and for good if the second write is lost. */
  lemma {:induction false} StaleCommandShows()
    ensures var p := Points(false, OCCUPIED, 180, 0, false);
            var t := Trace(p, OverrideWrites(STANDBY), [Acked, Lost]);
            && Effective(p) == NO_OVERRIDE && !NothingStale(p)
            && Effective(t[1]) == OCCUPIED && Effective(Last(t)) == OCCUPIED && !OldOrRequested(p, t, STANDBY)
  {
    var p := Points(false, OCCUPIED, 180, 0, false);
    TraceOfTwo(p, Gate(true), Command(STANDBY), [Acked, Lost]);
    var t := Trace(p, OverrideWrites(STANDBY), [Acked, Lost]);
    assert Effective(t[1]) == OCCUPIED;
  }

  // ------------------------------------------------------------------- bypass

  /** Somewhere in the trace the bypass is switched on. */
  predicate SwitchesOn(t: seq<Points>, i: int) {
    0 <= i < |t| - 1 && !t[i].enable && t[i + 1].enable
  }

  /** The call's `i`-th write was sent, from state `t[i]`. */
  predicate IsSent(t: seq<Points>, i: int) {
    0 <= i < |t| - 1
  }

  /**
  Every write that enables a bypass, of one already running too, is sent only
  with the requested duration already in the point the device takes it from, and
  leaves it there.  A call for no minutes enables nothing and changes no
  duration; success means on for the requested time, or off, with the minutes to
  match.  The override is left alone.
  */
  lemma {:induction false} BypassSafe(p: Points, minutes: nat, outcomes: seq<Outcome>)
    requires |outcomes| == |BypassWrites(minutes)|
    ensures var t := Trace(p, BypassWrites(minutes), outcomes);
            && |t| <= |BypassWrites(minutes)| + 1
            && (forall i :: IsSent(t, i) && BypassWrites(minutes)[i] == Enable(true)
                            ==> minutes > 0 && t[i].duration == minutes && t[i + 1].duration == minutes)
            && (forall i :: SwitchesOn(t, i) ==> BypassWrites(minutes)[i] == Enable(true))
            && (AllAcked(outcomes) ==> Last(t).enable == (minutes > 0) && Last(t).minutes == minutes && (minutes > 0 ==> Last(t).duration == minutes))
            && (forall i :: 0 <= i < |t| ==> t[i].gate == p.gate && t[i].command == p.command)
            && (minutes == 0 ==> forall i :: 0 <= i < |t| ==> t[i].duration == p.duration)
  {
    BypassTrace(p, minutes, outcomes);
  }

  lemma {:induction false} OnlyBypassSwitchesOn(p: Points, c: Call, i: int)
    requires WellFormed(c) && SwitchesOn(CallTrace(p, c), i)
    ensures c.BypassCall? && c.minutes > 0 && CallTrace(p, c)[i].duration == c.minutes
  {
    match c {
      case OverrideCall(state, outcomes) => TraceOfTwo(p, OverrideWrites(state)[0], OverrideWrites(state)[1], outcomes);
      case BypassCall(minutes, outcomes) => BypassSafe(p, minutes, outcomes);
      case Expire =>
    }
  }
}
