/**
The audit rows written when a thermostat's setpoint status changes
(bms/poller.py, _note_setpoint_change and _poll_device), and what can be rebuilt
from them.
*/
module AuditTrail {
  import opened Prelude
  import opened DeviceCache

  const STATUS := "setpoint_status"
  const TEMPORARY := 3

  /** `SetpointStatus(int(values["setpoint_status"]))`, or None when that raises. */
  function Status(values: Values): Option<int> {
    if STATUS in values && 1.0 <= values[STATUS] < 5.0 then Some(values[STATUS].Floor) else None
  }

  function Offset(values: Values, key: string): real {
    if key in values then values[key] else 0.0
  }

  predicate MovedBy(previous: Values, current: Values, key: string) {
    var d := Offset(current, key) - Offset(previous, key);
    d > 0.05 || d < -0.05
  }

  predicate Moved(previous: Values, current: Values) {
    MovedBy(previous, current, "heat_adjust") || MovedBy(previous, current, "cool_adjust") || MovedBy(previous, current, "adjust")
  }

  datatype Action = TemporaryObserved | Temporary | Scheduled | TemporaryChanged

  /** An audit row; `change` is its from and to. */
  datatype AuditRow = AuditRow(action: Action, change: Option<(int, int)>)

  /** The row a successful poll writes, if any. */
  function Note(previous: Values, current: Values): Option<AuditRow> {
    match Status(current)
    case None => None
    case Some(now) =>
      if previous == map[] then
        if now == TEMPORARY then Some(AuditRow(TemporaryObserved, None)) else None
      else
        match Status(previous)
        case None => None
        case Some(was) =>
          if was != now then Some(AuditRow(if now == TEMPORARY then Temporary else Scheduled, Some((was, now))))
          else if Moved(previous, current) && now == TEMPORARY then Some(AuditRow(TemporaryChanged, None))
          else None
  }

  /** The row written for event `k` of a history. */
  function RowAt(h: seq<Event>, k: nat): Option<AuditRow>
    requires k < |h|
  {
    if h[k].Answered? then Note(After(h[..k]).values, h[k].values) else None
  }

  // ------------------------------------------------------ as the code keeps it

  datatype Attempt = Read(values: Values, ms: real) | Unreachable | Fault

  function EventOf(a: Attempt): Event {
    match a
    case Read(values, ms) => Answered(values, ms)
    case Unreachable => NoAnswer
    case Fault => InternalError
  }

  class Poller {
    const state: DeviceState
    const offlineAfter: nat
    var audit: seq<AuditRow>
    var warnings: nat
    ghost var history: seq<Event>

    ghost predicate Valid()
      reads this, state
    {
      state.Contents() == After(history)
    }

    constructor (offlineAfter: nat)
      ensures Valid() && fresh(state) && history == [] && audit == [] && warnings == 0 && this.offlineAfter == offlineAfter
    {
      state := new DeviceState();
      this.offlineAfter := offlineAfter;
      audit, warnings, history := [], 0, [];
    }

    /** One poll: the state follows the history, and the row and the warning are the history's. */
    method PollDevice(a: Attempt)
      requires Valid()
      modifies this, state
      ensures Valid() && history == old(history) + [EventOf(a)]
      ensures var row := RowAt(history, |history| - 1);
              audit == old(audit) + if row.Some? then [row.value] else []
      ensures warnings == old(warnings) + if Warns(history, |history| - 1, offlineAfter) then 1 else 0
    {
      history := history + [EventOf(a)];
      AfterOneMore(old(history), EventOf(a));
      assert history[..|history| - 1] == old(history) && history[..|history|] == history;
      match a {
        case Read(values, ms) =>
          var previous := state.values;
          state.RecordSuccess(values, Some(ms));
          var row := Note(previous, values);
          if row.Some? {
            audit := audit + [row.value];
          }
        case Unreachable =>
          state.RecordFailure();
          if state.consecutiveFailures == offlineAfter {
            warnings := warnings + 1;
          }
        case Fault =>
          state.RecordFailure();
      }
    }
  }

  // ----------------------------------------------------- rows and readings

  /** Nobody writes the status into the cache: it is not a writable point. */
  ghost predicate StatusUntouched(h: seq<Event>) {
    forall i :: 0 <= i < |h| && h[i].Wrote? ==> h[i].key != STATUS
  }

  /** The status in the last successful reading, None also when it carried none. */
  function LastStatus(h: seq<Event>): Option<int> {
    if h == [] then None
    else if IsAnswer(h[|h| - 1]) then Status(h[|h| - 1].values)
    else LastStatus(h[..|h| - 1])
  }

  lemma {:induction false} CacheHoldsLast(h: seq<Event>)
    requires StatusUntouched(h)
    ensures Status(After(h).values) == LastStatus(h)
  {
    if h != [] {
      CacheHoldsLast(h[..|h| - 1]);
    }
  }

  lemma {:induction false} LastStatusAt(h: seq<Event>)
    ensures NoAnswers(h) ==> LastStatus(h) == None
    ensures forall i :: LastAnswer(h, i) ==> LastStatus(h) == Status(h[i].values)
  {
    if h != [] && !IsAnswer(h[|h| - 1]) {
      LastStatusAt(h[..|h| - 1]);
      forall i | LastAnswer(h, i) ensures LastStatus(h) == Status(h[i].values) {
        LastAnswerSplit(h, i);
      }
    }
  }

  predicate ChangeRow(row: Option<AuditRow>, was: int, now: int) {
    row.Some? && row.value.change == Some((was, now))
  }

  /**
  A from/to row is written at `k` exactly when `k` is a poll that succeeded, the
  successful reading right before it had status `was`, this one has status `now`,
  and they differ.  A reading without a status writes none, and neither does the
  one after it.
  */
  lemma {:induction false} ChangeRowExactly(h: seq<Event>, k: nat, was: int, now: int)
    requires k < |h| && StatusUntouched(h)
    ensures ChangeRow(RowAt(h, k), was, now)
            <==> h[k].Answered? && Status(h[k].values) == Some(now) && was != now
                 && exists i :: LastAnswer(h[..k], i) && Status(h[i].values) == Some(was)
  {
    var before := h[..k];
    CacheHoldsLast(before);
    LastStatusAt(before);
    if !NoAnswers(before) {
      var i := HasLastAnswer(before);
      assert LastStatus(before) == Status(h[i].values);
      forall j | LastAnswer(before, j) ensures j == i {
      }
    }
  }

  // ------------------------------------------------------- what the rows say

  /** The reading carries the status with this number, one of the four there are. */
  predicate Carries(values: Values, n: int) {
    1 <= n <= 4 && "setpoint_status" in values && n as real <= values["setpoint_status"] < (n + 1) as real
  }

  lemma {:induction false} CarriesExactly(values: Values, n: int)
    ensures Carries(values, n) <==> Status(values) == Some(n)
  {
  }

  /** The difference that counts between two readings of one offset, an absent one being zero. */
  predicate OffsetMoved(previous: Values, current: Values, key: string) {
    var before := if key in previous then previous[key] else 0.0;
    var now := if key in current then current[key] else 0.0;
    now > before + 0.05 || now < before - 0.05
  }

  predicate SomeOffsetMoved(previous: Values, current: Values) {
    exists key :: key in {"heat_adjust", "cool_adjust", "adjust"} && OffsetMoved(previous, current, key)
  }

  lemma {:induction false} MovedExactly(previous: Values, current: Values)
    ensures Moved(previous, current) <==> SomeOffsetMoved(previous, current)
  {
    if Moved(previous, current) {
      var key := if MovedBy(previous, current, "heat_adjust") then "heat_adjust"
                 else if MovedBy(previous, current, "cool_adjust") then "cool_adjust" else "adjust";
      assert OffsetMoved(previous, current, key);
    }
  }

  /** The last successful reading before event `k` carried the status `n`. */
  ghost predicate PreviouslyCarried(h: seq<Event>, k: nat, n: int)
    requires k <= |h|
  {
    exists i :: LastAnswer(h[..k], i) && Carries(h[i].values, n)
  }

  lemma {:induction false} PreviousStatus(h: seq<Event>, k: nat, n: int)
    requires k <= |h| && StatusUntouched(h)
    ensures PreviouslyCarried(h, k, n) <==> Status(After(h[..k]).values) == Some(n)
  {
    var before := h[..k];
    CacheHoldsLast(before);
    LastStatusAt(before);
    if !NoAnswers(before) {
      var i := HasLastAnswer(before);
      CarriesExactly(h[i].values, n);
      forall j | LastAnswer(before, j) ensures j == i {
      }
    }
  }

  predicate Wrote(h: seq<Event>, k: nat, action: Action)
    requires k < |h|
  {
    RowAt(h, k).Some? && RowAt(h, k).value.action == action
  }

  /**
  Which row a successful poll writes.  Temporary: it has status 3 and the reading
  before it had another.  Scheduled: its status is not 3, and the reading before
  had another.  Observed: status 3 with nothing cached.  Changed: status 3 as
  before, and an offset moved by more than 0.05 against the cache.
  */
  lemma {:induction false} RowExactly(h: seq<Event>, k: nat)
    requires k < |h| && StatusUntouched(h)
    ensures Wrote(h, k, Temporary)
            <==> h[k].Answered? && Carries(h[k].values, 3) && exists was :: was != 3 && PreviouslyCarried(h, k, was)
    ensures Wrote(h, k, Scheduled)
            <==> h[k].Answered? && exists was, now :: was != now && now != 3 && Carries(h[k].values, now) && PreviouslyCarried(h, k, was)
    ensures Wrote(h, k, TemporaryObserved)
            <==> h[k].Answered? && Carries(h[k].values, 3) && After(h[..k]).values == map[]
    ensures Wrote(h, k, TemporaryChanged)
            <==> h[k].Answered? && Carries(h[k].values, 3) && PreviouslyCarried(h, k, 3)
                 && SomeOffsetMoved(After(h[..k]).values, h[k].values)
  {
    if h[k].Answered? {
      var previous, current := After(h[..k]).values, h[k].values;
      MovedExactly(previous, current);
      forall n ensures PreviouslyCarried(h, k, n) <==> Status(previous) == Some(n) {
        PreviousStatus(h, k, n);
      }
      forall n ensures Carries(current, n) <==> Status(current) == Some(n) {
        CarriesExactly(current, n);
      }
      NoteAction(previous, current);
    }
  }

  lemma {:induction false} NoteAction(previous: Values, current: Values)
    ensures var row, was, now := Note(previous, current), Status(previous), Status(current);
            && (row.Some? && row.value.action == Temporary <==> now == Some(3) && was.Some? && was != now)
            && (row.Some? && row.value.action == Scheduled <==> now.Some? && now != Some(3) && was.Some? && was != now)
            && (row.Some? && row.value.action == TemporaryObserved <==> now == Some(3) && previous == map[])
            && (row.Some? && row.value.action == TemporaryChanged <==> now == Some(3) && was == now && Moved(previous, current))
  {
  }

  // ----------------------------------------------------------------- replay

  /** The last status any reading carried. */
  function LastKnown(h: seq<Event>): Option<int> {
    if h == [] then None
    else
      var last := h[|h| - 1];
      if IsAnswer(last) && Status(last.values).Some? then Status(last.values) else LastKnown(h[..|h| - 1])
  }

  /** The first status read, and from then on what the from/to rows say. */
  function Replay(h: seq<Event>): Option<int> {
    if h == [] then None
    else
      var before, k := Replay(h[..|h| - 1]), |h| - 1;
      if before.None? then LastKnown(h)
      else match RowAt(h, k)
           case None => before
           case Some(row) => if row.change.Some? then Some(row.change.value.1) else before
  }

  /** A change of status that goes unlogged: a refresh saw it, or the reading just before carried no status. */
  ghost predicate Straddled(h: seq<Event>, k: nat)
    requires k < |h|
  {
    && IsAnswer(h[k]) && Status(h[k].values).Some?
    && LastKnown(h[..k]).Some? && Status(h[k].values) != LastKnown(h[..k])
    && (h[k].Refreshed? || LastStatus(h[..k]).None?)
  }

  lemma {:induction false} LastKnownIsLast(h: seq<Event>)
    ensures LastStatus(h).Some? ==> LastKnown(h) == LastStatus(h)
  {
    if h != [] {
      LastKnownIsLast(h[..|h| - 1]);
    }
  }

  /** The change a row records: from the previous reading's status to this one's. */
  lemma {:induction false} NoteChange(previous: Values, current: Values)
    ensures var row := Note(previous, current);
            if Status(previous).Some? && Status(current).Some? && Status(previous) != Status(current)
            then row.Some? && row.value.change == Some((Status(previous).value, Status(current).value))
            else row.Some? ==> row.value.change.None?
  {
  }

  /** What the replay does with one event, once it has begun. */
  lemma {:induction false} ReplayOne(h: seq<Event>)
    requires h != [] && StatusUntouched(h) && Replay(h[..|h| - 1]).Some?
    ensures var e, was := h[|h| - 1], LastStatus(h[..|h| - 1]);
            Replay(h) == if e.Answered? && was.Some? && Status(e.values).Some? && was != Status(e.values)
                         then Status(e.values) else Replay(h[..|h| - 1])
  {
    var k := |h| - 1;
    CacheHoldsLast(h[..k]);
    if h[k].Answered? {
      NoteChange(After(h[..k]).values, h[k].values);
    }
  }

  lemma {:induction false} ReplayStep(h: seq<Event>)
    requires h != [] && StatusUntouched(h) && Replay(h[..|h| - 1]) == LastKnown(h[..|h| - 1])
    ensures Replay(h) == LastKnown(h) <==> !Straddled(h, |h| - 1)
  {
    LastKnownIsLast(h[..|h| - 1]);
    if Replay(h[..|h| - 1]).Some? {
      ReplayOne(h);
    }
  }

  ghost predicate ReplaysThroughout(h: seq<Event>) {
    forall n :: 0 <= n <= |h| ==> Replay(h[..n]) == LastKnown(h[..n])
  }

  ghost predicate NoneStraddled(h: seq<Event>) {
    forall k :: 0 <= k < |h| ==> !Straddled(h, k)
  }

  /** The rows rebuild the status throughout a run exactly when no change in it was straddled. */
  lemma {:induction false} ReplayExactly(h: seq<Event>)
    requires StatusUntouched(h)
    ensures ReplaysThroughout(h) <==> NoneStraddled(h)
  {
    if h == [] {
      assert h[..0] == [];
    } else {
      var init := h[..|h| - 1];
      ReplayExactly(init);
      PrefixesOf(h);
      if ReplaysThroughout(init) {
        ReplayStep(h);
      }
    }
  }

  lemma {:induction false} PrefixesOf(h: seq<Event>)
    requires h != []
    ensures ReplaysThroughout(h) <==> ReplaysThroughout(h[..|h| - 1]) && Replay(h) == LastKnown(h)
    ensures NoneStraddled(h) <==> NoneStraddled(h[..|h| - 1]) && !Straddled(h, |h| - 1)
    ensures ReplaysThroughout(h[..|h| - 1]) ==> Replay(h[..|h| - 1]) == LastKnown(h[..|h| - 1])
  {
    var init := h[..|h| - 1];
    assert h[..|h|] == h && init[..|init|] == init;
    forall n | 0 <= n <= |init| ensures init[..n] == h[..n] {
    }
    forall k | 0 <= k < |init| ensures Straddled(init, k) == Straddled(h, k) {
      assert init[..k] == h[..k] && init[k] == h[k];
    }
    if ReplaysThroughout(init) && Replay(h) == LastKnown(h) {
      forall n | 0 <= n <= |h| ensures Replay(h[..n]) == LastKnown(h[..n]) {
        if n < |h| { assert init[..n] == h[..n]; }
      }
    }
    if ReplaysThroughout(h) {
      forall n | 0 <= n <= |init| ensures Replay(init[..n]) == LastKnown(init[..n]) {
        assert init[..n] == h[..n];
      }
    }
  }

  /** Only polls, and every reading carries a status; polls may fail and points may be written. */
  ghost predicate GapFree(h: seq<Event>) {
    forall i :: 0 <= i < |h| ==> !h[i].Refreshed? && (h[i].Answered? ==> Status(h[i].values).Some?)
  }

  lemma {:induction false} GapFreeKnows(h: seq<Event>)
    requires GapFree(h)
    ensures LastKnown(h) == LastStatus(h)
  {
    if h != [] {
      GapFreeKnows(h[..|h| - 1]);
    }
  }

  /** In a gap-free run of polls the rows rebuild every status. */
  lemma {:induction false} GapFreeReplays(h: seq<Event>)
    requires GapFree(h) && StatusUntouched(h)
    ensures ReplaysThroughout(h)
  {
    forall k | 0 <= k < |h| ensures !Straddled(h, k) {
      GapFreeKnows(h[..k]);
    }
    ReplayExactly(h);
  }

  lemma {:induction false} StatusRead()
    ensures Status(map[STATUS := 1.0]) == Some(1) && Status(map[STATUS := 3.0]) == Some(3)
    ensures Status(map["space_temp" := 70.0]) == None
  {
    assert |STATUS| != |"space_temp"|;
  }

  /** One reading without a status loses the change around it. */
  lemma {:induction false} GapLosesChange()
    ensures var h := [Answered(map[STATUS := 1.0], 20.0), Answered(map["space_temp" := 70.0], 20.0), Answered(map[STATUS := 3.0], 20.0)];
            && RowAt(h, 1) == None && RowAt(h, 2) == None && Straddled(h, 2) && !ReplaysThroughout(h)
  {
    var h := [Answered(map[STATUS := 1.0], 20.0), Answered(map["space_temp" := 70.0], 20.0), Answered(map[STATUS := 3.0], 20.0)];
    assert h[..2][..1] == h[..1] && h[..1][..0] == [] && h[..2][1] == h[1] && h[..1][0] == h[0];
    StatusRead();
    assert LastStatus(h[..1]) == Some(1);
    assert LastKnown(h[..1]) == Some(1);
    assert LastKnown(h[..2]) == Some(1) && LastStatus(h[..2]) == None;
    CacheHoldsLast(h[..2]);
    CacheHoldsLast(h[..1]);
    assert After(h[..2]).values == h[1].values && "space_temp" in h[1].values;
    assert Straddled(h, 2);
    ReplayExactly(h);
  }
}
