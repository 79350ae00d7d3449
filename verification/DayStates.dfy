/**
The state a day's changes put in effect at an instant, and what a device makes
of them.  The first is defined on the map from minutes to states alone; the
second is section 12.24 of ANSI/ASHRAE 135 on a list of time values.
*/
module DayStates {
  import opened Prelude
  import opened DayEntries
  import opened BacnetObjects

  const MINUTE := 6000  // hundredths of a second

  /** The last minute, up to `minute`, at which something changes. */
  function LastChange(changes: map<nat, int>, minute: nat): (r: Option<nat>)
    ensures r.Some? ==> r.value <= minute && r.value in changes
  {
    if minute in changes then Some(minute)
    else if minute == 0 then None
    else LastChange(changes, minute - 1)
  }

  /** The state in effect during a minute, walking back to the last change; none before the first. */
  function StateFrom(changes: map<nat, int>, minute: nat): Option<int> {
    match LastChange(changes, minute)
    case None => None
    case Some(m) => Some(changes[m])
  }

  lemma {:induction false} LastChangeIsLast(changes: map<nat, int>, minute: nat, m: nat)
    requires m in changes && m <= minute
    ensures LastChange(changes, minute).Some? && m <= LastChange(changes, minute).value
  {
    if minute !in changes {
      LastChangeIsLast(changes, minute - 1, m);
    }
  }

  /** One more change takes over from its minute on, unless a later one already has. */
  lemma {:induction false} OneMoreChange(changes: map<nat, int>, k: nat, v: int, minute: nat)
    ensures LastChange(changes[k := v], minute)
            == var before := LastChange(changes, minute);
               if k > minute || (before.Some? && before.value > k) then before else Some(k)
  {
    if minute !in changes[k := v] && minute > 0 {
      OneMoreChange(changes, k, v, minute - 1);
    }
  }

  // -------------------------------------------------- time values as entries

  /** A time value to the minute, as it reads back. */
  function EntryOf(tv: TimeValue): Entry {
    Entry(60 * tv.hour + tv.minute, tv.value)
  }

  function EntriesOf(tvs: seq<TimeValue>): (es: seq<Entry>)
    ensures |es| == |tvs|
  {
    if tvs == [] then [] else EntriesOf(tvs[..|tvs| - 1]) + [EntryOf(tvs[|tvs| - 1])]
  }

  /** The changes a list of time values makes, to the minute. */
  function Changes(tvs: seq<TimeValue>): map<nat, int> {
    Meaning(EntriesOf(tvs))
  }

  lemma {:induction false} ChangesStep(tvs: seq<TimeValue>)
    requires tvs != []
    ensures Changes(tvs) == var e := EntryOf(tvs[|tvs| - 1]); Changes(tvs[..|tvs| - 1])[e.minute := e.state]
  {
    var es := EntriesOf(tvs);
    assert es[..|es| - 1] == EntriesOf(tvs[..|tvs| - 1]);
  }

  predicate OnMinute(tv: TimeValue) {
    tv.second == 0 && tv.hundredth == 0
  }

  lemma {:induction false} MinuteOf(tv: TimeValue, t: nat)
    requires OnMinute(tv)
    ensures Instant(tv) == MINUTE * EntryOf(tv).minute
    ensures Instant(tv) <= t <==> EntryOf(tv).minute <= t / MINUTE
  {
  }

  /** The time value in effect is the last change, in any order of the list. */
  lemma {:induction false} LatestIsLastChange(tvs: seq<TimeValue>, t: nat)
    requires forall i :: 0 <= i < |tvs| ==> OnMinute(tvs[i])
    ensures var latest, last := Latest(tvs, t), LastChange(Changes(tvs), t / MINUTE);
            match latest
            case None => last == None
            case Some(tv) => last == Some(EntryOf(tv).minute) && OnMinute(tv) && Changes(tvs)[last.value] == tv.value
  {
    if tvs != [] {
      var init, tv := tvs[..|tvs| - 1], tvs[|tvs| - 1];
      LatestIsLastChange(init, t);
      ChangesStep(tvs);
      OneMoreChange(Changes(init), EntryOf(tv).minute, tv.value, t / MINUTE);
      MinuteOf(tv, t);
      if Latest(init, t).Some? {
        MinuteOf(Latest(init, t).value, t);
      }
    }
  }

  /** On whole minutes a device is at every instant in the state the changes put in effect. */
  lemma {:induction false} WholeMinutesState(tvs: seq<TimeValue>, t: nat)
    requires forall i :: 0 <= i < |tvs| ==> OnMinute(tvs[i])
    ensures ValueAt(tvs, t) == StateFrom(Changes(tvs), t / MINUTE)
  {
    LatestIsLastChange(tvs, t);
  }

  // ------------------------------------------------------- parts of a minute

  /** A time of day, to the hundredth of a second. */
  predicate InRange(tv: TimeValue) {
    tv.hour < 24 && tv.minute < 60 && tv.second < 60 && tv.hundredth < 100
  }

  predicate AllInRange(tvs: seq<TimeValue>) {
    forall i :: 0 <= i < |tvs| ==> InRange(tvs[i])
  }

  ghost predicate Ordered(tvs: seq<TimeValue>) {
    forall i, j :: 0 <= i < j < |tvs| ==> Instant(tvs[i]) < Instant(tvs[j])
  }

  /** The value a list leaves in effect after its first `k` entries. */
  function InEffect(tvs: seq<TimeValue>, scheduleDefault: int, k: nat): int
    requires k <= |tvs|
  {
    if k == 0 then scheduleDefault else tvs[k - 1].value
  }

  /** Every entry within a minute repeats the value already in effect. */
  predicate Repeats(tvs: seq<TimeValue>, scheduleDefault: int) {
    forall k :: 0 <= k < |tvs| && !OnMinute(tvs[k]) ==> tvs[k].value == InEffect(tvs, scheduleDefault, k)
  }

  lemma {:induction false} WithinMinute(tv: TimeValue, minute: nat)
    requires InRange(tv)
    ensures Instant(tv) / MINUTE == EntryOf(tv).minute
    ensures OnMinute(tv) <==> Instant(tv) == MINUTE * EntryOf(tv).minute
    ensures Instant(tv) <= MINUTE * minute + (MINUTE - 1) <==> EntryOf(tv).minute <= minute
  {
    assert Instant(tv) == MINUTE * EntryOf(tv).minute + (100 * tv.second + tv.hundredth);
  }

  lemma {:induction false} LastIsLatest(tvs: seq<TimeValue>, t: nat)
    requires tvs != [] && Ordered(tvs)
    ensures Latest(tvs, t) == if Instant(tvs[|tvs| - 1]) <= t then Some(tvs[|tvs| - 1]) else Latest(tvs[..|tvs| - 1], t)
  {
    LatestIn(tvs[..|tvs| - 1], t);
  }

  lemma {:induction false} LatestIn(tvs: seq<TimeValue>, t: nat)
    ensures Latest(tvs, t).Some? ==> Latest(tvs, t).value in tvs
  {
    if tvs != [] {
      LatestIn(tvs[..|tvs| - 1], t);
    }
  }

  lemma {:induction false} ChangesUpTo(tvs: seq<TimeValue>, m: nat)
    requires Ordered(tvs) && AllInRange(tvs) && tvs != [] && m in Changes(tvs)
    ensures m <= EntryOf(tvs[|tvs| - 1]).minute
  {
    ChangesStep(tvs);
    var n := |tvs| - 1;
    if m != EntryOf(tvs[n]).minute && n > 0 {
      ChangesUpTo(tvs[..n], m);
      WithinMinute(tvs[n - 1], 0);
      WithinMinute(tvs[n], 0);
      assert Instant(tvs[n - 1]) < Instant(tvs[n]);
    }
  }

  /** By the end of a minute the device is in the state the changes put in effect. */
  lemma {:induction false} EndOfMinute(tvs: seq<TimeValue>, minute: nat)
    requires Ordered(tvs) && AllInRange(tvs)
    ensures ValueAt(tvs, MINUTE * minute + (MINUTE - 1)) == StateFrom(Changes(tvs), minute)
  {
    if tvs != [] {
      var init, tv := tvs[..|tvs| - 1], tvs[|tvs| - 1];
      EndOfMinute(init, minute);
      ChangesStep(tvs);
      LastIsLatest(tvs, MINUTE * minute + (MINUTE - 1));
      WithinMinute(tv, minute);
      OneMoreChange(Changes(init), EntryOf(tv).minute, tv.value, minute);
      if LastChange(Changes(init), minute).Some? {
        ChangesUpTo(tvs, LastChange(Changes(init), minute).value);
      }
    }
  }

  /** When entries within a minute only repeat, nothing changes within a minute. */
  lemma {:induction false} StillWithin(tvs: seq<TimeValue>, scheduleDefault: int, t: nat, u: nat)
    requires Ordered(tvs) && AllInRange(tvs) && Repeats(tvs, scheduleDefault)
    requires t <= u && t / MINUTE == u / MINUTE
    ensures DayValue(tvs, scheduleDefault, t) == DayValue(tvs, scheduleDefault, u)
  {
    if tvs != [] {
      var n := |tvs| - 1;
      var init := tvs[..n];
      assert forall k :: 0 <= k < n ==> InEffect(init, scheduleDefault, k) == InEffect(tvs, scheduleDefault, k);
      StillWithin(init, scheduleDefault, t, u);
      LastIsLatest(tvs, t);
      LastIsLatest(tvs, u);
      if t < Instant(tvs[n]) <= u {
        WithinMinute(tvs[n], 0);
        assert Instant(tvs[n]) / MINUTE == u / MINUTE;
        assert !OnMinute(tvs[n]);
        if n > 0 {
          LastIsLatest(init, u);
          assert Instant(tvs[n - 1]) < Instant(tvs[n]);
        }
      }
    }
  }

  /** An instant that comes after `k` entries shows the value they leave in effect. */
  lemma {:induction false} AfterEntries(tvs: seq<TimeValue>, scheduleDefault: int, k: nat, t: nat)
    requires Ordered(tvs) && k <= |tvs|
    requires k > 0 ==> Instant(tvs[k - 1]) <= t
    requires k < |tvs| ==> t < Instant(tvs[k])
    ensures DayValue(tvs, scheduleDefault, t) == InEffect(tvs, scheduleDefault, k)
  {
    if tvs != [] {
      var n := |tvs| - 1;
      LastIsLatest(tvs, t);
      if k <= n {
        assert k < n ==> Instant(tvs[k]) < Instant(tvs[n]);
        AfterEntries(tvs[..n], scheduleDefault, k, t);
      }
    }
  }

  /** Just before its `k`-th entry, and just at it. */
  lemma {:induction false} AroundEntry(tvs: seq<TimeValue>, scheduleDefault: int, k: nat)
    requires Ordered(tvs) && k < |tvs|
    ensures DayValue(tvs, scheduleDefault, Instant(tvs[k])) == tvs[k].value
    ensures Instant(tvs[k]) > 0 ==> DayValue(tvs, scheduleDefault, Instant(tvs[k]) - 1) == InEffect(tvs, scheduleDefault, k)
  {
    AfterEntries(tvs, scheduleDefault, k + 1, Instant(tvs[k]));
    if Instant(tvs[k]) > 0 {
      AfterEntries(tvs, scheduleDefault, k, Instant(tvs[k]) - 1);
    }
  }

  /** What the device does at an instant is what its entries, read to the minute, say. */
  predicate ReadsRight(tvs: seq<TimeValue>, scheduleDefault: int, t: nat) {
    DayValue(tvs, scheduleDefault, t) == StateFrom(Changes(tvs), t / MINUTE).GetOr(scheduleDefault)
  }

  /** The device is at every instant in the state its entries, read to the minute, put in effect. */
  ghost predicate AsRead(tvs: seq<TimeValue>, scheduleDefault: int) {
    forall t: nat :: ReadsRight(tvs, scheduleDefault, t)
  }

  /** It is so at each entry, and at the minute the entry is read as. */
  predicate RightAtEntries(tvs: seq<TimeValue>, scheduleDefault: int) {
    forall k :: 0 <= k < |tvs| ==> ReadsRight(tvs, scheduleDefault, Instant(tvs[k]))
                                   && ReadsRight(tvs, scheduleDefault, MINUTE * EntryOf(tvs[k]).minute)
  }

  lemma {:induction false} ValueStays(tvs: seq<TimeValue>, t: nat)
    requires forall k :: 0 <= k < |tvs| ==> Instant(tvs[k]) != t
    ensures Latest(tvs, t) == if t == 0 then None else Latest(tvs, t - 1)
  {
    if tvs != [] {
      ValueStays(tvs[..|tvs| - 1], t);
    }
  }

  lemma {:induction false} ChangeHasEntry(tvs: seq<TimeValue>, m: nat)
    requires forall k :: 0 <= k < |tvs| ==> EntryOf(tvs[k]).minute != m
    ensures m !in Changes(tvs)
  {
    if tvs != [] {
      ChangeHasEntry(tvs[..|tvs| - 1], m);
      ChangesStep(tvs);
    }
  }

  lemma {:induction false} SameMinute(t: nat)
    ensures t > 0 && t != MINUTE * (t / MINUTE) ==> (t - 1) / MINUTE == t / MINUTE
    ensures t > 0 && t == MINUTE * (t / MINUTE) ==> (t - 1) / MINUTE == t / MINUTE - 1
  {
  }

  lemma {:induction false} StateStays(tvs: seq<TimeValue>, t: nat)
    requires forall k :: 0 <= k < |tvs| ==> MINUTE * EntryOf(tvs[k]).minute != t
    ensures StateFrom(Changes(tvs), t / MINUTE) == if t == 0 then None else StateFrom(Changes(tvs), (t - 1) / MINUTE)
  {
    SameMinute(t);
    if t == MINUTE * (t / MINUTE) {
      ChangeHasEntry(tvs, t / MINUTE);
    }
  }

  lemma {:induction false} RightThroughout(tvs: seq<TimeValue>, scheduleDefault: int, t: nat)
    requires RightAtEntries(tvs, scheduleDefault)
    ensures ReadsRight(tvs, scheduleDefault, t)
  {
    if k :| 0 <= k < |tvs| && (Instant(tvs[k]) == t || MINUTE * EntryOf(tvs[k]).minute == t) {
    } else {
      ValueStays(tvs, t);
      StateStays(tvs, t);
      if t > 0 {
        RightThroughout(tvs, scheduleDefault, t - 1);
      }
    }
  }

  /** In whatever order the entries come: it is always so exactly when it is at the entries. */
  lemma {:induction false} AsReadInAnyOrder(tvs: seq<TimeValue>, scheduleDefault: int)
    ensures AsRead(tvs, scheduleDefault) <==> RightAtEntries(tvs, scheduleDefault)
  {
    if RightAtEntries(tvs, scheduleDefault) {
      forall t: nat ensures ReadsRight(tvs, scheduleDefault, t) {
        RightThroughout(tvs, scheduleDefault, t);
      }
    }
  }

  /** In order of time, exactly when every entry within a minute repeats the value already in effect. */
  lemma {:induction false} AsReadExactly(tvs: seq<TimeValue>, scheduleDefault: int)
    requires Ordered(tvs) && AllInRange(tvs)
    ensures AsRead(tvs, scheduleDefault) <==> Repeats(tvs, scheduleDefault)
  {
    if Repeats(tvs, scheduleDefault) {
      forall t: nat ensures ReadsRight(tvs, scheduleDefault, t) {
        EndInSameMinute(t);
        StillWithin(tvs, scheduleDefault, t, MINUTE * (t / MINUTE) + (MINUTE - 1));
        EndOfMinute(tvs, t / MINUTE);
      }
    }
    if AsRead(tvs, scheduleDefault) {
      forall k | 0 <= k < |tvs| && !OnMinute(tvs[k]) ensures tvs[k].value == InEffect(tvs, scheduleDefault, k) {
        SubMinute(tvs[k]);
        AroundEntry(tvs, scheduleDefault, k);
        var t := Instant(tvs[k]);
        assert ReadsRight(tvs, scheduleDefault, t) && ReadsRight(tvs, scheduleDefault, t - 1);
      }
    }
  }

  lemma {:induction false} EndInSameMinute(t: nat)
    ensures t <= MINUTE * (t / MINUTE) + (MINUTE - 1)
    ensures (MINUTE * (t / MINUTE) + (MINUTE - 1)) / MINUTE == t / MINUTE
  {
  }

  lemma {:induction false} SubMinute(tv: TimeValue)
    requires InRange(tv) && !OnMinute(tv)
    ensures Instant(tv) > 0 && (Instant(tv) - 1) / MINUTE == Instant(tv) / MINUTE
  {
    WithinMinute(tv, 0);
    assert Instant(tv) == MINUTE * EntryOf(tv).minute + (100 * tv.second + tv.hundredth);
  }
}
