/**
The cached state of one thermostat (bms/cache.py, DeviceState and the recorders
of Cache; bms/poller.py, _poll_device) against the whole history of its polls.
*/
module DeviceCache {
  import opened Prelude

  type Values = map<string, real>

  /** What happens to a device's cache entry, in order. */
  datatype Event =
    | Answered(values: Values, ms: real)      // a poll that succeeded
    | Refreshed(values: Values)               // settle_and_refresh: read again after a command, untimed
    | NoAnswer                                // DeviceUnreachable
    | InternalError                           // anything else raised while polling
    | Wrote(key: string, value: real)         // apply_local_write

  predicate IsAnswer(e: Event) {
    e.Answered? || e.Refreshed?
  }

  predicate IsMiss(e: Event) {
    e.NoAnswer? || e.InternalError?
  }

  /** The fields of DeviceState that record_success and record_failure keep. */
  datatype State = State(values: Values, answered: bool, consecutive: nat, polls: nat, failures: nat, avg: Option<real>)

  const FRESH := State(map[], false, 0, 0, 0, None)

  /** The smoothed round trip: a fifth of the new sample, four fifths of the old average. */
  function Smooth(avg: Option<real>, ms: real): real {
    match avg case None => ms case Some(a) => a * 0.8 + ms * 0.2
  }

  function Apply(s: State, e: Event): State {
    match e
    case Answered(values, ms) => State(values, true, 0, s.polls + 1, s.failures, Some(Smooth(s.avg, ms)))
    case Refreshed(values) => State(values, true, 0, s.polls + 1, s.failures, s.avg)
    case NoAnswer => s.(consecutive := s.consecutive + 1, failures := s.failures + 1)
    case InternalError => s.(consecutive := s.consecutive + 1, failures := s.failures + 1)
    case Wrote(key, value) => s.(values := s.values[key := value])
  }

  /** The state a history leads to. */
  function After(h: seq<Event>): State {
    if h == [] then FRESH else Apply(After(h[..|h| - 1]), h[|h| - 1])
  }

  predicate Online(s: State, offlineAfter: nat) {
    s.consecutive < offlineAfter && s.answered
  }

  predicate Unstable(s: State, offlineAfter: nat) {
    0 < s.consecutive < offlineAfter
  }

  function FailureRate(s: State): Option<real> {
    if s.polls + s.failures == 0 then None else Some(s.failures as real / (s.polls + s.failures) as real)
  }

  // ------------------------------------------------------ as the code keeps it

  class DeviceState {
    var values: Values
    var answered: bool
    var consecutiveFailures: nat
    var totalPolls: nat
    var totalFailures: nat
    var lastPollMs: Option<real>
    var avgPollMs: Option<real>

    ghost function Contents(): State
      reads this
    {
      State(values, answered, consecutiveFailures, totalPolls, totalFailures, avgPollMs)
    }

    constructor ()
      ensures Contents() == FRESH && lastPollMs == None
    {
      values, answered := map[], false;
      consecutiveFailures, totalPolls, totalFailures := 0, 0, 0;
      lastPollMs, avgPollMs := None, None;
    }

    method RecordSuccess(read: Values, elapsedMs: Option<real>)
      modifies this
      ensures Contents() == Apply(old(Contents()), if elapsedMs.Some? then Answered(read, elapsedMs.value) else Refreshed(read))
      ensures lastPollMs == if elapsedMs.Some? then elapsedMs else old(lastPollMs)
    {
      values, answered := read, true;
      consecutiveFailures := 0;
      totalPolls := totalPolls + 1;
      if elapsedMs.Some? {
        lastPollMs := elapsedMs;
        avgPollMs := Some(Smooth(avgPollMs, elapsedMs.value));
      }
    }

    method RecordFailure()
      modifies this
      ensures Contents() == Apply(old(Contents()), NoAnswer) && lastPollMs == old(lastPollMs)
    {
      consecutiveFailures := consecutiveFailures + 1;
      totalFailures := totalFailures + 1;
    }

    method ApplyLocalWrite(key: string, value: real)
      modifies this
      ensures Contents() == Apply(old(Contents()), Wrote(key, value)) && lastPollMs == old(lastPollMs)
    {
      values := values[key := value];
    }
  }

  // -------------------------------------------------- against the full history

  /** How many events of `h` satisfy `p`. */
  function Count(h: seq<Event>, p: Event -> bool): nat {
    if h == [] then 0 else Count(h[..|h| - 1], p) + if p(h[|h| - 1]) then 1 else 0
  }

  /** `i` is the last answer in the history. */
  ghost predicate LastAnswer(h: seq<Event>, i: int) {
    0 <= i < |h| && IsAnswer(h[i]) && forall j :: i < j < |h| ==> !IsAnswer(h[j])
  }

  ghost predicate NoAnswers(h: seq<Event>) {
    forall j :: 0 <= j < |h| ==> !IsAnswer(h[j])
  }

  lemma {:induction false} LastAnswerSplit(h: seq<Event>, i: nat)
    requires LastAnswer(h, i) && i < |h| - 1
    ensures LastAnswer(h[..|h| - 1], i)
  {
  }

  lemma {:induction false} MissesSince(h: seq<Event>, i: nat)
    requires LastAnswer(h, i)
    ensures After(h).answered && After(h).consecutive == Count(h[i + 1..], IsMiss)
  {
    if i < |h| - 1 {
      LastAnswerSplit(h, i);
      MissesSince(h[..|h| - 1], i);
      assert h[i + 1..][..|h| - i - 2] == h[..|h| - 1][i + 1..];
    } else {
      assert h[i + 1..] == [];
    }
  }

  lemma {:induction false} NeverAnswered(h: seq<Event>)
    requires NoAnswers(h)
    ensures !After(h).answered && After(h).consecutive == Count(h, IsMiss)
  {
    if h != [] {
      NeverAnswered(h[..|h| - 1]);
    }
  }

  lemma {:induction false} HasLastAnswer(h: seq<Event>) returns (i: nat)
    requires !NoAnswers(h)
    ensures LastAnswer(h, i)
  {
    if IsAnswer(h[|h| - 1]) {
      i := |h| - 1;
    } else {
      assert forall j :: 0 <= j < |h| - 1 ==> h[..|h| - 1][j] == h[j];
      i := HasLastAnswer(h[..|h| - 1]);
    }
  }

  /** Online: the device answered once, and fewer than `offlineAfter` polls have failed since it last did. */
  lemma {:induction false} OnlineExactly(h: seq<Event>, offlineAfter: nat)
    ensures Online(After(h), offlineAfter) <==> exists i :: LastAnswer(h, i) && Count(h[i + 1..], IsMiss) < offlineAfter
  {
    if NoAnswers(h) {
      NeverAnswered(h);
    } else {
      var i := HasLastAnswer(h);
      MissesSince(h, i);
      forall k | LastAnswer(h, k) ensures k == i {
      }
    }
  }

  /** Unstable: some failures since, but not enough of them. A device that never answered counts too. */
  lemma {:induction false} UnstableExactly(h: seq<Event>, offlineAfter: nat)
    ensures Unstable(After(h), offlineAfter)
            <==> (NoAnswers(h) && 0 < Count(h, IsMiss) < offlineAfter)
                 || exists i :: LastAnswer(h, i) && 0 < Count(h[i + 1..], IsMiss) < offlineAfter
  {
    if NoAnswers(h) {
      NeverAnswered(h);
    } else {
      var i := HasLastAnswer(h);
      MissesSince(h, i);
      forall k | LastAnswer(h, k) ensures k == i {
      }
    }
  }

  lemma {:induction false} TotalsCount(h: seq<Event>)
    ensures After(h).polls == Count(h, IsAnswer) && After(h).failures == Count(h, IsMiss)
  {
    if h != [] {
      TotalsCount(h[..|h| - 1]);
    }
  }

  /** `rate` is the share `part` of `whole`; there is none of nothing. */
  predicate IsShare(rate: Option<real>, part: nat, whole: nat) {
    if whole == 0 then rate == None
    else rate.Some? && 0.0 <= rate.value <= 1.0 && rate.value * whole as real == part as real
  }

  lemma {:induction false} Share(part: real, whole: real)
    requires 0.0 <= part <= whole && whole > 0.0
    ensures 0.0 <= part / whole <= 1.0 && part / whole * whole == part
  {
  }

  lemma {:induction false} RateOf(s: State)
    ensures IsShare(FailureRate(s), s.failures, s.polls + s.failures)
  {
    if s.polls + s.failures > 0 {
      Share(s.failures as real, (s.polls + s.failures) as real);
    }
  }

  /** The failure rate is the share of attempts in the history that failed. */
  lemma {:induction false} RateIsShare(h: seq<Event>)
    ensures IsShare(FailureRate(After(h)), Count(h, IsMiss), Count(h, IsAnswer) + Count(h, IsMiss))
  {
    TotalsCount(h);
    RateOf(After(h));
  }

  // ------------------------------------------------------- the cached values

  /** The event settles what the cache holds for a key: a reading does for every key, a write for its own. */
  predicate Settles(e: Event, key: string) {
    IsAnswer(e) || (e.Wrote? && e.key == key)
  }

  /** And this is what: a reading without the key leaves nothing. */
  function Said(e: Event, key: string): Option<real> {
    match e
    case Answered(values, _) => if key in values then Some(values[key]) else None
    case Refreshed(values) => if key in values then Some(values[key]) else None
    case Wrote(k, value) => if k == key then Some(value) else None
    case _ => None
  }

  /** The last event that settles the key. */
  ghost predicate LastSettles(h: seq<Event>, i: int, key: string) {
    0 <= i < |h| && Settles(h[i], key) && forall j :: i < j < |h| ==> !Settles(h[j], key)
  }

  lemma {:induction false} StillSettles(h: seq<Event>, i: int, key: string)
    requires h != [] && !Settles(h[|h| - 1], key)
    ensures LastSettles(h, i, key) <==> LastSettles(h[..|h| - 1], i, key)
  {
    assert forall j :: 0 <= j < |h| - 1 ==> h[..|h| - 1][j] == h[j];
  }

  /** The cache holds a value for a key exactly if the last event that settled the key said that value. */
  lemma {:induction false} CachedExactly(h: seq<Event>, key: string, value: real)
    ensures key in After(h).values && After(h).values[key] == value
            <==> exists i :: LastSettles(h, i, key) && Said(h[i], key) == Some(value)
  {
    if h != [] {
      var n := |h| - 1;
      CachedExactly(h[..n], key, value);
      if Settles(h[n], key) {
        assert LastSettles(h, n, key);
      } else {
        forall i ensures LastSettles(h, i, key) <==> LastSettles(h[..n], i, key) {
          StillSettles(h, i, key);
        }
      }
    }
  }

  // ------------------------------------------------------- the smoothed average

  lemma {:induction false} Between(a: real, ms: real, lo: real, hi: real)
    requires lo <= a <= hi && lo <= ms <= hi
    ensures lo <= a * 0.8 + ms * 0.2 <= hi
  {
  }

  /** The average lies between any bounds of the samples, and exists once there is one. */
  lemma {:induction false} AverageBetween(h: seq<Event>, lo: real, hi: real)
    requires forall i :: 0 <= i < |h| && h[i].Answered? ==> lo <= h[i].ms <= hi
    ensures After(h).avg.Some? ==> lo <= After(h).avg.value <= hi
    ensures After(h).avg.Some? <==> exists i :: 0 <= i < |h| && h[i].Answered?
  {
    if h != [] {
      var init, last := h[..|h| - 1], h[|h| - 1];
      AverageBetween(init, lo, hi);
      if last.Answered? {
        if After(init).avg.Some? { Between(After(init).avg.value, last.ms, lo, hi); }
      } else if i :| 0 <= i < |h| && h[i].Answered? {
        assert init[i] == h[i];
      }
    }
  }

  function Power(base: real, n: nat): real {
    if n == 0 then 1.0 else base * Power(base, n - 1)
  }

  lemma {:induction false} AfterOneMore(h: seq<Event>, e: Event)
    ensures After(h + [e]) == Apply(After(h), e)
  {
    assert (h + [e])[..|h|] == h;
  }

  predicate OffBy(s: State, ms: real, d: real) {
    s.avg.Some? && s.avg.value - ms == d
  }

  lemma {:induction false} SamplePulls(s: State, e: Event, ms: real, d: real)
    requires e.Answered? && e.ms == ms && OffBy(s, ms, d)
    ensures OffBy(Apply(s, e), ms, 0.8 * d)
  {
  }

  /** What is left of an error after `n` samples. */
  function Left(n: nat, d: real): real {
    if n == 0 then d else 0.8 * Left(n - 1, d)
  }

  lemma {:induction false} LeftIsPower(n: nat, d: real)
    ensures Left(n, d) == Power(0.8, n) * d
  {
    if n > 0 {
      LeftIsPower(n - 1, d);
      Reassociate(Power(0.8, n - 1), d);
    }
  }

  predicate Samples(more: seq<Event>, ms: real) {
    forall i :: 0 <= i < |more| ==> more[i].Answered? && more[i].ms == ms
  }

  lemma {:induction false} SettlesStep(h: seq<Event>, more: seq<Event>, ms: real, d: real)
    requires OffBy(After(h), ms, d) && Samples(more, ms)
    ensures OffBy(After(h + more), ms, Left(|more|, d))
  {
    if more == [] {
      assert h + more == h;
    } else {
      var init, last := more[..|more| - 1], more[|more| - 1];
      assert Samples(init, ms) && last.Answered? && last.ms == ms;
      SettlesStep(h, init, ms, d);
      assert h + more == (h + init) + [last];
      AfterOneMore(h + init, last);
      SamplePulls(After(h + init), last, ms, Left(|init|, d));
    }
  }

  /** After `n` equal samples the average is off by 0.8 to the n of what it was off by. */
  lemma {:induction false} SettlesGeometrically(h: seq<Event>, more: seq<Event>, ms: real, d: real)
    requires OffBy(After(h), ms, d) && Samples(more, ms)
    ensures OffBy(After(h + more), ms, Power(0.8, |more|) * d)
  {
    SettlesStep(h, more, ms, d);
    LeftIsPower(|more|, d);
  }

  lemma {:induction false} Reassociate(power: real, d: real)
    ensures 0.8 * (power * d) == (0.8 * power) * d
  {
  }

  lemma {:induction false} FifteenthPower()
    ensures 0.0 < Power(0.8, 15) < 0.04
  {
    var p := 0.8 * 0.8 * 0.8 * 0.8 * 0.8;
    PowerAdds(0.8, 5, 10);
    PowerAdds(0.8, 5, 5);
    assert Power(0.8, 5) == p;
  }

  lemma {:induction false} Scales(power: real, d: real)
    requires 0.0 < power < 0.04
    ensures d >= 0.0 ==> 0.0 <= power * d <= 0.04 * d
    ensures d <= 0.0 ==> 0.04 * d <= power * d <= 0.0
  {
  }

  /** Whatever came before, fifteen polls of the same length leave less than a twenty-fifth of the error, on its own side. */
  lemma {:induction false} FifteenPollsSettle(h: seq<Event>, more: seq<Event>, ms: real)
    requires After(h).avg.Some? && |more| == 15 && Samples(more, ms)
    ensures After(h + more).avg.Some?
    ensures var before, after := After(h).avg.value - ms, After(h + more).avg.value - ms;
            if before >= 0.0 then 0.0 <= after <= 0.04 * before else 0.04 * before <= after <= 0.0
  {
    var d := After(h).avg.value - ms;
    SettlesGeometrically(h, more, ms, d);
    FifteenthPower();
    Scales(Power(0.8, 15), d);
  }

  lemma {:induction false} PowerAdds(base: real, m: nat, n: nat)
    ensures Power(base, m + n) == Power(base, m) * Power(base, n)
  {
    if m > 0 {
      PowerAdds(base, m - 1, n);
    }
  }

  // ---------------------------------------------------------- going offline

  /** The poll that fails at `k` is the one the code warns about. */
  predicate Warns(h: seq<Event>, k: nat, offlineAfter: nat) {
    k < |h| && h[k].NoAnswer? && After(h[..k + 1]).consecutive == offlineAfter
  }

  lemma {:induction false} CountNeverDrops(h: seq<Event>, j: nat, k: nat)
    requires j <= k <= |h| && forall i :: j <= i < k ==> !IsAnswer(h[i])
    ensures After(h[..j]).consecutive <= After(h[..k]).consecutive
    decreases k
  {
    if j < k {
      CountNeverDrops(h, j, k - 1);
      assert h[..k][..k - 1] == h[..k - 1];
    }
  }

  /** Between two warnings the device answered: one line per outage at most. */
  lemma {:induction false} WarnsOncePerOutage(h: seq<Event>, j: nat, k: nat, offlineAfter: nat)
    requires j < k && Warns(h, j, offlineAfter) && Warns(h, k, offlineAfter)
    ensures exists i :: j < i < k && IsAnswer(h[i])
  {
    assert h[..k + 1][..k] == h[..k];
    if forall i :: j < i < k ==> !IsAnswer(h[i]) {
      CountNeverDrops(h, j + 1, k);
    }
  }

  /** The device leaves online exactly when a poll fails and that makes `offlineAfter` since it last answered. */
  lemma {:induction false} LeavesOnline(h: seq<Event>, k: nat, offlineAfter: nat)
    requires k < |h| && offlineAfter >= 1
    ensures Online(After(h[..k]), offlineAfter) && !Online(After(h[..k + 1]), offlineAfter)
            <==> IsMiss(h[k]) && After(h[..k]).answered && After(h[..k + 1]).consecutive == offlineAfter
  {
    assert h[..k + 1][..k] == h[..k];
  }

  /** Leaving online is warned about unless it was an internal error that tipped it. */
  lemma {:induction false} LeavingIsWarned(h: seq<Event>, k: nat, offlineAfter: nat)
    requires k < |h| && offlineAfter >= 1
    requires Online(After(h[..k]), offlineAfter) && !Online(After(h[..k + 1]), offlineAfter)
    ensures Warns(h, k, offlineAfter) <==> !h[k].InternalError?
  {
    LeavesOnline(h, k, offlineAfter);
  }

  /** A warning means a device that was online left it, or one that has never answered. */
  lemma {:induction false} WarningMeansLeft(h: seq<Event>, k: nat, offlineAfter: nat)
    requires Warns(h, k, offlineAfter) && offlineAfter >= 1
    ensures (Online(After(h[..k]), offlineAfter) && !Online(After(h[..k + 1]), offlineAfter)) || NoAnswers(h[..k])
  {
    LeavesOnline(h, k, offlineAfter);
    assert h[..k + 1][..k] == h[..k];
    if !NoAnswers(h[..k]) {
      var i := HasLastAnswer(h[..k]);
      MissesSince(h[..k], i);
    }
  }
}
