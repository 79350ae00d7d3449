/**
Slowing down password guessing (bms/auth.py, LoginThrottle; the guard of
bms/api.py, login).  Logins on one key may overlap: the password check runs in a
thread between looking at the throttle and recording the failure.
*/
module LoginThrottle {

  // ------------------------------------------------------------------- keys

  /** `f"{username.lower()}|{client}"`, given how lower-casing works. */
  function Key(username: string, client: string, lower: string -> string): string {
    lower(username) + "|" + client
  }

  /** One username, a bar and `part` begin the other pair, and the rest is the other client. */
  predicate Swallows(p: string, c: string, q: string, d: string) {
    && |p| < |q| && q[..|p|] == p && q[|p|] == '|'
    && c == q[|p| + 1..] + "|" + d
  }

  lemma {:induction false} SameParts(p: string, c: string, q: string, d: string)
    requires |p| == |q|
    ensures p + "|" + c == q + "|" + d <==> p == q && c == d
  {
    var k, l := p + "|" + c, q + "|" + d;
    if k == l {
      assert k[..|p|] == p && l[..|q|] == q;
      assert k[|p| + 1..] == c && l[|q| + 1..] == d;
    }
  }

  lemma {:induction false} LongerPart(p: string, c: string, q: string, d: string)
    requires |p| < |q|
    ensures p + "|" + c == q + "|" + d <==> Swallows(p, c, q, d)
  {
    var k, l := p + "|" + c, q + "|" + d;
    if k == l {
      assert k[..|p|] == p && l[..|p|] == q[..|p|];
      assert k[|p|] == '|' && l[|p|] == q[|p|];
      assert k[|p| + 1..] == c && l[|p| + 1..] == q[|p| + 1..] + "|" + d;
    }
    if Swallows(p, c, q, d) {
      assert q == p + "|" + q[|p| + 1..];
    }
  }

  /**
  Two logins share a key exactly when client and username, up to case, are the
  same, or when one username swallows a bar and the front of the other's client.
  */
  lemma {:induction false} KeysTellApart(u: string, c: string, v: string, d: string, lower: string -> string)
    ensures Key(u, c, lower) == Key(v, d, lower)
            <==> (lower(u) == lower(v) && c == d)
                 || Swallows(lower(u), c, lower(v), d) || Swallows(lower(v), d, lower(u), c)
  {
    var p, q := lower(u), lower(v);
    if |p| == |q| {
      SameParts(p, c, q, d);
    } else if |p| < |q| {
      LongerPart(p, c, q, d);
    } else {
      LongerPart(q, d, p, c);
    }
  }

  /** A client that is a socket address has no bar in it, and then no two are confused. */
  lemma {:induction false} DirectClientsApart(u: string, c: string, v: string, d: string, lower: string -> string)
    requires '|' !in c && '|' !in d
    ensures Key(u, c, lower) == Key(v, d, lower) <==> lower(u) == lower(v) && c == d
  {
    KeysTellApart(u, c, v, d, lower);
    BarInSwallower(lower(u), c, lower(v), d);
    BarInSwallower(lower(v), d, lower(u), c);
  }

  lemma {:induction false} BarInSwallower(p: string, c: string, q: string, d: string)
    ensures Swallows(p, c, q, d) ==> '|' in c
  {
    if Swallows(p, c, q, d) {
      assert c[|q[|p| + 1..]|] == '|';
    }
  }

  /** Behind a proxy the client is the text of a header, and a bar in it can be taken for the separator. */
  lemma {:induction false} HeaderClientsClash(lower: string -> string)
    requires lower("a") == "a" && lower("a|b") == "a|b"
    ensures Key("a|b", "c", lower) == Key("a", "b|c", lower)
  {
    assert "a|b" + "|" + "c" == "a" + "|" + "b|c";
  }

  // ------------------------------------------------------------ the throttle

  type Attempts = map<string, seq<real>>

  /** The times in the window that ends at `now`. */
  function Recent(times: seq<real>, now: real, window: real): seq<real> {
    if times == [] then []
    else Recent(times[..|times| - 1], now, window)
         + if now - times[|times| - 1] < window then [times[|times| - 1]] else []
  }

  function Stored(a: Attempts, key: string): seq<real> {
    if key in a then a[key] else []
  }

  /** `login` looks at the throttle; the password was wrong; the password was right. */
  datatype Event = Check(key: string, at: real) | Fail(key: string, at: real) | Succeed(key: string, at: real)

  datatype Limits = Limits(max: nat, window: real)

  function Step(a: Attempts, e: Event, l: Limits): Attempts {
    match e
    case Check(key, at) => a[key := Recent(Stored(a, key), at, l.window)]
    case Fail(key, at) => a[key := Recent(Stored(a, key), at, l.window) + [at]]
    case Succeed(key, at) => a - {key}
  }

  predicate Blocked(a: Attempts, key: string, now: real, l: Limits) {
    |Recent(Stored(a, key), now, l.window)| >= l.max
  }

  class Throttle {
    const limits: Limits
    var attempts: Attempts

    constructor (limits: Limits)
      ensures attempts == map[] && this.limits == limits
    {
      this.limits := limits;
      attempts := map[];
    }

    method Prune(key: string, now: real) returns (recent: seq<real>)
      modifies this
      ensures recent == Recent(old(Stored(attempts, key)), now, limits.window)
      ensures attempts == old(attempts)[key := recent]
    {
      var stored := Stored(attempts, key);
      recent := [];
      for i := 0 to |stored|
        invariant recent == Recent(stored[..i], now, limits.window)
      {
        assert stored[..i + 1][..i] == stored[..i];
        if now - stored[i] < limits.window {
          recent := recent + [stored[i]];
        }
      }
      assert stored[..|stored|] == stored;
      attempts := attempts[key := recent];
    }

    method CheckBlocked(key: string, now: real) returns (blocked: bool)
      modifies this
      ensures attempts == Step(old(attempts), Check(key, now), limits)
      ensures blocked == Blocked(old(attempts), key, now, limits)
    {
      var recent := Prune(key, now);
      blocked := |recent| >= limits.max;
    }

    method RecordFailure(key: string, now: real)
      modifies this
      ensures attempts == Step(old(attempts), Fail(key, now), limits)
    {
      var recent := Prune(key, now);
      attempts := attempts[key := recent + [now]];
    }

    method Clear(key: string, now: real)
      modifies this
      ensures attempts == Step(old(attempts), Succeed(key, now), limits)
    {
      attempts := attempts - {key};
    }
  }

  // ------------------------------------------------------------------- runs

  function After(run: seq<Event>, l: Limits): Attempts {
    if run == [] then map[] else Step(After(run[..|run| - 1], l), run[|run| - 1], l)
  }

  /** The clock does not go back. */
  ghost predicate ClockForward(run: seq<Event>) {
    forall i, j :: 0 <= i < j < |run| ==> run[i].at <= run[j].at
  }

  ghost predicate NotBefore(run: seq<Event>, now: real) {
    forall i :: 0 <= i < |run| ==> run[i].at <= now
  }

  /** Every failure on `key` since the last success on it. */
  function Failures(run: seq<Event>, key: string): seq<real> {
    if run == [] then []
    else
      var before, e := Failures(run[..|run| - 1], key), run[|run| - 1];
      if e.key != key then before
      else match e
           case Check(_, _) => before
           case Fail(_, at) => before + [at]
           case Succeed(_, _) => []
  }

  lemma {:induction false} RecentAppend(times: seq<real>, t: real, now: real, window: real)
    ensures Recent(times + [t], now, window) == Recent(times, now, window) + if now - t < window then [t] else []
  {
    assert (times + [t])[..|times|] == times;
  }

  /** Forgetting early what a later look would drop anyway loses nothing. */
  lemma {:induction false} RecentTwice(times: seq<real>, early: real, late: real, window: real)
    requires early <= late
    ensures Recent(Recent(times, early, window), late, window) == Recent(times, late, window)
  {
    if times != [] {
      var init, t := times[..|times| - 1], times[|times| - 1];
      RecentTwice(init, early, late, window);
      if early - t < window {
        RecentAppend(Recent(init, early, window), t, late, window);
      } else {
        assert Recent(times, early, window) == Recent(init, early, window);
        assert Recent(times, late, window) == Recent(init, late, window);
      }
    }
  }

  /** The list kept for a key says as much as the whole history does, from now on. */
  lemma {:induction false} PrunedIsHistory(run: seq<Event>, key: string, now: real, l: Limits)
    requires ClockForward(run) && NotBefore(run, now)
    ensures Recent(Stored(After(run, l), key), now, l.window) == Recent(Failures(run, key), now, l.window)
  {
    if run != [] {
      var init, e := run[..|run| - 1], run[|run| - 1];
      var stored := Stored(After(init, l), key);
      PrunedIsHistory(init, key, now, l);
      RecentTwice(stored, e.at, now, l.window);
      RecentAppend(Recent(stored, e.at, l.window), e.at, now, l.window);
      RecentAppend(Failures(init, key), e.at, now, l.window);
    }
  }

  /** So a login is refused exactly when the window before it holds `max` failures since the last success. */
  lemma {:induction false} BlockedExactly(run: seq<Event>, key: string, now: real, l: Limits)
    requires ClockForward(run) && NotBefore(run, now)
    ensures Blocked(After(run, l), key, now, l) <==> |Recent(Failures(run, key), now, l.window)| >= l.max
  {
    PrunedIsHistory(run, key, now, l);
  }

  // --------------------------------------------------------- overlapping logins

  /** Logins on `key` let past the check and not yet answered. */
  function InFlight(run: seq<Event>, key: string, l: Limits): int {
    if run == [] then 0
    else
      var init, e := run[..|run| - 1], run[|run| - 1];
      InFlight(init, key, l)
      + if e.key != key then 0
        else if e.Check? then (if Blocked(After(init, l), key, e.at, l) then 0 else 1)
        else -1
  }

  /** At every moment every answer belongs to a login that passed the check, and at most `k` are under way on `key`. */
  ghost predicate Guarded(run: seq<Event>, key: string, k: nat, l: Limits) {
    0 <= InFlight(run, key, l) <= k && (run == [] || Guarded(run[..|run| - 1], key, k, l))
  }

  lemma {:induction false} RecentShrinks(times: seq<real>, early: real, late: real, window: real)
    requires early <= late
    ensures |Recent(times, late, window)| <= |Recent(times, early, window)|
  {
    if times != [] {
      RecentShrinks(times[..|times| - 1], early, late, window);
    }
  }

  /**
  Whatever happens on other keys: any stretch of `window` seconds holds at most
  max - 1 + k failures since the last success on the key, counting the logins
  still under way, when no more than `k` overlap.
  */
  lemma {:induction false} WindowHolds(run: seq<Event>, key: string, k: nat, now: real, l: Limits)
    requires ClockForward(run) && NotBefore(run, now) && Guarded(run, key, k, l) && k >= 1 && l.max >= 1
    ensures |Recent(Failures(run, key), now, l.window)| + InFlight(run, key, l) <= l.max - 1 + k
  {
    if run != [] {
      var init, e := run[..|run| - 1], run[|run| - 1];
      WindowHolds(init, key, k, e.at, l);
      RecentShrinks(Failures(init, key), e.at, now, l.window);
      if e.key == key {
        BlockedExactly(init, key, e.at, l);
        RecentAppend(Failures(init, key), e.at, now, l.window);
      }
    }
  }

  /** One login at a time: no window holds more than `max` failures. */
  lemma {:induction false} SequentialWindow(run: seq<Event>, key: string, now: real, l: Limits)
    requires ClockForward(run) && NotBefore(run, now) && Guarded(run, key, 1, l) && l.max >= 1
    ensures |Recent(Failures(run, key), now, l.window)| <= l.max
  {
    WindowHolds(run, key, 1, now, l);
  }

  // ---------------------------------------------------- the bound is attained

  /** Something added `n` times. */
  function Many(run: seq<Event>, add: seq<Event> -> seq<Event>, n: nat): seq<Event> {
    if n == 0 then run else add(Many(run, add, n - 1))
  }

  function WrongLogin(run: seq<Event>, key: string, at: real): seq<Event> {
    run + [Check(key, at)] + [Fail(key, at)]
  }

  /** All at one moment: max - 1 logins one after the other, all wrong, then `k` looked at together, then those `k` wrong as well. */
  function Burst(key: string, at: real, k: nat, l: Limits): seq<Event>
    requires l.max >= 1
  {
    var wrong := Many([], r => WrongLogin(r, key, at), l.max - 1);
    var checked := Many(wrong, r => r + [Check(key, at)], k);
    Many(checked, r => r + [Fail(key, at)], k)
  }

  /** What every addition keeps, counting up, holds after `n` of them. */
  lemma {:induction false} ManyKeep(P: (seq<Event>, nat) -> bool, run: seq<Event>, add: seq<Event> -> seq<Event>, n: nat)
    requires P(run, 0) && forall r, j: nat :: P(r, j) && j < n ==> P(add(r), j + 1)
    ensures P(Many(run, add, n), n)
  {
    ManyKeepSome(P, run, add, n, n);
  }

  lemma {:induction false} ManyKeepSome(P: (seq<Event>, nat) -> bool, run: seq<Event>, add: seq<Event> -> seq<Event>, m: nat, n: nat)
    requires P(run, 0) && m <= n && forall r, j: nat :: P(r, j) && j < n ==> P(add(r), j + 1)
    ensures P(Many(run, add, m), m)
  {
    if m > 0 {
      ManyKeepSome(P, run, add, m - 1, n);
    }
  }

  ghost predicate AllAt(run: seq<Event>, at: real) {
    forall i :: 0 <= i < |run| ==> run[i].at == at
  }

  /** Where a run on one key at one moment stands: failures in the window, and logins under way. */
  ghost predicate Stands(run: seq<Event>, key: string, at: real, failures: nat, flying: int, l: Limits) {
    && AllAt(run, at)
    && |Recent(Failures(run, key), at, l.window)| == failures && |Recent(Stored(After(run, l), key), at, l.window)| == failures
    && InFlight(run, key, l) == flying
  }

  lemma {:induction false} RunSnoc(run: seq<Event>, e: Event, key: string, l: Limits)
    ensures After(run + [e], l) == Step(After(run, l), e, l)
    ensures InFlight(run + [e], key, l)
            == InFlight(run, key, l)
               + if e.key != key then 0
                 else if e.Check? then (if Blocked(After(run, l), key, e.at, l) then 0 else 1)
                 else -1
    ensures e.key == key && e.Check? ==> Failures(run + [e], key) == Failures(run, key)
    ensures e.key == key && e.Fail? ==> Failures(run + [e], key) == Failures(run, key) + [e.at]
  {
    assert (run + [e])[..|run|] == run;
  }

  lemma {:induction false} OneCheck(run: seq<Event>, key: string, at: real, failures: nat, flying: int, l: Limits)
    requires Stands(run, key, at, failures, flying, l) && failures < l.max
    ensures Stands(run + [Check(key, at)], key, at, failures, flying + 1, l)
  {
    RunSnoc(run, Check(key, at), key, l);
    RecentTwice(Stored(After(run, l), key), at, at, l.window);
  }

  lemma {:induction false} OneFail(run: seq<Event>, key: string, at: real, failures: nat, flying: int, l: Limits)
    requires Stands(run, key, at, failures, flying, l) && l.window > 0.0
    ensures Stands(run + [Fail(key, at)], key, at, failures + 1, flying - 1, l)
  {
    RunSnoc(run, Fail(key, at), key, l);
    RecentTwice(Stored(After(run, l), key), at, at, l.window);
    RecentAppend(Recent(Stored(After(run, l), key), at, l.window), at, at, l.window);
    RecentAppend(Failures(run, key), at, at, l.window);
  }

  lemma {:induction false} GuardedSnoc(run: seq<Event>, e: Event, key: string, k: nat, l: Limits)
    requires Guarded(run, key, k, l) && 0 <= InFlight(run + [e], key, l) <= k
    ensures Guarded(run + [e], key, k, l)
  {
    assert (run + [e])[..|run|] == run;
  }

  /** Where a run stands that never had more than `k` under way. */
  ghost predicate Within(run: seq<Event>, key: string, at: real, failures: nat, flying: int, k: nat, l: Limits) {
    Stands(run, key, at, failures, flying, l) && Guarded(run, key, k, l)
  }

  lemma {:induction false} CheckWithin(run: seq<Event>, key: string, at: real, failures: nat, flying: int, k: nat, l: Limits)
    requires Within(run, key, at, failures, flying, k, l) && failures < l.max && 0 <= flying < k
    ensures Within(run + [Check(key, at)], key, at, failures, flying + 1, k, l)
  {
    OneCheck(run, key, at, failures, flying, l);
    GuardedSnoc(run, Check(key, at), key, k, l);
  }

  lemma {:induction false} FailWithin(run: seq<Event>, key: string, at: real, failures: nat, flying: int, k: nat, l: Limits)
    requires Within(run, key, at, failures, flying, k, l) && l.window > 0.0 && 0 < flying <= k
    ensures Within(run + [Fail(key, at)], key, at, failures + 1, flying - 1, k, l)
  {
    OneFail(run, key, at, failures, flying, l);
    GuardedSnoc(run, Fail(key, at), key, k, l);
  }

  lemma {:induction false} NothingWithin(key: string, at: real, k: nat, l: Limits)
    ensures Within([], key, at, 0, 0, k, l)
  {
  }

  lemma {:induction false} WrongOnce(run: seq<Event>, key: string, at: real, failures: nat, k: nat, l: Limits)
    requires Within(run, key, at, failures, 0, k, l) && failures < l.max && k >= 1 && l.window > 0.0
    ensures Within(WrongLogin(run, key, at), key, at, failures + 1, 0, k, l)
  {
    CheckWithin(run, key, at, failures, 0, k, l);
    FailWithin(run + [Check(key, at)], key, at, failures, 1, k, l);
  }

  lemma {:induction false} AllWrong(key: string, at: real, k: nat, l: Limits)
    requires k >= 1 && l.max >= 1 && l.window > 0.0
    ensures Within(Many([], r => WrongLogin(r, key, at), l.max - 1), key, at, l.max - 1, 0, k, l)
  {
    var P := (r: seq<Event>, j: nat) => Within(r, key, at, j, 0, k, l);
    NothingWithin(key, at, k, l);
    forall r, j: nat | P(r, j) && j < l.max - 1 ensures P(WrongLogin(r, key, at), j + 1) {
      WrongOnce(r, key, at, j, k, l);
    }
    ManyKeep(P, [], r => WrongLogin(r, key, at), l.max - 1);
  }

  lemma {:induction false} AllChecked(run: seq<Event>, key: string, at: real, failures: nat, k: nat, l: Limits)
    requires Within(run, key, at, failures, 0, k, l) && failures < l.max
    ensures Within(Many(run, r => r + [Check(key, at)], k), key, at, failures, k, k, l)
  {
    var P := (r: seq<Event>, j: nat) => Within(r, key, at, failures, j, k, l);
    forall r, j: nat | P(r, j) && j < k ensures P(r + [Check(key, at)], j + 1) {
      CheckWithin(r, key, at, failures, j, k, l);
    }
    ManyKeep(P, run, r => r + [Check(key, at)], k);
  }

  /** `j` of the `k` logins under way have failed. */
  ghost predicate SomeFailed(run: seq<Event>, key: string, at: real, failures: nat, k: nat, l: Limits, j: nat) {
    Within(run, key, at, failures + j, k - j, k, l)
  }

  lemma {:induction false} OneMoreFailed(run: seq<Event>, key: string, at: real, failures: nat, k: nat, l: Limits, j: nat)
    requires SomeFailed(run, key, at, failures, k, l, j) && j < k && l.window > 0.0
    ensures SomeFailed(run + [Fail(key, at)], key, at, failures, k, l, j + 1)
  {
    FailWithin(run, key, at, failures + j, k - j, k, l);
  }

  lemma {:induction false} NoneFailed(run: seq<Event>, key: string, at: real, failures: nat, k: nat, l: Limits)
    requires Within(run, key, at, failures, k, k, l)
    ensures SomeFailed(run, key, at, failures, k, l, 0)
  {
  }

  lemma {:induction false} AllFailed(run: seq<Event>, key: string, at: real, failures: nat, k: nat, l: Limits)
    requires SomeFailed(run, key, at, failures, k, l, 0) && l.window > 0.0
    ensures SomeFailed(Many(run, r => r + [Fail(key, at)], k), key, at, failures, k, l, k)
  {
    var P := (r: seq<Event>, j: nat) => SomeFailed(r, key, at, failures, k, l, j);
    forall r, j: nat | P(r, j) && j < k ensures P(r + [Fail(key, at)], j + 1) {
      OneMoreFailed(r, key, at, failures, k, l, j);
    }
    ManyKeep(P, run, r => r + [Fail(key, at)], k);
  }

  lemma {:induction false} BurstWithin(key: string, at: real, k: nat, l: Limits)
    requires k >= 1 && l.max >= 1 && l.window > 0.0
    ensures SomeFailed(Burst(key, at, k, l), key, at, l.max - 1, k, l, k)
  {
    var wrong := Many([], r => WrongLogin(r, key, at), l.max - 1);
    var checked := Many(wrong, r => r + [Check(key, at)], k);
    AllWrong(key, at, k, l);
    AllChecked(wrong, key, at, l.max - 1, k, l);
    NoneFailed(checked, key, at, l.max - 1, k, l);
    AllFailed(checked, key, at, l.max - 1, k, l);
  }

  lemma {:induction false} WithinMeans(run: seq<Event>, key: string, at: real, failures: nat, k: nat, l: Limits)
    requires SomeFailed(run, key, at, failures, k, l, k)
    ensures ClockForward(run) && NotBefore(run, at) && Guarded(run, key, k, l)
    ensures |Recent(Failures(run, key), at, l.window)| == failures + k
  {
  }

  /** For every limit and every `k` there is a run with at most `k` logins under way whose window holds exactly max - 1 + k failures. */
  lemma {:induction false} WindowAttained(key: string, at: real, k: nat, l: Limits)
    requires k >= 1 && l.max >= 1 && l.window > 0.0
    ensures var run := Burst(key, at, k, l);
            && ClockForward(run) && NotBefore(run, at) && Guarded(run, key, k, l)
            && |Recent(Failures(run, key), at, l.window)| == l.max - 1 + k
  {
    BurstWithin(key, at, k, l);
    WithinMeans(Burst(key, at, k, l), key, at, l.max - 1, k, l);
  }

  // ------------------------------------------------------------- other keys

  /** The events on one key. */
  function On(run: seq<Event>, key: string): seq<Event> {
    if run == [] then []
    else On(run[..|run| - 1], key) + if run[|run| - 1].key == key then [run[|run| - 1]] else []
  }

  /** What a key is told depends on that key alone: nobody is locked out by attempts on another. */
  lemma {:induction false} OtherKeysIrrelevant(run: seq<Event>, key: string, l: Limits)
    ensures Stored(After(run, l), key) == Stored(After(On(run, key), l), key)
  {
    if run != [] {
      var init, e := run[..|run| - 1], run[|run| - 1];
      OtherKeysIrrelevant(init, key, l);
      if e.key == key {
        assert On(run, key)[..|On(init, key)|] == On(init, key);
      } else {
        assert On(run, key) == On(init, key);
      }
    }
  }
}
