/**
How long one pass over the fleet takes (bms/poller.py, poll_once).

With `poll_concurrency` above 1 the devices are gathered: every task asks at
once, device addresses are distinct, and the semaphore serves its waiters in the
order they asked.  So device k of the inventory is the k-th to get a slot, and a
free slot never stays unused while a device waits.  Request k holds its slot for
`hold[k]` seconds, whatever its outcome.  The clock is a real number.
*/
module PollCycle {
  import opened Prelude

  /** `start[k]` is when device k got its slot; `done` are the devices whose request has ended. */
  datatype Cycle = Cycle(now: real, start: seq<real>, done: set<nat>)

  datatype Move = Start | Finish(device: nat) | Wait(seconds: real)

  function Indices(n: nat): (r: set<nat>)
    ensures forall k :: k in r <==> 0 <= k < n
  {
    if n == 0 then {} else Indices(n - 1) + {n - 1}
  }

  /** The devices whose request is in flight. */
  function Busy(s: Cycle): set<nat> {
    Indices(|s.start|) - s.done
  }

  function Max(x: real, y: real): real { if x < y then y else x }

  ghost predicate Enabled(hold: seq<real>, slots: nat, s: Cycle, m: Move) {
    match m
    case Start => |s.start| < |hold| && |Busy(s)| < slots
    case Finish(k) => k in Busy(s) && k < |hold| && s.now == s.start[k] + hold[k]
    // Time passes only while no slot can be handed out, and never past the end of a request.
    case Wait(dt) =>
      && dt > 0.0
      && Busy(s) != {}
      && (|s.start| == |hold| || |Busy(s)| == slots)
      && forall k :: k in Busy(s) && k < |hold| ==> s.now + dt <= s.start[k] + hold[k]
  }

  function Next(s: Cycle, m: Move): Cycle {
    match m
    case Start => s.(start := s.start + [s.now])
    case Finish(k) => s.(done := s.done + {k})
    case Wait(dt) => s.(now := s.now + dt)
  }

  /** The cycle after `moves`, from time 0 with nothing started. */
  function After(moves: seq<Move>): Cycle {
    if moves == [] then Cycle(0.0, [], {}) else Next(After(moves[..|moves| - 1]), moves[|moves| - 1])
  }

  /** Each of the moves was possible when it was made. */
  ghost predicate Legal(hold: seq<real>, slots: nat, moves: seq<Move>) {
    moves == [] || (Legal(hold, slots, moves[..|moves| - 1])
                    && Enabled(hold, slots, After(moves[..|moves| - 1]), moves[|moves| - 1]))
  }

  ghost predicate Complete(hold: seq<real>, s: Cycle) {
    s.done == Indices(|hold|)
  }

  // ---------------------------------------------------------------- the sums

  function Sum(hold: seq<real>): real {
    if hold == [] then 0.0 else Sum(hold[..|hold| - 1]) + hold[|hold| - 1]
  }

  /** Seconds request k has held its slot so far. */
  function Held(hold: seq<real>, start: seq<real>, now: real, k: nat): real
    requires k < |start| <= |hold|
  {
    if now - start[k] < hold[k] then now - start[k] else hold[k]
  }

  /** Slot-seconds used by the first `n` requests. */
  function Used(hold: seq<real>, start: seq<real>, now: real, n: nat): real
    requires n <= |start| <= |hold|
  {
    if n == 0 then 0.0 else Used(hold, start, now, n - 1) + Held(hold, start, now, n - 1)
  }

  /** The longest of the holding times, 0 if there are none. */
  function Longest(hold: seq<real>): real {
    if hold == [] then 0.0 else Max(Longest(hold[..|hold| - 1]), hold[|hold| - 1])
  }

  lemma {:induction false} LongestBounds(hold: seq<real>, k: nat)
    requires k < |hold|
    ensures hold[k] <= Longest(hold)
  {
    if k < |hold| - 1 {
      LongestBounds(hold[..|hold| - 1], k);
    }
  }

  lemma {:induction false} SumPrefix(hold: seq<real>, n: nat)
    requires n <= |hold| && forall i :: 0 <= i < |hold| ==> hold[i] >= 0.0
    ensures Sum(hold[..n]) <= Sum(hold)
    ensures n < |hold| ==> Sum(hold[..n]) + hold[n] <= Sum(hold)
  {
    if n < |hold| {
      var front := hold[..|hold| - 1];
      SumPrefix(front, n);
      assert front[..n] == hold[..n];
    } else {
      assert hold[..n] == hold;
    }
  }

  lemma {:induction false} UsedExtends(hold: seq<real>, start: seq<real>, more: real, now: real, n: nat)
    requires n <= |start| < |hold|
    ensures Used(hold, start + [more], now, n) == Used(hold, start, now, n)
  {
    if n > 0 {
      UsedExtends(hold, start, more, now, n - 1);
    }
  }

  lemma {:induction false} UsedBound(hold: seq<real>, start: seq<real>, now: real, n: nat)
    requires n <= |start| <= |hold|
    ensures Used(hold, start, now, n) <= Sum(hold[..n])
    ensures (forall k :: 0 <= k < n ==> now >= start[k] + hold[k]) ==> Used(hold, start, now, n) == Sum(hold[..n])
  {
    if n > 0 {
      UsedBound(hold, start, now, n - 1);
      assert hold[..n][..n - 1] == hold[..n - 1];
    }
  }

  /** `n` times `x`, by repeated addition; `TimesIsProduct` says it is the product. */
  function Times(n: nat, x: real): real {
    if n == 0 then 0.0 else Times(n - 1, x) + x
  }

  lemma {:induction false} TimesIsProduct(n: nat, x: real)
    ensures Times(n, x) == n as real * x
  {
    if n > 0 {
      TimesIsProduct(n - 1, x);
      var m := (n - 1) as real;
      assert (m + 1.0) * x == m * x + x;
    }
  }

  lemma {:induction false} TimesZero(n: nat)
    ensures Times(n, 0.0) == 0.0
  {
    if n > 0 {
      TimesZero(n - 1);
    }
  }

  lemma {:induction false} TimesOne(x: real)
    ensures Times(1, x) == x
  {
    assert Times(0, x) == 0.0;
  }

  lemma {:induction false} TimesAdds(n: nat, x: real, y: real)
    ensures Times(n, x + y) == Times(n, x) + Times(n, y)
  {
    if n > 0 {
      TimesAdds(n - 1, x, y);
    }
  }

  lemma {:induction false} TimesMono(m: nat, n: nat, x: real)
    requires m <= n && x >= 0.0
    ensures Times(m, x) <= Times(n, x)
  {
    if m < n {
      TimesMono(m, n - 1, x);
    }
  }

  lemma {:induction false} TimesMonoIn(n: nat, x: real, y: real)
    requires x <= y
    ensures Times(n, x) <= Times(n, y)
  {
    if n > 0 {
      TimesMonoIn(n - 1, x, y);
    }
  }

  lemma {:induction false} TimesMore(n: nat, m: nat, x: real)
    ensures m == n ==> Times(m, x) == Times(n, x)
    ensures m == n + 1 ==> Times(m, x) == Times(n, x) + x
  {
  }

  /** How many of the first `n` devices are in flight. */
  function BusyBelow(s: Cycle, n: nat): nat {
    |Busy(s) * Indices(n)|
  }

  lemma {:induction false} BusyBelowStep(s: Cycle, n: nat)
    requires n > 0
    ensures BusyBelow(s, n) == BusyBelow(s, n - 1) + if n - 1 in Busy(s) then 1 else 0
  {
    if n - 1 in Busy(s) {
      assert Busy(s) * Indices(n) == Busy(s) * Indices(n - 1) + {n - 1};
    } else {
      assert Busy(s) * Indices(n) == Busy(s) * Indices(n - 1);
    }
  }

  /** What device k adds to the slot-seconds used while `dt` seconds pass. */
  function Share(s: Cycle, dt: real, k: nat): real {
    if k in Busy(s) then dt else 0.0
  }

  ghost predicate Grows(hold: seq<real>, s: Cycle, dt: real, k: nat)
    requires k < |s.start| <= |hold|
  {
    Held(hold, s.start, s.now + dt, k) == Held(hold, s.start, s.now, k) + Share(s, dt, k)
  }

  lemma {:induction false} HeldGrows(hold: seq<real>, s: Cycle, dt: real, k: nat)
    requires Core(hold, s) && k < |s.start| && dt > 0.0
    requires k in Busy(s) ==> s.now + dt <= s.start[k] + hold[k]
    ensures Grows(hold, s, dt, k)
  {
  }

  lemma {:induction false} TimesShare(s: Cycle, dt: real, n: nat)
    requires n > 0
    ensures Times(BusyBelow(s, n), dt) == Times(BusyBelow(s, n - 1), dt) + Share(s, dt, n - 1)
  {
    BusyBelowStep(s, n);
    TimesMore(BusyBelow(s, n - 1), BusyBelow(s, n), dt);
  }

  /** Every busy slot does `dt` seconds of work in `dt` seconds. */
  lemma {:induction false} UsedStep(hold: seq<real>, start: seq<real>, now: real, n: nat)
    requires 0 < n <= |start| <= |hold|
    ensures Used(hold, start, now, n) == Used(hold, start, now, n - 1) + Held(hold, start, now, n - 1)
  {
  }

  lemma {:induction false} UsedGrows(hold: seq<real>, s: Cycle, dt: real, n: nat)
    requires n <= |s.start| <= |hold|
    requires forall k :: 0 <= k < n ==> Grows(hold, s, dt, k)
    ensures Used(hold, s.start, s.now + dt, n) == Used(hold, s.start, s.now, n) + Times(BusyBelow(s, n), dt)
  {
    if n == 0 {
      assert Busy(s) * Indices(0) == {};
    } else {
      UsedGrows(hold, s, dt, n - 1);
      UsedStep(hold, s.start, s.now, n);
      UsedStep(hold, s.start, s.now + dt, n);
      TimesShare(s, dt, n);
      assert Grows(hold, s, dt, n - 1);
    }
  }

  // ---------------------------------------------------------------- batches

  /** `k / c`, by repeated subtraction; `BatchIsQuotient` says so. */
  function Batch(k: nat, c: nat): nat
    requires c > 0
  {
    if k < c then 0 else 1 + Batch(k - c, c)
  }

  lemma {:induction false} BatchMono(j: nat, k: nat, c: nat)
    requires j <= k && c > 0
    ensures Batch(j, c) <= Batch(k, c)
  {
    if j >= c {
      BatchMono(j - c, k - c, c);
    }
  }

  lemma {:induction false} BatchIsQuotient(k: nat, c: nat)
    requires c > 0
    ensures Batch(k, c) == k / c
  {
    if k < c {
      Quotient(k, c, 0, k);
    } else {
      BatchIsQuotient(k - c, c);
      Quotient(k, c, (k - c) / c + 1, (k - c) % c);
    }
  }

  lemma {:induction false} Product(d: int, c: nat)
    ensures d >= 1 ==> d * c >= c
    ensures d <= -1 ==> d * c + c <= 0
  {
    assert d >= 1 ==> d * c == (d - 1) * c + c;
    assert d <= -1 ==> d * c == (d + 1) * c - c;
  }

  /** Uniqueness of quotient and remainder. */
  lemma {:induction false} Quotient(k: nat, c: nat, q: int, r: nat)
    requires c > 0 && k == q * c + r && r < c
    ensures q == k / c
  {
    var d := q - k / c;
    assert d * c == k % c - r;
    Product(d, c);
  }

  /** Among |q| distinct numbers below `n`, one is at most `n - |q|`. */
  lemma {:induction false} SmallMember(q: set<nat>, n: nat) returns (k: nat)
    requires q != {} && forall x :: x in q ==> x < n
    ensures k in q && k + |q| <= n
  {
    if n - 1 in q {
      var rest := q - {n - 1};
      if rest == {} {
        assert q == {n - 1};
        k := n - 1;
      } else {
        k := SmallMember(rest, n - 1);
      }
    } else {
      k := SmallMember(q, n - 1);
    }
  }

  // -------------------------------------------------------------- invariants

  ghost predicate HoldsOk(hold: seq<real>, bound: real) {
    forall k :: 0 <= k < |hold| ==> 0.0 <= hold[k] <= bound
  }

  /** Who has started, who has ended, and since when. */
  ghost predicate Core(hold: seq<real>, s: Cycle) {
    && |s.start| <= |hold|
    && (forall k :: k in s.done ==> k < |s.start| && s.now >= s.start[k] + hold[k])
    && (forall k :: k in Busy(s) ==> s.start[k] <= s.now <= s.start[k] + hold[k])
    && (s.now == 0.0 || exists k :: 0 <= k < |s.start| && s.now <= s.start[k] + hold[k])
  }

  /** Until the last device has started, every second is used by all the slots. */
  ghost predicate WorkDone(hold: seq<real>, slots: nat, s: Cycle)
    requires |s.start| <= |hold|
  {
    && (forall k :: 0 <= k < |s.start| ==> Times(slots, s.start[k]) <= Sum(hold[..k]))
    && (|s.start| < |hold| ==> Times(slots, s.now) <= Used(hold, s.start, s.now, |s.start|))
  }

  /** Device k starts within `k / slots` of the longest requests. */
  ghost predicate BatchesInTime(hold: seq<real>, slots: nat, bound: real, s: Cycle)
    requires slots > 0
  {
    && (forall k :: 0 <= k < |s.start| ==> s.start[k] <= Times(Batch(k, slots), bound))
    && (|s.start| < |hold| ==> s.now <= Times(Batch(|s.start|, slots), bound))
  }

  ghost predicate Inv(hold: seq<real>, slots: nat, bound: real, s: Cycle)
    requires slots > 0
  {
    && Core(hold, s)
    && WorkDone(hold, slots, s)
    && BatchesInTime(hold, slots, bound, s)
    && |Busy(s)| <= slots
    && (slots == 1 ==> s.now == Used(hold, s.start, s.now, |s.start|))
  }

  lemma {:induction false} StartBusy(s: Cycle)
    requires |s.start| !in s.done
    ensures Busy(Next(s, Start)) == Busy(s) + {|s.start|}
  {
  }

  lemma {:induction false} StartKeepsCore(hold: seq<real>, slots: nat, s: Cycle)
    requires Core(hold, s) && Enabled(hold, slots, s, Start) && hold[|s.start|] >= 0.0
    ensures Core(hold, Next(s, Start))
  {
    var s' := Next(s, Start);
    StartBusy(s);
    assert s'.now <= s'.start[|s.start|] + hold[|s.start|];
  }

  lemma {:induction false} StartKeepsUsed(hold: seq<real>, s: Cycle)
    requires |s.start| < |hold| && hold[|s.start|] >= 0.0
    ensures Used(hold, Next(s, Start).start, s.now, |s.start| + 1) == Used(hold, s.start, s.now, |s.start|)
  {
    UsedExtends(hold, s.start, s.now, s.now, |s.start|);
    assert Held(hold, Next(s, Start).start, s.now, |s.start|) == 0.0;
  }

  lemma {:induction false} StartKeepsWork(hold: seq<real>, slots: nat, s: Cycle)
    requires |s.start| < |hold| && WorkDone(hold, slots, s) && hold[|s.start|] >= 0.0
    ensures WorkDone(hold, slots, Next(s, Start))
  {
    var n, s' := |s.start|, Next(s, Start);
    StartKeepsUsed(hold, s);
    UsedBound(hold, s.start, s.now, n);
    var total := Sum(hold[..n]);
    assert Times(slots, s.now) <= total;
    forall k | 0 <= k < |s'.start| ensures Times(slots, s'.start[k]) <= Sum(hold[..k]) {
      if k < n {
        assert s'.start[k] == s.start[k];
      }
    }
  }

  lemma {:induction false} StartKeepsBatches(hold: seq<real>, slots: nat, bound: real, s: Cycle)
    requires slots > 0 && bound >= 0.0 && BatchesInTime(hold, slots, bound, s) && |s.start| < |hold|
    ensures BatchesInTime(hold, slots, bound, Next(s, Start))
  {
    var n := |s.start|;
    BatchMono(n, n + 1, slots);
    TimesMono(Batch(n, slots), Batch(n + 1, slots), bound);
  }

  lemma {:induction false} StartKeepsInv(hold: seq<real>, slots: nat, bound: real, s: Cycle)
    requires slots > 0 && HoldsOk(hold, bound)
    requires Inv(hold, slots, bound, s) && Enabled(hold, slots, s, Start)
    ensures Inv(hold, slots, bound, Next(s, Start))
  {
    assert 0.0 <= hold[|s.start|] <= bound;
    assert |s.start| !in s.done;
    StartBusy(s);
    StartKeepsCore(hold, slots, s);
    StartKeepsUsed(hold, s);
    StartKeepsWork(hold, slots, s);
    StartKeepsBatches(hold, slots, bound, s);
  }

  lemma {:induction false} FinishKeepsInv(hold: seq<real>, slots: nat, bound: real, s: Cycle, k: nat)
    requires slots > 0
    requires Inv(hold, slots, bound, s) && Enabled(hold, slots, s, Finish(k))
    ensures Inv(hold, slots, bound, Next(s, Finish(k)))
  {
    var s' := Next(s, Finish(k));
    assert Busy(s') == Busy(s) - {k};
    assert Core(hold, s');
  }

  lemma {:induction false} WaitKeepsCore(hold: seq<real>, slots: nat, s: Cycle, dt: real)
    requires Core(hold, s) && Enabled(hold, slots, s, Wait(dt))
    ensures Core(hold, Next(s, Wait(dt)))
    ensures Used(hold, s.start, s.now + dt, |s.start|) == Used(hold, s.start, s.now, |s.start|) + Times(|Busy(s)|, dt)
  {
    var s' := Next(s, Wait(dt));
    var j :| j in Busy(s);
    assert s'.now <= s'.start[j] + hold[j];
    forall k | 0 <= k < |s.start| ensures Grows(hold, s, dt, k) {
      HeldGrows(hold, s, dt, k);
    }
    UsedGrows(hold, s, dt, |s.start|);
    assert Busy(s) == Busy(s) * Indices(|s.start|);
  }

  lemma {:induction false} WaitKeepsWork(hold: seq<real>, slots: nat, s: Cycle, dt: real)
    requires |s.start| <= |hold| && WorkDone(hold, slots, s)
    requires |s.start| < |hold| ==> Used(hold, s.start, s.now + dt, |s.start|) == Used(hold, s.start, s.now, |s.start|) + Times(slots, dt)
    ensures WorkDone(hold, slots, Next(s, Wait(dt)))
  {
    TimesAdds(slots, s.now, dt);
  }

  lemma {:induction false} WaitKeepsBatches(hold: seq<real>, slots: nat, bound: real, s: Cycle, dt: real)
    requires slots > 0 && HoldsOk(hold, bound) && Core(hold, s) && BatchesInTime(hold, slots, bound, s)
    requires Enabled(hold, slots, s, Wait(dt))
    ensures BatchesInTime(hold, slots, bound, Next(s, Wait(dt)))
  {
    if |s.start| < |hold| {
      WaitEndsWithBatch(hold, slots, bound, s, dt);
    }
  }

  /** With one slot the time gone by is the slot-seconds used. */
  lemma {:induction false} WaitKeepsSerial(hold: seq<real>, s: Cycle, dt: real)
    requires |s.start| <= |hold| && |Busy(s)| == 1 && s.now == Used(hold, s.start, s.now, |s.start|)
    requires Used(hold, s.start, s.now + dt, |s.start|) == Used(hold, s.start, s.now, |s.start|) + Times(|Busy(s)|, dt)
    ensures s.now + dt == Used(hold, s.start, s.now + dt, |s.start|)
  {
    TimesOne(dt);
  }

  lemma {:induction false} OneBusy(hold: seq<real>, slots: nat, s: Cycle, dt: real)
    requires Enabled(hold, slots, s, Wait(dt)) && |Busy(s)| <= slots
    ensures |Busy(s)| >= 1
    ensures |s.start| < |hold| ==> |Busy(s)| == slots
  {
    var k :| k in Busy(s);
    assert |Busy(s)| == |Busy(s) - {k}| + 1;
  }

  lemma {:induction false} WaitKeepsInv(hold: seq<real>, slots: nat, bound: real, s: Cycle, dt: real)
    requires slots > 0 && HoldsOk(hold, bound)
    requires Inv(hold, slots, bound, s) && Enabled(hold, slots, s, Wait(dt))
    ensures Inv(hold, slots, bound, Next(s, Wait(dt)))
  {
    WaitKeepsCore(hold, slots, s, dt);
    OneBusy(hold, slots, s, dt);
    WaitKeepsWork(hold, slots, s, dt);
    WaitKeepsBatches(hold, slots, bound, s, dt);
    if slots == 1 {
      WaitKeepsSerial(hold, s, dt);
    }
  }

  /** With all slots busy, the longest-standing request belongs to an earlier batch. */
  lemma {:induction false} WaitEndsWithBatch(hold: seq<real>, slots: nat, bound: real, s: Cycle, dt: real)
    requires slots > 0 && HoldsOk(hold, bound) && Core(hold, s) && BatchesInTime(hold, slots, bound, s)
    requires Enabled(hold, slots, s, Wait(dt)) && |s.start| < |hold|
    ensures s.now + dt <= Times(Batch(|s.start|, slots), bound)
  {
    var n := |s.start|;
    var k := SmallMember(Busy(s), n);
    assert s.now + dt <= s.start[k] + hold[k];
    BatchAfter(k, n, slots, bound);
  }

  lemma {:induction false} BatchAfter(k: nat, n: nat, c: nat, bound: real)
    requires c > 0 && k + c <= n && bound >= 0.0
    ensures Times(Batch(k, c), bound) + bound <= Times(Batch(n, c), bound)
  {
    assert Batch(k + c, c) == 1 + Batch(k, c);
    BatchMono(k + c, n, c);
    TimesMono(1 + Batch(k, c), Batch(n, c), bound);
  }

  lemma {:induction false} RunKeepsInv(hold: seq<real>, slots: nat, bound: real, moves: seq<Move>)
    requires slots > 0 && HoldsOk(hold, bound) && Legal(hold, slots, moves)
    ensures Inv(hold, slots, bound, After(moves))
  {
    if moves == [] {
      TimesZero(slots);
    } else {
      var before := moves[..|moves| - 1];
      RunKeepsInv(hold, slots, bound, before);
      match moves[|moves| - 1] {
        case Start => StartKeepsInv(hold, slots, bound, After(before));
        case Finish(k) => FinishKeepsInv(hold, slots, bound, After(before), k);
        case Wait(dt) => WaitKeepsInv(hold, slots, bound, After(before), dt);
      }
    }
  }

  // ------------------------------------------------------------ the theorems

  /** `n / c`, rounded up: how many batches of `c` the fleet makes. */
  function Batches(n: nat, c: nat): nat
    requires c > 0
  {
    Batch(n + c - 1, c)
  }

  lemma {:induction false} BatchesIsCeiling(n: nat, c: nat)
    requires c > 0
    ensures Batches(n, c) == (n + c - 1) / c
  {
    BatchIsQuotient(n + c - 1, c);
  }

  /** No state of a poll cycle, its end included, is later than ceil(n/c) times the longest a request may take. */
  lemma {:induction false} CycleFitsItsBatches(hold: seq<real>, concurrency: int, bound: real, moves: seq<Move>)
    requires HoldsOk(hold, bound) && Legal(hold, Slots(concurrency), moves)
    ensures After(moves).now <= Times(Batches(|hold|, Slots(concurrency)), bound)
  {
    RunKeepsInv(hold, Slots(concurrency), bound, moves);
    EndsWithBatches(hold, Slots(concurrency), bound, After(moves));
  }

  lemma {:induction false} EndsWithBatches(hold: seq<real>, c: nat, bound: real, s: Cycle)
    requires c > 0 && HoldsOk(hold, bound) && Core(hold, s) && BatchesInTime(hold, c, bound, s)
    ensures s.now <= Times(Batches(|hold|, c), bound)
  {
    if hold == [] {
      assert Batch(c - 1, c) == 0;
    } else {
      assert 0.0 <= hold[0] <= bound;
      if s.now == 0.0 {
        TimesMono(0, Batch(|hold| + c - 1, c), bound);
      } else {
        var k :| 0 <= k < |s.start| && s.now <= s.start[k] + hold[k];
        assert s.now <= Times(Batch(k, c), bound) + bound;
        BatchAfter(k, |hold| + c - 1, c, bound);
      }
    }
  }

  /**
  Nor is it later than sum/c + (1 - 1/c) * longest, here multiplied by c: a
  greedy schedule loses at most the tail of its longest request.
  */
  lemma {:induction false} CycleFitsItsWork(hold: seq<real>, concurrency: int, bound: real, moves: seq<Move>)
    requires HoldsOk(hold, bound) && Legal(hold, Slots(concurrency), moves)
    ensures Times(Slots(concurrency), After(moves).now) <= Sum(hold) + Times(Slots(concurrency) - 1, Longest(hold))
  {
    RunKeepsInv(hold, Slots(concurrency), bound, moves);
    EndsWithWork(hold, Slots(concurrency), bound, After(moves));
  }

  lemma {:induction false} EndsWithWork(hold: seq<real>, c: nat, bound: real, s: Cycle)
    requires c > 0 && HoldsOk(hold, bound) && Core(hold, s) && WorkDone(hold, c, s)
    ensures Times(c, s.now) <= Sum(hold) + Times(c - 1, Longest(hold))
  {
    if s.now == 0.0 {
      EndsAtOnce(hold, c, bound);
    } else {
      var k :| 0 <= k < |s.start| && s.now <= s.start[k] + hold[k];
      assert Times(c, s.start[k]) <= Sum(hold[..k]);
      EndsWithin(hold, c, s.start[k], k, s.now);
    }
  }

  lemma {:induction false} EndsWithin(hold: seq<real>, c: nat, start: real, k: nat, now: real)
    requires k < |hold| && c > 0 && (forall i :: 0 <= i < |hold| ==> hold[i] >= 0.0)
    requires Times(c, start) <= Sum(hold[..k]) && now <= start + hold[k]
    ensures Times(c, now) <= Sum(hold) + Times(c - 1, Longest(hold))
  {
    TimesMonoIn(c, now, start + hold[k]);
    LastWork(hold, c, start, k);
  }

  lemma {:induction false} EndsAtOnce(hold: seq<real>, c: nat, bound: real)
    requires c > 0 && HoldsOk(hold, bound)
    ensures Times(c, 0.0) <= Sum(hold) + Times(c - 1, Longest(hold))
  {
    Positive(hold, bound);
    TimesZero(c);
    TimesZero(c - 1);
    TimesMonoIn(c - 1, 0.0, Longest(hold));
  }

  lemma {:induction false} LastWork(hold: seq<real>, c: nat, start: real, k: nat)
    requires k < |hold| && c > 0 && forall i :: 0 <= i < |hold| ==> hold[i] >= 0.0
    requires Times(c, start) <= Sum(hold[..k])
    ensures Times(c, start + hold[k]) <= Sum(hold) + Times(c - 1, Longest(hold))
  {
    TimesAdds(c, start, hold[k]);
    LongestBounds(hold, k);
    TimesMonoIn(c - 1, hold[k], Longest(hold));
    SumPrefix(hold, k);
  }

  lemma {:induction false} Positive(hold: seq<real>, bound: real)
    requires HoldsOk(hold, bound)
    ensures Sum(hold) >= 0.0 && Longest(hold) >= 0.0
  {
    if hold != [] {
      Positive(hold[..|hold| - 1], bound);
    }
  }

  /** At `poll_concurrency` 1 a complete cycle takes exactly the sum of its requests. */
  lemma {:induction false} SerialCycleIsTheSum(hold: seq<real>, bound: real, moves: seq<Move>)
    requires HoldsOk(hold, bound) && Legal(hold, 1, moves) && Complete(hold, After(moves))
    ensures After(moves).now == Sum(hold)
  {
    RunKeepsInv(hold, 1, bound, moves);
    AllUsed(hold, After(moves));
  }

  lemma {:induction false} AllUsed(hold: seq<real>, s: Cycle)
    requires Core(hold, s) && Complete(hold, s)
    ensures |s.start| == |hold|
    ensures Used(hold, s.start, s.now, |s.start|) == Sum(hold)
  {
    assert |s.start| in Indices(|hold|) <==> |s.start| < |hold|;
    UsedBound(hold, s.start, s.now, |hold|);
    assert hold[..|hold|] == hold;
  }

  // --------------------------------------------- progress, and the visits made

  function Finishes(moves: seq<Move>, k: nat): nat {
    if moves == [] then 0
    else Finishes(moves[..|moves| - 1], k) + if moves[|moves| - 1] == Finish(k) then 1 else 0
  }

  /** No device is ever visited twice, and a complete cycle visited each exactly once. */
  lemma {:induction false} EachDeviceOnce(hold: seq<real>, slots: nat, moves: seq<Move>, k: nat)
    requires Legal(hold, slots, moves)
    ensures Finishes(moves, k) == if k in After(moves).done then 1 else 0
    ensures Complete(hold, After(moves)) ==> Finishes(moves, k) == if k < |hold| then 1 else 0
  {
    if moves != [] {
      EachDeviceOnce(hold, slots, moves[..|moves| - 1], k);
    }
  }

  /** The request that ends first among those in flight. */
  lemma {:induction false} FirstToEnd(hold: seq<real>, start: seq<real>, busy: set<nat>) returns (k: nat)
    requires busy != {} && forall j :: j in busy ==> j < |start| && j < |hold|
    ensures k in busy
    ensures forall j :: j in busy ==> start[k] + hold[k] <= start[j] + hold[j]
    decreases |busy|
  {
    k :| k in busy;
    var rest := busy - {k};
    if rest != {} {
      var j := FirstToEnd(hold, start, rest);
      if start[j] + hold[j] < start[k] + hold[k] {
        k := j;
      }
    }
  }

  /** An incomplete cycle is never stuck: a device starts, a request ends, or time runs on to the next ending. */
  lemma {:induction false} NeverStuck(hold: seq<real>, concurrency: int, bound: real, moves: seq<Move>) returns (m: Move)
    requires HoldsOk(hold, bound) && Legal(hold, Slots(concurrency), moves) && !Complete(hold, After(moves))
    ensures Legal(hold, Slots(concurrency), moves + [m])
    ensures m.Wait? ==> exists k :: Enabled(hold, Slots(concurrency), After(moves + [m]), Finish(k))
  {
    var c := Slots(concurrency);
    RunKeepsInv(hold, c, bound, moves);
    m := SomeMove(hold, c, bound, After(moves));
    assert (moves + [m])[..|moves|] == moves;
  }

  lemma {:induction false} DoneCount(hold: seq<real>, s: Cycle)
    requires Core(hold, s)
    ensures |s.done| <= |s.start| <= |hold|
    ensures |s.done| == |hold| ==> Complete(hold, s)
  {
    IndicesSize(|hold|);
    IndicesSize(|s.start|);
    assert s.done <= Indices(|s.start|) <= Indices(|hold|);
    Subset(s.done, Indices(|s.start|));
    Subset(s.done, Indices(|hold|));
  }

  lemma {:induction false} IndicesSize(n: nat)
    ensures |Indices(n)| == n
  {
    if n > 0 { IndicesSize(n - 1); }
  }

  lemma {:induction false} Subset(a: set<nat>, b: set<nat>)
    requires a <= b
    ensures |a| <= |b| && (|a| == |b| ==> a == b)
  {
    assert b == a + (b - a);
    if a != b {
      var k :| k in b - a;
      assert |b - a| > 0;
    }
  }

  /** Starts and endings still to come. */
  function ToCome(hold: seq<real>, s: Cycle): int {
    (|hold| - |s.start|) + (|hold| - |s.done|)
  }

  lemma {:induction false} AppendMove(hold: seq<real>, slots: nat, moves: seq<Move>, m: Move)
    requires Legal(hold, slots, moves) && Enabled(hold, slots, After(moves), m)
    ensures Legal(hold, slots, moves + [m]) && After(moves + [m]) == Next(After(moves), m)
  {
    assert (moves + [m])[..|moves|] == moves;
  }

  lemma {:induction false} LegalState(hold: seq<real>, concurrency: int, bound: real, moves: seq<Move>)
    requires HoldsOk(hold, bound) && Legal(hold, Slots(concurrency), moves)
    ensures Core(hold, After(moves)) && |Busy(After(moves))| <= Slots(concurrency)
  {
    RunKeepsInv(hold, Slots(concurrency), bound, moves);
  }

  /** A start or an ending: one fewer to come. */
  lemma {:induction false} Counts(hold: seq<real>, slots: nat, s: Cycle, m: Move)
    requires Enabled(hold, slots, s, m)
    ensures m.Wait? ==> ToCome(hold, Next(s, m)) == ToCome(hold, s)
    ensures !m.Wait? ==> ToCome(hold, Next(s, m)) == ToCome(hold, s) - 1
  {
  }

  /** A start or an ending, after a wait if it takes one. */
  lemma {:induction false} OneOn(hold: seq<real>, concurrency: int, bound: real, moves: seq<Move>) returns (more: seq<Move>)
    requires HoldsOk(hold, bound) && Legal(hold, Slots(concurrency), moves) && !Complete(hold, After(moves))
    ensures Legal(hold, Slots(concurrency), moves + more)
    ensures ToCome(hold, After(moves + more)) == ToCome(hold, After(moves)) - 1
  {
    LegalState(hold, concurrency, bound, moves);
    var m := SomeMove(hold, Slots(concurrency), bound, After(moves));
    OneMove(hold, Slots(concurrency), moves, m);
    more := [m];
    if m.Wait? {
      var k :| Enabled(hold, Slots(concurrency), Next(After(moves), m), Finish(k));
      OneMove(hold, Slots(concurrency), moves + [m], Finish(k));
      more := [m] + [Finish(k)];
      assert moves + more == (moves + [m]) + [Finish(k)];
    }
  }

  lemma {:induction false} OneMove(hold: seq<real>, c: nat, moves: seq<Move>, m: Move)
    requires Legal(hold, c, moves) && Enabled(hold, c, After(moves), m)
    ensures Legal(hold, c, moves + [m]) && After(moves + [m]) == Next(After(moves), m)
    ensures ToCome(hold, After(moves + [m])) == ToCome(hold, After(moves)) - if m.Wait? then 0 else 1
  {
    AppendMove(hold, c, moves, m);
    Counts(hold, c, After(moves), m);
  }

  lemma {:induction false} NoneToCome(hold: seq<real>, concurrency: int, bound: real, moves: seq<Move>)
    requires HoldsOk(hold, bound) && Legal(hold, Slots(concurrency), moves)
    ensures ToCome(hold, After(moves)) >= 0
    ensures ToCome(hold, After(moves)) == 0 <==> Complete(hold, After(moves))
  {
    LegalState(hold, concurrency, bound, moves);
    DoneCount(hold, After(moves));
    IndicesSize(|hold|);
  }

  lemma {:induction false} CompletedBy(hold: seq<real>, concurrency: int, bound: real, moves: seq<Move>, left: nat) returns (all: seq<Move>)
    requires HoldsOk(hold, bound) && Legal(hold, Slots(concurrency), moves) && ToCome(hold, After(moves)) == left
    ensures moves <= all && Legal(hold, Slots(concurrency), all) && Complete(hold, After(all))
    decreases left
  {
    NoneToCome(hold, concurrency, bound, moves);
    if left == 0 {
      all := moves;
    } else {
      var more := OneOn(hold, concurrency, bound, moves);
      all := CompletedBy(hold, concurrency, bound, moves + more, left - 1);
    }
  }

  /** From wherever a pass legally is it can go on, legally, until every device has been visited. */
  lemma {:induction false} ReachesCompletion(hold: seq<real>, concurrency: int, bound: real, moves: seq<Move>) returns (all: seq<Move>)
    requires HoldsOk(hold, bound) && Legal(hold, Slots(concurrency), moves)
    ensures moves <= all && Legal(hold, Slots(concurrency), all) && Complete(hold, After(all))
  {
    NoneToCome(hold, concurrency, bound, moves);
    all := CompletedBy(hold, concurrency, bound, moves, ToCome(hold, After(moves)));
  }

  function Waits(moves: seq<Move>): nat {
    if moves == [] then 0 else Waits(moves[..|moves| - 1]) + if moves[|moves| - 1].Wait? then 1 else 0
  }

  /** Besides waiting, no legal pass makes more than two moves a device, and it has made them all exactly when it is complete. */
  lemma {:induction false} MovesCounted(hold: seq<real>, concurrency: int, bound: real, moves: seq<Move>)
    requires HoldsOk(hold, bound) && Legal(hold, Slots(concurrency), moves)
    ensures |moves| - Waits(moves) + ToCome(hold, After(moves)) == 2 * |hold|
    ensures ToCome(hold, After(moves)) >= 0
    ensures ToCome(hold, After(moves)) == 0 <==> Complete(hold, After(moves))
  {
    NoneToCome(hold, concurrency, bound, moves);
    if moves != [] {
      var init, m := moves[..|moves| - 1], moves[|moves| - 1];
      MovesCounted(hold, concurrency, bound, init);
      Counts(hold, Slots(concurrency), After(init), m);
    }
  }

  lemma {:induction false} SomeMove(hold: seq<real>, c: nat, bound: real, s: Cycle) returns (m: Move)
    requires c > 0 && Core(hold, s) && |Busy(s)| <= c && !Complete(hold, s)
    ensures Enabled(hold, c, s, m)
    ensures m.Wait? ==> exists k :: Enabled(hold, c, Next(s, m), Finish(k))
  {
    if |s.start| < |hold| && |Busy(s)| < c {
      m := Start;
    } else {
      assert Busy(s) != {};
      var k := FirstToEnd(hold, s.start, Busy(s));
      var dt := s.start[k] + hold[k] - s.now;
      if dt == 0.0 {
        m := Finish(k);
      } else {
        m := Wait(dt);
        assert Enabled(hold, c, Next(s, m), Finish(k));
      }
    }
  }
}
