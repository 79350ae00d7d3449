/**
A gathered poll cycle is a run of the request gate.

PollCycle keeps the clock and forgets the locks; RequestGate keeps the locks and
forgets the clock.  Here every timed move is matched by moves of the gate, so
what is proved of the gate holds during a poll cycle, and the cycle's rule that
a free slot is handed out at once is the gate's own notion of a task that can
move.
*/
module GatedCycle {
  import opened Prelude
  import opened PollCycle
  import G = RequestGate

  /** Devices have distinct addresses; the configuration refuses anything else. */
  ghost predicate DistinctAddresses(addresses: seq<G.Address>) {
    forall i, j :: 0 <= i < j < |addresses| ==> addresses[i] != addresses[j]
  }

  /** One request per device. */
  function Programs(addresses: seq<G.Address>): seq<seq<G.Address>> {
    seq(|addresses|, k requires 0 <= k < |addresses| => [addresses[k]])
  }

  function TaskOf(addresses: seq<G.Address>, s: Cycle, k: nat): G.Task
    requires k < |addresses|
  {
    if k in s.done then G.Task(G.Idle, [])
    else if k < |s.start| then G.Task(G.InFlight, [addresses[k]])
    else G.Task(G.WaitSlot, [addresses[k]])
  }

  /** The gate as it stands at a moment of the cycle. */
  ghost predicate Matches(addresses: seq<G.Address>, slots: nat, s: Cycle, g: G.State) {
    && TasksMatch(addresses, s, g)
    && QueuesMatch(addresses, s, g)
    && SlotsMatch(addresses, slots, s, g)
  }

  ghost predicate TasksMatch(addresses: seq<G.Address>, s: Cycle, g: G.State) {
    && |g.tasks| == |addresses|
    && forall k :: 0 <= k < |addresses| ==> g.tasks[k] == TaskOf(addresses, s, k)
  }

  ghost predicate QueuesMatch(addresses: seq<G.Address>, s: Cycle, g: G.State) {
    forall k :: 0 <= k < |addresses| ==> G.Queue(g, addresses[k]) == if k in s.done then [] else [k]
  }

  ghost predicate SlotsMatch(addresses: seq<G.Address>, slots: nat, s: Cycle, g: G.State) {
    && |s.start| <= |addresses|
    && |g.slotQueue| == |addresses| - |s.start|
    && (forall i :: 0 <= i < |g.slotQueue| ==> g.slotQueue[i] == |s.start| + i)
    && g.free + |Busy(s)| == slots
  }

  /** The gate once the first `n` tasks have queued for their device and for a slot. */
  ghost predicate Asked(addresses: seq<G.Address>, slots: nat, n: nat, g: G.State) {
    && |g.tasks| == |addresses| && n <= |addresses|
    && (forall k :: 0 <= k < |addresses| ==> g.tasks[k] == G.Task(if k < n then G.WaitSlot else G.Idle, [addresses[k]]))
    && (forall k :: 0 <= k < |addresses| ==> G.Queue(g, addresses[k]) == if k < n then [k] else [])
    && |g.slotQueue| == n && (forall i :: 0 <= i < n ==> g.slotQueue[i] == i)
    && g.free == slots
  }

  lemma {:induction false} AskStep(addresses: seq<G.Address>, slots: nat, n: nat, g: G.State) returns (g': G.State)
    requires DistinctAddresses(addresses) && Asked(addresses, slots, n, g) && n < |addresses|
    ensures G.Reaches(g, [n, n, n], g') && Asked(addresses, slots, n + 1, g')
  {
    var g1 := G.Step(g, n);
    assert G.Queue(g1, addresses[n]) == [n];
    var g2 := G.Step(g1, n);
    g' := G.Step(g2, n);
    Three(g, n, g1, g2, g');
    forall k | 0 <= k < |addresses| ensures G.Queue(g', addresses[k]) == if k < n + 1 then [k] else [] {
      assert G.Queue(g', addresses[k]) == G.Queue(g1, addresses[k]);
    }
  }

  lemma {:induction false} One(g: G.State, k: nat)
    requires G.Enabled(g, k)
    ensures G.Reaches(g, [k], G.Step(g, k))
  {
    assert [k][1..] == [];
    assert G.Reaches(G.Step(g, k), [], G.Step(g, k));
  }

  lemma {:induction false} Three(g: G.State, n: nat, g1: G.State, g2: G.State, g3: G.State)
    requires G.Enabled(g, n) && g1 == G.Step(g, n)
    requires G.Enabled(g1, n) && g2 == G.Step(g1, n)
    requires G.Enabled(g2, n) && g3 == G.Step(g2, n)
    ensures G.Reaches(g, [n, n, n], g3)
  {
    assert [n, n, n][1..] == [n, n];
    assert [n, n][1..] == [n];
    assert [n][1..] == [];
    assert G.Reaches(g2, [n], g3);
    assert G.Reaches(g1, [n, n], g3);
  }

  lemma {:induction false} ReachesAppend(g: G.State, m1: seq<nat>, g1: G.State, m2: seq<nat>, g2: G.State)
    requires G.Reaches(g, m1, g1) && G.Reaches(g1, m2, g2)
    ensures G.Reaches(g, m1 + m2, g2)
    decreases |m1|
  {
    if m1 == [] {
      assert m1 + m2 == m2;
    } else {
      ReachesAppend(G.Step(g, m1[0]), m1[1..], g1, m2, g2);
      assert (m1 + m2)[1..] == m1[1..] + m2;
    }
  }

  lemma {:induction false} ReachesOneMore(g0: G.State, m: seq<nat>, g: G.State, k: nat)
    requires G.Reaches(g0, m, g) && G.Enabled(g, k)
    ensures G.Reaches(g0, m + [k], G.Step(g, k))
  {
    One(g, k);
    ReachesAppend(g0, m, g, [k], G.Step(g, k));
  }

  /** `asyncio.gather` lets every task run up to its first wait, in inventory order. */
  lemma {:induction false} EveryoneAsks(addresses: seq<G.Address>, concurrency: int, n: nat)
      returns (moves: seq<nat>, g: G.State)
    requires DistinctAddresses(addresses) && n <= |addresses|
    ensures G.Reaches(G.Init(Programs(addresses), concurrency), moves, g)
    ensures Asked(addresses, Slots(concurrency), n, g)
  {
    if n == 0 {
      moves, g := [], G.Init(Programs(addresses), concurrency);
    } else {
      var m, h := EveryoneAsks(addresses, concurrency, n - 1);
      g := AskStep(addresses, Slots(concurrency), n - 1, h);
      moves := m + [n - 1, n - 1, n - 1];
      ReachesAppend(G.Init(Programs(addresses), concurrency), m, h, [n - 1, n - 1, n - 1], g);
    }
  }

  /** Only the queue of the address a task talks to can change, and only as the task joins or leaves it. */
  lemma {:induction false} OtherQueues(g: G.State, i: nat, a: G.Address)
    requires G.Enabled(g, i) && (a != g.tasks[i].todo[0] || (g.tasks[i].phase != G.Idle && g.tasks[i].phase != G.Draining))
    ensures G.Queue(G.Step(g, i), a) == G.Queue(g, a)
  {
  }

  lemma {:induction false} StartIsOneMove(hold: seq<real>, addresses: seq<G.Address>, slots: nat, s: Cycle, g: G.State)
    requires |hold| == |addresses| && Core(hold, s) && Enabled(hold, slots, s, Start)
    requires Matches(addresses, slots, s, g)
    ensures G.Enabled(g, |s.start|) && Matches(addresses, slots, Next(s, Start), G.Step(g, |s.start|))
  {
    var n := |s.start|;
    assert n !in s.done;
    assert g.tasks[n] == TaskOf(addresses, s, n);
    StartBusy(s);
    StartMatchesTasks(addresses, s, g);
    forall k | 0 <= k < |addresses| ensures G.Queue(G.Step(g, n), addresses[k]) == G.Queue(g, addresses[k]) {
      OtherQueues(g, n, addresses[k]);
    }
  }

  lemma {:induction false} StartMatchesTasks(addresses: seq<G.Address>, s: Cycle, g: G.State)
    requires TasksMatch(addresses, s, g) && G.Enabled(g, |s.start|)
    requires |s.start| < |addresses| && |s.start| !in s.done && g.tasks[|s.start|].phase == G.WaitSlot
    ensures TasksMatch(addresses, Next(s, Start), G.Step(g, |s.start|))
  {
  }

  lemma {:induction false} FinishIsTwoMoves(hold: seq<real>, addresses: seq<G.Address>, slots: nat, s: Cycle, g: G.State, k: nat)
    requires |hold| == |addresses| && DistinctAddresses(addresses)
    requires Core(hold, s) && Enabled(hold, slots, s, Finish(k)) && Matches(addresses, slots, s, g)
    ensures G.Enabled(g, k) && G.Enabled(G.Step(g, k), k)
    ensures Matches(addresses, slots, Next(s, Finish(k)), G.Step(G.Step(g, k), k))
  {
    assert g.tasks[k] == TaskOf(addresses, s, k);
    assert Busy(Next(s, Finish(k))) == Busy(s) - {k};
    OtherQueues(g, k, addresses[k]);
    FinishMatchesQueues(addresses, s, g, k);
    FinishMatchesTasks(addresses, s, g, k);
  }

  lemma {:induction false} FinishMatchesTasks(addresses: seq<G.Address>, s: Cycle, g: G.State, k: nat)
    requires TasksMatch(addresses, s, g) && k < |addresses| && G.Enabled(g, k) && G.Enabled(G.Step(g, k), k)
    requires g.tasks[k] == G.Task(G.InFlight, [addresses[k]])
    ensures TasksMatch(addresses, Next(s, Finish(k)), G.Step(G.Step(g, k), k))
  {
  }

  lemma {:induction false} FinishMatchesQueues(addresses: seq<G.Address>, s: Cycle, g: G.State, k: nat)
    requires DistinctAddresses(addresses) && QueuesMatch(addresses, s, g)
    requires k < |addresses| && G.Enabled(g, k) && G.Enabled(G.Step(g, k), k) && k !in s.done
    requires g.tasks[k] == G.Task(G.InFlight, [addresses[k]])
    ensures QueuesMatch(addresses, Next(s, Finish(k)), G.Step(G.Step(g, k), k))
  {
    var g1 := G.Step(g, k);
    forall j | 0 <= j < |addresses|
      ensures G.Queue(G.Step(g1, k), addresses[j]) == if j in s.done + {k} then [] else [j]
    {
      OtherQueues(g, k, addresses[j]);
      if j != k {
        OtherQueues(g1, k, addresses[j]);
      }
    }
  }

  /** Time passes only while no waiting task could be given a slot. */
  lemma {:induction false} WaitIsUrgent(hold: seq<real>, addresses: seq<G.Address>, slots: nat, s: Cycle, g: G.State, dt: real, k: nat)
    requires |hold| == |addresses| && Core(hold, s) && Enabled(hold, slots, s, Wait(dt))
    requires Matches(addresses, slots, s, g) && k < |addresses| && g.tasks[k].phase == G.WaitSlot
    ensures !G.Enabled(g, k)
  {
    assert g.tasks[k] == TaskOf(addresses, s, k);
    assert |s.start| <= k;
  }

  /** Every legal poll cycle is matched, move for move, by a run of the gate from its initial state. */
  lemma {:induction false} CycleRunsTheGate(hold: seq<real>, addresses: seq<G.Address>, concurrency: int, bound: real,
                                            moves: seq<Move>) returns (gateMoves: seq<nat>, g: G.State)
    requires |hold| == |addresses| && DistinctAddresses(addresses) && HoldsOk(hold, bound)
    requires Legal(hold, Slots(concurrency), moves)
    ensures G.Reaches(G.Init(Programs(addresses), concurrency), gateMoves, g)
    ensures Matches(addresses, Slots(concurrency), After(moves), g)
  {
    var g0 := G.Init(Programs(addresses), concurrency);
    if moves == [] {
      gateMoves, g := EveryoneAsks(addresses, concurrency, |addresses|);
    } else {
      var before := moves[..|moves| - 1];
      var m, h := CycleRunsTheGate(hold, addresses, concurrency, bound, before);
      RunKeepsInv(hold, Slots(concurrency), bound, before);
      gateMoves, g := MatchMove(hold, addresses, concurrency, After(before), moves[|moves| - 1], g0, m, h);
    }
  }

  lemma {:induction false} MatchMove(hold: seq<real>, addresses: seq<G.Address>, concurrency: int, s: Cycle, move: Move,
                  g0: G.State, m: seq<nat>, h: G.State) returns (gateMoves: seq<nat>, g: G.State)
    requires |hold| == |addresses| && DistinctAddresses(addresses) && Core(hold, s)
    requires Enabled(hold, Slots(concurrency), s, move) && Matches(addresses, Slots(concurrency), s, h)
    requires G.Reaches(g0, m, h)
    ensures G.Reaches(g0, gateMoves, g) && Matches(addresses, Slots(concurrency), Next(s, move), g)
  {
    match move {
      case Start =>
        StartIsOneMove(hold, addresses, Slots(concurrency), s, h);
        g := G.Step(h, |s.start|);
        gateMoves := m + [|s.start|];
        ReachesOneMore(g0, m, h, |s.start|);
      case Finish(k) =>
        FinishIsTwoMoves(hold, addresses, Slots(concurrency), s, h, k);
        g := G.Step(G.Step(h, k), k);
        gateMoves := m + [k] + [k];
        ReachesOneMore(g0, m, h, k);
        ReachesOneMore(g0, m + [k], G.Step(h, k), k);
      case Wait(dt) =>
        assert Busy(Next(s, move)) == Busy(s);
        g, gateMoves := h, m;
    }
  }
}
