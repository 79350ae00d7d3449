/**
The right to talk to one device, as handed out by bms/bacnet.py.

Every BACnet request takes the lock of its device, then a slot of the fleet-wide
semaphore, and gives both back in the opposite order.  Any number of tasks do so
at once, each working through its own list of addresses.  Between two `await`
points a task runs alone, so the protocol is a machine whose steps belong to one
task each; the scheduler picks which task moves next.

Both `asyncio.Lock` and `asyncio.Semaphore` serve their waiters first come,
first served.  The head of a device's queue is its holder, or the task that
will hold it next.
*/
module RequestGate {
  import opened Prelude

  type Address = string

  datatype Phase =
    | Idle       // between requests
    | WaitLock   // queued on the device lock
    | HasLock    // holds the device lock, has not asked for a slot
    | WaitSlot   // holds the device lock, queued on the semaphore
    | InFlight   // holds both: a request is on the wire
    | Draining   // the slot is given back, the device lock not yet

  /** A task and the addresses it still has to talk to, the current one first. */
  datatype Task = Task(phase: Phase, todo: seq<Address>)

  datatype State = State(
    tasks: seq<Task>,
    locks: map<Address, seq<nat>>,  // device address to its queue of task numbers
    slotQueue: seq<nat>,            // tasks waiting for the semaphore
    free: nat                       // the semaphore's value
  )

  /** The queue of a device lock; a lock nobody asked for yet has an empty one. */
  function Queue(s: State, a: Address): seq<nat> {
    if a in s.locks then s.locks[a] else []
  }

  /** Task `i` can move now. A finished task cannot. */
  predicate Enabled(s: State, i: nat) {
    && i < |s.tasks|
    && s.tasks[i].todo != []
    && match s.tasks[i].phase {
         case WaitLock => Queue(s, s.tasks[i].todo[0]) != [] && Queue(s, s.tasks[i].todo[0])[0] == i
         case WaitSlot => s.slotQueue != [] && s.slotQueue[0] == i && s.free > 0
         case Draining => Queue(s, s.tasks[i].todo[0]) != []
         case _ => true
       }
  }

  /** What one move of task `i` does. */
  function Step(s: State, i: nat): State
    requires Enabled(s, i)
  {
    var t := s.tasks[i];
    var a := t.todo[0];
    match t.phase {
      case Idle => s.(tasks := s.tasks[i := t.(phase := WaitLock)], locks := s.locks[a := Queue(s, a) + [i]])
      case WaitLock => s.(tasks := s.tasks[i := t.(phase := HasLock)])
      case HasLock => s.(tasks := s.tasks[i := t.(phase := WaitSlot)], slotQueue := s.slotQueue + [i])
      case WaitSlot => s.(tasks := s.tasks[i := t.(phase := InFlight)], slotQueue := s.slotQueue[1..], free := s.free - 1)
      case InFlight => s.(tasks := s.tasks[i := t.(phase := Draining)], free := s.free + 1)
      case Draining => s.(tasks := s.tasks[i := Task(Idle, t.todo[1..])], locks := s.locks[a := Queue(s, a)[1..]])
    }
  }

  /** Tasks about to issue `programs[i]` each, behind a gate of `max(1, concurrency)` slots. */
  function Init(programs: seq<seq<Address>>, concurrency: int): State {
    State(seq(|programs|, i requires 0 <= i < |programs| => Task(Idle, programs[i])), map[], [], Slots(concurrency))
  }

  /** The state after the scheduler let the tasks of `moves` move in that order. */
  ghost predicate Reaches(s: State, moves: seq<nat>, s': State)
    decreases |moves|
  {
    if moves == [] then s' == s
    else Enabled(s, moves[0]) && Reaches(Step(s, moves[0]), moves[1..], s')
  }

  function Flying(s: State): set<nat> {
    set i | 0 <= i < |s.tasks| && s.tasks[i].phase == InFlight
  }

  predicate Finished(t: Task) {
    t.phase == Idle && t.todo == []
  }

  // ---------------------------------------------------------------- invariant

  ghost predicate Distinct(q: seq<nat>) {
    forall i, j :: 0 <= i < j < |q| ==> q[i] != q[j]
  }

  /** Task `i` is in the queue of address `a` exactly when its current request is for `a`. */
  ghost predicate QueueOk(s: State, a: Address) {
    && Distinct(Queue(s, a))
    && (forall i: nat :: i in Queue(s, a) <==> i < |s.tasks| && s.tasks[i].phase != Idle && s.tasks[i].todo != [] && s.tasks[i].todo[0] == a)
    && (forall k :: 0 < k < |Queue(s, a)| ==> Queue(s, a)[k] < |s.tasks| && s.tasks[Queue(s, a)[k]].phase == WaitLock)
  }

  ghost predicate SlotQueueOk(s: State) {
    && Distinct(s.slotQueue)
    && forall i: nat :: i in s.slotQueue <==> i < |s.tasks| && s.tasks[i].phase == WaitSlot
  }

  ghost predicate Inv(s: State, slots: nat) {
    && slots >= 1
    && (forall i :: 0 <= i < |s.tasks| && s.tasks[i].todo == [] ==> s.tasks[i].phase == Idle)
    && (forall a: Address :: QueueOk(s, a))
    && SlotQueueOk(s)
    && s.free + |Flying(s)| == slots
  }

  lemma {:induction false} InitInv(programs: seq<seq<Address>>, concurrency: int)
    ensures Inv(Init(programs, concurrency), Slots(concurrency))
  {
    assert Flying(Init(programs, concurrency)) == {};
  }

  lemma {:induction false} StepKeepsFlying(s: State, i: nat)
    requires Enabled(s, i)
    ensures Flying(Step(s, i)) == match s.tasks[i].phase
                                  case WaitSlot => Flying(s) + {i}
                                  case InFlight => Flying(s) - {i}
                                  case _ => Flying(s)
  {
  }

  lemma {:induction false} QueueJoined(s: State, i: nat, a: Address)
    requires QueueOk(s, a) && Enabled(s, i) && s.tasks[i].phase == Idle && s.tasks[i].todo[0] == a
    ensures QueueOk(Step(s, i), a)
  {
    assert Queue(Step(s, i), a) == Queue(s, a) + [i];
  }

  lemma {:induction false} TailOf(q: seq<nat>)
    requires q != [] && Distinct(q)
    ensures Distinct(q[1..]) && forall j :: j in q[1..] <==> j in q && j != q[0]
  {
    forall j | j in q && j != q[0] ensures j in q[1..] {
      var k :| 0 <= k < |q| && q[k] == j;
      assert q[1..][k - 1] == j;
    }
  }

  lemma {:induction false} QueueLeft(s: State, i: nat, a: Address)
    requires QueueOk(s, a) && Enabled(s, i) && s.tasks[i].phase == Draining && s.tasks[i].todo[0] == a && Queue(s, a)[0] == i
    ensures QueueOk(Step(s, i), a)
  {
    var q, s' := Queue(s, a), Step(s, i);
    TailOf(q);
    assert Queue(s', a) == q[1..];
    forall k | 0 < k < |q[1..]| ensures q[1..][k] < |s'.tasks| && s'.tasks[q[1..][k]].phase == WaitLock {
      assert q[1..][k] == q[k + 1] && q[k + 1] != i;
    }
  }

  lemma {:induction false} QueueStays(s: State, i: nat, a: Address)
    requires QueueOk(s, a) && Enabled(s, i)
    requires s.tasks[i].todo[0] == a ==> s.tasks[i].phase != Idle && s.tasks[i].phase != Draining
    requires s.tasks[i].todo[0] == a ==> Queue(s, a) != [] && Queue(s, a)[0] == i
    ensures QueueOk(Step(s, i), a)
  {
    assert Queue(Step(s, i), a) == Queue(s, a);
  }

  lemma {:induction false} StepKeepsQueue(s: State, i: nat, slots: nat, a: Address)
    requires Inv(s, slots) && Enabled(s, i)
    ensures QueueOk(Step(s, i), a)
  {
    assert QueueOk(s, a);
    if s.tasks[i].phase == Idle && s.tasks[i].todo[0] == a {
      QueueJoined(s, i, a);
    } else {
      if s.tasks[i].phase != Idle && s.tasks[i].phase != WaitLock {
        HolderIsHead(s, i, slots);
      }
      if s.tasks[i].phase == Draining && s.tasks[i].todo[0] == a {
        QueueLeft(s, i, a);
      } else {
        QueueStays(s, i, a);
      }
    }
  }

  /** Whoever is past waiting for its device lock is the head of that lock's queue. */
  lemma {:induction false} HolderIsHead(s: State, i: nat, slots: nat)
    requires Inv(s, slots) && i < |s.tasks|
    requires s.tasks[i].phase != Idle && s.tasks[i].phase != WaitLock
    ensures s.tasks[i].todo != [] && Queue(s, s.tasks[i].todo[0]) != [] && Queue(s, s.tasks[i].todo[0])[0] == i
  {
    var a := s.tasks[i].todo[0];
    assert QueueOk(s, a);
    assert i in Queue(s, a);
  }

  lemma {:induction false} StepKeepsSlotQueue(s: State, i: nat)
    requires SlotQueueOk(s) && Enabled(s, i)
    ensures SlotQueueOk(Step(s, i))
  {
    if s.tasks[i].phase == WaitSlot {
      var q := s.slotQueue;
      assert q == [i] + q[1..];
      assert forall j: nat :: j in q[1..] <==> j in q && j != i;
    }
  }

  lemma {:induction false} StepKeepsInv(s: State, i: nat, slots: nat)
    requires Inv(s, slots) && Enabled(s, i)
    ensures Inv(Step(s, i), slots)
  {
    StepKeepsFlying(s, i);
    StepKeepsSlotQueue(s, i);
    forall a: Address ensures QueueOk(Step(s, i), a) {
      StepKeepsQueue(s, i, slots, a);
    }
  }

  lemma {:induction false} RunKeepsInv(s: State, moves: seq<nat>, s': State, slots: nat)
    requires Inv(s, slots) && Reaches(s, moves, s')
    ensures Inv(s', slots)
    decreases |moves|
  {
    if moves != [] {
      StepKeepsInv(s, moves[0], slots);
      RunKeepsInv(Step(s, moves[0]), moves[1..], s', slots);
    }
  }

  // ------------------------------------------------------------------- safety

  /**
  In every reachable state a device has at most one request in flight, and the
  fleet at most `max(1, concurrency)`.
  */
  lemma {:induction false} Safety(programs: seq<seq<Address>>, concurrency: int, moves: seq<nat>, s: State)
    requires Reaches(Init(programs, concurrency), moves, s)
    ensures |Flying(s)| <= if concurrency > 1 then concurrency else 1
    ensures forall i :: i in Flying(s) ==> s.tasks[i].todo != []
    ensures forall i, j | i in Flying(s) && j in Flying(s) :: s.tasks[i].todo[0] == s.tasks[j].todo[0] ==> i == j
  {
    InitInv(programs, concurrency);
    RunKeepsInv(Init(programs, concurrency), moves, s, Slots(concurrency));
    forall i, j | i in Flying(s) && j in Flying(s) && s.tasks[i].todo[0] == s.tasks[j].todo[0]
      ensures i == j
    {
      HolderIsHead(s, i, Slots(concurrency));
      HolderIsHead(s, j, Slots(concurrency));
    }
  }

  // -------------------------------------------------------- deadlock freedom

  /** While some task is unfinished, some task can move. */
  lemma {:induction false} SomeoneCanMove(s: State, slots: nat, i: nat) returns (k: nat)
    requires Inv(s, slots) && i < |s.tasks| && !Finished(s.tasks[i])
    ensures Enabled(s, k)
  {
    match s.tasks[i].phase {
      case Idle => k := i;
      case WaitLock =>
        var a := s.tasks[i].todo[0];
        assert QueueOk(s, a);
        assert i in Queue(s, a);
        var h := Queue(s, a)[0];
        assert h in Queue(s, a);
        if s.tasks[h].phase == WaitLock {
          k := h;
        } else {
          k := HolderCanMoveOrWaits(s, slots, h);
        }
      case _ => k := HolderCanMoveOrWaits(s, slots, i);
    }
  }

  /** A task that holds its device lock waits at most for a slot, and slots are only held in flight. */
  lemma {:induction false} HolderCanMoveOrWaits(s: State, slots: nat, i: nat) returns (k: nat)
    requires Inv(s, slots) && i < |s.tasks|
    requires s.tasks[i].phase != Idle && s.tasks[i].phase != WaitLock
    ensures Enabled(s, k)
  {
    HolderIsHead(s, i, slots);
    if s.tasks[i].phase != WaitSlot {
      k := i;
    } else if s.free > 0 {
      assert i in s.slotQueue;
      k := s.slotQueue[0];
      assert k in s.slotQueue;
    } else {
      assert |Flying(s)| >= 1;
      k :| k in Flying(s);
    }
  }

  // ------------------------------------------------------------- termination

  function Rank(p: Phase): nat {
    match p
    case Idle => 0
    case WaitLock => 1
    case HasLock => 2
    case WaitSlot => 3
    case InFlight => 4
    case Draining => 5
  }

  /** Moves task `t` has left: six per request, less those of the current one already made. */
  function MovesLeft(t: Task): int {
    6 * |t.todo| - Rank(t.phase)
  }

  function TotalLeft(tasks: seq<Task>): int {
    if tasks == [] then 0 else MovesLeft(tasks[0]) + TotalLeft(tasks[1..])
  }

  lemma {:induction false} TotalLeftUpdate(tasks: seq<Task>, i: nat, t: Task)
    requires i < |tasks|
    ensures TotalLeft(tasks[i := t]) == TotalLeft(tasks) - MovesLeft(tasks[i]) + MovesLeft(t)
  {
    if i == 0 {
      assert tasks[i := t][1..] == tasks[1..];
    } else {
      assert tasks[i := t][1..] == tasks[1..][i - 1 := t];
      TotalLeftUpdate(tasks[1..], i - 1, t);
    }
  }

  lemma {:induction false} StepCountsDown(s: State, i: nat)
    requires Enabled(s, i)
    ensures TotalLeft(Step(s, i).tasks) == TotalLeft(s.tasks) - 1
  {
    TotalLeftUpdate(s.tasks, i, Step(s, i).tasks[i]);
  }

  lemma {:induction false} RunCountsDown(s: State, moves: seq<nat>, s': State)
    requires Reaches(s, moves, s')
    ensures TotalLeft(s'.tasks) == TotalLeft(s.tasks) - |moves|
    decreases |moves|
  {
    if moves != [] {
      StepCountsDown(s, moves[0]);
      RunCountsDown(Step(s, moves[0]), moves[1..], s');
    }
  }

  lemma {:induction false} NothingLeft(tasks: seq<Task>)
    requires forall i :: 0 <= i < |tasks| ==> tasks[i].todo == [] ==> tasks[i].phase == Idle
    ensures TotalLeft(tasks) >= 0
    ensures TotalLeft(tasks) == 0 <==> forall i :: 0 <= i < |tasks| ==> Finished(tasks[i])
  {
    if tasks != [] {
      NothingLeft(tasks[1..]);
      assert MovesLeft(tasks[0]) >= 0;
      if TotalLeft(tasks) == 0 {
        forall i | 0 <= i < |tasks| ensures Finished(tasks[i]) {
          if i > 0 { assert tasks[i] == tasks[1..][i - 1]; }
        }
      }
      if forall i :: 0 <= i < |tasks| ==> Finished(tasks[i]) {
        assert forall i :: 0 <= i < |tasks[1..]| ==> Finished(tasks[1..][i]);
      }
    }
  }

  function Requests(programs: seq<seq<Address>>): nat {
    if programs == [] then 0 else |programs[0]| + Requests(programs[1..])
  }

  lemma {:induction false} InitialTotal(programs: seq<seq<Address>>, concurrency: int)
    ensures TotalLeft(Init(programs, concurrency).tasks) == 6 * Requests(programs)
  {
    if programs != [] {
      InitialTotal(programs[1..], concurrency);
      assert Init(programs, concurrency).tasks[1..] == Init(programs[1..], concurrency).tasks;
    }
  }

  /**
  Every run, under every scheduler, has at most six moves per request; it can be
  extended until it has exactly that many, and then, and only then, every task
  has finished all its requests.
  */
  lemma {:induction false} EveryRequestFinishes(programs: seq<seq<Address>>, concurrency: int, moves: seq<nat>, s: State)
    requires Reaches(Init(programs, concurrency), moves, s)
    ensures |moves| <= 6 * Requests(programs)
    ensures |moves| == 6 * Requests(programs) <==> forall i :: 0 <= i < |s.tasks| ==> Finished(s.tasks[i])
    ensures |moves| < 6 * Requests(programs) <==> exists k: nat :: Enabled(s, k)
  {
    var s0 := Init(programs, concurrency);
    InitInv(programs, concurrency);
    RunKeepsInv(s0, moves, s, Slots(concurrency));
    RunCountsDown(s0, moves, s);
    InitialTotal(programs, concurrency);
    NothingLeft(s.tasks);
    if |moves| < 6 * Requests(programs) {
      var i :| 0 <= i < |s.tasks| && !Finished(s.tasks[i]);
      var k := SomeoneCanMove(s, Slots(concurrency), i);
    }
  }

  // ------------------------------------------------------- whom they talk to

  /** The devices whose requests by task `i` ended during a run, in order. */
  ghost function Served(s: State, moves: seq<nat>, i: nat): seq<Address>
    decreases |moves|
  {
    if moves == [] || !Enabled(s, moves[0]) then []
    else (if moves[0] == i && s.tasks[i].phase == InFlight then [s.tasks[i].todo[0]] else []) + Served(Step(s, moves[0]), moves[1..], i)
  }

  /** The devices whose requests by a task have not ended. */
  function Unserved(t: Task): seq<Address>
    requires t.todo == [] ==> t.phase == Idle
  {
    if t.phase == Draining then t.todo[1..] else t.todo
  }

  lemma {:induction false} MoveServes(s: State, j: nat, i: nat, slots: nat)
    requires Inv(s, slots) && Enabled(s, j) && i < |s.tasks|
    ensures |Step(s, j).tasks| == |s.tasks| && Inv(Step(s, j), slots)
    ensures Unserved(s.tasks[i])
            == (if j == i && s.tasks[i].phase == InFlight then [s.tasks[i].todo[0]] else []) + Unserved(Step(s, j).tasks[i])
  {
    StepKeepsInv(s, j, slots);
  }

  lemma {:induction false} RunServes(s: State, moves: seq<nat>, s': State, i: nat, slots: nat)
    requires Inv(s, slots) && Reaches(s, moves, s') && i < |s.tasks|
    ensures |s'.tasks| == |s.tasks| && Inv(s', slots)
    ensures Served(s, moves, i) + Unserved(s'.tasks[i]) == Unserved(s.tasks[i])
    decreases |moves|
  {
    if moves == [] {
      assert [] + Unserved(s.tasks[i]) == Unserved(s.tasks[i]);
    } else {
      MoveServes(s, moves[0], i, slots);
      RunServes(Step(s, moves[0]), moves[1..], s', i, slots);
      Regroup(if moves[0] == i && s.tasks[i].phase == InFlight then [s.tasks[i].todo[0]] else [],
              Served(Step(s, moves[0]), moves[1..], i), Unserved(s'.tasks[i]));
    }
  }

  /**
  Along every run, the devices a task's ended requests went to and those still to
  come are its own list, in order; a finished task's requests went to that list.
  */
  lemma {:induction false} EachAddressServed(programs: seq<seq<Address>>, concurrency: int, moves: seq<nat>, s: State, i: nat)
    requires Reaches(Init(programs, concurrency), moves, s) && i < |programs|
    ensures |s.tasks| == |programs| && (s.tasks[i].todo == [] ==> s.tasks[i].phase == Idle)
    ensures Served(Init(programs, concurrency), moves, i) + Unserved(s.tasks[i]) == programs[i]
    ensures Finished(s.tasks[i]) ==> Served(Init(programs, concurrency), moves, i) == programs[i]
  {
    InitInv(programs, concurrency);
    RunServes(Init(programs, concurrency), moves, s, i, Slots(concurrency));
    var served := Served(Init(programs, concurrency), moves, i);
    assert served + [] == served;
  }

  // ---------------------------------------------------------- no overtaking

  /** Who is in front of task `i` in a queue. */
  function Before(q: seq<nat>, i: nat): seq<nat> {
    if q == [] || q[0] == i then [] else [q[0]] + Before(q[1..], i)
  }

  /** The moves after which a task has left the device queue it is in. */
  function ToLeave(t: Task): nat {
    6 - Rank(t.phase)
  }

  function AllToLeave(tasks: seq<Task>, ahead: seq<nat>): nat {
    if ahead == [] then 0
    else (if ahead[0] < |tasks| then ToLeave(tasks[ahead[0]]) else 0) + AllToLeave(tasks, ahead[1..])
  }

  /** The tasks in front of `i` in the queue of the device it asks for. */
  function Ahead(s: State, i: nat): seq<nat>
    requires i < |s.tasks| && s.tasks[i].todo != []
  {
    Before(Queue(s, s.tasks[i].todo[0]), i)
  }

  /** The moves those tasks still make in front of `i`. */
  function MovesAhead(s: State, i: nat): nat
    requires i < |s.tasks| && s.tasks[i].todo != []
  {
    AllToLeave(s.tasks, Ahead(s, i))
  }

  lemma {:induction false} BeforeMembers(q: seq<nat>, i: nat)
    ensures forall j :: j in Before(q, i) ==> j in q && j != i
    ensures i in q && q[0] != i ==> q[0] in Before(q, i)
    ensures i in q ==> (Before(q, i) == [] <==> q[0] == i)
  {
    if q != [] && q[0] != i {
      BeforeMembers(q[1..], i);
    }
  }

  lemma {:induction false} BeforeAppend(q: seq<nat>, i: nat, j: nat)
    requires i in q
    ensures Before(q + [j], i) == Before(q, i)
  {
    assert (q + [j])[0] == q[0];
    if q[0] != i {
      assert (q + [j])[1..] == q[1..] + [j];
      BeforeAppend(q[1..], i, j);
    }
  }

  lemma {:induction false} BeforeTail(q: seq<nat>, i: nat)
    requires i in q && q[0] != i
    ensures Before(q, i) == [q[0]] + Before(q[1..], i) && i in q[1..]
  {
  }

  /** A task that is not among them can do what it likes. */
  lemma {:induction false} OthersDoNotCount(tasks: seq<Task>, ahead: seq<nat>, j: nat, t: Task)
    requires j < |tasks| && j !in ahead
    ensures AllToLeave(tasks[j := t], ahead) == AllToLeave(tasks, ahead)
  {
    if ahead != [] {
      assert ahead[0] in ahead;
      OthersDoNotCount(tasks, ahead[1..], j, t);
    }
  }

  lemma {:induction false} AtMostFiveEach(tasks: seq<Task>, ahead: seq<nat>)
    requires forall j :: j in ahead ==> j < |tasks| && tasks[j].phase != Idle
    ensures |ahead| <= AllToLeave(tasks, ahead) <= 5 * |ahead|
  {
    if ahead != [] {
      assert ahead[0] in ahead && forall j :: j in ahead[1..] ==> j in ahead;
      AtMostFiveEach(tasks, ahead[1..]);
    }
  }

  /** In the queue of a device only its head can move. */
  lemma {:induction false} OnlyHeadMoves(s: State, slots: nat, a: Address, j: nat)
    requires Inv(s, slots) && Enabled(s, j) && j in Queue(s, a)
    ensures Queue(s, a)[0] == j && s.tasks[j].todo[0] == a && s.tasks[j].phase != Idle
  {
    assert QueueOk(s, a);
    if s.tasks[j].phase != WaitLock {
      HolderIsHead(s, j, slots);
    }
  }

  ghost predicate Waits(s: State, i: nat) {
    i < |s.tasks| && s.tasks[i].todo != [] && s.tasks[i].phase == WaitLock
  }

  lemma {:induction false} WaiterIsQueued(s: State, i: nat, slots: nat)
    requires Inv(s, slots) && Waits(s, i)
    ensures i in Queue(s, s.tasks[i].todo[0])
    ensures Ahead(s, i) == [] <==> Enabled(s, i)
    ensures forall j :: j in Ahead(s, i) ==> j < |s.tasks| && s.tasks[j].phase != Idle
  {
    var a := s.tasks[i].todo[0];
    assert QueueOk(s, a);
    BeforeMembers(Queue(s, a), i);
  }

  /** A move of a task in front is one fewer to come; no other move changes what is in front. */
  lemma {:induction false} MoveAhead(s: State, i: nat, j: nat, slots: nat)
    requires Inv(s, slots) && Waits(s, i) && Enabled(s, j) && j != i
    ensures Waits(Step(s, j), i) && Step(s, j).tasks[i] == s.tasks[i]
    ensures MovesAhead(Step(s, j), i) == MovesAhead(s, i) - if j in Ahead(s, i) then 1 else 0
  {
    var a := s.tasks[i].todo[0];
    var q := Queue(s, a);
    WaiterIsQueued(s, i, slots);
    BeforeMembers(q, i);
    if j in q {
      OnlyHeadMoves(s, slots, a, j);
      HeadMoves(s, i, j, slots);
    } else {
      if s.tasks[j].phase == Draining {
        HolderIsHead(s, j, slots);
      }
      OthersDoNotCount(s.tasks, Ahead(s, i), j, Step(s, j).tasks[j]);
      QueueKeeps(s, i, j);
    }
  }

  /** Who is not in a queue does not change what is in front in it. */
  lemma {:induction false} QueueKeeps(s: State, i: nat, j: nat)
    requires Waits(s, i) && Enabled(s, j) && j != i
    requires i in Queue(s, s.tasks[i].todo[0]) && j !in Queue(s, s.tasks[i].todo[0])
    requires s.tasks[j].phase == Draining ==> s.tasks[j].todo[0] != s.tasks[i].todo[0]
    ensures Ahead(Step(s, j), i) == Ahead(s, i)
  {
    var a := s.tasks[i].todo[0];
    if s.tasks[j].phase == Idle && s.tasks[j].todo[0] == a {
      BeforeAppend(Queue(s, a), i, j);
    }
  }

  lemma {:induction false} HeadMoves(s: State, i: nat, j: nat, slots: nat)
    requires Inv(s, slots) && Waits(s, i) && Enabled(s, j) && j != i && i in Queue(s, s.tasks[i].todo[0])
    requires Queue(s, s.tasks[i].todo[0])[0] == j && s.tasks[j].todo[0] == s.tasks[i].todo[0] && s.tasks[j].phase != Idle
    ensures MovesAhead(Step(s, j), i) == MovesAhead(s, i) - 1
  {
    var a := s.tasks[i].todo[0];
    var q := Queue(s, a);
    var rest := Before(q[1..], i);
    BeforeTail(q, i);
    assert QueueOk(s, a);
    BeforeMembers(q[1..], i);
    assert j !in rest;
    assert ([j] + rest)[1..] == rest;
    OthersDoNotCount(s.tasks, rest, j, Step(s, j).tasks[j]);
  }

  /** The moves of a run made by tasks in front of `i` at the time. */
  ghost function MadeAhead(s: State, moves: seq<nat>, i: nat): nat
    requires i < |s.tasks| && s.tasks[i].todo != []
    decreases |moves|
  {
    if moves == [] || !Enabled(s, moves[0]) || moves[0] == i then 0
    else (if moves[0] in Ahead(s, i) then 1 else 0) + MadeAhead(Step(s, moves[0]), moves[1..], i)
  }

  /**
  Device locks: whatever the other tasks do and however long they go on, the tasks
  in front of a waiting one make at most five moves each before its turn, nobody
  comes in between, and it can take the lock exactly when they have made them all.
  */
  lemma {:induction false} LockTurnComes(s: State, moves: seq<nat>, s': State, i: nat, slots: nat)
    requires Inv(s, slots) && Waits(s, i) && Reaches(s, moves, s') && i !in moves
    ensures Waits(s', i) && MadeAhead(s, moves, i) + MovesAhead(s', i) == MovesAhead(s, i) <= 5 * |Ahead(s, i)|
    ensures Enabled(s', i) <==> MadeAhead(s, moves, i) == MovesAhead(s, i)
    decreases |moves|
  {
    WaiterIsQueued(s, i, slots);
    AtMostFiveEach(s.tasks, Ahead(s, i));
    if moves != [] {
      MoveAhead(s, i, moves[0], slots);
      StepKeepsInv(s, moves[0], slots);
      LockTurnComes(Step(s, moves[0]), moves[1..], s', i, slots);
    }
  }

  ghost predicate WaitsForSlot(s: State, i: nat) {
    i < |s.tasks| && s.tasks[i].todo != [] && s.tasks[i].phase == WaitSlot
  }

  /** The moves of a run that take a slot. */
  ghost function SlotsTaken(s: State, moves: seq<nat>): nat
    decreases |moves|
  {
    if moves == [] || !Enabled(s, moves[0]) then 0
    else (if s.tasks[moves[0]].phase == WaitSlot then 1 else 0) + SlotsTaken(Step(s, moves[0]), moves[1..])
  }

  lemma {:induction false} SlotMove(s: State, i: nat, j: nat)
    requires SlotQueueOk(s) && WaitsForSlot(s, i) && Enabled(s, j) && j != i
    ensures WaitsForSlot(Step(s, j), i)
    ensures |Before(Step(s, j).slotQueue, i)| == |Before(s.slotQueue, i)| - if s.tasks[j].phase == WaitSlot then 1 else 0
  {
    assert i in s.slotQueue;
    if s.tasks[j].phase == WaitSlot {
      BeforeTail(s.slotQueue, i);
    } else if s.tasks[j].phase == HasLock {
      BeforeAppend(s.slotQueue, i, j);
    }
  }

  /**
  The semaphore: while `i` waits, slots go to those in front of it and to nobody
  else, and `i` can take one exactly when they all have theirs and one is free.
  If none is, a request in flight can end.
  */
  lemma {:induction false} SlotTurnComes(s: State, moves: seq<nat>, s': State, i: nat, slots: nat)
    requires Inv(s, slots) && WaitsForSlot(s, i) && Reaches(s, moves, s') && i !in moves
    ensures WaitsForSlot(s', i) && SlotsTaken(s, moves) + |Before(s'.slotQueue, i)| == |Before(s.slotQueue, i)|
    ensures Enabled(s', i) <==> SlotsTaken(s, moves) == |Before(s.slotQueue, i)| && s'.free > 0
    ensures s'.free == 0 ==> exists k: nat :: k in Flying(s') && Enabled(s', k)
    decreases |moves|
  {
    if moves == [] {
      assert i in s.slotQueue;
      BeforeMembers(s.slotQueue, i);
      if s.free == 0 {
        assert |Flying(s)| >= 1;
        var k :| k in Flying(s);
        assert Enabled(s, k);
      }
    } else {
      SlotMove(s, i, moves[0]);
      StepKeepsInv(s, moves[0], slots);
      SlotTurnComes(Step(s, moves[0]), moves[1..], s', i, slots);
    }
  }

  // -------------------------------------------------------------- the client

  /** `BacnetClient`: the lock table, the semaphore and the tasks that use them. */
  class BacnetClient {
    const concurrency: nat
    var tasks: seq<Task>
    var deviceLocks: map<Address, seq<nat>>
    var slotQueue: seq<nat>
    var free: nat

    ghost function View(): State
      reads this
    {
      State(tasks, deviceLocks, slotQueue, free)
    }

    ghost predicate Valid()
      reads this
    {
      Inv(View(), concurrency)
    }

    constructor (programs: seq<seq<Address>>, requested: int)
      ensures View() == Init(programs, requested) && concurrency == Slots(requested) && Valid()
    {
      concurrency := Slots(requested);
      tasks := seq(|programs|, i requires 0 <= i < |programs| => Task(Idle, programs[i]));
      deviceLocks := map[];
      slotQueue := [];
      free := Slots(requested);
      new;
      InitInv(programs, requested);
    }

    /** `async with lock`: create the lock on first use, and queue for it. */
    method QueueForDevice(i: nat)
      requires Valid() && Enabled(View(), i) && tasks[i].phase == Idle
      modifies this
      ensures View() == Step(old(View()), i) && Valid()
    {
      ghost var before := View();
      var a := tasks[i].todo[0];
      if a !in deviceLocks {
        deviceLocks := deviceLocks[a := []];
      }
      deviceLocks := deviceLocks[a := deviceLocks[a] + [i]];
      tasks := tasks[i := tasks[i].(phase := WaitLock)];
      StepKeepsInv(before, i, concurrency);
    }

    method TakeDevice(i: nat)
      requires Valid() && Enabled(View(), i) && tasks[i].phase == WaitLock
      modifies this
      ensures View() == Step(old(View()), i) && Valid()
    {
      StepKeepsInv(View(), i, concurrency);
      tasks := tasks[i := tasks[i].(phase := HasLock)];
    }

    /** `async with self._gate`. */
    method QueueForSlot(i: nat)
      requires Valid() && Enabled(View(), i) && tasks[i].phase == HasLock
      modifies this
      ensures View() == Step(old(View()), i) && Valid()
    {
      StepKeepsInv(View(), i, concurrency);
      slotQueue := slotQueue + [i];
      tasks := tasks[i := tasks[i].(phase := WaitSlot)];
    }

    method TakeSlot(i: nat)
      requires Valid() && Enabled(View(), i) && tasks[i].phase == WaitSlot
      modifies this
      ensures View() == Step(old(View()), i) && Valid()
    {
      StepKeepsInv(View(), i, concurrency);
      slotQueue := slotQueue[1..];
      free := free - 1;
      tasks := tasks[i := tasks[i].(phase := InFlight)];
    }

    /** The request ended, however it ended: leaving the inner block gives the slot back. */
    method GiveSlotBack(i: nat)
      requires Valid() && Enabled(View(), i) && tasks[i].phase == InFlight
      modifies this
      ensures View() == Step(old(View()), i) && Valid()
    {
      StepKeepsInv(View(), i, concurrency);
      free := free + 1;
      tasks := tasks[i := tasks[i].(phase := Draining)];
    }

    method GiveDeviceBack(i: nat)
      requires Valid() && Enabled(View(), i) && tasks[i].phase == Draining
      modifies this
      ensures View() == Step(old(View()), i) && Valid()
    {
      StepKeepsInv(View(), i, concurrency);
      var a := tasks[i].todo[0];
      deviceLocks := deviceLocks[a := deviceLocks[a][1..]];
      tasks := tasks[i := Task(Idle, tasks[i].todo[1..])];
    }

    method Move(i: nat)
      requires Valid() && Enabled(View(), i)
      modifies this
      ensures View() == Step(old(View()), i) && Valid()
    {
      match tasks[i].phase {
        case Idle => QueueForDevice(i);
        case WaitLock => TakeDevice(i);
        case HasLock => QueueForSlot(i);
        case WaitSlot => TakeSlot(i);
        case InFlight => GiveSlotBack(i);
        case Draining => GiveDeviceBack(i);
      }
    }
  }
}
