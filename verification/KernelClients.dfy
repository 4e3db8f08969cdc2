/** Clients of the kernel: who holds which thread state, and when it is right to give one back. */
module KernelClients {
  import opened Machine
  import opened IdManager
  import opened KernelSteps
  import Q = RunQueue
  import T = TimerQueue
  import R = Registry

  /** A thread state that the kernel handed out, and the id it was handed out for. */
  datatype Ticket = Ticket(id: ThreadId, thread: R.VmThread)

  /** Calls give back the state of one of the client's tickets; the event loop also takes threads
      that are not next in the run queue, and cancels a thread after taking its state. */
  datatype KernelOp =
    | SpawnThread(admitted: bool, key: Option<string>)
    | StartCreated(id: ThreadId)
    | TakeDirectly(id: ThreadId)
    | Dispatch
    | Enqueue(t: nat, front: bool)
    | BlockThread(t: nat, timeout: Option<nat>)
    | Park(t: nat)
    | Exit(t: nat, result: Result<int, string>)
    | UnblockThread(id: ThreadId)
    | TickClock(deltaMs: nat)
    | CancelThread(id: ThreadId)
    | TeardownThread(id: ThreadId)

  /** The kernel and its client. Every spawned thread gets the next tag; `owner` says which tag each
      registered id was spawned with, and `ended` are the tags of states that were marked exited. */
  datatype World = World(k: KernelState, hand: seq<Ticket>, owner: map<ThreadId, nat>, next: nat, ended: set<nat>)

  // ----- identity -----

  /** Each thread state is in one place: parked under the id it was spawned with, or in the hand of
      the client, who holds the states of all live threads that are not parked; and a thread has
      exited exactly if its own state was given back for that. */
  ghost predicate Linear(tcbs: R.Tcbs, hand: seq<Ticket>, owner: map<ThreadId, nat>, next: nat, ended: set<nat>) {
    && Owners(tcbs, owner, next)
    && Parkings(tcbs, owner)
    && Hand(tcbs, hand, owner, next)
    && (forall id :: Held(tcbs, id) ==> InHand(hand, owner, id))
    && Endings(tcbs, owner, next, ended)
  }

  ghost predicate Owners(tcbs: R.Tcbs, owner: map<ThreadId, nat>, next: nat) {
    && owner.Keys == tcbs.Keys
    && (forall id :: id in owner ==> owner[id] < next)
    && (forall a, b :: a in owner && b in owner && owner[a] == owner[b] ==> a == b)
  }

  ghost predicate Parkings(tcbs: R.Tcbs, owner: map<ThreadId, nat>)
    requires owner.Keys == tcbs.Keys
  {
    forall id :: Parked(tcbs, id) ==> Alive(tcbs, id) && id in owner && tcbs[id].vm == Some(R.VmThread(owner[id]))
  }

  ghost predicate Hand(tcbs: R.Tcbs, hand: seq<Ticket>, owner: map<ThreadId, nat>, next: nat) {
    && (forall i :: 0 <= i < |hand| ==> hand[i].thread.tag < next)
    && (forall i, j :: 0 <= i < j < |hand| ==> hand[i].thread.tag != hand[j].thread.tag)
    && (forall i, id :: 0 <= i < |hand| && id in owner && owner[id] == hand[i].thread.tag ==> hand[i].id == id && Held(tcbs, id))
  }

  ghost predicate Endings(tcbs: R.Tcbs, owner: map<ThreadId, nat>, next: nat, ended: set<nat>)
    requires owner.Keys == tcbs.Keys
  {
    && (forall id :: id in tcbs ==> (tcbs[id].state.Exited? <==> owner[id] in ended))
    && (forall x :: x in ended ==> x < next)
  }

  ghost predicate InHand(hand: seq<Ticket>, owner: map<ThreadId, nat>, id: ThreadId) {
    id in owner && Ticket(id, R.VmThread(owner[id])) in hand
  }

  /** The kernel is consistent, and so are the thread states. */
  ghost predicate Sound(w: World) {
    KernelValid(w.k) && Linear(w.k.registry.tcbs, w.hand, w.owner, w.next, w.ended)
  }

  /** The ticket is for the thread that is registered under its id now. */
  ghost predicate Current(w: World, t: nat)
    requires t < |w.hand|
  {
    w.hand[t].id in w.k.registry.tcbs && w.hand[t].id in w.owner && w.owner[w.hand[t].id] == w.hand[t].thread.tag
  }

  ghost predicate Unknown(w: World, t: nat)
    requires t < |w.hand|
  {
    w.hand[t].id !in w.k.registry.tcbs
  }

  function Without(hand: seq<Ticket>, t: nat): seq<Ticket>
    requires t < |hand|
  {
    hand[..t] + hand[t + 1..]
  }

  lemma WithoutHas(hand: seq<Ticket>, t: nat, x: Ticket)
    requires t < |hand| && x in hand && x != hand[t]
    ensures x in Without(hand, t)
  {
    var i :| 0 <= i < |hand| && hand[i] == x;
    assert Without(hand, t)[if i < t then i else i - 1] == x;
  }

  /** Giving up a ticket keeps the hand in order. */
  lemma HandWithout(tcbs: R.Tcbs, hand: seq<Ticket>, owner: map<ThreadId, nat>, next: nat, t: nat)
    requires Hand(tcbs, hand, owner, next) && t < |hand|
    ensures Hand(tcbs, Without(hand, t), owner, next)
    ensures forall i :: 0 <= i < |hand| - 1 ==> Without(hand, t)[i].thread.tag != hand[t].thread.tag
  {
    var h := Without(hand, t);
    assert forall i :: 0 <= i < |h| ==> h[i] == hand[if i < t then i else i + 1];
  }

  /** Two states can be given back under one id only by mistake: a state parked under an id must be
      that of the thread registered there. */
  lemma GivenLinear(w: World, t: nat)
    requires Linear(w.k.registry.tcbs, w.hand, w.owner, w.next, w.ended) && t < |w.hand|
    ensures Linear(VmSet(w.k.registry.tcbs, w.hand[t].id, Some(w.hand[t].thread)), Without(w.hand, t), w.owner, w.next, w.ended) <==>
      Current(w, t) || Unknown(w, t)
  {
    var tcbs, id, vm := w.k.registry.tcbs, w.hand[t].id, w.hand[t].thread;
    var tcbs', hand' := VmSet(tcbs, id, Some(vm)), Without(w.hand, t);
    if Current(w, t) || Unknown(w, t) {
      GivenHand(w, t);
      forall x | Held(tcbs', x) ensures InHand(hand', w.owner, x) {
        assert Held(tcbs, x) && InHand(w.hand, w.owner, x);
        WithoutHas(w.hand, t, Ticket(x, R.VmThread(w.owner[x])));
      }
    } else {
      assert Parked(tcbs', id) && tcbs'[id].vm == Some(vm);
    }
  }

  lemma GivenHand(w: World, t: nat)
    requires Linear(w.k.registry.tcbs, w.hand, w.owner, w.next, w.ended) && t < |w.hand| && (Current(w, t) || Unknown(w, t))
    ensures Hand(VmSet(w.k.registry.tcbs, w.hand[t].id, Some(w.hand[t].thread)), Without(w.hand, t), w.owner, w.next)
    ensures Current(w, t) ==> Held(w.k.registry.tcbs, w.hand[t].id)
  {
    HandWithout(w.k.registry.tcbs, w.hand, w.owner, w.next, t);
  }

  /** A parked state handed out makes one ticket more. */
  lemma TakenLinear(tcbs: R.Tcbs, hand: seq<Ticket>, owner: map<ThreadId, nat>, next: nat, ended: set<nat>, id: ThreadId)
    requires Linear(tcbs, hand, owner, next, ended) && Parked(tcbs, id)
    ensures Linear(VmSet(tcbs, id, None), hand + [Ticket(id, tcbs[id].vm.value)], owner, next, ended)
  {
    var tcbs', ticket := VmSet(tcbs, id, None), Ticket(id, tcbs[id].vm.value);
    var hand' := hand + [ticket];
    assert ticket == Ticket(id, R.VmThread(owner[id]));
    assert hand'[|hand|] == ticket;
    forall x | Held(tcbs', x) ensures InHand(hand', owner, x) {
      if x != id { assert Held(tcbs, x) && InHand(hand, owner, x); }
    }
  }

  lemma BegunLinear(tcbs: R.Tcbs, hand: seq<Ticket>, owner: map<ThreadId, nat>, next: nat, ended: set<nat>, id: ThreadId, tcbs': R.Tcbs)
    requires Linear(tcbs, hand, owner, next, ended)
    requires tcbs' == if Alive(tcbs, id) then tcbs[id := tcbs[id].(state := R.Running)] else tcbs
    ensures Linear(tcbs', hand, owner, next, ended)
  {
    assert forall x :: Held(tcbs', x) <==> Held(tcbs, x);
  }

  lemma SpawnedLinear(tcbs: R.Tcbs, hand: seq<Ticket>, owner: map<ThreadId, nat>, next: nat, ended: set<nat>, id: ThreadId, key: Option<string>)
    requires Linear(tcbs, hand, owner, next, ended) && id !in tcbs
    ensures Linear(tcbs[id := R.Tcb(R.Created, key, Some(R.VmThread(next)))], hand, owner[id := next], next + 1, ended)
  {
    var tcbs', owner' := tcbs[id := R.Tcb(R.Created, key, Some(R.VmThread(next)))], owner[id := next];
    forall x | Held(tcbs', x) ensures InHand(hand, owner', x) {
      assert Held(tcbs, x) && InHand(hand, owner, x);
    }
  }

  /** Threads leave the registry; tickets for them are stale from then on. */
  lemma LeftLinear(tcbs: R.Tcbs, hand: seq<Ticket>, owner: map<ThreadId, nat>, next: nat, ended: set<nat>, gone: set<ThreadId>)
    requires Linear(tcbs, hand, owner, next, ended)
    ensures Linear(tcbs - gone, hand, owner - gone, next, ended)
  {
    forall x | Held(tcbs - gone, x) ensures InHand(hand, owner - gone, x) {
      assert Held(tcbs, x) && InHand(hand, owner, x);
    }
  }

  /** What marking a ticket's thread exited does to the blocks. */
  ghost predicate Buries(w: World, t: nat, tcbs': R.Tcbs)
    requires t < |w.hand|
  {
    var tcbs, id := w.k.registry.tcbs, w.hand[t].id;
    if Alive(tcbs, id) then Thinned(tcbs, id, tcbs') && id in tcbs' && tcbs'[id].state.Exited?
    else tcbs' == VmSet(tcbs, id, Some(w.hand[t].thread))
  }

  function Restrict(owner: map<ThreadId, nat>, ids: set<ThreadId>): map<ThreadId, nat> {
    map id | id in owner && id in ids :: owner[id]
  }

  /** A thread may be marked exited only with its own state. */
  lemma ExitedLinear(w: World, t: nat, tcbs': R.Tcbs)
    requires Linear(w.k.registry.tcbs, w.hand, w.owner, w.next, w.ended) && t < |w.hand| && Buries(w, t, tcbs')
    ensures Linear(tcbs', Without(w.hand, t), Restrict(w.owner, tcbs'.Keys), w.next, w.ended + {w.hand[t].thread.tag}) <==>
      Current(w, t) || Unknown(w, t)
  {
    var tcbs, id, tag := w.k.registry.tcbs, w.hand[t].id, w.hand[t].thread.tag;
    if Unknown(w, t) {
      UnknownExit(w, t);
      assert Restrict(w.owner, tcbs'.Keys) == w.owner;
    } else if Current(w, t) {
      CurrentExit(w, t, tcbs');
    } else if Alive(tcbs, id) {
      assert w.owner[id] !in w.ended && w.owner[id] != tag;
      assert Restrict(w.owner, tcbs'.Keys)[id] == w.owner[id];
    } else {
      assert Parked(tcbs', id) && !Alive(tcbs', id);
    }
  }

  lemma UnknownExit(w: World, t: nat)
    requires Linear(w.k.registry.tcbs, w.hand, w.owner, w.next, w.ended) && t < |w.hand| && Unknown(w, t)
    ensures Linear(w.k.registry.tcbs, Without(w.hand, t), w.owner, w.next, w.ended + {w.hand[t].thread.tag})
  {
    var tcbs, tag := w.k.registry.tcbs, w.hand[t].thread.tag;
    HandWithout(tcbs, w.hand, w.owner, w.next, t);
    forall x | Held(tcbs, x) ensures InHand(Without(w.hand, t), w.owner, x) {
      assert InHand(w.hand, w.owner, x);
      WithoutHas(w.hand, t, Ticket(x, R.VmThread(w.owner[x])));
    }
    assert forall x :: x in w.owner ==> w.owner[x] != tag;
  }

  lemma CurrentExit(w: World, t: nat, tcbs': R.Tcbs)
    requires Linear(w.k.registry.tcbs, w.hand, w.owner, w.next, w.ended) && t < |w.hand| && Current(w, t) && Buries(w, t, tcbs')
    ensures Linear(tcbs', Without(w.hand, t), Restrict(w.owner, tcbs'.Keys), w.next, w.ended + {w.hand[t].thread.tag})
  {
    var tcbs, id, tag := w.k.registry.tcbs, w.hand[t].id, w.hand[t].thread.tag;
    var hand', owner', ended' := Without(w.hand, t), Restrict(w.owner, tcbs'.Keys), w.ended + {tag};
    assert Held(tcbs, id);
    HandWithout(tcbs, w.hand, w.owner, w.next, t);
    assert owner'.Keys == tcbs'.Keys;
    CurrentExitHand(w, t, tcbs');
    forall x | Held(tcbs', x) ensures InHand(hand', owner', x) {
      assert x != id && Held(tcbs, x) && InHand(w.hand, w.owner, x);
      WithoutHas(w.hand, t, Ticket(x, R.VmThread(w.owner[x])));
    }
    assert forall x :: x in owner' && x != id ==> owner'[x] != tag;
  }

  lemma CurrentExitHand(w: World, t: nat, tcbs': R.Tcbs)
    requires Hand(w.k.registry.tcbs, w.hand, w.owner, w.next) && Owners(w.k.registry.tcbs, w.owner, w.next)
    requires t < |w.hand| && Current(w, t) && Thinned(w.k.registry.tcbs, w.hand[t].id, tcbs')
    ensures Hand(tcbs', Without(w.hand, t), Restrict(w.owner, tcbs'.Keys), w.next)
  {
    var h, owner' := Without(w.hand, t), Restrict(w.owner, tcbs'.Keys);
    HandWithout(w.k.registry.tcbs, w.hand, w.owner, w.next, t);
    forall i, id | 0 <= i < |h| && id in owner' && owner'[id] == h[i].thread.tag ensures h[i].id == id && Held(tcbs', id) {
      assert w.owner[id] == h[i].thread.tag && Held(w.k.registry.tcbs, id);
    }
  }

  // ----- when a call is right -----

  /** The run-queue limit refuses one more thread. */
  predicate QueueFull(k: KernelState) {
    k.counters.runnable >= k.limits.maxRunnable
  }

  predicate BlockedFull(k: KernelState, timed: bool) {
    k.counters.pending >= k.limits.maxPending || (timed && k.counters.timers >= k.limits.maxTimers)
  }

  /** What a caller must know before the call: the ticket is current, or the thread is gone and the
      call charges nothing; a state is not taken from a thread that waits. */
  ghost predicate Safe(op: KernelOp, w: World) {
    var tcbs := w.k.registry.tcbs;
    match op
    case StartCreated(id) => Parked(tcbs, id) && tcbs[id].state.Created? ==> id !in w.k.queued && id !in w.k.blocked.blocked
    case TakeDirectly(id) => Parked(tcbs, id) ==> id !in w.k.queued && id !in w.k.blocked.blocked && w.k.queued == map[]
    case Enqueue(t, _) => t < |w.hand| ==> Current(w, t) || (Unknown(w, t) && QueueFull(w.k))
    case BlockThread(t, timeout) => t < |w.hand| ==>
      if BlockedFull(w.k, timeout.Some?) then Current(w, t) || Unknown(w, t)
      else Current(w, t) && !(timeout.Some? && Exhausted(w.k.blocked.ids))
    case Park(t) => t < |w.hand| ==> Current(w, t) || Unknown(w, t)
    case Exit(t, _) => t < |w.hand| ==> Current(w, t) || Unknown(w, t)
    case TeardownThread(id) => TeardownKeeps(w.k, id)
    case _ => true
  }

  // ----- what a call does to the surplus -----

  ghost function Fired(k: KernelState, deltaMs: nat): seq<ThreadId> {
    T.Ticked(k.blocked, deltaMs).1
  }

  ghost function Lost(k: KernelState, deltaMs: nat): int {
    |Fired(k, deltaMs)| - |WithState(k.registry.tcbs, Fired(k, deltaMs))|
  }

  /** Charges go astray when a thread leaves a queue while the registry does not have its state, when
      a blocked thread is blocked again, and when timer ids run out; taking a thread that is not next
      returns a charge too many. */
  ghost function Drift(op: KernelOp, w: World): Surplus {
    var tcbs := w.k.registry.tcbs;
    match op
    case TakeDirectly(id) => Surplus(0 - OneIf(Parked(tcbs, id) && w.k.counters.runnable > 0), 0, 0)
    case Dispatch =>
      var waiting := Q.View(w.k.queue, w.k.queued);
      if waiting == [] then NO_SURPLUS else Surplus(1 - OneIf(Parked(tcbs, waiting[0].id) && w.k.counters.runnable > 0), 0, 0)
    case BlockThread(t, timeout) =>
      if t >= |w.hand| || BlockedFull(w.k, timeout.Some?) then NO_SURPLUS
      else if timeout.Some? && Exhausted(w.k.blocked.ids) then Surplus(0, 1, 1)
      else Surplus(0, 0, OneIf(w.hand[t].id in w.k.blocked.blocked))
    case UnblockThread(id) =>
      if id in w.k.blocked.blocked && !Parked(tcbs, id) then Owing(id in w.k.blocked.active) else NO_SURPLUS
    case TickClock(deltaMs) => Surplus(0, Lost(w.k, deltaMs), Lost(w.k, deltaMs))
    case CancelThread(id) => Unreturned(w.k, id)
    case TeardownThread(id) => TornDown(w.k, id)
    case _ => NO_SURPLUS
  }

  /** An id that was not registered is registered only by a spawn, and was not retired. */
  ghost predicate Fresh(op: KernelOp, a: World, b: World) {
    && a.k.retired <= b.k.retired
    && forall id :: id in b.k.registry.tcbs && id !in a.k.registry.tcbs ==> op.SpawnThread? && id !in a.k.retired
  }

  /** One call, whoever makes it: the parts stay valid, the surplus changes as stated, and a sound
      world stays sound exactly if the call was safe. */
  ghost predicate Step(op: KernelOp, a: World, b: World) {
    && Formed(b.k) && b.k.limits == a.k.limits
    && Raised(SurplusOf(a.k), SurplusOf(b.k), Drift(op, a))
    && (Sound(a) ==> (Sound(b) <==> Safe(op, a)))
    && Fresh(op, a, b)
  }

  // ----- the calls that give a state back -----

  /** What holds of the ticket of a sound world. */
  lemma TicketPlace(w: World, t: nat)
    requires Sound(w) && t < |w.hand|
    ensures Current(w, t) ==> Alive(w.k.registry.tcbs, w.hand[t].id)
    ensures Current(w, t) || Unknown(w, t) ==> w.hand[t].id !in w.k.queued && w.hand[t].id !in w.k.blocked.blocked
  {
    hide KernelValid, Owners, Parkings, Endings;
    WaitingHasState(w.k, w.hand[t].id);
  }

  lemma EnqueueStep(op: KernelOp, w: World, ok: bool, w': World)
    requires op.Enqueue? && op.t < |w.hand| && Formed(w'.k) && w'.k.limits == w.k.limits && SurplusOf(w'.k) == SurplusOf(w.k)
    requires w'.k.registry == R.WithVm(w.k.registry, w.hand[op.t].id, Some(w.hand[op.t].thread)) && w'.k.retired == w.k.retired
    requires w' == World(w'.k, Without(w.hand, op.t), w.owner, w.next, w.ended)
    requires ok <==> w.hand[op.t].id in w.k.queued || !QueueFull(w.k)
    requires KernelValid(w.k) ==> (KernelValid(w'.k) <==> EnqueueKeeps(w.k, w.hand[op.t].id, ok))
    ensures Step(op, w, w')
  {
    hide Formed, SurplusOf, KernelValid, Linear, R.WithVm, QueueFull;
    WithVmTcbs(w.k.registry, w.hand[op.t].id, Some(w.hand[op.t].thread));
    if Sound(w) {
      TicketPlace(w, op.t);
      GivenLinear(w, op.t);
    }
  }

  lemma ParkStep(op: KernelOp, w: World, w': World)
    requires op.Park? && op.t < |w.hand| && Formed(w'.k)
    requires w'.k == w.k.(registry := R.WithVm(w.k.registry, w.hand[op.t].id, Some(w.hand[op.t].thread)))
    requires w' == World(w'.k, Without(w.hand, op.t), w.owner, w.next, w.ended)
    requires KernelValid(w.k) ==> (KernelValid(w'.k) <==> w.hand[op.t].id !in w.k.registry.tcbs || Alive(w.k.registry.tcbs, w.hand[op.t].id))
    ensures Step(op, w, w')
  {
    hide Formed, KernelValid, Linear, R.WithVm;
    WithVmTcbs(w.k.registry, w.hand[op.t].id, Some(w.hand[op.t].thread));
    if Sound(w) {
      TicketPlace(w, op.t);
      GivenLinear(w, op.t);
    }
  }

  lemma BlockStep(op: KernelOp, w: World, result: Result<(), Failure>, w': World)
    requires op.BlockThread? && op.t < |w.hand| && Formed(w'.k) && w'.k.limits == w.k.limits && w'.k.retired == w.k.retired
    requires result.Ok? || result == Err(LimitExceeded) || result == Err(IdSpaceExhausted)
    requires result == Err(LimitExceeded) <==> BlockedFull(w.k, op.timeout.Some?)
    requires result == Err(IdSpaceExhausted) <==> op.timeout.Some? && !BlockedFull(w.k, true) && Exhausted(w.k.blocked.ids)
    requires w'.k.registry == if result == Err(IdSpaceExhausted) then w.k.registry else R.WithVm(w.k.registry, w.hand[op.t].id, Some(w.hand[op.t].thread))
    requires Raised(SurplusOf(w.k), SurplusOf(w'.k),
      if result.Ok? then Surplus(0, 0, OneIf(w.hand[op.t].id in w.k.blocked.blocked)) else if result.error.LimitExceeded? then NO_SURPLUS else Surplus(0, 1, 1))
    requires w' == World(w'.k, Without(w.hand, op.t), w.owner, w.next, w.ended)
    requires KernelValid(w.k) ==> (KernelValid(w'.k) <==> BlockKeeps(w.k, w.hand[op.t].id, result))
    ensures Step(op, w, w')
  {
    hide Formed, SurplusOf, KernelValid, Linear, R.WithVm, BlockedFull, Exhausted;
    WithVmTcbs(w.k.registry, w.hand[op.t].id, Some(w.hand[op.t].thread));
    if Sound(w) {
      TicketPlace(w, op.t);
      GivenLinear(w, op.t);
    }
  }

  lemma ExitStep(op: KernelOp, w: World, w': World)
    requires op.Exit? && op.t < |w.hand| && Formed(w'.k) && w'.k == w.k.(registry := w'.k.registry, retired := w'.k.retired)
    requires Buries(w, op.t, w'.k.registry.tcbs) && w.k.retired <= w'.k.retired
    requires w' == World(w'.k, Without(w.hand, op.t), Restrict(w.owner, w'.k.registry.tcbs.Keys), w.next, w.ended + {w.hand[op.t].thread.tag})
    requires KernelValid(w.k) ==> (KernelValid(w'.k) <==> ExitKeeps(w.k, w.hand[op.t].id))
    ensures Step(op, w, w')
  {
    hide Formed, KernelValid, Linear;
    if Sound(w) {
      TicketPlace(w, op.t);
      ExitedLinear(w, op.t, w'.k.registry.tcbs);
    }
  }

  // ----- the other calls -----

  /** A call that only hands a parked state out, or does nothing. */
  lemma TakeStep(op: KernelOp, w: World, id: ThreadId, w': World)
    requires (op.StartCreated? && id == op.id) || (op.TakeDirectly? && id == op.id)
    requires Formed(w'.k) && w'.k.limits == w.k.limits && w'.k.retired == w.k.retired
    requires var taken := Parked(w.k.registry.tcbs, id) && (op.StartCreated? ==> w.k.registry.tcbs[id].state.Created?);
      && w'.k.registry.tcbs == (if taken then VmSet(w.k.registry.tcbs, id, None) else w.k.registry.tcbs)
      && w' == World(w'.k, if taken then w.hand + [Ticket(id, w.k.registry.tcbs[id].vm.value)] else w.hand, w.owner, w.next, w.ended)
    requires Raised(SurplusOf(w.k), SurplusOf(w'.k), Drift(op, w))
    requires KernelValid(w.k) ==> (KernelValid(w'.k) <==> Safe(op, w))
    ensures Step(op, w, w')
  {
    hide Formed, SurplusOf, KernelValid, Linear, Drift, Safe;
    if Sound(w) && Parked(w.k.registry.tcbs, id) {
      TakenLinear(w.k.registry.tcbs, w.hand, w.owner, w.next, w.ended, id);
    }
  }

  /** The blocks once a thread's state is handed out and the thread runs. */
  function Ran(tcbs: R.Tcbs, id: ThreadId): R.Tcbs {
    if !Parked(tcbs, id) then tcbs
    else
      var taken := VmSet(tcbs, id, None);
      if Alive(taken, id) then taken[id := taken[id].(state := R.Running)] else taken
  }

  /** A thread is dequeued; its state is handed out and it runs, or there is none and it is gone. */
  lemma DispatchStep(op: KernelOp, w: World, w': World)
    requires op.Dispatch? && Formed(w'.k) && w'.k.limits == w.k.limits && w'.k.retired == w.k.retired
    requires Raised(SurplusOf(w.k), SurplusOf(w'.k), Drift(op, w))
    requires KernelValid(w.k) ==> KernelValid(w'.k)
    requires var tcbs, waiting := w.k.registry.tcbs, Q.View(w.k.queue, w.k.queued);
      if waiting == [] || !Parked(tcbs, waiting[0].id) then
        w'.k.registry.tcbs == (if waiting == [] then tcbs else Ran(tcbs, waiting[0].id)) && w' == World(w'.k, w.hand, w.owner, w.next, w.ended)
      else
        && w'.k.registry.tcbs == Ran(tcbs, waiting[0].id)
        && w' == World(w'.k, w.hand + [Ticket(waiting[0].id, tcbs[waiting[0].id].vm.value)], w.owner, w.next, w.ended)
    ensures Step(op, w, w')
  {
    hide Formed, SurplusOf, KernelValid, Linear, Drift, Q.View;
    var tcbs, waiting := w.k.registry.tcbs, Q.View(w.k.queue, w.k.queued);
    if Sound(w) && waiting != [] && Parked(tcbs, waiting[0].id) {
      TakenLinear(tcbs, w.hand, w.owner, w.next, w.ended, waiting[0].id);
      BegunLinear(VmSet(tcbs, waiting[0].id, None), w'.hand, w.owner, w.next, w.ended, waiting[0].id, w'.k.registry.tcbs);
    }
  }

  lemma SpawnStep(op: KernelOp, w: World, spawned: Option<ThreadId>, w': World)
    requires op.SpawnThread? && Formed(w'.k) && w'.k.limits == w.k.limits && w'.k.retired == w.k.retired && SurplusOf(w'.k) == SurplusOf(w.k)
    requires KernelValid(w.k) ==> KernelValid(w'.k)
    requires spawned.None? ==> w'.k.registry == w.k.registry && w' == World(w'.k, w.hand, w.owner, w.next, w.ended)
    requires spawned.Some? ==>
      && spawned.value !in w.k.registry.tcbs && spawned.value !in w.k.retired
      && w'.k.registry.tcbs == w.k.registry.tcbs[spawned.value := R.Tcb(R.Created, op.key, Some(R.VmThread(w.next)))]
      && w' == World(w'.k, w.hand, w.owner[spawned.value := w.next], w.next + 1, w.ended)
    ensures Step(op, w, w')
  {
    hide Formed, SurplusOf, KernelValid, Linear;
    if Sound(w) && spawned.Some? {
      SpawnedLinear(w.k.registry.tcbs, w.hand, w.owner, w.next, w.ended, spawned.value, op.key);
    }
  }

  /** Waking leaves the registry and the client as they are. */
  lemma WakeStep(op: KernelOp, w: World, w': World)
    requires (op.UnblockThread? || op.TickClock?) && Formed(w'.k) && w'.k.limits == w.k.limits && w'.k.retired == w.k.retired
    requires w'.k.registry == w.k.registry && w' == World(w'.k, w.hand, w.owner, w.next, w.ended)
    requires Raised(SurplusOf(w.k), SurplusOf(w'.k), Drift(op, w)) && (KernelValid(w.k) ==> KernelValid(w'.k))
    ensures Step(op, w, w')
  {
    hide Formed, SurplusOf, KernelValid, Linear, Drift;
  }

  lemma CancelStep(op: KernelOp, w: World, id: ThreadId, w': World)
    requires (op.CancelThread? && op.id == id) || (op.TeardownThread? && op.id == id)
    requires Formed(w'.k) && w'.k.limits == w.k.limits && w'.k.retired == w.k.retired && w'.k.registry.tcbs == w.k.registry.tcbs - {id}
    requires w' == World(w'.k, w.hand, w.owner - {id}, w.next, w.ended)
    requires Raised(SurplusOf(w.k), SurplusOf(w'.k), Drift(op, w)) && (KernelValid(w.k) ==> (KernelValid(w'.k) <==> Safe(op, w)))
    ensures Step(op, w, w')
  {
    hide Formed, SurplusOf, KernelValid, Linear, Drift, Safe;
    if Sound(w) {
      LeftLinear(w.k.registry.tcbs, w.hand, w.owner, w.next, w.ended, {id});
    }
  }

  /** A call with a ticket the client does not have changes nothing. */
  lemma NoStep(op: KernelOp, w: World)
    requires Formed(w.k)
    requires match op
      case Enqueue(t, _) => t >= |w.hand|
      case BlockThread(t, _) => t >= |w.hand|
      case Park(t) => t >= |w.hand|
      case Exit(t, _) => t >= |w.hand|
      case _ => false
    ensures Step(op, w, w)
  {
    hide Formed, SurplusOf, KernelValid, Linear;
  }
}
