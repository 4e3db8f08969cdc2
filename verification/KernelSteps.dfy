/** The kernel's state and invariant, on values, and what each step does to them. */
module KernelSteps {
  import opened Machine
  import opened IdManager
  import Q = RunQueue
  import T = TimerQueue
  import R = Registry

  type ThreadId = nat

  datatype Failure = LimitExceeded | DuplicateThreadKey | IdSpaceExhausted

  datatype Counters = Counters(runnable: nat, timers: nat, pending: nat)

  datatype Limits = Limits(maxRunnable: u64, maxTimers: u64, maxPending: u64)

  ghost predicate Within(c: Counters, limits: Limits) {
    c.runnable <= limits.maxRunnable && c.timers <= limits.maxTimers && c.pending <= limits.maxPending
  }

  // ----- the state -----

  datatype KernelState = KernelState(
    ids: IdState, registry: R.RegistryState, queue: seq<Q.Entry>, queued: Q.Queued, nextToken: nat,
    blocked: T.BlockedState, counters: Counters, limits: Limits, retired: set<ThreadId>)

  /** The ids handed out are those of the registered threads and of the expired tombstones. */
  ghost predicate Named(ids: IdState, tcbs: R.Tcbs, retired: set<ThreadId>) {
    ids.start == 1 && ids.activeIds == tcbs.Keys + retired && tcbs.Keys !! retired
  }

  /** Every part is valid on its own. */
  ghost predicate PartsValid(k: KernelState) {
    && IdsValid(k.ids)
    && R.RegistryValid(k.registry)
    && Q.QueueValid(k.queue, k.queued, k.nextToken)
    && T.TimersValid(k.blocked)
    && k.blocked.ids.start == 1
    && Named(k.ids, k.registry.tcbs, k.retired)
  }

  /** What every call keeps, whoever makes it: every part is valid, no counter is over its limit, and
      blocked threads and timers are charged. */
  ghost predicate Formed(k: KernelState) {
    && PartsValid(k)
    && k.counters.pending >= |k.blocked.blocked|
    && k.counters.timers >= |k.blocked.active.Keys|
    && Within(k.counters, k.limits)
  }

  /** By how much each counter exceeds the size of what it counts. */
  datatype Surplus = Surplus(runnable: int, timers: int, pending: int)

  const NO_SURPLUS: Surplus := Surplus(0, 0, 0)

  ghost function SurplusOf(k: KernelState): Surplus {
    Surplus(
      k.counters.runnable - |k.queued.Keys|,
      k.counters.timers - |k.blocked.active.Keys|,
      k.counters.pending - |k.blocked.blocked|)
  }

  /** The surplus went from `a` to `b` by this much. */
  ghost predicate Raised(a: Surplus, b: Surplus, change: Surplus) {
    b.runnable == a.runnable + change.runnable && b.timers == a.timers + change.timers && b.pending == a.pending + change.pending
  }

  // ----- where threads are -----

  /** The registry has the thread's state. */
  predicate Parked(tcbs: R.Tcbs, id: ThreadId) {
    id in tcbs && tcbs[id].vm.Some?
  }

  /** Registered and not exited. */
  predicate Alive(tcbs: R.Tcbs, id: ThreadId) {
    id in tcbs && !tcbs[id].state.Exited?
  }

  /** Some caller has the thread's state. */
  predicate Held(tcbs: R.Tcbs, id: ThreadId) {
    Alive(tcbs, id) && tcbs[id].vm.None?
  }

  /** Queued, blocked and waking threads are different threads, all parked in the registry, and an
      exited thread has no state. */
  ghost predicate Placed(tcbs: R.Tcbs, queued: set<ThreadId>, blocked: set<ThreadId>, waking: set<ThreadId>) {
    && queued !! blocked
    && queued !! waking
    && blocked !! waking
    && (forall id :: id in queued || id in blocked || id in waking ==> Parked(tcbs, id))
    && (forall id :: id in tcbs && tcbs[id].state.Exited? ==> tcbs[id].vm.None?)
  }

  ghost predicate InPlace(k: KernelState, waking: set<ThreadId>) {
    Placed(k.registry.tcbs, k.queued.Keys, k.blocked.blocked, waking)
  }

  /** The kernel is consistent: every thread is in one place, and the counters are the queue sizes. */
  ghost predicate KernelValid(k: KernelState) {
    Formed(k) && SurplusOf(k) == NO_SURPLUS && InPlace(k, {})
  }

  // ----- set sizes -----

  lemma {:induction false} CardFull(s: set<nat>, n: nat)
    requires forall x :: 1 <= x <= n ==> x in s
    ensures |s| >= n
  {
    if n > 0 {
      CardFull(s - {n}, n - 1);
    }
  }

  function OneIf(b: bool): nat {
    if b then 1 else 0
  }

  lemma CardWith(s: set<ThreadId>, id: ThreadId)
    ensures |s + {id}| == |s| + OneIf(id !in s)
  {
    if id in s { assert s + {id} == s; }
  }

  lemma CardWithout(s: set<ThreadId>, id: ThreadId)
    ensures |s - {id}| == |s| - OneIf(id in s)
  {
    if id !in s { assert s - {id} == s; }
  }

  lemma AlreadyQueued(s: set<ThreadId>, id: ThreadId)
    requires id in s
    ensures s + {id} == s
  {}

  lemma CardDifference(s: set<ThreadId>, w: set<ThreadId>)
    requires w <= s
    ensures |s - w| == |s| - |w|
  {}

  ghost function Elems(s: seq<ThreadId>): set<ThreadId> {
    set x | x in s
  }

  lemma {:induction false} ElemsCount(s: seq<ThreadId>)
    requires forall i, j :: 0 <= i < j < |s| ==> s[i] != s[j]
    ensures |Elems(s)| == |s|
  {
    if s != [] {
      ElemsCount(s[1..]);
      assert Elems(s) == {s[0]} + Elems(s[1..]);
      assert s[0] !in s[1..];
    }
  }

  // ----- giving a thread state back, and taking it -----

  function VmSet(tcbs: R.Tcbs, id: ThreadId, vm: Option<R.VmThread>): R.Tcbs {
    if id in tcbs then tcbs[id := tcbs[id].(vm := vm)] else tcbs
  }

  lemma WithVmTcbs(s: R.RegistryState, id: ThreadId, vm: Option<R.VmThread>)
    ensures R.WithVm(s, id, vm).tcbs == VmSet(s.tcbs, id, vm) && R.WithVm(s, id, vm).activeCount == s.activeCount
  {}

  lemma WithVmNamed(ids: IdState, s: R.RegistryState, retired: set<ThreadId>, id: ThreadId, vm: Option<R.VmThread>)
    requires Named(ids, s.tcbs, retired)
    ensures Named(ids, R.WithVm(s, id, vm).tcbs, retired)
  {}

  /** A state taken and given back, or no state taken, changes nothing. */
  lemma TakenAndGiven(s: R.RegistryState, id: ThreadId)
    ensures Parked(s.tcbs, id) ==> R.WithVm(R.WithVm(s, id, None), id, s.tcbs[id].vm) == s
    ensures !Parked(s.tcbs, id) ==> R.WithVm(s, id, None) == s
  {
    if Parked(s.tcbs, id) {
      assert R.WithVm(R.WithVm(s, id, None), id, s.tcbs[id].vm).tcbs == s.tcbs;
    } else {
      assert R.WithVm(s, id, None).tcbs == s.tcbs;
    }
  }

  /** Giving back alone is right for an unknown or a live thread. */
  lemma PlacedGiven(tcbs: R.Tcbs, queued: set<ThreadId>, blocked: set<ThreadId>, waking: set<ThreadId>, id: ThreadId, vm: R.VmThread)
    requires Placed(tcbs, queued, blocked, waking)
    ensures Placed(VmSet(tcbs, id, Some(vm)), queued, blocked, waking) <==> id !in tcbs || Alive(tcbs, id)
  {
    if id in tcbs && !Alive(tcbs, id) {
      assert VmSet(tcbs, id, Some(vm))[id].state.Exited?;
    }
  }

  /** Giving back and queueing is right for a live thread that waits nowhere else. */
  lemma PlacedQueued(tcbs: R.Tcbs, queued: set<ThreadId>, blocked: set<ThreadId>, waking: set<ThreadId>, id: ThreadId, vm: R.VmThread)
    requires Placed(tcbs, queued, blocked, waking) && id !in queued
    ensures Placed(VmSet(tcbs, id, Some(vm)), queued + {id}, blocked, waking) <==> Alive(tcbs, id) && id !in blocked && id !in waking
  {
    var tcbs' := VmSet(tcbs, id, Some(vm));
    if Placed(tcbs', queued + {id}, blocked, waking) {
      assert id in queued + {id};
      assert Parked(tcbs', id);
    }
  }

  /** Giving back and blocking is right for a live thread that waits nowhere else. */
  lemma PlacedBlocked(tcbs: R.Tcbs, queued: set<ThreadId>, blocked: set<ThreadId>, id: ThreadId, vm: R.VmThread)
    requires Placed(tcbs, queued, blocked, {}) && id !in blocked
    ensures Placed(VmSet(tcbs, id, Some(vm)), queued, blocked + {id}, {}) <==> Alive(tcbs, id) && id !in queued
  {
    var tcbs' := VmSet(tcbs, id, Some(vm));
    if Placed(tcbs', queued, blocked + {id}, {}) {
      assert id in blocked + {id};
      assert Parked(tcbs', id);
    }
  }

  /** Taking is right for a thread that waits nowhere, or has no state to take. */
  lemma PlacedTaken(tcbs: R.Tcbs, queued: set<ThreadId>, blocked: set<ThreadId>, waking: set<ThreadId>, id: ThreadId)
    requires Placed(tcbs, queued, blocked, waking)
    ensures Placed(VmSet(tcbs, id, None), queued, blocked, waking) <==> id !in queued && id !in blocked && id !in waking
  {
    var tcbs' := VmSet(tcbs, id, None);
    assert !Parked(tcbs', id);
  }

  /** Threads that wait are parked and alive. */
  lemma WaitingIsParked(tcbs: R.Tcbs, queued: set<ThreadId>, blocked: set<ThreadId>, waking: set<ThreadId>, id: ThreadId)
    requires Placed(tcbs, queued, blocked, waking) && (id in queued || id in blocked || id in waking)
    ensures Parked(tcbs, id) && Alive(tcbs, id)
  {}

  /** A waking thread is queued, or stays parked: right either way. */
  lemma PlacedWoken(tcbs: R.Tcbs, queued: set<ThreadId>, blocked: set<ThreadId>, waking: set<ThreadId>, id: ThreadId, queued': set<ThreadId>)
    requires Placed(tcbs, queued, blocked, waking) && id in waking && (queued' == queued || queued' == queued + {id})
    ensures Placed(tcbs, queued', blocked, waking - {id}) && id !in queued && Parked(tcbs, id)
  {}

  /** Threads that leave the blocked set are waking. */
  lemma PlacedWaking(tcbs: R.Tcbs, queued: set<ThreadId>, blocked: set<ThreadId>, waking: set<ThreadId>)
    requires Placed(tcbs, queued, blocked, {}) && waking <= blocked
    ensures Placed(tcbs, queued, blocked - waking, waking)
  {}

  // ----- what every call keeps -----

  lemma FormedParts(k: KernelState)
    requires Formed(k)
    ensures IdsValid(k.ids) && R.RegistryValid(k.registry) && Q.QueueValid(k.queue, k.queued, k.nextToken) && T.TimersValid(k.blocked)
    ensures k.blocked.ids.start == 1 && Named(k.ids, k.registry.tcbs, k.retired)
    ensures k.counters.pending >= |k.blocked.blocked| && k.counters.timers >= |k.blocked.active.Keys| && Within(k.counters, k.limits)
  {}

  /** A thread's state is set or taken. */
  lemma VmFormed(k: KernelState, id: ThreadId, vm: Option<R.VmThread>, k': KernelState)
    requires Formed(k) && k' == k.(registry := R.WithVm(k.registry, id, vm))
    ensures Formed(k') && SurplusOf(k') == SurplusOf(k)
  {
    hide R.RegistryValid, Q.QueueValid, T.TimersBut, IdsValid, Named, R.WithVm;
    R.WithVmKeeps(k.registry, id, vm);
    WithVmNamed(k.ids, k.registry, k.retired, id, vm);
  }

  /** One thread enters the run queue with one charge. */
  lemma QueueFormed(k: KernelState, id: ThreadId, k': KernelState)
    requires Formed(k) && id !in k.queued && k.counters.runnable < k.limits.maxRunnable
    requires Q.QueueValid(k'.queue, k'.queued, k'.nextToken) && k'.queued.Keys == k.queued.Keys + {id}
    requires k' == k.(queue := k'.queue, queued := k'.queued, nextToken := k'.nextToken, counters := k.counters.(runnable := k.counters.runnable + 1))
    ensures Formed(k') && SurplusOf(k') == SurplusOf(k)
  {
    hide R.RegistryValid, Q.QueueValid, T.TimersBut, IdsValid, Named;
    CardWith(k.queued.Keys, id);
  }

  /** Only the counters change, within their bounds. */
  lemma ChargeFormed(k: KernelState, c: Counters)
    requires Formed(k) && Within(c, k.limits) && c.pending >= |k.blocked.blocked| && c.timers >= |k.blocked.active.Keys|
    ensures Formed(k.(counters := c))
    ensures Raised(SurplusOf(k), SurplusOf(k.(counters := c)),
      Surplus(c.runnable - k.counters.runnable, c.timers - k.counters.timers, c.pending - k.counters.pending))
  {
    hide R.RegistryValid, Q.QueueValid, T.TimersBut, IdsValid, Named;
  }

  /** The charges of one blocked thread are returned. */
  lemma RefundFormed(k: KernelState, hadTimer: bool, c: Counters)
    requires Formed(k) && k.counters.pending > |k.blocked.blocked| && k.counters.timers >= |k.blocked.active.Keys| + OneIf(hadTimer)
    requires c == k.counters.(pending := k.counters.pending - 1, timers := k.counters.timers - OneIf(hadTimer))
    ensures Formed(k.(counters := c))
    ensures Raised(SurplusOf(k), SurplusOf(k.(counters := c)), Paid(hadTimer))
  {
    hide R.RegistryValid, Q.QueueValid, T.TimersBut, IdsValid, Named;
  }

  /** Only the blocked queue changes, and is covered by the charges. */
  lemma BlockFormed(k: KernelState, b: T.BlockedState)
    requires Formed(k) && T.TimersValid(b) && b.ids.start == 1
    requires k.counters.pending >= |b.blocked| && k.counters.timers >= |b.active.Keys|
    ensures Formed(k.(blocked := b))
  {
    hide R.RegistryValid, Q.QueueValid, T.TimersBut, IdsValid, Named;
  }

  // ----- the calls that give a state back -----

  /** When an enqueue leaves a consistent kernel consistent. */
  ghost predicate EnqueueKeeps(k: KernelState, id: ThreadId, ok: bool) {
    || id in k.queued
    || (ok && Alive(k.registry.tcbs, id) && id !in k.blocked.blocked)
    || (!ok && (id !in k.registry.tcbs || Alive(k.registry.tcbs, id)))
  }

  lemma Enqueued(k: KernelState, id: ThreadId, vm: R.VmThread, ok: bool, k': KernelState)
    requires KernelValid(k) && Formed(k') && SurplusOf(k') == SurplusOf(k)
    requires k'.registry == R.WithVm(k.registry, id, Some(vm)) && k'.blocked == k.blocked
    requires k'.queued.Keys == if ok then k.queued.Keys + {id} else k.queued.Keys
    requires id in k.queued ==> ok
    ensures KernelValid(k') <==> EnqueueKeeps(k, id, ok)
  {
    hide Formed, Placed, VmSet, R.WithVm, Parked, Alive;
    WithVmTcbs(k.registry, id, Some(vm));
    if id in k.queued {
      assert k.queued.Keys + {id} == k.queued.Keys;
      WaitingIsParked(k.registry.tcbs, k.queued.Keys, k.blocked.blocked, {}, id);
      PlacedGiven(k.registry.tcbs, k.queued.Keys, k.blocked.blocked, {}, id, vm);
    } else if ok {
      PlacedQueued(k.registry.tcbs, k.queued.Keys, k.blocked.blocked, {}, id, vm);
    } else {
      PlacedGiven(k.registry.tcbs, k.queued.Keys, k.blocked.blocked, {}, id, vm);
    }
  }

  lemma GivenBack(k: KernelState, id: ThreadId, vm: R.VmThread, k': KernelState)
    requires KernelValid(k) && Formed(k') && k' == k.(registry := R.WithVm(k.registry, id, Some(vm)))
    ensures KernelValid(k') <==> id !in k.registry.tcbs || Alive(k.registry.tcbs, id)
  {
    hide Formed, Placed, VmSet, R.WithVm, Alive;
    WithVmTcbs(k.registry, id, Some(vm));
    PlacedGiven(k.registry.tcbs, k.queued.Keys, k.blocked.blocked, {}, id, vm);
  }

  // ----- blocking -----

  /** When blocking leaves a consistent kernel consistent. */
  ghost predicate BlockKeeps(k: KernelState, id: ThreadId, result: Result<(), Failure>) {
    match result
    case Ok(_) => Alive(k.registry.tcbs, id) && id !in k.queued && id !in k.blocked.blocked
    case Err(LimitExceeded) => id !in k.registry.tcbs || Alive(k.registry.tcbs, id)
    case Err(_) => false
  }

  lemma OneMorePending(a: Surplus, b: Surplus, more: bool)
    requires a == NO_SURPLUS && Raised(a, b, Surplus(0, 0, OneIf(more)))
    ensures b == NO_SURPLUS <==> !more
  {}

  lemma EnteredBlocked(k: KernelState, id: ThreadId, vm: R.VmThread, k': KernelState)
    requires KernelValid(k) && Formed(k')
    requires k'.registry == R.WithVm(k.registry, id, Some(vm)) && k'.queued == k.queued && k'.blocked.blocked == k.blocked.blocked + {id}
    requires Raised(SurplusOf(k), SurplusOf(k'), Surplus(0, 0, OneIf(id in k.blocked.blocked)))
    ensures KernelValid(k') <==> BlockKeeps(k, id, Ok(()))
  {
    hide Formed, Placed, VmSet, R.WithVm, Alive, Parked, SurplusOf, Raised, OneIf;
    WithVmTcbs(k.registry, id, Some(vm));
    OneMorePending(SurplusOf(k), SurplusOf(k'), id in k.blocked.blocked);
    if id !in k.blocked.blocked {
      PlacedBlocked(k.registry.tcbs, k.queued.Keys, k.blocked.blocked, id, vm);
    }
  }

  /** The thread is blocked, with a timer exactly if a timeout is given. */
  ghost predicate Blocks(s: T.BlockedState, id: ThreadId, timeout: Option<nat>, s': T.BlockedState) {
    && s'.blocked == s.blocked + {id}
    && s'.active.Keys == (if timeout.Some? then s.active.Keys + {id} else s.active.Keys - {id})
    && (timeout.Some? ==> s'.active[id].deadline == SatAdd64(s.clock, timeout.value))
  }

  lemma BlocksMeans(s: T.BlockedState, id: ThreadId, timeout: Option<nat>, s': T.BlockedState)
    requires Blocks(s, id, timeout, s')
    ensures s'.blocked == s.blocked + {id}
  {}

  /** The charges after a thread is blocked: an old timer's is returned. */
  ghost function AfterBlock(k: KernelState, id: ThreadId, timeout: Option<nat>): Counters {
    Counters(k.counters.runnable, SatSub(k.counters.timers + OneIf(timeout.Some?), OneIf(id in k.blocked.active)), k.counters.pending + 1)
  }

  /** What blocking does to the sizes, and what it therefore adds to the surplus. */
  lemma BlockedSizes(k: KernelState, id: ThreadId, timeout: Option<nat>, k': KernelState)
    requires k'.queued == k.queued && Blocks(k.blocked, id, timeout, k'.blocked)
    requires id in k.blocked.active ==> k.counters.timers >= 1
    requires k'.counters == AfterBlock(k, id, timeout)
    ensures Raised(SurplusOf(k), SurplusOf(k'), Surplus(0, 0, OneIf(id in k.blocked.blocked)))
  {
    CardWith(k.blocked.blocked, id);
    CardWith(k.blocked.active.Keys, id);
    CardWithout(k.blocked.active.Keys, id);
  }

  lemma OldTimerReturned(k: KernelState, id: ThreadId, timeout: Option<nat>, c: Counters)
    requires c.runnable == k.counters.runnable && c.pending == k.counters.pending + 1
    requires c.timers == SatSub(k.counters.timers + OneIf(timeout.Some?), if id in k.blocked.active then 1 else 0)
    ensures c == AfterBlock(k, id, timeout)
  {}

  /** A thread enters the blocked queue. */
  lemma SuspendFormed(k: KernelState, id: ThreadId, vm: R.VmThread, timeout: Option<nat>, b: T.BlockedState)
    requires Formed(k) && T.TimersValid(b) && b.ids.start == 1 && Blocks(k.blocked, id, timeout, b)
    requires Within(k.counters.(timers := k.counters.timers + OneIf(timeout.Some?), pending := k.counters.pending + 1), k.limits)
    ensures var k' := k.(registry := R.WithVm(k.registry, id, Some(vm)), blocked := b, counters := AfterBlock(k, id, timeout));
      Formed(k') && Raised(SurplusOf(k), SurplusOf(k'), Surplus(0, 0, OneIf(id in k.blocked.blocked)))
  {
    hide R.RegistryValid, Q.QueueValid, T.TimersBut, IdsValid, Named, R.WithVm, Blocks;
    if id in k.blocked.active { ActiveIsBlocked(k.blocked, id); }
    R.WithVmKeeps(k.registry, id, Some(vm));
    WithVmNamed(k.ids, k.registry, k.retired, id, Some(vm));
    BlockedSizes(k, id, timeout, k.(registry := R.WithVm(k.registry, id, Some(vm)), blocked := b, counters := AfterBlock(k, id, timeout)));
  }

  /** Charges for a thread that was not blocked stay without a counterpart. */
  lemma Overcharged(k: KernelState, k': KernelState)
    requires KernelValid(k) && k'.blocked == k.blocked && k'.counters.pending == k.counters.pending + 1
    ensures !KernelValid(k')
  {
    hide Formed, Placed;
  }

  /** Timer ids run out only beyond 2^32 - 1 timers. */
  lemma ExhaustedTimers(k: KernelState)
    requires Formed(k) && Exhausted(k.blocked.ids)
    ensures k.counters.timers >= U32_MAX
  {
    hide R.RegistryValid, Q.QueueValid, Named;
    CardFull(k.blocked.ids.activeIds, U32_MAX);
    TimersCoverIds(k.blocked, k.blocked.ids.activeIds, k.blocked.active.Keys);
  }

  /** Each id in use belongs to a timer of its own. */
  lemma {:induction false} TimersCoverIds(s: T.BlockedState, ids: set<nat>, threads: set<ThreadId>)
    requires threads <= s.active.Keys
    requires forall a, b :: a in s.active && b in s.active && s.active[a].timerId == s.active[b].timerId ==> a == b
    requires forall id :: id in ids ==> exists th :: th in threads && s.active[th].timerId == id
    ensures |ids| <= |threads|
    decreases ids
  {
    if ids != {} {
      var id :| id in ids;
      var th :| th in threads && s.active[th].timerId == id;
      forall x | x in ids - {id} ensures exists u :: u in threads - {th} && s.active[u].timerId == x {
        var u :| u in threads && s.active[u].timerId == x;
        assert u in threads - {th};
      }
      TimersCoverIds(s, ids - {id}, threads - {th});
    }
  }

  lemma TimedFields(s: T.BlockedState, ids: IdState, id: ThreadId, timerId: nat, timeout: nat)
    ensures var s' := T.Timed(T.Untimed(s.(ids := ids), id), id, timerId, timeout);
      && s'.blocked == s.blocked + {id}
      && s'.active.Keys == s.active.Keys + {id}
      && s'.active[id].deadline == SatAdd64(s.clock, timeout)
  {}

  lemma UntimedFields(s: T.BlockedState, id: ThreadId)
    ensures T.Untimed(s, id).active.Keys == s.active.Keys - {id} && T.Untimed(s, id).blocked == s.blocked
    ensures T.Untimed(s, id).ids.start == s.ids.start
  {}

  lemma ActiveIsBlocked(s: T.BlockedState, id: ThreadId)
    requires T.TimersValid(s) && id in s.active
    ensures id in s.blocked && |s.active.Keys| >= 1
  {}

  /** Unblocking a thread that is not blocked changes nothing. */
  lemma NotBlocked(s: T.BlockedState, id: ThreadId)
    requires T.TimersValid(s) && id !in s.blocked
    ensures T.Untimed(s, id).(blocked := s.blocked - {id}) == s
  {}

  // ----- unblocking and waking -----

  /** The charges of one blocked thread, left behind and returned. */
  function Owing(hadTimer: bool): Surplus {
    Surplus(0, OneIf(hadTimer), 1)
  }

  function Paid(hadTimer: bool): Surplus {
    Surplus(0, 0 - OneIf(hadTimer), -1)
  }

  /** A thread leaves the blocked set: its charges stay behind until they are returned. */
  lemma LeftSizes(k: KernelState, id: ThreadId, hadTimer: bool, k': KernelState)
    requires id in k.blocked.blocked && (hadTimer <==> id in k.blocked.active)
    requires k' == k.(blocked := T.Untimed(k.blocked, id).(blocked := k.blocked.blocked - {id}))
    ensures Raised(SurplusOf(k), SurplusOf(k'), Owing(hadTimer))
  {
    hide T.Untimed;
    UntimedFields(k.blocked, id);
    CardWithout(k.blocked.blocked, id);
    CardWithout(k.blocked.active.Keys, id);
  }

  lemma RaisedAndBack(a: KernelState, b: KernelState, c: KernelState, hadTimer: bool)
    requires Raised(SurplusOf(a), SurplusOf(b), Owing(hadTimer)) && Raised(SurplusOf(b), SurplusOf(c), Paid(hadTimer))
    ensures SurplusOf(c) == SurplusOf(a)
  {
    hide SurplusOf;
  }

  lemma BlockedIsParked(k: KernelState, id: ThreadId)
    requires KernelValid(k) && id in k.blocked.blocked
    ensures Parked(k.registry.tcbs, id) && id !in k.queued
  {
    hide Formed;
  }

  lemma Unblocked(k: KernelState, id: ThreadId, k': KernelState)
    requires KernelValid(k) && id in k.blocked.blocked && Formed(k') && SurplusOf(k') == SurplusOf(k)
    requires k'.registry == k.registry && k'.blocked.blocked == k.blocked.blocked - {id}
    requires k'.queued.Keys == k.queued.Keys || k'.queued.Keys == k.queued.Keys + {id}
    ensures KernelValid(k')
  {
    hide Formed, Placed, Parked;
    PlacedWaking(k.registry.tcbs, k.queued.Keys, k.blocked.blocked, {id});
    PlacedWoken(k.registry.tcbs, k.queued.Keys, k.blocked.blocked - {id}, {id}, id, k'.queued.Keys);
    assert {id} - {id} == {};
  }

  /** Timers that fire take their threads out of the blocked set. */
  lemma TimersFired(s: T.BlockedState, moved: T.BlockedState, woke: seq<ThreadId>, after: T.BlockedState)
    requires T.TimersValid(s) && moved == s.(clock := moved.clock)
    requires T.WokeExactly(moved, woke) && T.Awakened(moved, woke, after)
    ensures Elems(woke) <= s.blocked && after.blocked == s.blocked - Elems(woke)
    ensures |after.blocked| == |s.blocked| - |woke| && |after.active.Keys| == |s.active.Keys| - |woke|
    ensures forall i, j :: 0 <= i < j < |woke| ==> woke[i] != woke[j]
  {
    hide T.TimersBut, T.WokeExactly, T.Awakened, Elems;
    WokeAreBlocked(s, moved, woke);
    WokenSets(s, moved, woke, after);
    WokeDistinct(moved, woke);
    CardDifference(s.blocked, Elems(woke));
    CardDifference(s.active.Keys, Elems(woke));
  }

  lemma FiredSizes(k: KernelState, n: nat, k': KernelState)
    requires k' == k.(blocked := k'.blocked)
    requires |k'.blocked.blocked| == |k.blocked.blocked| - n && |k'.blocked.active.Keys| == |k.blocked.active.Keys| - n
    ensures Raised(SurplusOf(k), SurplusOf(k'), Surplus(0, n, n))
  {}

  lemma WakingStarts(k: KernelState, woke: seq<ThreadId>, k': KernelState)
    requires KernelValid(k) && Elems(woke) <= k.blocked.blocked
    requires k'.registry == k.registry && k'.queued == k.queued && k'.blocked.blocked == k.blocked.blocked - Elems(woke)
    ensures InPlace(k', Elems(woke))
  {
    hide Formed, Placed;
    PlacedWaking(k.registry.tcbs, k.queued.Keys, k.blocked.blocked, Elems(woke));
  }

  lemma WakingGoesOn(k: KernelState, waking: set<ThreadId>, id: ThreadId, k': KernelState)
    requires InPlace(k, waking) && id in waking && k'.registry == k.registry && k'.blocked == k.blocked
    requires k'.queued.Keys == k.queued.Keys || k'.queued.Keys == k.queued.Keys + {id}
    ensures InPlace(k', waking - {id}) && Parked(k.registry.tcbs, id) && id !in k.queued
  {
    hide Placed;
    PlacedWoken(k.registry.tcbs, k.queued.Keys, k.blocked.blocked, waking, id, k'.queued.Keys);
  }

  lemma WokenSets(s: T.BlockedState, moved: T.BlockedState, woke: seq<ThreadId>, after: T.BlockedState)
    requires moved == s.(clock := moved.clock) && T.Awakened(moved, woke, after)
    ensures after.blocked == s.blocked - Elems(woke)
    ensures after.active.Keys == s.active.Keys - Elems(woke)
  {}

  lemma WokeAreBlocked(s: T.BlockedState, moved: T.BlockedState, woke: seq<ThreadId>)
    requires T.TimersValid(s) && moved == s.(clock := moved.clock) && T.WokeExactly(moved, woke)
    ensures Elems(woke) <= s.active.Keys && Elems(woke) <= s.blocked
  {}

  lemma WokeDistinct(moved: T.BlockedState, woke: seq<ThreadId>)
    requires T.WokeExactly(moved, woke)
    ensures |Elems(woke)| == |woke|
    ensures forall i, j :: 0 <= i < j < |woke| ==> woke[i] != woke[j]
  {
    forall i, j | 0 <= i < j < |woke| ensures woke[i] != woke[j] { assert T.Precedes(moved, woke[i], woke[j]); }
    ElemsCount(woke);
  }

  lemma WakeNext(woke: seq<ThreadId>, i: nat)
    requires i < |woke| && forall a, b :: 0 <= a < b < |woke| ==> woke[a] != woke[b]
    ensures woke[i] in Elems(woke[i..]) && Elems(woke[i + 1..]) == Elems(woke[i..]) - {woke[i]}
  {}

  lemma NoneLeft(woke: seq<ThreadId>)
    ensures Elems(woke[|woke|..]) == {}
  {}

  /** Those of the threads whose state the registry has. */
  function WithState(tcbs: R.Tcbs, woke: seq<ThreadId>): (r: seq<ThreadId>)
    ensures |r| <= |woke|
  {
    if woke == [] then []
    else
      var last := woke[|woke| - 1];
      WithState(tcbs, woke[..|woke| - 1]) + if Parked(tcbs, last) then [last] else []
  }

  lemma NothingYet(tcbs: R.Tcbs, none: seq<ThreadId>)
    requires none == []
    ensures WithState(tcbs, none) == []
  {}

  lemma WithStateGrows(tcbs: R.Tcbs, woke: seq<ThreadId>, id: ThreadId)
    ensures WithState(tcbs, woke + [id]) == WithState(tcbs, woke) + if Parked(tcbs, id) then [id] else []
  {
    assert (woke + [id])[..|woke|] == woke;
  }

  lemma AllWoken(k: KernelState, k': KernelState)
    requires KernelValid(k) && Formed(k') && Raised(SurplusOf(k), SurplusOf(k'), NO_SURPLUS) && InPlace(k', {})
    ensures KernelValid(k')
  {
    hide Formed, Placed;
  }

  // ----- dispatch -----

  lemma DequeueFormed(k: KernelState, k': KernelState)
    requires Formed(k) && Q.QueueValid(k'.queue, k'.queued, k'.nextToken)
    requires k' == k.(queue := k'.queue, queued := k'.queued, nextToken := k'.nextToken)
    ensures Formed(k')
    ensures k'.queued == k.queued ==> SurplusOf(k') == SurplusOf(k) && InPlace(k', {}) == InPlace(k, {}) && KernelValid(k') == KernelValid(k)
  {
    hide R.RegistryValid, Q.QueueValid, T.TimersBut, IdsValid, Named, Placed;
  }

  /** The head of the run queue leaves it, still charged. */
  lemma LeftQueue(k: KernelState, id: ThreadId, k': KernelState)
    requires id in k.queued && k'.queued == k.queued - {id} && k'.blocked == k.blocked && k'.counters == k.counters
    ensures Raised(SurplusOf(k), SurplusOf(k'), Surplus(1, 0, 0))
  {
    assert k'.queued.Keys == k.queued.Keys - {id};
  }

  lemma HeadIsParked(k: KernelState, id: ThreadId, k': KernelState)
    requires KernelValid(k) && id in k.queued && k'.queued == k.queued - {id} && k'.blocked == k.blocked && k'.registry == k.registry
    ensures InPlace(k', {}) && Parked(k.registry.tcbs, id) && Alive(k.registry.tcbs, id)
    ensures id !in k'.queued && id !in k'.blocked.blocked
  {
    hide Formed;
    assert k'.queued.Keys == k.queued.Keys - {id};
  }

  lemma ValidMeans(k: KernelState)
    ensures KernelValid(k) <==> Formed(k) && SurplusOf(k) == NO_SURPLUS && InPlace(k, {})
  {}

  lemma ParkedMeans(tcbs: R.Tcbs, id: ThreadId)
    ensures Parked(tcbs, id) <==> id in tcbs && tcbs[id].vm.Some?
  {}

  /** Taking a thread returns one run-queue charge: right exactly if the thread waits nowhere and one
      charge too many was there, or the run queue is empty. */
  lemma Taken(k: KernelState, id: ThreadId, k': KernelState)
    requires Formed(k) && 0 <= SurplusOf(k).runnable <= 1 && SurplusOf(k) == Surplus(SurplusOf(k).runnable, 0, 0) && InPlace(k, {})
    requires Formed(k') && Parked(k.registry.tcbs, id)
    requires k' == k.(registry := R.WithVm(k.registry, id, None), counters := k.counters.(runnable := SatSub(k.counters.runnable, 1)))
    ensures KernelValid(k') <==>
      id !in k.queued && id !in k.blocked.blocked && (SurplusOf(k).runnable == 1 || k.queued == map[])
  {
    hide Formed, Placed, VmSet, R.WithVm, Parked;
    WithVmTcbs(k.registry, id, None);
    PlacedTaken(k.registry.tcbs, k.queued.Keys, k.blocked.blocked, {}, id);
    EmptyQueue(k.queued);
  }

  lemma TakenCreated(k: KernelState, id: ThreadId, k': KernelState)
    requires KernelValid(k) && Formed(k') && k' == k.(registry := R.WithVm(k.registry, id, None))
    ensures KernelValid(k') <==> id !in k.queued && id !in k.blocked.blocked
  {
    hide Formed, Placed, VmSet, R.WithVm;
    WithVmTcbs(k.registry, id, None);
    PlacedTaken(k.registry.tcbs, k.queued.Keys, k.blocked.blocked, {}, id);
  }

  lemma EmptyQueue(queued: Q.Queued)
    ensures |queued.Keys| == 0 <==> queued == map[]
  {}

  /** Taking a thread that waits in the run queue and enqueueing it again, which finds it queued and
      charges nothing, leaves the run queue one thread longer than its charge. */
  lemma TakeAndRequeueUndercharges(k: KernelState, id: ThreadId, vm: R.VmThread)
    requires KernelValid(k) && id in k.queued
    ensures var taken := k.(registry := R.WithVm(k.registry, id, None), counters := k.counters.(runnable := SatSub(k.counters.runnable, 1)));
      var back := taken.(registry := R.WithVm(taken.registry, id, Some(vm)));
      SurplusOf(back) == Surplus(-1, 0, 0)
  {
    hide Formed, Placed;
    assert |k.queued.Keys| > 0;
  }

  // ----- cancelling -----

  /** One counter of a cancelled thread: a charge that is due is returned if the registry has the
      thread's state. */
  function Returned(counter: nat, due: bool, parked: bool): nat {
    if due && parked then SatSub(counter, 1) else counter
  }

  /** What that adds to the surplus. */
  function Kept(counter: nat, due: bool, parked: bool): nat {
    OneIf(due && !(parked && counter > 0))
  }

  ghost function AfterCancel(k: KernelState, id: ThreadId): Counters {
    var parked := Parked(k.registry.tcbs, id);
    Counters(
      Returned(k.counters.runnable, id in k.queued.Keys, parked),
      Returned(k.counters.timers, id in k.blocked.active.Keys, parked),
      Returned(k.counters.pending, id in k.blocked.blocked, parked))
  }

  function Refunded(c: Counters, wasRunnable: bool, info: Option<bool>): Counters {
    Counters(
      SatSub(c.runnable, OneIf(wasRunnable)),
      SatSub(c.timers, OneIf(info == Some(true))),
      SatSub(c.pending, OneIf(info.Some?)))
  }

  lemma CancelRefunds(k: KernelState, id: ThreadId)
    requires T.TimersValid(k.blocked)
    ensures AfterCancel(k, id) ==
      if id in k.registry.tcbs && k.registry.tcbs[id].vm.Some?
      then Refunded(k.counters, id in k.queued, if id in k.blocked.blocked then Some(id in k.blocked.active) else None)
      else k.counters
  {
    if id in k.blocked.active { ActiveIsBlocked(k.blocked, id); }
    hide T.TimersBut;
  }

  /** The charges that cancelling a thread does not return. */
  ghost function Unreturned(k: KernelState, id: ThreadId): Surplus {
    var parked := Parked(k.registry.tcbs, id);
    Surplus(
      Kept(k.counters.runnable, id in k.queued.Keys, parked),
      Kept(k.counters.timers, id in k.blocked.active.Keys, parked),
      Kept(k.counters.pending, id in k.blocked.blocked, parked))
  }

  lemma CancelSizes(k: KernelState, id: ThreadId, k': KernelState)
    requires k.counters.pending >= |k.blocked.blocked| && k.counters.timers >= |k.blocked.active.Keys|
    requires k'.queued == k.queued - {id} && k'.blocked == T.Untimed(k.blocked, id).(blocked := k.blocked.blocked - {id})
    requires k'.counters == AfterCancel(k, id)
    ensures Raised(SurplusOf(k), SurplusOf(k'), Unreturned(k, id))
    ensures k'.counters.pending >= |k'.blocked.blocked| && k'.counters.timers >= |k'.blocked.active.Keys|
  {
    hide T.Untimed, Parked, Kept, Returned;
    var parked := Parked(k.registry.tcbs, id);
    UntimedFields(k.blocked, id);
    assert k'.queued.Keys == k.queued.Keys - {id};
    ChargeReturned(k.counters.runnable, k.queued.Keys, id, parked);
    ChargeReturned(k.counters.timers, k.blocked.active.Keys, id, parked);
    ChargeReturned(k.counters.pending, k.blocked.blocked, id, parked);
  }

  lemma ChargeReturned(counter: nat, s: set<ThreadId>, id: ThreadId, parked: bool)
    ensures var counter' := Returned(counter, id in s, parked);
      && counter' - |s - {id}| == counter - |s| + Kept(counter, id in s, parked)
      && (counter >= |s| ==> counter' >= |s - {id}|)
  {
    CardWithout(s, id);
  }

  lemma PlacedCancelled(tcbs: R.Tcbs, queued: set<ThreadId>, blocked: set<ThreadId>, id: ThreadId)
    requires Placed(tcbs, queued, blocked, {})
    ensures Placed(tcbs - {id}, queued - {id}, blocked - {id}, {})
  {}

  lemma NamedCancelled(ids: IdState, tcbs: R.Tcbs, retired: set<ThreadId>, id: ThreadId)
    requires IdsValid(ids) && Named(ids, tcbs, retired)
    ensures Named(if id in tcbs then Freed(ids, id) else ids, tcbs - {id}, retired)
  {}

  lemma CancelFormed(k: KernelState, id: ThreadId, k': KernelState)
    requires Formed(k) && k'.counters == AfterCancel(k, id) && k'.limits == k.limits && k'.retired == k.retired
    requires k'.counters.pending >= |k'.blocked.blocked| && k'.counters.timers >= |k'.blocked.active.Keys|
    requires Q.QueueValid(k'.queue, k'.queued, k'.nextToken) && T.TimersValid(k'.blocked) && k'.blocked.ids.start == 1
    requires R.RegistryValid(k'.registry) && k'.registry.tcbs == k.registry.tcbs - {id}
    requires k'.ids == if id in k.registry.tcbs then Freed(k.ids, id) else k.ids
    ensures Formed(k')
  {
    hide R.RegistryValid, Q.QueueValid, T.TimersBut, IdsValid, Named, Freed, Parked;
    FreedKeeps(k.ids, id);
    NamedCancelled(k.ids, k.registry.tcbs, k.retired, id);
  }

  /** What stays right when a consistent kernel loses a thread. */
  lemma Cancelled(k: KernelState, id: ThreadId, k': KernelState)
    requires InPlace(k, {}) && Formed(k') && SurplusOf(k') == NO_SURPLUS
    requires k'.registry.tcbs == k.registry.tcbs - {id} && k'.queued == k.queued - {id} && k'.blocked.blocked == k.blocked.blocked - {id}
    ensures KernelValid(k')
  {
    hide Formed, Placed;
    PlacedCancelled(k.registry.tcbs, k.queued.Keys, k.blocked.blocked, id);
    assert k'.queued.Keys == k.queued.Keys - {id};
  }

  lemma CancelledValid(k: KernelState, id: ThreadId, k': KernelState)
    requires KernelValid(k) && Formed(k') && Raised(SurplusOf(k), SurplusOf(k'), NO_SURPLUS)
    requires k'.registry.tcbs == k.registry.tcbs - {id} && k'.queued == k.queued - {id} && k'.blocked.blocked == k.blocked.blocked - {id}
    ensures KernelValid(k')
  {
    hide Formed, Placed;
    Cancelled(k, id, k');
  }

  /** In a consistent kernel every charge of a thread is returned. */
  lemma AllReturned(k: KernelState, id: ThreadId)
    requires KernelValid(k)
    ensures Unreturned(k, id) == NO_SURPLUS
  {
    hide PartsValid, Within, Placed;
    WaitingHasState(k, id);
  }

  lemma WithVmSame(s: R.RegistryState, id: ThreadId)
    ensures R.WithVm(s, id, None).tcbs - {id} == s.tcbs - {id} && R.WithVm(s, id, None).exitedOrder == s.exitedOrder
    ensures id in R.WithVm(s, id, None).tcbs <==> id in s.tcbs
  {}

  /** What taking a thread's state and then cancelling the thread adds to the surplus. */
  ghost function TornDown(k: KernelState, id: ThreadId): Surplus {
    Surplus(
      OneIf(id in k.queued.Keys) - OneIf(Parked(k.registry.tcbs, id) && k.counters.runnable > 0),
      OneIf(id in k.blocked.active.Keys), OneIf(id in k.blocked.blocked))
  }

  /** When that leaves a consistent kernel consistent. */
  ghost predicate TeardownKeeps(k: KernelState, id: ThreadId) {
    !Parked(k.registry.tcbs, id) || id in k.queued || (id !in k.blocked.blocked && k.queued == map[])
  }

  lemma TornDownExcess(k: KernelState, id: ThreadId, vm: Option<R.VmThread>, taken: KernelState, k': KernelState)
    requires vm.Some? <==> Parked(k.registry.tcbs, id)
    requires taken == k.(registry := R.WithVm(k.registry, id, None), counters := k.counters.(runnable := SatSub(k.counters.runnable, OneIf(vm.Some?))))
    requires k'.counters == AfterCancel(taken, id) && Raised(SurplusOf(taken), SurplusOf(k'), Unreturned(taken, id))
    ensures Raised(SurplusOf(k), SurplusOf(k'), TornDown(k, id)) && k'.counters == taken.counters
  {
    assert !Parked(taken.registry.tcbs, id);
  }

  lemma TornDownKeeps(k: KernelState, id: ThreadId, k': KernelState)
    requires KernelValid(k) && Formed(k') && Raised(SurplusOf(k), SurplusOf(k'), TornDown(k, id))
    requires k'.registry.tcbs == k.registry.tcbs - {id} && k'.queued == k.queued - {id} && k'.blocked.blocked == k.blocked.blocked - {id}
    ensures KernelValid(k') <==> TeardownKeeps(k, id)
  {
    hide Formed, InPlace, SurplusOf, TornDown, TeardownKeeps;
    TornDownNone(k, id);
    if SurplusOf(k') == NO_SURPLUS { Cancelled(k, id, k'); }
  }

  lemma TornDownNone(k: KernelState, id: ThreadId)
    requires KernelValid(k)
    ensures TornDown(k, id) == NO_SURPLUS <==> TeardownKeeps(k, id)
  {
    hide Formed, InPlace;
    WaitingHasState(k, id);
    EmptyQueue(k.queued);
  }

  lemma WaitingHasState(k: KernelState, id: ThreadId)
    requires KernelValid(k)
    ensures id in k.queued || id in k.blocked.blocked || id in k.blocked.active ==> Parked(k.registry.tcbs, id)
    ensures id in k.blocked.active ==> id in k.blocked.blocked
    ensures id in k.queued ==> |k.queued.Keys| > 0 && id !in k.blocked.blocked
  {
    hide R.RegistryValid, Q.QueueValid, IdsValid, Named;
  }

  lemma CancelledTcbs(s: R.RegistryState, id: ThreadId)
    requires R.RegistryValid(s)
    ensures var s' := R.WithVm(s, id, None);
      && (id in s'.tcbs <==> id in s.tcbs)
      && (id in s'.tcbs && !s'.tcbs[id].state.Exited? ==> s'.activeCount > 0)
      && R.Cancelled(s', id).tcbs == s.tcbs - {id}
      && R.Cancelled(s', id).exitedOrder == R.Filter(s.exitedOrder, id)
  {
    R.CancelledKeeps(s, id);
  }

  // ----- identity -----

  lemma NewIdIsFree(k: KernelState)
    requires Formed(k)
    ensures var id := Allocated(k.ids).1;
      && (id.None? <==> Exhausted(k.ids))
      && (id.Some? ==> 1 <= id.value <= U32_MAX && id.value !in k.registry.tcbs && id.value !in k.retired)
      && (id.None? <==> forall x :: 1 <= x <= U32_MAX ==> x in k.registry.tcbs || x in k.retired)
  {
    hide R.RegistryValid, Q.QueueValid, T.TimersBut, Allocated, IdsValid;
    AllocatedIsNew(k.ids);
  }

  /** A new thread is parked under an id that no registered or expired thread has. */
  lemma Registered(k: KernelState, vm: R.VmThread, key: Option<string>, k': KernelState)
    requires Formed(k) && Allocated(k.ids).1.Some?
    requires k'.ids == Allocated(k.ids).0
    requires var id := Allocated(k.ids).1.value; R.RegistryValid(k'.registry) && k'.registry == R.Parked(k.registry, id, vm, key)
    requires k' == k.(ids := k'.ids, registry := k'.registry)
    ensures Formed(k') && SurplusOf(k') == SurplusOf(k) && (KernelValid(k) ==> KernelValid(k'))
  {
    hide R.RegistryValid, Q.QueueValid, T.TimersBut, Allocated, IdsValid, Placed, Named;
    AllocatedIsNew(k.ids);
    var id := Allocated(k.ids).1.value;
    NamedNew(k.ids, k.registry.tcbs, k.retired, id, k'.ids, k'.registry.tcbs[id]);
    if InPlace(k, {}) {
      PlacedNew(k.registry.tcbs, k.queued.Keys, k.blocked.blocked, id, k'.registry.tcbs[id]);
    }
  }

  lemma NamedNew(ids: IdState, tcbs: R.Tcbs, retired: set<ThreadId>, id: ThreadId, ids': IdState, tcb: R.Tcb)
    requires Named(ids, tcbs, retired) && id !in ids.activeIds && ids'.activeIds == ids.activeIds + {id} && ids'.start == ids.start
    ensures Named(ids', tcbs[id := tcb], retired) && id !in tcbs && id !in retired && ids.start == 1
  {}

  lemma PlacedNew(tcbs: R.Tcbs, queued: set<ThreadId>, blocked: set<ThreadId>, id: ThreadId, tcb: R.Tcb)
    requires Placed(tcbs, queued, blocked, {}) && id !in tcbs && tcb.vm.Some? && !tcb.state.Exited?
    ensures Placed(tcbs[id := tcb], queued, blocked, {})
  {}

  /** Blocks other than the exiting one stay as they are, or leave if they had exited. */
  ghost predicate Thinned(tcbs: R.Tcbs, id: ThreadId, tcbs': R.Tcbs) {
    && (forall x :: x in tcbs' ==> x in tcbs && (x == id || tcbs'[x] == tcbs[x]))
    && (id in tcbs' ==> tcbs'[id].vm.None?)
    && (forall x :: x in tcbs && x != id && !tcbs[x].state.Exited? ==> x in tcbs')
  }

  /** The exiting thread becomes a tombstone, the newest; older ones may expire. */
  lemma BuriedThins(s: R.RegistryState, id: ThreadId, result: Result<int, string>)
    requires R.RegistryValid(s) && Alive(s.tcbs, id) && s.activeCount > 0
    ensures var s' := R.Expire(R.Buried(s, id, result));
      && Thinned(s.tcbs, id, s'.tcbs)
      && id in s'.tcbs && s'.tcbs[id].state == R.Exited(result)
      && s'.activeCount == s.activeCount - 1 && id in s'.exitedOrder
  {
    hide R.Expire, R.Tracked;
    var buried := R.Buried(s, id, result);
    R.BuriedKeeps(s, id, result);
    R.ExpireOnlyExited(buried);
    ExpireKeepsLast(buried, id);
    R.ExitMeans(s, id, result);
  }

  lemma {:induction false} ExpireKeepsLast(s: R.RegistryState, id: ThreadId)
    requires R.Tracked(s) && s.exitedOrder != [] && s.exitedOrder[|s.exitedOrder| - 1] == id
    ensures R.Expire(s).activeCount == s.activeCount && id in R.Expire(s).exitedOrder && id in R.Expire(s).tcbs
    decreases |s.exitedOrder|
  {
    if |s.exitedOrder| > R.MAX_EXITED_TOMBSTONES {
      R.OldestDropped(s);
      ExpireKeepsLast(R.Dropped(s, s.exitedOrder[0]).(exitedOrder := s.exitedOrder[1..]), id);
    }
  }

  lemma NamedThinned(ids: IdState, tcbs: R.Tcbs, retired: set<ThreadId>, id: ThreadId, tcbs': R.Tcbs)
    requires Named(ids, tcbs, retired) && Thinned(tcbs, id, tcbs')
    ensures Named(ids, tcbs', retired + (tcbs.Keys - tcbs'.Keys))
  {}

  lemma ThinnedGiven(tcbs: R.Tcbs, id: ThreadId, vm: R.VmThread, tcbs': R.Tcbs)
    requires Thinned(VmSet(tcbs, id, Some(vm)), id, tcbs')
    ensures Thinned(tcbs, id, tcbs')
  {}

  lemma SameKeys(tcbs: R.Tcbs, id: ThreadId, vm: Option<R.VmThread>)
    ensures VmSet(tcbs, id, vm).Keys == tcbs.Keys && (Alive(VmSet(tcbs, id, vm), id) <==> Alive(tcbs, id))
  {}

  lemma ThinnedFormed(k: KernelState, id: ThreadId, k': KernelState)
    requires Formed(k) && R.RegistryValid(k'.registry) && Thinned(k.registry.tcbs, id, k'.registry.tcbs)
    requires k'.retired == k.retired + (k.registry.tcbs.Keys - k'.registry.tcbs.Keys)
    requires k' == k.(registry := k'.registry, retired := k'.retired)
    ensures Formed(k') && SurplusOf(k') == SurplusOf(k)
  {
    hide R.RegistryValid, Q.QueueValid, T.TimersBut, IdsValid, Named, Thinned;
    NamedThinned(k.ids, k.registry.tcbs, k.retired, id, k'.registry.tcbs);
  }

  lemma PlacedThinned(tcbs: R.Tcbs, queued: set<ThreadId>, blocked: set<ThreadId>, id: ThreadId, tcbs': R.Tcbs)
    requires Placed(tcbs, queued, blocked, {}) && Thinned(tcbs, id, tcbs')
    ensures Placed(tcbs', queued, blocked, {}) <==> id !in queued && id !in blocked
  {
    assert !Parked(tcbs', id);
  }

  /** When marking a thread exited leaves a consistent kernel consistent. */
  ghost predicate ExitKeeps(k: KernelState, id: ThreadId) {
    id !in k.registry.tcbs || (Alive(k.registry.tcbs, id) && id !in k.queued && id !in k.blocked.blocked)
  }

  lemma Exited(k: KernelState, id: ThreadId, vm: R.VmThread, k': KernelState)
    requires KernelValid(k) && Formed(k') && Alive(k.registry.tcbs, id)
    requires Thinned(VmSet(k.registry.tcbs, id, Some(vm)), id, k'.registry.tcbs)
    requires k' == k.(registry := k'.registry, retired := k'.retired)
    ensures KernelValid(k') <==> ExitKeeps(k, id)
  {
    hide Formed, Placed, Thinned, VmSet;
    PlacedGiven(k.registry.tcbs, k.queued.Keys, k.blocked.blocked, {}, id, vm);
    PlacedThinned(VmSet(k.registry.tcbs, id, Some(vm)), k.queued.Keys, k.blocked.blocked, id, k'.registry.tcbs);
  }

  lemma Begun(k: KernelState, id: ThreadId, k': KernelState)
    requires Formed(k) && R.RegistryValid(k'.registry) && k'.registry == R.Begun(k.registry, id)
    requires k' == k.(registry := k'.registry)
    ensures Formed(k') && (KernelValid(k) ==> KernelValid(k'))
  {
    hide R.RegistryValid, Q.QueueValid, T.TimersBut, IdsValid;
    assert k'.registry.tcbs.Keys == k.registry.tcbs.Keys;
  }

  lemma EmptyKernel(k: KernelState)
    requires IdsValid(k.ids) && k.ids == IdState(1, Some(1), [], {})
    requires R.RegistryValid(k.registry) && k.registry.tcbs == map[] && k.retired == {}
    requires Q.QueueValid(k.queue, k.queued, k.nextToken) && k.queued == map[]
    requires T.TimersValid(k.blocked) && k.blocked.ids.start == 1 && k.blocked.blocked == {} && k.blocked.active == map[]
    requires k.counters == Counters(0, 0, 0)
    ensures KernelValid(k)
  {}
}
