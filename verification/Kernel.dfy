/** The virtual kernel: threads move between registry, run queue, timer queue and caller, and the
    shared quota counters follow them. */
module Kernel {
  import opened Machine
  import opened IdManager
  import opened KernelSteps
  import Q = RunQueue
  import T = TimerQueue
  import R = Registry

  class GlobalQuota {
    const limits: Limits
    var runnableThreads: u64
    var timers: u64
    var pendingStates: u64

    function State(): Counters
      reads this
    {
      Counters(runnableThreads, timers, pendingStates)
    }

    constructor (bounds: Limits)
      ensures limits == bounds && State() == Counters(0, 0, 0)
    {
      limits := bounds;
      runnableThreads, timers, pendingStates := 0, 0, 0;
    }

    method TryReserveRunnableThreads(amount: u64) returns (ok: bool)
      modifies this
      ensures ok <==> old(runnableThreads) + amount <= limits.maxRunnable || limits.maxRunnable == U64_MAX
      ensures State() == if ok then old(State()).(runnable := runnableThreads) else old(State())
      ensures ok ==> (runnableThreads == old(runnableThreads) + amount <==> old(runnableThreads) + amount <= U64_MAX)
      ensures ok && old(runnableThreads) + amount > U64_MAX ==> runnableThreads == old(runnableThreads) + amount - U64_COUNT
    {
      ok := SatAdd64(runnableThreads, amount) <= limits.maxRunnable;
      if ok { runnableThreads := WrapAdd64(runnableThreads, amount); }
    }

    method ReleaseRunnableThreads(amount: nat)
      modifies this
      ensures State() == old(State()).(runnable := SatSub(old(runnableThreads), amount))
    {
      runnableThreads := SatSub(runnableThreads, amount);
    }

    method TryReserveTimers(amount: u64) returns (ok: bool)
      modifies this
      ensures ok <==> old(timers) + amount <= limits.maxTimers || limits.maxTimers == U64_MAX
      ensures State() == if ok then old(State()).(timers := timers) else old(State())
      ensures ok ==> (timers == old(timers) + amount <==> old(timers) + amount <= U64_MAX)
      ensures ok && old(timers) + amount > U64_MAX ==> timers == old(timers) + amount - U64_COUNT
    {
      ok := SatAdd64(timers, amount) <= limits.maxTimers;
      if ok { timers := WrapAdd64(timers, amount); }
    }

    method ReleaseTimers(amount: nat)
      modifies this
      ensures State() == old(State()).(timers := SatSub(old(timers), amount))
    {
      timers := SatSub(timers, amount);
    }

    method TryReservePendingStates(amount: u64) returns (ok: bool)
      modifies this
      ensures ok <==> old(pendingStates) + amount <= limits.maxPending || limits.maxPending == U64_MAX
      ensures State() == if ok then old(State()).(pending := pendingStates) else old(State())
      ensures ok ==> (pendingStates == old(pendingStates) + amount <==> old(pendingStates) + amount <= U64_MAX)
      ensures ok && old(pendingStates) + amount > U64_MAX ==> pendingStates == old(pendingStates) + amount - U64_COUNT
    {
      ok := SatAdd64(pendingStates, amount) <= limits.maxPending;
      if ok { pendingStates := WrapAdd64(pendingStates, amount); }
    }

    method ReleasePendingStates(amount: nat)
      modifies this
      ensures State() == old(State()).(pending := SatSub(old(pendingStates), amount))
    {
      pendingStates := SatSub(pendingStates, amount);
    }
  }

  class VirtualKernel {
    const ids: LocalIdManager
    const registry: R.ThreadRegistry
    const runnable: Q.RunnableQueue
    const blocked: T.BlockedQueue
    const quota: GlobalQuota
    ghost var retired: set<ThreadId>

    ghost function State(): KernelState
      reads this, ids, registry, runnable, blocked, blocked.timerIds, quota
    {
      KernelState(ids.State(), registry.State(), runnable.queue, runnable.queued, runnable.nextToken,
        blocked.State(), quota.State(), quota.limits, retired)
    }

    /** What every call keeps. */
    ghost predicate Sane()
      reads this, ids, registry, runnable, blocked, blocked.timerIds, quota
    {
      ids != blocked.timerIds && Formed(State())
    }

    /** By how much the counters exceed the queues. */
    ghost function Excess(): Surplus
      reads this, ids, registry, runnable, blocked, blocked.timerIds, quota
    {
      SurplusOf(State())
    }

    /** The kernel is consistent. */
    ghost predicate Valid()
      reads this, ids, registry, runnable, blocked, blocked.timerIds, quota
    {
      ids != blocked.timerIds && KernelValid(State())
    }

    constructor (limits: Limits)
      ensures Sane() && Valid() && quota.limits == limits && retired == {}
      ensures registry.State() == R.RegistryState(map[], map[], [], 0) && ids.State() == IdState(1, Some(1), [], {})
      ensures runnable.Contents() == [] && runnable.queued == map[] && runnable.nextToken == 0 && blocked.blocked == {} && blocked.activeTimers == map[] && quota.State() == Counters(0, 0, 0)
      ensures fresh(ids) && fresh(registry) && fresh(runnable) && fresh(blocked) && fresh(blocked.timerIds) && fresh(quota)
    {
      hide R.RegistryValid, Q.QueueValid, T.TimersBut, IdsValid, Q.View;
      ids := new LocalIdManager(1);
      registry := new R.ThreadRegistry();
      runnable := new Q.RunnableQueue();
      blocked := new T.BlockedQueue();
      quota := new GlobalQuota(limits);
      retired := {};
      new;
      EmptyKernel(State());
    }

    // ----- giving a thread state back -----

    /** Gives a thread state back and queues the thread; over the limit it is not queued. A state of
        an unregistered thread is dropped, and the id is queued and charged all the same. */
    method EnqueueRunnable(id: ThreadId, thread: R.VmThread) returns (ok: bool)
      requires Sane() && runnable.nextToken < U64_MAX && quota.runnableThreads < U64_MAX
      modifies registry, runnable, quota
      ensures Sane() && Excess() == old(Excess())
      ensures registry.State() == R.WithVm(old(registry.State()), id, Some(thread))
      ensures ok <==> id in old(runnable.queued) || old(quota.runnableThreads) < quota.limits.maxRunnable
      ensures runnable.Contents() == if ok && id !in old(runnable.queued) then old(runnable.Contents()) + [Q.Waiting(id, false)] else old(runnable.Contents())
      ensures runnable.nextToken <= old(runnable.nextToken) + 1
      ensures runnable.queued.Keys == if ok then old(runnable.queued.Keys) + {id} else old(runnable.queued.Keys)
      ensures quota.State() == old(quota.State()).(runnable := old(quota.runnableThreads) + OneIf(ok && id !in old(runnable.queued)))
      ensures old(Valid()) ==> (Valid() <==> EnqueueKeeps(old(State()), id, ok))
    {
      hide R.RegistryValid, Q.QueueValid, T.TimersBut, IdsValid, Q.View, R.WithVm, Named, Formed, SurplusOf, KernelValid, EnqueueKeeps;
      ghost var k := State();
      FormedParts(k);
      ghost var given := k.(registry := R.WithVm(k.registry, id, Some(thread)));
      VmFormed(k, id, Some(thread), given);
      if id in runnable.queued {
        registry.RestoreVmState(id, thread);
        ok := true;
        AlreadyQueued(k.queued.Keys, id);
      } else {
        ok := quota.TryReserveRunnableThreads(1);
        registry.RestoreVmState(id, thread);
        if ok {
          runnable.Enqueue(id);
          QueueFormed(given, id, State());
        }
      }
      if KernelValid(k) { Enqueued(k, id, thread, ok, State()); }
    }

    /** As EnqueueRunnable, at the head of the queue. */
    method EnqueueRunnableFront(id: ThreadId, thread: R.VmThread) returns (ok: bool)
      requires Sane() && runnable.nextToken < U64_MAX && quota.runnableThreads < U64_MAX
      modifies registry, runnable, quota
      ensures Sane() && Excess() == old(Excess())
      ensures registry.State() == R.WithVm(old(registry.State()), id, Some(thread))
      ensures ok <==> id in old(runnable.queued) || old(quota.runnableThreads) < quota.limits.maxRunnable
      ensures runnable.Contents() == if ok && id !in old(runnable.queued) then [Q.Waiting(id, true)] + old(runnable.Contents()) else old(runnable.Contents())
      ensures runnable.nextToken <= old(runnable.nextToken) + 1
      ensures runnable.queued.Keys == if ok then old(runnable.queued.Keys) + {id} else old(runnable.queued.Keys)
      ensures quota.State() == old(quota.State()).(runnable := old(quota.runnableThreads) + OneIf(ok && id !in old(runnable.queued)))
      ensures old(Valid()) ==> (Valid() <==> EnqueueKeeps(old(State()), id, ok))
    {
      hide R.RegistryValid, Q.QueueValid, T.TimersBut, IdsValid, Q.View, R.WithVm, Named, Formed, SurplusOf, KernelValid, EnqueueKeeps;
      ghost var k := State();
      FormedParts(k);
      ghost var given := k.(registry := R.WithVm(k.registry, id, Some(thread)));
      VmFormed(k, id, Some(thread), given);
      if id in runnable.queued {
        registry.RestoreVmState(id, thread);
        ok := true;
        AlreadyQueued(k.queued.Keys, id);
      } else {
        ok := quota.TryReserveRunnableThreads(1);
        registry.RestoreVmState(id, thread);
        if ok {
          runnable.EnqueueFront(id);
          QueueFormed(given, id, State());
        }
      }
      if KernelValid(k) { Enqueued(k, id, thread, ok, State()); }
    }

    /** Gives a thread state back; a state of an unregistered thread is dropped. */
    method ParkRunning(id: ThreadId, thread: R.VmThread)
      requires Sane()
      modifies registry
      ensures Sane() && registry.State() == R.WithVm(old(registry.State()), id, Some(thread))
      ensures old(Valid()) ==> (Valid() <==> id !in old(registry.tcbs) || Alive(old(registry.tcbs), id))
    {
      hide R.RegistryValid, Q.QueueValid, T.TimersBut, IdsValid, R.WithVm, Named, Formed, SurplusOf, KernelValid, Alive;
      ghost var k := State();
      FormedParts(k);
      VmFormed(k, id, Some(thread), k.(registry := R.WithVm(k.registry, id, Some(thread))));
      registry.RestoreVmState(id, thread);
      if KernelValid(k) { GivenBack(k, id, thread, State()); }
    }

    // ----- blocking -----

    /** Charges a pending state and, if asked, a timer: both or neither. */
    method ReserveBlocking(timed: bool) returns (ok: bool)
      requires quota.pendingStates < U64_MAX && quota.timers < U64_MAX
      modifies quota
      ensures ok <==> old(quota.pendingStates) < quota.limits.maxPending && (timed ==> old(quota.timers) < quota.limits.maxTimers)
      ensures quota.State() == if ok
        then old(quota.State()).(pending := old(quota.pendingStates) + 1, timers := old(quota.timers) + OneIf(timed))
        else old(quota.State())
    {
      ok := quota.TryReservePendingStates(1);
      if ok && timed {
        ok := quota.TryReserveTimers(1);
        if !ok {
          quota.ReleasePendingStates(1);
        }
      }
    }

    /** Enters a thread in the blocked queue, with a timer if a timeout is given and else without. */
    method Suspend(id: ThreadId, timeout: Option<nat>) returns (hadTimer: Option<bool>)
      requires blocked.Valid()
      modifies blocked, blocked.timerIds
      ensures blocked.Valid() && blocked.State().ids.start == old(blocked.State()).ids.start
      ensures hadTimer.None? <==> timeout.Some? && Exhausted(old(blocked.timerIds.State()))
      ensures hadTimer.None? ==> blocked.State() == old(blocked.State())
      ensures hadTimer.Some? ==> hadTimer.value == (id in old(blocked.activeTimers)) && Blocks(old(blocked.State()), id, timeout, blocked.State())
    {
      hide T.TimersBut, IdsValid, Exhausted, Allocated, T.Untimed, T.Timed;
      ghost var b := blocked.State();
      if timeout.None? {
        UntimedFields(b, id);
        var had := blocked.Block(id);
        return Some(had);
      }
      hadTimer := blocked.BlockWithTimeout(id, timeout.value);
      if hadTimer.Some? {
        ghost var (timerIds', timerId) := Allocated(b.ids);
        TimedFields(b, timerIds', id, timerId.value, timeout.value);
      }
    }

    /** Blocks a thread whose charges are made; `k` is the kernel before they were. */
    method BlockCharged(id: ThreadId, thread: R.VmThread, timeout: Option<nat>, ghost k: KernelState) returns (result: Result<(), Failure>)
      requires Formed(k) && ids != blocked.timerIds
      requires State() == k.(counters := k.counters.(timers := k.counters.timers + OneIf(timeout.Some?), pending := k.counters.pending + 1))
      requires Within(quota.State(), quota.limits)
      modifies registry, blocked, blocked.timerIds, quota
      ensures Sane() && (result.Ok? || result == Err(IdSpaceExhausted))
      ensures result == Err(IdSpaceExhausted) <==> timeout.Some? && Exhausted(k.blocked.ids)
      ensures result.Ok? ==>
        && Blocks(k.blocked, id, timeout, blocked.State())
        && registry.State() == R.WithVm(k.registry, id, Some(thread))
        && quota.State() == AfterBlock(k, id, timeout)
        && Raised(SurplusOf(k), Excess(), Surplus(0, 0, OneIf(id in k.blocked.blocked)))
      ensures result.Err? ==> State() == old(State()) && k.counters.timers >= U32_MAX
    {
      hide R.RegistryValid, Q.QueueValid, T.TimersBut, IdsValid, R.WithVm, Named, Formed, SurplusOf, Exhausted, AfterBlock, Blocks;
      FormedParts(k);
      var hadTimer := Suspend(id, timeout);
      if hadTimer.None? {
        ExhaustedTimers(k);
        ChargeFormed(k, quota.State());
        return Err(IdSpaceExhausted);
      }
      quota.ReleaseTimers(if hadTimer.value then 1 else 0);
      registry.RestoreVmState(id, thread);
      OldTimerReturned(k, id, timeout, quota.State());
      SuspendFormed(k, id, thread, timeout, blocked.State());
      assert State() == k.(registry := R.WithVm(k.registry, id, Some(thread)), blocked := blocked.State(), counters := AfterBlock(k, id, timeout));
      return Ok(());
    }

    /** Gives a thread state back and blocks the thread, with a timer if a timeout is given. Over a
        limit it is not blocked and nothing is charged. If timer ids have run out, the two charges
        stay and the state is lost; that needs a timer limit above 2^32 - 1. A thread that is blocked
        already is charged once more, and an unregistered one is blocked and charged all the same. */
    method Block(id: ThreadId, thread: R.VmThread, timeout: Option<nat>) returns (result: Result<(), Failure>)
      requires Sane() && quota.pendingStates < U64_MAX && quota.timers < U64_MAX
      modifies registry, blocked, blocked.timerIds, quota
      ensures Sane() && (result.Ok? || result == Err(LimitExceeded) || result == Err(IdSpaceExhausted))
      ensures result == Err(LimitExceeded) <==>
        old(quota.pendingStates) >= quota.limits.maxPending || (timeout.Some? && old(quota.timers) >= quota.limits.maxTimers)
      ensures result == Err(IdSpaceExhausted) <==>
        && timeout.Some?
        && old(quota.pendingStates) < quota.limits.maxPending && old(quota.timers) < quota.limits.maxTimers
        && Exhausted(old(blocked.timerIds.State()))
      ensures result.Ok? ==>
        && Blocks(old(blocked.State()), id, timeout, blocked.State())
        && quota.State() == old(AfterBlock(State(), id, timeout))
        && Raised(old(Excess()), Excess(), Surplus(0, 0, OneIf(id in old(blocked.blocked))))
      ensures result != Err(IdSpaceExhausted) ==> registry.State() == R.WithVm(old(registry.State()), id, Some(thread))
      ensures result.Err? ==> blocked.State() == old(blocked.State())
      ensures result == Err(LimitExceeded) ==> quota.State() == old(quota.State())
      ensures result == Err(IdSpaceExhausted) ==>
        && quota.limits.maxTimers > U32_MAX
        && registry.State() == old(registry.State())
        && quota.State() == old(quota.State()).(timers := old(quota.timers) + 1, pending := old(quota.pendingStates) + 1)
      ensures old(Valid()) ==> (Valid() <==> BlockKeeps(old(State()), id, result))
    {
      hide R.RegistryValid, Q.QueueValid, T.TimersBut, IdsValid, R.WithVm, Named, Formed, SurplusOf, KernelValid, Exhausted, Alive, Blocks, AfterBlock;
      ghost var k := State();
      FormedParts(k);
      var reserved := ReserveBlocking(timeout.Some?);
      if !reserved {
        registry.RestoreVmState(id, thread);
        VmFormed(k, id, Some(thread), State());
        if KernelValid(k) { GivenBack(k, id, thread, State()); }
        return Err(LimitExceeded);
      }
      result := BlockCharged(id, thread, timeout, k);
      if KernelValid(k) {
        if result.Ok? {
          BlocksMeans(k.blocked, id, timeout, blocked.State());
          EnteredBlocked(k, id, thread, State());
        } else {
          Overcharged(k, State());
        }
      }
    }

    // ----- waking -----

    /** A thread has left the blocked set. If the registry has its state, its charges are returned and
        it is queued if admitted; if not, nothing happens and its charges stay. */
    method Resume(id: ThreadId, hadTimer: bool) returns (woken: Option<bool>)
      requires Sane() && runnable.nextToken < U64_MAX && quota.runnableThreads < U64_MAX
      requires quota.pendingStates > |blocked.blocked| && quota.timers >= |blocked.activeTimers.Keys| + OneIf(hadTimer)
      modifies registry, runnable, quota
      ensures Sane() && registry.State() == old(registry.State())
      ensures woken.Some? <==> Parked(registry.tcbs, id)
      ensures woken.None? ==> State() == old(State())
      ensures woken.Some? ==>
        && Raised(old(Excess()), Excess(), Paid(hadTimer))
        && (woken.value <==> id in old(runnable.queued) || old(quota.runnableThreads) < quota.limits.maxRunnable)
        && quota.pendingStates == old(quota.pendingStates) - 1 && quota.timers == old(quota.timers) - OneIf(hadTimer)
        && quota.runnableThreads == old(quota.runnableThreads) + OneIf(woken.value && id !in old(runnable.queued))
        && runnable.nextToken <= old(runnable.nextToken) + 1
        && runnable.Contents() == (if woken.value && id !in old(runnable.queued) then old(runnable.Contents()) + [Q.Waiting(id, false)] else old(runnable.Contents()))
        && runnable.queued.Keys == (if woken.value then old(runnable.queued.Keys) + {id} else old(runnable.queued.Keys))
    {
      hide R.RegistryValid, Q.QueueValid, T.TimersBut, IdsValid, Q.View, R.WithVm, Named, Formed, SurplusOf, KernelValid, EnqueueKeeps, Raised, Parked, Paid;
      ghost var k := State();
      FormedParts(k);
      ParkedMeans(k.registry.tcbs, id);
      TakenAndGiven(k.registry, id);
      var thread := registry.Take(id);
      if thread.None? {
        return None;
      }
      VmFormed(k, id, None, State());
      ghost var taken := State();
      quota.ReleasePendingStates(1);
      if hadTimer {
        quota.ReleaseTimers(1);
      }
      RefundFormed(taken, hadTimer, quota.State());
      var ok := EnqueueRunnable(id, thread.value);
      return Some(ok);
    }

    /** The thread of `k` has just left the blocked set. */
    method WakeBlocked(id: ThreadId, hadTimer: bool, ghost k: KernelState) returns (woken: Option<bool>)
      requires Formed(k) && ids != blocked.timerIds && id in k.blocked.blocked && (hadTimer <==> id in k.blocked.active)
      requires State() == k.(blocked := T.Untimed(k.blocked, id).(blocked := k.blocked.blocked - {id})) && blocked.Valid()
      requires runnable.nextToken < U64_MAX && quota.runnableThreads < U64_MAX
      modifies registry, runnable, quota
      ensures Sane() && registry.State() == k.registry
      ensures woken.Some? <==> Parked(k.registry.tcbs, id)
      ensures woken.None? ==> State() == old(State()) && Raised(SurplusOf(k), Excess(), Owing(hadTimer))
      ensures woken.Some? ==>
        && Excess() == SurplusOf(k)
        && (woken.value <==> id in old(runnable.queued) || k.counters.runnable < quota.limits.maxRunnable)
        && quota.pendingStates == k.counters.pending - 1 && quota.timers == k.counters.timers - OneIf(hadTimer)
        && quota.runnableThreads <= k.counters.runnable + 1
        && runnable.nextToken <= old(runnable.nextToken) + 1
        && runnable.Contents() == (if woken.value && id !in old(runnable.queued) then old(runnable.Contents()) + [Q.Waiting(id, false)] else old(runnable.Contents()))
      ensures KernelValid(k) ==> Valid() && woken.Some? && id !in k.queued
    {
      hide R.RegistryValid, Q.QueueValid, T.TimersBut, IdsValid, Q.View, Named, Formed, SurplusOf, KernelValid, T.Untimed, Parked, Raised, Owing, Paid;
      FormedParts(k);
      UntimedFields(k.blocked, id);
      LeftSizes(k, id, hadTimer, State());
      CardWithout(k.blocked.blocked, id);
      CardWithout(k.blocked.active.Keys, id);
      BlockFormed(k, blocked.State());
      if KernelValid(k) { BlockedIsParked(k, id); }
      ghost var left := State();
      woken := Resume(id, hadTimer);
      if woken.Some? {
        RaisedAndBack(k, left, State(), hadTimer);
        if KernelValid(k) { Unblocked(k, id, State()); }
      }
    }

    /** Wakes a blocked thread; over the run-queue limit it stays parked and its charges are gone. If
        the registry does not have its state, it only leaves the blocked set, and the charges stay. */
    method Unblock(id: ThreadId) returns (result: Result<bool, Failure>)
      requires Sane() && runnable.nextToken < U64_MAX && quota.runnableThreads < U64_MAX
      modifies registry, runnable, blocked, blocked.timerIds, quota
      ensures Sane() && registry.State() == old(registry.State())
      ensures id !in old(blocked.blocked) ==> result == Ok(false) && State() == old(State())
      ensures blocked.blocked == old(blocked.blocked) - {id} && blocked.activeTimers.Keys == old(blocked.activeTimers.Keys) - {id}
      ensures id in old(blocked.blocked) && !Parked(registry.tcbs, id) ==>
        && result == Ok(false) && runnable.Contents() == old(runnable.Contents()) && quota.State() == old(quota.State())
        && Raised(old(Excess()), Excess(), Owing(id in old(blocked.activeTimers)))
      ensures id in old(blocked.blocked) && Parked(registry.tcbs, id) ==>
        && result == (if id in old(runnable.queued) || old(quota.runnableThreads) < quota.limits.maxRunnable then Ok(true) else Err(LimitExceeded))
        && runnable.Contents() == (if result.Ok? && id !in old(runnable.queued) then old(runnable.Contents()) + [Q.Waiting(id, false)] else old(runnable.Contents()))
        && Excess() == old(Excess())
      ensures runnable.nextToken + |blocked.blocked| <= old(runnable.nextToken + |blocked.blocked|)
      ensures quota.runnableThreads + quota.pendingStates <= old(quota.runnableThreads + quota.pendingStates) && quota.timers <= old(quota.timers)
      ensures old(Valid()) ==> Valid() && (id in old(blocked.blocked) ==> Parked(registry.tcbs, id) && id !in old(runnable.queued))
    {
      hide R.RegistryValid, Q.QueueValid, T.TimersBut, IdsValid, Q.View, Named, Formed, SurplusOf, KernelValid, T.Untimed, Parked, Raised, Owing, Paid;
      ghost var k := State();
      FormedParts(k);
      var wasBlocked, hadTimer := blocked.Unblock(id);
      UntimedFields(k.blocked, id);
      if !wasBlocked {
        NotBlocked(k.blocked, id);
        return Ok(false);
      }
      CardWithout(k.blocked.blocked, id);
      var woken := WakeBlocked(id, hadTimer, k);
      if woken.None? {
        return Ok(false);
      }
      return if woken.value then Ok(true) else Err(LimitExceeded);
    }

    /** Wakes threads that have left the blocked set with a timer each, one after another. */
    method WakeAll(woke: seq<ThreadId>) returns (results: seq<(ThreadId, bool)>)
      requires Sane() && runnable.nextToken + |woke| < U64_MAX && quota.runnableThreads + |woke| < U64_MAX
      requires quota.pendingStates >= |blocked.blocked| + |woke| && quota.timers >= |blocked.activeTimers.Keys| + |woke|
      requires forall i, j :: 0 <= i < j < |woke| ==> woke[i] != woke[j]
      modifies registry, runnable, quota
      ensures Sane() && registry.State() == old(registry.State()) && |results| <= |woke|
      ensures Reported(results) == WithState(registry.tcbs, woke)
      ensures Raised(old(Excess()), Excess(), Surplus(0, 0 - |results|, 0 - |results|))
      ensures runnable.nextToken <= old(runnable.nextToken) + |results| && quota.runnableThreads <= old(quota.runnableThreads) + |results|
      ensures quota.pendingStates == old(quota.pendingStates) - |results| && quota.timers == old(quota.timers) - |results|
      ensures old(InPlace(State(), Elems(woke))) ==>
        && InPlace(State(), {}) && |results| == |woke| && Reported(results) == woke && runnable.Contents() == old(runnable.Contents()) + Admitted(results)
        && quota.runnableThreads == old(quota.runnableThreads) + |Admitted(results)|
        && AdmittedByLimit(results, old(quota.runnableThreads), quota.limits.maxRunnable)
    {
      hide R.RegistryValid, Q.QueueValid, T.TimersBut, IdsValid, Q.View, Named, Formed, SurplusOf, KernelValid, InPlace, Parked, Elems, WithState, Reported, Admitted;
      ghost var placed := InPlace(State(), Elems(woke));
      results := [];
      assert woke[0..] == woke;
      NothingYet(registry.tcbs, woke[..0]);
      assert Reported([]) == [] && Admitted([]) == [] by { NoResults(); }
      assert runnable.Contents() + [] == runnable.Contents();
      for i := 0 to |woke|
        invariant Sane() && registry.State() == old(registry.State())
        invariant |results| <= i && Reported(results) == WithState(old(registry.tcbs), woke[..i])
        invariant Raised(old(Excess()), Excess(), Surplus(0, 0 - |results|, 0 - |results|))
        invariant runnable.nextToken <= old(runnable.nextToken) + |results| && quota.runnableThreads <= old(quota.runnableThreads) + |results|
        invariant quota.pendingStates == old(quota.pendingStates) - |results| && quota.timers == old(quota.timers) - |results|
        invariant placed ==> InPlace(State(), Elems(woke[i..])) && |results| == i && Reported(results) == woke[..i]
        invariant placed ==> runnable.Contents() == old(runnable.Contents()) + Admitted(results)
        invariant placed ==> quota.runnableThreads == old(quota.runnableThreads) + |Admitted(results)|
        invariant placed ==> AdmittedByLimit(results, old(quota.runnableThreads), quota.limits.maxRunnable)
      {
        ghost var before := State();
        WakeNext(woke, i);
        assert woke[..i + 1] == woke[..i] + [woke[i]];
        WithStateGrows(registry.tcbs, woke[..i], woke[i]);
        var woken := Resume(woke[i], true);
        if placed { WakingGoesOn(before, Elems(woke[i..]), woke[i], State()); }
        if woken.Some? {
          ResultsGrow(results, woke[i], woken.value, old(runnable.Contents()));
          if placed { LimitGoesOn(results, woke[i], woken.value, old(quota.runnableThreads), quota.limits.maxRunnable); }
          results := results + [(woke[i], woken.value)];
        }
      }
      assert woke[..|woke|] == woke;
      NoneLeft(woke);
    }

    /** Wakes the threads whose timers expire, in timer order, and queues each the limit admits. A
        thread whose state the registry does not have is not reported, and its charges stay. */
    method Tick(deltaMs: nat) returns (results: seq<(ThreadId, bool)>)
      requires Sane() && runnable.nextToken + |blocked.blocked| < U64_MAX && quota.runnableThreads + |blocked.blocked| < U64_MAX
      modifies registry, runnable, blocked, blocked.timerIds, quota
      ensures Sane() && registry.State() == old(registry.State())
      ensures blocked.State() == T.Ticked(old(blocked.State()), deltaMs).0
      ensures var woke := T.Ticked(old(blocked.State()), deltaMs).1;
        && T.WokeExactly(old(blocked.State()).(clock := SatAdd64(old(blocked.clockMs), deltaMs)), woke)
        && Reported(results) == WithState(registry.tcbs, woke)
        && |results| <= |woke| && |blocked.blocked| + |woke| == |old(blocked.blocked)|
        && Raised(old(Excess()), Excess(), Surplus(0, |woke| - |results|, |woke| - |results|))
      ensures runnable.nextToken <= old(runnable.nextToken) + |results| && quota.runnableThreads <= old(quota.runnableThreads) + |results|
      ensures quota.pendingStates == old(quota.pendingStates) - |results| && quota.timers == old(quota.timers) - |results|
      ensures old(Valid()) ==>
        && Valid() && Reported(results) == T.Ticked(old(blocked.State()), deltaMs).1 && runnable.Contents() == old(runnable.Contents()) + Admitted(results)
        && AdmittedByLimit(results, old(quota.runnableThreads), quota.limits.maxRunnable)
    {
      hide R.RegistryValid, Q.QueueValid, T.TimersBut, IdsValid, Q.View, Named, Formed, SurplusOf, KernelValid, InPlace, T.WokeExactly, T.Awakened, T.Ticked, Elems, WithState, Reported, Admitted, AdmittedByLimit;
      ghost var k := State();
      FormedParts(k);
      var woke := blocked.TickTimeouts(deltaMs);
      TimersFired(k.blocked, k.blocked.(clock := SatAdd64(k.blocked.clock, deltaMs)), woke, blocked.State());
      BlockFormed(k, blocked.State());
      FiredSizes(k, |woke|, State());
      if KernelValid(k) { WakingStarts(k, woke, State()); }
      results := WakeAll(woke);
      if KernelValid(k) { AllWoken(k, State()); }
    }

    // ----- cancelling -----

    method ReturnCharges(wasRunnable: bool, info: Option<bool>)
      modifies quota
      ensures quota.State() == Refunded(old(quota.State()), wasRunnable, info)
    {
      if wasRunnable {
        quota.ReleaseRunnableThreads(1);
      }
      if info.Some? {
        quota.ReleasePendingStates(1);
        if info.value {
          quota.ReleaseTimers(1);
        }
      }
    }

    /** Takes a thread out of both queues and its state out of the registry; its charges are returned
        if there was a state. */
    method Withdraw(id: ThreadId)
      requires Sane()
      modifies registry, runnable, blocked, blocked.timerIds, quota
      ensures registry.Valid() && registry.State() == R.WithVm(old(registry.State()), id, None)
      ensures runnable.Valid() && runnable.nextToken == old(runnable.nextToken)
      ensures runnable.Contents() == Q.Without(old(runnable.Contents()), id) && runnable.queued == old(runnable.queued) - {id}
      ensures blocked.Valid() && blocked.State() == T.Untimed(old(blocked.State()), id).(blocked := old(blocked.blocked) - {id})
      ensures quota.State() == old(AfterCancel(State(), id))
    {
      hide R.RegistryValid, Q.QueueValid, T.TimersBut, IdsValid, Q.View, Q.Without, R.WithVm, Named, Formed, T.Untimed, Refunded, AfterCancel;
      ghost var k := State();
      FormedParts(k);
      UntimedFields(k.blocked, id);
      CancelRefunds(k, id);
      var wasRunnable := runnable.Remove(id);
      var info := blocked.Remove(id);
      var thread := registry.Take(id);
      if thread.Some? {
        ReturnCharges(wasRunnable, info);
      }
    }

    /** Takes a thread out of every queue and out of the registry, and frees its id. Its charges are
        returned if the registry has its state. */
    method Cancel(id: ThreadId) returns (removed: bool)
      requires Sane()
      modifies ids, registry, runnable, blocked, blocked.timerIds, quota
      ensures Sane() && (removed <==> id in old(registry.tcbs))
      ensures registry.tcbs == old(registry.tcbs) - {id} && registry.exitedOrder == R.Filter(old(registry.exitedOrder), id)
      ensures runnable.Contents() == Q.Without(old(runnable.Contents()), id) && runnable.queued == old(runnable.queued) - {id}
      ensures runnable.nextToken == old(runnable.nextToken)
      ensures blocked.blocked == old(blocked.blocked) - {id}
      ensures blocked.activeTimers.Keys == old(blocked.activeTimers.Keys) - {id}
      ensures ids.State() == if removed then Freed(old(ids.State()), id) else old(ids.State())
      ensures quota.State() == old(AfterCancel(State(), id)) && Raised(old(Excess()), Excess(), old(Unreturned(State(), id)))
      ensures old(Valid()) ==> Valid() && old(Unreturned(State(), id)) == NO_SURPLUS
    {
      hide R.RegistryValid, Q.QueueValid, T.TimersBut, IdsValid, Q.View, Q.Without, R.WithVm, Named, R.Cancelled, R.Filter, Freed, T.Untimed, SurplusOf, Unreturned, AfterCancel, Formed, KernelValid;
      ghost var k := State();
      FormedParts(k);
      UntimedFields(k.blocked, id);
      CancelledTcbs(k.registry, id);
      Withdraw(id);
      removed := registry.Cancel(id);
      if removed {
        ids.Free(id);
      }
      CancelSizes(k, id, State());
      CancelFormed(k, id, State());
      if KernelValid(k) {
        AllReturned(k, id);
        CancelledValid(k, id, State());
      }
    }

    // ----- dispatch -----

    method NextRunnableDetailed() returns (next: Option<Q.Waiting>)
      requires Sane()
      modifies runnable
      ensures Sane() && runnable.nextToken == old(runnable.nextToken)
      ensures next.None? <==> old(runnable.Contents()) == []
      ensures next.None? ==> runnable.Contents() == [] && runnable.queued == old(runnable.queued) && Excess() == old(Excess())
      ensures next.Some? ==>
        && old(runnable.Contents()) == [next.value] + runnable.Contents()
        && next.value.id in old(runnable.queued) && runnable.queued == old(runnable.queued) - {next.value.id}
        && Raised(old(Excess()), Excess(), Surplus(1, 0, 0))
      ensures old(Valid()) ==> InPlace(State(), {}) && (next.None? ==> Valid())
      ensures old(Valid()) && next.Some? ==>
        && Parked(registry.tcbs, next.value.id) && Alive(registry.tcbs, next.value.id)
        && next.value.id !in runnable.queued && next.value.id !in blocked.blocked
    {
      hide R.RegistryValid, Q.QueueValid, T.TimersBut, IdsValid, Q.View, Named, Formed, SurplusOf, KernelValid, InPlace, Parked, Alive;
      ghost var k := State();
      FormedParts(k);
      next := runnable.DequeueDetailed();
      DequeueFormed(k, State());
      ValidMeans(k);
      if next.Some? {
        LeftQueue(k, next.value.id, State());
        if KernelValid(k) { HeadIsParked(k, next.value.id, State()); }
      }
    }

    /** Hands a parked thread to the caller and returns one run-queue charge. After a dequeue, which
        leaves one charge too many, that is right exactly if the thread waits nowhere; at any other
        time only if, besides, the run queue is empty. */
    method TakeThread(id: ThreadId) returns (thread: Option<R.VmThread>)
      requires Sane()
      modifies registry, quota
      ensures Sane() && registry.State() == R.WithVm(old(registry.State()), id, None)
      ensures thread == if id in old(registry.tcbs) then old(registry.tcbs)[id].vm else None
      ensures quota.State() == old(quota.State()).(runnable := SatSub(old(quota.runnableThreads), OneIf(thread.Some?)))
      ensures thread.None? ==> State() == old(State())
      ensures old(InPlace(State(), {}) && Excess() == Surplus(1, 0, 0)) && thread.Some? ==>
        (Valid() <==> id !in runnable.queued && id !in blocked.blocked)
      ensures old(Valid()) && thread.Some? ==>
        (Valid() <==> id !in runnable.queued && id !in blocked.blocked && runnable.queued == map[])
    {
      hide R.RegistryValid, Q.QueueValid, T.TimersBut, IdsValid, Named, Formed, SurplusOf, KernelValid, InPlace, R.WithVm, Parked;
      ghost var k := State();
      FormedParts(k);
      TakenAndGiven(k.registry, id);
      ParkedMeans(k.registry.tcbs, id);
      thread := registry.Take(id);
      VmFormed(k, id, None, State());
      ghost var taken := State();
      if thread.Some? {
        quota.ReleaseRunnableThreads(1);
        ChargeFormed(taken, quota.State());
        ValidMeans(k);
        if InPlace(k, {}) && (SurplusOf(k) == NO_SURPLUS || SurplusOf(k) == Surplus(1, 0, 0)) {
          Taken(k, id, State());
        }
      }
    }

    /** Takes the thread's state, if the registry has it, and cancels the thread. The charge that is
        returned is a run-queue charge, so a consistent kernel stays so exactly if there was no state
        to take, or the thread was queued, or it waited nowhere and the run queue was empty. */
    method Teardown(id: ThreadId) returns (thread: Option<R.VmThread>)
      requires Sane()
      modifies ids, registry, runnable, blocked, blocked.timerIds, quota
      ensures Sane() && registry.tcbs == old(registry.tcbs) - {id} && registry.exitedOrder == R.Filter(old(registry.exitedOrder), id)
      ensures thread == if id in old(registry.tcbs) then old(registry.tcbs)[id].vm else None
      ensures runnable.queued == old(runnable.queued) - {id} && runnable.nextToken == old(runnable.nextToken)
      ensures blocked.blocked == old(blocked.blocked) - {id} && blocked.activeTimers.Keys == old(blocked.activeTimers.Keys) - {id}
      ensures ids.State() == if id in old(registry.tcbs) then Freed(old(ids.State()), id) else old(ids.State())
      ensures quota.State() == old(quota.State()).(runnable := SatSub(old(quota.runnableThreads), OneIf(thread.Some?)))
      ensures Raised(old(Excess()), Excess(), old(TornDown(State(), id)))
      ensures old(Valid()) ==> (Valid() <==> TeardownKeeps(old(State()), id))
    {
      hide R.RegistryValid, Q.QueueValid, T.TimersBut, IdsValid, Q.View, Q.Without, R.WithVm, Named, InPlace, R.Filter, Freed, Formed, SurplusOf, KernelValid, AfterCancel, Unreturned, TornDown, TeardownKeeps;
      ghost var k := State();
      ParkedMeans(k.registry.tcbs, id);
      WithVmSame(k.registry, id);
      thread := TakeThread(id);
      ghost var taken := State();
      var removed := Cancel(id);
      TornDownExcess(k, id, thread, taken, State());
      if KernelValid(k) { TornDownKeeps(k, id, State()); }
    }

    /** Hands a created thread to the caller, charging and returning nothing. That leaves a consistent
        kernel so exactly if the thread waits in no queue. */
    method TakeCreatedThread(id: ThreadId) returns (thread: Option<R.VmThread>)
      requires Sane()
      modifies registry
      ensures Sane()
      ensures thread == if id in old(registry.tcbs) && old(registry.tcbs)[id].state.Created? then old(registry.tcbs)[id].vm else None
      ensures thread.Some? ==> Held(registry.tcbs, id)
      ensures registry.State() ==
        if id in old(registry.tcbs) && old(registry.tcbs)[id].state.Created? then R.WithVm(old(registry.State()), id, None) else old(registry.State())
      ensures old(Valid()) ==> (Valid() <==> thread.None? || (id !in runnable.queued && id !in blocked.blocked))
    {
      hide R.RegistryValid, Q.QueueValid, T.TimersBut, IdsValid, Named, Formed, SurplusOf, KernelValid;
      ghost var k := State();
      FormedParts(k);
      if id in registry.tcbs && registry.tcbs[id].state.Created? {
        TakenAndGiven(k.registry, id);
        thread := registry.Take(id);
        VmFormed(k, id, None, State());
        if KernelValid(k) && thread.Some? { TakenCreated(k, id, State()); }
      } else {
        thread := None;
      }
    }

    // ----- identity -----

    /** Registers a thread under an id that no registered thread and no expired tombstone has: the
        one freed last, if any; fails for want of an id only if every id is so taken. */
    method Spawn(admitted: bool, thread: R.VmThread, key: Option<string>) returns (result: Result<ThreadId, Failure>)
      requires Sane()
      modifies ids, registry
      ensures Sane()
      ensures result.Ok? ==>
        && 1 <= result.value <= U32_MAX
        && result.value !in old(registry.tcbs) && result.value !in retired
        && registry.State() == R.Parked(old(registry.State()), result.value, thread, key)
        && (ids.State(), Some(result.value)) == Allocated(old(ids.State()))
      ensures result.Ok? || result == Err(LimitExceeded) || result == Err(DuplicateThreadKey) || result == Err(IdSpaceExhausted)
      ensures result.Err? ==> State() == old(State())
      ensures result == Err(LimitExceeded) <==> !admitted
      ensures result == Err(DuplicateThreadKey) <==> admitted && !old(registry.KeyIsAvailable(key))
      ensures result == Err(IdSpaceExhausted) <==>
        && admitted && old(registry.KeyIsAvailable(key))
        && (forall id :: 1 <= id <= U32_MAX ==> id in old(registry.tcbs) || id in retired)
      ensures old(Valid()) ==> Valid()
    {
      hide R.RegistryValid, Q.QueueValid, T.TimersBut, IdsValid, Named, Formed, SurplusOf, KernelValid, Allocated, Exhausted, R.Parked;
      if !admitted {
        return Err(LimitExceeded);
      }
      if !registry.KeyIsAvailable(key) {
        return Err(DuplicateThreadKey);
      }
      ghost var k := State();
      FormedParts(k);
      NewIdIsFree(k);
      var id := ids.TryAllocate();
      if id.None? {
        NoneAllocated(k.ids);
        return Err(IdSpaceExhausted);
      }
      // The key was found free above, so registering succeeds.
      var registered := registry.Register(id.value, thread, key);
      Registered(k, thread, key, State());
      return Ok(id.value);
    }

    method MarkRunning(id: ThreadId) returns (ok: bool)
      requires Sane()
      modifies registry
      ensures Sane() && registry.State() == R.Begun(old(registry.State()), id)
      ensures ok <==> Alive(old(registry.tcbs), id)
      ensures old(Valid()) ==> Valid()
    {
      hide R.RegistryValid, Q.QueueValid, T.TimersBut, IdsValid, Named, Formed, SurplusOf, KernelValid, R.Begun;
      ghost var k := State();
      FormedParts(k);
      ok := registry.MarkRunning(id);
      Begun(k, id, State());
    }

    /** Turns a live thread into a tombstone, and expires the oldest beyond 1024. That leaves a
        consistent kernel so exactly if the thread is unknown, or is live and waits in no queue. */
    method MarkExited(id: ThreadId, thread: R.VmThread, result: Result<int, string>) returns (ok: bool)
      requires Sane()
      modifies this, registry
      ensures Sane()
      ensures ok <==> Alive(old(registry.tcbs), id)
      ensures ok ==> old(registry.activeCount) > 0
      ensures registry.State() == var s := R.WithVm(old(registry.State()), id, Some(thread)); if ok then R.Expire(R.Buried(s, id, result)) else s
      ensures ok ==> registry.activeCount == old(registry.activeCount) - 1 && Thinned(old(registry.tcbs), id, registry.tcbs)
      ensures ok ==> id in registry.tcbs && registry.tcbs[id].state == R.Exited(result)
      ensures ok ==> id in registry.exitedOrder && |registry.exitedOrder| <= R.MAX_EXITED_TOMBSTONES
      ensures retired == old(retired) + (old(registry.tcbs.Keys) - registry.tcbs.Keys)
      ensures old(Valid()) ==> (Valid() <==> ExitKeeps(old(State()), id))
    {
      hide Q.QueueValid, T.TimersBut, IdsValid, Named, Formed, SurplusOf, KernelValid, R.Expire, R.Buried, R.Tracked, R.WithVm, Thinned;
      ghost var k := State();
      FormedParts(k);
      WithVmTcbs(k.registry, id, Some(thread));
      VmFormed(k, id, Some(thread), k.(registry := R.WithVm(k.registry, id, Some(thread))));
      SameKeys(k.registry.tcbs, id, Some(thread));
      registry.RestoreVmState(id, thread);
      ghost var given := State();
      ok := registry.MarkExited(id, result);
      retired := retired + (given.registry.tcbs.Keys - registry.tcbs.Keys);
      if ok {
        BuriedThins(given.registry, id, result);
        ThinnedFormed(given, id, State());
        ThinnedGiven(k.registry.tcbs, id, thread, registry.tcbs);
        if KernelValid(k) { Exited(k, id, thread, State()); }
      } else {
        assert retired == old(retired);
        if KernelValid(k) { GivenBack(k, id, thread, State()); }
      }
    }
  }

  /** The threads a tick reports, in order. */
  function Reported(results: seq<(ThreadId, bool)>): seq<ThreadId> {
    if results == [] then [] else Reported(results[..|results| - 1]) + [results[|results| - 1].0]
  }

  /** Those that entered the run queue. */
  function Admitted(results: seq<(ThreadId, bool)>): seq<Q.Waiting> {
    if results == [] then []
    else
      var last := results[|results| - 1];
      Admitted(results[..|results| - 1]) + if last.1 then [Q.Waiting(last.0, false)] else []
  }

  /** Each thread entered the run queue exactly if those before it had left room. */
  ghost predicate AdmittedByLimit(results: seq<(ThreadId, bool)>, start: nat, max: nat) {
    forall j :: 0 <= j < |results| ==> (results[j].1 <==> start + |Admitted(results[..j])| < max)
  }

  lemma LimitGoesOn(results: seq<(ThreadId, bool)>, id: ThreadId, ok: bool, start: nat, max: nat)
    requires AdmittedByLimit(results, start, max) && (ok <==> start + |Admitted(results)| < max)
    ensures AdmittedByLimit(results + [(id, ok)], start, max)
    ensures |Admitted(results + [(id, ok)])| == |Admitted(results)| + OneIf(ok)
  {
    var more := results + [(id, ok)];
    assert more[..|results|] == results;
    assert forall j :: 0 <= j < |results| ==> more[..j] == results[..j];
  }

  lemma {:induction false} ReportedLength(results: seq<(ThreadId, bool)>)
    ensures |Reported(results)| == |results|
  {
    if results != [] { ReportedLength(results[..|results| - 1]); }
  }

  lemma NoResults()
    ensures Reported([]) == [] && Admitted([]) == []
  {}

  lemma ResultsGrow(results: seq<(ThreadId, bool)>, id: ThreadId, ok: bool, before: seq<Q.Waiting>)
    ensures Reported(results + [(id, ok)]) == Reported(results) + [id]
    ensures before + Admitted(results + [(id, ok)]) == before + Admitted(results) + if ok then [Q.Waiting(id, false)] else []
  {
    assert (results + [(id, ok)])[..|results|] == results;
  }
}
