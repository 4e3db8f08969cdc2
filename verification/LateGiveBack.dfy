/** Runs in which a thread is cancelled while something of it is still out, and what they leave. */
module LateGiveBack {
  import opened Machine
  import opened IdManager
  import opened KernelSteps
  import opened Kernel
  import Q = RunQueue
  import R = Registry

  const ONE_EACH: Limits := Limits(1, 1, 1)

  /** A kernel with these blocks, ids and charges, and nothing queued or blocked, after at most so many
      queuings. */
  ghost predicate Quiet(k: VirtualKernel, tcbs: R.Tcbs, ids: IdState, c: Counters, queuings: nat)
    reads k, k.ids, k.registry, k.runnable, k.blocked, k.blocked.timerIds, k.quota
  {
    && k.Sane() && k.quota.limits == ONE_EACH && k.quota.State() == c && k.retired == {}
    && k.registry.tcbs == tcbs && k.ids.State() == ids
    && k.runnable.Contents() == [] && k.runnable.queued == map[] && k.runnable.nextToken <= queuings && k.blocked.blocked == {}
  }

  method SpawnFirst(k: VirtualKernel, thread: R.VmThread) returns (id: ThreadId)
    requires k.Sane() && k.registry.tcbs == map[] && k.retired == {}
    requires k.ids.State() == IdState(1, Some(1), [], {}) || k.ids.State() == IdState(1, Some(2), [1], {})
    modifies k.ids, k.registry
    ensures k.Sane() && (old(k.Valid()) ==> k.Valid())
    ensures id == 1 && k.registry.tcbs == map[1 := R.Tcb(R.Created, None, Some(thread))] && k.ids.State() == IdState(1, Some(2), [], {1})
  {
    hide Formed, KernelValid, SurplusOf, R.RegistryValid;
    assert 1 !in k.registry.tcbs && 1 !in k.retired;
    var spawned := k.Spawn(true, thread, None);
    id := spawned.value;
  }

  lemma OneCharged(k: KernelState)
    requires Formed(k) && k.queued == map[] && k.blocked.blocked == {} && k.counters == Counters(1, 0, 0)
    ensures SurplusOf(k) == Surplus(1, 0, 0) && !KernelValid(k)
  {
    hide PartsValid, Within;
    assert |k.queued.Keys| == 0;
  }

  /** The first thread of a kernel is out in its caller's hand. */
  method SpawnAndTake() returns (k: VirtualKernel, thread: R.VmThread)
    ensures Quiet(k, map[1 := R.Tcb(R.Created, None, None)], IdState(1, Some(2), [], {1}), Counters(0, 0, 0), 0) && k.Valid()
    ensures thread == R.VmThread(0)
    ensures fresh(k) && fresh(k.ids) && fresh(k.registry) && fresh(k.runnable) && fresh(k.blocked) && fresh(k.blocked.timerIds) && fresh(k.quota)
  {
    hide Formed, KernelValid, SurplusOf, R.RegistryValid, Q.View;
    k := new VirtualKernel(ONE_EACH);
    var id := SpawnFirst(k, R.VmThread(0));
    var taken := k.TakeCreatedThread(1);
    thread := taken.value;
  }

  /** It is cancelled meanwhile. */
  method TakenAndCancelled() returns (k: VirtualKernel, thread: R.VmThread)
    ensures Quiet(k, map[], IdState(1, Some(2), [1], {}), Counters(0, 0, 0), 0) && k.Valid() && thread == R.VmThread(0)
    ensures fresh(k) && fresh(k.ids) && fresh(k.registry) && fresh(k.runnable) && fresh(k.blocked) && fresh(k.blocked.timerIds) && fresh(k.quota)
  {
    hide Formed, KernelValid, SurplusOf, R.RegistryValid, Q.View, R.Filter, Unreturned;
    k, thread := SpawnAndTake();
    assert [1] == [] + [1] && {1} - {1} == {};
    var removed := k.Cancel(1);
  }

  /** Its state then comes back to be queued: the id is queued and charged, its dispatch finds no
      state, and the charge stays. */
  method CancelledThenQueued() returns (k: VirtualKernel)
    ensures Quiet(k, map[], IdState(1, Some(2), [1], {}), Counters(1, 0, 0), 1) && k.Excess() == Surplus(1, 0, 0) && !k.Valid()
    ensures fresh(k) && fresh(k.ids) && fresh(k.registry) && fresh(k.runnable) && fresh(k.blocked) && fresh(k.blocked.timerIds) && fresh(k.quota)
  {
    hide Formed, KernelValid, SurplusOf, R.RegistryValid, Q.View, InPlace, EnqueueKeeps, Raised;
    var thread;
    k, thread := TakenAndCancelled();
    var ok := k.EnqueueRunnable(1, thread);
    ghost var waiting := k.runnable.Contents();
    assert waiting == [Q.Waiting(1, false)] && k.runnable.queued.Keys == {1};
    var next := k.NextRunnableDetailed();
    assert next.value == waiting[0] && k.runnable.Contents() == [] && k.runnable.queued == map[];
    var none := k.TakeThread(1);
    OneCharged(k.State());
  }

  /** With a run-queue limit of one, no thread can be queued any more. */
  method ThenNoneIsQueued() returns (k: VirtualKernel, admitted: bool)
    ensures k.Sane() && !admitted && k.runnable.Contents() == [] && k.registry.tcbs.Keys == {1}
  {
    hide Formed, KernelValid, SurplusOf, R.RegistryValid, Q.View;
    k := CancelledThenQueued();
    var id := SpawnFirst(k, R.VmThread(1));
    var thread := k.TakeCreatedThread(1);
    admitted := k.EnqueueRunnable(1, thread.value);
  }

  /** The next thread to be spawned gets the id of the cancelled one, and the cancelled thread's state,
      given back late, takes the place of its own. The counters do not show it. */
  method CancelledThenReplaced() returns (k: VirtualKernel)
    ensures k.Valid() && k.registry.tcbs == map[1 := R.Tcb(R.Created, None, Some(R.VmThread(0)))]
  {
    hide Formed, KernelValid, SurplusOf, R.RegistryValid, Q.View;
    var thread;
    k, thread := TakenAndCancelled();
    var id := SpawnFirst(k, R.VmThread(1));
    assert k.registry.tcbs[1].vm == Some(R.VmThread(1));
    k.ParkRunning(1, thread);
  }

  /** Tearing down a blocked thread takes its state before it cancels it, so the pending charge stays:
      with a limit of one no thread can be blocked any more. */
  method TornDownWhileBlocked() returns (k: VirtualKernel, result: Result<(), Failure>)
    ensures k.Sane() && k.blocked.blocked == {} && k.quota.pendingStates == 1 == k.quota.limits.maxPending && result == Err(LimitExceeded)
  {
    hide Formed, KernelValid, SurplusOf, R.RegistryValid, Q.View, BlockKeeps, TeardownKeeps, TornDown, Raised, Exhausted, R.Filter;
    var thread;
    k, thread := SpawnAndTake();
    var blocked := k.Block(1, thread, None);
    assert k.blocked.blocked == {1};
    var taken := k.Teardown(1);
    var id := SpawnFirst(k, R.VmThread(1));
    var second := k.TakeCreatedThread(1);
    result := k.Block(1, second.value, None);
  }
}
