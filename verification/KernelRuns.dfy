/** Whole runs of the kernel under any client, right or wrong. */
module KernelRuns {
  import opened Machine
  import opened IdManager
  import opened KernelSteps
  import opened KernelClients
  import opened Kernel
  import Q = RunQueue
  import T = TimerQueue
  import R = Registry

  /** `n` calls cannot have driven any counter higher. */
  ghost predicate Light(k: KernelState, n: nat) {
    && k.nextToken + |k.blocked.blocked| <= n
    && k.counters.runnable + k.counters.pending <= n
    && k.counters.timers <= n
  }

  ghost predicate Shows(w: World, k: VirtualKernel, hand: seq<Ticket>, next: nat)
    reads k, k.ids, k.registry, k.runnable, k.blocked, k.blocked.timerIds, k.quota
  {
    k.Sane() && w == World(k.State(), hand, w.owner, next, w.ended)
  }

  // ----- one call -----

  method GiveBack(k: VirtualKernel, ticket: Ticket, front: bool) returns (ok: bool)
    requires k.Sane() && k.runnable.nextToken < U64_MAX && k.quota.runnableThreads < U64_MAX
    modifies k.registry, k.runnable, k.quota
    ensures k.Sane() && k.Excess() == old(k.Excess()) && k.registry.State() == R.WithVm(old(k.registry.State()), ticket.id, Some(ticket.thread))
    ensures ok <==> ticket.id in old(k.runnable.queued) || old(k.quota.runnableThreads) < k.quota.limits.maxRunnable
    ensures k.runnable.nextToken <= old(k.runnable.nextToken) + 1
    ensures k.quota.State() == old(k.quota.State()).(runnable := k.quota.runnableThreads) && k.quota.runnableThreads <= old(k.quota.runnableThreads) + 1
    ensures old(k.Valid()) ==> (k.Valid() <==> EnqueueKeeps(old(k.State()), ticket.id, ok))
  {
    hide Formed, SurplusOf, KernelValid, R.WithVm, EnqueueKeeps, Q.View;
    if front {
      ok := k.EnqueueRunnableFront(ticket.id, ticket.thread);
    } else {
      ok := k.EnqueueRunnable(ticket.id, ticket.thread);
    }
  }

  method RunEnqueue(k: VirtualKernel, hand: seq<Ticket>, next: nat, op: KernelOp, ghost w: World, ghost n: nat) returns (ghost w': World)
    requires op.Enqueue? && op.t < |hand| && Shows(w, k, hand, next) && Light(w.k, n) && n < U64_MAX
    modifies k.registry, k.runnable, k.quota
    ensures Shows(w', k, Without(hand, op.t), next) && Step(op, w, w') && Light(w'.k, n + 1)
  {
    hide Formed, SurplusOf, KernelValid, Step, R.WithVm, EnqueueKeeps;
    FormedParts(w.k);
    var ok := GiveBack(k, hand[op.t], op.front);
    w' := World(k.State(), Without(hand, op.t), w.owner, next, w.ended);
    EnqueueStep(op, w, ok, w');
  }

  method RunBlock(k: VirtualKernel, hand: seq<Ticket>, next: nat, op: KernelOp, ghost w: World, ghost n: nat) returns (ghost w': World)
    requires op.BlockThread? && op.t < |hand| && Shows(w, k, hand, next) && Light(w.k, n) && n < U64_MAX
    modifies k.registry, k.blocked, k.blocked.timerIds, k.quota
    ensures Shows(w', k, Without(hand, op.t), next) && Step(op, w, w') && Light(w'.k, n + 1)
  {
    hide Formed, SurplusOf, KernelValid, Step, R.WithVm, BlockKeeps, Exhausted;
    FormedParts(w.k);
    CardWith(w.k.blocked.blocked, hand[op.t].id);
    var result := k.Block(hand[op.t].id, hand[op.t].thread, op.timeout);
    w' := World(k.State(), Without(hand, op.t), w.owner, next, w.ended);
    if result == Err(IdSpaceExhausted) { ChargeFormed(w.k, w'.k.counters); }
    if result == Err(LimitExceeded) { VmFormed(w.k, hand[op.t].id, Some(hand[op.t].thread), w'.k); }
    BlockStep(op, w, result, w');
  }

  method RunPark(k: VirtualKernel, hand: seq<Ticket>, next: nat, op: KernelOp, ghost w: World, ghost n: nat) returns (ghost w': World)
    requires op.Park? && op.t < |hand| && Shows(w, k, hand, next) && Light(w.k, n)
    modifies k.registry
    ensures Shows(w', k, Without(hand, op.t), next) && Step(op, w, w') && Light(w'.k, n + 1)
  {
    hide Formed, SurplusOf, KernelValid, Step, R.WithVm, Alive;
    k.ParkRunning(hand[op.t].id, hand[op.t].thread);
    w' := World(k.State(), Without(hand, op.t), w.owner, next, w.ended);
    ParkStep(op, w, w');
  }

  method RunExit(k: VirtualKernel, hand: seq<Ticket>, next: nat, op: KernelOp, ghost w: World, ghost n: nat) returns (ghost w': World)
    requires op.Exit? && op.t < |hand| && Shows(w, k, hand, next) && Light(w.k, n)
    modifies k, k.registry
    ensures Shows(w', k, Without(hand, op.t), next) && Step(op, w, w') && Light(w'.k, n + 1)
  {
    hide Formed, SurplusOf, KernelValid, Step, R.WithVm, R.Expire, R.Buried, Thinned, ExitKeeps;
    WithVmTcbs(w.k.registry, hand[op.t].id, Some(hand[op.t].thread));
    var ok := k.MarkExited(hand[op.t].id, hand[op.t].thread, op.result);
    w' := World(k.State(), Without(hand, op.t), Restrict(w.owner, k.registry.tcbs.Keys), next, w.ended + {hand[op.t].thread.tag});
    ExitStep(op, w, w');
  }

  method RunTake(k: VirtualKernel, hand: seq<Ticket>, next: nat, op: KernelOp, ghost w: World, ghost n: nat)
    returns (hand': seq<Ticket>, ghost w': World)
    requires (op.StartCreated? || op.TakeDirectly?) && Shows(w, k, hand, next) && Light(w.k, n)
    modifies k.registry, k.quota
    ensures Shows(w', k, hand', next) && Step(op, w, w') && Light(w'.k, n + 1)
  {
    hide Formed, SurplusOf, KernelValid, Step, R.WithVm;
    WithVmTcbs(w.k.registry, op.id, None);
    var thread;
    if op.StartCreated? {
      thread := k.TakeCreatedThread(op.id);
      TakenAndGiven(w.k.registry, op.id);
      SurplusSame(w.k, k.State());
    } else {
      thread := k.TakeThread(op.id);
      TakenSurplus(w.k, OneIf(thread.Some?), k.State());
    }
    hand' := if thread.Some? then hand + [Ticket(op.id, thread.value)] else hand;
    w' := World(k.State(), hand', w.owner, next, w.ended);
    TakeStep(op, w, op.id, w');
  }

  lemma SurplusSame(k: KernelState, k': KernelState)
    requires k'.queued == k.queued && k'.blocked == k.blocked && k'.counters == k.counters
    ensures Raised(SurplusOf(k), SurplusOf(k'), NO_SURPLUS)
  {}

  lemma TakenSurplus(k: KernelState, n: nat, k': KernelState)
    requires n <= 1 && k'.queued == k.queued && k'.blocked == k.blocked
    requires k'.counters == k.counters.(runnable := SatSub(k.counters.runnable, n))
    ensures Raised(SurplusOf(k), SurplusOf(k'), Surplus(0 - OneIf(n == 1 && k.counters.runnable > 0), 0, 0))
  {}

  /** Takes a dequeued thread's state, if the registry has it; then the thread runs. */
  method TakeAndRun(k: VirtualKernel, id: ThreadId) returns (ticket: Option<Ticket>)
    requires k.Sane()
    modifies k.registry, k.quota
    ensures k.Sane() && k.registry.tcbs == Ran(old(k.registry.tcbs), id)
    ensures ticket == if Parked(old(k.registry.tcbs), id) then Some(Ticket(id, old(k.registry.tcbs)[id].vm.value)) else None
    ensures k.quota.State() == old(k.quota.State()).(runnable := SatSub(old(k.quota.runnableThreads), OneIf(ticket.Some?)))
    ensures Raised(old(k.Excess()), k.Excess(), Surplus(0 - OneIf(ticket.Some? && old(k.quota.runnableThreads) > 0), 0, 0))
    ensures old(InPlace(k.State(), {}) && k.Excess() == Surplus(1, 0, 0)) && ticket.Some? && id !in k.runnable.queued && id !in k.blocked.blocked ==> k.Valid()
  {
    hide Formed, SurplusOf, KernelValid, R.WithVm, R.Begun, InPlace, Alive;
    ghost var before := k.State();
    WithVmTcbs(before.registry, id, None);
    var thread := k.TakeThread(id);
    ghost var taken := k.State();
    TakenSurplus(before, OneIf(thread.Some?), taken);
    if thread.None? {
      return None;
    }
    BegunTcbs(taken.registry, id);
    var ok := k.MarkRunning(id);
    SurplusSame(taken, k.State());
    return Some(Ticket(id, thread.value));
  }

  /** Takes the head off the run queue and runs it. */
  method TakeNext(k: VirtualKernel) returns (ticket: Option<Ticket>)
    requires k.Sane()
    modifies k.registry, k.runnable, k.quota
    ensures k.Sane() && k.runnable.nextToken == old(k.runnable.nextToken)
    ensures var tcbs, waiting := old(k.registry.tcbs), old(k.runnable.Contents());
      if waiting == [] then ticket.None? && k.registry.tcbs == tcbs
      else
        && k.registry.tcbs == Ran(tcbs, waiting[0].id)
        && ticket == if Parked(tcbs, waiting[0].id) then Some(Ticket(waiting[0].id, tcbs[waiting[0].id].vm.value)) else None
    ensures k.quota.State() == old(k.quota.State()).(runnable := SatSub(old(k.quota.runnableThreads), OneIf(ticket.Some?)))
    ensures Raised(old(k.Excess()), k.Excess(),
      if old(k.runnable.Contents()) == [] then NO_SURPLUS else Surplus(1 - OneIf(ticket.Some? && old(k.quota.runnableThreads) > 0), 0, 0))
    ensures old(k.Valid()) ==> k.Valid()
  {
    hide Formed, SurplusOf, KernelValid, Q.View, InPlace, Alive, Ran, Raised;
    ghost var before := k.State();
    var waiting := k.NextRunnableDetailed();
    if waiting.None? {
      SurplusEqual(before, k.State());
      return None;
    }
    ghost var dequeued := k.State();
    if KernelValid(before) { OneTooMany(before, dequeued); }
    ticket := TakeAndRun(k, waiting.value.id);
    RaisedTwice(before, dequeued, k.State(), OneIf(ticket.Some? && before.counters.runnable > 0));
  }

  method RunDispatch(k: VirtualKernel, hand: seq<Ticket>, next: nat, op: KernelOp, ghost w: World, ghost n: nat)
    returns (hand': seq<Ticket>, ghost w': World)
    requires op.Dispatch? && Shows(w, k, hand, next) && Light(w.k, n)
    modifies k.registry, k.runnable, k.quota
    ensures Shows(w', k, hand', next) && Step(op, w, w') && Light(w'.k, n + 1)
  {
    hide Formed, SurplusOf, KernelValid, Step, Q.View, Ran;
    var ticket := TakeNext(k);
    hand' := if ticket.Some? then hand + [ticket.value] else hand;
    w' := World(k.State(), hand', w.owner, next, w.ended);
    DispatchStep(op, w, w');
  }

  lemma RaisedTwice(a: KernelState, b: KernelState, c: KernelState, n: nat)
    requires Raised(SurplusOf(a), SurplusOf(b), Surplus(1, 0, 0)) && Raised(SurplusOf(b), SurplusOf(c), Surplus(0 - n, 0, 0))
    ensures Raised(SurplusOf(a), SurplusOf(c), Surplus(1 - n, 0, 0))
  {
    hide SurplusOf;
  }

  lemma OneTooMany(k: KernelState, k': KernelState)
    requires KernelValid(k) && Raised(SurplusOf(k), SurplusOf(k'), Surplus(1, 0, 0))
    ensures SurplusOf(k') == Surplus(1, 0, 0)
  {}

  lemma BegunTcbs(s: R.RegistryState, id: ThreadId)
    ensures R.Begun(s, id).tcbs == if Alive(s.tcbs, id) then s.tcbs[id := s.tcbs[id].(state := R.Running)] else s.tcbs
  {}

  method RunSpawn(k: VirtualKernel, hand: seq<Ticket>, next: nat, op: KernelOp, ghost w: World, ghost n: nat)
    returns (next': nat, ghost w': World)
    requires op.SpawnThread? && Shows(w, k, hand, next) && Light(w.k, n)
    modifies k.ids, k.registry
    ensures Shows(w', k, hand, next') && Step(op, w, w') && Light(w'.k, n + 1)
  {
    hide Formed, KernelValid, Step, Allocated;
    var result := k.Spawn(op.admitted, R.VmThread(next), op.key);
    next' := if result.Ok? then next + 1 else next;
    w' := World(k.State(), hand, if result.Ok? then w.owner[result.value := next] else w.owner, next', w.ended);
    SpawnStep(op, w, if result.Ok? then Some(result.value) else None, w');
  }

  method RunUnblock(k: VirtualKernel, hand: seq<Ticket>, next: nat, op: KernelOp, ghost w: World, ghost n: nat) returns (ghost w': World)
    requires op.UnblockThread? && Shows(w, k, hand, next) && Light(w.k, n) && n < U64_MAX
    modifies k.registry, k.runnable, k.blocked, k.blocked.timerIds, k.quota
    ensures Shows(w', k, hand, next) && Step(op, w, w') && Light(w'.k, n + 1)
  {
    hide Formed, SurplusOf, KernelValid, Step, Q.View, Parked, Drift, Owing, Raised;
    FormedParts(w.k);
    var result := k.Unblock(op.id);
    w' := World(k.State(), hand, w.owner, next, w.ended);
    UnblockDrifts(op, w, w'.k);
    WakeStep(op, w, w');
  }

  method RunTick(k: VirtualKernel, hand: seq<Ticket>, next: nat, op: KernelOp, ghost w: World, ghost n: nat) returns (ghost w': World)
    requires op.TickClock? && Shows(w, k, hand, next) && Light(w.k, n) && n < U64_MAX
    modifies k.registry, k.runnable, k.blocked, k.blocked.timerIds, k.quota
    ensures Shows(w', k, hand, next) && Step(op, w, w') && Light(w'.k, n + 1)
  {
    hide Formed, SurplusOf, KernelValid, Step, Q.View, T.Ticked, T.WokeExactly, WithState, Reported, Admitted;
    FormedParts(w.k);
    var results := k.Tick(op.deltaMs);
    ReportedLength(results);
    w' := World(k.State(), hand, w.owner, next, w.ended);
    WakeStep(op, w, w');
  }

  lemma UnblockDrifts(op: KernelOp, w: World, k': KernelState)
    requires op.UnblockThread?
    requires op.id !in w.k.blocked.blocked ==> k' == w.k
    requires op.id in w.k.blocked.blocked && !Parked(w.k.registry.tcbs, op.id) ==>
      Raised(SurplusOf(w.k), SurplusOf(k'), Owing(op.id in w.k.blocked.active))
    requires op.id in w.k.blocked.blocked && Parked(w.k.registry.tcbs, op.id) ==> SurplusOf(k') == SurplusOf(w.k)
    ensures Raised(SurplusOf(w.k), SurplusOf(k'), Drift(op, w))
  {
    hide SurplusOf, Parked, Owing;
  }

  lemma SurplusEqual(k: KernelState, k': KernelState)
    requires SurplusOf(k') == SurplusOf(k)
    ensures Raised(SurplusOf(k), SurplusOf(k'), NO_SURPLUS)
  {}

  method RunCancel(k: VirtualKernel, hand: seq<Ticket>, next: nat, op: KernelOp, ghost w: World, ghost n: nat) returns (ghost w': World)
    requires (op.CancelThread? || op.TeardownThread?) && Shows(w, k, hand, next) && Light(w.k, n)
    modifies k.ids, k.registry, k.runnable, k.blocked, k.blocked.timerIds, k.quota
    ensures Shows(w', k, hand, next) && Step(op, w, w') && Light(w'.k, n + 1)
  {
    hide Formed, SurplusOf, KernelValid, Step, Q.View, Q.Without, R.Filter, Freed, Unreturned, TornDown, TeardownKeeps;
    CardWithout(w.k.blocked.blocked, op.id);
    if op.CancelThread? {
      var removed := k.Cancel(op.id);
    } else {
      var thread := k.Teardown(op.id);
    }
    w' := World(k.State(), hand, w.owner - {op.id}, next, w.ended);
    CancelStep(op, w, op.id, w');
  }

  /** One call of a client that keeps the thread states it was handed until it gives them back, also
      across a cancellation. */
  method RunOp(k: VirtualKernel, hand: seq<Ticket>, next: nat, op: KernelOp, ghost w: World, ghost n: nat)
    returns (hand': seq<Ticket>, next': nat, ghost w': World)
    requires Shows(w, k, hand, next) && Light(w.k, n) && n < U64_MAX
    modifies k, k.ids, k.registry, k.runnable, k.blocked, k.blocked.timerIds, k.quota
    ensures Shows(w', k, hand', next') && Step(op, w, w') && Light(w'.k, n + 1)
  {
    hide Step, Formed;
    hand', next', w' := hand, next, w;
    match op
    case SpawnThread(_, _) => next', w' := RunSpawn(k, hand, next, op, w, n);
    case StartCreated(_) => hand', w' := RunTake(k, hand, next, op, w, n);
    case TakeDirectly(_) => hand', w' := RunTake(k, hand, next, op, w, n);
    case Dispatch => hand', w' := RunDispatch(k, hand, next, op, w, n);
    case Enqueue(t, _) =>
      if t < |hand| {
        w' := RunEnqueue(k, hand, next, op, w, n);
        hand' := Without(hand, t);
      } else {
        NoStep(op, w);
      }
    case BlockThread(t, _) =>
      if t < |hand| {
        w' := RunBlock(k, hand, next, op, w, n);
        hand' := Without(hand, t);
      } else {
        NoStep(op, w);
      }
    case Park(t) =>
      if t < |hand| {
        w' := RunPark(k, hand, next, op, w, n);
        hand' := Without(hand, t);
      } else {
        NoStep(op, w);
      }
    case Exit(t, _) =>
      if t < |hand| {
        w' := RunExit(k, hand, next, op, w, n);
        hand' := Without(hand, t);
      } else {
        NoStep(op, w);
      }
    case UnblockThread(_) => w' := RunUnblock(k, hand, next, op, w, n);
    case TickClock(_) => w' := RunTick(k, hand, next, op, w, n);
    case CancelThread(_) => w' := RunCancel(k, hand, next, op, w, n);
    case TeardownThread(_) => w' := RunCancel(k, hand, next, op, w, n);
  }

  // ----- whole runs -----

  /** Each call leads from one world to the next. */
  ghost predicate Run(ops: seq<KernelOp>, worlds: seq<World>) {
    && |worlds| == |ops| + 1
    && forall i :: 0 <= i < |ops| ==> Step(ops[i], worlds[i], worlds[i + 1])
  }

  lemma RunExtends(ops: seq<KernelOp>, worlds: seq<World>, k: nat, w: World)
    requires k < |ops| && Run(ops[..k], worlds) && Step(ops[k], worlds[k], w)
    ensures Run(ops[..k + 1], worlds + [w])
  {
    hide Step;
    var longer := worlds + [w];
    forall i | 0 <= i < k + 1 ensures Step(ops[..k + 1][i], longer[i], longer[i + 1]) {
      if i < k { assert Step(ops[..k][i], worlds[i], worlds[i + 1]); }
    }
  }

  ghost predicate SoundUpTo(worlds: seq<World>, n: nat)
    requires n < |worlds|
  {
    forall i :: 0 <= i <= n ==> Sound(worlds[i])
  }

  ghost predicate SafeUpTo(ops: seq<KernelOp>, worlds: seq<World>, n: nat)
    requires n <= |ops| && n <= |worlds|
  {
    forall i :: 0 <= i < n ==> Safe(ops[i], worlds[i])
  }

  /** A run stays sound up to any point exactly if every call before it was safe when it was made. */
  lemma {:induction false} SoundIffSafe(ops: seq<KernelOp>, worlds: seq<World>, n: nat)
    requires Run(ops, worlds) && n < |worlds| && Sound(worlds[0])
    ensures SoundUpTo(worlds, n) <==> SafeUpTo(ops, worlds, n)
  {
    hide Sound, Safe, Fresh, Formed, SurplusOf, Drift;
    if n > 0 {
      SoundIffSafe(ops, worlds, n - 1);
      assert Step(ops[n - 1], worlds[n - 1], worlds[n]);
    }
  }

  /** What a sound world says in the kernel's own terms. */
  lemma SoundMeans(w: World)
    requires Sound(w)
    ensures var k := w.k;
      && k.counters.runnable == |Q.View(k.queue, k.queued)| == |k.queued.Keys|
      && k.counters.pending == |k.blocked.blocked| && k.counters.timers == |k.blocked.active.Keys|
      && k.queued.Keys !! k.blocked.blocked
      && R.KeysInverse(k.registry.tcbs, k.registry.keys) && R.Tombstones(k.registry.tcbs, k.registry.exitedOrder)
      && |k.registry.exitedOrder| <= R.MAX_EXITED_TOMBSTONES && k.registry.activeCount == |R.Live(k.registry.tcbs)|
      && k.ids.activeIds == k.registry.tcbs.Keys + k.retired && k.registry.tcbs.Keys !! k.retired
  {
    hide Q.QueueValid, T.TimersBut, IdsValid, R.KeysInverse, R.Tombstones, Q.View, Linear;
    Q.ViewIsExact(w.k.queue, w.k.queued, w.k.nextToken);
  }

  ghost function TotalDrift(ops: seq<KernelOp>, worlds: seq<World>, n: nat): Surplus
    requires n <= |ops| && n <= |worlds|
  {
    if n == 0 then NO_SURPLUS
    else
      var before, last := TotalDrift(ops, worlds, n - 1), Drift(ops[n - 1], worlds[n - 1]);
      Surplus(before.runnable + last.runnable, before.timers + last.timers, before.pending + last.pending)
  }

  /** Whatever the client does, each counter differs from the size of what it counts by exactly the
      drifts of the calls made so far. */
  lemma {:induction false} SurplusIsDrift(ops: seq<KernelOp>, worlds: seq<World>, n: nat)
    requires Run(ops, worlds) && n < |worlds|
    ensures Raised(SurplusOf(worlds[0].k), SurplusOf(worlds[n].k), TotalDrift(ops, worlds, n))
  {
    hide Sound, Safe, Fresh, Formed, SurplusOf, Drift;
    if n > 0 {
      SurplusIsDrift(ops, worlds, n - 1);
      assert Step(ops[n - 1], worlds[n - 1], worlds[n]);
    }
  }

  lemma {:induction false} StaysRetired(ops: seq<KernelOp>, worlds: seq<World>, m: nat, n: nat)
    requires Run(ops, worlds) && m <= n < |worlds|
    ensures worlds[m].k.retired <= worlds[n].k.retired
  {
    hide Sound, Safe, Formed, SurplusOf, Drift;
    if m < n {
      StaysRetired(ops, worlds, m, n - 1);
      assert Step(ops[n - 1], worlds[n - 1], worlds[n]);
    }
  }

  /** An id retired at some point of a run is registered by no later call. */
  lemma NeverReused(ops: seq<KernelOp>, worlds: seq<World>, m: nat, n: nat, id: ThreadId)
    requires Run(ops, worlds) && m <= n < |ops| && id in worlds[m].k.retired
    ensures id !in worlds[n].k.registry.tcbs ==> id !in worlds[n + 1].k.registry.tcbs
  {
    hide Sound, Safe, Formed, SurplusOf, Drift;
    StaysRetired(ops, worlds, m, n);
    assert Step(ops[n], worlds[n], worlds[n + 1]);
  }

  /** Any sequence of calls on a new kernel by a client that gives back only states it was handed, and
      each at most once, but possibly late: every part stays valid; each counter is what it counts
      plus the drifts so far; and the kernel and the identity of thread states stay sound exactly as
      long as every call is safe. */
  method RunKernel(limits: Limits, ops: seq<KernelOp>) returns (k: VirtualKernel, hand: seq<Ticket>, ghost worlds: seq<World>)
    requires |ops| <= U64_MAX
    ensures Run(ops, worlds) && worlds[|ops|].k == k.State() && worlds[|ops|].hand == hand && k.quota.limits == limits
    ensures k.Sane() && Raised(NO_SURPLUS, k.Excess(), TotalDrift(ops, worlds, |ops|))
    ensures forall n :: 0 <= n <= |ops| ==> (SoundUpTo(worlds, n) <==> SafeUpTo(ops, worlds, n))
  {
    hide Step, Run, Formed, SurplusOf, KernelValid, Q.View, Sound, SoundUpTo, SafeUpTo, TotalDrift;
    k := new VirtualKernel(limits);
    hand := [];
    var next := 0;
    ghost var w := World(k.State(), [], map[], 0, {});
    worlds := [w];
    FirstWorld(ops, w);
    for i := 0 to |ops|
      invariant Shows(w, k, hand, next) && Light(w.k, i) && k.quota.limits == limits
      invariant Run(ops[..i], worlds) && |worlds| == i + 1 && worlds[i] == w && worlds[0].hand == [] && Sound(worlds[0])
      invariant SurplusOf(worlds[0].k) == NO_SURPLUS
      invariant fresh(k) && fresh(k.ids) && fresh(k.registry) && fresh(k.runnable) && fresh(k.blocked) && fresh(k.blocked.timerIds) && fresh(k.quota)
    {
      ghost var w';
      hand, next, w' := RunOp(k, hand, next, ops[i], w, i);
      RunExtends(ops, worlds, i, w');
      worlds := worlds + [w'];
      w := w';
    }
    assert ops[..|ops|] == ops;
    SurplusIsDrift(ops, worlds, |ops|);
    forall n | 0 <= n <= |ops| ensures SoundUpTo(worlds, n) <==> SafeUpTo(ops, worlds, n) {
      SoundIffSafe(ops, worlds, n);
    }
  }

  lemma FirstWorld(ops: seq<KernelOp>, w: World)
    requires KernelValid(w.k) && w.k.registry.tcbs == map[] && w == World(w.k, [], map[], 0, {})
    requires w.k.nextToken == 0 && w.k.blocked.blocked == {} && w.k.counters == Counters(0, 0, 0)
    ensures Sound(w) && Light(w.k, 0) && Run(ops[..0], [w]) && SurplusOf(w.k) == NO_SURPLUS
  {
    hide Formed;
  }
}
