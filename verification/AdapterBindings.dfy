/** Adapter bindings: batch registration of foreign handles, compensation, release in one step or two, and close. */
module AdapterBindings {
  import opened Machine
  import HeapObjects
  import opened IdManager
  import opened AdapterLedger
  import opened AdapterFlights

  /** How many handles the binding has accepted since it was registered. */
  ghost function Count(l: Ledger, b: BindingId): nat {
    if b in l.current && l.current[b] < |l.accepted| then |l.accepted[l.current[b]]| else 0
  }

  /** The entries of a batch that continue the numbering after `n` with types of the proxy; an entry
      that does not is passed over. */
  function Continuing(batch: Batch, n: nat, proxy: string): Batch {
    if batch == [] then []
    else
      var front, last := Continuing(batch[..|batch| - 1], n, proxy), batch[|batch| - 1];
      if n + |front| < U32_MAX && last.1 == n + |front| + 1 && BelongsToProxy(last.0, proxy) then front + [last] else front
  }

  /** At some entry there is no next id. */
  ghost predicate RunsOut(batch: Batch, n: nat, proxy: string) {
    exists i :: 0 <= i < |batch| && n + |Continuing(batch[..i], n, proxy)| == U32_MAX
  }

  lemma ContinuingExtends(batch: Batch, i: nat, n: nat, proxy: string)
    requires i < |batch|
    ensures var front, e := Continuing(batch[..i], n, proxy), batch[i];
      && Continuing(batch[..i + 1], n, proxy) ==
          (if n + |front| < U32_MAX && e.1 == n + |front| + 1 && BelongsToProxy(e.0, proxy) then front + [e] else front)
      && (RunsOut(batch[..i + 1], n, proxy) <==> RunsOut(batch[..i], n, proxy) || n + |front| == U32_MAX)
  {
    assert batch[..i + 1][..i] == batch[..i];
    if RunsOut(batch[..i + 1], n, proxy) {
      var j :| 0 <= j < i + 1 && n + |Continuing(batch[..i + 1][..j], n, proxy)| == U32_MAX;
      if j < i { assert batch[..i + 1][..j] == batch[..i][..j]; }
    }
    if RunsOut(batch[..i], n, proxy) {
      var j :| 0 <= j < i && n + |Continuing(batch[..i][..j], n, proxy)| == U32_MAX;
      assert batch[..i + 1][..j] == batch[..i][..j];
    }
  }

  /** They are new ids in order, and all of the batch exactly if it is acceptable. */
  lemma {:induction false} ContinuingIsNew(batch: Batch, n: nat, proxy: string)
    requires n <= U32_MAX
    ensures Consecutive(Continuing(batch, n, proxy), n) && n + |Continuing(batch, n, proxy)| <= U32_MAX
    ensures |Continuing(batch, n, proxy)| <= |batch| && (|Continuing(batch, n, proxy)| == |batch| ==> Continuing(batch, n, proxy) == batch)
    ensures Continuing(batch, n, proxy) == batch <==> Acceptable(batch, n, proxy)
    ensures Acceptable(batch, n, proxy) ==> !RunsOut(batch, n, proxy)
  {
    if batch != [] {
      var k := |batch| - 1;
      ContinuingIsNew(batch[..k], n, proxy);
      assert batch[..|batch|] == batch == batch[..k] + [batch[k]];
      AcceptableExtends(batch, k, n, proxy);
      if Acceptable(batch, n, proxy) {
        forall i | 0 <= i < |batch| ensures n + |Continuing(batch[..i], n, proxy)| != U32_MAX {
          if i < k { assert batch[..k][..i] == batch[..i]; }
        }
      }
    }
  }

  /** The calls added to the log offer back `batch` from its start, up to and including the first that
      is refused. */
  ghost predicate OfferedBack(log: seq<Call>, log': seq<Call>, r: nat, batch: Batch, refused: bool) {
    && log <= log' && |log'| - |log| <= |batch|
    && (forall k :: |log| <= k < |log'| ==>
          log'[k] == Call(r, batch[k - |log|].0, batch[k - |log|].1, log'[k].reply, true))
    && (forall k :: |log| <= k < |log'| - 1 ==> !log'[k].reply.Failed?)
    && (refused <==> |log| < |log'| && log'[|log'| - 1].reply.Failed?)
    && (!refused ==> |log'| - |log| == |batch|)
  }

  /** What a rejected batch does: with the module in place, everything that could have been accepted is
      offered back; without it nothing is, and that is an error of its own. */
  ghost predicate Rejects(b: Binding, proxy: string, r: nat, n: nat, batch: Batch, log: seq<Call>, log': seq<Call>, error: BindingError) {
    var valid := Continuing(batch, n, proxy);
    var reason := if RunsOut(batch, n, proxy) then IdSpaceExhausted else InvalidHandle;
    if b.attached then
      && OfferedBack(log, log', r, valid, error == CompensationReleaseFailed)
      && (error == CompensationReleaseFailed || error == reason)
    else log' == log && error == (if valid != [] then InvalidHandle else reason)
  }

  /** Goes through a batch: which handles could be accepted, and whether all can. */
  method CheckBatch(handles: set<Handle>, b: BindingId, proxy: string, batch: Batch, start: Option<HandleId>, ghost n: nat)
    returns (next: Option<HandleId>, compensation: Batch, invalid: bool, exhausted: bool)
    requires start == NextHandle(n) && n <= U32_MAX
    requires forall h :: h in handles && h.binding == b ==> h.id <= n
    ensures compensation == Continuing(batch, n, proxy) && next == NextHandle(n + |compensation|)
    ensures exhausted <==> RunsOut(batch, n, proxy)
    ensures !invalid && !exhausted <==> Acceptable(batch, n, proxy)
  {
    next, compensation, invalid, exhausted := start, [], false, false;
    assert batch[..0] == [] && !RunsOut([], n, proxy);
    hide RunsOut, Continuing, Acceptable, BelongsToProxy;
    for i := 0 to |batch|
      invariant compensation == Continuing(batch[..i], n, proxy) && n + |compensation| <= U32_MAX && next == NextHandle(n + |compensation|)
      invariant exhausted <==> RunsOut(batch[..i], n, proxy)
      invariant |compensation| <= i && (!invalid && !exhausted <==> |compensation| == i)
    {
      ContinuingExtends(batch, i, n, proxy);
      var (typeId, id) := batch[i];
      if next.None? {
        exhausted := true;
      } else if !BelongsToProxy(typeId, proxy) || id != next.value || Handle(b, typeId, id) in handles {
        invalid := true;
      } else {
        compensation := compensation + [(typeId, id)];
        next := if id < U32_MAX then Some(id + 1) else None;
      }
    }
    assert batch[..|batch|] == batch;
    ContinuingIsNew(batch, n, proxy);
  }

  lemma AcceptableExtends(batch: Batch, i: nat, n: nat, proxy: string)
    requires i < |batch|
    ensures Acceptable(batch[..i + 1], n, proxy) <==>
      Acceptable(batch[..i], n, proxy) && batch[i].1 == n + 1 + i && n + 1 + i <= U32_MAX && BelongsToProxy(batch[i].0, proxy)
  {}

  class Bindings {
    var modules: Modules
    var handles: set<Handle>
    const bindingIds: LocalIdManager
    ghost var ledger: Ledger

    ghost predicate Valid()
      reads this, bindingIds
    {
      TableValid(modules, handles, bindingIds.State(), ledger)
    }

    constructor ()
      ensures Valid() && modules == map[] && handles == {} && ledger == Ledger(map[], [], [], {}) && fresh(bindingIds)
      ensures bindingIds.State() == IdState(0, Some(0), [], {})
    {
      bindingIds := new LocalIdManager(0);
      modules, handles := map[], {};
      ledger := Ledger(map[], [], [], {});
      new;
      assert BindingIds(modules) == {};
    }

    method FindBinding(b: BindingId) returns (proxy: Option<string>)
      ensures proxy.Some? ==> proxy.value in modules && modules[proxy.value].id == b
      ensures proxy.None? ==> forall p :: p in modules ==> modules[p].id != b
    {
      var rest := modules.Keys;
      while rest != {}
        invariant rest <= modules.Keys
        invariant forall p :: p in modules && p !in rest ==> modules[p].id != b
        decreases rest
      {
        var p :| p in rest;
        if modules[p].id == b {
          return Some(p);
        }
        rest := rest - {p};
      }
      return None;
    }

    method RegisterModule(proxy: string) returns (result: Result<BindingId, BindingError>)
      requires Valid()
      modifies this, bindingIds
      ensures Valid()
      ensures result.Ok? || result == Err(DuplicateProxyModule) || result == Err(IdSpaceExhausted)
      ensures result == Err(DuplicateProxyModule) <==> proxy in old(modules)
      ensures result == Err(IdSpaceExhausted) <==> proxy !in old(modules) && Exhausted(old(bindingIds.State()))
      ensures result.Err? ==> modules == old(modules) && handles == old(handles) && ledger == old(ledger)
      ensures result.Ok? ==>
        && modules == old(modules)[proxy := Binding(result.value, Some(1), true)]
        && handles == old(handles) && result.value !in old(ledger).current
        && ledger == WithRegistration(old(ledger), result.value)
        && (bindingIds.State(), Some(result.value)) == Allocated(old(bindingIds.State()))
    {
      hide IdsValid, BindingsDistinct, NumberedInOrder, HandlesAccepted, Conserved, ReleasedOnce, BindingIds, Allocated, Exhausted;
      if proxy in modules {
        return Err(DuplicateProxyModule);
      }
      ghost var ids := bindingIds.State();
      AllocatedIsNew(ids);
      var b := bindingIds.TryAllocate();
      if b.None? {
        NoneAllocated(ids);
        return Err(IdSpaceExhausted);
      }
      NewIsNotCurrent(modules, ledger, b.value);
      BindingRegistered(modules, handles, ids, ledger, proxy, b.value, bindingIds.State());
      modules := modules[proxy := Binding(b.value, Some(1), true)];
      ledger := WithRegistration(ledger, b.value);
      return Ok(b.value);
    }

    method RemoveBinding(proxy: string) returns (result: Result<(), BindingError>)
      requires Valid()
      modifies this, bindingIds
      ensures Valid() && handles == old(handles)
      ensures result.Err? <==> proxy in old(modules) && exists h :: h in handles && h.binding == old(modules)[proxy].id
      ensures result.Ok? ==> modules == old(modules) - {proxy}
      ensures result.Ok? && proxy in old(modules) ==>
        && ledger == WithoutBinding(old(ledger), old(modules)[proxy].id)
        && bindingIds.State() == Freed(old(bindingIds.State()), old(modules)[proxy].id)
      ensures result.Err? ==> modules == old(modules)
      ensures result.Err? || proxy !in old(modules) ==> ledger == old(ledger)
    {
      hide IdsValid, BindingsDistinct, NumberedInOrder, HandlesAccepted, Conserved, ReleasedOnce, BindingIds;
      if proxy !in modules {
        return Ok(());
      }
      var b := modules[proxy].id;
      if exists h :: h in handles && h.binding == b {
        return Err(HandlesStillActive);
      }
      ghost var ids := bindingIds.State();
      FreedKeeps(ids, b);
      bindingIds.Free(b);
      BindingRemoved(modules, handles, ids, ledger, proxy, bindingIds.State());
      ledger := WithoutBinding(ledger, b);
      modules := modules - {proxy};
      return Ok(());
    }

    method TakeModule(proxy: string) returns (taken: bool)
      requires Valid()
      modifies this`modules
      ensures Valid() && (taken <==> proxy in old(modules) && old(modules)[proxy].attached)
      ensures modules == if taken then old(modules)[proxy := old(modules)[proxy].(attached := false)] else old(modules)
    {
      hide IdsValid, BindingsDistinct, NumberedInOrder, HandlesAccepted, Conserved, ReleasedOnce, BindingIds, TableValid;
      taken := proxy in modules && modules[proxy].attached;
      if taken {
        AttachmentIsFree(modules, handles, bindingIds.State(), ledger, proxy, false);
        modules := modules[proxy := modules[proxy].(attached := false)];
      }
    }

    method RestoreModule(proxy: string) returns (result: Result<(), BindingError>)
      requires Valid()
      modifies this`modules
      ensures Valid() && (result.Ok? <==> proxy in old(modules) && !old(modules)[proxy].attached)
      ensures modules == if result.Ok? then old(modules)[proxy := old(modules)[proxy].(attached := true)] else old(modules)
    {
      hide IdsValid, BindingsDistinct, NumberedInOrder, HandlesAccepted, Conserved, ReleasedOnce, BindingIds, TableValid;
      if proxy !in modules {
        return Err(InvalidHandle);
      }
      if modules[proxy].attached {
        return Err(DuplicateProxyModule);
      }
      AttachmentIsFree(modules, handles, bindingIds.State(), ledger, proxy, true);
      modules := modules[proxy := modules[proxy].(attached := true)];
      return Ok(());
    }

    /** Asks the adapter to release a handle; its answer is arbitrary. */
    method CallRelease(ghost r: nat, typeId: HeapObjects.OpaqueTypeId, id: HandleId, ghost compensating: bool) returns (reply: Reply)
      modifies this`ledger
      ensures ledger == old(ledger).(log := old(ledger).log + [Call(r, typeId, id, reply, compensating)])
    {
      reply := *;
      ledger := ledger.(log := ledger.log + [Call(r, typeId, id, reply, compensating)]);
    }

    /** Offers back the handles of a rejected batch, until one is refused. */
    method Compensate(attached: bool, ghost r: nat, compensation: Batch) returns (failed: Option<BindingError>)
      requires Valid()
      modifies this`ledger
      ensures Valid() && ledger == old(ledger).(log := ledger.log)
      ensures attached ==>
        && OfferedBack(old(ledger).log, ledger.log, r, compensation, failed.Some?)
        && (failed.Some? ==> failed == Some(CompensationReleaseFailed))
      ensures !attached ==> ledger == old(ledger) && failed == (if compensation == [] then None else Some(InvalidHandle))
    {
      hide IdsValid, BindingsDistinct, NumberedInOrder, HandlesAccepted, Conserved, ReleasedOnce, BindingIds;
      for i := 0 to |compensation|
        invariant Valid() && ledger == old(ledger).(log := ledger.log)
        invariant OfferedBack(old(ledger).log, ledger.log, r, compensation[..i], false) && (i > 0 ==> attached)
      {
        if !attached {
          return Some(InvalidHandle);
        }
        ghost var before := ledger;
        var reply := CallRelease(r, compensation[i].0, compensation[i].1, true);
        CompensatingCall(modules, handles, bindingIds.State(), before, Call(r, compensation[i].0, compensation[i].1, reply, true));
        if reply.Failed? {
          return Some(CompensationReleaseFailed);
        }
      }
      assert compensation[..|compensation|] == compensation;
      return None;
    }

    /** Accepts a batch whole or not at all: it is accepted exactly if it continues the numbering with
        types of the binding's proxy. A rejected batch changes neither the table nor the next id, and
        what of it could have been accepted is offered back to the adapter. */
    method RegisterHandles(b: BindingId, batch: Batch) returns (result: Result<(), BindingError>)
      requires Valid()
      modifies this
      ensures Valid() && bindingIds.State() == old(bindingIds.State())
      ensures result.Ok? <==> exists p :: p in old(modules) && old(modules)[p].id == b && Acceptable(batch, Count(old(ledger), b), p)
      ensures result.Ok? ==>
        && handles == old(handles) + BatchHandles(b, batch)
        && b in old(ledger).current && old(ledger).current[b] < |old(ledger).accepted|
        && ledger == WithBatch(old(ledger), old(ledger).current[b], batch)
        && modules.Keys == old(modules).Keys
        && forall p :: p in modules ==> modules[p] == old(modules)[p].(nextHandle := modules[p].nextHandle)
      ensures result.Err? ==> modules == old(modules) && handles == old(handles) && ledger == old(ledger).(log := ledger.log)
      ensures (forall p :: p in old(modules) ==> old(modules)[p].id != b) ==> result == Err(InvalidHandle) && ledger == old(ledger)
      ensures forall p :: p in old(modules) && old(modules)[p].id == b && result.Err? ==>
        && b in old(ledger).current
        && Rejects(old(modules)[p], p, old(ledger).current[b], Count(old(ledger), b), batch, old(ledger).log, ledger.log, result.error)
    {
      hide IdsValid, BindingsDistinct, NumberedInOrder, HandlesAccepted, Conserved, ReleasedOnce, BindingIds, BatchHandles, Acceptable, OfferedBack, RunsOut, Continuing;
      var proxy := FindBinding(b);
      if proxy.None? {
        return Err(InvalidHandle);
      }
      var binding := modules[proxy.value];
      ghost var n := Count(ledger, b);
      BindingFacts(modules, handles, bindingIds.State(), ledger, proxy.value);
      OnlyProxy(modules, ledger, proxy.value);
      var next, compensation, invalid, exhausted := CheckBatch(handles, b, proxy.value, batch, binding.nextHandle, n);
      ContinuingIsNew(batch, n, proxy.value);
      if invalid || exhausted {
        var failed := Compensate(binding.attached, ledger.current[b], compensation);
        if failed.Some? {
          return Err(failed.value);
        }
        return Err(if exhausted then IdSpaceExhausted else InvalidHandle);
      }
      BatchAccepted(modules, handles, bindingIds.State(), ledger, proxy.value, batch);
      modules := modules[proxy.value := binding.(nextHandle := next)];
      handles := handles + BatchHandles(b, batch);
      ledger := WithBatch(ledger, ledger.current[b], batch);
      return Ok(());
    }

    /** Releases a handle of the table through its adapter; a failed release keeps it in the table. */
    method ReleaseHandle(h: Handle) returns (reply: Reply)
      requires Valid()
      modifies this`handles, this`ledger
      ensures Valid() && ledger == old(ledger).(log := ledger.log)
      ensures !Callable(old(modules), old(handles), h) ==> reply == AlreadyReleased && handles == old(handles) && ledger == old(ledger)
      ensures Callable(old(modules), old(handles), h) ==>
        && h.binding in ledger.current
        && ledger.log == old(ledger).log + [Call(ledger.current[h.binding], h.typeId, h.id, reply, false)]
        && handles == if reply.Failed? then old(handles) else old(handles) - {h}
    {
      hide IdsValid, BindingsDistinct, NumberedInOrder, HandlesAccepted, Conserved, ReleasedOnce, BindingIds;
      var proxy := FindBinding(h.binding);
      if proxy.None? || h !in handles {
        return AlreadyReleased;
      }
      OnlyProxy(modules, ledger, proxy.value);
      if !modules[proxy.value].attached {
        return AlreadyReleased;
      }
      BindingFacts(modules, handles, bindingIds.State(), ledger, proxy.value);
      ghost var before := ledger;
      reply := CallRelease(ledger.current[h.binding], h.typeId, h.id, false);
      ReleaseCalled(modules, handles, bindingIds.State(), before, h, Call(before.current[h.binding], h.typeId, h.id, reply, false));
      if !reply.Failed? {
        handles := handles - {h};
      }
    }

    /** First step of a release: the handle leaves the table, and its adapter module is taken along if
        it is there. */
    method TakeForRelease(h: Handle) returns (flight: Option<Flight>)
      requires Valid()
      modifies this
      ensures Valid() && (flight.Some? <==> h in old(handles))
      ensures flight.None? ==> modules == old(modules) && handles == old(handles) && ledger == old(ledger)
      ensures flight.Some? ==>
        && flight.value.handle == h && handles == old(handles) - {h}
        && flight.value.proxy in old(modules) && old(modules)[flight.value.proxy].id == h.binding
        && flight.value.carried == old(modules)[flight.value.proxy].attached
        && modules == old(modules)[flight.value.proxy := old(modules)[flight.value.proxy].(attached := false)]
        && h.binding in old(ledger).current && (old(ledger).current[h.binding], h.id) !in old(ledger).out
        && ledger == Departed(old(ledger), old(ledger).current[h.binding], h.id)
        && Issued(ledger, flight.value, ledger.current[h.binding])
    {
      hide IdsValid, BindingsDistinct, NumberedInOrder, HandlesAccepted, Conserved, ReleasedOnce, BindingIds;
      var proxy := FindBinding(h.binding);
      HandleIsBound(modules, handles, bindingIds.State(), ledger, h);
      if proxy.None? || h !in handles {
        return None;
      }
      HandleDeparts(modules, handles, bindingIds.State(), ledger, h);
      ledger := Departed(ledger, ledger.current[h.binding], h.id);
      handles := handles - {h};
      var carried := TakeModule(proxy.value);
      return Some(Flight(proxy.value, h, carried));
    }

    /** Second step: the adapter is asked, if it was taken along, and goes back to its place; a handle
        it did not release goes back into the table under the same binding id. The table stays
        consistent exactly if the adapter was there, and a handle put back still belongs to the
        registration it came from. */
    method FinishRelease(f: Flight, ghost r: nat) returns (reply: Reply)
      requires Valid() && Issued(ledger, f, r)
      modifies this
      ensures !f.carried ==> reply == AlreadyReleased
      ensures handles == HandlesAfter(old(handles), f, reply) && ledger == Landed(old(ledger), f, r, reply)
      ensures modules == if f.carried && f.proxy in old(modules) then old(modules)[f.proxy := old(modules)[f.proxy].(attached := true)] else old(modules)
      ensures Valid() <==> LandsWell(old(ledger).current, f, r, reply)
      ensures !Valid() ==> Lost(handles, ledger, r, f.handle.id)
    {
      hide IdsValid, BindingsDistinct, NumberedInOrder, HandlesAccepted, Conserved, ReleasedOnce, BindingIds, TableValid, Lost, Issued, Landed;
      if f.carried {
        // The adapter's answer is arbitrary.
        reply := *;
        var restored := RestoreModule(f.proxy);
      } else {
        reply := AlreadyReleased;
      }
      FlightLands(modules, handles, bindingIds.State(), ledger, f, r, reply);
      if reply.Failed? {
        handles := handles + {f.handle};
      }
      ledger := Landed(ledger, f, r, reply);
    }

    /** Releases every handle of the table. What remains is what failed, and what belongs to a module
        that is taken out. */
    method Close() returns (released: nat, alreadyReleased: nat, failures: seq<Handle>)
      requires Valid()
      modifies this`handles, this`ledger
      ensures Valid() && ledger == old(ledger).(log := ledger.log)
      ensures released + alreadyReleased + |failures| == |old(handles)|
      ensures old(ledger).log <= ledger.log && Distinct(failures)
      ensures released == Answered(ledger.log, |old(ledger).log|, Released) && |failures| == Answered(ledger.log, |old(ledger).log|, Failed)
      ensures forall h :: h in handles <==> h in old(handles) && (h in failures || !Callable(modules, old(handles), h))
      ensures forall h :: h in failures ==> h in old(handles)
      ensures (forall p :: p in modules ==> modules[p].attached) ==> forall h :: h in handles <==> h in failures
    {
      hide IdsValid, BindingsDistinct, NumberedInOrder, HandlesAccepted, Conserved, ReleasedOnce, BindingIds, TableValid, Callable;
      AttachedAreCallable(modules, handles, bindingIds.State(), ledger);
      released, alreadyReleased, failures := 0, 0, [];
      var rest := handles;
      while rest != {}
        invariant Valid() && ledger == old(ledger).(log := ledger.log) && rest <= old(handles)
        invariant released + alreadyReleased + |failures| + |rest| == |old(handles)|
        invariant old(ledger).log <= ledger.log && Distinct(failures)
        invariant released == Answered(ledger.log, |old(ledger).log|, Released) && |failures| == Answered(ledger.log, |old(ledger).log|, Failed)
        invariant forall h :: h in failures ==> h in old(handles) && h !in rest
        invariant forall h :: h in handles <==> h in old(handles) && (h in rest || h in failures || !Callable(modules, old(handles), h))
        decreases rest
      {
        var h :| h in rest;
        CallableSame(modules, old(handles), handles, h);
        ghost var before := ledger.log;
        var reply := ReleaseHandle(h);
        if ledger.log != before { OneAnswerMore(before, ledger.log[|before|], |old(ledger).log|); }
        rest := rest - {h};
        match reply
        case Released => released := released + 1;
        case AlreadyReleased => alreadyReleased := alreadyReleased + 1;
        case Failed => failures := failures + [h];
      }
    }
  }

  /** How many of the calls from the given one on were answered so. */
  ghost function Answered(log: seq<Call>, from: nat, reply: Reply): nat {
    if |log| <= from then 0 else Answered(log[..|log| - 1], from, reply) + if log[|log| - 1].reply == reply then 1 else 0
  }

  lemma OneAnswerMore(log: seq<Call>, c: Call, from: nat)
    requires from <= |log|
    ensures forall reply :: Answered(log + [c], from, reply) == Answered(log, from, reply) + if c.reply == reply then 1 else 0
  {
    assert (log + [c])[..|log|] == log;
  }

  /** The handle is in the table and its adapter module is in place. */
  ghost predicate Callable(modules: Modules, handles: set<Handle>, h: Handle) {
    h in handles && exists p :: p in modules && modules[p].id == h.binding && modules[p].attached
  }

  lemma AttachedAreCallable(modules: Modules, handles: set<Handle>, ids: IdState, l: Ledger)
    requires TableValid(modules, handles, ids, l)
    ensures (forall p :: p in modules ==> modules[p].attached) ==> forall h :: h in handles ==> Callable(modules, handles, h)
  {}

  lemma CallableSame(modules: Modules, handles: set<Handle>, handles': set<Handle>, h: Handle)
    requires h in handles && h in handles'
    ensures Callable(modules, handles, h) <==> Callable(modules, handles', h)
  {}

  lemma HandleIsBound(modules: Modules, handles: set<Handle>, ids: IdState, l: Ledger, h: Handle)
    requires TableValid(modules, handles, ids, l)
    ensures h in handles ==> h.binding in l.current && exists p :: p in modules && modules[p].id == h.binding
  {}

  lemma OnlyProxy(modules: Modules, l: Ledger, proxy: string)
    requires BindingsDistinct(modules, l) && proxy in modules
    ensures forall p :: p in modules && modules[p].id == modules[proxy].id ==> p == proxy
  {}

  lemma BindingFacts(modules: Modules, handles: set<Handle>, ids: IdState, l: Ledger, proxy: string)
    requires TableValid(modules, handles, ids, l) && proxy in modules
    ensures var b := modules[proxy].id;
      && b in l.current && l.current[b] < |l.accepted|
      && Count(l, b) == |l.accepted[l.current[b]]| <= U32_MAX
      && modules[proxy].nextHandle == NextHandle(Count(l, b))
      && forall h :: h in handles && h.binding == b ==> h.id <= Count(l, b)
  {}

  lemma CompensatingCall(modules: Modules, handles: set<Handle>, ids: IdState, l: Ledger, c: Call)
    requires TableValid(modules, handles, ids, l) && c.compensating
    ensures TableValid(modules, handles, ids, l.(log := l.log + [c]))
  {
    hide IdsValid, Conserved, ReleasedOnce;
    IdleCall(handles, l, c);
  }

  lemma ReleaseCalled(modules: Modules, handles: set<Handle>, ids: IdState, l: Ledger, h: Handle, c: Call)
    requires TableValid(modules, handles, ids, l) && h in handles && h.binding in l.current
    requires !c.compensating && c.registration == l.current[h.binding] && c.id == h.id
    ensures TableValid(modules, if c.reply.Failed? then handles else handles - {h}, ids, l.(log := l.log + [c]))
  {
    hide IdsValid, Conserved, ReleasedOnce;
    if c.reply.Failed? {
      IdleCall(handles, l, c);
    } else {
      ReleasedHandle(modules, handles, l, h, c);
    }
  }

  /** Taking a module out or putting it back touches nothing the table is about. */
  lemma AttachmentIsFree(modules: Modules, handles: set<Handle>, ids: IdState, l: Ledger, proxy: string, attached: bool)
    requires TableValid(modules, handles, ids, l) && proxy in modules
    ensures TableValid(modules[proxy := modules[proxy].(attached := attached)], handles, ids, l)
  {
    hide IdsValid, Conserved, ReleasedOnce, HandlesAccepted, BindingIds;
    var modules' := modules[proxy := modules[proxy].(attached := attached)];
    SameIds(modules, modules');
    forall p | p in modules' ensures ExpectsNext(modules'[p], l) { assert ExpectsNext(modules[p], l); }
  }
}
