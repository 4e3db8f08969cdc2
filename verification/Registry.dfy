/** Thread control blocks: identity, keys, exit tombstones. */
module Registry {
  import opened Machine

  type ThreadId = nat

  const MAX_EXITED_TOMBSTONES: nat := 1024

  /** The state of a virtual machine thread, passed from hand to hand and never copied. */
  datatype VmThread = VmThread(tag: nat)

  datatype ThreadState = Created | Running | Exited(result: Result<int, string>)

  datatype Tcb = Tcb(state: ThreadState, key: Option<string>, vm: Option<VmThread>)

  type Tcbs = map<ThreadId, Tcb>

  datatype RegistryState = RegistryState(tcbs: Tcbs, keys: map<string, ThreadId>, exitedOrder: seq<ThreadId>, activeCount: nat)

  // ----- the invariant -----

  ghost function Live(tcbs: Tcbs): set<ThreadId> {
    set id | id in tcbs && !tcbs[id].state.Exited?
  }

  ghost predicate KeysInverse(tcbs: Tcbs, keys: map<string, ThreadId>) {
    && (forall k :: k in keys ==> keys[k] in tcbs && tcbs[keys[k]].key == Some(k))
    && (forall id :: id in tcbs && tcbs[id].key.Some? ==> tcbs[id].key.value in keys && keys[tcbs[id].key.value] == id)
  }

  ghost predicate Tombstones(tcbs: Tcbs, order: seq<ThreadId>) {
    Distinct(order) && forall id :: id in order <==> id in tcbs && tcbs[id].state.Exited?
  }

  /** The key map is inverse to the blocks' keys, the count is that of the live blocks, and the
      exit order lists each exited block once. */
  ghost predicate Tracked(s: RegistryState) {
    && KeysInverse(s.tcbs, s.keys)
    && s.activeCount == |Live(s.tcbs)|
    && Tombstones(s.tcbs, s.exitedOrder)
  }

  ghost predicate RegistryValid(s: RegistryState) {
    Tracked(s) && |s.exitedOrder| <= MAX_EXITED_TOMBSTONES
  }

  // ----- the operations on values -----

  function Parked(s: RegistryState, id: ThreadId, thread: VmThread, key: Option<string>): RegistryState {
    RegistryState(
      s.tcbs[id := Tcb(Created, key, Some(thread))],
      if key.Some? then s.keys[key.value := id] else s.keys,
      s.exitedOrder, s.activeCount + 1)
  }

  function WithVm(s: RegistryState, id: ThreadId, vm: Option<VmThread>): RegistryState {
    if id in s.tcbs then s.(tcbs := s.tcbs[id := s.tcbs[id].(vm := vm)]) else s
  }

  function Begun(s: RegistryState, id: ThreadId): RegistryState {
    if id in s.tcbs && !s.tcbs[id].state.Exited? then s.(tcbs := s.tcbs[id := s.tcbs[id].(state := Running)]) else s
  }

  function WithoutKey(keys: map<string, ThreadId>, key: Option<string>): map<string, ThreadId> {
    if key.Some? then keys - {key.value} else keys
  }

  /** Takes a block out, with its key. */
  function Dropped(s: RegistryState, id: ThreadId): RegistryState {
    if id in s.tcbs then s.(tcbs := s.tcbs - {id}, keys := WithoutKey(s.keys, s.tcbs[id].key)) else s
  }

  /** Oldest tombstones go until the bound is met. */
  function Expire(s: RegistryState): RegistryState
    decreases |s.exitedOrder|
  {
    if |s.exitedOrder| > MAX_EXITED_TOMBSTONES then
      Expire(Dropped(s, s.exitedOrder[0]).(exitedOrder := s.exitedOrder[1..]))
    else s
  }

  function Buried(s: RegistryState, id: ThreadId, result: Result<int, string>): RegistryState
    requires id in s.tcbs && s.activeCount > 0
  {
    s.(tcbs := s.tcbs[id := s.tcbs[id].(state := Exited(result), vm := None)],
       activeCount := s.activeCount - 1,
       exitedOrder := s.exitedOrder + [id])
  }

  function Filter(order: seq<ThreadId>, id: ThreadId): seq<ThreadId> {
    if order == [] then [] else (if order[0] == id then [] else [order[0]]) + Filter(order[1..], id)
  }

  function Cancelled(s: RegistryState, id: ThreadId): RegistryState
    requires id in s.tcbs && !s.tcbs[id].state.Exited? ==> s.activeCount > 0
  {
    if id in s.tcbs then
      Dropped(s, id).(exitedOrder := Filter(s.exitedOrder, id),
        activeCount := if s.tcbs[id].state.Exited? then s.activeCount else s.activeCount - 1)
    else s.(exitedOrder := Filter(s.exitedOrder, id))
  }

  // ----- what they keep -----

  lemma ParkedKeys(s: RegistryState, id: ThreadId, thread: VmThread, key: Option<string>)
    requires KeysInverse(s.tcbs, s.keys) && id !in s.tcbs && (key.Some? ==> key.value !in s.keys)
    ensures KeysInverse(Parked(s, id, thread, key).tcbs, Parked(s, id, thread, key).keys)
  {}

  lemma ParkedKeeps(s: RegistryState, id: ThreadId, thread: VmThread, key: Option<string>)
    requires RegistryValid(s) && id !in s.tcbs && (key.Some? ==> key.value !in s.keys)
    ensures RegistryValid(Parked(s, id, thread, key))
  {
    hide KeysInverse;
    ParkedKeys(s, id, thread, key);
    assert Live(Parked(s, id, thread, key).tcbs) == Live(s.tcbs) + {id};
  }

  /** Registering over an existing block counts it twice, or leaves a created block among the tombstones. */
  lemma ParkedTwice(s: RegistryState, id: ThreadId, thread: VmThread, key: Option<string>)
    requires RegistryValid(s) && id in s.tcbs
    ensures !RegistryValid(Parked(s, id, thread, key))
  {
    var s' := Parked(s, id, thread, key);
    if !s.tcbs[id].state.Exited? {
      assert Live(s'.tcbs) == Live(s.tcbs);
    } else {
      assert id in s'.exitedOrder && !s'.tcbs[id].state.Exited?;
    }
  }

  /** Changing no state and no key changes nothing the invariant speaks of. */
  lemma SameShape(s: RegistryState, tcbs: Tcbs)
    requires Tracked(s) && tcbs.Keys == s.tcbs.Keys
    requires forall id :: id in tcbs ==> tcbs[id].key == s.tcbs[id].key && (tcbs[id].state.Exited? <==> s.tcbs[id].state.Exited?)
    ensures Tracked(s.(tcbs := tcbs))
  {
    assert forall id :: id in tcbs <==> id in s.tcbs;
    assert Live(tcbs) == Live(s.tcbs);
  }

  lemma WithVmKeeps(s: RegistryState, id: ThreadId, vm: Option<VmThread>)
    requires RegistryValid(s)
    ensures RegistryValid(WithVm(s, id, vm))
  {
    SameShape(s, WithVm(s, id, vm).tcbs);
  }

  lemma BegunKeeps(s: RegistryState, id: ThreadId)
    requires RegistryValid(s)
    ensures RegistryValid(Begun(s, id))
  {
    SameShape(s, Begun(s, id).tcbs);
  }

  lemma LiveIsCounted(s: RegistryState, id: ThreadId)
    requires Tracked(s) && id in s.tcbs && !s.tcbs[id].state.Exited?
    ensures s.activeCount > 0
  {
    assert id in Live(s.tcbs);
  }

  lemma BuriedKeeps(s: RegistryState, id: ThreadId, result: Result<int, string>)
    requires Tracked(s) && id in s.tcbs && !s.tcbs[id].state.Exited? && s.activeCount > 0
    ensures Tracked(Buried(s, id, result))
  {
    var s' := Buried(s, id, result);
    assert Live(s'.tcbs) == Live(s.tcbs) - {id};
    assert id in Live(s.tcbs);
    assert forall x :: x in s'.exitedOrder <==> x in s.exitedOrder || x == id;
  }

  lemma DroppedKeys(s: RegistryState, id: ThreadId)
    requires KeysInverse(s.tcbs, s.keys)
    ensures KeysInverse(Dropped(s, id).tcbs, Dropped(s, id).keys)
  {}

  lemma OldestDropped(s: RegistryState)
    requires Tracked(s) && s.exitedOrder != []
    ensures Tracked(Dropped(s, s.exitedOrder[0]).(exitedOrder := s.exitedOrder[1..]))
  {
    var id := s.exitedOrder[0];
    var s' := Dropped(s, id).(exitedOrder := s.exitedOrder[1..]);
    DroppedKeys(s, id);
    assert s.exitedOrder == [id] + s'.exitedOrder;
    assert Live(s'.tcbs) == Live(s.tcbs);
    assert forall x :: x in s.exitedOrder <==> x == id || x in s'.exitedOrder;
  }

  lemma {:induction false} FilterKeeps(order: seq<ThreadId>, id: ThreadId)
    requires Distinct(order)
    ensures Distinct(Filter(order, id)) && |Filter(order, id)| <= |order|
    ensures forall x :: x in Filter(order, id) <==> x in order && x != id
  {
    if order != [] {
      FilterKeeps(order[1..], id);
      var rest := Filter(order[1..], id);
      assert forall j :: 0 <= j < |rest| ==> rest[j] in rest;
      assert order[0] !in order[1..];
    }
  }

  lemma CancelledKeeps(s: RegistryState, id: ThreadId)
    requires RegistryValid(s)
    ensures id in s.tcbs && !s.tcbs[id].state.Exited? ==> s.activeCount > 0
    ensures RegistryValid(Cancelled(s, id))
  {
    if id in s.tcbs && !s.tcbs[id].state.Exited? { LiveIsCounted(s, id); }
    var s' := Cancelled(s, id);
    FilterKeeps(s.exitedOrder, id);
    DroppedKeys(s, id);
    assert Live(s'.tcbs) == Live(s.tcbs) - {id};
  }

  /** Expiry removes only exited blocks and leaves the others as they are. */
  lemma {:induction false} ExpireOnlyExited(s: RegistryState)
    requires Tracked(s)
    ensures forall id :: id in Expire(s).tcbs ==> id in s.tcbs && Expire(s).tcbs[id] == s.tcbs[id]
    ensures forall id :: id in s.tcbs && !s.tcbs[id].state.Exited? ==> id in Expire(s).tcbs
    decreases |s.exitedOrder|
  {
    if |s.exitedOrder| > MAX_EXITED_TOMBSTONES {
      OldestDropped(s);
      assert s.exitedOrder[0] in s.exitedOrder;
      ExpireOnlyExited(Dropped(s, s.exitedOrder[0]).(exitedOrder := s.exitedOrder[1..]));
    }
  }

  /** The last entries of the exit order, as many as are kept. */
  function Newest(order: seq<ThreadId>): seq<ThreadId> {
    if |order| <= MAX_EXITED_TOMBSTONES then order else order[|order| - MAX_EXITED_TOMBSTONES..]
  }

  /** Expiry keeps the newest tombstones, and no block of an older one. */
  lemma {:induction false} ExpireKeepsNewest(s: RegistryState)
    requires Tracked(s)
    ensures Tracked(Expire(s)) && Expire(s).exitedOrder == Newest(s.exitedOrder)
    decreases |s.exitedOrder|
  {
    if |s.exitedOrder| > MAX_EXITED_TOMBSTONES {
      OldestDropped(s);
      ExpireKeepsNewest(Dropped(s, s.exitedOrder[0]).(exitedOrder := s.exitedOrder[1..]));
    }
  }

  /** What an exit leaves: the thread as the newest tombstone with its result, and of the older ones
      those within the bound. */
  lemma ExitMeans(s: RegistryState, id: ThreadId, result: Result<int, string>)
    requires RegistryValid(s) && id in s.tcbs && !s.tcbs[id].state.Exited? && s.activeCount > 0
    ensures var s' := Expire(Buried(s, id, result));
      && id in s'.tcbs && s'.tcbs[id] == Tcb(Exited(result), s.tcbs[id].key, None)
      && s'.exitedOrder == Newest(s.exitedOrder + [id])
      && forall x :: x in s.tcbs ==> (x in s'.tcbs <==> !s.tcbs[x].state.Exited? || x in s'.exitedOrder)
  {
    var buried := Buried(s, id, result);
    BuriedKeeps(s, id, result);
    ExpireOnlyExited(buried);
    ExpireKeepsNewest(buried);
    var order := s.exitedOrder + [id];
    assert Newest(order)[|Newest(order)| - 1] == id;
    hide Expire;
    assert id in Expire(buried).exitedOrder;
  }

  class ThreadRegistry {
    var tcbs: Tcbs
    var keys: map<string, ThreadId>
    var exitedOrder: seq<ThreadId>
    var activeCount: nat

    function State(): RegistryState
      reads this
    {
      RegistryState(tcbs, keys, exitedOrder, activeCount)
    }

    ghost predicate Valid()
      reads this
    {
      RegistryValid(State())
    }

    constructor ()
      ensures Valid() && State() == RegistryState(map[], map[], [], 0)
    {
      tcbs, keys, exitedOrder, activeCount := map[], map[], [], 0;
    }

    predicate KeyIsAvailable(key: Option<string>)
      reads this
    {
      key.None? || key.value !in keys
    }

    method Register(id: ThreadId, thread: VmThread, key: Option<string>) returns (ok: bool)
      requires Valid()
      modifies this
      ensures ok <==> old(KeyIsAvailable(key))
      ensures Valid() <==> !ok || id !in old(tcbs)
      ensures State() == if ok then Parked(old(State()), id, thread, key) else old(State())
      ensures ok ==> tcbs == old(tcbs)[id := Tcb(Created, key, Some(thread))] && keys == if key.Some? then old(keys)[key.value := id] else old(keys)
    {
      if key.Some? && key.value in keys {
        return false;
      }
      if id in tcbs {
        ParkedTwice(State(), id, thread, key);
      } else {
        ParkedKeeps(State(), id, thread, key);
      }
      if key.Some? {
        keys := keys[key.value := id];
      }
      tcbs := tcbs[id := Tcb(Created, key, Some(thread))];
      activeCount := activeCount + 1;
      return true;
    }

    method Take(id: ThreadId) returns (thread: Option<VmThread>)
      requires Valid()
      modifies this
      ensures Valid() && State() == WithVm(old(State()), id, None)
      ensures thread == if id in old(tcbs) then old(tcbs)[id].vm else None
      ensures tcbs == if id in old(tcbs) then old(tcbs)[id := old(tcbs)[id].(vm := None)] else old(tcbs)
    {
      WithVmKeeps(State(), id, None);
      if id !in tcbs {
        return None;
      }
      thread := tcbs[id].vm;
      tcbs := tcbs[id := tcbs[id].(vm := None)];
    }

    method RestoreVmState(id: ThreadId, thread: VmThread)
      requires Valid()
      modifies this
      ensures Valid() && State() == WithVm(old(State()), id, Some(thread))
      ensures tcbs == if id in old(tcbs) then old(tcbs)[id := old(tcbs)[id].(vm := Some(thread))] else old(tcbs)
    {
      WithVmKeeps(State(), id, Some(thread));
      if id in tcbs {
        tcbs := tcbs[id := tcbs[id].(vm := Some(thread))];
      }
    }

    method MarkRunning(id: ThreadId) returns (ok: bool)
      requires Valid()
      modifies this
      ensures Valid() && State() == Begun(old(State()), id)
      ensures ok <==> id in old(tcbs) && !old(tcbs)[id].state.Exited?
      ensures tcbs == if ok then old(tcbs)[id := old(tcbs)[id].(state := Running)] else old(tcbs)
    {
      BegunKeeps(State(), id);
      if id in tcbs && !tcbs[id].state.Exited? {
        tcbs := tcbs[id := tcbs[id].(state := Running)];
        return true;
      }
      return false;
    }

    method MarkExited(id: ThreadId, result: Result<int, string>) returns (ok: bool)
      requires Valid()
      modifies this
      ensures Valid()
      ensures ok <==> id in old(tcbs) && !old(tcbs)[id].state.Exited?
      ensures ok ==> old(activeCount) > 0 && State() == Expire(Buried(old(State()), id, result))
      ensures ok ==> id in tcbs && tcbs[id] == Tcb(Exited(result), old(tcbs)[id].key, None)
      ensures ok ==> exitedOrder == Newest(old(exitedOrder) + [id])
      ensures ok ==> forall x :: x in old(tcbs) ==> (x in tcbs <==> !old(tcbs)[x].state.Exited? || x in exitedOrder)
      ensures !ok ==> State() == old(State())
    {
      if id !in tcbs || tcbs[id].state.Exited? {
        return false;
      }
      LiveIsCounted(State(), id);
      BuriedKeeps(State(), id, result);
      ExitMeans(State(), id, result);
      tcbs := tcbs[id := tcbs[id].(state := Exited(result), vm := None)];
      activeCount := activeCount - 1;
      exitedOrder := exitedOrder + [id];
      ghost var buried := State();
      while |exitedOrder| > MAX_EXITED_TOMBSTONES
        invariant Tracked(State()) && Expire(State()) == Expire(buried)
        decreases |exitedOrder|
      {
        OldestDropped(State());
        var expired := exitedOrder[0];
        exitedOrder := exitedOrder[1..];
        if expired in tcbs {
          var key := tcbs[expired].key;
          tcbs := tcbs - {expired};
          if key.Some? {
            keys := keys - {key.value};
          }
        }
      }
      return true;
    }

    method Cancel(id: ThreadId) returns (removed: bool)
      requires Valid()
      modifies this
      ensures Valid() && (removed <==> id in old(tcbs))
      ensures id in old(tcbs) && !old(tcbs)[id].state.Exited? ==> old(activeCount) > 0
      ensures State() == Cancelled(old(State()), id)
      ensures tcbs == old(tcbs) - {id} && id !in exitedOrder
      ensures forall k :: k in keys <==> k in old(keys) && old(keys)[k] != id
    {
      CancelledKeeps(State(), id);
      exitedOrder := Filter(exitedOrder, id);
      if id !in tcbs {
        return false;
      }
      var tcb := tcbs[id];
      tcbs := tcbs - {id};
      if !tcb.state.Exited? {
        activeCount := activeCount - 1;
      }
      keys := WithoutKey(keys, tcb.key);
      return true;
    }
  }
}
