/** Identifier allocation with recycling. */
module IdManager {
  import opened Machine

  datatype IdState = IdState(start: nat, nextId: Option<nat>, freeList: seq<nat>, activeIds: set<nat>)

  /** First identifier never handed out; one past the 32-bit range once all have been. */
  function Frontier(s: IdState): nat {
    if s.nextId.Some? then s.nextId.value else U32_MAX + 1
  }

  /** The identifiers below the frontier are split between the active set and the free list. */
  ghost predicate IdsValid(s: IdState) {
    && s.start <= Frontier(s) <= U32_MAX + 1
    && (s.nextId.Some? ==> s.nextId.value <= U32_MAX)
    && Distinct(s.freeList)
    && (forall id :: id in s.activeIds ==> id !in s.freeList)
    && (forall id :: s.start <= id < Frontier(s) <==> id in s.activeIds || id in s.freeList)
  }

  /** Every identifier of the range is active. */
  ghost predicate Exhausted(s: IdState) {
    forall id :: s.start <= id <= U32_MAX ==> id in s.activeIds
  }

  function Allocated(s: IdState): (IdState, Option<nat>) {
    if s.freeList != [] then
      var id := s.freeList[|s.freeList| - 1];
      (s.(freeList := s.freeList[..|s.freeList| - 1], activeIds := s.activeIds + {id}), Some(id))
    else if s.nextId.Some? then
      var id := s.nextId.value;
      (s.(nextId := if id < U32_MAX then Some(id + 1) else None, activeIds := s.activeIds + {id}), Some(id))
    else (s, None)
  }

  function Freed(s: IdState, id: nat): IdState {
    if id in s.activeIds then s.(activeIds := s.activeIds - {id}, freeList := s.freeList + [id]) else s
  }

  /** Allocation hands out an inactive identifier of the range, and fails only if there is none. */
  lemma AllocatedIsNew(s: IdState)
    requires IdsValid(s)
    ensures var (s', id) := Allocated(s);
      && IdsValid(s') && s'.start == s.start
      && (id.None? <==> Exhausted(s))
      && (id.Some? ==> s.start <= id.value <= U32_MAX && id.value !in s.activeIds && s'.activeIds == s.activeIds + {id.value})
  {}

  /** Freeing an active identifier makes it available again; freeing any other changes nothing. */
  lemma FreedKeeps(s: IdState, id: nat)
    requires IdsValid(s)
    ensures IdsValid(Freed(s, id)) && Freed(s, id).activeIds == s.activeIds - {id} && Freed(s, id).start == s.start
  {}

  lemma NoneAllocated(ids: IdState)
    requires Allocated(ids).1.None?
    ensures Allocated(ids).0 == ids
  {}

  /** The identifier freed last is handed out next. */
  lemma FreedIsNext(s: IdState, id: nat)
    requires IdsValid(s) && id in s.activeIds
    ensures Allocated(Freed(s, id)) == (s, Some(id))
  {
    var freed := Freed(s, id);
    assert freed.freeList[..|freed.freeList| - 1] == s.freeList;
    assert freed.activeIds + {id} == s.activeIds;
  }

  class LocalIdManager {
    const start: nat
    var nextId: Option<nat>
    var freeList: seq<nat>
    var activeIds: set<nat>

    function State(): IdState
      reads this
    {
      IdState(start, nextId, freeList, activeIds)
    }

    constructor (startId: nat)
      requires startId <= U32_MAX
      ensures State() == IdState(startId, Some(startId), [], {}) && IdsValid(State())
    {
      start := startId;
      nextId := Some(startId);
      freeList := [];
      activeIds := {};
    }

    method TryAllocate() returns (id: Option<nat>)
      requires IdsValid(State())
      modifies this
      ensures (State(), id) == Allocated(old(State())) && IdsValid(State())
    {
      AllocatedIsNew(State());
      if freeList != [] {
        var raw := freeList[|freeList| - 1];
        freeList := freeList[..|freeList| - 1];
        activeIds := activeIds + {raw};
        return Some(raw);
      } else if nextId.Some? {
        var raw := nextId.value;
        nextId := if raw < U32_MAX then Some(raw + 1) else None;
        activeIds := activeIds + {raw};
        return Some(raw);
      } else {
        return None;
      }
    }

    method Free(id: nat)
      requires IdsValid(State())
      modifies this
      ensures State() == Freed(old(State()), id) && IdsValid(State())
    {
      FreedKeeps(State(), id);
      if id in activeIds {
        activeIds := activeIds - {id};
        freeList := freeList + [id];
      }
    }
  }
}
