/** Runs of the operations a mutator performs between collections: reference counts stay true, so on
    acyclic data the live objects are exactly the reachable ones. */
module OwnershipRuns {
  import opened Machine
  import opened EdgeGraph
  import opened HeapObjects
  import opened HeapSweep
  import opened ReleaseCascade
  import opened HeapStorage
  import opened Heap
  import opened HeapRuns
  import opened HeapMutation
  import opened ObjectBirth

  datatype MutatorOp =
    | New(obj: HeapObject)
    | Retain(r: ObjectRef)
    | Release(r: ObjectRef)
    | Store(target: VmValue, field: nat, val: VmValue)

  predicate Admitted(heap: PrivateHeap, obj: HeapObject)
    reads heap
  {
    && heap.heapObjects + 1 <= heap.maxObjects && heap.heapBytes + HeapBytes(heap.header, obj) <= heap.maxBytes
    && |heap.objects| < U32_MAX
  }

  /** What the run covers: new objects and stores of references that were handed out and can be
      retained; allocations with no collection due, and within the limits if they hold references;
      stores that meet their target. */
  predicate Covered(heap: PrivateHeap, op: MutatorOp)
    reads heap
  {
    match op
    case New(obj) =>
      && Retainable(heap.objects, GetChildren(obj)) && heap.allocationsSinceRelease + 1 < COLLECT_EVERY
      && (forall k :: 0 <= k < |GetChildren(obj)| ==> Issued(heap.objects, GetChildren(obj)[k]))
      && (GetChildren(obj) == [] || Admitted(heap, obj))
    case Store(target, field, val) =>
      && StoresInto(heap.objects, target, field) && EdgeRoom(heap.objects, val) && !Dangling(heap.objects, val)
      && (val.Object? ==> Issued(heap.objects, val.ref))
    case _ => true
  }

  lemma AnchorsDoNotCount(a: seq<HeapSlot>, r: ObjectRef, b: seq<HeapSlot>)
    requires Balanced(a, multiset{}) && NoIdle(a, {}) && Resolves(a, r)
    requires b == a[r.index := a[r.index].(anchors := SatAdd32(a[r.index].anchors, 1), color := Black)]
    ensures Balanced(b, multiset{}) && NoIdle(b, {})
  {
    GraphAgree(a, b);
    LiveAgree(a, b);
    hide ObjectGraph, InEdges, Live;
  }

  // ----- references stay issued -----

  lemma ShrunkIssued(a: seq<HeapSlot>, b: seq<HeapSlot>)
    requires RefsIssued(a) && |a| == |b|
    requires forall i :: 0 <= i < |a| ==> b[i].generation == a[i].generation && (b[i].obj == a[i].obj || b[i].obj.None?)
    ensures RefsIssued(b)
  {
    hide GetChildren;
    forall i | 0 <= i < |b| ensures AllIssued(b, SlotChildren(b[i])) {
      assert AllIssued(a, SlotChildren(a[i]));
    }
  }

  lemma {:induction false} RefsFromValues(values: seq<VmValue>, r: ObjectRef)
    requires r in RefsOf(values)
    ensures Object(r) in values
  {
    var n := |values| - 1;
    if r in RefsOf(values[..n]) {
      RefsFromValues(values[..n], r);
    } else {
      assert values[n] == Object(r);
    }
  }

  lemma StoredIssued(a: seq<HeapSlot>, target: VmValue, field: nat, val: VmValue)
    requires RefsIssued(a) && StoresInto(a, target, field) && (val.Object? ==> Issued(a, val.ref))
    ensures RefsIssued(Replaced(a, target, field, val))
  {
    hide RefsOf;
    var b, t := Replaced(a, target, field, val), target.ref.index;
    forall i | 0 <= i < |b| ensures AllIssued(b, SlotChildren(b[i])) {
      assert AllIssued(a, SlotChildren(a[i]));
      if i == t {
        var fields := a[t].obj.value.fields;
        forall k | 0 <= k < |SlotChildren(b[t])| ensures Issued(b, SlotChildren(b[t])[k]) {
          var r := SlotChildren(b[t])[k];
          RefsFromValues(fields[field := val], r);
          if Object(r) != val {
            var j :| 0 <= j < |fields| && fields[j] == Object(r);
            RefsOfHas(fields, j);
          }
        }
      }
    }
  }

  // ----- runs -----

  /** True counts, no idle slot, and only references the heap handed out. */
  ghost predicate Owned(slots: seq<HeapSlot>) {
    Balanced(slots, multiset{}) && NoIdle(slots, {}) && RefsIssued(slots)
  }

  lemma EmptyOwned()
    ensures Owned([])
  {
    var s: seq<HeapSlot> := [];
    assert Live(s) == {};
  }

  method RunNew(heap: PrivateHeap, obj: HeapObject)
    requires heap.Valid() && Owned(heap.objects) && heap.allocations < U32_MAX && Covered(heap, New(obj))
    modifies heap
    ensures heap.Valid() && Owned(heap.objects) && heap.allocations <= old(heap.allocations) + 1
  {
    hide StoredIn, Sound, Balanced, NoIdle, RefsIssued, Retainable, HeapBytes, GetChildren;
    var r := NewObject(heap, obj);
    if r.Err? { NoChildren(heap.objects, GetChildren(obj)); }
  }

  method RunMutatorOp(heap: PrivateHeap, op: MutatorOp)
    requires heap.Valid() && Owned(heap.objects) && heap.allocations < U32_MAX && Covered(heap, op)
    modifies heap
    ensures heap.Valid() && Owned(heap.objects) && heap.allocations <= old(heap.allocations) + 1
  {
    hide StoredIn, Sound, Balanced, NoIdle, RefsIssued, Evolves, ShrunkBut, AnchoredKept, Placed, AnchorReleased, Shrunk, Dangling, EdgeRoom;
    match op
    case New(obj) =>
      RunNew(heap, obj);
    case Retain(r) =>
      var res := heap.RetainAnchor(r);
      if res.Ok? {
        AnchorsDoNotCount(old(heap.objects), r, heap.objects);
        ShrunkIssued(old(heap.objects), heap.objects);
      }
    case Release(r) =>
      var res := heap.ReleaseAnchor(r);
      if res.Ok? {
        AnchorReleasedShrinks(old(heap.objects), old(heap.roots), r.index, heap.objects, heap.roots);
        ShrunkIssued(old(heap.objects), heap.objects);
      }
    case Store(target, field, val) =>
      var res := StoreField(heap, target, field, val);
      RetainedStores(old(heap.objects), val, target, field);
      ShrunkIssued(old(heap.objects), Retained(old(heap.objects), val));
      RetainedIssues(old(heap.objects), val);
      StoredIssued(Retained(old(heap.objects), val), target, field, val);
      ShrunkObjects(Replaced(Retained(old(heap.objects), val), target, field, val), heap.objects);
      ShrunkIssued(Replaced(Retained(old(heap.objects), val), target, field, val), heap.objects);
  }

  lemma NoChildren(slots: seq<HeapSlot>, refs: seq<ObjectRef>)
    ensures refs == [] ==> multiset(Targets(slots, refs)) == multiset{}
  {}

  lemma AnchorReleasedShrinks(a: seq<HeapSlot>, ra: set<nat>, idx: nat, b: seq<HeapSlot>, rb: set<nat>)
    requires AnchorReleased(a, ra, idx, b, rb)
    ensures |a| == |b| && forall i :: 0 <= i < |a| ==> b[i].generation == a[i].generation && (b[i].obj == a[i].obj || b[i].obj.None?)
  {}

  lemma ShrunkObjects(a: seq<HeapSlot>, b: seq<HeapSlot>)
    requires Shrunk(a, b)
    ensures |a| == |b| && forall i :: 0 <= i < |a| ==> b[i].generation == a[i].generation && (b[i].obj == a[i].obj || b[i].obj.None?)
  {}

  lemma RetainedIssues(a: seq<HeapSlot>, v: VmValue)
    requires v.Object? ==> Issued(a, v.ref)
    ensures v.Object? ==> Issued(Retained(a, v), v.ref)
  {}

  /** Any run of covered operations from an empty heap, or from any heap with true counts, ends with
      true counts; and if the object graph is acyclic, the live objects are exactly those reachable
      from anchored ones. */
  method RunMutator(heap: PrivateHeap, ops: seq<MutatorOp>) returns (skipped: nat)
    requires heap.Valid() && Owned(heap.objects) && heap.allocations + |ops| <= U32_MAX
    modifies heap
    ensures heap.Valid() && Owned(heap.objects)
    ensures Acyclic(ObjectGraph(heap.objects)) ==>
      forall i :: i in Live(heap.objects) <==> ReachedFrom(ObjectGraph(heap.objects), Anchored(heap.objects), i)
    ensures skipped <= |ops|
  {
    hide StoredIn, Sound, Acyclic, Live, Anchored, ObjectGraph, Balanced, NoIdle;
    skipped := 0;
    for k := 0 to |ops|
      invariant heap.Valid() && Owned(heap.objects) && heap.allocations <= old(heap.allocations) + k && skipped <= k
    {
      if Covered(heap, ops[k]) {
        RunMutatorOp(heap, ops[k]);
      } else {
        skipped := skipped + 1;
      }
    }
    if Acyclic(ObjectGraph(heap.objects)) { LiveIsReachable(heap.objects); }
  }
}
