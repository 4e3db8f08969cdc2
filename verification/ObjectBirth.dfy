/** Building an object that refers to others: the edges are retained one by one, then the object is
    allocated. */
module ObjectBirth {
  import opened Machine
  import opened EdgeGraph
  import opened HeapObjects
  import opened HeapSweep
  import opened ReleaseCascade
  import opened HeapStorage
  import opened Heap
  import opened HeapMutation

  // ----- references that were handed out -----

  ghost predicate AllIssued(slots: seq<HeapSlot>, refs: seq<ObjectRef>) {
    forall k :: 0 <= k < |refs| ==> Issued(slots, refs[k])
  }

  /** Every reference held by an object was handed out by the heap. */
  ghost predicate RefsIssued(slots: seq<HeapSlot>) {
    forall i :: 0 <= i < |slots| ==> AllIssued(slots, SlotChildren(slots[i]))
  }

  // ----- retaining the edges -----

  /** Each reference can be retained: it does not dangle, and its target's count has room. */
  predicate Retainable(slots: seq<HeapSlot>, refs: seq<ObjectRef>) {
    forall k :: 0 <= k < |refs| ==>
      !Dangling(slots, Object(refs[k])) && (refs[k].index < |slots| ==> slots[refs[k].index].edges + |refs| <= U32_MAX)
  }

  /** Only edge counts and colours differ, and no count by more than `n`. */
  ghost predicate Recounted(a: seq<HeapSlot>, b: seq<HeapSlot>, n: nat) {
    && SameObjects(a, b)
    && forall i :: 0 <= i < |a| ==> b[i].anchors == a[i].anchors && a[i].edges <= b[i].edges <= a[i].edges + n
  }

  lemma RetainedRecounts(s: seq<HeapSlot>, a: seq<HeapSlot>, n: nat, v: VmValue)
    requires Recounted(s, a, n)
    ensures Recounted(s, Retained(a, v), n + 1)
  {}

  lemma TargetsAppend(slots: seq<HeapSlot>, refs: seq<ObjectRef>, r: ObjectRef)
    ensures multiset(Targets(slots, refs + [r])) == multiset(Targets(slots, refs)) + ValueTargets(slots, Object(r))
  {
    assert (refs + [r])[..|refs|] == refs;
    assert [r][..0] == [];
    assert Targets(slots, [r]) == if Matches(slots, r) then [r.index] else [];
  }

  /** One more edge retained is one more edge to settle. */
  lemma RetainedOne(a: seq<HeapSlot>, done: seq<ObjectRef>, r: ObjectRef, b: seq<HeapSlot>)
    requires Balanced(a, multiset(Targets(a, done))) && NoIdle(a, {}) && b == Retained(a, Object(r))
    requires EdgeRoom(a, Object(r)) && !Dangling(a, Object(r))
    ensures Balanced(b, multiset(Targets(b, done + [r]))) && NoIdle(b, {})
  {
    RetainedSame(a, Object(r), b);
    RetainedEdges(a, Object(r), b);
    LiveAgree(a, b);
    TargetsAgree(a, b, done + [r]);
    TargetsAppend(a, done, r);
    hide ObjectGraph, ValueTargets, Live, Resolves, EdgeRoom, SameObjects, SatAdd32, Retained, Dangling, Targets, Matches;
    RaisedCounts(ObjectGraph(a), a, b, multiset(Targets(a, done)), ValueTargets(a, Object(r)));
    RaisedIdle(a, b);
    hide BalancedCounts;
  }

  method RetainEdges(heap: PrivateHeap, refs: seq<ObjectRef>)
    requires heap.Valid()
    modifies heap`objects, heap`roots
    ensures heap.Valid() && Recounted(old(heap.objects), heap.objects, |refs|)
    ensures old(Balanced(heap.objects, multiset{}) && NoIdle(heap.objects, {}) && Retainable(heap.objects, refs)) ==>
      Balanced(heap.objects, multiset(Targets(heap.objects, refs))) && NoIdle(heap.objects, {})
  {
    hide StoredIn, Sound, Balanced, NoIdle, Recounted, Retainable, Retained, Targets, Resolves;
    ghost var start := heap.objects;
    ghost var exact := Balanced(start, multiset{}) && NoIdle(start, {}) && Retainable(start, refs);
    NothingRetained(start, refs[..0]);
    for k := 0 to |refs|
      invariant heap.Valid() && Recounted(start, heap.objects, k)
      invariant exact ==> Balanced(heap.objects, multiset(Targets(heap.objects, refs[..k]))) && NoIdle(heap.objects, {})
    {
      ghost var before := heap.objects;
      assert refs[..k + 1] == refs[..k] + [refs[k]];
      RetainedMeans(before, refs[k]);
      RetainedRecounts(start, before, k, Object(refs[k]));
      if exact { StillRetainable(start, before, refs, k); }
      var _ := heap.RetainEdge(refs[k]);
      if exact { RetainedOne(before, refs[..k], refs[k], heap.objects); }
    }
    assert refs[..|refs|] == refs;
  }

  lemma NothingRetained(a: seq<HeapSlot>, none: seq<ObjectRef>)
    requires none == []
    ensures Recounted(a, a, 0) && multiset(Targets(a, none)) == multiset{}
  {}

  lemma RetainedMeans(a: seq<HeapSlot>, r: ObjectRef)
    ensures Retained(a, Object(r)) ==
      if Resolves(a, r) then a[r.index := a[r.index].(edges := SatAdd32(a[r.index].edges, 1), color := Black)] else a
  {}

  lemma StillRetainable(s: seq<HeapSlot>, a: seq<HeapSlot>, refs: seq<ObjectRef>, k: nat)
    requires Recounted(s, a, k) && Retainable(s, refs) && k < |refs|
    ensures EdgeRoom(a, Object(refs[k])) && !Dangling(a, Object(refs[k]))
  {}

  // ----- placing the object -----

  /** A slot taken into use in its next generation is the target of no reference, before or after. */
  lemma {:induction false} TargetsUntouched(a: seq<HeapSlot>, idx: nat, b: seq<HeapSlot>, refs: seq<ObjectRef>)
    requires idx < |b| && |a| <= |b| && (forall i :: 0 <= i < |a| && i != idx ==> b[i].generation == a[i].generation)
    requires idx < |a| ==> a[idx].generation < b[idx].generation
    requires idx >= |a| ==> |b| == |a| + 1
    requires AllIssued(a, refs) && idx !in Targets(a, refs)
    ensures Targets(b, refs) == Targets(a, refs)
  {
    if refs != [] {
      var init := refs[..|refs| - 1];
      assert AllIssued(a, init);
      TargetsUntouched(a, idx, b, init);
      assert Issued(a, refs[|refs| - 1]);
    }
  }

  /** The new object's references are what was left to settle. */
  ghost predicate Expected(a: seq<HeapSlot>, obj: HeapObject) {
    && Balanced(a, multiset(Targets(a, GetChildren(obj)))) && NoIdle(a, {})
    && RefsIssued(a) && AllIssued(a, GetChildren(obj))
  }

  /** No reference leads to the slot that is taken. */
  lemma TakenIsNoTarget(a: seq<HeapSlot>, r: ObjectRef, obj: HeapObject, b: seq<HeapSlot>)
    requires Balanced(a, multiset(Targets(a, GetChildren(obj)))) && Placed(a, r, obj, b)
    ensures forall i :: 0 <= i < |a| ==> r.index !in ObjectGraph(a)[i]
    ensures r.index !in Targets(a, GetChildren(obj))
  {
    var g, ts, idx := ObjectGraph(a), Targets(a, GetChildren(obj)), r.index as nat;
    GraphInRange(a);
    TargetsInRange(a, GetChildren(obj));
    if r.index < |a| {
      assert r.index !in Live(a);
      assert a[idx].edges == InEdges(g, Nodes(g), idx) + multiset(ts)[idx];
      NeverCounted(g, ts, idx);
    }
  }

  lemma NeverCounted(g: Graph, ts: seq<nat>, t: nat)
    ensures InEdges(g, Nodes(g), t) == 0 <==> forall i :: 0 <= i < |g| ==> t !in g[i]
    ensures multiset(ts)[t] == 0 <==> t !in ts
  {
    InEdgesPositive(g, Nodes(g), t);
    assert forall i :: 0 <= i < |g| ==> i in Nodes(g) by { forall i | 0 <= i < |g| ensures i in Nodes(g) { assert g[i] == g[i]; } }
    assert t in multiset(ts) <==> t in ts;
  }

  lemma PlacedGraph(a: seq<HeapSlot>, r: ObjectRef, obj: HeapObject, b: seq<HeapSlot>)
    requires Expected(a, obj) && Placed(a, r, obj, b) && (r.index < |a| ==> a[r.index].generation < U32_MAX)
    ensures |b| >= |a| && r.index < |b| && ObjectGraph(b)[r.index] == Targets(a, GetChildren(obj))
    ensures forall i :: 0 <= i < |a| && i != r.index ==> ObjectGraph(b)[i] == ObjectGraph(a)[i]
    ensures r.index < |a| ==> ObjectGraph(a)[r.index] == []
  {
    TakenIsNoTarget(a, r, obj, b);
    TargetsUntouched(a, r.index, b, GetChildren(obj));
    forall i | 0 <= i < |a| && i != r.index ensures ObjectGraph(b)[i] == ObjectGraph(a)[i] {
      assert AllIssued(a, SlotChildren(a[i]));
      TargetsUntouched(a, r.index, b, SlotChildren(a[i]));
    }
  }

  /** A node at the end of a graph adds its own edges. */
  lemma EdgesOfLonger(g: Graph, h: Graph, t: nat)
    requires |h| == |g| + 1 && forall i :: 0 <= i < |g| ==> h[i] == g[i]
    ensures InEdges(h, Nodes(h), t) == InEdges(g, Nodes(g), t) + multiset(h[|g|])[t]
  {
    InEdgesRemove(h, Nodes(h), {|g|}, t);
    InEdgesOne(h, |g|, t);
    assert Nodes(h) - {|g|} == Nodes(g);
    InUpToAgree(g, h, Nodes(g), t, |g|);
  }

  lemma PlacedCounts(a: seq<HeapSlot>, r: ObjectRef, obj: HeapObject, b: seq<HeapSlot>, t: nat)
    requires Expected(a, obj) && Placed(a, r, obj, b) && (r.index < |a| ==> a[r.index].generation < U32_MAX) && t < |b|
    ensures b[t].edges == InEdges(ObjectGraph(b), Nodes(ObjectGraph(b)), t)
  {
    hide RefsIssued, AllIssued, NoIdle, Targets, InEdges;
    var g, h := ObjectGraph(a), ObjectGraph(b);
    PlacedGraph(a, r, obj, b);
    if r.index < |a| {
      assert h == g[r.index := h[r.index]];
      InEdgesReplace(g, r.index, h[r.index], t);
    } else {
      EdgesOfLonger(g, h, t);
      if t == |a| { NoEdgeBeyond(a, obj); }
    }
  }

  lemma NoEdgeBeyond(a: seq<HeapSlot>, obj: HeapObject)
    ensures InEdges(ObjectGraph(a), Nodes(ObjectGraph(a)), |a|) == 0 && multiset(Targets(a, GetChildren(obj)))[|a|] == 0
  {
    hide ObjectGraph, InEdges, Targets;
    GraphInRange(a);
    TargetsInRange(a, GetChildren(obj));
    NeverCounted(ObjectGraph(a), Targets(a, GetChildren(obj)), |a|);
  }

  /** Placing the object settles its edges: counts are true again. */
  lemma PlacedBalanced(a: seq<HeapSlot>, r: ObjectRef, obj: HeapObject, b: seq<HeapSlot>)
    requires Expected(a, obj) && Placed(a, r, obj, b) && (r.index < |a| ==> a[r.index].generation < U32_MAX)
    ensures Balanced(b, multiset{}) && NoIdle(b, {}) && RefsIssued(b)
  {
    hide InEdges, ObjectGraph, RefsOf, Live, RefsIssued, NoIdle, Placed, Nodes, Targets;
    forall t | 0 <= t < |b| ensures b[t].edges == InEdges(ObjectGraph(b), Nodes(ObjectGraph(b)), t) {
      PlacedCounts(a, r, obj, b, t);
    }
    PlacedSlots(a, r, obj, b);
    PlacedIssued(a, r, obj, b);
  }

  lemma PlacedSlots(a: seq<HeapSlot>, r: ObjectRef, obj: HeapObject, b: seq<HeapSlot>)
    requires Placed(a, r, obj, b) && NoIdle(a, {}) && (forall t :: 0 <= t < |a| && t !in Live(a) ==> a[t].edges == 0)
    ensures NoIdle(b, {}) && forall t :: 0 <= t < |b| && t !in Live(b) ==> b[t].edges == 0
  {
    forall t | 0 <= t < |a| && t != r.index ensures t in Live(a) <==> t in Live(b) {
      assert b[t] == a[t];
    }
    assert r.index in Live(b);
  }

  lemma PlacedIssued(a: seq<HeapSlot>, r: ObjectRef, obj: HeapObject, b: seq<HeapSlot>)
    requires Placed(a, r, obj, b) && RefsIssued(a) && AllIssued(a, GetChildren(obj))
    requires r.index < |a| ==> a[r.index].generation < U32_MAX
    ensures RefsIssued(b)
  {
    hide RefsOf, GetChildren;
    forall i | 0 <= i < |b| ensures AllIssued(b, SlotChildren(b[i])) {
      if i != r.index { assert AllIssued(a, SlotChildren(a[i])); }
    }
  }

  // ----- both -----

  lemma RecountedIssued(a: seq<HeapSlot>, b: seq<HeapSlot>, n: nat, refs: seq<ObjectRef>)
    requires Recounted(a, b, n)
    ensures |a| == |b| && (RefsIssued(a) ==> RefsIssued(b)) && (AllIssued(a, refs) ==> AllIssued(b, refs))
  {
    hide GetChildren;
    if RefsIssued(a) {
      forall i | 0 <= i < |b| ensures AllIssued(b, SlotChildren(b[i])) { assert AllIssued(a, SlotChildren(a[i])); }
    }
  }

  lemma SoundGenerations(s: seq<HeapSlot>, roots: set<nat>, allocations: nat)
    requires Sound(s, roots, allocations)
    ensures forall i :: 0 <= i < |s| ==> s[i].generation <= allocations
  {}

  lemma IndexLeft(s: seq<HeapSlot>)
    requires |s| < U32_MAX
    ensures !SlotsTaken(s, {})
  {
    assert |s| !in Live(s);
  }

  /** Counts are true, and the object's references were handed out and can be retained. */
  ghost predicate BirthExact(slots: seq<HeapSlot>, obj: HeapObject) {
    && Balanced(slots, multiset{}) && NoIdle(slots, {}) && RefsIssued(slots)
    && AllIssued(slots, GetChildren(obj)) && Retainable(slots, GetChildren(obj))
  }

  /** Retains the edge of every reference the object holds and allocates it. True counts are kept if
      every reference was handed out and can be retained; a refused allocation leaves the retained
      edges behind. */
  method NewObject(heap: PrivateHeap, obj: HeapObject) returns (result: Result<ObjectRef, HeapError>)
    requires heap.Valid() && RefsInRange(GetChildren(obj), |heap.objects|) && heap.allocations < U32_MAX
    modifies heap
    ensures heap.Valid() && heap.allocations <= old(heap.allocations) + 1
    ensures result == Err(ObjectLimit) <==> old(heap.heapObjects) + 1 > heap.maxObjects
    ensures result == Err(ByteLimit) <==>
      old(heap.heapObjects) + 1 <= heap.maxObjects && old(heap.heapBytes) + HeapBytes(heap.header, obj) > heap.maxBytes
    ensures result.Ok? || result == Err(ObjectLimit) || result == Err(ByteLimit) || result == Err(IdCounterExhausted)
    ensures |old(heap.objects)| < U32_MAX ==> result != Err(IdCounterExhausted)
    ensures result.Ok? ==> Resolves(heap.objects, result.value) && heap.objects[result.value.index].obj == Some(obj)
    ensures old(BirthExact(heap.objects, obj) && heap.allocationsSinceRelease + 1 < COLLECT_EVERY) ==>
      && NoIdle(heap.objects, {}) && RefsIssued(heap.objects)
      && Balanced(heap.objects, if result.Ok? then multiset{} else multiset(Targets(heap.objects, GetChildren(obj))))
  {
    hide StoredIn, Sound, Balanced, NoIdle, RefsIssued, AllIssued, Retainable, Recounted, Evolves, ShrunkBut, AnchoredKept, Placed, Targets, GetChildren, SlotsTaken, HeapBytes;
    ghost var start := heap.objects;
    RetainEdges(heap, GetChildren(obj));
    ghost var retained := heap.objects;
    RecountedIssued(start, retained, |GetChildren(obj)|, GetChildren(obj));
    SoundGenerations(retained, heap.roots, heap.allocations);
    result := heap.Alloc(obj);
    if |start| < U32_MAX { IndexLeft(retained); }
    if result.Ok? && old(heap.allocationsSinceRelease) + 1 < COLLECT_EVERY {
      if Expected(retained, obj) { PlacedBalanced(retained, result.value, obj, heap.objects); }
    }
  }
}
