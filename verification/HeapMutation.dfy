/** Storing into a struct field: the one operation that rewires the object graph in place. */
module HeapMutation {
  import opened Machine
  import opened EdgeGraph
  import opened HeapObjects
  import opened HeapSweep
  import opened ReleaseCascade
  import opened HeapStorage
  import opened Heap
  import opened HeapRuns

  ghost function ValueRefs(v: VmValue): seq<ObjectRef> {
    if v.Object? then [v.ref] else []
  }

  ghost function ValueTargets(slots: seq<HeapSlot>, v: VmValue): multiset<nat> {
    multiset(Targets(slots, ValueRefs(v)))
  }

  function RefCount(slots: seq<HeapSlot>, v: VmValue, t: nat): nat {
    if v.Object? && Matches(slots, v.ref) && v.ref.index == t then 1 else 0
  }

  function FieldCount(slots: seq<HeapSlot>, fields: seq<VmValue>, t: nat): nat {
    if fields == [] then 0
    else FieldCount(slots, fields[..|fields| - 1], t) + RefCount(slots, fields[|fields| - 1], t)
  }

  lemma ValueTargetsCount(slots: seq<HeapSlot>, v: VmValue, t: nat)
    ensures ValueTargets(slots, v)[t] == RefCount(slots, v, t)
  {
    if v.Object? {
      RefTarget(slots, v.ref);
    }
  }

  lemma {:induction false} TargetsCount(slots: seq<HeapSlot>, fields: seq<VmValue>, t: nat)
    ensures multiset(Targets(slots, RefsOf(fields)))[t] == FieldCount(slots, fields, t)
  {
    if fields != [] {
      var n := |fields| - 1;
      var rest, last := RefsOf(fields[..n]), fields[n];
      TargetsCount(slots, fields[..n], t);
      if last.Object? {
        assert RefsOf(fields) == rest + [last.ref];
        assert (rest + [last.ref])[..|rest|] == rest;
      } else {
        assert RefsOf(fields) == rest;
      }
    }
  }

  /** Replacing one field exchanges that field's share of each count. */
  lemma {:induction false} FieldExchange(slots: seq<HeapSlot>, fields: seq<VmValue>, k: nat, v: VmValue, t: nat)
    requires k < |fields|
    ensures FieldCount(slots, fields[k := v], t) + RefCount(slots, fields[k], t)
         == FieldCount(slots, fields, t) + RefCount(slots, v, t)
  {
    var n := |fields| - 1;
    var fields' := fields[k := v];
    if k < n {
      FieldExchange(slots, fields[..n], k, v, t);
      assert fields'[..n] == fields[..n][k := v];
    } else {
      assert fields'[..n] == fields[..n];
    }
  }

  lemma InEdgesReplace(g: Graph, i: nat, ts: seq<nat>, t: nat)
    requires i < |g|
    ensures InEdges(g[i := ts], Nodes(g[i := ts]), t) + multiset(g[i])[t] == InEdges(g, Nodes(g), t) + multiset(ts)[t]
  {
    var h := g[i := ts];
    var rest := Nodes(g) - {i};
    assert Nodes(h) == Nodes(g) && rest + {i} == Nodes(g);
    InEdgesAdd(g, rest, i, t);
    InEdgesAdd(h, rest, i, t);
    InEdgesAgree(g, h, rest, t);
  }

  /** Rewriting a field moves one edge from the old value's target to the new value's. */
  lemma BalancedExchange(a: seq<HeapSlot>, b: seq<HeapSlot>, i: nat, k: nat, v: VmValue, t: nat)
    requires i < |a| && a[i].obj.Some? && a[i].obj.value.StructObject? && k < |a[i].obj.value.fields|
    requires var o := a[i].obj.value; b == a[i := a[i].(obj := Some(o.(fields := o.fields[k := v])))]
    ensures var g, h := ObjectGraph(a), ObjectGraph(b);
      InEdges(h, Nodes(h), t) + RefCount(a, a[i].obj.value.fields[k], t) == InEdges(g, Nodes(g), t) + RefCount(a, v, t)
  {
    var fields := a[i].obj.value.fields;
    var g, h := ObjectGraph(a), ObjectGraph(b);
    forall j | 0 <= j < |a| { TargetsAgree(a, b, SlotChildren(b[j])); }
    assert h == g[i := h[i]];
    InEdgesReplace(g, i, h[i], t);
    TargetsCount(a, fields, t);
    TargetsCount(a, fields[k := v], t);
    FieldExchange(a, fields, k, v, t);
  }

  /** The heap once the value's edge is retained; a value that does not resolve retains nothing. */
  ghost function Retained(a: seq<HeapSlot>, v: VmValue): (b: seq<HeapSlot>)
    ensures |b| == |a|
  {
    if v.Object? && Resolves(a, v.ref)
    then a[v.ref.index := a[v.ref.index].(edges := SatAdd32(a[v.ref.index].edges, 1), color := Black)]
    else a
  }

  /** The value refers to a slot that was freed in its own generation: nothing can be retained, yet
      the reference counts as an edge until the slot is used again. */
  predicate Dangling(slots: seq<HeapSlot>, v: VmValue) {
    v.Object? && Matches(slots, v.ref) && !Resolves(slots, v.ref)
  }

  lemma RetainBalance(a: seq<HeapSlot>, v: VmValue, b: seq<HeapSlot>)
    requires Balanced(a, multiset{}) && NoIdle(a, {}) && EdgeRoom(a, v) && b == Retained(a, v) && !Dangling(a, v)
    ensures Balanced(b, ValueTargets(b, v)) && NoIdle(b, {}) && ValueTargets(b, v) == ValueTargets(a, v)
  {
    RetainedSame(a, v, b);
    RetainedEdges(a, v, b);
    LiveAgree(a, b);
    hide ObjectGraph, ValueTargets, Live, Resolves, EdgeRoom, SameObjects, SatAdd32, Retained, Dangling;
    RaisedCounts(ObjectGraph(a), a, b, multiset{}, ValueTargets(a, v));
    RaisedIdle(a, b);
  }

  lemma RaisedCounts(g: Graph, a: seq<HeapSlot>, b: seq<HeapSlot>, extra: multiset<nat>, more: multiset<nat>)
    requires |a| == |b| && BalancedCounts(g, a, extra) && forall t :: 0 <= t < |b| ==> b[t].edges == a[t].edges + more[t]
    ensures BalancedCounts(g, b, extra + more)
  {
    hide InEdges;
  }

  lemma RaisedIdle(a: seq<HeapSlot>, b: seq<HeapSlot>)
    requires |a| == |b| && Live(a) == Live(b) && NoIdle(a, {})
    requires forall t :: 0 <= t < |b| ==> b[t].edges >= a[t].edges && b[t].anchors == a[t].anchors
    ensures NoIdle(b, {})
  {}

  lemma RetainedSame(a: seq<HeapSlot>, v: VmValue, b: seq<HeapSlot>)
    requires b == Retained(a, v)
    ensures SameObjects(a, b) && ObjectGraph(a) == ObjectGraph(b) && ValueTargets(b, v) == ValueTargets(a, v)
  {
    assert SameObjects(a, b);
    GraphAgree(a, b);
    TargetsAgree(a, b, ValueRefs(v));
  }

  lemma RetainedEdges(a: seq<HeapSlot>, v: VmValue, b: seq<HeapSlot>)
    requires EdgeRoom(a, v) && b == Retained(a, v) && !Dangling(a, v)
    ensures |a| == |b|
    ensures forall t :: 0 <= t < |b| ==> b[t].edges == a[t].edges + ValueTargets(a, v)[t] && b[t].anchors == a[t].anchors
    ensures forall t :: 0 <= t < |b| && t !in Live(b) ==> b[t].edges == a[t].edges
  {
    forall t | 0 <= t < |b| ensures b[t].edges == a[t].edges + ValueTargets(a, v)[t] {
      ValueTargetsCount(a, v, t);
    }
  }

  lemma ReplaceBalance(a: seq<HeapSlot>, b: seq<HeapSlot>, i: nat, k: nat, v: VmValue)
    requires i < |a| && a[i].obj.Some? && a[i].obj.value.StructObject? && k < |a[i].obj.value.fields|
    requires var o := a[i].obj.value; b == a[i := a[i].(obj := Some(o.(fields := o.fields[k := v])))]
    requires Balanced(a, ValueTargets(a, v)) && NoIdle(a, {})
    ensures Balanced(b, ValueTargets(a, a[i].obj.value.fields[k])) && NoIdle(b, {})
  {
    hide InEdges, ValueTargets, RefCount, RefsOf, Targets, SlotChildren;
    var previous := a[i].obj.value.fields[k];
    var h := ObjectGraph(b);
    assert Live(a) == Live(b);
    forall t | 0 <= t < |b| ensures b[t].edges == InEdges(h, Nodes(h), t) + ValueTargets(a, previous)[t] {
      BalancedExchange(a, b, i, k, v, t);
      ValueTargetsCount(a, v, t);
      ValueTargetsCount(a, previous, t);
    }
  }

  lemma PreviousReleased(s: seq<HeapSlot>, a: seq<HeapSlot>, ra: set<nat>, previous: VmValue, b: seq<HeapSlot>, rb: set<nat>)
    requires Balanced(a, ValueTargets(s, previous)) && NoIdle(a, {})
    requires |s| == |a| && forall i :: 0 <= i < |s| ==> s[i].generation == a[i].generation
    requires if previous.Object? then ReleasedRefs(a, ra, b, rb, [previous.ref]) else b == a
    ensures Balanced(b, multiset{}) && NoIdle(b, {})
  {
    hide Balanced, NoIdle, ReleasedRefs;
    if previous.Object? {
      TargetsAgree(s, a, [previous.ref]);
      ReleaseEdgeExact(a, ra, previous.ref, b, rb);
    } else {
      var none: seq<nat> := [];
      assert multiset(none) == multiset{};
    }
  }

  lemma {:induction false} RefsOfUpdate(fields: seq<VmValue>, k: nat, v: VmValue, n: nat)
    requires k < |fields| && RefsInRange(RefsOf(fields), n) && (v.Object? ==> v.ref.index < n)
    ensures RefsInRange(RefsOf(fields[k := v]), n)
  {
    var m := |fields| - 1;
    var rest := RefsOf(fields[..m]);
    assert forall j :: 0 <= j < |rest| ==> rest[j] == RefsOf(fields)[j];
    assert fields[m].Object? ==> RefsOf(fields)[|rest|] == fields[m].ref;
    if k < m {
      RefsOfUpdate(fields[..m], k, v, n);
      assert fields[k := v][..m] == fields[..m][k := v];
    } else {
      assert fields[k := v][..m] == fields[..m];
    }
  }

  lemma SoundAfterStore(a: seq<HeapSlot>, roots: set<nat>, i: nat, k: nat, v: VmValue, slot: HeapSlot, allocations: nat)
    requires Sound(a, roots, allocations) && i < |a| && a[i].obj.Some? && a[i].obj.value.StructObject?
    requires var o := a[i].obj.value; k < |o.fields| && slot == a[i].(obj := Some(o.(fields := o.fields[k := v])))
    requires v.Object? ==> v.ref.index < |a|
    ensures Sound(a[i := slot], roots, allocations)
  {
    var b := a[i := slot];
    assert RefsInRange(SlotChildren(a[i]), |a|);
    RefsOfUpdate(a[i].obj.value.fields, k, v, |a|);
    forall j | 0 <= j < |b| ensures RefsInRange(SlotChildren(b[j]), |b|) {
      assert RefsInRange(SlotChildren(a[j]), |a|);
    }
    assert Live(a) == Live(b) && Colored(a, Purple) == Colored(b, Purple);
  }

  lemma StoredAfterStore(header: nat, a: seq<HeapSlot>, books: Books, i: nat, slot: HeapSlot)
    requires StoredIn(header, a, books) && i < |a| && a[i].obj.Some? && slot.obj.Some?
    requires ObjectTally(header, slot.obj) == ObjectTally(header, a[i].obj)
    ensures StoredIn(header, a[i := slot], books)
  {
    var b := a[i := slot];
    TallyUpdate(header, a, i, slot);
    var t := ObjectTally(header, slot.obj);
    assert LiveTally(header, b).handles + t.handles == LiveTally(header, a).handles + t.handles;
    assert LiveTally(header, b).handles == (LiveTally(header, b).handles + t.handles) - t.handles;
    assert LiveTally(header, a).handles == (LiveTally(header, a).handles + t.handles) - t.handles;
    assert LiveTally(header, b) == LiveTally(header, a);
    assert Live(a) == Live(b);
    assert FreeListExact(books.free, b);
  }

  /** A dangling reference stored in a slot that stays leaves a count that is not true. */
  lemma DanglingUnbalances(a: seq<HeapSlot>, i: nat, k: nat, v: VmValue, b: seq<HeapSlot>, rb: set<nat>, c: seq<HeapSlot>, rc: set<nat>)
    requires Balanced(a, multiset{}) && Dangling(a, v) && i in Anchored(a)
    requires var o := a[i].obj.value; o.StructObject? && k < |o.fields| && b == a[i := a[i].(obj := Some(o.(fields := o.fields[k := v])))]
    requires c == b || exists r :: ReleasedRefs(b, rb, c, rc, [r])
    ensures !Balanced(c, multiset{})
  {
    var t := v.ref.index;
    if c != b {
      var r :| ReleasedRefs(b, rb, c, rc, [r]);
      EmptyStays(b, rb, c, rc, r, t);
    }
    assert c[t].edges == 0 && c[i].obj == b[i].obj && c[t].generation == a[t].generation;
    var refs := SlotChildren(c[i]);
    RefsOfHas(c[i].obj.value.fields, k);
    TargetsOf(c, refs, t);
    InEdgesPositive(ObjectGraph(c), Nodes(ObjectGraph(c)), t);
  }

  lemma EmptyStays(b: seq<HeapSlot>, rb: set<nat>, c: seq<HeapSlot>, rc: set<nat>, r: ObjectRef, t: nat)
    requires ReleasedRefs(b, rb, c, rc, [r]) && t < |b| && t !in Live(b)
    ensures |c| == |b| && c[t].edges == b[t].edges && Shrunk(b, c)
  {}

  lemma {:induction false} RefsOfHas(values: seq<VmValue>, k: nat)
    requires k < |values| && values[k].Object?
    ensures exists j :: 0 <= j < |RefsOf(values)| && RefsOf(values)[j] == values[k].ref
  {
    var n := |values| - 1;
    if k < n {
      RefsOfHas(values[..n], k);
      var j :| 0 <= j < |RefsOf(values[..n])| && RefsOf(values[..n])[j] == values[k].ref;
      assert RefsOf(values)[j] == values[k].ref;
    } else {
      assert RefsOf(values)[|RefsOf(values)| - 1] == values[k].ref;
    }
  }

  /** `StoreOutOfBounds` stands for the panic on corrupted bytecode. */
  datatype StoreError = StoreInvalidReference | StoreTypeMismatch | StoreOutOfBounds

  predicate StoresInto(slots: seq<HeapSlot>, target: VmValue, field: nat) {
    && target.Object? && Resolves(slots, target.ref)
    && slots[target.ref.index].obj.value.StructObject?
    && field < |slots[target.ref.index].obj.value.fields|
  }

  ghost function Replaced(slots: seq<HeapSlot>, target: VmValue, field: nat, val: VmValue): seq<HeapSlot>
    requires StoresInto(slots, target, field)
  {
    var i := target.ref.index;
    var o := slots[i].obj.value;
    slots[i := slots[i].(obj := Some(o.(fields := o.fields[field := val])))]
  }

  /** True counts before the store, room for the edge, and no dangling value. */
  ghost predicate StoreExact(a: seq<HeapSlot>, v: VmValue) {
    Balanced(a, multiset{}) && NoIdle(a, {}) && EdgeRoom(a, v) && !Dangling(a, v)
  }

  /** Replaces the field of a heap that has retained the value, then releases the old value. */
  method ReplaceField(heap: PrivateHeap, target: VmValue, field: nat, val: VmValue, ghost start: seq<HeapSlot>)
    requires heap.Valid() && heap.objects == Retained(start, val) && StoresInto(heap.objects, target, field)
    requires val.Object? ==> val.ref.index < |heap.objects|
    modifies heap
    ensures heap.Valid() && heap.allocations == old(heap.allocations)
    ensures !old(heap.objects)[target.ref.index].obj.value.fields[field].Object? ==>
      heap.objects == Replaced(old(heap.objects), target, field, val) && heap.roots == old(heap.roots)
    ensures Shrunk(Replaced(old(heap.objects), target, field, val), heap.objects)
    ensures StoreExact(start, val) ==> NoIdle(heap.objects, {}) && Balanced(heap.objects, multiset{})
    ensures Balanced(start, multiset{}) && Dangling(start, val) && target.ref.index in Anchored(start) ==> !Balanced(heap.objects, multiset{})
  {
    hide Balanced, NoIdle, StoredIn, Sound, ReleasedRefs, ValueTargets, EdgeRoom, Dangling, Anchored, Retained, Shrunk;
    var i := target.ref.index;
    ghost var retained := heap.objects;
    if StoreExact(start, val) { RetainBalance(start, val, retained); }
    var obj := heap.objects[i].obj.value;
    var previous := obj.fields[field];
    var slot := heap.objects[i].(obj := Some(obj.(fields := obj.fields[field := val])));
    SoundAfterStore(retained, heap.roots, i, field, val, slot, heap.allocations);
    StoredAfterStore(heap.header, retained, heap.TheBooks(), i, slot);
    heap.objects := heap.objects[i := slot];
    ghost var replaced, roots := heap.objects, heap.roots;
    if previous.Object? {
      heap.SoundFacts();
      var _ := heap.ReleaseEdge(previous.ref);
      ReleasedShrinks(replaced, roots, heap.objects, heap.roots, previous.ref);
    } else {
      ShrunkSelf(replaced);
    }
    if StoreExact(start, val) {
      ReplaceBalance(retained, replaced, i, field, val);
      PreviousReleased(retained, replaced, roots, previous, heap.objects, heap.roots);
    }
    if Balanced(start, multiset{}) && Dangling(start, val) && i in Anchored(start) {
      DanglingRetainsNothing(start, val);
      DanglingUnbalances(start, i, field, val, replaced, roots, heap.objects, heap.roots);
    }
  }

  /** Retains the new value, replaces the field, then releases the old value. On an error the
      retained edge is not given back. True counts are kept unless the value dangles, and, in a
      target that stays, only then lost. */
  method StoreField(heap: PrivateHeap, target: VmValue, field: nat, val: VmValue) returns (result: Result<(), StoreError>)
    requires heap.Valid()
    requires val.Object? ==> val.ref.index < |heap.objects|
    modifies heap
    ensures heap.Valid() && heap.allocations == old(heap.allocations)
    ensures result.Ok? <==> StoresInto(old(heap.objects), target, field)
    ensures result.Err? ==>
      && heap.objects == Retained(old(heap.objects), val)
      && result.error == if !target.Object? then StoreTypeMismatch
        else if !old(Resolves(heap.objects, target.ref)) then StoreInvalidReference
        else if !old(heap.objects[target.ref.index].obj.value.StructObject?) then StoreTypeMismatch else StoreOutOfBounds
    ensures result.Ok? && !old(heap.objects)[target.ref.index].obj.value.fields[field].Object? ==>
      && StoresInto(Retained(old(heap.objects), val), target, field) && heap.objects == Replaced(Retained(old(heap.objects), val), target, field, val)
      && heap.roots == old(heap.roots) - (if val.Object? && old(Resolves(heap.objects, val.ref)) then {val.ref.index} else {})
    ensures result.Ok? ==>
      && StoresInto(Retained(old(heap.objects), val), target, field)
      && Shrunk(Replaced(Retained(old(heap.objects), val), target, field, val), heap.objects)
    ensures old(StoreExact(heap.objects, val)) ==>
      NoIdle(heap.objects, {}) && Balanced(heap.objects, if result.Ok? then multiset{} else old(ValueTargets(heap.objects, val)))
    ensures old(Balanced(heap.objects, multiset{}) && Dangling(heap.objects, val)) && result.Ok? && target.ref.index in Anchored(old(heap.objects)) ==>
      !Balanced(heap.objects, multiset{})
  {
    hide Balanced, NoIdle, StoredIn, Sound, ValueTargets, EdgeRoom, Dangling, Anchored, Shrunk;
    ghost var start := heap.objects;
    if val.Object? {
      var _ := heap.RetainEdge(val.ref);
    }
    assert heap.objects == Retained(start, val);
    RetainedStores(start, val, target, field);
    if StoreExact(start, val) { RetainBalance(start, val, heap.objects); }
    hide Retained, StoreExact;
    if !target.Object? {
      return Err(StoreTypeMismatch);
    }
    if !Resolves(heap.objects, target.ref) {
      return Err(StoreInvalidReference);
    }
    var obj := heap.objects[target.ref.index].obj.value;
    if !obj.StructObject? {
      return Err(StoreTypeMismatch);
    }
    if field >= |obj.fields| {
      return Err(StoreOutOfBounds);
    }
    ReplaceField(heap, target, field, val, start);
    return Ok(());
  }

  /** Retaining changes no object. */
  lemma RetainedStores(a: seq<HeapSlot>, v: VmValue, target: VmValue, field: nat)
    ensures forall i :: 0 <= i < |a| ==> Retained(a, v)[i].obj == a[i].obj && Retained(a, v)[i].generation == a[i].generation
    ensures StoresInto(Retained(a, v), target, field) <==> StoresInto(a, target, field)
  {}

  lemma ReleasedShrinks(a: seq<HeapSlot>, ra: set<nat>, b: seq<HeapSlot>, rb: set<nat>, r: ObjectRef)
    requires ReleasedRefs(a, ra, b, rb, [r])
    ensures Shrunk(a, b)
  {}

  lemma DanglingRetainsNothing(a: seq<HeapSlot>, v: VmValue)
    requires Dangling(a, v)
    ensures Retained(a, v) == a
  {}

  /** The value's edge count has room for one more. */
  predicate EdgeRoom(slots: seq<HeapSlot>, v: VmValue) {
    v.Object? && v.ref.index < |slots| ==> slots[v.ref.index].edges < U32_MAX
  }
}
