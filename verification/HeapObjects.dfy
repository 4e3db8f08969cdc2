/** Values, object references, heap objects and heap slots of the virtual machine. */
module HeapObjects {
  import opened Machine
  import opened EdgeGraph

  datatype ObjectRef = ObjectRef(index: u32, generation: u32)

  datatype OpaqueTypeId = OpaqueTypeId(proxyModule: string, name: string)

  datatype AdapterHandle = AdapterHandle(bindingId: u32, typeId: OpaqueTypeId, id: u32)

  /** Floating-point values are held by their bit pattern. */
  datatype VmValue =
    | Null
    | Bool(b: bool)
    | Int8(i8: int)
    | Int16(i16: int)
    | Int32(i32: int)
    | Int64(i64: int)
    | Uint8(u8: int)
    | Uint16(u16: int)
    | Uint32(u32: int)
    | Uint64(u64: int)
    | Future(futureId: nat)
    | Float32(bits32: nat)
    | Float64(bits64: nat)
    | Object(ref: ObjectRef)
    | Function(moduleId: nat, funcIdx: nat)

  /** `vecBytes` is what the element vector reserves: its capacity times the size of a value. */
  datatype HeapObject =
    | StructObject(moduleId: nat, layoutIdx: nat, fields: seq<VmValue>, vecBytes: nat)
    | ArrayObject(moduleId: nat, elementTy: nat, elements: seq<VmValue>, vecBytes: nat)
    | TupleObject(elements: seq<VmValue>, vecBytes: nat)
    | ChoiceObject(moduleId: nat, layoutIdx: nat, variantIdx: nat, payload: VmValue)
    | HandleObject(handle: AdapterHandle)

  datatype Color = Black | Gray | White | Purple

  datatype HeapSlot = HeapSlot(
    generation: u32, anchors: u32, edges: u32, color: Color, obj: Option<HeapObject>)

  /** Size of an object; `header` is the target-dependent size of the object itself. */
  function HeapBytes(header: nat, obj: HeapObject): nat {
    match obj
    case StructObject(_, _, _, vecBytes) => header + vecBytes
    case ArrayObject(_, _, _, vecBytes) => header + vecBytes
    case TupleObject(_, vecBytes) => header + vecBytes
    case ChoiceObject(_, _, _, _) => header
    case HandleObject(_) => header
  }

  function RefsOf(values: seq<VmValue>): (refs: seq<ObjectRef>)
  {
    if values == [] then []
    else
      var last := values[|values| - 1];
      RefsOf(values[..|values| - 1]) + if last.Object? then [last.ref] else []
  }

  /** The references an object holds, in field order, repeated as often as they occur. */
  function GetChildren(obj: HeapObject): seq<ObjectRef> {
    match obj
    case StructObject(_, _, fields, _) => RefsOf(fields)
    case ArrayObject(_, _, elements, _) => RefsOf(elements)
    case TupleObject(elements, _) => RefsOf(elements)
    case ChoiceObject(_, _, _, payload) => RefsOf([payload])
    case HandleObject(_) => []
  }

  /** At how many positions the values hold the reference. */
  ghost function HeldIn(values: seq<VmValue>, r: ObjectRef): nat {
    |Places(values, r)|
  }

  ghost function Places(values: seq<VmValue>, r: ObjectRef): set<nat> {
    set k | 0 <= k < |values| && values[k] == Object(r)
  }

  lemma PlacesLast(values: seq<VmValue>, r: ObjectRef)
    requires values != []
    ensures var n := |values| - 1; HeldIn(values, r) == HeldIn(values[..n], r) + if values[n] == Object(r) then 1 else 0
  {
    var n := |values| - 1;
    var last := if values[n] == Object(r) then {n} else {};
    assert Places(values, r) == Places(values[..n], r) + last;
    assert n !in Places(values[..n], r);
  }

  /** In how many places of its own an object holds the reference: fields, elements or payload. */
  ghost function Holdings(obj: HeapObject, r: ObjectRef): nat {
    if obj.StructObject? then HeldIn(obj.fields, r)
    else if obj.ArrayObject? || obj.TupleObject? then HeldIn(obj.elements, r)
    else if obj.ChoiceObject? && obj.payload == Object(r) then 1
    else 0
  }

  lemma {:induction false} RefsAreHeld(values: seq<VmValue>, r: ObjectRef)
    ensures multiset(RefsOf(values))[r] == HeldIn(values, r)
  {
    var n := |values|;
    if n > 0 {
      RefsAreHeld(values[..n - 1], r);
      PlacesLast(values, r);
      hide HeldIn;
      var last := if values[n - 1].Object? then [values[n - 1].ref] else [];
      assert RefsOf(values) == RefsOf(values[..n - 1]) + last;
    }
  }

  lemma OneRef(v: VmValue)
    ensures RefsOf([v]) == if v.Object? then [v.ref] else []
  {
    assert [v][..0] == [];
  }

  /** The children of an object are the references it holds, each as often as it holds it. */
  lemma ChildrenAreHeld(obj: HeapObject, r: ObjectRef)
    ensures multiset(GetChildren(obj))[r] == Holdings(obj, r)
  {
    match obj
    case StructObject(_, _, fields, _) => RefsAreHeld(fields, r);
    case ArrayObject(_, _, elements, _) => RefsAreHeld(elements, r);
    case TupleObject(elements, _) => RefsAreHeld(elements, r);
    case ChoiceObject(_, _, _, payload) => OneRef(payload);
    case HandleObject(_) =>
  }

  /** They come in the order of the values. */
  lemma {:induction false} RefsInOrder(a: seq<VmValue>, b: seq<VmValue>)
    ensures RefsOf(a + b) == RefsOf(a) + RefsOf(b)
  {
    if b == [] {
      assert a + b == a;
    } else {
      RefsInOrder(a, b[..|b| - 1]);
      assert (a + b)[..|a + b| - 1] == a + b[..|b| - 1];
    }
  }

  function SlotChildren(slot: HeapSlot): seq<ObjectRef> {
    if slot.obj.Some? then GetChildren(slot.obj.value) else []
  }

  /** The reference's generation is that of its slot, so collector passes follow it. */
  predicate Matches(slots: seq<HeapSlot>, r: ObjectRef) {
    r.index < |slots| && slots[r.index].generation == r.generation
  }

  predicate Resolves(slots: seq<HeapSlot>, r: ObjectRef) {
    Matches(slots, r) && slots[r.index].obj.Some?
  }

  // ----- the object graph -----

  /** Slot indices of those references whose generation matches. */
  ghost function Targets(slots: seq<HeapSlot>, refs: seq<ObjectRef>): seq<nat> {
    if refs == [] then []
    else
      var last := refs[|refs| - 1];
      Targets(slots, refs[..|refs| - 1]) + if Matches(slots, last) then [last.index] else []
  }

  ghost function ObjectGraph(slots: seq<HeapSlot>): (g: Graph)
    ensures |g| == |slots|
    ensures forall i :: 0 <= i < |slots| ==> g[i] == Targets(slots, SlotChildren(slots[i]))
  {
    seq(|slots|, i requires 0 <= i < |slots| => Targets(slots, SlotChildren(slots[i])))
  }

  ghost function Live(slots: seq<HeapSlot>): set<nat> {
    set i | 0 <= i < |slots| && slots[i].obj.Some?
  }

  ghost function Colored(slots: seq<HeapSlot>, c: Color): set<nat> {
    set i | 0 <= i < |slots| && slots[i].color == c
  }

  /** Every held reference names an allocated slot. */
  predicate RefsInRange(refs: seq<ObjectRef>, n: nat) {
    forall k :: 0 <= k < |refs| ==> refs[k].index < n
  }

  ghost predicate WellFormed(slots: seq<HeapSlot>) {
    forall i :: 0 <= i < |slots| ==> RefsInRange(SlotChildren(slots[i]), |slots|)
  }

  /** The same objects in the same generations: only counts and colours may differ. */
  ghost predicate SameObjects(a: seq<HeapSlot>, b: seq<HeapSlot>) {
    |a| == |b| && forall i :: 0 <= i < |a| ==> a[i].generation == b[i].generation && a[i].obj == b[i].obj
  }

  lemma {:induction false} TargetsAgree(a: seq<HeapSlot>, b: seq<HeapSlot>, refs: seq<ObjectRef>)
    requires |a| == |b|
    requires forall i :: 0 <= i < |a| ==> a[i].generation == b[i].generation
    ensures Targets(a, refs) == Targets(b, refs)
  {
    if refs != [] { TargetsAgree(a, b, refs[..|refs| - 1]); }
  }

  /** The slot a reference leads to is a target as often as the reference occurs. */
  lemma {:induction false} TargetsAreRefs(slots: seq<HeapSlot>, refs: seq<ObjectRef>, r: ObjectRef)
    requires Matches(slots, r)
    ensures multiset(Targets(slots, refs))[r.index] == multiset(refs)[r]
  {
    if refs != [] {
      var n := |refs| - 1;
      TargetsAreRefs(slots, refs[..n], r);
      assert refs == refs[..n] + [refs[n]];
      assert Matches(slots, refs[n]) && refs[n].index == r.index ==> refs[n] == r;
    }
  }

  /** An edge of the object graph is a place in a live object that holds a reference of the slot's
      own generation. */
  lemma EdgesAreHeld(slots: seq<HeapSlot>, i: nat, r: ObjectRef)
    requires i < |slots| && Matches(slots, r)
    ensures multiset(ObjectGraph(slots)[i])[r.index] == if slots[i].obj.Some? then Holdings(slots[i].obj.value, r) else 0
  {
    TargetsAreRefs(slots, SlotChildren(slots[i]), r);
    if slots[i].obj.Some? { ChildrenAreHeld(slots[i].obj.value, r); }
  }

  lemma LiveAgree(a: seq<HeapSlot>, b: seq<HeapSlot>)
    requires SameObjects(a, b)
    ensures Live(a) == Live(b)
  {}

  lemma GraphAgree(a: seq<HeapSlot>, b: seq<HeapSlot>)
    requires SameObjects(a, b)
    ensures ObjectGraph(a) == ObjectGraph(b)
  {
    forall i | 0 <= i < |a| ensures ObjectGraph(a)[i] == ObjectGraph(b)[i] {
      TargetsAgree(a, b, SlotChildren(a[i]));
    }
  }

  lemma {:induction false} TargetsInRange(slots: seq<HeapSlot>, refs: seq<ObjectRef>)
    ensures forall t :: t in Targets(slots, refs) ==> t < |slots|
  {
    if refs != [] { TargetsInRange(slots, refs[..|refs| - 1]); }
  }

  lemma GraphInRange(slots: seq<HeapSlot>)
    ensures InRange(ObjectGraph(slots))
  {
    forall i | 0 <= i < |slots| { TargetsInRange(slots, SlotChildren(slots[i])); }
  }

  lemma {:induction false} TargetsOf(slots: seq<HeapSlot>, refs: seq<ObjectRef>, t: nat)
    ensures t in Targets(slots, refs) <==> exists k :: 0 <= k < |refs| && Matches(slots, refs[k]) && refs[k].index == t
  {
    if refs != [] {
      var init := refs[..|refs| - 1];
      TargetsOf(slots, init, t);
      if k :| 0 <= k < |refs| && Matches(slots, refs[k]) && refs[k].index == t {
        if k < |init| { assert init[k] == refs[k]; }
      }
    }
  }
}
