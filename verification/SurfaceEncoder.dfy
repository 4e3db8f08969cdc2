/** Encoding surface values into a thread's heap: what it leaves there, when it succeeds, and with
    which error it fails. */
module SurfaceEncoder {
  import opened Machine
  import opened HeapObjects
  import opened ReleaseCascade
  import opened HeapStorage
  import opened Heap
  import opened Surface
  import opened SurfaceCodec
  import opened SurfaceShapes

  /** Where encoded objects go: the module they belong to, the adapter binding their handles use,
      and the bytes an element vector of a given length reserves. */
  datatype Target = Target(moduleId: nat, binding: Option<u32>, vecBytes: nat -> nat)

  // ----- room -----

  /** How full a heap is. */
  datatype Load = Load(objects: nat, bytes: nat, slots: nat)

  ghost function LoadOf(heap: PrivateHeap): Load
    reads heap
  {
    Load(heap.heapObjects, heap.heapBytes, |heap.objects|)
  }

  /** At most so many objects and bytes were added. */
  ghost predicate Grew(a: Load, b: Load, objects: nat, bytes: nat) {
    b.objects <= a.objects + objects && b.bytes <= a.bytes + bytes && b.slots <= a.slots + objects
  }

  /** A heap's limits, how full it is, and how many objects and bytes more are wanted. */
  datatype Room = Room(maxObjects: nat, maxBytes: nat, load: Load, objects: nat, bytes: nat)

  /** They are within the limits, and there are slot indices for them. */
  ghost predicate HasRoom(r: Room) {
    && r.load.objects + r.objects <= r.maxObjects && r.load.bytes + r.bytes <= r.maxBytes
    && (r.maxObjects <= U32_MAX || r.load.slots + r.objects <= U32_MAX)
  }

  ghost function ByteWeight(header: nat, target: Target): Weight {
    Weight(header, target.vecBytes)
  }

  /** What every object of the value takes. */
  ghost function RoomFor(heap: PrivateHeap, schema: SurfaceSchema, v: SurfaceValue, target: Target): Room
    reads heap
  {
    Room(heap.maxObjects, heap.maxBytes, LoadOf(heap), Size(schema, v, ONE), Size(schema, v, ByteWeight(heap.header, target)))
  }

  ghost function EachRoom(heap: PrivateHeap, item: SurfaceSchema, values: seq<SurfaceValue>, target: Target): Room
    reads heap
  {
    Room(heap.maxObjects, heap.maxBytes, LoadOf(heap), EachSize(item, values, ONE), EachSize(item, values, ByteWeight(heap.header, target)))
  }

  ghost function ZipRoom(heap: PrivateHeap, items: seq<SurfaceSchema>, values: seq<SurfaceValue>, target: Target): Room
    requires |items| == |values|
    reads heap
  {
    Room(heap.maxObjects, heap.maxBytes, LoadOf(heap), ZipSize(items, values, ONE), ZipSize(items, values, ByteWeight(heap.header, target)))
  }

  ghost function FieldsRoom(heap: PrivateHeap, fields: seq<SurfaceField>, values: seq<(string, SurfaceValue)>, target: Target): Room
    reads heap
  {
    Room(heap.maxObjects, heap.maxBytes, LoadOf(heap), FieldsSize(fields, values, ONE), FieldsSize(fields, values, ByteWeight(heap.header, target)))
  }

  ghost function PayloadRoom(heap: PrivateHeap, schema: Option<SurfaceSchema>, v: Option<SurfaceValue>, target: Target): Room
    reads heap
  {
    Room(heap.maxObjects, heap.maxBytes, LoadOf(heap), PayloadSize(schema, v, ONE), PayloadSize(schema, v, ByteWeight(heap.header, target)))
  }

  lemma EachRoomIs(heap: PrivateHeap, item: SurfaceSchema, values: seq<SurfaceValue>, target: Target)
    ensures EachRoom(heap, item, values, target) ==
      Room(heap.maxObjects, heap.maxBytes, LoadOf(heap), EachSize(item, values, ONE), EachSize(item, values, ByteWeight(heap.header, target)))
  {}

  lemma RoomIs(heap: PrivateHeap, schema: SurfaceSchema, v: SurfaceValue, target: Target)
    ensures RoomFor(heap, schema, v, target) ==
      Room(heap.maxObjects, heap.maxBytes, LoadOf(heap), Size(schema, v, ONE), Size(schema, v, ByteWeight(heap.header, target)))
  {}

  lemma GrewNothing(a: Load, objects: nat, bytes: nat)
    ensures Grew(a, a, objects, bytes)
  {}

  /** Room for the whole is room for a part, after the parts before it. */
  lemma RoomInside(maxObjects: nat, maxBytes: nat, a: Load, b: Load, n: nat, m: nat, n1: nat, m1: nat, n2: nat, m2: nat)
    requires n1 + n2 <= n && m1 + m2 <= m && Grew(a, b, n1, m1)
    ensures HasRoom(Room(maxObjects, maxBytes, a, n, m)) ==> HasRoom(Room(maxObjects, maxBytes, b, n2, m2))
  {}

  lemma GrewWithin(a: Load, b: Load, c: Load, n: nat, m: nat, n1: nat, m1: nat, n2: nat, m2: nat)
    requires n1 + n2 <= n && m1 + m2 <= m && Grew(a, b, n1, m1) && Grew(b, c, n2, m2)
    ensures Grew(a, c, n, m) && Grew(a, c, n1 + n2, m1 + m2)
  {}

  lemma GrewPart(a: Load, b: Load, n: nat, m: nat, n1: nat, m1: nat)
    requires n1 <= n && m1 <= m && Grew(a, b, n1, m1)
    ensures Grew(a, b, n, m)
  {}

  /** What every encoded object says besides its parts: the module, the type and the binding it is for. */
  ghost predicate Stamped(slots: seq<HeapSlot>, val: VmValue, t: BytecodeType, target: Target) {
    var obj := ObjectAt(slots, val);
    obj.Some? &&
    match obj.value
    case ArrayObject(moduleId, elementTy, elements, vecBytes) =>
      t.TArray? && moduleId == target.moduleId && elementTy == t.item && vecBytes == target.vecBytes(|elements|)
    case TupleObject(elements, vecBytes) => t.TTuple? && vecBytes == target.vecBytes(|elements|)
    case StructObject(moduleId, layoutIdx, fields, vecBytes) =>
      t.TStruct? && moduleId == target.moduleId && layoutIdx == t.layout && vecBytes == target.vecBytes(|fields|)
    case ChoiceObject(moduleId, layoutIdx, _, _) => t.TChoice? && moduleId == target.moduleId && layoutIdx == t.layout
    case HandleObject(handle) => t.TAdapterHandle? && target.binding == Some(handle.bindingId)
  }

  // ----- answers -----

  /** With room, the answer is the shape's error, or success if it has none. Without, it may also be
      that the quota is exceeded. */
  ghost predicate Answers<T>(shape: Option<SurfaceError>, room: Room, result: Result<T, SurfaceError>) {
    && (result == Err(QuotaExceeded) ==> !HasRoom(room))
    && (result == Err(QuotaExceeded) || (if shape.None? then result.Ok? else result == Err(shape.value)))
  }

  /** A part that fails makes the whole fail with its error. */
  lemma PartFails<T, U>(part: Option<SurfaceError>, partRoom: Room, r: Result<T, SurfaceError>,
                        shape: Option<SurfaceError>, room: Room, result: Result<U, SurfaceError>)
    requires Answers(part, partRoom, r) && r.Err? && result == Err(r.error)
    requires HasRoom(room) ==> HasRoom(partRoom)
    requires part.Some? ==> shape == part
    ensures Answers(shape, room, result)
  {}

  lemma PartWorks<T>(part: Option<SurfaceError>, room: Room, r: Result<T, SurfaceError>)
    requires Answers(part, room, r) && r.Ok?
    ensures part.None?
  {}

  lemma AllWork<T>(room: Room, r: Result<T, SurfaceError>)
    requires r.Ok?
    ensures Answers(None, room, r)
  {}

  lemma ShapeFails<T>(shape: Option<SurfaceError>, room: Room, r: Result<T, SurfaceError>)
    requires shape.Some? && shape.value != QuotaExceeded && r == Err(shape.value)
    ensures Answers(shape, room, r)
  {}

  /** The parts are encoded, then one object is allocated for the whole. */
  lemma PartsThenNode<T, U>(shape: Option<SurfaceError>, maxObjects: nat, maxBytes: nat, start: Load, mid: Load, end: Load,
                            n: nat, m: nat, n1: nat, m1: nat, node: nat, parts: Result<T, SurfaceError>, result: Result<U, SurfaceError>)
    requires n == n1 + 1 && m == m1 + node && Grew(start, mid, n1, m1)
    requires Answers(shape, Room(maxObjects, maxBytes, start, n1, m1), parts)
    requires parts.Ok? ==> Grew(mid, end, 1, node) && Answers(None, Room(maxObjects, maxBytes, mid, 1, node), result)
    requires parts.Err? ==> end == mid && result == Err(parts.error)
    ensures Grew(start, end, n, m) && Answers(shape, Room(maxObjects, maxBytes, start, n, m), result)
  {}

  method AllocValue(heap: PrivateHeap, obj: HeapObject) returns (result: Result<VmValue, SurfaceError>)
    requires heap.Valid() && RefsInRange(GetChildren(obj), |heap.objects|)
    modifies heap
    ensures heap.Valid() && AnchoredKept(old(heap.objects), heap.objects)
    ensures result.Ok? ==> ObjectAt(AnchoredOnly(heap.objects), result.value) == Some(obj)
    ensures Grew(old(LoadOf(heap)), LoadOf(heap), 1, HeapBytes(heap.header, obj))
    ensures Answers(None, old(Room(heap.maxObjects, heap.maxBytes, LoadOf(heap), 1, HeapBytes(heap.header, obj))), result)
  {
    hide StoredIn, Sound, AnchoredKept, ShrunkBut, Placed, Evolves, Issued, Anchored, HeapBytes, SlotsTaken, CountsWithout, Collectable;
    NoIndexLeft(heap.objects);
    var r := heap.Alloc(obj);
    match r
    case Ok(ref) =>
      AnchoredObjectAt(heap.objects, ref, obj);
      return Ok(Object(ref));
    case Err(_) => return Err(QuotaExceeded);
  }

  lemma NoIndexLeft(slots: seq<HeapSlot>)
    ensures SlotsTaken(slots, {}) ==> |slots| >= U32_MAX
  {
    if SlotsTaken(slots, {}) { assert U32_MAX - 1 in Live(slots); }
  }

  lemma AnchoredObjectAt(slots: seq<HeapSlot>, ref: ObjectRef, obj: HeapObject)
    requires Resolves(slots, ref) && slots[ref.index].anchors == 1 && slots[ref.index].obj == Some(obj)
    ensures ObjectAt(AnchoredOnly(slots), Object(ref)) == Some(obj)
  {}

  lemma EachNone(slots: seq<HeapSlot>, item: SurfaceSchema, values: seq<SurfaceValue>, ty: nat, table: TypeTable)
    ensures RepresentsEach(slots, item, values[..0], ty, table, [])
  {}

  lemma EachOneMore(slots: seq<HeapSlot>, item: SurfaceSchema, values: seq<SurfaceValue>, k: nat, ty: nat, table: TypeTable, elements: seq<VmValue>, val: VmValue)
    requires k < |values| && RepresentsEach(slots, item, values[..k], ty, table, elements)
    requires Represents(slots, item, values[k], ty, table, val)
    ensures RepresentsEach(slots, item, values[..k + 1], ty, table, elements + [val])
  {}

  method EncodeEach(heap: PrivateHeap, item: SurfaceSchema, values: seq<SurfaceValue>, ty: nat, target: Target, table: TypeTable)
    returns (result: Result<seq<VmValue>, SurfaceError>)
    requires heap.Valid()
    modifies heap
    ensures heap.Valid() && AnchoredKept(old(heap.objects), heap.objects)
    ensures result.Ok? ==> RepresentsEach(AnchoredOnly(heap.objects), item, values, ty, table, result.value)
    ensures Grew(old(LoadOf(heap)), LoadOf(heap), EachSize(item, values, ONE), EachSize(item, values, ByteWeight(heap.header, target)))
    ensures (forall k :: 0 <= k < |values| ==> Conforms(item, values[k])) ==>
      Answers(EachError(item, values, ty, table, target.binding.Some?),
        old(EachRoom(heap, item, values, target)), result)
    decreases item, 3
  {
    hide *;
    EachRoomIs(heap, item, values, target);
    AnchoredKeptSelf(heap.objects);
    ghost var start, w, bound := LoadOf(heap), ByteWeight(heap.header, target), target.binding.Some?;
    ghost var conform := forall j :: 0 <= j < |values| ==> Conforms(item, values[j]);
    ghost var n, m := EachSize(item, values, ONE), EachSize(item, values, w);
    ghost var shape, room := EachError(item, values, ty, table, bound), EachRoom(heap, item, values, target);
    NothingEach(item, values, ty, table, bound, w);
    GrewNothing(start, 0, 0);
    var elements := [];
    EachNone(AnchoredOnly(heap.objects), item, values, ty, table);
    for k := 0 to |values|
      invariant heap.Valid() && AnchoredKept(old(heap.objects), heap.objects)
      invariant |elements| == k && RepresentsEach(AnchoredOnly(heap.objects), item, values[..k], ty, table, elements)
      invariant Grew(start, LoadOf(heap), EachSize(item, values[..k], ONE), EachSize(item, values[..k], w))
      invariant conform ==> EachError(item, values[..k], ty, table, bound).None?
    {
      ghost var before, mid := heap.objects, LoadOf(heap);
      ghost var n1, m1, n2, m2 := EachSize(item, values[..k], ONE), EachSize(item, values[..k], w), Size(item, values[k], ONE), Size(item, values[k], w);
      EachSizeUpTo(item, values, k, ONE);
      EachSizeUpTo(item, values, k, w);
      RoomInside(heap.maxObjects, heap.maxBytes, start, mid, n, m, n1, m1, n2, m2);
      RoomIs(heap, item, values[k], target);
      var r := EncodeSurface(heap, item, values[k], ty, target, table);
      GrewWithin(start, mid, LoadOf(heap), n, m, n1, m1, n2, m2);
      EachErrorAt(item, values, k, ty, table, bound);
      AnchoredKeptThen(old(heap.objects), before, heap.objects);
      ghost var part, partRoom := ShapeError(item, values[k], ty, table, bound), Room(heap.maxObjects, heap.maxBytes, mid, n2, m2);
      if r.Err? {
        result := Err(r.error);
        if conform { PartFails(part, partRoom, r, shape, room, result); }
        return;
      }
      if conform { PartWorks(part, partRoom, r); }
      AnchoredExtends(before, heap.objects);
      EachExtends(AnchoredOnly(before), AnchoredOnly(heap.objects), item, values[..k], ty, table, elements);
      EachOneMore(AnchoredOnly(heap.objects), item, values, k, ty, table, elements, r.value);
      elements := elements + [r.value];
    }
    assert values[..|values|] == values;
    result := Ok(elements);
    if conform { AllWork(room, result); }
  }

  lemma NothingEach(item: SurfaceSchema, values: seq<SurfaceValue>, ty: nat, table: TypeTable, bound: bool, w: Weight)
    ensures EachError(item, values[..0], ty, table, bound).None? && EachSize(item, values[..0], ONE) == 0 && EachSize(item, values[..0], w) == 0
  {}

  lemma EachErrorAt(item: SurfaceSchema, values: seq<SurfaceValue>, k: nat, ty: nat, table: TypeTable, bound: bool)
    requires k < |values|
    ensures EachError(item, values[..k], ty, table, bound).None? ==>
      && EachError(item, values[..k + 1], ty, table, bound) == ShapeError(item, values[k], ty, table, bound)
      && (ShapeError(item, values[k], ty, table, bound).Some? ==>
            EachError(item, values, ty, table, bound) == ShapeError(item, values[k], ty, table, bound))
  {
    hide ShapeError;
    assert values[..k + 1][..k] == values[..k];
    if EachError(item, values[..k + 1], ty, table, bound).Some? { EachErrorStays(item, values, k + 1, ty, table, bound); }
  }

  lemma NothingZip(items: seq<SurfaceSchema>, values: seq<SurfaceValue>, tys: seq<nat>, table: TypeTable, bound: bool, w: Weight)
    requires |items| == |values| == |tys|
    ensures ZipError(items[..0], values[..0], tys[..0], table, bound).None? && ZipSize(items[..0], values[..0], ONE) == 0 && ZipSize(items[..0], values[..0], w) == 0
  {}

  lemma ZipErrorAt(items: seq<SurfaceSchema>, values: seq<SurfaceValue>, tys: seq<nat>, k: nat, table: TypeTable, bound: bool)
    requires |items| == |values| == |tys| && k < |items|
    ensures ZipError(items[..k], values[..k], tys[..k], table, bound).None? ==>
      && ZipError(items[..k + 1], values[..k + 1], tys[..k + 1], table, bound) == ShapeError(items[k], values[k], tys[k], table, bound)
      && (ShapeError(items[k], values[k], tys[k], table, bound).Some? ==>
            ZipError(items, values, tys, table, bound) == ShapeError(items[k], values[k], tys[k], table, bound))
  {
    hide ShapeError;
    assert items[..k + 1][..k] == items[..k] && values[..k + 1][..k] == values[..k] && tys[..k + 1][..k] == tys[..k];
    if ZipError(items[..k + 1], values[..k + 1], tys[..k + 1], table, bound).Some? { ZipErrorStays(items, values, tys, k + 1, table, bound); }
  }

  lemma NothingFields(fields: seq<SurfaceField>, values: seq<(string, SurfaceValue)>, tys: seq<nat>, table: TypeTable, bound: bool, w: Weight)
    requires |fields| == |tys|
    ensures FieldsError(fields[..0], values, tys[..0], table, bound).None? && FieldsSize(fields[..0], values, ONE) == 0 && FieldsSize(fields[..0], values, w) == 0
  {}

  lemma FieldsErrorAt(fields: seq<SurfaceField>, values: seq<(string, SurfaceValue)>, tys: seq<nat>, k: nat, table: TypeTable, bound: bool)
    requires |fields| == |tys| && k < |fields|
    ensures FieldsError(fields[..k], values, tys[..k], table, bound).None? ==>
      && FieldsError(fields[..k + 1], values, tys[..k + 1], table, bound) == FieldError(fields[k], values, tys[k], table, bound)
      && (FieldError(fields[k], values, tys[k], table, bound).Some? ==>
            FieldsError(fields, values, tys, table, bound) == FieldError(fields[k], values, tys[k], table, bound))
  {
    hide ShapeError, FieldError;
    assert fields[..k + 1][..k] == fields[..k] && tys[..k + 1][..k] == tys[..k];
    if FieldsError(fields[..k + 1], values, tys[..k + 1], table, bound).Some? { FieldsErrorStays(fields, values, tys, k + 1, table, bound); }
  }

  method EncodeZip(heap: PrivateHeap, items: seq<SurfaceSchema>, values: seq<SurfaceValue>, tys: seq<nat>, target: Target, table: TypeTable)
    returns (result: Result<seq<VmValue>, SurfaceError>)
    requires heap.Valid() && |items| == |values| == |tys|
    modifies heap
    ensures heap.Valid() && AnchoredKept(old(heap.objects), heap.objects)
    ensures result.Ok? ==> RepresentsZip(AnchoredOnly(heap.objects), items, values, tys, table, result.value)
    ensures Grew(old(LoadOf(heap)), LoadOf(heap), ZipSize(items, values, ONE), ZipSize(items, values, ByteWeight(heap.header, target)))
    ensures (forall k :: 0 <= k < |items| ==> Conforms(items[k], values[k])) ==>
      Answers(ZipError(items, values, tys, table, target.binding.Some?),
        old(ZipRoom(heap, items, values, target)), result)
    decreases items, 0
  {
    hide Validate, AnchoredKept, Represents, StoredIn, Sound, Extends, Conforms, ShapeError, Size, Grew, HasRoom, LoadOf, ZipError, ZipSize, Answers;
    AnchoredKeptSelf(heap.objects);
    ghost var start, w, bound := LoadOf(heap), ByteWeight(heap.header, target), target.binding.Some?;
    ghost var conform := forall j :: 0 <= j < |items| ==> Conforms(items[j], values[j]);
    ghost var n, m := ZipSize(items, values, ONE), ZipSize(items, values, w);
    ghost var shape, room := ZipError(items, values, tys, table, bound), ZipRoom(heap, items, values, target);
    NothingZip(items, values, tys, table, bound, w);
    GrewNothing(start, 0, 0);
    var elements := [];
    for k := 0 to |items|
      invariant heap.Valid() && AnchoredKept(old(heap.objects), heap.objects)
      invariant |elements| == k && RepresentsZip(AnchoredOnly(heap.objects), items[..k], values[..k], tys[..k], table, elements)
      invariant Grew(start, LoadOf(heap), ZipSize(items[..k], values[..k], ONE), ZipSize(items[..k], values[..k], w))
      invariant conform ==> ZipError(items[..k], values[..k], tys[..k], table, bound).None?
    {
      ghost var before, mid := heap.objects, LoadOf(heap);
      ghost var n1, m1, n2, m2 := ZipSize(items[..k], values[..k], ONE), ZipSize(items[..k], values[..k], w), Size(items[k], values[k], ONE), Size(items[k], values[k], w);
      ZipSizeUpTo(items, values, k, ONE);
      ZipSizeUpTo(items, values, k, w);
      RoomInside(heap.maxObjects, heap.maxBytes, start, mid, n, m, n1, m1, n2, m2);
      var r := EncodeSurface(heap, items[k], values[k], tys[k], target, table);
      GrewWithin(start, mid, LoadOf(heap), n, m, n1, m1, n2, m2);
      ZipErrorAt(items, values, tys, k, table, bound);
      AnchoredKeptThen(old(heap.objects), before, heap.objects);
      ghost var part, partRoom := ShapeError(items[k], values[k], tys[k], table, bound), Room(heap.maxObjects, heap.maxBytes, mid, n2, m2);
      if r.Err? {
        result := Err(r.error);
        if conform { PartFails(part, partRoom, r, shape, room, result); }
        return;
      }
      if conform { PartWorks(part, partRoom, r); }
      AnchoredExtends(before, heap.objects);
      ZipExtends(AnchoredOnly(before), AnchoredOnly(heap.objects), items[..k], values[..k], tys[..k], table, elements);
      elements := elements + [r.value];
    }
    assert items[..|items|] == items && values[..|items|] == values && tys[..|items|] == tys;
    result := Ok(elements);
    if conform { AllWork(room, result); }
  }

  method EncodeFields(heap: PrivateHeap, fields: seq<SurfaceField>, values: seq<(string, SurfaceValue)>, tys: seq<nat>, target: Target, table: TypeTable)
    returns (result: Result<seq<VmValue>, SurfaceError>)
    requires heap.Valid() && |fields| == |tys|
    modifies heap
    ensures heap.Valid() && AnchoredKept(old(heap.objects), heap.objects)
    ensures result.Ok? ==> RepresentsFields(AnchoredOnly(heap.objects), fields, values, tys, table, result.value)
    ensures Grew(old(LoadOf(heap)), LoadOf(heap), FieldsSize(fields, values, ONE), FieldsSize(fields, values, ByteWeight(heap.header, target)))
    ensures (forall k :: 0 <= k < |fields| ==> FieldConforms(fields[k], values)) ==>
      Answers(FieldsError(fields, values, tys, table, target.binding.Some?),
        old(FieldsRoom(heap, fields, values, target)), result)
    decreases fields, 0
  {
    hide Validate, AnchoredKept, Represents, StoredIn, Sound, Extends, FindField, Conforms, ShapeError, Size, Grew, HasRoom, LoadOf, FieldsError, FieldsSize, Answers;
    AnchoredKeptSelf(heap.objects);
    ghost var start, w, bound := LoadOf(heap), ByteWeight(heap.header, target), target.binding.Some?;
    ghost var conform := forall j :: 0 <= j < |fields| ==> FieldConforms(fields[j], values);
    ghost var n, m := FieldsSize(fields, values, ONE), FieldsSize(fields, values, w);
    ghost var shape, room := FieldsError(fields, values, tys, table, bound), FieldsRoom(heap, fields, values, target);
    NothingFields(fields, values, tys, table, bound, w);
    GrewNothing(start, 0, 0);
    var elements := [];
    for k := 0 to |fields|
      invariant heap.Valid() && AnchoredKept(old(heap.objects), heap.objects)
      invariant |elements| == k && RepresentsFields(AnchoredOnly(heap.objects), fields[..k], values, tys[..k], table, elements)
      invariant Grew(start, LoadOf(heap), FieldsSize(fields[..k], values, ONE), FieldsSize(fields[..k], values, w))
      invariant conform ==> FieldsError(fields[..k], values, tys[..k], table, bound).None?
    {
      ghost var before, mid := heap.objects, LoadOf(heap);
      ghost var n1, m1, n2, m2 := FieldsSize(fields[..k], values, ONE), FieldsSize(fields[..k], values, w), FieldSize(fields[k], values, ONE), FieldSize(fields[k], values, w);
      FieldsSizeUpTo(fields, values, k, ONE);
      FieldsSizeUpTo(fields, values, k, w);
      RoomInside(heap.maxObjects, heap.maxBytes, start, mid, n, m, n1, m1, n2, m2);
      FieldsErrorAt(fields, values, tys, k, table, bound);
      var found := FindField(values, fields[k].name);
      if found.None? {
        GrewNothing(mid, n2, m2);
        GrewWithin(start, mid, mid, n, m, n1, m1, n2, m2);
        result := Err(MissingValue(fields[k].name));
        if conform { ShapeFails(shape, room, result); }
        return;
      }
      var r := EncodeSurface(heap, fields[k].schema, found.value, tys[k], target, table);
      GrewWithin(start, mid, LoadOf(heap), n, m, n1, m1, n2, m2);
      AnchoredKeptThen(old(heap.objects), before, heap.objects);
      ghost var part, partRoom := FieldError(fields[k], values, tys[k], table, bound), Room(heap.maxObjects, heap.maxBytes, mid, n2, m2);
      if r.Err? {
        result := Err(r.error);
        if conform { PartFails(part, partRoom, r, shape, room, result); }
        return;
      }
      if conform { PartWorks(part, partRoom, r); }
      AnchoredExtends(before, heap.objects);
      FieldsExtends(AnchoredOnly(before), AnchoredOnly(heap.objects), fields[..k], values, tys[..k], table, elements);
      elements := elements + [r.value];
      assert RepresentsField(AnchoredOnly(heap.objects), fields[k], values, tys[k], table, r.value);
    }
    assert fields[..|fields|] == fields && tys[..|fields|] == tys;
    result := Ok(elements);
    if conform { AllWork(room, result); }
  }

  /** Encoding, with a collection possibly run by any of its allocations. Whatever it returns, the
      heap stays valid and keeps every anchored object; on success the result represents the value
      by anchored objects only. */
  method EncodeSurface(heap: PrivateHeap, schema: SurfaceSchema, value: SurfaceValue, expected: nat, target: Target, table: TypeTable)
    returns (result: Result<VmValue, SurfaceError>)
    requires heap.Valid()
    modifies heap
    ensures heap.Valid() && AnchoredKept(old(heap.objects), heap.objects)
    ensures result.Ok? ==> Conforms(schema, value)
    ensures result.Ok? ==> Represents(AnchoredOnly(heap.objects), schema, value, expected, table, result.value)
    ensures Grew(old(LoadOf(heap)), LoadOf(heap), Size(schema, value, ONE), Size(schema, value, ByteWeight(heap.header, target)))
    ensures !Conforms(schema, value) ==> Validate(schema, value).Err? && result == Err(Invalid(Validate(schema, value).error))
    ensures Conforms(schema, value) ==>
      Answers(ShapeError(schema, value, expected, table, target.binding.Some?), old(RoomFor(heap, schema, value, target)), result)
    decreases schema, 2
  {
    hide AnchoredKept, Represents, StoredIn, Sound, Extends, Conforms, Validate, AnchoredOnly, ShapeError, Size, Grew, HasRoom, LoadOf;
    AnchoredKeptSelf(heap.objects);
    GrewNothing(LoadOf(heap), Size(schema, value, ONE), Size(schema, value, ByteWeight(heap.header, target)));
    var valid := Validate(schema, value);
    ValidateIsConforms(schema, value);
    if valid.Err? {
      return Err(Invalid(valid.error));
    }
    if expected >= |table.types| {
      NoType(schema, value, expected, table, target.binding.Some?);
      return Err(MissingType);
    }
    result := EncodeTyped(heap, schema, value, expected, target, table);
  }

  lemma NoType(schema: SurfaceSchema, v: SurfaceValue, ty: nat, table: TypeTable, bound: bool)
    requires ty >= |table.types|
    ensures ShapeError(schema, v, ty, table, bound) == Some(MissingType)
  {}

  /** The cases by schema, value and type, for a value that has the schema. */
  method EncodeTyped(heap: PrivateHeap, schema: SurfaceSchema, value: SurfaceValue, expected: nat, target: Target, table: TypeTable)
    returns (result: Result<VmValue, SurfaceError>)
    requires heap.Valid() && Conforms(schema, value) && expected < |table.types|
    modifies heap
    ensures heap.Valid() && AnchoredKept(old(heap.objects), heap.objects)
    ensures result.Ok? ==> Represents(AnchoredOnly(heap.objects), schema, value, expected, table, result.value)
    ensures Grew(old(LoadOf(heap)), LoadOf(heap), Size(schema, value, ONE), Size(schema, value, ByteWeight(heap.header, target)))
    ensures Answers(ShapeError(schema, value, expected, table, target.binding.Some?), old(RoomFor(heap, schema, value, target)), result)
    decreases schema, 1
  {
    hide AnchoredKept, Represents, StoredIn, Sound, Extends, Conforms, AnchoredOnly, EncodeScalar, TypeAt, ShapeError, Size, Grew, HasRoom, LoadOf, Answers;
    AnchoredKeptSelf(heap.objects);
    ghost var shape, room := ShapeError(schema, value, expected, table, target.binding.Some?), RoomFor(heap, schema, value, target);
    GrewNothing(LoadOf(heap), Size(schema, value, ONE), Size(schema, value, ByteWeight(heap.header, target)));
    var t := table.types[expected];
    if IsScalar(schema) {
      result := EncodeScalar(schema, value, t);
      ScalarAnswers(schema, value, expected, table, target.binding.Some?, room);
      if result.Ok? { ScalarRepresents(AnchoredOnly(heap.objects), schema, value, expected, table, result.value); }
    } else if schema.SBytes? && value.VBytes? && t.TArray? && TypeAt(table, t.item) == Some(TUint8) {
      result := EncodeBytes(heap, schema, value, expected, target, table);
    } else if schema.SOptional? && t.TNullable? {
      result := EncodeOptional(heap, schema, value, expected, target, table);
    } else if schema.SList? && value.VList? && t.TArray? {
      result := EncodeList(heap, schema, value, expected, target, table);
    } else if schema.STuple? && value.VTuple? && t.TTuple? && |schema.items| == |value.values| == |t.items| {
      result := EncodeTuple(heap, schema, value, expected, target, table);
    } else if schema.SStruct? && value.VStruct? && t.TStruct? {
      result := EncodeStruct(heap, schema, value, expected, target, table);
    } else if schema.SChoice? && value.VChoice? && t.TChoice? {
      result := EncodeChoice(heap, schema, value, expected, target, table);
    } else if schema.SHandle? && value.VHandle? && t.TAdapterHandle? && value.typeId == t.typeId {
      result := EncodeHandle(heap, schema, value, expected, target, table);
    } else {
      result := Err(Mismatch);
      UnhandledMismatch(schema, value, expected, table, target.binding.Some?);
      ShapeFails(shape, room, result);
    }
  }

  method EncodeOptional(heap: PrivateHeap, schema: SurfaceSchema, value: SurfaceValue, expected: nat, target: Target, table: TypeTable)
    returns (result: Result<VmValue, SurfaceError>)
    requires heap.Valid() && expected < |table.types| && schema.SOptional? && table.types[expected].TNullable?
    modifies heap
    ensures heap.Valid() && AnchoredKept(old(heap.objects), heap.objects)
    ensures result.Ok? ==> Represents(AnchoredOnly(heap.objects), schema, value, expected, table, result.value)
    ensures Grew(old(LoadOf(heap)), LoadOf(heap), Size(schema, value, ONE), Size(schema, value, ByteWeight(heap.header, target)))
    ensures Conforms(schema, value) ==>
      Answers(ShapeError(schema, value, expected, table, target.binding.Some?), old(RoomFor(heap, schema, value, target)), result)
    decreases schema, 0
  {
    hide Validate, AnchoredKept, Represents, StoredIn, Sound, Extends, Conforms, AnchoredOnly, ShapeError, Size, Grew, HasRoom, LoadOf;
    AnchoredKeptSelf(heap.objects);
    OptionalShape(schema, value, expected, table, target.binding.Some?);
    OptionalSizes(schema, value, ONE);
    OptionalSizes(schema, value, ByteWeight(heap.header, target));
    GrewNothing(LoadOf(heap), Size(schema, value, ONE), Size(schema, value, ByteWeight(heap.header, target)));
    if value.VNull? {
      result := Ok(Null);
    } else {
      result := EncodeSurface(heap, schema.inner, value, table.types[expected].item, target, table);
    }
    if result.Ok? { OptionalRepresents(AnchoredOnly(heap.objects), schema, value, expected, table, result.value); }
  }

  lemma ScalarAnswers(schema: SurfaceSchema, v: SurfaceValue, ty: nat, table: TypeTable, bound: bool, room: Room)
    requires Conforms(schema, v) && IsScalar(schema) && ty < |table.types|
    ensures Answers(ShapeError(schema, v, ty, table, bound), room, EncodeScalar(schema, v, table.types[ty]))
  {}

  lemma OptionalShape(schema: SurfaceSchema, v: SurfaceValue, ty: nat, table: TypeTable, bound: bool)
    requires ty < |table.types| && schema.SOptional? && table.types[ty].TNullable?
    ensures ShapeError(schema, v, ty, table, bound) == (if v.VNull? then None else ShapeError(schema.inner, v, table.types[ty].item, table, bound))
    ensures Conforms(schema, v) && !v.VNull? ==> Conforms(schema.inner, v)
  {
    OptionalConforms(schema, v);
    hide Conforms;
  }

  lemma OptionalConforms(schema: SurfaceSchema, v: SurfaceValue)
    requires schema.SOptional?
    ensures Conforms(schema, v) && !v.VNull? ==> Conforms(schema.inner, v)
  {}

  lemma UnhandledMismatch(schema: SurfaceSchema, v: SurfaceValue, ty: nat, table: TypeTable, bound: bool)
    requires Conforms(schema, v) && ty < |table.types| && !IsScalar(schema) && !Handled(schema, v, table.types[ty], table)
    ensures ShapeError(schema, v, ty, table, bound) == Some(Mismatch)
  {
    hide EachError, ZipError, FieldsError, FindVariant, TypeAt, FieldConforms;
  }

  /** One of the encoder's cases takes the schema, the value and the type. */
  ghost predicate Handled(schema: SurfaceSchema, v: SurfaceValue, t: BytecodeType, table: TypeTable) {
    || (schema.SBytes? && v.VBytes? && t.TArray? && TypeAt(table, t.item) == Some(TUint8))
    || (schema.SOptional? && t.TNullable?)
    || (schema.SList? && v.VList? && t.TArray?)
    || (schema.STuple? && v.VTuple? && t.TTuple? && |schema.items| == |v.values| == |t.items|)
    || (schema.SStruct? && v.VStruct? && t.TStruct?)
    || (schema.SChoice? && v.VChoice? && t.TChoice?)
    || (schema.SHandle? && v.VHandle? && t.TAdapterHandle? && v.typeId == t.typeId)
  }

  lemma OptionalSizes(schema: SurfaceSchema, v: SurfaceValue, w: Weight)
    ensures schema.SOptional? && !v.VNull? ==> Size(schema, v, w) == Size(schema.inner, v, w)
  {}

  function EncodeScalar(schema: SurfaceSchema, value: SurfaceValue, t: BytecodeType): Result<VmValue, SurfaceError> {
    match (schema, value, t)
    case (SNull, VNull, TNull) => Ok(Null)
    case (SBool, VBool(b), TBool) => Ok(Bool(b))
    case (SU16, VU16(n), TUint16) => Ok(Uint16(n))
    case (SI32, VI32(n), TInt32) => Ok(Int32(n))
    case (SI64, VI64(n), TInt64) => Ok(Int64(n))
    case (SU32, VU32(n), TUint32) => Ok(Uint32(n))
    case (SU64, VU64(n), TUint64) => Ok(Uint64(n))
    case (SF32, VF32(bits), TFloat32) => Ok(Float32(NormalizeF32(bits)))
    case (SF64, VF64(bits), TFloat64) => Ok(Float64(NormalizeF64(bits)))
    case _ => Err(Mismatch)
  }

  lemma ScalarRepresents(slots: seq<HeapSlot>, schema: SurfaceSchema, v: SurfaceValue, ty: nat, table: TypeTable, val: VmValue)
    requires IsScalar(schema) && ty < |table.types| && EncodeScalar(schema, v, table.types[ty]) == Ok(val)
    ensures Represents(slots, schema, v, ty, table, val)
  {}

  lemma BytesShape(schema: SurfaceSchema, v: SurfaceValue, ty: nat, table: TypeTable, bound: bool, header: nat, target: Target)
    requires ty < |table.types| && schema.SBytes? && v.VBytes?
    requires var t := table.types[ty]; t.TArray? && TypeAt(table, t.item) == Some(TUint8)
    ensures ShapeError(schema, v, ty, table, bound).None?
    ensures Size(schema, v, ONE) == 1 && Size(schema, v, ByteWeight(header, target)) == header + target.vecBytes(|v.bytes|)
  {}

  lemma ListShape(schema: SurfaceSchema, v: SurfaceValue, ty: nat, table: TypeTable, bound: bool, header: nat, target: Target)
    requires ty < |table.types| && schema.SList? && v.VList? && table.types[ty].TArray?
    ensures ShapeError(schema, v, ty, table, bound) == EachError(schema.item, v.values, table.types[ty].item, table, bound)
    ensures Size(schema, v, ONE) == EachSize(schema.item, v.values, ONE) + 1
    ensures var w := ByteWeight(header, target); Size(schema, v, w) == EachSize(schema.item, v.values, w) + (header + target.vecBytes(|v.values|))
    ensures Conforms(schema, v) ==> forall k :: 0 <= k < |v.values| ==> Conforms(schema.item, v.values[k])
  {
    hide EachError, EachSize;
  }

  lemma TupleShape(schema: SurfaceSchema, v: SurfaceValue, ty: nat, table: TypeTable, bound: bool, header: nat, target: Target)
    requires ty < |table.types| && schema.STuple? && v.VTuple? && table.types[ty].TTuple?
    requires |schema.items| == |v.values| == |table.types[ty].items|
    ensures ShapeError(schema, v, ty, table, bound) == ZipError(schema.items, v.values, table.types[ty].items, table, bound)
    ensures Size(schema, v, ONE) == ZipSize(schema.items, v.values, ONE) + 1
    ensures var w := ByteWeight(header, target); Size(schema, v, w) == ZipSize(schema.items, v.values, w) + (header + target.vecBytes(|schema.items|))
    ensures Conforms(schema, v) ==> forall k :: 0 <= k < |schema.items| ==> Conforms(schema.items[k], v.values[k])
  {
    hide ZipError, ZipSize;
  }

  lemma StructShape(schema: SurfaceSchema, v: SurfaceValue, ty: nat, table: TypeTable, bound: bool, header: nat, target: Target)
    requires ty < |table.types| && schema.SStruct? && v.VStruct? && table.types[ty].TStruct?
    ensures var layout := table.types[ty].layout;
      ShapeError(schema, v, ty, table, bound) ==
        if layout >= |table.structs| then Some(MissingLayout)
        else if |schema.fields| != |table.structs[layout]| then Some(Mismatch)
        else FieldsError(schema.fields, v.fields, table.structs[layout], table, bound)
    ensures Size(schema, v, ONE) == FieldsSize(schema.fields, v.fields, ONE) + 1
    ensures var w := ByteWeight(header, target); Size(schema, v, w) == FieldsSize(schema.fields, v.fields, w) + (header + target.vecBytes(|schema.fields|))
    ensures Conforms(schema, v) ==> forall k :: 0 <= k < |schema.fields| ==> FieldConforms(schema.fields[k], v.fields)
  {
    hide FieldsError, FieldsSize, FieldConforms;
  }

  lemma ChoiceShape(schema: SurfaceSchema, v: SurfaceValue, ty: nat, table: TypeTable, bound: bool, header: nat, target: Target)
    requires ty < |table.types| && schema.SChoice? && v.VChoice? && table.types[ty].TChoice?
    ensures var layout, found := table.types[ty].layout, FindVariant(schema.variants, v.variant);
      ShapeError(schema, v, ty, table, bound) ==
        if found.None? then Some(UnknownTag(v.variant))
        else if layout >= |table.choices| then Some(MissingLayout)
        else if found.value >= |table.choices[layout]| then Some(TooManyVariants)
        else PayloadError(schema.variants[found.value].payload, v.payload, table.choices[layout][found.value], table, bound)
    ensures var found := FindVariant(schema.variants, v.variant);
      found.Some? ==>
        && Size(schema, v, ONE) == PayloadSize(schema.variants[found.value].payload, v.payload, ONE) + 1
        && Size(schema, v, ByteWeight(header, target)) == PayloadSize(schema.variants[found.value].payload, v.payload, ByteWeight(header, target)) + header
        && (Conforms(schema, v) && v.payload.Some? && schema.variants[found.value].payload.Some? ==>
              Conforms(schema.variants[found.value].payload.value, v.payload.value))
  {
    hide FindVariant, PayloadError, PayloadSize;
  }

  lemma HandleShape(schema: SurfaceSchema, v: SurfaceValue, ty: nat, table: TypeTable, bound: bool, header: nat, target: Target)
    requires ty < |table.types| && schema.SHandle? && v.VHandle? && table.types[ty] == TAdapterHandle(v.typeId)
    ensures ShapeError(schema, v, ty, table, bound) == (if bound then None else Some(MissingBinding))
    ensures Size(schema, v, ONE) == 1 && Size(schema, v, ByteWeight(header, target)) == header
  {}

  method EncodeBytes(heap: PrivateHeap, schema: SurfaceSchema, value: SurfaceValue, expected: nat, target: Target, table: TypeTable)
    returns (result: Result<VmValue, SurfaceError>)
    requires heap.Valid() && expected < |table.types| && schema.SBytes? && value.VBytes?
    requires var t := table.types[expected]; t.TArray? && TypeAt(table, t.item) == Some(TUint8)
    modifies heap
    ensures heap.Valid() && AnchoredKept(old(heap.objects), heap.objects)
    ensures result.Ok? ==> Represents(AnchoredOnly(heap.objects), schema, value, expected, table, result.value)
    ensures result.Ok? ==> Stamped(AnchoredOnly(heap.objects), result.value, table.types[expected], target)
    ensures Grew(old(LoadOf(heap)), LoadOf(heap), Size(schema, value, ONE), Size(schema, value, ByteWeight(heap.header, target)))
    ensures Conforms(schema, value) ==>
      Answers(ShapeError(schema, value, expected, table, target.binding.Some?), old(RoomFor(heap, schema, value, target)), result)
  {
    hide AnchoredKept, StoredIn, Sound, Conforms, ShapeError, Size;
    BytesShape(schema, value, expected, table, target.binding.Some?, heap.header, target);
    var elements := ByteValues(value.bytes);
    RefsOfInRange(elements, |heap.objects|);
    result := AllocValue(heap, ArrayObject(target.moduleId, table.types[expected].item, elements, target.vecBytes(|elements|)));
    hide ByteValues, ObjectAt, AnchoredOnly;
  }

  lemma ListRepresents(slots: seq<HeapSlot>, schema: SurfaceSchema, v: SurfaceValue, ty: nat, table: TypeTable, val: VmValue)
    requires ty < |table.types| && schema.SList? && v.VList? && table.types[ty].TArray?
    requires var obj := ObjectAt(slots, val);
      obj.Some? && obj.value.ArrayObject? && RepresentsEach(slots, schema.item, v.values, table.types[ty].item, table, obj.value.elements)
    ensures Represents(slots, schema, v, ty, table, val)
  {}

  lemma TupleRepresents(slots: seq<HeapSlot>, schema: SurfaceSchema, v: SurfaceValue, ty: nat, table: TypeTable, val: VmValue)
    requires ty < |table.types| && schema.STuple? && v.VTuple? && table.types[ty].TTuple?
    requires var obj := ObjectAt(slots, val);
      obj.Some? && obj.value.TupleObject? && RepresentsZip(slots, schema.items, v.values, table.types[ty].items, table, obj.value.elements)
    ensures Represents(slots, schema, v, ty, table, val)
  {}

  lemma StructRepresents(slots: seq<HeapSlot>, schema: SurfaceSchema, v: SurfaceValue, ty: nat, table: TypeTable, val: VmValue)
    requires ty < |table.types| && schema.SStruct? && v.VStruct? && table.types[ty].TStruct? && table.types[ty].layout < |table.structs|
    requires var obj := ObjectAt(slots, val);
      obj.Some? && obj.value.StructObject? && RepresentsFields(slots, schema.fields, v.fields, table.structs[table.types[ty].layout], table, obj.value.fields)
    ensures Represents(slots, schema, v, ty, table, val)
  {}

  method EncodeList(heap: PrivateHeap, schema: SurfaceSchema, value: SurfaceValue, expected: nat, target: Target, table: TypeTable)
    returns (result: Result<VmValue, SurfaceError>)
    requires heap.Valid() && expected < |table.types| && schema.SList? && value.VList? && table.types[expected].TArray?
    modifies heap
    ensures heap.Valid() && AnchoredKept(old(heap.objects), heap.objects)
    ensures result.Ok? ==> Represents(AnchoredOnly(heap.objects), schema, value, expected, table, result.value)
    ensures result.Ok? ==> Stamped(AnchoredOnly(heap.objects), result.value, table.types[expected], target)
    ensures Grew(old(LoadOf(heap)), LoadOf(heap), Size(schema, value, ONE), Size(schema, value, ByteWeight(heap.header, target)))
    ensures Conforms(schema, value) ==>
      Answers(ShapeError(schema, value, expected, table, target.binding.Some?), old(RoomFor(heap, schema, value, target)), result)
    decreases schema, 0
  {
    hide Represents, AnchoredKept, StoredIn, Sound, Extends, ObjectAt, AnchoredOnly, Conforms, ShapeError, Size, Grew, HasRoom, LoadOf, Answers, RepresentsEach;
    ghost var start, w, bound := LoadOf(heap), ByteWeight(heap.header, target), target.binding.Some?;
    ghost var n, m := Size(schema, value, ONE), Size(schema, value, w);
    var item := table.types[expected].item;
    ghost var n1, m1 := EachSize(schema.item, value.values, ONE), EachSize(schema.item, value.values, w);
    ListShape(schema, value, expected, table, bound, heap.header, target);
    ghost var shape := ShapeError(schema, value, expected, table, bound);
    var elements := EncodeEach(heap, schema.item, value.values, item, target, table);
    ghost var before, mid := heap.objects, LoadOf(heap);
    if elements.Err? {
      result := Err(elements.error);
      GrewPart(start, mid, n, m, n1, m1);
      if Conforms(schema, value) { PartsThenNode(shape, heap.maxObjects, heap.maxBytes, start, mid, mid, n, m, n1, m1, m - m1, elements, result); }
      return;
    }
    EachInRange(AnchoredOnly(before), schema.item, value.values, item, table, elements.value);
    result := AllocValue(heap, ArrayObject(target.moduleId, item, elements.value, target.vecBytes(|elements.value|)));
    GrewWithin(start, mid, LoadOf(heap), n, m, n1, m1, 1, m - m1);
    if Conforms(schema, value) { PartsThenNode(shape, heap.maxObjects, heap.maxBytes, start, mid, LoadOf(heap), n, m, n1, m1, m - m1, elements, result); }
    AnchoredKeptThen(old(heap.objects), before, heap.objects);
    AnchoredExtends(before, heap.objects);
    EachExtends(AnchoredOnly(before), AnchoredOnly(heap.objects), schema.item, value.values, item, table, elements.value);
    if result.Ok? { ListRepresents(AnchoredOnly(heap.objects), schema, value, expected, table, result.value); }
  }

  method EncodeTuple(heap: PrivateHeap, schema: SurfaceSchema, value: SurfaceValue, expected: nat, target: Target, table: TypeTable)
    returns (result: Result<VmValue, SurfaceError>)
    requires heap.Valid() && expected < |table.types| && schema.STuple? && value.VTuple? && table.types[expected].TTuple?
    requires |schema.items| == |value.values| == |table.types[expected].items|
    modifies heap
    ensures heap.Valid() && AnchoredKept(old(heap.objects), heap.objects)
    ensures result.Ok? ==> Represents(AnchoredOnly(heap.objects), schema, value, expected, table, result.value)
    ensures result.Ok? ==> Stamped(AnchoredOnly(heap.objects), result.value, table.types[expected], target)
    ensures Grew(old(LoadOf(heap)), LoadOf(heap), Size(schema, value, ONE), Size(schema, value, ByteWeight(heap.header, target)))
    ensures Conforms(schema, value) ==>
      Answers(ShapeError(schema, value, expected, table, target.binding.Some?), old(RoomFor(heap, schema, value, target)), result)
    decreases schema, 0
  {
    hide Represents, AnchoredKept, StoredIn, Sound, Extends, ObjectAt, AnchoredOnly, Conforms, ShapeError, Size, Grew, HasRoom, LoadOf, Answers, RepresentsZip;
    ghost var start, w, bound := LoadOf(heap), ByteWeight(heap.header, target), target.binding.Some?;
    ghost var n, m := Size(schema, value, ONE), Size(schema, value, w);
    var tys := table.types[expected].items;
    ghost var n1, m1 := ZipSize(schema.items, value.values, ONE), ZipSize(schema.items, value.values, w);
    TupleShape(schema, value, expected, table, bound, heap.header, target);
    ghost var shape := ShapeError(schema, value, expected, table, bound);
    var elements := EncodeZip(heap, schema.items, value.values, tys, target, table);
    ghost var before, mid := heap.objects, LoadOf(heap);
    if elements.Err? {
      result := Err(elements.error);
      GrewPart(start, mid, n, m, n1, m1);
      if Conforms(schema, value) { PartsThenNode(shape, heap.maxObjects, heap.maxBytes, start, mid, mid, n, m, n1, m1, m - m1, elements, result); }
      return;
    }
    ZipInRange(AnchoredOnly(before), schema.items, value.values, tys, table, elements.value);
    result := AllocValue(heap, TupleObject(elements.value, target.vecBytes(|elements.value|)));
    GrewWithin(start, mid, LoadOf(heap), n, m, n1, m1, 1, m - m1);
    if Conforms(schema, value) { PartsThenNode(shape, heap.maxObjects, heap.maxBytes, start, mid, LoadOf(heap), n, m, n1, m1, m - m1, elements, result); }
    AnchoredKeptThen(old(heap.objects), before, heap.objects);
    AnchoredExtends(before, heap.objects);
    ZipExtends(AnchoredOnly(before), AnchoredOnly(heap.objects), schema.items, value.values, tys, table, elements.value);
    if result.Ok? { TupleRepresents(AnchoredOnly(heap.objects), schema, value, expected, table, result.value); }
  }

  method EncodeStruct(heap: PrivateHeap, schema: SurfaceSchema, value: SurfaceValue, expected: nat, target: Target, table: TypeTable)
    returns (result: Result<VmValue, SurfaceError>)
    requires heap.Valid() && expected < |table.types| && schema.SStruct? && value.VStruct? && table.types[expected].TStruct?
    modifies heap
    ensures heap.Valid() && AnchoredKept(old(heap.objects), heap.objects)
    ensures result.Ok? ==> Represents(AnchoredOnly(heap.objects), schema, value, expected, table, result.value)
    ensures result.Ok? ==> Stamped(AnchoredOnly(heap.objects), result.value, table.types[expected], target)
    ensures Grew(old(LoadOf(heap)), LoadOf(heap), Size(schema, value, ONE), Size(schema, value, ByteWeight(heap.header, target)))
    ensures Conforms(schema, value) ==>
      Answers(ShapeError(schema, value, expected, table, target.binding.Some?), old(RoomFor(heap, schema, value, target)), result)
    decreases schema, 0
  {
    hide Represents, AnchoredKept, StoredIn, Sound, Extends, ObjectAt, AnchoredOnly, Conforms, ShapeError, Size, Grew, HasRoom, LoadOf, Answers, RepresentsFields;
    AnchoredKeptSelf(heap.objects);
    ghost var start, w, bound := LoadOf(heap), ByteWeight(heap.header, target), target.binding.Some?;
    ghost var n, m := Size(schema, value, ONE), Size(schema, value, w);
    ghost var n1, m1 := FieldsSize(schema.fields, value.fields, ONE), FieldsSize(schema.fields, value.fields, w);
    StructShape(schema, value, expected, table, bound, heap.header, target);
    ghost var shape, room := ShapeError(schema, value, expected, table, bound), RoomFor(heap, schema, value, target);
    GrewNothing(start, n, m);
    var layout := table.types[expected].layout;
    if layout >= |table.structs| {
      result := Err(MissingLayout);
      ShapeFails(shape, room, result);
      return;
    }
    var tys := table.structs[layout];
    if |schema.fields| != |tys| {
      result := Err(Mismatch);
      ShapeFails(shape, room, result);
      return;
    }
    var elements := EncodeFields(heap, schema.fields, value.fields, tys, target, table);
    ghost var before, mid := heap.objects, LoadOf(heap);
    if elements.Err? {
      result := Err(elements.error);
      GrewPart(start, mid, n, m, n1, m1);
      if Conforms(schema, value) { PartsThenNode(shape, heap.maxObjects, heap.maxBytes, start, mid, mid, n, m, n1, m1, m - m1, elements, result); }
      return;
    }
    FieldsInRange(AnchoredOnly(before), schema.fields, value.fields, tys, table, elements.value);
    result := AllocValue(heap, StructObject(target.moduleId, layout, elements.value, target.vecBytes(|elements.value|)));
    GrewWithin(start, mid, LoadOf(heap), n, m, n1, m1, 1, m - m1);
    if Conforms(schema, value) { PartsThenNode(shape, heap.maxObjects, heap.maxBytes, start, mid, LoadOf(heap), n, m, n1, m1, m - m1, elements, result); }
    AnchoredKeptThen(old(heap.objects), before, heap.objects);
    AnchoredExtends(before, heap.objects);
    FieldsExtends(AnchoredOnly(before), AnchoredOnly(heap.objects), schema.fields, value.fields, tys, table, elements.value);
    if result.Ok? { StructRepresents(AnchoredOnly(heap.objects), schema, value, expected, table, result.value); }
  }

  method EncodeChoice(heap: PrivateHeap, schema: SurfaceSchema, value: SurfaceValue, expected: nat, target: Target, table: TypeTable)
    returns (result: Result<VmValue, SurfaceError>)
    requires heap.Valid() && expected < |table.types| && schema.SChoice? && value.VChoice? && table.types[expected].TChoice?
    modifies heap
    ensures heap.Valid() && AnchoredKept(old(heap.objects), heap.objects)
    ensures result.Ok? ==> Represents(AnchoredOnly(heap.objects), schema, value, expected, table, result.value)
    ensures result.Ok? ==> Stamped(AnchoredOnly(heap.objects), result.value, table.types[expected], target)
    ensures Grew(old(LoadOf(heap)), LoadOf(heap), Size(schema, value, ONE), Size(schema, value, ByteWeight(heap.header, target)))
    ensures Conforms(schema, value) ==>
      Answers(ShapeError(schema, value, expected, table, target.binding.Some?), old(RoomFor(heap, schema, value, target)), result)
    decreases schema, 0
  {
    hide AnchoredKept, StoredIn, Sound, Extends, ObjectAt, AnchoredOnly, Conforms, ShapeError, Size, Grew, HasRoom, LoadOf, Answers, Represents, RepresentsPayload;
    AnchoredKeptSelf(heap.objects);
    ghost var start, w, bound := LoadOf(heap), ByteWeight(heap.header, target), target.binding.Some?;
    ghost var n, m := Size(schema, value, ONE), Size(schema, value, w);
    ChoiceShape(schema, value, expected, table, bound, heap.header, target);
    ghost var shape, room := ShapeError(schema, value, expected, table, bound), RoomFor(heap, schema, value, target);
    GrewNothing(start, n, m);
    var found := FindVariant(schema.variants, value.variant);
    if found.None? {
      result := Err(UnknownTag(value.variant));
      ShapeFails(shape, room, result);
      return;
    }
    var layout := table.types[expected].layout;
    if layout >= |table.choices| {
      result := Err(MissingLayout);
      ShapeFails(shape, room, result);
      return;
    }
    if found.value >= |table.choices[layout]| {
      result := Err(TooManyVariants);
      ShapeFails(shape, room, result);
      return;
    }
    var s, ty := schema.variants[found.value].payload, table.choices[layout][found.value];
    if !(s.Some? == ty.Some? == value.payload.Some?) {
      result := Err(Mismatch);
      ShapeFails(shape, room, result);
      return;
    }
    ghost var n1, m1 := PayloadSize(s, value.payload, ONE), PayloadSize(s, value.payload, w);
    var payload := EncodePayload(heap, s, value.payload, ty, target, table);
    ghost var before, mid := heap.objects, LoadOf(heap);
    if payload.Err? {
      result := Err(payload.error);
      GrewPart(start, mid, n, m, n1, m1);
      if Conforms(schema, value) { PartsThenNode(shape, heap.maxObjects, heap.maxBytes, start, mid, mid, n, m, n1, m1, m - m1, payload, result); }
      return;
    }
    PayloadInRange(AnchoredOnly(before), s, value.payload, ty, table, payload.value);
    result := AllocValue(heap, ChoiceObject(target.moduleId, layout, found.value % U16_COUNT, payload.value));
    GrewWithin(start, mid, LoadOf(heap), n, m, n1, m1, 1, m - m1);
    if Conforms(schema, value) { PartsThenNode(shape, heap.maxObjects, heap.maxBytes, start, mid, LoadOf(heap), n, m, n1, m1, m - m1, payload, result); }
    AnchoredKeptThen(old(heap.objects), before, heap.objects);
    if result.Ok? {
      AnchoredExtends(before, heap.objects);
      PayloadExtends(AnchoredOnly(before), AnchoredOnly(heap.objects), s, value.payload, ty, table, payload.value);
      ChoiceRepresents(AnchoredOnly(heap.objects), schema, value, expected, table, result.value, found.value);
    }
  }

  /** The payload of a choice, or null if its variant has none. */
  method EncodePayload(heap: PrivateHeap, schema: Option<SurfaceSchema>, value: Option<SurfaceValue>, ty: Option<nat>, target: Target, table: TypeTable)
    returns (result: Result<VmValue, SurfaceError>)
    requires heap.Valid() && schema.Some? == ty.Some? == value.Some?
    modifies heap
    ensures heap.Valid() && AnchoredKept(old(heap.objects), heap.objects)
    ensures result.Ok? ==> RepresentsPayload(AnchoredOnly(heap.objects), schema, value, ty, table, result.value)
    ensures Grew(old(LoadOf(heap)), LoadOf(heap), PayloadSize(schema, value, ONE), PayloadSize(schema, value, ByteWeight(heap.header, target)))
    ensures (schema.Some? ==> Conforms(schema.value, value.value)) ==>
      Answers(PayloadError(schema, value, ty, table, target.binding.Some?),
        old(PayloadRoom(heap, schema, value, target)), result)
    decreases schema, 0
  {
    hide Validate, AnchoredKept, StoredIn, Sound, Represents, AnchoredOnly, Conforms, ShapeError, Size, Grew, HasRoom, LoadOf;
    if schema.Some? {
      result := EncodeSurface(heap, schema.value, value.value, ty.value, target, table);
    } else {
      AnchoredKeptSelf(heap.objects);
      GrewNothing(LoadOf(heap), 0, 0);
      result := Ok(Null);
    }
  }

  lemma PayloadInRange(slots: seq<HeapSlot>, schema: Option<SurfaceSchema>, v: Option<SurfaceValue>, ty: Option<nat>, table: TypeTable, val: VmValue)
    requires RepresentsPayload(slots, schema, v, ty, table, val)
    ensures RefsInRange(RefsOf([val]), |slots|)
  {
    hide Represents;
    if schema.Some? { NonNullEncoding(slots, schema.value, v.value, ty.value, table, val); }
    RefsOfInRange([val], |slots|);
  }

  lemma ChoiceRepresents(slots: seq<HeapSlot>, schema: SurfaceSchema, v: SurfaceValue, ty: nat, table: TypeTable, val: VmValue, i: nat)
    requires schema.SChoice? && v.VChoice? && ty < |table.types| && table.types[ty].TChoice? && table.types[ty].layout < |table.choices|
    requires FindVariant(schema.variants, v.variant) == Some(i) && i < |table.choices[table.types[ty].layout]|
    requires var obj := ObjectAt(slots, val);
      && obj.Some? && obj.value.ChoiceObject? && obj.value.variantIdx == i % U16_COUNT
      && RepresentsPayload(slots, schema.variants[i].payload, v.payload, table.choices[table.types[ty].layout][i], table, obj.value.payload)
    ensures Represents(slots, schema, v, ty, table, val)
  {}

  method EncodeHandle(heap: PrivateHeap, schema: SurfaceSchema, value: SurfaceValue, expected: nat, target: Target, table: TypeTable)
    returns (result: Result<VmValue, SurfaceError>)
    requires heap.Valid() && expected < |table.types| && schema.SHandle? && value.VHandle?
    requires table.types[expected].TAdapterHandle? && table.types[expected].typeId == value.typeId
    modifies heap
    ensures heap.Valid() && AnchoredKept(old(heap.objects), heap.objects)
    ensures result.Ok? ==> Represents(AnchoredOnly(heap.objects), schema, value, expected, table, result.value)
    ensures result.Ok? ==> Stamped(AnchoredOnly(heap.objects), result.value, table.types[expected], target)
    ensures Grew(old(LoadOf(heap)), LoadOf(heap), Size(schema, value, ONE), Size(schema, value, ByteWeight(heap.header, target)))
    ensures Conforms(schema, value) ==>
      Answers(ShapeError(schema, value, expected, table, target.binding.Some?), old(RoomFor(heap, schema, value, target)), result)
  {
    hide AnchoredKept, StoredIn, Sound, ObjectAt, AnchoredOnly, Conforms, ShapeError, Size;
    AnchoredKeptSelf(heap.objects);
    HandleShape(schema, value, expected, table, target.binding.Some?, heap.header, target);
    if target.binding.None? {
      return Err(MissingBinding);
    }
    result := AllocValue(heap, HandleObject(AdapterHandle(target.binding.value, value.typeId, value.id)));
  }
}
