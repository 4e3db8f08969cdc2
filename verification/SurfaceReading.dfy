/** What a machine value in a heap says under a schema and a type, and that decoding finds exactly that. */
module SurfaceReading {
  import opened Machine
  import opened HeapObjects
  import opened Surface
  import opened SurfaceCodec

  /** The value reads as `v`: it is of the type the schema asks for, through all its parts. */
  ghost predicate Reads(slots: seq<HeapSlot>, schema: SurfaceSchema, val: VmValue, ty: nat, table: TypeTable, v: SurfaceValue)
    decreases schema, 1
  {
    ty < |table.types| &&
    var t, obj := table.types[ty], ObjectAt(slots, val);
    if IsScalar(schema) then ScalarReads(schema, val, t, v)
    else
    match schema
    case SBytes =>
      && t.TArray? && TypeAt(table, t.item) == Some(TUint8) && obj.Some? && obj.value.ArrayObject?
      && v.VBytes? && obj.value.elements == ByteValues(v.bytes)
    case SOptional(inner) => t.TNullable? && if val.Null? then v.VNull? else Reads(slots, inner, val, t.item, table, v)
    case SList(item) =>
      && t.TArray? && obj.Some? && obj.value.ArrayObject? && v.VList?
      && EachReads(slots, item, obj.value.elements, t.item, table, v.values)
    case STuple(items) =>
      && t.TTuple? && obj.Some? && obj.value.TupleObject? && v.VTuple?
      && ZipReads(slots, items, obj.value.elements, t.items, table, v.values)
    case SStruct(_, fields) =>
      && t.TStruct? && obj.Some? && obj.value.StructObject? && t.layout < |table.structs| && v.VStruct?
      && FieldsRead(slots, fields, obj.value.fields, table.structs[t.layout], table, v.fields)
    case SChoice(_, variants) =>
      && t.TChoice? && obj.Some? && obj.value.ChoiceObject? && t.layout < |table.choices| && v.VChoice?
      && var i := obj.value.variantIdx;
      && i < |variants| && i < |table.choices[t.layout]| && v.variant == variants[i].name
      && PayloadReads(slots, variants[i].payload, obj.value.payload, table.choices[t.layout][i], table, v.payload)
    case SHandle(_) =>
      && t.TAdapterHandle? && obj.Some? && obj.value.HandleObject?
      && obj.value.handle.typeId == t.typeId && v == VHandle(obj.value.handle.typeId, obj.value.handle.id)
    case _ => false
  }

  predicate ScalarReads(schema: SurfaceSchema, val: VmValue, t: BytecodeType, v: SurfaceValue) {
    match schema
    case SNull => val.Null? && t.TNull? && v.VNull?
    case SBool => val.Bool? && t.TBool? && v == VBool(val.b)
    case SU16 => val.Uint16? && t.TUint16? && v == VU16(val.u16)
    case SI32 => val.Int32? && t.TInt32? && v == VI32(val.i32)
    case SI64 => val.Int64? && t.TInt64? && v == VI64(val.i64)
    case SU32 => val.Uint32? && t.TUint32? && v == VU32(val.u32)
    case SU64 => val.Uint64? && t.TUint64? && v == VU64(val.u64)
    case SF32 => val.Float32? && t.TFloat32? && v == VF32(NormalizeF32(val.bits32))
    case SF64 => val.Float64? && t.TFloat64? && v == VF64(NormalizeF64(val.bits64))
    case _ => false
  }

  ghost predicate EachReads(slots: seq<HeapSlot>, item: SurfaceSchema, elements: seq<VmValue>, ty: nat, table: TypeTable, vs: seq<SurfaceValue>)
    decreases item, 2
  {
    |vs| == |elements| && forall k :: 0 <= k < |vs| ==> Reads(slots, item, elements[k], ty, table, vs[k])
  }

  ghost predicate ZipReads(slots: seq<HeapSlot>, items: seq<SurfaceSchema>, elements: seq<VmValue>, tys: seq<nat>, table: TypeTable, vs: seq<SurfaceValue>)
    decreases items, 0
  {
    |items| == |elements| == |tys| == |vs| && forall k :: 0 <= k < |items| ==> Reads(slots, items[k], elements[k], tys[k], table, vs[k])
  }

  ghost predicate FieldsRead(slots: seq<HeapSlot>, fields: seq<SurfaceField>, elements: seq<VmValue>, tys: seq<nat>, table: TypeTable, vs: seq<(string, SurfaceValue)>)
    decreases fields, 0
  {
    && |fields| == |elements| == |tys| == |vs|
    && forall k :: 0 <= k < |fields| ==> vs[k].0 == fields[k].name && FieldReads(slots, fields[k], elements[k], tys[k], table, vs[k].1)
  }

  ghost predicate FieldReads(slots: seq<HeapSlot>, field: SurfaceField, val: VmValue, ty: nat, table: TypeTable, v: SurfaceValue)
    decreases field, 0
  {
    Reads(slots, field.schema, val, ty, table, v)
  }

  ghost predicate PayloadReads(slots: seq<HeapSlot>, schema: Option<SurfaceSchema>, val: VmValue, ty: Option<nat>, table: TypeTable, v: Option<SurfaceValue>)
    decreases schema, 0
  {
    schema.Some? == ty.Some? == v.Some? && (schema.Some? ==> Reads(slots, schema.value, val, ty.value, table, v.value))
  }

  /** Decoding gives a value exactly if the heap says so. */
  lemma {:induction false} DecodeIffReads(slots: seq<HeapSlot>, schema: SurfaceSchema, val: VmValue, ty: nat, table: TypeTable, v: SurfaceValue)
    ensures Decode(slots, schema, val, ty, table) == Ok(v) <==> Reads(slots, schema, val, ty, table, v)
    decreases schema, 1
  {
    hide Decode, Reads;
    if ty >= |table.types| {
      NothingDecodes(slots, schema, val, ty, table, v);
    } else if IsScalar(schema) {
      ScalarDecodes(slots, schema, val, ty, table, v);
    } else {
      match schema
      case SHandle(_) => HandleDecodes(slots, schema, val, ty, table, v);
      case SBytes => BytesDecode(slots, schema, val, ty, table, v);
      case SOptional(inner) =>
        if table.types[ty].TNullable? && !val.Null? { DecodeIffReads(slots, inner, val, table.types[ty].item, table, v); }
        OptionalDecodes(slots, schema, val, ty, table, v);
      case SList(_) => ListDecodes(slots, schema, val, ty, table, v);
      case STuple(_) => TupleDecodes(slots, schema, val, ty, table, v);
      case SStruct(_, _) => StructDecodes(slots, schema, val, ty, table, v);
      case SChoice(_, _) => ChoiceDecodes(slots, schema, val, ty, table, v);
    }
  }

  lemma NothingDecodes(slots: seq<HeapSlot>, schema: SurfaceSchema, val: VmValue, ty: nat, table: TypeTable, v: SurfaceValue)
    requires ty >= |table.types|
    ensures Decode(slots, schema, val, ty, table) == Err(MissingType) && !Reads(slots, schema, val, ty, table, v)
  {}

  lemma ScalarDecodes(slots: seq<HeapSlot>, schema: SurfaceSchema, val: VmValue, ty: nat, table: TypeTable, v: SurfaceValue)
    requires IsScalar(schema) && ty < |table.types|
    ensures Decode(slots, schema, val, ty, table) == Ok(v) <==> Reads(slots, schema, val, ty, table, v)
  {
    OneScalarDecodes(schema, val, table.types[ty], v);
    hide DecodeScalar, ScalarReads;
  }

  lemma OneScalarDecodes(schema: SurfaceSchema, val: VmValue, t: BytecodeType, v: SurfaceValue)
    requires IsScalar(schema)
    ensures DecodeScalar(schema, val, t) == Ok(v) <==> ScalarReads(schema, val, t, v)
  {
    hide NormalizeF32, NormalizeF64;
  }

  lemma HandleDecodes(slots: seq<HeapSlot>, schema: SurfaceSchema, val: VmValue, ty: nat, table: TypeTable, v: SurfaceValue)
    requires schema.SHandle? && ty < |table.types|
    ensures Decode(slots, schema, val, ty, table) == Ok(v) <==> Reads(slots, schema, val, ty, table, v)
  {
    hide TypeAt, DecodeEach, DecodeZip, DecodeFields, DecodeBytes;
  }

  lemma BytesDecode(slots: seq<HeapSlot>, schema: SurfaceSchema, val: VmValue, ty: nat, table: TypeTable, v: SurfaceValue)
    requires schema.SBytes? && ty < |table.types|
    ensures Decode(slots, schema, val, ty, table) == Ok(v) <==> Reads(slots, schema, val, ty, table, v)
  {
    hide TypeAt, DecodeBytes, ByteValues, DecodeEach, DecodeZip, DecodeFields, Reads;
    var obj := ObjectAt(slots, val);
    BytesRead(slots, schema, val, ty, table, v);
    if obj.Some? && obj.value.ArrayObject? { BytesFromElements(obj.value.elements, v); }
  }

  lemma BytesRead(slots: seq<HeapSlot>, schema: SurfaceSchema, val: VmValue, ty: nat, table: TypeTable, v: SurfaceValue)
    requires schema.SBytes? && ty < |table.types|
    ensures Reads(slots, schema, val, ty, table, v) <==>
      var t, obj := table.types[ty], ObjectAt(slots, val);
      && t.TArray? && TypeAt(table, t.item) == Some(TUint8) && obj.Some? && obj.value.ArrayObject?
      && v.VBytes? && obj.value.elements == ByteValues(v.bytes)
  {}

  lemma BytesFromElements(elements: seq<VmValue>, v: SurfaceValue)
    ensures DecodeBytes(elements) == Ok(v) <==> v.VBytes? && elements == ByteValues(v.bytes)
  {
    if forall k :: 0 <= k < |elements| ==> elements[k].Uint8? {
      var bytes := seq(|elements|, k requires 0 <= k < |elements| && elements[k].Uint8? => elements[k].u8);
      assert DecodeBytes(elements) == Ok(VBytes(bytes));
      assert ByteValues(bytes) == elements;
      if v.VBytes? && elements == ByteValues(v.bytes) {
        forall k | 0 <= k < |bytes| ensures bytes[k] == v.bytes[k] { assert ByteValues(v.bytes)[k] == Uint8(v.bytes[k]); }
        assert bytes == v.bytes;
      }
    }
  }

  lemma OptionalDecodes(slots: seq<HeapSlot>, schema: SurfaceSchema, val: VmValue, ty: nat, table: TypeTable, v: SurfaceValue)
    requires schema.SOptional? && ty < |table.types|
    requires table.types[ty].TNullable? && !val.Null? ==>
      (Decode(slots, schema.inner, val, table.types[ty].item, table) == Ok(v) <==> Reads(slots, schema.inner, val, table.types[ty].item, table, v))
    ensures Decode(slots, schema, val, ty, table) == Ok(v) <==> Reads(slots, schema, val, ty, table, v)
  {
    hide TypeAt, DecodeEach, DecodeZip, DecodeFields, DecodeBytes;
  }

  lemma {:induction false} ListDecodes(slots: seq<HeapSlot>, schema: SurfaceSchema, val: VmValue, ty: nat, table: TypeTable, v: SurfaceValue)
    requires schema.SList? && ty < |table.types|
    ensures Decode(slots, schema, val, ty, table) == Ok(v) <==> Reads(slots, schema, val, ty, table, v)
    decreases schema, 0
  {
    hide TypeAt, DecodeEach, DecodeZip, DecodeFields, DecodeBytes, EachReads, Reads;
    var t, obj := table.types[ty], ObjectAt(slots, val);
    ListReads(slots, schema, val, ty, table, v);
    if t.TArray? && obj.Some? && obj.value.ArrayObject? && v.VList? {
      EachDecodes(slots, schema.item, obj.value.elements, t.item, table, v.values);
    }
  }

  lemma ListReads(slots: seq<HeapSlot>, schema: SurfaceSchema, val: VmValue, ty: nat, table: TypeTable, v: SurfaceValue)
    requires schema.SList? && ty < |table.types|
    ensures Reads(slots, schema, val, ty, table, v) <==>
      var t, obj := table.types[ty], ObjectAt(slots, val);
      && t.TArray? && obj.Some? && obj.value.ArrayObject? && v.VList?
      && EachReads(slots, schema.item, obj.value.elements, t.item, table, v.values)
  {}

  lemma {:induction false} EachDecodes(slots: seq<HeapSlot>, item: SurfaceSchema, elements: seq<VmValue>, ty: nat, table: TypeTable, vs: seq<SurfaceValue>)
    ensures DecodeEach(slots, item, elements, ty, table) == Ok(vs) <==> EachReads(slots, item, elements, ty, table, vs)
    decreases item, 2
  {
    hide Decode, Reads, DecodeEach;
    DecodeEachOk(slots, item, elements, ty, table, vs);
    forall k | 0 <= k < |vs| && k < |elements|
      ensures Decode(slots, item, elements[k], ty, table) == Ok(vs[k]) <==> Reads(slots, item, elements[k], ty, table, vs[k])
    {
      DecodeIffReads(slots, item, elements[k], ty, table, vs[k]);
    }
  }

  lemma {:induction false} TupleDecodes(slots: seq<HeapSlot>, schema: SurfaceSchema, val: VmValue, ty: nat, table: TypeTable, v: SurfaceValue)
    requires schema.STuple? && ty < |table.types|
    ensures Decode(slots, schema, val, ty, table) == Ok(v) <==> Reads(slots, schema, val, ty, table, v)
    decreases schema, 0
  {
    hide TypeAt, DecodeEach, DecodeZip, DecodeFields, DecodeBytes, Reads;
    var t, obj := table.types[ty], ObjectAt(slots, val);
    TupleReads(slots, schema, val, ty, table, v);
    if t.TTuple? && obj.Some? && obj.value.TupleObject? && |schema.items| == |obj.value.elements| == |t.items| && v.VTuple? {
      ZipDecodes(slots, schema.items, obj.value.elements, t.items, table, v.values);
    }
  }

  lemma TupleReads(slots: seq<HeapSlot>, schema: SurfaceSchema, val: VmValue, ty: nat, table: TypeTable, v: SurfaceValue)
    requires schema.STuple? && ty < |table.types|
    ensures Reads(slots, schema, val, ty, table, v) <==>
      var t, obj := table.types[ty], ObjectAt(slots, val);
      && t.TTuple? && obj.Some? && obj.value.TupleObject? && |schema.items| == |obj.value.elements| == |t.items| && v.VTuple?
      && ZipReads(slots, schema.items, obj.value.elements, t.items, table, v.values)
  {}

  lemma {:induction false} ZipDecodes(slots: seq<HeapSlot>, items: seq<SurfaceSchema>, elements: seq<VmValue>, tys: seq<nat>, table: TypeTable, vs: seq<SurfaceValue>)
    requires |items| == |elements| == |tys|
    ensures DecodeZip(slots, items, elements, tys, table) == Ok(vs) <==> ZipReads(slots, items, elements, tys, table, vs)
    decreases items, 0
  {
    hide Decode, Reads, DecodeZip;
    DecodeZipOk(slots, items, elements, tys, table, vs);
    forall k | 0 <= k < |vs| && k < |elements|
      ensures Decode(slots, items[k], elements[k], tys[k], table) == Ok(vs[k]) <==> Reads(slots, items[k], elements[k], tys[k], table, vs[k])
    {
      DecodeIffReads(slots, items[k], elements[k], tys[k], table, vs[k]);
    }
  }

  lemma {:induction false} StructDecodes(slots: seq<HeapSlot>, schema: SurfaceSchema, val: VmValue, ty: nat, table: TypeTable, v: SurfaceValue)
    requires schema.SStruct? && ty < |table.types|
    ensures Decode(slots, schema, val, ty, table) == Ok(v) <==> Reads(slots, schema, val, ty, table, v)
    decreases schema, 0
  {
    hide TypeAt, DecodeEach, DecodeZip, DecodeFields, DecodeBytes, Reads;
    var t, obj := table.types[ty], ObjectAt(slots, val);
    StructReads(slots, schema, val, ty, table, v);
    if t.TStruct? && obj.Some? && obj.value.StructObject? && t.layout < |table.structs| && v.VStruct? &&
      |schema.fields| == |obj.value.fields| == |table.structs[t.layout]|
    {
      FieldsDecode(slots, schema.fields, obj.value.fields, table.structs[t.layout], table, v.fields);
    }
  }

  lemma StructReads(slots: seq<HeapSlot>, schema: SurfaceSchema, val: VmValue, ty: nat, table: TypeTable, v: SurfaceValue)
    requires schema.SStruct? && ty < |table.types|
    ensures Reads(slots, schema, val, ty, table, v) <==>
      var t, obj := table.types[ty], ObjectAt(slots, val);
      && t.TStruct? && obj.Some? && obj.value.StructObject? && t.layout < |table.structs| && v.VStruct?
      && |schema.fields| == |obj.value.fields| == |table.structs[t.layout]|
      && FieldsRead(slots, schema.fields, obj.value.fields, table.structs[t.layout], table, v.fields)
  {}

  lemma {:induction false} FieldsDecode(slots: seq<HeapSlot>, fields: seq<SurfaceField>, elements: seq<VmValue>, tys: seq<nat>, table: TypeTable, vs: seq<(string, SurfaceValue)>)
    requires |fields| == |elements| == |tys|
    ensures DecodeFields(slots, fields, elements, tys, table) == Ok(vs) <==> FieldsRead(slots, fields, elements, tys, table, vs)
    decreases fields, 0
  {
    hide Decode, Reads, DecodeFields;
    DecodeFieldsOk(slots, fields, elements, tys, table, vs);
    forall k | 0 <= k < |vs| && k < |elements|
      ensures Decode(slots, fields[k].schema, elements[k], tys[k], table) == Ok(vs[k].1) <==> FieldReads(slots, fields[k], elements[k], tys[k], table, vs[k].1)
    {
      DecodeIffReads(slots, fields[k].schema, elements[k], tys[k], table, vs[k].1);
    }
  }

  lemma {:induction false} ChoiceDecodes(slots: seq<HeapSlot>, schema: SurfaceSchema, val: VmValue, ty: nat, table: TypeTable, v: SurfaceValue)
    requires schema.SChoice? && ty < |table.types|
    ensures Decode(slots, schema, val, ty, table) == Ok(v) <==> Reads(slots, schema, val, ty, table, v)
    decreases schema, 0
  {
    hide TypeAt, DecodeEach, DecodeZip, DecodeFields, DecodeBytes, Reads;
    var t, obj := table.types[ty], ObjectAt(slots, val);
    ChoiceReads(slots, schema, val, ty, table, v);
    if t.TChoice? && obj.Some? && obj.value.ChoiceObject? && t.layout < |table.choices| && v.VChoice? {
      var i := obj.value.variantIdx;
      if i < |schema.variants| && i < |table.choices[t.layout]| {
        var s, p := schema.variants[i].payload, table.choices[t.layout][i];
        if s.Some? && p.Some? && v.payload.Some? { DecodeIffReads(slots, s.value, obj.value.payload, p.value, table, v.payload.value); }
      }
    }
  }

  lemma ChoiceReads(slots: seq<HeapSlot>, schema: SurfaceSchema, val: VmValue, ty: nat, table: TypeTable, v: SurfaceValue)
    requires schema.SChoice? && ty < |table.types|
    ensures Reads(slots, schema, val, ty, table, v) <==>
      var t, obj := table.types[ty], ObjectAt(slots, val);
      && t.TChoice? && obj.Some? && obj.value.ChoiceObject? && t.layout < |table.choices| && v.VChoice?
      && var i := obj.value.variantIdx;
      && i < |schema.variants| && i < |table.choices[t.layout]| && v.variant == schema.variants[i].name
      && PayloadReads(slots, schema.variants[i].payload, obj.value.payload, table.choices[t.layout][i], table, v.payload)
  {}
}
