/** What the codec stores for surface values, decoding it back, and the round trip. */
module SurfaceCodec {
  import opened Machine
  import opened HeapObjects
  import opened ReleaseCascade
  import opened HeapStorage
  import opened Heap
  import opened Surface

  datatype BytecodeType =
    | TNull | TBool | TInt8 | TInt16 | TInt32 | TInt64
    | TUint8 | TUint16 | TUint32 | TUint64 | TFloat32 | TFloat64
    | TAdapterHandle(typeId: OpaqueTypeId)
    | TStruct(layout: nat)
    | TArray(item: nat)
    | TNullable(item: nat)
    | TTuple(items: seq<nat>)
    | TChoice(layout: nat)
    | TConstraint(name: string)
    | TFunction(params: seq<nat>, ret: nat)
    | TChoiceVariant(layout: nat, variant: nat)
    | TAny

  /** The tables of a bytecode module that the codec reads: types, the field types of each struct
      layout, and the optional payload type of each variant of each choice layout. */
  datatype TypeTable = TypeTable(types: seq<BytecodeType>, structs: seq<seq<nat>>, choices: seq<seq<Option<nat>>>)

  function TypeAt(table: TypeTable, ty: nat): Option<BytecodeType> {
    if ty < |table.types| then Some(table.types[ty]) else None
  }

  // ----- float normalisation, on bit patterns -----

  const CANONICAL_F32_NAN: nat := 0x7FC0_0000
  const CANONICAL_F64_NAN: nat := 0x7FF8_0000_0000_0000

  /** NaNs become one canonical NaN and negative zero becomes zero. */
  function NormalizeF32(bits: nat): nat {
    if bits % 0x8000_0000 > 0x7F80_0000 then CANONICAL_F32_NAN
    else if bits == 0x8000_0000 then 0
    else bits
  }

  function NormalizeF64(bits: nat): nat {
    if bits % 0x8000_0000_0000_0000 > 0x7FF0_0000_0000_0000 then CANONICAL_F64_NAN
    else if bits == 0x8000_0000_0000_0000 then 0
    else bits
  }

  lemma NormalizeTwice(bits: nat)
    ensures NormalizeF32(NormalizeF32(bits)) == NormalizeF32(bits)
    ensures NormalizeF64(NormalizeF64(bits)) == NormalizeF64(bits)
  {}

  /** By sign, exponent and fraction: what has the largest exponent and a fraction is a NaN, and the
      zero with a sign is the other zero. */
  lemma NormalizeMeans32(sign: nat, exponent: nat, fraction: nat)
    requires sign < 2 && exponent < 0x100 && fraction < 0x80_0000
    ensures var bits := sign * 0x8000_0000 + exponent * 0x80_0000 + fraction;
      NormalizeF32(bits) ==
        if exponent == 0xFF && fraction != 0 then CANONICAL_F32_NAN
        else if exponent == 0 && fraction == 0 then 0
        else bits
  {
    var bits := sign * 0x8000_0000 + exponent * 0x80_0000 + fraction;
    assert bits % 0x8000_0000 == exponent * 0x80_0000 + fraction;
  }

  lemma NormalizeMeans64(sign: nat, exponent: nat, fraction: nat)
    requires sign < 2 && exponent < 0x800 && fraction < 0x10_0000_0000_0000
    ensures var bits := sign * 0x8000_0000_0000_0000 + exponent * 0x10_0000_0000_0000 + fraction;
      NormalizeF64(bits) ==
        if exponent == 0x7FF && fraction != 0 then CANONICAL_F64_NAN
        else if exponent == 0 && fraction == 0 then 0
        else bits
  {
    var bits := sign * 0x8000_0000_0000_0000 + exponent * 0x10_0000_0000_0000 + fraction;
    assert bits % 0x8000_0000_0000_0000 == exponent * 0x10_0000_0000_0000 + fraction;
  }

  // ----- decoding -----

  datatype SurfaceError =
    | Invalid(error: CodecError) | MissingType | Mismatch | InvalidReference | MissingLayout
    | TooManyVariants | MissingValue(name: string) | UnknownTag(variant: string)
    | InvalidHandle | MissingBinding | QuotaExceeded

  function Decode(slots: seq<HeapSlot>, schema: SurfaceSchema, value: VmValue, expected: nat, table: TypeTable): Result<SurfaceValue, SurfaceError>
    decreases schema, 1
  {
    if expected >= |table.types| then Err(MissingType)
    else
      if IsScalar(schema) then DecodeScalar(schema, value, table.types[expected])
      else
      match (schema, value, table.types[expected])
      case (SBytes, Object(r), TArray(item)) =>
        if TypeAt(table, item) != Some(TUint8) then Err(Mismatch)
        else if !Resolves(slots, r) then Err(InvalidReference)
        else
          var obj := slots[r.index].obj.value;
          if !obj.ArrayObject? then Err(Mismatch) else DecodeBytes(obj.elements)
      case (SOptional(inner), _, TNullable(item)) =>
        if value.Null? then Ok(VNull) else Decode(slots, inner, value, item, table)
      case (SList(s), Object(r), TArray(item)) =>
        if !Resolves(slots, r) then Err(InvalidReference)
        else
          var obj := slots[r.index].obj.value;
          if !obj.ArrayObject? then Err(Mismatch)
          else
            (match DecodeEach(slots, s, obj.elements, item, table)
             case Ok(vs) => Ok(VList(vs))
             case Err(e) => Err(e))
      case (STuple(ss), Object(r), TTuple(items)) =>
        if !Resolves(slots, r) then Err(InvalidReference)
        else
          var obj := slots[r.index].obj.value;
          if !obj.TupleObject? || |ss| != |obj.elements| || |obj.elements| != |items| then Err(Mismatch)
          else
            (match DecodeZip(slots, ss, obj.elements, items, table)
             case Ok(vs) => Ok(VTuple(vs))
             case Err(e) => Err(e))
      case (SStruct(_, fields), Object(r), TStruct(layout)) =>
        if !Resolves(slots, r) then Err(InvalidReference)
        else
          var obj := slots[r.index].obj.value;
          if !obj.StructObject? then Err(Mismatch)
          else if layout >= |table.structs| then Err(MissingLayout)
          else if |fields| != |obj.fields| || |obj.fields| != |table.structs[layout]| then Err(Mismatch)
          else
            (match DecodeFields(slots, fields, obj.fields, table.structs[layout], table)
             case Ok(vs) => Ok(VStruct(vs))
             case Err(e) => Err(e))
      case (SChoice(_, variants), Object(r), TChoice(layout)) =>
        if !Resolves(slots, r) then Err(InvalidReference)
        else
          var obj := slots[r.index].obj.value;
          if !obj.ChoiceObject? then Err(Mismatch)
          else if obj.variantIdx >= |variants| then Err(TooManyVariants)
          else if layout >= |table.choices| then Err(MissingLayout)
          else if obj.variantIdx >= |table.choices[layout]| then Err(TooManyVariants)
          else
            var variant := variants[obj.variantIdx];
            (match (variant.payload, table.choices[layout][obj.variantIdx])
             case (None, None) => Ok(VChoice(variant.name, None))
             case (Some(s), Some(ty)) =>
               (match Decode(slots, s, obj.payload, ty, table)
                case Ok(v) => Ok(VChoice(variant.name, Some(v)))
                case Err(e) => Err(e))
             case _ => Err(Mismatch))
      case (SHandle(_), Object(r), TAdapterHandle(typeId)) =>
        if !Resolves(slots, r) then Err(InvalidReference)
        else
          var obj := slots[r.index].obj.value;
          if !obj.HandleObject? then Err(Mismatch)
          else if obj.handle.typeId != typeId then Err(InvalidHandle)
          else Ok(VHandle(obj.handle.typeId, obj.handle.id))
      case _ => Err(Mismatch)
  }

  function DecodeScalar(schema: SurfaceSchema, value: VmValue, t: BytecodeType): Result<SurfaceValue, SurfaceError> {
    match (schema, value, t)
    case (SNull, Null, TNull) => Ok(VNull)
    case (SBool, Bool(b), TBool) => Ok(VBool(b))
    case (SU16, Uint16(n), TUint16) => Ok(VU16(n))
    case (SI32, Int32(n), TInt32) => Ok(VI32(n))
    case (SI64, Int64(n), TInt64) => Ok(VI64(n))
    case (SU32, Uint32(n), TUint32) => Ok(VU32(n))
    case (SU64, Uint64(n), TUint64) => Ok(VU64(n))
    case (SF32, Float32(bits), TFloat32) => Ok(VF32(NormalizeF32(bits)))
    case (SF64, Float64(bits), TFloat64) => Ok(VF64(NormalizeF64(bits)))
    case _ => Err(Mismatch)
  }

  function DecodeBytes(elements: seq<VmValue>): Result<SurfaceValue, SurfaceError> {
    if forall k :: 0 <= k < |elements| ==> elements[k].Uint8?
    then Ok(VBytes(seq(|elements|, k requires 0 <= k < |elements| && elements[k].Uint8? => elements[k].u8)))
    else Err(Mismatch)
  }

  function DecodeEach(slots: seq<HeapSlot>, schema: SurfaceSchema, elements: seq<VmValue>, item: nat, table: TypeTable): Result<seq<SurfaceValue>, SurfaceError>
    decreases schema, 2, |elements|
  {
    if elements == [] then Ok([])
    else
      match Decode(slots, schema, elements[0], item, table)
      case Err(e) => Err(e)
      case Ok(v) =>
        match DecodeEach(slots, schema, elements[1..], item, table)
        case Err(e) => Err(e)
        case Ok(vs) => Ok([v] + vs)
  }

  function DecodeZip(slots: seq<HeapSlot>, schemas: seq<SurfaceSchema>, elements: seq<VmValue>, items: seq<nat>, table: TypeTable): Result<seq<SurfaceValue>, SurfaceError>
    requires |schemas| == |elements| == |items|
    decreases schemas, 0
  {
    if schemas == [] then Ok([])
    else
      match Decode(slots, schemas[0], elements[0], items[0], table)
      case Err(e) => Err(e)
      case Ok(v) =>
        match DecodeZip(slots, schemas[1..], elements[1..], items[1..], table)
        case Err(e) => Err(e)
        case Ok(vs) => Ok([v] + vs)
  }

  function DecodeFields(slots: seq<HeapSlot>, fields: seq<SurfaceField>, elements: seq<VmValue>, items: seq<nat>, table: TypeTable): Result<seq<(string, SurfaceValue)>, SurfaceError>
    requires |fields| == |elements| == |items|
    decreases fields, 0
  {
    if fields == [] then Ok([])
    else
      match Decode(slots, fields[0].schema, elements[0], items[0], table)
      case Err(e) => Err(e)
      case Ok(v) =>
        match DecodeFields(slots, fields[1..], elements[1..], items[1..], table)
        case Err(e) => Err(e)
        case Ok(vs) => Ok([(fields[0].name, v)] + vs)
  }

  lemma {:induction false} DecodeEachOk(slots: seq<HeapSlot>, schema: SurfaceSchema, elements: seq<VmValue>, item: nat, table: TypeTable, vs: seq<SurfaceValue>)
    ensures DecodeEach(slots, schema, elements, item, table) == Ok(vs) <==>
      |vs| == |elements| && forall k :: 0 <= k < |vs| ==> Decode(slots, schema, elements[k], item, table) == Ok(vs[k])
  {
    hide Decode;
    if elements != [] && vs != [] {
      DecodeEachOk(slots, schema, elements[1..], item, table, vs[1..]);
      assert vs == [vs[0]] + vs[1..];
      assert forall k :: 1 <= k < |vs| ==> vs[k] == vs[1..][k - 1];
      assert forall k :: 1 <= k < |elements| ==> elements[k] == elements[1..][k - 1];
    }
  }

  lemma {:induction false} DecodeZipOk(slots: seq<HeapSlot>, schemas: seq<SurfaceSchema>, elements: seq<VmValue>, items: seq<nat>, table: TypeTable, vs: seq<SurfaceValue>)
    requires |schemas| == |elements| == |items|
    ensures DecodeZip(slots, schemas, elements, items, table) == Ok(vs) <==>
      |vs| == |elements| && forall k :: 0 <= k < |vs| ==> Decode(slots, schemas[k], elements[k], items[k], table) == Ok(vs[k])
  {
    hide Decode;
    if elements != [] && vs != [] {
      DecodeZipOk(slots, schemas[1..], elements[1..], items[1..], table, vs[1..]);
      assert vs == [vs[0]] + vs[1..];
      assert forall k :: 1 <= k < |vs| ==> vs[k] == vs[1..][k - 1];
      assert forall k :: 1 <= k < |elements| ==>
        elements[k] == elements[1..][k - 1] && items[k] == items[1..][k - 1] && schemas[k] == schemas[1..][k - 1];
    }
  }

  lemma {:induction false} DecodeFieldsOk(slots: seq<HeapSlot>, fields: seq<SurfaceField>, elements: seq<VmValue>, items: seq<nat>, table: TypeTable, vs: seq<(string, SurfaceValue)>)
    requires |fields| == |elements| == |items|
    ensures DecodeFields(slots, fields, elements, items, table) == Ok(vs) <==>
      |vs| == |elements| && forall k :: 0 <= k < |vs| ==>
        vs[k].0 == fields[k].name && Decode(slots, fields[k].schema, elements[k], items[k], table) == Ok(vs[k].1)
  {
    hide Decode;
    if elements != [] && vs != [] {
      DecodeFieldsOk(slots, fields[1..], elements[1..], items[1..], table, vs[1..]);
      assert vs == [vs[0]] + vs[1..];
      assert forall k :: 1 <= k < |vs| ==> vs[k] == vs[1..][k - 1];
      assert forall k :: 1 <= k < |elements| ==>
        elements[k] == elements[1..][k - 1] && items[k] == items[1..][k - 1] && fields[k] == fields[1..][k - 1];
    }
  }

  // ----- what an encoded value looks like in the heap -----

  /** The object a value refers to. */
  function ObjectAt(slots: seq<HeapSlot>, val: VmValue): Option<HeapObject> {
    if val.Object? && Resolves(slots, val.ref) then slots[val.ref.index].obj else None
  }

  function ByteValues(bytes: seq<int>): seq<VmValue> {
    seq(|bytes|, k requires 0 <= k < |bytes| => Uint8(bytes[k]))
  }

  /** `val` is the encoding of `v` under `schema` and bytecode type `ty`. A choice stores its
      variant's index in 16 bits. */
  ghost predicate Represents(slots: seq<HeapSlot>, schema: SurfaceSchema, v: SurfaceValue, ty: nat, table: TypeTable, val: VmValue)
    decreases schema, 1
  {
    ty < |table.types| &&
    var t, obj := table.types[ty], ObjectAt(slots, val);
    if IsScalar(schema) then RepresentsScalar(schema, v, t, val)
    else
    match schema
    case SBytes =>
      && v.VBytes? && t.TArray? && TypeAt(table, t.item) == Some(TUint8)
      && obj.Some? && obj.value.ArrayObject? && obj.value.elements == ByteValues(v.bytes)
    case SOptional(inner) =>
      t.TNullable? && if v.VNull? then val.Null? else Represents(slots, inner, v, t.item, table, val)
    case SList(item) =>
      && v.VList? && t.TArray? && obj.Some? && obj.value.ArrayObject?
      && RepresentsEach(slots, item, v.values, t.item, table, obj.value.elements)
    case STuple(items) =>
      && v.VTuple? && t.TTuple? && obj.Some? && obj.value.TupleObject?
      && RepresentsZip(slots, items, v.values, t.items, table, obj.value.elements)
    case SStruct(_, fields) =>
      && v.VStruct? && t.TStruct? && t.layout < |table.structs| && obj.Some? && obj.value.StructObject?
      && RepresentsFields(slots, fields, v.fields, table.structs[t.layout], table, obj.value.fields)
    case SChoice(_, variants) =>
      && v.VChoice? && t.TChoice? && t.layout < |table.choices| && obj.Some? && obj.value.ChoiceObject?
      && var found := FindVariant(variants, v.variant);
      && found.Some? && found.value < |table.choices[t.layout]| && obj.value.variantIdx == found.value % U16_COUNT
      && RepresentsPayload(slots, variants[found.value].payload, v.payload, table.choices[t.layout][found.value], table, obj.value.payload)
    case SHandle(_) =>
      && v.VHandle? && t.TAdapterHandle? && t.typeId == v.typeId && obj.Some? && obj.value.HandleObject?
      && obj.value.handle.typeId == v.typeId && obj.value.handle.id == v.id
    case _ => false
  }

  predicate RepresentsScalar(schema: SurfaceSchema, v: SurfaceValue, t: BytecodeType, val: VmValue) {
    match schema
    case SNull => v.VNull? && t.TNull? && val.Null?
    case SBool => v.VBool? && t.TBool? && val == Bool(v.b)
    case SU16 => v.VU16? && t.TUint16? && val == Uint16(v.u16)
    case SI32 => v.VI32? && t.TInt32? && val == Int32(v.i32)
    case SI64 => v.VI64? && t.TInt64? && val == Int64(v.i64)
    case SU32 => v.VU32? && t.TUint32? && val == Uint32(v.u32)
    case SU64 => v.VU64? && t.TUint64? && val == Uint64(v.u64)
    case SF32 => v.VF32? && t.TFloat32? && val == Float32(NormalizeF32(v.bits32))
    case SF64 => v.VF64? && t.TFloat64? && val == Float64(NormalizeF64(v.bits64))
    case _ => false
  }

  ghost predicate RepresentsEach(slots: seq<HeapSlot>, item: SurfaceSchema, values: seq<SurfaceValue>, ty: nat, table: TypeTable, elements: seq<VmValue>)
    decreases item, 2
  {
    |elements| == |values| && forall k :: 0 <= k < |values| ==> Represents(slots, item, values[k], ty, table, elements[k])
  }

  ghost predicate RepresentsZip(slots: seq<HeapSlot>, items: seq<SurfaceSchema>, values: seq<SurfaceValue>, tys: seq<nat>, table: TypeTable, elements: seq<VmValue>)
    decreases items, 0
  {
    && |items| == |values| == |tys| == |elements|
    && forall k :: 0 <= k < |items| ==> Represents(slots, items[k], values[k], tys[k], table, elements[k])
  }

  ghost predicate RepresentsFields(slots: seq<HeapSlot>, fields: seq<SurfaceField>, values: seq<(string, SurfaceValue)>, tys: seq<nat>, table: TypeTable, elements: seq<VmValue>)
    decreases fields, 0
  {
    && |fields| == |tys| == |elements|
    && forall k :: 0 <= k < |fields| ==> RepresentsField(slots, fields[k], values, tys[k], table, elements[k])
  }

  ghost predicate RepresentsField(slots: seq<HeapSlot>, field: SurfaceField, values: seq<(string, SurfaceValue)>, ty: nat, table: TypeTable, val: VmValue)
    decreases field, 0
  {
    var found := FindField(values, field.name);
    found.Some? && Represents(slots, field.schema, found.value, ty, table, val)
  }

  ghost predicate RepresentsPayload(slots: seq<HeapSlot>, schema: Option<SurfaceSchema>, v: Option<SurfaceValue>, ty: Option<nat>, table: TypeTable, val: VmValue)
    decreases schema, 0
  {
    && schema.Some? == ty.Some? == v.Some?
    && (schema.Some? ==> Represents(slots, schema.value, v.value, ty.value, table, val))
    && (schema.None? ==> val.Null?)
  }

  /** Every object of `a` is in `b` under the same reference. */
  ghost predicate Extends(a: seq<HeapSlot>, b: seq<HeapSlot>) {
    forall r :: Resolves(a, r) ==> Resolves(b, r) && b[r.index].obj == a[r.index].obj
  }

  lemma ObjectExtends(a: seq<HeapSlot>, b: seq<HeapSlot>, val: VmValue)
    requires Extends(a, b)
    ensures ObjectAt(a, val).Some? ==> ObjectAt(b, val) == ObjectAt(a, val)
  {}

  /** An encoding survives in any heap that keeps its objects. */
  lemma {:induction false} RepresentsExtends(a: seq<HeapSlot>, b: seq<HeapSlot>, schema: SurfaceSchema, v: SurfaceValue, ty: nat, table: TypeTable, val: VmValue)
    requires Extends(a, b) && Represents(a, schema, v, ty, table, val)
    ensures Represents(b, schema, v, ty, table, val)
    decreases schema, 1
  {
    hide Represents;
    match schema
    case SOptional(_) => OptionalExtends(a, b, schema, v, ty, table, val);
    case SList(_) => ListExtends(a, b, schema, v, ty, table, val);
    case STuple(_) => TupleExtends(a, b, schema, v, ty, table, val);
    case SStruct(_, _) => StructExtends(a, b, schema, v, ty, table, val);
    case SChoice(_, _) => ChoiceExtends(a, b, schema, v, ty, table, val);
    case _ => LeafExtends(a, b, schema, v, ty, table, val);
  }

  lemma {:induction false} LeafExtends(a: seq<HeapSlot>, b: seq<HeapSlot>, schema: SurfaceSchema, v: SurfaceValue, ty: nat, table: TypeTable, val: VmValue)
    requires Extends(a, b) && Represents(a, schema, v, ty, table, val) && (IsScalar(schema) || schema.SBytes? || schema.SHandle?)
    ensures Represents(b, schema, v, ty, table, val)
    decreases schema, 0
  {}

  lemma {:induction false} OptionalExtends(a: seq<HeapSlot>, b: seq<HeapSlot>, schema: SurfaceSchema, v: SurfaceValue, ty: nat, table: TypeTable, val: VmValue)
    requires Extends(a, b) && Represents(a, schema, v, ty, table, val) && schema.SOptional?
    ensures Represents(b, schema, v, ty, table, val)
    decreases schema, 0
  {
    hide Represents;
    RepresentsOptional(a, schema, v, ty, table, val);
    if !v.VNull? { RepresentsExtends(a, b, schema.inner, v, table.types[ty].item, table, val); }
    OptionalRepresents(b, schema, v, ty, table, val);
  }

  lemma OptionalRepresents(slots: seq<HeapSlot>, schema: SurfaceSchema, v: SurfaceValue, ty: nat, table: TypeTable, val: VmValue)
    requires schema.SOptional? && ty < |table.types| && table.types[ty].TNullable?
    requires if v.VNull? then val.Null? else Represents(slots, schema.inner, v, table.types[ty].item, table, val)
    ensures Represents(slots, schema, v, ty, table, val)
  {}

  lemma {:induction false} ListExtends(a: seq<HeapSlot>, b: seq<HeapSlot>, schema: SurfaceSchema, v: SurfaceValue, ty: nat, table: TypeTable, val: VmValue)
    requires Extends(a, b) && Represents(a, schema, v, ty, table, val) && schema.SList?
    ensures Represents(b, schema, v, ty, table, val)
    decreases schema, 0
  {
    ObjectExtends(a, b, val);
    var t := table.types[ty];
    EachExtends(a, b, schema.item, v.values, t.item, table, ObjectAt(a, val).value.elements);
    hide RepresentsEach, Extends, ObjectAt;
  }

  lemma {:induction false} TupleExtends(a: seq<HeapSlot>, b: seq<HeapSlot>, schema: SurfaceSchema, v: SurfaceValue, ty: nat, table: TypeTable, val: VmValue)
    requires Extends(a, b) && Represents(a, schema, v, ty, table, val) && schema.STuple?
    ensures Represents(b, schema, v, ty, table, val)
    decreases schema, 0
  {
    ObjectExtends(a, b, val);
    var t := table.types[ty];
    ZipExtends(a, b, schema.items, v.values, t.items, table, ObjectAt(a, val).value.elements);
    hide RepresentsZip, Extends, ObjectAt;
  }

  lemma {:induction false} StructExtends(a: seq<HeapSlot>, b: seq<HeapSlot>, schema: SurfaceSchema, v: SurfaceValue, ty: nat, table: TypeTable, val: VmValue)
    requires Extends(a, b) && Represents(a, schema, v, ty, table, val) && schema.SStruct?
    ensures Represents(b, schema, v, ty, table, val)
    decreases schema, 0
  {
    ObjectExtends(a, b, val);
    var t := table.types[ty];
    FieldsExtends(a, b, schema.fields, v.fields, table.structs[t.layout], table, ObjectAt(a, val).value.fields);
    hide RepresentsFields, Extends, ObjectAt;
  }

  lemma {:induction false} ChoiceExtends(a: seq<HeapSlot>, b: seq<HeapSlot>, schema: SurfaceSchema, v: SurfaceValue, ty: nat, table: TypeTable, val: VmValue)
    requires Extends(a, b) && Represents(a, schema, v, ty, table, val) && schema.SChoice?
    ensures Represents(b, schema, v, ty, table, val)
    decreases schema, 0
  {
    ObjectExtends(a, b, val);
    var t := table.types[ty];
    var i := FindVariant(schema.variants, v.variant).value;
    PayloadExtends(a, b, schema.variants[i].payload, v.payload, table.choices[t.layout][i], table, ObjectAt(a, val).value.payload);
    hide RepresentsPayload, Extends, ObjectAt, FindVariant;
  }

  lemma {:induction false} EachExtends(a: seq<HeapSlot>, b: seq<HeapSlot>, item: SurfaceSchema, values: seq<SurfaceValue>, ty: nat, table: TypeTable, elements: seq<VmValue>)
    requires Extends(a, b) && RepresentsEach(a, item, values, ty, table, elements)
    ensures RepresentsEach(b, item, values, ty, table, elements)
    decreases item, 2
  {
    hide Represents;
    forall k | 0 <= k < |values| ensures Represents(b, item, values[k], ty, table, elements[k]) {
      RepresentsExtends(a, b, item, values[k], ty, table, elements[k]);
    }
  }

  lemma {:induction false} ZipExtends(a: seq<HeapSlot>, b: seq<HeapSlot>, items: seq<SurfaceSchema>, values: seq<SurfaceValue>, tys: seq<nat>, table: TypeTable, elements: seq<VmValue>)
    requires Extends(a, b) && RepresentsZip(a, items, values, tys, table, elements)
    ensures RepresentsZip(b, items, values, tys, table, elements)
    decreases items, 0
  {
    hide Represents;
    forall k | 0 <= k < |items| ensures Represents(b, items[k], values[k], tys[k], table, elements[k]) {
      RepresentsExtends(a, b, items[k], values[k], tys[k], table, elements[k]);
    }
  }

  lemma {:induction false} FieldsExtends(a: seq<HeapSlot>, b: seq<HeapSlot>, fields: seq<SurfaceField>, values: seq<(string, SurfaceValue)>, tys: seq<nat>, table: TypeTable, elements: seq<VmValue>)
    requires Extends(a, b) && RepresentsFields(a, fields, values, tys, table, elements)
    ensures RepresentsFields(b, fields, values, tys, table, elements)
    decreases fields, 0
  {
    hide Represents;
    forall k | 0 <= k < |fields| ensures RepresentsField(b, fields[k], values, tys[k], table, elements[k]) {
      assert RepresentsField(a, fields[k], values, tys[k], table, elements[k]);
      RepresentsExtends(a, b, fields[k].schema, FindField(values, fields[k].name).value, tys[k], table, elements[k]);
    }
  }

  lemma {:induction false} PayloadExtends(a: seq<HeapSlot>, b: seq<HeapSlot>, schema: Option<SurfaceSchema>, v: Option<SurfaceValue>, ty: Option<nat>, table: TypeTable, val: VmValue)
    requires Extends(a, b) && RepresentsPayload(a, schema, v, ty, table, val)
    ensures RepresentsPayload(b, schema, v, ty, table, val)
    decreases schema, 0
  {
    if schema.Some? { RepresentsExtends(a, b, schema.value, v.value, ty.value, table, val); }
  }

  // ----- what a round trip yields -----

  /** The value with floats normalised and struct fields listed in schema order. */
  ghost function Normal(schema: SurfaceSchema, v: SurfaceValue): SurfaceValue
    requires Conforms(schema, v)
    decreases schema, 1
  {
    if IsScalar(schema) then NormalScalar(v)
    else
    match schema
    case SOptional(inner) => if v.VNull? then v else Normal(inner, v)
    case SList(item) => VList(seq(|v.values|, k requires 0 <= k < |v.values| => Normal(item, v.values[k])))
    case STuple(items) => VTuple(seq(|items|, k requires 0 <= k < |items| => Normal(items[k], v.values[k])))
    case SStruct(_, fields) =>
      assert forall k :: 0 <= k < |fields| ==> FieldConforms(fields[k], v.fields);
      VStruct(seq(|fields|, k requires 0 <= k < |fields| => (fields[k].name, NormalField(fields[k], v.fields))))
    case SChoice(_, variants) =>
      var s := variants[FindVariant(variants, v.variant).value].payload;
      VChoice(v.variant, if s.None? then None else Some(Normal(s.value, v.payload.value)))
    case _ => v
  }

  ghost function NormalScalar(v: SurfaceValue): SurfaceValue {
    match v
    case VF32(bits) => VF32(NormalizeF32(bits))
    case VF64(bits) => VF64(NormalizeF64(bits))
    case _ => v
  }

  ghost function NormalField(field: SurfaceField, values: seq<(string, SurfaceValue)>): SurfaceValue
    requires FieldConforms(field, values)
    decreases field, 0
  {
    Normal(field.schema, FindField(values, field.name).value)
  }

  /** Every choice inside the value picks a variant whose index fits in 16 bits. */
  ghost predicate Fits(schema: SurfaceSchema, v: SurfaceValue)
    requires Conforms(schema, v)
    decreases schema, 1
  {
    match schema
    case SOptional(inner) => v.VNull? || Fits(inner, v)
    case SList(item) => forall k :: 0 <= k < |v.values| ==> Fits(item, v.values[k])
    case STuple(items) => forall k :: 0 <= k < |items| ==> Fits(items[k], v.values[k])
    case SStruct(_, fields) =>
      assert forall k :: 0 <= k < |fields| ==> FieldConforms(fields[k], v.fields);
      forall k :: 0 <= k < |fields| ==> FieldFits(fields[k], v.fields)
    case SChoice(_, variants) =>
      var i := FindVariant(variants, v.variant).value;
      i < U16_COUNT && (variants[i].payload.Some? ==> Fits(variants[i].payload.value, v.payload.value))
    case _ => true
  }

  ghost predicate FieldFits(field: SurfaceField, values: seq<(string, SurfaceValue)>)
    requires FieldConforms(field, values)
    decreases field, 0
  {
    Fits(field.schema, FindField(values, field.name).value)
  }

  ghost predicate RoundTrips(slots: seq<HeapSlot>, schema: SurfaceSchema, v: SurfaceValue, ty: nat, table: TypeTable, val: VmValue)
    requires Conforms(schema, v)
  {
    Decode(slots, schema, val, ty, table) == Ok(Normal(schema, v))
  }

  /** Decoding an encoding gives back the normal form of the value, if and only if every choice in
      it picks a variant whose index fits in 16 bits. */
  lemma {:induction false} RoundTrip(slots: seq<HeapSlot>, schema: SurfaceSchema, v: SurfaceValue, ty: nat, table: TypeTable, val: VmValue)
    requires Conforms(schema, v) && Represents(slots, schema, v, ty, table, val)
    ensures RoundTrips(slots, schema, v, ty, table, val) <==> Fits(schema, v)
    decreases schema, 1
  {
    hide Represents, RoundTrips, Fits, Conforms;
    match schema
    case SOptional(_) => OptionalRoundTrip(slots, schema, v, ty, table, val);
    case SList(_) => ListRoundTrip(slots, schema, v, ty, table, val);
    case STuple(_) => TupleRoundTrip(slots, schema, v, ty, table, val);
    case SStruct(_, _) => StructRoundTrip(slots, schema, v, ty, table, val);
    case SChoice(_, _) => ChoiceRoundTrip(slots, schema, v, ty, table, val);
    case SBytes => BytesRoundTrip(slots, schema, v, ty, table, val);
    case SHandle(_) => HandleRoundTrip(slots, schema, v, ty, table, val);
    case _ => ScalarRoundTrip(slots, schema, v, ty, table, val);
  }

  lemma ScalarRoundTrip(slots: seq<HeapSlot>, schema: SurfaceSchema, v: SurfaceValue, ty: nat, table: TypeTable, val: VmValue)
    requires Conforms(schema, v) && Represents(slots, schema, v, ty, table, val) && IsScalar(schema)
    ensures RoundTrips(slots, schema, v, ty, table, val) && Fits(schema, v)
  {
    ScalarBack(schema, v, table.types[ty], val);
    hide DecodeScalar, RepresentsScalar, NormalScalar, ScalarConforms, ObjectAt;
  }

  lemma ScalarBack(schema: SurfaceSchema, v: SurfaceValue, t: BytecodeType, val: VmValue)
    requires RepresentsScalar(schema, v, t, val)
    ensures DecodeScalar(schema, val, t) == Ok(NormalScalar(v))
  {}

  lemma BytesRoundTrip(slots: seq<HeapSlot>, schema: SurfaceSchema, v: SurfaceValue, ty: nat, table: TypeTable, val: VmValue)
    requires Conforms(schema, v) && Represents(slots, schema, v, ty, table, val) && schema.SBytes?
    ensures RoundTrips(slots, schema, v, ty, table, val) && Fits(schema, v)
  {
    var elements := ByteValues(v.bytes);
    assert DecodeBytes(elements) == Ok(v) by {
      assert seq(|elements|, k requires 0 <= k < |elements| && elements[k].Uint8? => elements[k].u8) == v.bytes;
    }
    hide ByteValues, DecodeBytes;
  }

  lemma HandleRoundTrip(slots: seq<HeapSlot>, schema: SurfaceSchema, v: SurfaceValue, ty: nat, table: TypeTable, val: VmValue)
    requires Conforms(schema, v) && Represents(slots, schema, v, ty, table, val) && schema.SHandle?
    ensures RoundTrips(slots, schema, v, ty, table, val) && Fits(schema, v)
  {}

  // One step of each definition, so that the cases below need not unfold the others.

  lemma DecodeOptional(slots: seq<HeapSlot>, schema: SurfaceSchema, ty: nat, table: TypeTable, val: VmValue)
    requires schema.SOptional? && ty < |table.types| && table.types[ty].TNullable?
    ensures Decode(slots, schema, val, ty, table) == if val.Null? then Ok(VNull) else Decode(slots, schema.inner, val, table.types[ty].item, table)
  {}

  lemma RepresentsOptional(slots: seq<HeapSlot>, schema: SurfaceSchema, v: SurfaceValue, ty: nat, table: TypeTable, val: VmValue)
    requires schema.SOptional? && Represents(slots, schema, v, ty, table, val)
    ensures ty < |table.types| && table.types[ty].TNullable?
    ensures if v.VNull? then val.Null? else Represents(slots, schema.inner, v, table.types[ty].item, table, val)
  {}

  lemma NormalOptional(schema: SurfaceSchema, v: SurfaceValue)
    requires schema.SOptional? && Conforms(schema, v)
    ensures v.VNull? ==> Normal(schema, v) == VNull && Fits(schema, v)
    ensures !v.VNull? ==> Conforms(schema.inner, v) && Normal(schema, v) == Normal(schema.inner, v)
    ensures !v.VNull? ==> (Fits(schema, v) <==> Fits(schema.inner, v))
  {}

  lemma DecodeTuple(slots: seq<HeapSlot>, schema: SurfaceSchema, ty: nat, table: TypeTable, val: VmValue, vs: seq<SurfaceValue>)
    requires schema.STuple? && ty < |table.types| && table.types[ty].TTuple?
    requires var obj := ObjectAt(slots, val); obj.Some? && obj.value.TupleObject? && |schema.items| == |obj.value.elements| == |table.types[ty].items|
    ensures Decode(slots, schema, val, ty, table) == Ok(VTuple(vs)) <==>
      DecodeZip(slots, schema.items, ObjectAt(slots, val).value.elements, table.types[ty].items, table) == Ok(vs)
  {
    hide DecodeZip;
  }

  lemma RepresentsTuple(slots: seq<HeapSlot>, schema: SurfaceSchema, v: SurfaceValue, ty: nat, table: TypeTable, val: VmValue)
    requires schema.STuple? && Represents(slots, schema, v, ty, table, val)
    ensures v.VTuple? && ty < |table.types| && table.types[ty].TTuple? && ObjectAt(slots, val).Some? && ObjectAt(slots, val).value.TupleObject?
    ensures RepresentsZip(slots, schema.items, v.values, table.types[ty].items, table, ObjectAt(slots, val).value.elements)
  {}

  lemma NormalTuple(schema: SurfaceSchema, v: SurfaceValue, k: nat)
    requires schema.STuple? && Conforms(schema, v)
    ensures v.VTuple? && |schema.items| == |v.values| && Normal(schema, v).VTuple? && |Normal(schema, v).values| == |v.values|
    ensures k < |v.values| ==> Conforms(schema.items[k], v.values[k]) && Normal(schema, v).values[k] == Normal(schema.items[k], v.values[k])
  {}

  lemma FitsTuple(schema: SurfaceSchema, v: SurfaceValue)
    requires schema.STuple? && Conforms(schema, v)
    ensures |schema.items| == |v.values| && forall k :: 0 <= k < |v.values| ==> Conforms(schema.items[k], v.values[k])
    ensures Fits(schema, v) <==> forall k :: 0 <= k < |schema.items| ==> Fits(schema.items[k], v.values[k])
  {}

  lemma DecodeStruct(slots: seq<HeapSlot>, schema: SurfaceSchema, ty: nat, table: TypeTable, val: VmValue, vs: seq<(string, SurfaceValue)>)
    requires schema.SStruct? && ty < |table.types| && table.types[ty].TStruct? && table.types[ty].layout < |table.structs|
    requires var obj := ObjectAt(slots, val); obj.Some? && obj.value.StructObject? && |schema.fields| == |obj.value.fields| == |table.structs[table.types[ty].layout]|
    ensures Decode(slots, schema, val, ty, table) == Ok(VStruct(vs)) <==>
      DecodeFields(slots, schema.fields, ObjectAt(slots, val).value.fields, table.structs[table.types[ty].layout], table) == Ok(vs)
  {
    hide DecodeFields;
  }

  lemma RepresentsStruct(slots: seq<HeapSlot>, schema: SurfaceSchema, v: SurfaceValue, ty: nat, table: TypeTable, val: VmValue)
    requires schema.SStruct? && Represents(slots, schema, v, ty, table, val)
    ensures v.VStruct? && ty < |table.types| && table.types[ty].TStruct? && table.types[ty].layout < |table.structs|
    ensures ObjectAt(slots, val).Some? && ObjectAt(slots, val).value.StructObject?
    ensures RepresentsFields(slots, schema.fields, v.fields, table.structs[table.types[ty].layout], table, ObjectAt(slots, val).value.fields)
  {}

  lemma NormalStruct(schema: SurfaceSchema, v: SurfaceValue, k: nat)
    requires schema.SStruct? && Conforms(schema, v)
    ensures v.VStruct? && |schema.fields| == |v.fields| && Normal(schema, v).VStruct? && |Normal(schema, v).fields| == |schema.fields|
    ensures k < |schema.fields| ==>
      FieldConforms(schema.fields[k], v.fields) && Normal(schema, v).fields[k] == (schema.fields[k].name, NormalField(schema.fields[k], v.fields))
  {}

  lemma FitsStruct(schema: SurfaceSchema, v: SurfaceValue)
    requires schema.SStruct? && Conforms(schema, v)
    ensures forall k :: 0 <= k < |schema.fields| ==> FieldConforms(schema.fields[k], v.fields)
    ensures Fits(schema, v) <==> forall k :: 0 <= k < |schema.fields| ==> FieldFits(schema.fields[k], v.fields)
  {}

  lemma OptionalRoundTrip(slots: seq<HeapSlot>, schema: SurfaceSchema, v: SurfaceValue, ty: nat, table: TypeTable, val: VmValue)
    requires Conforms(schema, v) && Represents(slots, schema, v, ty, table, val) && schema.SOptional?
    ensures RoundTrips(slots, schema, v, ty, table, val) <==> Fits(schema, v)
    decreases schema, 0
  {
    hide Decode, Represents, Normal, Fits, Conforms;
    RepresentsOptional(slots, schema, v, ty, table, val);
    NormalOptional(schema, v);
    DecodeOptional(slots, schema, ty, table, val);
    if !v.VNull? {
      var item := table.types[ty].item;
      NonNullEncoding(slots, schema.inner, v, item, table, val);
      RoundTrip(slots, schema.inner, v, item, table, val);
    }
  }

  /** Only the null value is encoded as null. */
  lemma {:induction false} NonNullEncoding(slots: seq<HeapSlot>, schema: SurfaceSchema, v: SurfaceValue, ty: nat, table: TypeTable, val: VmValue)
    requires Represents(slots, schema, v, ty, table, val)
    ensures !v.VNull? ==> !val.Null?
    ensures val.Object? ==> Resolves(slots, val.ref)
  {
    hide RepresentsEach, RepresentsZip, RepresentsFields, RepresentsPayload, FindVariant, ByteValues, NormalizeF32, NormalizeF64;
    if schema.SOptional? && !v.VNull? {
      NonNullEncoding(slots, schema.inner, v, table.types[ty].item, table, val);
    }
  }

  lemma ListRoundTrip(slots: seq<HeapSlot>, schema: SurfaceSchema, v: SurfaceValue, ty: nat, table: TypeTable, val: VmValue)
    requires Conforms(schema, v) && Represents(slots, schema, v, ty, table, val) && schema.SList?
    ensures RoundTrips(slots, schema, v, ty, table, val) <==> Fits(schema, v)
    decreases schema, 0
  {
    hide Decode, DecodeEach, Represents, Normal, Fits, Conforms, ObjectAt;
    RepresentsList(slots, schema, v, ty, table, val);
    NormalList(schema, v, 0);
    FitsList(schema, v);
    var item, elements, normal := table.types[ty].item, ObjectAt(slots, val).value.elements, Normal(schema, v).values;
    DecodeList(slots, schema, ty, table, val, normal);
    DecodeEachOk(slots, schema.item, elements, item, table, normal);
    forall k | 0 <= k < |v.values|
      ensures Decode(slots, schema.item, elements[k], item, table) == Ok(normal[k]) <==> Fits(schema.item, v.values[k])
    {
      NormalList(schema, v, k);
      RoundTrip(slots, schema.item, v.values[k], item, table, elements[k]);
    }
  }

  lemma RepresentsList(slots: seq<HeapSlot>, schema: SurfaceSchema, v: SurfaceValue, ty: nat, table: TypeTable, val: VmValue)
    requires schema.SList? && Represents(slots, schema, v, ty, table, val)
    ensures v.VList? && ty < |table.types| && table.types[ty].TArray? && ObjectAt(slots, val).Some? && ObjectAt(slots, val).value.ArrayObject?
    ensures RepresentsEach(slots, schema.item, v.values, table.types[ty].item, table, ObjectAt(slots, val).value.elements)
  {}

  lemma NormalList(schema: SurfaceSchema, v: SurfaceValue, k: nat)
    requires schema.SList? && Conforms(schema, v)
    ensures v.VList? && Normal(schema, v).VList? && |Normal(schema, v).values| == |v.values|
    ensures k < |v.values| ==> Conforms(schema.item, v.values[k]) && Normal(schema, v).values[k] == Normal(schema.item, v.values[k])
  {}

  lemma FitsList(schema: SurfaceSchema, v: SurfaceValue)
    requires schema.SList? && Conforms(schema, v)
    ensures v.VList? && forall k :: 0 <= k < |v.values| ==> Conforms(schema.item, v.values[k])
    ensures Fits(schema, v) <==> forall k :: 0 <= k < |v.values| ==> Fits(schema.item, v.values[k])
  {}

  lemma DecodeList(slots: seq<HeapSlot>, schema: SurfaceSchema, ty: nat, table: TypeTable, val: VmValue, vs: seq<SurfaceValue>)
    requires schema.SList? && ty < |table.types| && table.types[ty].TArray?
    requires var obj := ObjectAt(slots, val); obj.Some? && obj.value.ArrayObject?
    ensures Decode(slots, schema, val, ty, table) == Ok(VList(vs)) <==>
      DecodeEach(slots, schema.item, ObjectAt(slots, val).value.elements, table.types[ty].item, table) == Ok(vs)
  {
    hide DecodeEach;
  }

  lemma TupleRoundTrip(slots: seq<HeapSlot>, schema: SurfaceSchema, v: SurfaceValue, ty: nat, table: TypeTable, val: VmValue)
    requires Conforms(schema, v) && Represents(slots, schema, v, ty, table, val) && schema.STuple?
    ensures RoundTrips(slots, schema, v, ty, table, val) <==> Fits(schema, v)
    decreases schema, 0
  {
    hide Decode, DecodeZip, Represents, Normal, Fits, Conforms, ObjectAt;
    RepresentsTuple(slots, schema, v, ty, table, val);
    NormalTuple(schema, v, 0);
    FitsTuple(schema, v);
    var tys, elements, normal := table.types[ty].items, ObjectAt(slots, val).value.elements, Normal(schema, v).values;
    DecodeTuple(slots, schema, ty, table, val, normal);
    DecodeZipOk(slots, schema.items, elements, tys, table, normal);
    forall k | 0 <= k < |schema.items|
      ensures Decode(slots, schema.items[k], elements[k], tys[k], table) == Ok(normal[k]) <==> Fits(schema.items[k], v.values[k])
    {
      NormalTuple(schema, v, k);
      RoundTrip(slots, schema.items[k], v.values[k], tys[k], table, elements[k]);
    }
  }

  lemma StructRoundTrip(slots: seq<HeapSlot>, schema: SurfaceSchema, v: SurfaceValue, ty: nat, table: TypeTable, val: VmValue)
    requires Conforms(schema, v) && Represents(slots, schema, v, ty, table, val) && schema.SStruct?
    ensures RoundTrips(slots, schema, v, ty, table, val) <==> Fits(schema, v)
    decreases schema, 0
  {
    hide Decode, DecodeFields, Represents, Normal, Fits, Conforms, ObjectAt;
    RepresentsStruct(slots, schema, v, ty, table, val);
    NormalStruct(schema, v, 0);
    FitsStruct(schema, v);
    var fields, tys, elements := schema.fields, table.structs[table.types[ty].layout], ObjectAt(slots, val).value.fields;
    var normal := Normal(schema, v).fields;
    DecodeStruct(slots, schema, ty, table, val, normal);
    DecodeFieldsOk(slots, fields, elements, tys, table, normal);
    forall k | 0 <= k < |fields|
      ensures normal[k].0 == fields[k].name
      ensures Decode(slots, fields[k].schema, elements[k], tys[k], table) == Ok(normal[k].1) <==> FieldFits(fields[k], v.fields)
    {
      NormalStruct(schema, v, k);
      assert RepresentsField(slots, fields[k], v.fields, tys[k], table, elements[k]);
      RoundTrip(slots, fields[k].schema, FindField(v.fields, fields[k].name).value, tys[k], table, elements[k]);
    }
  }

  lemma ChoiceRoundTrip(slots: seq<HeapSlot>, schema: SurfaceSchema, v: SurfaceValue, ty: nat, table: TypeTable, val: VmValue)
    requires Conforms(schema, v) && Represents(slots, schema, v, ty, table, val) && schema.SChoice?
    ensures RoundTrips(slots, schema, v, ty, table, val) <==> Fits(schema, v)
    decreases schema, 0, 1
  {
    hide Decode, Represents, Normal, Fits, Conforms;
    NormalChoice(schema, v);
    var i := FindVariant(schema.variants, v.variant).value;
    if i >= U16_COUNT {
      WideChoice(slots, schema, v, ty, table, val);
    } else if schema.variants[i].payload.None? {
      PlainChoice(slots, schema, v, ty, table, val);
    } else {
      PayloadChoice(slots, schema, v, ty, table, val);
    }
  }

  lemma RepresentsChoice(slots: seq<HeapSlot>, schema: SurfaceSchema, v: SurfaceValue, ty: nat, table: TypeTable, val: VmValue)
    requires schema.SChoice? && Represents(slots, schema, v, ty, table, val)
    ensures v.VChoice? && ty < |table.types| && table.types[ty].TChoice? && table.types[ty].layout < |table.choices|
    ensures ObjectAt(slots, val).Some? && ObjectAt(slots, val).value.ChoiceObject?
    ensures var found := FindVariant(schema.variants, v.variant); var choices := table.choices[table.types[ty].layout];
      && found.Some? && found.value < |choices| && ObjectAt(slots, val).value.variantIdx == found.value % U16_COUNT
      && RepresentsPayload(slots, schema.variants[found.value].payload, v.payload, choices[found.value], table, ObjectAt(slots, val).value.payload)
  {}

  lemma NormalChoice(schema: SurfaceSchema, v: SurfaceValue)
    requires schema.SChoice? && Conforms(schema, v)
    ensures v.VChoice? && FindVariant(schema.variants, v.variant).Some?
    ensures var i := FindVariant(schema.variants, v.variant).value; var s := schema.variants[i].payload;
      && v.payload.Some? == s.Some?
      && (s.None? ==> Normal(schema, v) == VChoice(v.variant, None) && (Fits(schema, v) <==> i < U16_COUNT))
      && (s.Some? ==>
            && Conforms(s.value, v.payload.value)
            && Normal(schema, v) == VChoice(v.variant, Some(Normal(s.value, v.payload.value)))
            && (Fits(schema, v) <==> i < U16_COUNT && Fits(s.value, v.payload.value)))
  {}

  lemma DecodeChoice(slots: seq<HeapSlot>, schema: SurfaceSchema, ty: nat, table: TypeTable, val: VmValue)
    requires schema.SChoice? && ty < |table.types| && table.types[ty].TChoice? && table.types[ty].layout < |table.choices|
    requires var obj := ObjectAt(slots, val); obj.Some? && obj.value.ChoiceObject? && obj.value.variantIdx < |schema.variants|
    requires ObjectAt(slots, val).value.variantIdx < |table.choices[table.types[ty].layout]|
    ensures var obj := ObjectAt(slots, val).value; var variant := schema.variants[obj.variantIdx];
      var p := table.choices[table.types[ty].layout][obj.variantIdx]; var decoded := Decode(slots, schema, val, ty, table);
      && (decoded.Ok? ==> decoded.value.VChoice? && decoded.value.variant == variant.name)
      && (variant.payload.None? && p.None? ==> decoded == Ok(VChoice(variant.name, None)))
      && (variant.payload.Some? && p.Some? ==> forall x ::
            decoded == Ok(VChoice(variant.name, Some(x))) <==> Decode(slots, variant.payload.value, obj.payload, p.value, table) == Ok(x))
  {}

  /** The stored index is below the first index with this name, so it names another variant. */
  lemma WideChoice(slots: seq<HeapSlot>, schema: SurfaceSchema, v: SurfaceValue, ty: nat, table: TypeTable, val: VmValue)
    requires Conforms(schema, v) && Represents(slots, schema, v, ty, table, val) && schema.SChoice?
    requires v.VChoice? && FindVariant(schema.variants, v.variant).Some? && FindVariant(schema.variants, v.variant).value >= U16_COUNT
    ensures !RoundTrips(slots, schema, v, ty, table, val) && !Fits(schema, v)
  {
    hide Decode, Represents, Normal, Fits, Conforms, ObjectAt, RepresentsPayload;
    RepresentsChoice(slots, schema, v, ty, table, val);
    NormalChoice(schema, v);
    var i := FindVariant(schema.variants, v.variant).value;
    var stored := ObjectAt(slots, val).value.variantIdx;
    assert stored < i && schema.variants[stored].name != v.variant;
    DecodeChoice(slots, schema, ty, table, val);
  }

  lemma PlainChoice(slots: seq<HeapSlot>, schema: SurfaceSchema, v: SurfaceValue, ty: nat, table: TypeTable, val: VmValue)
    requires Conforms(schema, v) && Represents(slots, schema, v, ty, table, val) && schema.SChoice?
    requires v.VChoice? && FindVariant(schema.variants, v.variant).Some?
    requires var i := FindVariant(schema.variants, v.variant).value; i < U16_COUNT && schema.variants[i].payload.None?
    ensures RoundTrips(slots, schema, v, ty, table, val) && Fits(schema, v)
  {
    hide Decode, Represents, Normal, Fits, Conforms, ObjectAt;
    RepresentsChoice(slots, schema, v, ty, table, val);
    NormalChoice(schema, v);
    assert ObjectAt(slots, val).value.variantIdx == FindVariant(schema.variants, v.variant).value;
    DecodeChoice(slots, schema, ty, table, val);
  }

  lemma PayloadChoice(slots: seq<HeapSlot>, schema: SurfaceSchema, v: SurfaceValue, ty: nat, table: TypeTable, val: VmValue)
    requires Conforms(schema, v) && Represents(slots, schema, v, ty, table, val) && schema.SChoice?
    requires v.VChoice? && FindVariant(schema.variants, v.variant).Some?
    requires var i := FindVariant(schema.variants, v.variant).value; i < U16_COUNT && schema.variants[i].payload.Some?
    ensures RoundTrips(slots, schema, v, ty, table, val) <==> Fits(schema, v)
    decreases schema, 0, 0
  {
    hide Decode, Represents, Normal, Fits, Conforms, ObjectAt;
    RepresentsChoice(slots, schema, v, ty, table, val);
    NormalChoice(schema, v);
    var i := FindVariant(schema.variants, v.variant).value;
    var obj := ObjectAt(slots, val).value;
    assert obj.variantIdx == i;
    DecodeChoice(slots, schema, ty, table, val);
    var s, p := schema.variants[i].payload, table.choices[table.types[ty].layout][i];
    RoundTrip(slots, s.value, v.payload.value, p.value, table, obj.payload);
  }

  // ----- encoding -----

  /** The heap with only its anchored objects. */
  ghost function AnchoredOnly(slots: seq<HeapSlot>): (r: seq<HeapSlot>)
    ensures |r| == |slots|
    ensures forall i :: 0 <= i < |r| ==> r[i] == if slots[i].anchors > 0 then slots[i] else slots[i].(obj := None)
  {
    seq(|slots|, i requires 0 <= i < |slots| => if slots[i].anchors > 0 then slots[i] else slots[i].(obj := None))
  }

  lemma AnchoredExtends(a: seq<HeapSlot>, b: seq<HeapSlot>)
    requires AnchoredKept(a, b)
    ensures Extends(AnchoredOnly(a), AnchoredOnly(b))
  {}

  lemma AnchoredOnlyExtends(a: seq<HeapSlot>)
    ensures Extends(AnchoredOnly(a), a)
  {}

  lemma AnchoredKeptThen(a: seq<HeapSlot>, b: seq<HeapSlot>, c: seq<HeapSlot>)
    requires AnchoredKept(a, b) && AnchoredKept(b, c)
    ensures AnchoredKept(a, c)
  {}

  lemma {:induction false} RefsOfInRange(elements: seq<VmValue>, n: nat)
    requires forall k :: 0 <= k < |elements| && elements[k].Object? ==> elements[k].ref.index < n
    ensures RefsInRange(RefsOf(elements), n)
  {
    if elements != [] {
      var m := |elements| - 1;
      RefsOfInRange(elements[..m], n);
      assert elements[m].Object? ==> elements[m].ref.index < n;
    }
  }

  lemma EachInRange(slots: seq<HeapSlot>, item: SurfaceSchema, values: seq<SurfaceValue>, ty: nat, table: TypeTable, elements: seq<VmValue>)
    requires RepresentsEach(slots, item, values, ty, table, elements)
    ensures RefsInRange(RefsOf(elements), |slots|) && |elements| == |values|
  {
    hide Represents;
    forall k | 0 <= k < |elements| && elements[k].Object? ensures elements[k].ref.index < |slots| {
      NonNullEncoding(slots, item, values[k], ty, table, elements[k]);
    }
    RefsOfInRange(elements, |slots|);
  }

  lemma ZipInRange(slots: seq<HeapSlot>, items: seq<SurfaceSchema>, values: seq<SurfaceValue>, tys: seq<nat>, table: TypeTable, elements: seq<VmValue>)
    requires RepresentsZip(slots, items, values, tys, table, elements)
    ensures RefsInRange(RefsOf(elements), |slots|) && |elements| == |items|
  {
    hide Represents;
    forall k | 0 <= k < |elements| && elements[k].Object? ensures elements[k].ref.index < |slots| {
      NonNullEncoding(slots, items[k], values[k], tys[k], table, elements[k]);
    }
    RefsOfInRange(elements, |slots|);
  }

  lemma FieldsInRange(slots: seq<HeapSlot>, fields: seq<SurfaceField>, values: seq<(string, SurfaceValue)>, tys: seq<nat>, table: TypeTable, elements: seq<VmValue>)
    requires RepresentsFields(slots, fields, values, tys, table, elements)
    ensures RefsInRange(RefsOf(elements), |slots|) && |elements| == |fields|
  {
    hide Represents;
    forall k | 0 <= k < |elements| && elements[k].Object? ensures elements[k].ref.index < |slots| {
      assert RepresentsField(slots, fields[k], values, tys[k], table, elements[k]);
      NonNullEncoding(slots, fields[k].schema, FindField(values, fields[k].name).value, tys[k], table, elements[k]);
    }
    RefsOfInRange(elements, |slots|);
  }
}
