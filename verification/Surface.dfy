/** Surface schemas and values exchanged with providers, and the value validator. */
module Surface {
  import opened Machine
  import opened HeapObjects

  datatype SurfaceSchema =
    | SNull | SBool | SU16 | SI32 | SI64 | SU32 | SU64 | SF32 | SF64 | SBytes
    | SOptional(inner: SurfaceSchema)
    | SList(item: SurfaceSchema)
    | STuple(items: seq<SurfaceSchema>)
    | SStruct(name: string, fields: seq<SurfaceField>)
    | SChoice(name: string, variants: seq<SurfaceVariant>)
    | SHandle(resource: string)

  datatype SurfaceField = SurfaceField(name: string, schema: SurfaceSchema)

  datatype SurfaceVariant = SurfaceVariant(name: string, payload: Option<SurfaceSchema>)

  datatype SurfaceValue =
    | VNull
    | VBool(b: bool)
    | VU16(u16: int)
    | VI32(i32: int)
    | VI64(i64: int)
    | VU32(u32: int)
    | VU64(u64: int)
    | VF32(bits32: nat)
    | VF64(bits64: nat)
    | VBytes(bytes: seq<int>)
    | VList(values: seq<SurfaceValue>)
    | VTuple(values: seq<SurfaceValue>)
    | VStruct(fields: seq<(string, SurfaceValue)>)
    | VChoice(variant: string, payload: Option<SurfaceValue>)
    | VHandle(typeId: OpaqueTypeId, id: u32)

  datatype CodecError =
    | TypeMismatch
    | FieldCountMismatch
    | MissingField(name: string)
    | InvalidTag(variant: string)
    | PayloadMismatch(variant: string)

  /** The first value stored under `name`. */
  function FindField(values: seq<(string, SurfaceValue)>, name: string): (r: Option<SurfaceValue>)
    ensures r.None? <==> forall k :: 0 <= k < |values| ==> values[k].0 != name
    ensures r.Some? ==> exists k :: 0 <= k < |values| && values[k] == (name, r.value) && forall j :: 0 <= j < k ==> values[j].0 != name
  {
    if values == [] then None
    else if values[0].0 == name then assert values[0] == (name, values[0].1); Some(values[0].1)
    else
      var r := FindField(values[1..], name);
      assert r.Some? ==>
        exists k :: 0 <= k < |values| && values[k] == (name, r.value) && forall j :: 0 <= j < k ==> values[j].0 != name by {
        if r.Some? {
          var k :| 0 <= k < |values[1..]| && values[1..][k] == (name, r.value) && forall j :: 0 <= j < k ==> values[1..][j].0 != name;
          assert values[k + 1] == (name, r.value);
          assert forall j :: 0 <= j < k + 1 ==> values[j].0 != name by {
            forall j | 0 <= j < k + 1 ensures values[j].0 != name { if j > 0 { assert values[1..][j - 1] == values[j]; } }
          }
        }
      }
      r
  }

  /** The index of the first variant called `name`. */
  function FindVariant(variants: seq<SurfaceVariant>, name: string): (r: Option<nat>)
    ensures r.None? <==> forall k :: 0 <= k < |variants| ==> variants[k].name != name
    ensures r.Some? ==> r.value < |variants| && variants[r.value].name == name && forall j :: 0 <= j < r.value ==> variants[j].name != name
  {
    if variants == [] then None
    else if variants[0].name == name then Some(0)
    else
      match FindVariant(variants[1..], name)
      case None => None
      case Some(k) => Some(k + 1)
  }

  // ----- the validator -----

  function Validate(schema: SurfaceSchema, value: SurfaceValue): Result<(), CodecError>
    decreases schema, 1
  {
    match (schema, value)
    case (SNull, VNull) => Ok(())
    case (SBool, VBool(_)) => Ok(())
    case (SU16, VU16(_)) => Ok(())
    case (SI32, VI32(_)) => Ok(())
    case (SI64, VI64(_)) => Ok(())
    case (SU32, VU32(_)) => Ok(())
    case (SU64, VU64(_)) => Ok(())
    case (SF32, VF32(_)) => Ok(())
    case (SF64, VF64(_)) => Ok(())
    case (SBytes, VBytes(_)) => Ok(())
    case (SOptional(inner), _) => if value.VNull? then Ok(()) else Validate(inner, value)
    case (SList(item), VList(values)) => ValidateEach(item, values)
    case (STuple(items), VTuple(values)) =>
      if |items| == |values| then ValidateZip(items, values) else Err(TypeMismatch)
    case (SStruct(_, fields), VStruct(values)) =>
      if |fields| != |values| then Err(FieldCountMismatch) else ValidateFields(fields, values)
    case (SChoice(_, variants), VChoice(variant, payload)) =>
      var found := FindVariant(variants, variant);
      if found.None? then Err(InvalidTag(variant))
      else
        var expected := variants[found.value];
        (match (expected.payload, payload)
         case (None, None) => Ok(())
         case (Some(s), Some(v)) => Validate(s, v)
         case _ => Err(PayloadMismatch(variant)))
    case (SHandle(_), VHandle(_, _)) => Ok(())
    case _ => Err(TypeMismatch)
  }

  function ValidateEach(item: SurfaceSchema, values: seq<SurfaceValue>): Result<(), CodecError>
    decreases item, 2, |values|
  {
    if values == [] then Ok(())
    else
      var first := Validate(item, values[0]);
      if first.Err? then first else ValidateEach(item, values[1..])
  }

  function ValidateZip(items: seq<SurfaceSchema>, values: seq<SurfaceValue>): Result<(), CodecError>
    requires |items| == |values|
    decreases items, 0
  {
    if items == [] then Ok(())
    else
      var first := Validate(items[0], values[0]);
      if first.Err? then first else ValidateZip(items[1..], values[1..])
  }

  function ValidateFields(fields: seq<SurfaceField>, values: seq<(string, SurfaceValue)>): Result<(), CodecError>
    decreases fields, 0
  {
    if fields == [] then Ok(())
    else
      var found := FindField(values, fields[0].name);
      if found.None? then Err(MissingField(fields[0].name))
      else
        var first := Validate(fields[0].schema, found.value);
        if first.Err? then first else ValidateFields(fields[1..], values)
  }

  /** What it means for a value to have a schema. */
  predicate Conforms(schema: SurfaceSchema, value: SurfaceValue)
    decreases schema
  {
    if IsScalar(schema) then ScalarConforms(schema, value)
    else
    match schema
    case SBytes => value.VBytes?
    case SOptional(inner) => value.VNull? || Conforms(inner, value)
    case SList(item) => value.VList? && forall k :: 0 <= k < |value.values| ==> Conforms(item, value.values[k])
    case STuple(items) =>
      value.VTuple? && |items| == |value.values| && forall k :: 0 <= k < |items| ==> Conforms(items[k], value.values[k])
    case SStruct(_, fields) =>
      value.VStruct? && |fields| == |value.fields| && forall k :: 0 <= k < |fields| ==> FieldConforms(fields[k], value.fields)
    case SChoice(_, variants) =>
      && value.VChoice?
      && var found := FindVariant(variants, value.variant);
      && found.Some?
      && value.payload.Some? == variants[found.value].payload.Some?
      && (value.payload.Some? ==> Conforms(variants[found.value].payload.value, value.payload.value))
    case SHandle(_) => value.VHandle?
    case _ => false
  }

  predicate IsScalar(schema: SurfaceSchema) {
    schema.SNull? || schema.SBool? || schema.SU16? || schema.SI32? || schema.SI64? || schema.SU32? || schema.SU64? || schema.SF32? || schema.SF64?
  }

  predicate ScalarConforms(schema: SurfaceSchema, value: SurfaceValue) {
    match schema
    case SNull => value.VNull?
    case SBool => value.VBool?
    case SU16 => value.VU16?
    case SI32 => value.VI32?
    case SI64 => value.VI64?
    case SU32 => value.VU32?
    case SU64 => value.VU64?
    case SF32 => value.VF32?
    case SF64 => value.VF64?
    case _ => false
  }

  predicate FieldConforms(field: SurfaceField, values: seq<(string, SurfaceValue)>)
    decreases field
  {
    var found := FindField(values, field.name);
    found.Some? && Conforms(field.schema, found.value)
  }

  /** The validator accepts exactly the values that have the schema. */
  lemma {:induction false} ValidateIsConforms(schema: SurfaceSchema, value: SurfaceValue)
    ensures Validate(schema, value).Ok? <==> Conforms(schema, value)
    decreases schema, 1
  {
    hide FindField, FindVariant, ValidateEach, ValidateZip, ValidateFields, FieldConforms;
    match schema
    case SOptional(inner) => ValidateIsConforms(inner, value);
    case SList(item) => if value.VList? { EachIsConforms(item, value.values); }
    case STuple(items) => if value.VTuple? && |items| == |value.values| { ZipIsConforms(items, value.values); }
    case SStruct(_, fields) => if value.VStruct? { FieldsIsConforms(fields, value.fields); }
    case SChoice(_, variants) =>
      if value.VChoice? && FindVariant(variants, value.variant).Some? {
        var v := variants[FindVariant(variants, value.variant).value];
        if v.payload.Some? && value.payload.Some? { ValidateIsConforms(v.payload.value, value.payload.value); }
      }
    case _ =>
  }

  lemma {:induction false} EachIsConforms(item: SurfaceSchema, values: seq<SurfaceValue>)
    ensures ValidateEach(item, values).Ok? <==> forall k :: 0 <= k < |values| ==> Conforms(item, values[k])
    decreases item, 2, |values|
  {
    if values != [] {
      ValidateIsConforms(item, values[0]);
      EachIsConforms(item, values[1..]);
      assert forall k :: 1 <= k < |values| ==> values[k] == values[1..][k - 1];
    }
  }

  lemma {:induction false} ZipIsConforms(items: seq<SurfaceSchema>, values: seq<SurfaceValue>)
    requires |items| == |values|
    ensures ValidateZip(items, values).Ok? <==> forall k :: 0 <= k < |items| ==> Conforms(items[k], values[k])
    decreases items, 0
  {
    if items != [] {
      ValidateIsConforms(items[0], values[0]);
      ZipIsConforms(items[1..], values[1..]);
      assert forall k :: 1 <= k < |items| ==> values[k] == values[1..][k - 1] && items[k] == items[1..][k - 1];
    }
  }

  lemma {:induction false} FieldsIsConforms(fields: seq<SurfaceField>, values: seq<(string, SurfaceValue)>)
    ensures ValidateFields(fields, values).Ok? <==> forall k :: 0 <= k < |fields| ==> FieldConforms(fields[k], values)
    decreases fields, 0
  {
    if fields != [] {
      var found := FindField(values, fields[0].name);
      if found.Some? { ValidateIsConforms(fields[0].schema, found.value); }
      FieldsIsConforms(fields[1..], values);
      assert forall k :: 1 <= k < |fields| ==> fields[k] == fields[1..][k - 1];
    }
  }
}
