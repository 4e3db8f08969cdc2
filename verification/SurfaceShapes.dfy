/** When a surface value, its schema and a bytecode type fit together, what is wrong when they do
    not, and how much heap a value takes. */
module SurfaceShapes {
  import opened Machine
  import opened HeapObjects
  import opened Surface
  import opened SurfaceCodec

  /** The bytecode type a scalar schema is encoded in. */
  function ScalarType(schema: SurfaceSchema): Option<BytecodeType> {
    match schema
    case SNull => Some(TNull)
    case SBool => Some(TBool)
    case SU16 => Some(TUint16)
    case SI32 => Some(TInt32)
    case SI64 => Some(TInt64)
    case SU32 => Some(TUint32)
    case SU64 => Some(TUint64)
    case SF32 => Some(TFloat32)
    case SF64 => Some(TFloat64)
    case _ => None
  }

  // ----- agreement -----

  /** The value can be encoded in the type: shape by shape, the type table says what the schema does. */
  ghost predicate Agrees(schema: SurfaceSchema, v: SurfaceValue, ty: nat, table: TypeTable, bound: bool)
    decreases schema, 1
  {
    ty < |table.types| &&
    var t := table.types[ty];
    if IsScalar(schema) then ScalarType(schema) == Some(t)
    else
    match schema
    case SBytes => t.TArray? && TypeAt(table, t.item) == Some(TUint8)
    case SOptional(inner) => t.TNullable? && (v.VNull? || Agrees(inner, v, t.item, table, bound))
    case SList(item) => t.TArray? && v.VList? && forall k :: 0 <= k < |v.values| ==> Agrees(item, v.values[k], t.item, table, bound)
    case STuple(items) =>
      && t.TTuple? && v.VTuple? && |items| == |v.values| == |t.items|
      && forall k :: 0 <= k < |items| ==> Agrees(items[k], v.values[k], t.items[k], table, bound)
    case SStruct(_, fields) =>
      && t.TStruct? && v.VStruct? && t.layout < |table.structs| && |fields| == |table.structs[t.layout]|
      && forall k :: 0 <= k < |fields| ==> FieldAgrees(fields[k], v.fields, table.structs[t.layout][k], table, bound)
    case SChoice(_, variants) =>
      && t.TChoice? && v.VChoice? && t.layout < |table.choices|
      && var found := FindVariant(variants, v.variant);
      && found.Some? && found.value < |table.choices[t.layout]|
      && PayloadAgrees(variants[found.value].payload, v.payload, table.choices[t.layout][found.value], table, bound)
    case SHandle(_) => v.VHandle? && t == TAdapterHandle(v.typeId) && bound
    case _ => false
  }

  ghost predicate FieldAgrees(field: SurfaceField, values: seq<(string, SurfaceValue)>, ty: nat, table: TypeTable, bound: bool)
    decreases field, 0
  {
    var found := FindField(values, field.name);
    found.Some? && Agrees(field.schema, found.value, ty, table, bound)
  }

  ghost predicate PayloadAgrees(schema: Option<SurfaceSchema>, v: Option<SurfaceValue>, ty: Option<nat>, table: TypeTable, bound: bool)
    decreases schema, 0
  {
    schema.Some? == ty.Some? == v.Some? && (schema.Some? ==> Agrees(schema.value, v.value, ty.value, table, bound))
  }

  // ----- the first thing that is wrong -----

  /** The error of the first part, in encoding order, whose shape is wrong. */
  ghost function ShapeError(schema: SurfaceSchema, v: SurfaceValue, ty: nat, table: TypeTable, bound: bool): Option<SurfaceError>
    decreases schema, 1
  {
    if ty >= |table.types| then Some(MissingType)
    else
      var t := table.types[ty];
      if IsScalar(schema) then if ScalarType(schema) == Some(t) then None else Some(Mismatch)
      else
      match schema
      case SBytes => if t.TArray? && TypeAt(table, t.item) == Some(TUint8) then None else Some(Mismatch)
      case SOptional(inner) =>
        if !t.TNullable? then Some(Mismatch) else if v.VNull? then None else ShapeError(inner, v, t.item, table, bound)
      case SList(item) =>
        if t.TArray? && v.VList? then EachError(item, v.values, t.item, table, bound) else Some(Mismatch)
      case STuple(items) =>
        if t.TTuple? && v.VTuple? && |items| == |v.values| == |t.items| then ZipError(items, v.values, t.items, table, bound)
        else Some(Mismatch)
      case SStruct(_, fields) =>
        if !(t.TStruct? && v.VStruct?) then Some(Mismatch)
        else if t.layout >= |table.structs| then Some(MissingLayout)
        else if |fields| != |table.structs[t.layout]| then Some(Mismatch)
        else FieldsError(fields, v.fields, table.structs[t.layout], table, bound)
      case SChoice(_, variants) =>
        if !(t.TChoice? && v.VChoice?) then Some(Mismatch)
        else
          var found := FindVariant(variants, v.variant);
          if found.None? then Some(UnknownTag(v.variant))
          else if t.layout >= |table.choices| then Some(MissingLayout)
          else if found.value >= |table.choices[t.layout]| then Some(TooManyVariants)
          else PayloadError(variants[found.value].payload, v.payload, table.choices[t.layout][found.value], table, bound)
      case SHandle(_) =>
        if !(v.VHandle? && t == TAdapterHandle(v.typeId)) then Some(Mismatch) else if !bound then Some(MissingBinding) else None
      case _ => Some(Mismatch)
  }

  ghost function EachError(item: SurfaceSchema, values: seq<SurfaceValue>, ty: nat, table: TypeTable, bound: bool): Option<SurfaceError>
    decreases item, 2, |values|
  {
    if values == [] then None
    else
      var n := |values| - 1;
      var before := EachError(item, values[..n], ty, table, bound);
      if before.Some? then before else ShapeError(item, values[n], ty, table, bound)
  }

  ghost function ZipError(items: seq<SurfaceSchema>, values: seq<SurfaceValue>, tys: seq<nat>, table: TypeTable, bound: bool): Option<SurfaceError>
    requires |items| == |values| == |tys|
    decreases items, 0
  {
    if items == [] then None
    else
      var n := |items| - 1;
      var before := ZipError(items[..n], values[..n], tys[..n], table, bound);
      if before.Some? then before else ShapeError(items[n], values[n], tys[n], table, bound)
  }

  ghost function FieldError(field: SurfaceField, values: seq<(string, SurfaceValue)>, ty: nat, table: TypeTable, bound: bool): Option<SurfaceError>
    decreases field, 0
  {
    var found := FindField(values, field.name);
    if found.None? then Some(MissingValue(field.name)) else ShapeError(field.schema, found.value, ty, table, bound)
  }

  ghost function FieldsError(fields: seq<SurfaceField>, values: seq<(string, SurfaceValue)>, tys: seq<nat>, table: TypeTable, bound: bool): Option<SurfaceError>
    requires |fields| == |tys|
    decreases fields, 0
  {
    if fields == [] then None
    else
      var n := |fields| - 1;
      var before := FieldsError(fields[..n], values, tys[..n], table, bound);
      if before.Some? then before else FieldError(fields[n], values, tys[n], table, bound)
  }

  ghost function PayloadError(schema: Option<SurfaceSchema>, v: Option<SurfaceValue>, ty: Option<nat>, table: TypeTable, bound: bool): Option<SurfaceError>
    decreases schema, 0
  {
    if schema.Some? && ty.Some? && v.Some? then ShapeError(schema.value, v.value, ty.value, table, bound)
    else if schema.None? && ty.None? && v.None? then None
    else Some(Mismatch)
  }

  /** Nothing is wrong exactly if the shapes agree. */
  lemma {:induction false} NoErrorIffAgrees(schema: SurfaceSchema, v: SurfaceValue, ty: nat, table: TypeTable, bound: bool)
    ensures ShapeError(schema, v, ty, table, bound).None? <==> Agrees(schema, v, ty, table, bound)
    decreases schema, 1
  {
    hide ShapeError, Agrees;
    if ty >= |table.types| || IsScalar(schema) || schema.SBytes? || schema.SHandle? {
      LeafNoError(schema, v, ty, table, bound);
    } else {
      match schema
      case SOptional(inner) =>
        if table.types[ty].TNullable? && !v.VNull? { NoErrorIffAgrees(inner, v, table.types[ty].item, table, bound); }
        OptionalNoError(schema, v, ty, table, bound);
      case SList(item) => SequenceNoError(schema, v, ty, table, bound);
      case STuple(items) => SequenceNoError(schema, v, ty, table, bound);
      case SStruct(_, fields) => StructNoError(schema, v, ty, table, bound);
      case SChoice(_, variants) => ChoiceNoError(schema, v, ty, table, bound);
    }
  }

  lemma LeafNoError(schema: SurfaceSchema, v: SurfaceValue, ty: nat, table: TypeTable, bound: bool)
    requires ty >= |table.types| || IsScalar(schema) || schema.SBytes? || schema.SHandle?
    ensures ShapeError(schema, v, ty, table, bound).None? <==> Agrees(schema, v, ty, table, bound)
  {
    hide ScalarType, TypeAt;
  }

  lemma OptionalNoError(schema: SurfaceSchema, v: SurfaceValue, ty: nat, table: TypeTable, bound: bool)
    requires schema.SOptional? && ty < |table.types|
    requires table.types[ty].TNullable? && !v.VNull? ==>
      (ShapeError(schema.inner, v, table.types[ty].item, table, bound).None? <==> Agrees(schema.inner, v, table.types[ty].item, table, bound))
    ensures ShapeError(schema, v, ty, table, bound).None? <==> Agrees(schema, v, ty, table, bound)
  {}

  lemma {:induction false} SequenceNoError(schema: SurfaceSchema, v: SurfaceValue, ty: nat, table: TypeTable, bound: bool)
    requires (schema.SList? || schema.STuple?) && ty < |table.types|
    ensures ShapeError(schema, v, ty, table, bound).None? <==> Agrees(schema, v, ty, table, bound)
    decreases schema, 0
  {
    hide EachError, ZipError;
    var t := table.types[ty];
    if schema.SList? && t.TArray? && v.VList? { EachNoError(schema.item, v.values, t.item, table, bound); }
    if schema.STuple? && t.TTuple? && v.VTuple? && |schema.items| == |v.values| == |t.items| {
      ZipNoError(schema.items, v.values, t.items, table, bound);
    }
  }

  lemma {:induction false} StructNoError(schema: SurfaceSchema, v: SurfaceValue, ty: nat, table: TypeTable, bound: bool)
    requires schema.SStruct? && ty < |table.types|
    ensures ShapeError(schema, v, ty, table, bound).None? <==> Agrees(schema, v, ty, table, bound)
    decreases schema, 0
  {
    hide FieldsError, FieldAgrees;
    var t := table.types[ty];
    if t.TStruct? && v.VStruct? && t.layout < |table.structs| && |schema.fields| == |table.structs[t.layout]| {
      FieldsNoError(schema.fields, v.fields, table.structs[t.layout], table, bound);
    }
  }

  lemma {:induction false} ChoiceNoError(schema: SurfaceSchema, v: SurfaceValue, ty: nat, table: TypeTable, bound: bool)
    requires schema.SChoice? && ty < |table.types|
    ensures ShapeError(schema, v, ty, table, bound).None? <==> Agrees(schema, v, ty, table, bound)
    decreases schema, 0
  {
    hide FindVariant, PayloadError, PayloadAgrees;
    var t := table.types[ty];
    if t.TChoice? && v.VChoice? && t.layout < |table.choices| {
      var found := FindVariant(schema.variants, v.variant);
      if found.Some? && found.value < |table.choices[t.layout]| {
        PayloadNoError(schema.variants[found.value].payload, v.payload, table.choices[t.layout][found.value], table, bound);
      }
    }
  }

  lemma {:induction false} PayloadNoError(schema: Option<SurfaceSchema>, v: Option<SurfaceValue>, ty: Option<nat>, table: TypeTable, bound: bool)
    ensures PayloadError(schema, v, ty, table, bound).None? <==> PayloadAgrees(schema, v, ty, table, bound)
    decreases schema, 0
  {
    hide Agrees, ShapeError;
    if schema.Some? && ty.Some? && v.Some? { NoErrorIffAgrees(schema.value, v.value, ty.value, table, bound); }
  }

  lemma {:induction false} EachNoError(item: SurfaceSchema, values: seq<SurfaceValue>, ty: nat, table: TypeTable, bound: bool)
    ensures EachError(item, values, ty, table, bound).None? <==> forall k :: 0 <= k < |values| ==> Agrees(item, values[k], ty, table, bound)
    decreases item, 2, |values|
  {
    hide Agrees, ShapeError;
    if values != [] {
      var n := |values| - 1;
      EachNoError(item, values[..n], ty, table, bound);
      NoErrorIffAgrees(item, values[n], ty, table, bound);
      assert forall k :: 0 <= k < n ==> values[k] == values[..n][k];
    }
  }

  lemma {:induction false} ZipNoError(items: seq<SurfaceSchema>, values: seq<SurfaceValue>, tys: seq<nat>, table: TypeTable, bound: bool)
    requires |items| == |values| == |tys|
    ensures ZipError(items, values, tys, table, bound).None? <==> forall k :: 0 <= k < |items| ==> Agrees(items[k], values[k], tys[k], table, bound)
    decreases items, 0
  {
    hide Agrees, ShapeError;
    if items != [] {
      var n := |items| - 1;
      ZipNoError(items[..n], values[..n], tys[..n], table, bound);
      NoErrorIffAgrees(items[n], values[n], tys[n], table, bound);
      assert forall k :: 0 <= k < n ==> items[k] == items[..n][k] && values[k] == values[..n][k] && tys[k] == tys[..n][k];
    }
  }

  lemma {:induction false} FieldsNoError(fields: seq<SurfaceField>, values: seq<(string, SurfaceValue)>, tys: seq<nat>, table: TypeTable, bound: bool)
    requires |fields| == |tys|
    ensures FieldsError(fields, values, tys, table, bound).None? <==> forall k :: 0 <= k < |fields| ==> FieldAgrees(fields[k], values, tys[k], table, bound)
    decreases fields, 0
  {
    hide Agrees, ShapeError;
    if fields != [] {
      var n := |fields| - 1;
      FieldsNoError(fields[..n], values, tys[..n], table, bound);
      var found := FindField(values, fields[n].name);
      if found.Some? { NoErrorIffAgrees(fields[n].schema, found.value, tys[n], table, bound); }
      assert forall k :: 0 <= k < n ==> fields[k] == fields[..n][k] && tys[k] == tys[..n][k];
    }
  }

  /** An error that is found stays the first one, whatever comes after. */
  lemma {:induction false} EachErrorStays(item: SurfaceSchema, values: seq<SurfaceValue>, n: nat, ty: nat, table: TypeTable, bound: bool)
    requires n <= |values| && EachError(item, values[..n], ty, table, bound).Some?
    ensures EachError(item, values, ty, table, bound) == EachError(item, values[..n], ty, table, bound)
    decreases |values|
  {
    hide ShapeError;
    if n == |values| {
      assert values[..n] == values;
    } else {
      var m := |values| - 1;
      assert values[..m][..n] == values[..n];
      EachErrorStays(item, values[..m], n, ty, table, bound);
    }
  }

  lemma {:induction false} ZipErrorStays(items: seq<SurfaceSchema>, values: seq<SurfaceValue>, tys: seq<nat>, n: nat, table: TypeTable, bound: bool)
    requires |items| == |values| == |tys| && n <= |items| && ZipError(items[..n], values[..n], tys[..n], table, bound).Some?
    ensures ZipError(items, values, tys, table, bound) == ZipError(items[..n], values[..n], tys[..n], table, bound)
    decreases |items|
  {
    hide ShapeError;
    if n == |items| {
      assert items[..n] == items && values[..n] == values && tys[..n] == tys;
    } else {
      var m := |items| - 1;
      assert items[..m][..n] == items[..n] && values[..m][..n] == values[..n] && tys[..m][..n] == tys[..n];
      ZipErrorStays(items[..m], values[..m], tys[..m], n, table, bound);
    }
  }

  lemma {:induction false} FieldsErrorStays(fields: seq<SurfaceField>, values: seq<(string, SurfaceValue)>, tys: seq<nat>, n: nat, table: TypeTable, bound: bool)
    requires |fields| == |tys| && n <= |fields| && FieldsError(fields[..n], values, tys[..n], table, bound).Some?
    ensures FieldsError(fields, values, tys, table, bound) == FieldsError(fields[..n], values, tys[..n], table, bound)
    decreases |fields|
  {
    hide ShapeError, FieldError;
    if n == |fields| {
      assert fields[..n] == fields && tys[..n] == tys;
    } else {
      var m := |fields| - 1;
      assert fields[..m][..n] == fields[..n] && tys[..m][..n] == tys[..n];
      FieldsErrorStays(fields[..m], values, tys[..m], n, table, bound);
    }
  }

  // ----- what a value takes -----

  /** What is counted for each object: so much, and so much for a vector of its length. */
  datatype Weight = Weight(base: nat, vector: nat -> nat)

  const ONE: Weight := Weight(1, _ => 0)

  ghost function Size(schema: SurfaceSchema, v: SurfaceValue, w: Weight): nat
    decreases schema, 1
  {
    match schema
    case SBytes => if v.VBytes? then w.base + w.vector(|v.bytes|) else 0
    case SOptional(inner) => if v.VNull? then 0 else Size(inner, v, w)
    case SList(item) => if v.VList? then EachSize(item, v.values, w) + (w.base + w.vector(|v.values|)) else 0
    case STuple(items) =>
      if v.VTuple? && |items| == |v.values| then ZipSize(items, v.values, w) + (w.base + w.vector(|items|)) else 0
    case SStruct(_, fields) => if v.VStruct? then FieldsSize(fields, v.fields, w) + (w.base + w.vector(|fields|)) else 0
    case SChoice(_, variants) =>
      if v.VChoice? && FindVariant(variants, v.variant).Some?
      then PayloadSize(variants[FindVariant(variants, v.variant).value].payload, v.payload, w) + w.base
      else 0
    case SHandle(_) => w.base
    case _ => 0
  }

  ghost function EachSize(item: SurfaceSchema, values: seq<SurfaceValue>, w: Weight): nat
    decreases item, 2, |values|
  {
    if values == [] then 0 else EachSize(item, values[..|values| - 1], w) + Size(item, values[|values| - 1], w)
  }

  ghost function ZipSize(items: seq<SurfaceSchema>, values: seq<SurfaceValue>, w: Weight): nat
    requires |items| == |values|
    decreases items, 0
  {
    if items == [] then 0
    else
      var n := |items| - 1;
      ZipSize(items[..n], values[..n], w) + Size(items[n], values[n], w)
  }

  ghost function FieldSize(field: SurfaceField, values: seq<(string, SurfaceValue)>, w: Weight): nat
    decreases field, 0
  {
    var found := FindField(values, field.name);
    if found.Some? then Size(field.schema, found.value, w) else 0
  }

  ghost function FieldsSize(fields: seq<SurfaceField>, values: seq<(string, SurfaceValue)>, w: Weight): nat
    decreases fields, 0
  {
    if fields == [] then 0 else FieldsSize(fields[..|fields| - 1], values, w) + FieldSize(fields[|fields| - 1], values, w)
  }

  ghost function PayloadSize(schema: Option<SurfaceSchema>, v: Option<SurfaceValue>, w: Weight): nat
    decreases schema, 0
  {
    if schema.Some? && v.Some? then Size(schema.value, v.value, w) else 0
  }

  lemma {:induction false} EachSizeUpTo(item: SurfaceSchema, values: seq<SurfaceValue>, n: nat, w: Weight)
    requires n < |values|
    ensures EachSize(item, values[..n], w) + Size(item, values[n], w) == EachSize(item, values[..n + 1], w) <= EachSize(item, values, w)
    decreases |values|
  {
    hide Size;
    assert values[..n + 1][..n] == values[..n];
    if n + 1 == |values| {
      assert values[..n + 1] == values;
    } else {
      var m := |values| - 1;
      EachSizeUpTo(item, values[..m], n, w);
      assert values[..m][..n] == values[..n] && values[..m][..n + 1] == values[..n + 1];
    }
  }

  lemma {:induction false} ZipSizeUpTo(items: seq<SurfaceSchema>, values: seq<SurfaceValue>, n: nat, w: Weight)
    requires |items| == |values| && n < |items|
    ensures ZipSize(items[..n], values[..n], w) + Size(items[n], values[n], w) == ZipSize(items[..n + 1], values[..n + 1], w) <= ZipSize(items, values, w)
    decreases |items|
  {
    hide Size;
    assert items[..n + 1][..n] == items[..n] && values[..n + 1][..n] == values[..n];
    if n + 1 == |items| {
      assert items[..n + 1] == items && values[..n + 1] == values;
    } else {
      var m := |items| - 1;
      ZipSizeUpTo(items[..m], values[..m], n, w);
      assert items[..m][..n] == items[..n] && items[..m][..n + 1] == items[..n + 1];
      assert values[..m][..n] == values[..n] && values[..m][..n + 1] == values[..n + 1];
    }
  }

  lemma {:induction false} FieldsSizeUpTo(fields: seq<SurfaceField>, values: seq<(string, SurfaceValue)>, n: nat, w: Weight)
    requires n < |fields|
    ensures FieldsSize(fields[..n], values, w) + FieldSize(fields[n], values, w) == FieldsSize(fields[..n + 1], values, w) <= FieldsSize(fields, values, w)
    decreases |fields|
  {
    hide Size, FieldSize;
    assert fields[..n + 1][..n] == fields[..n];
    if n + 1 == |fields| {
      assert fields[..n + 1] == fields;
    } else {
      var m := |fields| - 1;
      FieldsSizeUpTo(fields[..m], values, n, w);
      assert fields[..m][..n] == fields[..n] && fields[..m][..n + 1] == fields[..n + 1];
    }
  }
}
