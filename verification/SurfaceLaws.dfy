/** The codec's laws as a caller sees them. */
module SurfaceLaws {
  import opened Machine
  import opened HeapObjects
  import opened ReleaseCascade
  import opened Heap
  import opened Surface
  import opened SurfaceCodec
  import opened SurfaceShapes
  import opened SurfaceEncoder

  /** What `EncodeSurface` returned decodes, in its heap and in every later heap that keeps the
      anchored objects, to the normal form of the encoded value if and only if every choice in it
      picks a variant whose index fits in 16 bits. */
  lemma EncodedValueDecodes(slots: seq<HeapSlot>, later: seq<HeapSlot>, schema: SurfaceSchema, v: SurfaceValue, ty: nat, table: TypeTable, val: VmValue)
    requires Conforms(schema, v) && Represents(AnchoredOnly(slots), schema, v, ty, table, val) && AnchoredKept(slots, later)
    ensures Decode(later, schema, val, ty, table) == Ok(Normal(schema, v)) <==> Fits(schema, v)
  {
    hide Represents, Decode, Normal, Fits, Conforms, Extends, AnchoredKept;
    AnchoredExtends(slots, later);
    RepresentsExtends(AnchoredOnly(slots), AnchoredOnly(later), schema, v, ty, table, val);
    AnchoredOnlyExtends(later);
    RepresentsExtends(AnchoredOnly(later), later, schema, v, ty, table, val);
    RoundTrip(later, schema, v, ty, table, val);
  }

  /** The normal form comes back if and only if the value's choices fit. */
  ghost predicate FaithfulExactlyWhenFits(schema: SurfaceSchema, v: SurfaceValue, decoded: Result<SurfaceValue, SurfaceError>)
  {
    Conforms(schema, v) && (decoded == Ok(Normal(schema, v)) <==> Fits(schema, v))
  }

  /** The value has the schema, and the schema agrees with the type. */
  ghost predicate Encodable(schema: SurfaceSchema, v: SurfaceValue, ty: nat, table: TypeTable, bound: bool) {
    Conforms(schema, v) && Agrees(schema, v, ty, table, bound)
  }

  lemma EncodableMeans(schema: SurfaceSchema, v: SurfaceValue, ty: nat, table: TypeTable, bound: bool)
    ensures Encodable(schema, v, ty, table, bound) <==> Conforms(schema, v) && ShapeError(schema, v, ty, table, bound).None?
  {
    hide Conforms, Agrees, ShapeError;
    NoErrorIffAgrees(schema, v, ty, table, bound);
  }

  /** What comes back passes the validator. */
  ghost predicate Revalidates(schema: SurfaceSchema, v: SurfaceValue, decoded: Result<SurfaceValue, SurfaceError>)
  {
    Conforms(schema, v) && Fits(schema, v) && DistinctFields(schema) ==> decoded.Ok? && Validate(schema, decoded.value).Ok?
  }

  /** Encode and decode in sequence. */
  method EncodeThenDecode(heap: PrivateHeap, schema: SurfaceSchema, value: SurfaceValue, expected: nat, target: Target, table: TypeTable)
    returns (encoded: Result<VmValue, SurfaceError>, decoded: Result<SurfaceValue, SurfaceError>)
    requires heap.Valid()
    modifies heap
    ensures heap.Valid()
    ensures encoded.Ok? ==> Encodable(schema, value, expected, table, target.binding.Some?)
    ensures old(HasRoom(RoomFor(heap, schema, value, target))) && Encodable(schema, value, expected, table, target.binding.Some?) ==> encoded.Ok?
    ensures encoded.Ok? ==> FaithfulExactlyWhenFits(schema, value, decoded)
    ensures encoded.Ok? ==> Revalidates(schema, value, decoded)
  {
    hide Represents, Normal, Fits, Conforms, AnchoredKept, DistinctFields, Validate, Decode, Sound, AnchoredOnly,
      FaithfulExactlyWhenFits, Revalidates, Encodable, ShapeError, HasRoom, Size, Grew;
    EncodableMeans(schema, value, expected, table, target.binding.Some?);
    encoded := EncodeSurface(heap, schema, value, expected, target, table);
    decoded := if encoded.Ok? then Decode(heap.objects, schema, encoded.value, expected, table) else Err(Mismatch);
    if encoded.Ok? {
      AnchoredKeptSelf(heap.objects);
      DecodedAgain(heap.objects, schema, value, expected, table, encoded.value);
    }
  }

  lemma DecodedAgain(slots: seq<HeapSlot>, schema: SurfaceSchema, v: SurfaceValue, ty: nat, table: TypeTable, val: VmValue)
    requires Conforms(schema, v) && Represents(AnchoredOnly(slots), schema, v, ty, table, val)
    ensures FaithfulExactlyWhenFits(schema, v, Decode(slots, schema, val, ty, table))
    ensures Revalidates(schema, v, Decode(slots, schema, val, ty, table))
  {
    hide Represents, Normal, Fits, Conforms, AnchoredKept, DistinctFields, Validate, Decode, AnchoredOnly;
    AnchoredKeptSelf(slots);
    EncodedValueDecodes(slots, slots, schema, v, ty, table, val);
    if Fits(schema, v) && DistinctFields(schema) {
      NormalConforms(schema, v);
      ValidateIsConforms(schema, Normal(schema, v));
    }
  }

  // ----- normal forms still have the schema -----

  /** No struct in the schema names a field twice. */
  ghost predicate DistinctFields(schema: SurfaceSchema)
    decreases schema, 1
  {
    match schema
    case SOptional(inner) => DistinctFields(inner)
    case SList(item) => DistinctFields(item)
    case STuple(items) => forall k :: 0 <= k < |items| ==> DistinctFields(items[k])
    case SStruct(_, fields) =>
      && (forall j, k :: 0 <= j < k < |fields| ==> fields[j].name != fields[k].name)
      && (forall k :: 0 <= k < |fields| ==> DistinctFields(fields[k].schema))
    case SChoice(_, variants) => forall k :: 0 <= k < |variants| && variants[k].payload.Some? ==> DistinctFields(variants[k].payload.value)
    case _ => true
  }

  /** A normal form has the schema its value had. */
  lemma {:induction false} NormalConforms(schema: SurfaceSchema, v: SurfaceValue)
    requires Conforms(schema, v) && DistinctFields(schema)
    ensures Conforms(schema, Normal(schema, v))
    decreases schema, 1
  {
    hide FindField, FindVariant, FieldConforms, NormalizeF32, NormalizeF64;
    match schema
    case SOptional(inner) => if !v.VNull? { NormalConforms(inner, v); }
    case SList(item) =>
      forall k | 0 <= k < |v.values| ensures Conforms(item, Normal(item, v.values[k])) { NormalConforms(item, v.values[k]); }
    case STuple(items) =>
      forall k | 0 <= k < |items| ensures Conforms(items[k], Normal(items[k], v.values[k])) { NormalConforms(items[k], v.values[k]); }
    case SStruct(_, fields) => StructNormalConforms(schema, v);
    case SChoice(_, variants) =>
      var s := variants[FindVariant(variants, v.variant).value].payload;
      if s.Some? { NormalConforms(s.value, v.payload.value); }
    case _ =>
  }

  lemma {:induction false} StructNormalConforms(schema: SurfaceSchema, v: SurfaceValue)
    requires schema.SStruct? && Conforms(schema, v) && DistinctFields(schema)
    ensures Conforms(schema, Normal(schema, v))
    decreases schema, 0
  {
    var fields, normal := schema.fields, Normal(schema, v).fields;
    NormalStruct(schema, v, 0);
    forall k | 0 <= k < |fields| ensures FieldConforms(fields[k], normal) {
      NormalStruct(schema, v, k);
      forall j | 0 <= j < |fields| ensures normal[j].0 == fields[j].name { NormalStruct(schema, v, j); }
      FindDistinct(normal, fields, k);
      NormalConforms(fields[k].schema, FindField(v.fields, fields[k].name).value);
    }
    hide FieldConforms, FindField;
  }

  lemma {:induction false} FindDistinct(values: seq<(string, SurfaceValue)>, fields: seq<SurfaceField>, k: nat)
    requires |values| == |fields| && k < |fields|
    requires forall j :: 0 <= j < |fields| ==> values[j].0 == fields[j].name
    requires forall i, j :: 0 <= i < j < |fields| ==> fields[i].name != fields[j].name
    ensures FindField(values, fields[k].name) == Some(values[k].1)
  {}

  // ----- when choices fit -----

  ghost predicate ChoicesFit(schema: SurfaceSchema)
    decreases schema, 1
  {
    match schema
    case SOptional(inner) => ChoicesFit(inner)
    case SList(item) => ChoicesFit(item)
    case STuple(items) => forall k :: 0 <= k < |items| ==> ChoicesFit(items[k])
    case SStruct(_, fields) => forall k :: 0 <= k < |fields| ==> ChoicesFit(fields[k].schema)
    case SChoice(_, variants) =>
      |variants| <= U16_COUNT && forall k :: 0 <= k < |variants| && variants[k].payload.Some? ==> ChoicesFit(variants[k].payload.value)
    case _ => true
  }

  /** No schema whose choices have at most 65536 variants is affected by the 16-bit index. */
  lemma {:induction false} BoundedChoicesFit(schema: SurfaceSchema, v: SurfaceValue)
    requires Conforms(schema, v) && ChoicesFit(schema)
    ensures Fits(schema, v)
    decreases schema
  {
    hide FindField, FindVariant;
    match schema
    case SOptional(inner) => if !v.VNull? { BoundedChoicesFit(inner, v); }
    case SList(item) =>
      forall k | 0 <= k < |v.values| ensures Fits(item, v.values[k]) { BoundedChoicesFit(item, v.values[k]); }
    case STuple(items) =>
      forall k | 0 <= k < |items| ensures Fits(items[k], v.values[k]) { BoundedChoicesFit(items[k], v.values[k]); }
    case SStruct(_, fields) =>
      forall k | 0 <= k < |fields| ensures FieldConforms(fields[k], v.fields) && FieldFits(fields[k], v.fields) {
        assert FieldConforms(fields[k], v.fields);
        BoundedChoicesFit(fields[k].schema, FindField(v.fields, fields[k].name).value);
      }
    case SChoice(_, variants) =>
      var s := variants[FindVariant(variants, v.variant).value].payload;
      if s.Some? { BoundedChoicesFit(s.value, v.payload.value); }
    case _ =>
  }

  function Unary(n: nat): string {
    seq(n, _ => 'x')
  }

  ghost function WideSchema(): SurfaceSchema {
    SChoice("wide", seq(U16_COUNT + 1, k requires 0 <= k => SurfaceVariant(Unary(k), None)))
  }

  ghost function WideTable(): TypeTable {
    TypeTable([TChoice(0)], [], [seq(U16_COUNT + 1, _ => None)])
  }

  ghost function LastVariant(): SurfaceValue {
    VChoice(Unary(U16_COUNT), None)
  }

  /** The heap that the encoding of the last variant leaves: one anchored choice object, index zero. */
  ghost function WideHeap(): seq<HeapSlot> {
    [HeapSlot(1, 1, 0, Black, Some(ChoiceObject(0, 0, 0, Null)))]
  }

  lemma LastIsFound()
    ensures FindVariant(WideSchema().variants, Unary(U16_COUNT)) == Some(U16_COUNT)
  {
    var variants := WideSchema().variants;
    var found := FindVariant(variants, Unary(U16_COUNT));
    assert variants[U16_COUNT].name == Unary(U16_COUNT);
    assert |variants[found.value].name| == found.value;
  }

  /** With 65537 variants the last one does not come back, wherever it is represented. */
  lemma WideChoiceIsLost(slots: seq<HeapSlot>, ty: nat, table: TypeTable, val: VmValue)
    requires Represents(slots, WideSchema(), LastVariant(), ty, table, val)
    ensures Conforms(WideSchema(), LastVariant())
    ensures Decode(slots, WideSchema(), val, ty, table) != Ok(LastVariant())
  {
    hide Represents, Decode, Fits, Conforms, Normal, WideSchema, LastVariant;
    LastDoesNotFit();
    RoundTrip(slots, WideSchema(), LastVariant(), ty, table, val);
  }

  lemma LastDoesNotFit()
    ensures Conforms(WideSchema(), LastVariant()) && !Fits(WideSchema(), LastVariant())
    ensures Normal(WideSchema(), LastVariant()) == LastVariant()
  {
    LastIsFound();
  }

  /** A heap that represents it by an anchored object: what comes back is the first variant. */
  lemma WideChoiceBecomesFirst()
    ensures var val := Object(ObjectRef(0, 1));
      && Represents(AnchoredOnly(WideHeap()), WideSchema(), LastVariant(), 0, WideTable(), val)
      && Decode(WideHeap(), WideSchema(), val, 0, WideTable()) == Ok(VChoice("", None))
  {
    hide Represents, Decode, RepresentsPayload, AnchoredOnly;
    var val := Object(ObjectRef(0, 1));
    LastIsFound();
    WideVariants();
    var slots := AnchoredOnly(WideHeap());
    assert slots[0] == WideHeap()[0];
    assert RepresentsPayload(slots, None, None, None, WideTable(), Null) by { NoPayload(slots); }
    ChoiceRepresents(slots, WideSchema(), LastVariant(), 0, WideTable(), val, U16_COUNT);
    DecodeChoice(WideHeap(), WideSchema(), 0, WideTable(), val);
  }

  lemma NoPayload(slots: seq<HeapSlot>)
    ensures RepresentsPayload(slots, None, None, None, WideTable(), Null)
  {}

  lemma WideVariants()
    ensures WideSchema().variants[0] == SurfaceVariant("", None) && WideSchema().variants[U16_COUNT].payload.None?
    ensures WideTable().choices[0][0].None? && WideTable().choices[0][U16_COUNT].None?
  {
    assert Unary(0) == "";
  }
}
