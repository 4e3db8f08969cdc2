/** Storage accounting of the heap: live objects, their bytes and their adapter handles. */
module HeapStorage {
  import opened Machine
  import opened EdgeGraph
  import opened HeapObjects
  import opened ReleaseCascade

  datatype Tally = Tally(objects: nat, bytes: nat, handles: multiset<AdapterHandle>)

  ghost function Plus(a: Tally, b: Tally): Tally {
    Tally(a.objects + b.objects, a.bytes + b.bytes, a.handles + b.handles)
  }

  ghost function HandlesOf(obj: HeapObject): multiset<AdapterHandle> {
    if obj.HandleObject? then multiset{obj.handle} else multiset{}
  }

  ghost function ObjectTally(header: nat, obj: Option<HeapObject>): Tally {
    match obj
    case None => Tally(0, 0, multiset{})
    case Some(o) => Tally(1, HeapBytes(header, o), HandlesOf(o))
  }

  ghost function Total(ts: seq<Tally>): Tally {
    if ts == [] then Tally(0, 0, multiset{})
    else Plus(Total(ts[..|ts| - 1]), ts[|ts| - 1])
  }

  lemma {:induction false} TotalUpdate(ts: seq<Tally>, i: nat, x: Tally)
    requires i < |ts|
    ensures Plus(Total(ts[i := x]), ts[i]) == Plus(Total(ts), x)
  {
    var n := |ts| - 1;
    var us := ts[i := x];
    if i < n {
      TotalUpdate(ts[..n], i, x);
      assert us[..n] == ts[..n][i := x];
      Exchange(Total(us[..n]), Total(ts[..n]), ts[i], x, ts[n]);
    } else {
      assert us[..n] == ts[..n];
      Exchange(Total(ts[..n]), Total(ts[..n]), Tally(0, 0, multiset{}), Tally(0, 0, multiset{}), x);
    }
  }

  lemma Exchange(a: Tally, b: Tally, x: Tally, y: Tally, z: Tally)
    requires Plus(a, x) == Plus(b, y)
    ensures Plus(Plus(a, z), x) == Plus(Plus(b, z), y)
  {
    assert a.handles + z.handles + x.handles == (a.handles + x.handles) + z.handles;
    assert b.handles + z.handles + y.handles == (b.handles + y.handles) + z.handles;
  }

  ghost function Tallies(header: nat, slots: seq<HeapSlot>): (ts: seq<Tally>)
    ensures |ts| == |slots| && forall i :: 0 <= i < |ts| ==> ts[i] == ObjectTally(header, slots[i].obj)
  {
    seq(|slots|, i requires 0 <= i < |slots| => ObjectTally(header, slots[i].obj))
  }

  /** Totals over the live slots. */
  ghost function LiveTally(header: nat, slots: seq<HeapSlot>): Tally {
    Total(Tallies(header, slots))
  }

  lemma TallyAgree(header: nat, a: seq<HeapSlot>, b: seq<HeapSlot>)
    requires |a| == |b| && forall i :: 0 <= i < |a| ==> a[i].obj == b[i].obj
    ensures LiveTally(header, a) == LiveTally(header, b)
  {
    assert Tallies(header, a) == Tallies(header, b);
  }

  /** Replacing one slot exchanges its share of the totals. */
  lemma TallyUpdate(header: nat, slots: seq<HeapSlot>, i: nat, x: HeapSlot)
    requires i < |slots|
    ensures Plus(LiveTally(header, slots[i := x]), ObjectTally(header, slots[i].obj))
         == Plus(LiveTally(header, slots), ObjectTally(header, x.obj))
  {
    TalliesUpdate(header, slots, i, x);
    TotalUpdate(Tallies(header, slots), i, ObjectTally(header, x.obj));
  }

  lemma TalliesUpdate(header: nat, slots: seq<HeapSlot>, i: nat, x: HeapSlot)
    requires i < |slots|
    ensures Tallies(header, slots[i := x]) == Tallies(header, slots)[i := ObjectTally(header, x.obj)]
  {}

  lemma TallyAppend(header: nat, slots: seq<HeapSlot>, x: HeapSlot)
    ensures LiveTally(header, slots + [x]) == Plus(LiveTally(header, slots), ObjectTally(header, x.obj))
  {
    assert Tallies(header, slots + [x])[..|slots|] == Tallies(header, slots);
  }

  /** The object total is the number of live slots. */
  lemma {:induction false} TotalShrinks(ts: seq<Tally>, us: seq<Tally>)
    requires |ts| == |us| && forall i :: 0 <= i < |ts| ==> us[i].objects <= ts[i].objects && us[i].bytes <= ts[i].bytes
    ensures Total(us).objects <= Total(ts).objects && Total(us).bytes <= Total(ts).bytes
  {
    if ts != [] {
      TotalShrinks(ts[..|ts| - 1], us[..|ts| - 1]);
    }
  }

  /** Slots that only lose objects hold no more of either. */
  lemma TallyShrinks(header: nat, a: seq<HeapSlot>, b: seq<HeapSlot>)
    requires |a| == |b| && forall i :: 0 <= i < |a| ==> b[i].obj == a[i].obj || b[i].obj.None?
    ensures LiveTally(header, b).objects <= LiveTally(header, a).objects && LiveTally(header, b).bytes <= LiveTally(header, a).bytes
  {
    TotalShrinks(Tallies(header, a), Tallies(header, b));
  }

  lemma {:induction false} TallyCountsLive(header: nat, slots: seq<HeapSlot>)
    ensures LiveTally(header, slots).objects == |Live(slots)|
  {
    hide Live, LiveTally;
    if slots == [] {
      NothingLive(header);
    } else {
      var init, last := slots[..|slots| - 1], slots[|slots| - 1];
      TallyCountsLive(header, init);
      assert slots == init + [last];
      LiveCount(header, init, last);
    }
  }

  lemma NothingLive(header: nat)
    ensures LiveTally(header, []).objects == |Live([])|
  {
    assert Live([]) == {};
  }

  /** One more slot adds to the count of live slots what it adds to the total. */
  lemma LiveCount(header: nat, slots: seq<HeapSlot>, x: HeapSlot)
    requires LiveTally(header, slots).objects == |Live(slots)|
    ensures LiveTally(header, slots + [x]).objects == |Live(slots + [x])|
  {
    hide Live, LiveTally;
    TallyAppend(header, slots, x);
    LiveAppend(slots, x);
    LiveBelow(slots);
    if x.obj.Some? { CardAdd(Live(slots), |slots|); }
  }

  lemma CardAdd(s: set<nat>, x: nat)
    requires x !in s
    ensures |s + {x}| == |s| + 1
  {}

  lemma LiveBelow(slots: seq<HeapSlot>)
    ensures |slots| !in Live(slots)
  {}

  lemma LiveAppend(slots: seq<HeapSlot>, x: HeapSlot)
    ensures x.obj.Some? ==> Live(slots + [x]) == Live(slots) + {|slots|}
    ensures x.obj.None? ==> Live(slots + [x]) == Live(slots)
  {
    var longer := slots + [x];
    forall i ensures i in Live(longer) <==> i in Live(slots) || (i == |slots| && x.obj.Some?) {
      if 0 <= i < |slots| { assert longer[i] == slots[i]; }
    }
  }

  ghost predicate NoDuplicates(s: seq<nat>) {
    forall i, j :: 0 <= i < j < |s| ==> s[i] != s[j]
  }

  /** The free list holds each empty slot once and nothing else. */
  ghost predicate FreeListExact(free: seq<nat>, slots: seq<HeapSlot>) {
    && NoDuplicates(free)
    && forall i :: i in free <==> 0 <= i < |slots| && slots[i].obj.None?
  }

  /** The heap's bookkeeping beside its slots. `reservedObjects` and `reservedBytes` are quota
      granted but not yet (or never) attached to an object; `issued` are the handles ever
      allocated and `delivered` those whose drop has been taken from the queue. */
  datatype Books = Books(
    free: seq<nat>, roots: set<nat>, objects: nat, bytes: nat, pending: seq<AdapterHandle>,
    reservedObjects: nat, reservedBytes: nat,
    issued: multiset<AdapterHandle>, delivered: multiset<AdapterHandle>)

  ghost predicate Accounted(t: Tally, b: Books) {
    && b.objects == t.objects + b.reservedObjects
    && b.bytes == t.bytes + b.reservedBytes
    && b.issued == t.handles + multiset(b.pending) + b.delivered
  }

  ghost predicate StoredIn(header: nat, slots: seq<HeapSlot>, b: Books) {
    && FreeListExact(b.free, slots)
    && b.roots <= Live(slots)
    && Accounted(LiveTally(header, slots), b)
  }

  lemma StoredAgree(header: nat, a: seq<HeapSlot>, b: seq<HeapSlot>, books: Books)
    requires SameObjects(a, b) && StoredIn(header, a, books)
    ensures StoredIn(header, b, books)
  {
    TallyAgree(header, a, b);
    assert Live(a) == Live(b);
  }

  /** What releasing, force-freeing and collecting do to the books for one emptied slot. */
  ghost function Vacated(header: nat, b: Books, idx: nat, obj: HeapObject): Books
    requires b.objects >= 1 && b.bytes >= HeapBytes(header, obj)
  {
    b.(free := b.free + [idx], objects := b.objects - 1, bytes := b.bytes - HeapBytes(header, obj),
       pending := b.pending + if obj.HandleObject? then [obj.handle] else [])
  }

  lemma AccountedForLive(header: nat, slots: seq<HeapSlot>, books: Books, idx: nat)
    requires StoredIn(header, slots, books) && idx in Live(slots)
    ensures books.objects >= 1 && books.bytes >= HeapBytes(header, slots[idx].obj.value)
  {
    TallyUpdate(header, slots, idx, slots[idx].(obj := None));
  }

  lemma AccountedVacate(t: Tally, t': Tally, b: Books, header: nat, idx: nat, obj: HeapObject)
    requires Accounted(t, b) && b.objects >= 1 && b.bytes >= HeapBytes(header, obj)
    requires Plus(t', Tally(1, HeapBytes(header, obj), HandlesOf(obj))) == Plus(t, Tally(0, 0, multiset{}))
    ensures Accounted(t', Vacated(header, b, idx, obj))
  {
    assert t.handles == t'.handles + HandlesOf(obj);
    assert multiset(Vacated(header, b, idx, obj).pending) == multiset(b.pending) + HandlesOf(obj);
  }

  lemma FreeListVacate(free: seq<nat>, slots: seq<HeapSlot>, idx: nat, slot: HeapSlot)
    requires FreeListExact(free, slots) && idx in Live(slots) && slot.obj.None?
    ensures FreeListExact(free + [idx], slots[idx := slot])
  {}

  /** Emptying one slot that is no collection candidate keeps the books. */
  lemma StoredVacate(header: nat, slots: seq<HeapSlot>, books: Books, idx: nat, slot: HeapSlot)
    requires StoredIn(header, slots, books) && idx in Live(slots) && idx !in books.roots && slot.obj.None?
    ensures books.objects >= 1 && books.bytes >= HeapBytes(header, slots[idx].obj.value)
    ensures StoredIn(header, slots[idx := slot], Vacated(header, books, idx, slots[idx].obj.value))
  {
    AccountedForLive(header, slots, books, idx);
    FreeListVacate(books.free, slots, idx, slot);
    TallyUpdate(header, slots, idx, slot);
    AccountedVacate(LiveTally(header, slots), LiveTally(header, slots[idx := slot]), books, header, idx, slots[idx].obj.value);
    assert Live(slots[idx := slot]) == Live(slots) - {idx};
  }

  ghost predicate Unreserved(header: nat, b: Books, b': Books, obj: HeapObject) {
    && b.reservedObjects == b'.reservedObjects + 1
    && b.reservedBytes == b'.reservedBytes + HeapBytes(header, obj)
    && b'.issued == b.issued + HandlesOf(obj)
  }

  /** Placing a reserved object in a free slot keeps the books. */
  lemma StoredReuse(header: nat, slots: seq<HeapSlot>, books: Books, slot: HeapSlot, books': Books)
    requires StoredIn(header, slots, books) && books.free != [] && slot.obj.Some?
    requires Unreserved(header, books, books', slot.obj.value)
    requires books' == books.(free := books.free[..|books.free| - 1], reservedObjects := books'.reservedObjects,
                              reservedBytes := books'.reservedBytes, issued := books'.issued)
    ensures var idx := books.free[|books.free| - 1]; idx < |slots| && StoredIn(header, slots[idx := slot], books')
  {
    var idx := books.free[|books.free| - 1];
    assert idx in books.free;
    TallyUpdate(header, slots, idx, slot);
    FreeListPop(books.free, slots, slot);
    assert Live(slots) <= Live(slots[idx := slot]);
    AccountedPlace(LiveTally(header, slots), LiveTally(header, slots[idx := slot]), books, books', header, slot.obj.value);
  }

  lemma FreeListPop(free: seq<nat>, slots: seq<HeapSlot>, slot: HeapSlot)
    requires FreeListExact(free, slots) && free != [] && slot.obj.Some?
    ensures var idx := free[|free| - 1]; idx < |slots| && FreeListExact(free[..|free| - 1], slots[idx := slot])
  {
    var rest, idx := free[..|free| - 1], free[|free| - 1];
    assert free == rest + [idx];
    assert idx in free && idx !in rest;
    forall i ensures i in rest <==> i in free && i != idx {}
  }

  lemma AccountedPlace(t: Tally, t': Tally, b: Books, b': Books, header: nat, obj: HeapObject)
    requires Accounted(t, b) && Unreserved(header, b, b', obj)
    requires b'.objects == b.objects && b'.bytes == b.bytes && b'.pending == b.pending && b'.delivered == b.delivered
    requires Plus(t', Tally(0, 0, multiset{})) == Plus(t, Tally(1, HeapBytes(header, obj), HandlesOf(obj)))
    ensures Accounted(t', b')
  {
    assert t'.handles == t.handles + HandlesOf(obj);
  }

  /** Placing a reserved object in a new slot keeps the books. */
  lemma StoredGrow(header: nat, slots: seq<HeapSlot>, books: Books, slot: HeapSlot, books': Books)
    requires StoredIn(header, slots, books) && slot.obj.Some?
    requires Unreserved(header, books, books', slot.obj.value)
    requires books' == books.(reservedObjects := books'.reservedObjects, reservedBytes := books'.reservedBytes, issued := books'.issued)
    ensures StoredIn(header, slots + [slot], books')
  {
    TallyAppend(header, slots, slot);
    LiveAppend(slots, slot);
    AccountedPlace(LiveTally(header, slots), LiveTally(header, slots + [slot]), books, books', header, slot.obj.value);
    FreeListGrow(books.free, slots, slot);
  }

  lemma FreeListGrow(free: seq<nat>, slots: seq<HeapSlot>, slot: HeapSlot)
    requires FreeListExact(free, slots) && slot.obj.Some?
    ensures FreeListExact(free, slots + [slot])
  {}

  // ----- running out of slots -----

  /** Every slot index is taken by an object other than those in `but`. */
  ghost predicate SlotsTaken(slots: seq<HeapSlot>, but: set<nat>) {
    forall i :: 0 <= i < U32_MAX ==> i in Live(slots) && i !in but
  }

  lemma {:induction false} FullCard(s: set<nat>, n: nat)
    requires forall i :: 0 <= i < n ==> i in s
    ensures |s| >= n
  {
    if n > 0 {
      FullCard(s - {n - 1}, n - 1);
    }
  }

  /** With no free slot every slot is live. */
  lemma NoFreeSlot(header: nat, slots: seq<HeapSlot>, b: Books)
    requires StoredIn(header, slots, b) && b.free == []
    ensures forall i :: 0 <= i < |slots| ==> i in Live(slots)
  {
    forall i | 0 <= i < |slots| ensures i in Live(slots) {
      assert i !in b.free;
    }
  }

  /** A granted reservation within a 32-bit object limit leaves an index for the object. */
  lemma LimitLeavesIndex(header: nat, slots: seq<HeapSlot>, b: Books)
    requires StoredIn(header, slots, b) && b.free == [] && b.reservedObjects >= 1 && b.objects <= U32_MAX
    ensures |slots| < U32_MAX
  {
    hide LiveTally, Live;
    NoFreeSlot(header, slots, b);
    TallyCountsLive(header, slots);
    FullCard(Live(slots), |slots|);
  }

  // ----- references and slot reuse -----

  /** Generations never go back, and a slot emptied in one generation stays empty in it. */
  ghost predicate Evolves(a: seq<HeapSlot>, b: seq<HeapSlot>) {
    && |a| <= |b|
    && forall i :: 0 <= i < |a| ==>
      && a[i].generation <= b[i].generation
      && (a[i].generation == b[i].generation && a[i].obj.None? ==> b[i].obj.None?)
  }

  /** The heap has handed this reference out: its slot exists and reached its generation. */
  predicate Issued(slots: seq<HeapSlot>, r: ObjectRef) {
    r.index < |slots| && r.generation <= slots[r.index].generation
  }

  /** A reference that stopped resolving never resolves again, however its slot is reused. */
  lemma StaleForever(a: seq<HeapSlot>, b: seq<HeapSlot>, r: ObjectRef)
    requires Evolves(a, b) && Issued(a, r) && !Resolves(a, r)
    ensures Issued(b, r) && !Resolves(b, r)
  {}

  lemma ShrunkThen(a: seq<HeapSlot>, b: seq<HeapSlot>, c: seq<HeapSlot>)
    requires Shrunk(a, b) && Shrunk(b, c)
    ensures Shrunk(a, c)
  {}

}
