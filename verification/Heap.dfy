/** The private heap of one thread: reference-counted slots with generations, a release cascade
    and a trial-deletion cycle collector. */
module Heap {
  import opened Machine
  import opened EdgeGraph
  import opened HeapObjects
  import opened HeapSweep
  import opened TrialDeletion
  import opened MarkOrder
  import opened ReleaseCascade
  import opened HeapStorage

  const COLLECT_EVERY: nat := 500

  datatype HeapError = InvalidObjectReference | ObjectLimit | ByteLimit | IdCounterExhausted

  /** Slots with an anchor keep their object, generation and anchor count. */
  ghost predicate AnchoredKept(a: seq<HeapSlot>, b: seq<HeapSlot>) {
    && |a| <= |b|
    && forall i :: i in Anchored(a) ==>
      b[i].obj == a[i].obj && b[i].generation == a[i].generation && b[i].anchors == a[i].anchors
  }

  /** Apart from the slots in `placed`, slots only lost objects, and only while unanchored. */
  ghost predicate ShrunkBut(a: seq<HeapSlot>, b: seq<HeapSlot>, placed: set<nat>) {
    && |a| <= |b|
    && (forall i :: 0 <= i < |a| && i !in placed ==>
      && b[i].generation == a[i].generation
      && b[i].anchors == a[i].anchors
      && (b[i].obj == a[i].obj || (b[i].obj.None? && a[i].anchors == 0)))
    && (forall i :: |a| <= i < |b| && b[i].obj.Some? ==> i in placed)
  }

  /** Candidates stay recorded while live, and a slot is Purple only if it was or is recorded. */
  ghost predicate Tracked(a: seq<HeapSlot>, ra: set<nat>, b: seq<HeapSlot>, rb: set<nat>) {
    && |a| == |b|
    && Live(b) <= Live(a)
    && (forall i :: i in Live(b) && i in ra ==> i in rb)
    && (forall i :: i in Colored(b, Purple) ==>
          || (i in Colored(a, Purple) && (i in Live(a) ==> i in Live(b)))
          || (i in Live(b) && i in rb))
  }

  lemma TrackedThen(a: seq<HeapSlot>, ra: set<nat>, b: seq<HeapSlot>, rb: set<nat>, c: seq<HeapSlot>, rc: set<nat>)
    requires Tracked(a, ra, b, rb) && Tracked(b, rb, c, rc)
    ensures Tracked(a, ra, c, rc)
  {}

  lemma SweptKeeps(phase: Phase, a: seq<HeapSlot>, b: seq<HeapSlot>)
    requires OnlyPaints(phase, a, b)
    ensures Shrunk(a, b) && Live(a) == Live(b)
    ensures WellFormed(a) ==> WellFormed(b)
    ensures Colored(b, Purple) <= Colored(a, Purple)
  {}

  lemma EdgeChangeKeeps(a: seq<HeapSlot>, b: seq<HeapSlot>, idx: nat)
    requires idx < |a| == |b| && b == a[idx := a[idx].(edges := b[idx].edges)]
    ensures WellFormed(a) ==> WellFormed(b)
    ensures forall c :: NotColored(b, c) == NotColored(a, c)
  {}

  /** References name allocated slots, generations count allocations, and every Purple slot is a
      live recorded candidate. */
  ghost predicate Sound(slots: seq<HeapSlot>, roots: set<nat>, allocations: nat) {
    && WellFormed(slots)
    && |slots| <= U32_MAX
    && (forall i :: 0 <= i < |slots| ==> slots[i].generation <= allocations)
    && Colored(slots, Purple) <= Live(slots)
    && Colored(slots, Purple) <= roots
  }

  lemma SoundAfterReleasedRefs(a: seq<HeapSlot>, ra: set<nat>, b: seq<HeapSlot>, rb: set<nat>, refs: seq<ObjectRef>, allocations: nat)
    requires Sound(a, ra, allocations) && ReleasedRefs(a, ra, b, rb, refs)
    ensures Sound(b, rb, allocations)
  {}

  lemma SoundAfterRelease(a: seq<HeapSlot>, ra: set<nat>, b: seq<HeapSlot>, rb: set<nat>, extra: multiset<nat>, allocations: nat)
    requires Sound(a, ra, allocations) && ReleaseCall(a, ra, b, rb, extra)
    ensures Sound(b, rb, allocations) && |a| == |b|
  {}

  /** Changing one slot's counts and colour, recording it if it turns Purple. */
  lemma SoundAfterRecount(a: seq<HeapSlot>, ra: set<nat>, idx: nat, slot: HeapSlot, rb: set<nat>, allocations: nat)
    requires Sound(a, ra, allocations) && idx < |a|
    requires slot.generation == a[idx].generation && slot.obj == a[idx].obj && slot.obj.Some?
    requires ra - {idx} <= rb && (slot.color == Purple ==> idx in rb || (ra <= rb && a[idx].color == Purple))
    ensures Sound(a[idx := slot], rb, allocations)
  {
    var b := a[idx := slot];
    assert SameObjects(a, b);
    assert Live(a) == Live(b);
    forall i | 0 <= i < |b| ensures RefsInRange(SlotChildren(b[i]), |b|) {
      assert RefsInRange(SlotChildren(a[i]), |a|);
    }
    forall i | i in Colored(b, Purple) ensures i in Live(b) && i in rb {
      if i != idx { assert i in Colored(a, Purple); }
    }
  }

  // ----- one release call -----

  /** What a release call did to slots and candidates, having taken off the edges in `extra`. */
  ghost predicate ReleaseCall(a: seq<HeapSlot>, ra: set<nat>, b: seq<HeapSlot>, rb: set<nat>, extra: multiset<nat>) {
    Released(a, b, extra) && Tracked(a, ra, b, rb)
  }

  ghost predicate ReleasedRefs(a: seq<HeapSlot>, ra: set<nat>, b: seq<HeapSlot>, rb: set<nat>, refs: seq<ObjectRef>) {
    ReleaseCall(a, ra, b, rb, multiset(Targets(a, refs)))
  }

  lemma ReleasedNoRefs(a: seq<HeapSlot>, ra: set<nat>)
    ensures ReleasedRefs(a, ra, a, ra, [])
  {
    ReleasedNothing(a, multiset{});
  }

  lemma ReleasedRef(a: seq<HeapSlot>, ra: set<nat>, b: seq<HeapSlot>, rb: set<nat>, c: seq<HeapSlot>, rc: set<nat>, refs: seq<ObjectRef>, k: nat)
    requires k < |refs| && ReleasedRefs(a, ra, b, rb, refs[..k]) && ReleasedRefs(b, rb, c, rc, [refs[k]])
    ensures ReleasedRefs(a, ra, c, rc, refs[..k + 1])
  {
    var ts := Targets(a, refs[..k]);
    TargetsStep(a, refs, k);
    TargetsAgree(a, b, [refs[k]]);
    var t := Targets(a, [refs[k]]);
    assert t == if Matches(a, refs[k]) then [refs[k].index] else [];
    assert Targets(a, refs[..k + 1]) == ts + t;
    assert multiset(ts + t) == multiset(ts) + multiset(t);
    ReleasedThen(a, b, c, multiset(ts), multiset(t));
    TrackedThen(a, ra, b, rb, c, rc);
  }

  lemma RefTarget(a: seq<HeapSlot>, r: ObjectRef)
    ensures Targets(a, [r]) == if Matches(a, r) then [r.index] else []
  {}

  lemma ReleasedStale(a: seq<HeapSlot>, ra: set<nat>, r: ObjectRef)
    requires !Resolves(a, r)
    ensures ReleasedRefs(a, ra, a, ra, [r])
  {
    RefTarget(a, r);
    ReleasedNothing(a, multiset(Targets(a, [r])));
  }

  lemma ReleasedStays(a: seq<HeapSlot>, ra: set<nat>, r: ObjectRef, b: seq<HeapSlot>, rb: set<nat>, c: Color)
    requires Resolves(a, r) && b == a[r.index := a[r.index].(edges := SatSub(a[r.index].edges, 1), color := c)]
    requires b[r.index].anchors > 0 || b[r.index].edges > 0
    requires rb == ra + if c == a[r.index].color then {} else {r.index}
    ensures ReleasedRefs(a, ra, b, rb, [r])
  {
    RefTarget(a, r);
    ReleasedOne(a, r.index, b, c);
    assert multiset([r.index]) == multiset{r.index};
  }

  lemma ReleasedGone(a: seq<HeapSlot>, ra: set<nat>, r: ObjectRef, a': seq<HeapSlot>, b: seq<HeapSlot>, rb: set<nat>)
    requires Resolves(a, r) && a' == a[r.index := a[r.index].(edges := SatSub(a[r.index].edges, 1))]
    requires ReleaseCall(a', ra, b, rb, multiset{}) && r.index !in Live(b)
    ensures ReleasedRefs(a, ra, b, rb, [r])
  {
    RefTarget(a, r);
    assert Live(a) == Live(a') && r.index in Live(a');
    ReleasedLast(a, r.index, a', b);
    assert multiset([r.index]) == multiset{r.index};
  }

  lemma ReleasedSlot(a: seq<HeapSlot>, ra: set<nat>, idx: nat, a': seq<HeapSlot>, b: seq<HeapSlot>, rb: set<nat>)
    requires idx < |a| && a[idx].obj.Some? && a[idx].anchors == 0 && a[idx].edges == 0
    requires a' == a[idx := a[idx].(color := Black, obj := None)]
    requires ReleasedRefs(a', ra - {idx}, b, rb, SlotChildren(a[idx]))
    ensures ReleaseCall(a, ra, b, rb, multiset{}) && idx !in Live(b)
  {
    TargetsAgree(a, a', SlotChildren(a[idx]));
    ReleasedEnter(a, idx, a', b);
    assert Live(a') == Live(a) - {idx};
  }

  lemma ReleaseEmpty(a: seq<HeapSlot>, ra: set<nat>, idx: nat, b: seq<HeapSlot>)
    requires idx < |a| && a[idx].obj.None? && b == a[idx := a[idx].(color := Black)]
    ensures ReleaseCall(a, ra, b, ra - {idx}, multiset{})
  {
    assert Live(a) == Live(b) && Freed(a, b) == {};
    forall t | 0 <= t < |a| { InEdgesPositive(ObjectGraph(a), {}, t); }
  }

  lemma RefsReleaseKeeps(a: seq<HeapSlot>, ra: set<nat>, b: seq<HeapSlot>, rb: set<nat>, refs: seq<ObjectRef>)
    requires ReleasedRefs(a, ra, b, rb, refs)
    ensures WellFormed(a) ==> WellFormed(b)
    ensures Live(b) <= Live(a)
  {}

  lemma ReleaseKeeps(a: seq<HeapSlot>, b: seq<HeapSlot>)
    requires Shrunk(a, b)
    ensures WellFormed(a) ==> WellFormed(b)
    ensures Live(b) <= Live(a)
  {}

  lemma WhitenKeeps(a: seq<HeapSlot>, b: seq<HeapSlot>, idx: nat)
    requires idx < |a| && a[idx].color == Gray && b == a[idx := a[idx].(color := White)]
    ensures ScanFrame(a, b) && Colored(b, Gray) < Colored(a, Gray)
    ensures WellFormed(a) ==> WellFormed(b)
  {
    ScanFrameKeeps(a, b);
    assert idx in Colored(a, Gray) && idx !in Colored(b, Gray);
  }

  lemma ScanFrameKeeps(a: seq<HeapSlot>, b: seq<HeapSlot>)
    requires ScanFrame(a, b)
    ensures Shrunk(a, b) && Live(a) == Live(b)
    ensures WellFormed(a) ==> WellFormed(b)
    ensures Colored(b, Gray) <= Colored(a, Gray)
  {}

  /** The anchor count dropped by one (never below zero), then a release cascade ran if the slot
      was left with no count at all; a slot left with edges only is a Purple candidate. */
  ghost predicate AnchorReleased(a: seq<HeapSlot>, ra: set<nat>, idx: nat, b: seq<HeapSlot>, rb: set<nat>) {
    idx < |a| && |a| == |b| &&
    var slot := a[idx].(anchors := SatSub(a[idx].anchors, 1));
    && ReleaseCall(a[idx := slot], ra, b, rb, multiset{})
    && (slot.anchors == 0 && slot.edges == 0 ==> idx !in Live(b))
    && (slot.anchors == 0 && slot.edges > 0 ==> b[idx].color == Purple)
    && (slot.anchors > 0 || slot.edges > 0 ==> Live(b) == Live(a))
  }

  lemma ShrunkBooks(header: nat, a: seq<HeapSlot>, x: Books, b: seq<HeapSlot>, y: Books)
    requires StoredIn(header, a, x) && StoredIn(header, b, y) && Shrunk(a, b)
    requires y.reservedObjects == x.reservedObjects && y.reservedBytes == x.reservedBytes
    ensures y.objects <= x.objects && y.bytes <= x.bytes
  {
    TallyShrinks(header, a, b);
    hide LiveTally;
  }

  lemma AnchorHeldGoToo(a: seq<HeapSlot>, ra: set<nat>, idx: nat, b: seq<HeapSlot>, rb: set<nat>)
    requires AnchorReleased(a, ra, idx, b, rb)
    ensures HeldGoToo(a, b)
  {
    var a' := a[idx := a[idx].(anchors := SatSub(a[idx].anchors, 1))];
    ReleasedHeldGoToo(a', b, multiset{});
    hide Released;
    assert Live(a') == Live(a);
  }

  lemma RefsHeldGoToo(a: seq<HeapSlot>, ra: set<nat>, b: seq<HeapSlot>, rb: set<nat>, refs: seq<ObjectRef>)
    requires ReleasedRefs(a, ra, b, rb, refs)
    ensures HeldGoToo(a, b)
  {
    ReleasedHeldGoToo(a, b, multiset(Targets(a, refs)));
  }

  lemma UncountedRecolor(a: seq<HeapSlot>, ra: set<nat>, idx: nat, b: seq<HeapSlot>, rb: set<nat>)
    requires idx in Live(a) && idx < |b| && b == a[idx := a[idx].(color := b[idx].color)]
    requires rb == ra || (rb == ra + {idx} && idx in Live(a))
    requires b[idx].color == Purple && a[idx].color != Purple ==> idx in rb
    ensures ReleaseCall(a, ra, b, rb, multiset{}) && Live(a) == Live(b)
  {
    assert Live(a) == Live(b) && Freed(a, b) == {};
    forall t | 0 <= t < |a| { InEdgesPositive(ObjectGraph(a), {}, t); }
  }

  lemma AnchorReleasedGone(a: seq<HeapSlot>, ra: set<nat>, idx: nat, b: seq<HeapSlot>, rb: set<nat>)
    requires idx < |a| && a[idx].anchors <= 1 && a[idx].edges == 0 && idx !in Live(b)
    requires ReleaseCall(a[idx := a[idx].(anchors := 0)], ra, b, rb, multiset{})
    ensures AnchorReleased(a, ra, idx, b, rb)
  {}

  lemma AnchorReleasedStays(a: seq<HeapSlot>, ra: set<nat>, idx: nat, b: seq<HeapSlot>, rb: set<nat>)
    requires idx in Live(a) && |a| == |b|
    requires b == a[idx := a[idx].(anchors := SatSub(a[idx].anchors, 1), color := b[idx].color)]
    requires b[idx].anchors > 0 || b[idx].edges > 0
    requires if b[idx].anchors == 0 && a[idx].color != Purple
      then b[idx].color == Purple && rb == ra + {idx}
      else b[idx].color == a[idx].color && rb == ra
    ensures AnchorReleased(a, ra, idx, b, rb)
  {
    var a' := a[idx := a[idx].(anchors := SatSub(a[idx].anchors, 1))];
    assert Live(a) == Live(a');
    UncountedRecolor(a', ra, idx, b, rb);
  }

  /** Taking one anchor off a heap with true edge counts and no idle slot keeps both. */
  lemma ReleaseAnchorExact(a: seq<HeapSlot>, ra: set<nat>, idx: nat, b: seq<HeapSlot>, rb: set<nat>)
    requires Balanced(a, multiset{}) && NoIdle(a, {})
    requires AnchorReleased(a, ra, idx, b, rb) && idx in Live(a)
    ensures Balanced(b, multiset{}) && NoIdle(b, {})
  {
    var slot := a[idx].(anchors := SatSub(a[idx].anchors, 1));
    var a' := a[idx := slot];
    var idle: set<nat> := if slot.anchors == 0 && slot.edges == 0 then {idx} else {};
    Unanchored(a, idx, a', idle);
    assert idle <= Freed(a', b);
    hide Balanced, NoIdle, Live;
    CascadeIsExact(a', b, multiset{}, idle);
  }

  lemma Unanchored(a: seq<HeapSlot>, idx: nat, a': seq<HeapSlot>, idle: set<nat>)
    requires Balanced(a, multiset{}) && NoIdle(a, {}) && idx in Live(a)
    requires a' == a[idx := a[idx].(anchors := SatSub(a[idx].anchors, 1))]
    requires idle == if a'[idx].anchors == 0 && a'[idx].edges == 0 then {idx} else {}
    ensures Balanced(a', multiset{}) && NoIdle(a', idle) && idle <= Live(a')
  {
    GraphAgree(a, a');
    hide ObjectGraph, InEdges, SameObjects;
    assert Live(a) == Live(a');
  }

  lemma SoundIsWellFormed(a: seq<HeapSlot>, ra: set<nat>, allocations: nat)
    requires Sound(a, ra, allocations)
    ensures WellFormed(a)
  {}

  lemma SoundAfterFree(a: seq<HeapSlot>, ra: set<nat>, idx: nat, slot: HeapSlot, allocations: nat)
    requires Sound(a, ra, allocations) && idx < |a|
    requires slot.generation == a[idx].generation && slot.obj.None? && slot.color != Purple
    ensures Sound(a[idx := slot], ra - {idx}, allocations)
  {
    var b := a[idx := slot];
    forall i | 0 <= i < |b| ensures RefsInRange(SlotChildren(b[i]), |b|) {
      assert RefsInRange(SlotChildren(a[i]), |a|);
    }
    forall i | i in Colored(b, Purple) ensures i in Live(b) && i in ra - {idx} {
      assert i in Colored(a, Purple);
    }
  }

  lemma VacateKeeps(a: seq<HeapSlot>, b: seq<HeapSlot>, idx: nat)
    requires idx in Live(a) && a[idx].anchors == 0 && b == a[idx := a[idx].(color := Black, obj := None)]
    ensures Live(b) < Live(a) && (WellFormed(a) ==> WellFormed(b))
  {}

  lemma StoredAgreeRoots(header: nat, a: seq<HeapSlot>, b: seq<HeapSlot>, books: Books, books': Books)
    requires SameObjects(a, b) && StoredIn(header, a, books)
    requires books' == books.(roots := books'.roots) && books'.roots - books.roots <= Live(b)
    ensures StoredIn(header, b, books')
  {
    StoredAgree(header, a, b, books);
  }

  // ----- marking in progress -----

  /** Between two candidates: `s0` only shrank to `s`, and Purple slots are live and either
      recorded again or still to come. */
  ghost predicate Marking(s0: seq<HeapSlot>, s: seq<HeapSlot>, roots: set<nat>, pending: set<nat>, allocations: nat) {
    && Shrunk(s0, s)
    && (forall i :: i in pending ==> i < |s|)
    && Sound(s, roots + pending, allocations)
  }

  lemma MarkingStarts(s: seq<HeapSlot>, roots: set<nat>, allocations: nat)
    requires Sound(s, roots, allocations) && roots <= Live(s)
    ensures Marking(s, s, {}, roots, allocations)
  {}

  lemma SweptTwice(phase: Phase, a: seq<HeapSlot>, b: seq<HeapSlot>, c: seq<HeapSlot>, from: set<nat>, from': set<nat>)
    requires Swept(phase, a, b, from, multiset{}) && Swept(phase, b, c, from', multiset{})
    ensures Swept(phase, a, c, from + from', multiset{})
  {
    var none: multiset<nat> := multiset{};
    assert none + none == none;
    SweptThen(phase, a, b, c, from, none, from', none);
  }

  lemma StoredRoots(header: nat, s: seq<HeapSlot>, books: Books)
    requires StoredIn(header, s, books)
    ensures books.roots <= Live(s)
  {}

  lemma MarkingEnds(s0: seq<HeapSlot>, s: seq<HeapSlot>, roots: set<nat>, allocations: nat)
    requires Marking(s0, s, roots, {}, allocations)
    ensures Shrunk(s0, s) && Sound(s, roots, allocations)
  {}

  lemma MarkingFacts(s0: seq<HeapSlot>, s: seq<HeapSlot>, roots: set<nat>, pending: set<nat>, allocations: nat, idx: nat)
    requires Marking(s0, s, roots, pending, allocations) && idx in pending
    ensures WellFormed(s) && idx < |s|
    ensures s[idx].color == Purple ==> idx in Live(s)
  {}

  lemma MarkingMarked(s0: seq<HeapSlot>, a: seq<HeapSlot>, b: seq<HeapSlot>, roots: set<nat>, pending: set<nat>, allocations: nat, idx: nat)
    requires Marking(s0, a, roots, pending, allocations) && idx in pending
    requires Swept(Mark, a, b, {idx}, multiset{})
    ensures Marking(s0, b, roots + {idx}, pending - {idx}, allocations) && SameObjects(a, b)
  {
    SweptKeeps(Mark, a, b);
    ShrunkThen(s0, a, b);
    forall i | i in Colored(b, Purple) ensures i in Live(b) && i in (roots + {idx}) + (pending - {idx}) {
      assert i in Colored(a, Purple);
      assert i in roots + pending;
    }
  }

  lemma MarkingBlackened(s0: seq<HeapSlot>, a: seq<HeapSlot>, b: seq<HeapSlot>, roots: set<nat>, pending: set<nat>, allocations: nat, idx: nat)
    requires Marking(s0, a, roots, pending, allocations) && idx in pending
    requires idx < |a| && b == a[idx := a[idx].(color := Black)]
    ensures Marking(s0, b, roots, pending - {idx}, allocations) && Marking(s0, b, roots, pending, allocations)
    ensures SameObjects(a, b)
  {
    assert Shrunk(a, b);
    ReleaseKeeps(a, b);
    ShrunkThen(s0, a, b);
    assert Live(a) == Live(b);
    forall i | i in Colored(b, Purple) ensures i in Live(b) && i in roots + (pending - {idx}) && i in roots + pending {
      assert i in Colored(a, Purple);
      assert i in roots + pending;
    }
  }

  lemma MarkingReleased(s0: seq<HeapSlot>, a: seq<HeapSlot>, ra: set<nat>, b: seq<HeapSlot>, rb: set<nat>, pending: set<nat>, allocations: nat)
    requires Marking(s0, a, ra, pending, allocations) && ReleaseCall(a, ra, b, rb, multiset{})
    ensures Marking(s0, b, rb, pending, allocations)
  {
    ReleaseKeeps(a, b);
    ShrunkThen(s0, a, b);
    forall i | i in Colored(b, Purple) ensures i in Live(b) && i in rb + pending {
      if i in Colored(a, Purple) { assert i in Live(a) && i in ra + pending; }
    }
  }

  lemma ReleaseShrinks(a: seq<HeapSlot>, ra: set<nat>, b: seq<HeapSlot>, rb: set<nat>)
    requires ReleaseCall(a, ra, b, rb, multiset{})
    ensures Live(b) <= Live(a)
  {}

  method AnyOrder(roots: set<nat>) returns (order: seq<nat>)
    ensures OrderOf(order, roots)
  {
    order := [];
    var rest := roots;
    while rest != {}
      invariant rest <= roots && OrderOf(order, roots - rest)
      decreases rest
    {
      var r :| r in rest;
      OrderPrepend(r, order, roots - rest);
      assert {r} + (roots - rest) == roots - (rest - {r});
      order := [r] + order;
      rest := rest - {r};
    }
    assert roots - rest == roots;
  }

  lemma ScanCallKeeps(a: seq<HeapSlot>, b: seq<HeapSlot>, reached: set<nat>, done: set<nat>)
    requires ScanCall(a, b, reached, done)
    ensures WellFormed(a) ==> WellFormed(b)
    ensures |a| == |b| && Shrunk(a, b) && SameObjects(a, b) && Colored(b, Purple) <= Colored(a, Purple)
  {
    ScanFrameKeeps(a, b);
  }

  // ----- placing -----

  function NextGeneration(generation: u32): u32 {
    if generation == U32_MAX then 0 else generation + 1
  }

  /** One slot was given to `obj` with one anchor: an empty slot in its next generation, or a new
      slot in generation 1. */
  ghost predicate Placed(a: seq<HeapSlot>, r: ObjectRef, obj: HeapObject, b: seq<HeapSlot>) {
    var slot := HeapSlot(r.generation, 1, 0, Black, Some(obj));
    if r.index < |a| then
      a[r.index].obj.None? && r.generation == NextGeneration(a[r.index].generation) && b == a[r.index := slot]
    else
      r.index == |a| && r.generation == 1 && b == a + [slot]
  }

  lemma AllTaken(s: seq<HeapSlot>)
    requires |s| >= U32_MAX && forall i :: 0 <= i < |s| ==> i in Live(s)
    ensures SlotsTaken(s, {})
  {}

  lemma NotTakenBut(s: seq<HeapSlot>, i: nat)
    requires i < U32_MAX
    ensures !SlotsTaken(s, {i})
  {
    assert i in {i};
  }

  /** What is full after a collection was full before it. */
  lemma TakenBefore(a: seq<HeapSlot>, b: seq<HeapSlot>)
    requires Shrunk(a, b) && SlotsTaken(b, {})
    ensures SlotsTaken(a, {})
  {
    forall i | 0 <= i < U32_MAX ensures i in Live(a) { assert i in Live(b); }
  }

  lemma PlacedIndex(a: seq<HeapSlot>, r: ObjectRef, obj: HeapObject, b: seq<HeapSlot>)
    requires Placed(a, r, obj, b)
    ensures r.index < |b|
  {}

  lemma PlacedWasFree(a: seq<HeapSlot>, r: ObjectRef, obj: HeapObject, b: seq<HeapSlot>)
    requires Placed(a, r, obj, b) && r.index < U32_MAX
    ensures !SlotsTaken(a, {})
  {
    assert r.index !in Live(a);
  }

  lemma StoredFree(header: nat, s: seq<HeapSlot>, books: Books)
    requires StoredIn(header, s, books)
    ensures forall k :: 0 <= k < |books.free| ==> books.free[k] < |s| && s[books.free[k]].obj.None?
  {
    forall k | 0 <= k < |books.free| ensures books.free[k] < |s| && s[books.free[k]].obj.None? {
      assert books.free[k] in books.free;
    }
  }

  lemma SoundLength(s: seq<HeapSlot>, roots: set<nat>, allocations: nat)
    requires Sound(s, roots, allocations)
    ensures |s| <= U32_MAX
  {}

  lemma PlacedInFree(s: seq<HeapSlot>, roots: set<nat>, idx: nat, obj: HeapObject, slot: HeapSlot, allocations: nat)
    requires Sound(s, roots, allocations) && idx < |s| && s[idx].obj.None? && RefsInRange(GetChildren(obj), |s|)
    requires slot == HeapSlot(NextGeneration(s[idx].generation), 1, 0, Black, Some(obj))
    ensures Placed(s, ObjectRef(idx, slot.generation), obj, s[idx := slot])
    ensures Sound(s[idx := slot], roots, allocations + 1)
    ensures allocations < U32_MAX ==> slot.generation != 0
  {
    var b := s[idx := slot];
    forall i | 0 <= i < |b| ensures RefsInRange(SlotChildren(b[i]), |b|) {
      assert RefsInRange(SlotChildren(s[i]), |s|);
    }
    forall i | i in Colored(b, Purple) ensures i in Live(b) && i in roots {
      assert i in Colored(s, Purple);
    }
  }

  lemma PlacedInNew(s: seq<HeapSlot>, roots: set<nat>, obj: HeapObject, slot: HeapSlot, allocations: nat)
    requires Sound(s, roots, allocations) && |s| < U32_MAX && RefsInRange(GetChildren(obj), |s|)
    requires slot == HeapSlot(1, 1, 0, Black, Some(obj))
    ensures Placed(s, ObjectRef(|s|, 1), obj, s + [slot])
    ensures Sound(s + [slot], roots, allocations + 1)
  {
    var b := s + [slot];
    forall i | 0 <= i < |b| ensures RefsInRange(SlotChildren(b[i]), |b|) {
      if i < |s| { assert RefsInRange(SlotChildren(s[i]), |s|); }
    }
    forall i | i in Colored(b, Purple) ensures i in Live(b) && i in roots {
      assert i in Colored(s, Purple);
    }
  }

  lemma AnchoredKeptSelf(a: seq<HeapSlot>)
    ensures AnchoredKept(a, a) && Evolves(a, a) && ShrunkBut(a, a, {})
  {}

  lemma AnchoredSurvives(a: seq<HeapSlot>, b: seq<HeapSlot>)
    requires Shrunk(a, b)
    ensures AnchoredKept(a, b) && Evolves(a, b) && |a| == |b| && ShrunkBut(a, b, {})
  {}

  lemma PlacedKeeps(a: seq<HeapSlot>, b: seq<HeapSlot>, r: ObjectRef, obj: HeapObject, c: seq<HeapSlot>)
    requires Shrunk(a, b) && Placed(b, r, obj, c)
    ensures AnchoredKept(a, c) && ShrunkBut(a, c, {r.index}) && |a| <= |c| <= |a| + 1
    ensures r.index < |c| && c[r.index] == HeapSlot(r.generation, 1, 0, Black, Some(obj))
    ensures r.generation != 0 ==> !Issued(a, r) && Evolves(a, c)
    ensures r.index !in Anchored(a)
  {
    forall i | i in Anchored(a) ensures i < |b| && c[i] == b[i] { assert b[i].obj.Some?; }
  }

  // ----- collecting -----

  lemma RecolorKeeps(a: seq<HeapSlot>, b: seq<HeapSlot>, idx: nat)
    requires idx < |a| == |b| && b == a[idx := a[idx].(color := b[idx].color)]
    ensures WellFormed(a) ==> WellFormed(b)
  {
    if WellFormed(a) {
      forall i | 0 <= i < |b| ensures RefsInRange(SlotChildren(b[i]), |b|) {
        assert RefsInRange(SlotChildren(a[i]), |a|);
      }
    }
  }

  lemma BlackenedKeeps(a: seq<HeapSlot>, b: seq<HeapSlot>, which: set<nat>)
    requires Blackened(a, b, which)
    ensures Shrunk(a, b) && SameObjects(a, b)
  {}

  lemma ShrunkSelf(a: seq<HeapSlot>)
    ensures Shrunk(a, a)
  {}

  lemma SoundAfterCollect(a: seq<HeapSlot>, b: seq<HeapSlot>, c: seq<HeapSlot>, roots: set<nat>, allocations: nat)
    requires Sound(a, roots, allocations) && Shrunk(a, b) && Colored(b, Purple) <= Colored(a, Purple)
    requires Blackened(b, c, roots)
    ensures Sound(c, {}, allocations)
  {
    BlackenedKeeps(b, c, roots);
    ShrunkThen(a, b, c);
    ReleaseKeeps(a, c);
    forall i ensures i !in Colored(c, Purple) {
      if i in Colored(b, Purple) { assert i in Colored(a, Purple); }
    }
  }

  lemma NoCandidates(s: seq<HeapSlot>)
    requires ExactEdges(s)
    ensures CountsWithout(s, s, Garbage(s, {}))
  {
    var g := ObjectGraph(s);
    assert Garbage(s, {}) == {};
    assert Nodes(g) - {} == Nodes(g);
  }

  /** Mark, scan and collect from exact counts and independent candidates. */
  lemma CollectionExact(s: seq<HeapSlot>, marked: seq<HeapSlot>, scanned: seq<HeapSlot>, c: seq<HeapSlot>, roots: set<nat>)
    requires ExactEdges(s) && Colored(s, Gray) == {}
    requires Swept(Mark, s, marked, roots, multiset{})
    requires ScanCall(marked, scanned, ReachedSet(ObjectGraph(s), roots), roots) && Blackened(scanned, c, roots)
    ensures CountsWithout(s, c, Garbage(s, roots))
  {
    TrialIsExact(s, marked, scanned, roots);
  }


  /** Some White slots were emptied and blackened; nothing else changed. */
  ghost predicate WhiteFreed(a: seq<HeapSlot>, b: seq<HeapSlot>) {
    && |a| == |b|
    && forall i :: 0 <= i < |a| ==>
      b[i] == a[i] || (a[i].color == White && b[i] == a[i].(color := Black, obj := None))
  }

  lemma WhiteFreedOne(a: seq<HeapSlot>, b: seq<HeapSlot>, idx: nat)
    requires idx in Live(a) && a[idx].color == White && b == a[idx := a[idx].(color := Black, obj := None)]
    ensures WhiteFreed(a, b) && Live(b) < Live(a)
    ensures WellFormed(a) ==> WellFormed(b) && RefsInRange(GetChildren(a[idx].obj.value), |b|)
  {
    assert idx in Live(a) && idx !in Live(b);
    WhiteFreedKeeps(a, b);
    if WellFormed(a) { assert RefsInRange(SlotChildren(a[idx]), |a|); }
  }

  lemma WhiteFreedKeeps(a: seq<HeapSlot>, b: seq<HeapSlot>)
    requires WhiteFreed(a, b)
    ensures WellFormed(a) ==> WellFormed(b)
    ensures Live(b) <= Live(a) && |a| == |b|
  {
    if WellFormed(a) {
      forall i | 0 <= i < |b| ensures RefsInRange(SlotChildren(b[i]), |b|) {
        assert RefsInRange(SlotChildren(a[i]), |a|);
      }
    }
  }

  lemma WhiteFreedThen(a: seq<HeapSlot>, b: seq<HeapSlot>, c: seq<HeapSlot>)
    requires WhiteFreed(a, b) && WhiteFreed(b, c)
    ensures WhiteFreed(a, c)
  {
    forall i | 0 <= i < |a|
      ensures c[i] == a[i] || (a[i].color == White && c[i] == a[i].(color := Black, obj := None))
    {
      assert b[i] == a[i] || (a[i].color == White && b[i] == a[i].(color := Black, obj := None));
      assert c[i] == b[i] || (b[i].color == White && c[i] == b[i].(color := Black, obj := None));
    }
  }

  /** The White slots among these are gone. */
  ghost predicate GoneFrom(a: seq<HeapSlot>, b: seq<HeapSlot>, ts: seq<nat>) {
    forall t :: t in ts && t in Live(a) && a[t].color == White ==> t !in Live(b)
  }

  /** With every emptied slot, the White slots it refers to are gone too. */
  ghost predicate WhiteGone(a: seq<HeapSlot>, b: seq<HeapSlot>) {
    forall i :: i in Live(a) && i !in Live(b) ==> GoneFrom(a, b, ObjectGraph(a)[i])
  }

  lemma WhiteGoneNothing(a: seq<HeapSlot>)
    ensures WhiteGone(a, a) && GoneFrom(a, a, [])
  {}

  lemma NoTargets(s: seq<HeapSlot>, refs: seq<ObjectRef>)
    ensures Targets(s, refs[..0]) == []
  {}

  lemma WhiteGoneThen(a: seq<HeapSlot>, b: seq<HeapSlot>, c: seq<HeapSlot>)
    requires WhiteFreed(a, b) && WhiteFreed(b, c) && WhiteGone(a, b) && WhiteGone(b, c)
    ensures WhiteGone(a, c)
  {
    forall i | i in Live(a) && i !in Live(c) ensures GoneFrom(a, c, ObjectGraph(a)[i]) {
      if i in Live(b) {
        TargetsAgree(a, b, SlotChildren(a[i]));
        assert ObjectGraph(b)[i] == ObjectGraph(a)[i];
      }
    }
  }

  lemma GoneThen(a: seq<HeapSlot>, b: seq<HeapSlot>, c: seq<HeapSlot>, ts: seq<nat>, t: nat)
    requires WhiteFreed(a, b) && WhiteFreed(b, c) && GoneFrom(a, b, ts)
    requires t in Live(b) && b[t].color == White ==> t !in Live(c)
    ensures GoneFrom(a, c, ts + [t]) && GoneFrom(a, c, ts)
  {}

  /** The slot emptied first, and then what its references lead to. */
  lemma WhiteGoneWith(a: seq<HeapSlot>, idx: nat, b: seq<HeapSlot>, c: seq<HeapSlot>)
    requires idx in Live(a) && a[idx].color == White && b == a[idx := a[idx].(color := Black, obj := None)]
    requires WhiteFreed(b, c) && WhiteGone(b, c) && GoneFrom(b, c, Targets(b, GetChildren(a[idx].obj.value)))
    ensures WhiteGone(a, c)
  {
    forall i | i in Live(a) && i !in Live(c) ensures GoneFrom(a, c, ObjectGraph(a)[i]) {
      TargetsAgree(a, b, SlotChildren(a[i]));
      if i != idx { assert ObjectGraph(b)[i] == ObjectGraph(a)[i]; }
    }
  }

  /** Exactly the slots in `which` turned Black; nothing else changed. */
  ghost predicate Blackened(a: seq<HeapSlot>, b: seq<HeapSlot>, which: set<nat>) {
    && |a| == |b|
    && forall i :: 0 <= i < |a| ==> b[i] == if i in which then a[i].(color := Black) else a[i]
  }

  /** The same objects, counted by the edges of all slots but `without`. */
  ghost predicate CountsWithout(a: seq<HeapSlot>, b: seq<HeapSlot>, without: set<nat>) {
    var g := ObjectGraph(a);
    && SameObjects(a, b)
    && forall t :: 0 <= t < |a| ==> b[t].edges == InEdges(g, Nodes(g) - without, t)
  }

  /** True counts, nothing left Gray, and candidates that do not reach each other. */
  ghost predicate Collectable(s: seq<HeapSlot>, roots: set<nat>) {
    ExactEdges(s) && Colored(s, Gray) == {} && Independent(s, roots)
  }

  lemma EmptyHeap(header: nat)
    ensures Sound([], {}, 0) && StoredIn(header, [], Books([], {}, 0, 0, [], 0, 0, multiset{}, multiset{}))
  {}

  class PrivateHeap {
    const header: nat
    const maxObjects: nat
    const maxBytes: nat
    var objects: seq<HeapSlot>
    var freeSlots: seq<nat>
    var roots: set<nat>
    var allocationsSinceRelease: nat
    var pendingDrops: seq<AdapterHandle>
    var heapObjects: nat
    var heapBytes: nat
    ghost var reservedObjects: nat
    ghost var reservedBytes: nat
    ghost var issued: multiset<AdapterHandle>
    ghost var delivered: multiset<AdapterHandle>
    ghost var allocations: nat

    ghost function TheBooks(): Books
      reads this`freeSlots, this`roots, this`heapObjects, this`heapBytes, this`pendingDrops
      reads this`reservedObjects, this`reservedBytes, this`issued, this`delivered
    {
      Books(freeSlots, roots, heapObjects, heapBytes, pendingDrops, reservedObjects, reservedBytes, issued, delivered)
    }

    /** The free list is exactly the empty slots; the quota counters are the live totals plus
        reservations; each issued handle is live, queued for drop, or delivered. */
    ghost predicate Stored()
      reads this
    {
      StoredIn(header, objects, TheBooks())
    }

    ghost predicate Valid()
      reads this
    {
      && Sound(objects, roots, allocations)
      && Stored()
      && heapObjects <= maxObjects
      && heapBytes <= maxBytes
    }

    lemma SoundFacts()
      requires Valid()
      ensures WellFormed(objects) && Stored()
    {}

    constructor (header: nat, maxObjects: nat, maxBytes: nat)
      ensures Valid() && objects == [] && roots == {} && allocations == 0 && reservedObjects == 0 && reservedBytes == 0
      ensures allocationsSinceRelease == 0 && heapObjects == 0 && heapBytes == 0
      ensures this.header == header && this.maxObjects == maxObjects && this.maxBytes == maxBytes
    {
      hide StoredIn, Sound;
      this.header := header;
      this.maxObjects := maxObjects;
      this.maxBytes := maxBytes;
      objects, freeSlots, roots, pendingDrops := [], [], {}, [];
      allocationsSinceRelease, heapObjects, heapBytes := 0, 0, 0;
      reservedObjects, reservedBytes, allocations := 0, 0, 0;
      issued, delivered := multiset{}, multiset{};
      new;
      EmptyHeap(header);
    }

    // ----- mark, scan and restore -----

    method MarkGray(idx: nat)
      requires WellFormed(objects) && idx < |objects|
      modifies this`objects
      ensures Swept(Mark, old(objects), objects, {idx}, multiset{})
      decreases NotColored(objects, Gray)
    {
      var color, children := objects[idx].color, SlotChildren(objects[idx]);
      if color != Gray {
        assert RefsInRange(children, |objects|);
        objects := objects[idx := objects[idx].(color := Gray)];
        ghost var start := objects;
        SweptNoRefs(Mark, start);
        for k := 0 to |children|
          invariant SweptRefs(Mark, start, objects, children[..k])
        {
          var child := children[k].index;
          ghost var before := objects;
          SweepProgress(Mark, old(objects), idx, start, before, children[..k]);
          if objects[child].generation == children[k].generation {
            objects := objects[child := objects[child].(edges := SatSub(objects[child].edges, 1))];
            ghost var taken := objects;
            EdgeChangeKeeps(before, taken, child);
            MarkGray(child);
            SweptStep(Mark, start, before, taken, objects, children, k);
          } else {
            SweptSkip(Mark, start, before, children, k);
          }
        }
        assert children[..|children|] == children;
        SweptSlot(Mark, old(objects), idx, start, objects);
      } else {
        SweptNothing(Mark, objects, {idx});
      }
    }

    method ScanBlack(idx: nat)
      requires WellFormed(objects) && idx < |objects| && objects[idx].color != Black
      modifies this`objects
      ensures Swept(Restore, old(objects), objects, {idx}, multiset{})
      decreases NotColored(objects, Black)
    {
      var children := SlotChildren(objects[idx]);
      assert RefsInRange(children, |objects|);
      objects := objects[idx := objects[idx].(color := Black)];
      ghost var start := objects;
      SweptNoRefs(Restore, start);
      for k := 0 to |children|
        invariant SweptRefs(Restore, start, objects, children[..k])
      {
        var child := children[k].index;
        ghost var before := objects;
        SweepProgress(Restore, old(objects), idx, start, before, children[..k]);
        if objects[child].generation == children[k].generation {
          objects := objects[child := objects[child].(edges := SatAdd32(objects[child].edges, 1))];
          ghost var given := objects;
          EdgeChangeKeeps(before, given, child);
          if objects[child].color != Black {
            ScanBlack(child);
          } else {
            SweptNothing(Restore, given, {child});
          }
          SweptStep(Restore, start, before, given, objects, children, k);
        } else {
          SweptSkip(Restore, start, before, children, k);
        }
      }
      assert children[..|children|] == children;
      SweptSlot(Restore, old(objects), idx, start, objects);
    }

    /** `reached` is the part of the heap under trial; when the heap is a scan in progress over
        it, scanning one of its slots settles that slot. */
    method Scan(idx: nat, ghost reached: set<nat>)
      requires WellFormed(objects) && idx < |objects|
      modifies this`objects
      ensures ScanCall(old(objects), objects, reached, {idx})
      decreases Colored(objects, Gray)
    {
      var slot, children := objects[idx], SlotChildren(objects[idx]);
      assert RefsInRange(children, |objects|);
      if slot.color == Gray {
        if slot.anchors > 0 || slot.edges > 0 {
          ScanBlack(idx);
          ScanCallRestore(old(objects), objects, reached, idx);
        } else {
          objects := objects[idx := slot.(color := White)];
          ghost var start := objects;
          WhitenKeeps(old(objects), start, idx);
          ScanCallNothing(start, reached, {});
          for k := 0 to |children|
            invariant ScanCall(start, objects, reached, Elems(Targets(start, children[..k])))
          {
            var child := children[k].index;
            ghost var before, ts := objects, Targets(start, children[..k]);
            TargetsStep(start, children, k);
            ScanFrameKeeps(start, before);
            if objects[child].generation == children[k].generation {
              Scan(child, reached);
              ScanCallThen(start, before, objects, reached, Elems(ts), {child});
              ElemsStep(ts, child);
            }
          }
          assert children[..|children|] == children;
          ScanCallWhiten(old(objects), idx, start, objects, reached);
        }
      } else {
        ScanCallNothing(objects, reached, {idx});
      }
    }

    // ----- release -----

    /** Empties a live slot that is no candidate: gives back its quota, lists it free and queues
        the drop of an adapter handle. */
    method Vacate(idx: nat) returns (obj: HeapObject)
      requires Stored() && idx in Live(objects) && idx !in roots
      modifies this`objects, this`heapObjects, this`heapBytes, this`freeSlots, this`pendingDrops
      ensures Some(obj) == old(objects[idx].obj)
      ensures objects == old(objects)[idx := old(objects)[idx].(obj := None)]
      ensures freeSlots == old(freeSlots) + [idx] && pendingDrops == old(pendingDrops) + if obj.HandleObject? then [obj.handle] else []
      ensures Stored() && heapObjects <= old(heapObjects) && heapBytes <= old(heapBytes)
    {
      hide StoredIn, HeapBytes;
      obj := objects[idx].obj.value;
      var emptied := objects[idx].(obj := None);
      ghost var books := TheBooks();
      StoredVacate(header, objects, books, idx, emptied);
      books := Vacated(header, books, idx, obj);
      objects := objects[idx := emptied];
      heapObjects := heapObjects - 1;
      heapBytes := heapBytes - HeapBytes(header, obj);
      freeSlots := freeSlots + [idx];
      pendingDrops := pendingDrops + if obj.HandleObject? then [obj.handle] else [];
      assert TheBooks() == books;
    }

    method ReleaseInternal(idx: nat)
      requires WellFormed(objects) && Stored() && idx < |objects|
      requires objects[idx].anchors == 0 && objects[idx].edges == 0
      modifies this`objects, this`heapObjects, this`heapBytes, this`freeSlots, this`pendingDrops, this`roots
      ensures ReleaseCall(old(objects), old(roots), objects, roots, multiset{}) && idx !in Live(objects)
      ensures Stored() && heapObjects <= old(heapObjects) && heapBytes <= old(heapBytes)
      decreases Live(objects), 0
    {
      hide StoredIn, ReleaseCall, ReleasedRefs, WellFormed;
      objects := objects[idx := objects[idx].(color := Black)];
      roots := roots - {idx};
      StoredAgreeRoots(header, old(objects), objects, old(TheBooks()), TheBooks());
      if objects[idx].obj.Some? {
        var obj := Vacate(idx);
        var children := GetChildren(obj);
        ghost var start, startRoots := objects, roots;
        VacateKeeps(old(objects), start, idx);
        ReleasedNoRefs(start, roots);
        for k := 0 to |children|
          invariant Stored() && heapObjects <= old(heapObjects) && heapBytes <= old(heapBytes)
          invariant ReleasedRefs(start, startRoots, objects, roots, children[..k])
        {
          ghost var before, beforeRoots := objects, roots;
          RefsReleaseKeeps(start, startRoots, before, beforeRoots, children[..k]);
          var _ := ReleaseEdge(children[k]);
          ReleasedRef(start, startRoots, before, beforeRoots, objects, roots, children, k);
        }
        assert children[..|children|] == children;
        ReleasedSlot(old(objects), old(roots), idx, start, objects, roots);
      } else {
        ReleaseEmpty(old(objects), old(roots), idx, objects);
      }
    }

    method ReleaseEdge(r: ObjectRef) returns (result: Result<(), HeapError>)
      requires WellFormed(objects) && Stored()
      modifies this`objects, this`heapObjects, this`heapBytes, this`freeSlots, this`pendingDrops, this`roots
      ensures result.Ok? <==> old(Resolves(objects, r))
      ensures ReleasedRefs(old(objects), old(roots), objects, roots, [r]) && HeldGoToo(old(objects), objects)
      ensures result.Ok? ==> var slot := old(objects)[r.index].(edges := SatSub(old(objects)[r.index].edges, 1));
        && (slot.anchors == 0 && slot.edges == 0 ==> r.index !in Live(objects))
        && (slot.anchors == 0 && slot.edges > 0 && slot.color != Purple ==>
              objects == old(objects)[r.index := slot.(color := Purple)] && roots == old(roots) + {r.index})
        && (slot.anchors > 0 || (slot.edges > 0 && slot.color == Purple) ==>
              objects == old(objects)[r.index := slot] && roots == old(roots))
      ensures Stored() && heapObjects <= old(heapObjects) && heapBytes <= old(heapBytes)
      ensures old(Valid()) ==> Valid()
      decreases Live(objects), 1
    {
      hide StoredIn, ReleaseCall, ReleasedRefs, WellFormed, Sound, HeldGoToo;
      var idx := r.index;
      if !Resolves(objects, r) {
        ReleasedStale(objects, roots, r);
        RefsHeldGoToo(objects, roots, objects, roots, [r]);
        return Err(InvalidObjectReference);
      }
      objects := objects[idx := objects[idx].(edges := SatSub(objects[idx].edges, 1))];
      ghost var taken := objects;
      EdgeChangeKeeps(old(objects), taken, idx);
      StoredAgree(header, old(objects), objects, TheBooks());
      var slot := objects[idx];
      if slot.anchors == 0 && slot.edges == 0 {
        assert Live(objects) == Live(old(objects));
        ReleaseInternal(idx);
        ReleasedGone(old(objects), old(roots), r, taken, objects, roots);
      } else if slot.anchors == 0 && slot.edges > 0 && slot.color != Purple {
        objects := objects[idx := slot.(color := Purple)];
        roots := roots + {idx};
        StoredAgreeRoots(header, taken, objects, old(TheBooks()), TheBooks());
        ReleasedStays(old(objects), old(roots), r, objects, roots, Purple);
      } else {
        assert objects[idx] == old(objects)[idx].(edges := slot.edges, color := slot.color);
        ReleasedStays(old(objects), old(roots), r, objects, roots, slot.color);
      }
      RefsHeldGoToo(old(objects), old(roots), objects, roots, [r]);
      if old(Valid()) {
        SoundAfterReleasedRefs(old(objects), old(roots), objects, roots, [r], allocations);
      }
      return Ok(());
    }

    method RetainAnchor(r: ObjectRef) returns (result: Result<(), HeapError>)
      requires Valid()
      modifies this`objects, this`roots
      ensures Valid()
      ensures result.Ok? <==> old(Resolves(objects, r))
      ensures result.Err? ==> objects == old(objects) && roots == old(roots)
      ensures result.Ok? ==>
        && objects == old(objects)[r.index := old(objects)[r.index].(anchors := SatAdd32(old(objects)[r.index].anchors, 1), color := Black)]
        && roots == old(roots) - {r.index}
    {
      hide StoredIn, Sound;
      if !Resolves(objects, r) {
        return Err(InvalidObjectReference);
      }
      var slot := objects[r.index].(anchors := SatAdd32(objects[r.index].anchors, 1), color := Black);
      SoundAfterRecount(objects, roots, r.index, slot, roots - {r.index}, allocations);
      objects := objects[r.index := slot];
      roots := roots - {r.index};
      StoredAgreeRoots(header, old(objects), objects, old(TheBooks()), TheBooks());
      return Ok(());
    }

    method RetainEdge(r: ObjectRef) returns (result: Result<(), HeapError>)
      requires Valid()
      modifies this`objects, this`roots
      ensures Valid()
      ensures result.Ok? <==> old(Resolves(objects, r))
      ensures result.Err? ==> objects == old(objects) && roots == old(roots)
      ensures result.Ok? ==>
        && objects == old(objects)[r.index := old(objects)[r.index].(edges := SatAdd32(old(objects)[r.index].edges, 1), color := Black)]
        && roots == old(roots) - {r.index}
    {
      hide StoredIn, Sound;
      if !Resolves(objects, r) {
        return Err(InvalidObjectReference);
      }
      var slot := objects[r.index].(edges := SatAdd32(objects[r.index].edges, 1), color := Black);
      SoundAfterRecount(objects, roots, r.index, slot, roots - {r.index}, allocations);
      objects := objects[r.index := slot];
      roots := roots - {r.index};
      StoredAgreeRoots(header, old(objects), objects, old(TheBooks()), TheBooks());
      return Ok(());
    }

    /** Takes one anchor off; a slot left with neither anchor nor edge is released, one left with
        edges only becomes a candidate for collection. */
    method ReleaseAnchor(r: ObjectRef) returns (result: Result<(), HeapError>)
      requires Valid()
      modifies this`objects, this`heapObjects, this`heapBytes, this`freeSlots, this`pendingDrops, this`roots
      ensures Valid()
      ensures result.Ok? <==> old(Resolves(objects, r))
      ensures result.Err? ==> objects == old(objects) && roots == old(roots)
      ensures result.Ok? ==> AnchorReleased(old(objects), old(roots), r.index, objects, roots) && HeldGoToo(old(objects), objects)
      ensures result.Ok? ==> var slot := old(objects)[r.index].(anchors := SatSub(old(objects)[r.index].anchors, 1));
        && (slot.anchors == 0 && slot.edges > 0 && slot.color != Purple ==>
              objects == old(objects)[r.index := slot.(color := Purple)] && roots == old(roots) + {r.index})
        && (slot.anchors > 0 || (slot.edges > 0 && slot.color == Purple) ==>
              objects == old(objects)[r.index := slot] && roots == old(roots))
      ensures old(Balanced(objects, multiset{}) && NoIdle(objects, {})) ==> Balanced(objects, multiset{}) && NoIdle(objects, {})
    {
      hide StoredIn, ReleaseCall, WellFormed, Sound, AnchorReleased, Balanced, NoIdle, HeldGoToo;
      ghost var exact := Balanced(objects, multiset{}) && NoIdle(objects, {});
      var idx := r.index;
      if !Resolves(objects, r) {
        return Err(InvalidObjectReference);
      }
      var slot := objects[idx].(anchors := SatSub(objects[idx].anchors, 1));
      if slot.anchors == 0 && slot.edges == 0 {
        objects := objects[idx := slot];
        ghost var taken := objects;
        SoundAfterRecount(old(objects), roots, idx, slot, roots, allocations);
        SoundIsWellFormed(taken, roots, allocations);
        StoredAgree(header, old(objects), objects, TheBooks());
        ReleaseInternal(idx);
        SoundAfterRelease(taken, old(roots), objects, roots, multiset{}, allocations);
        AnchorReleasedGone(old(objects), old(roots), idx, objects, roots);
      } else if slot.anchors == 0 && slot.color != Purple {
        SoundAfterRecount(objects, roots, idx, slot.(color := Purple), roots + {idx}, allocations);
        objects := objects[idx := slot.(color := Purple)];
        roots := roots + {idx};
        StoredAgreeRoots(header, old(objects), objects, old(TheBooks()), TheBooks());
        AnchorReleasedStays(old(objects), old(roots), idx, objects, roots);
      } else {
        SoundAfterRecount(objects, roots, idx, slot, roots, allocations);
        objects := objects[idx := slot];
        StoredAgree(header, old(objects), objects, TheBooks());
        AnchorReleasedStays(old(objects), old(roots), idx, objects, roots);
      }
      AnchorHeldGoToo(old(objects), old(roots), idx, objects, roots);
      if exact { ReleaseAnchorExact(old(objects), old(roots), idx, objects, roots); }
      return Ok(());
    }

    /** Frees an object whatever its counts say. */
    method FreeObject(r: ObjectRef) returns (result: Result<(), HeapError>)
      requires Valid()
      modifies this`objects, this`heapObjects, this`heapBytes, this`freeSlots, this`pendingDrops, this`roots
      ensures Valid()
      ensures result.Ok? <==> old(Resolves(objects, r))
      ensures result.Err? ==> objects == old(objects) && roots == old(roots)
      ensures result.Ok? ==>
        && objects == old(objects)[r.index := HeapSlot(r.generation, 0, 0, Black, None)] && roots == old(roots) - {r.index}
        && var obj := old(objects)[r.index].obj.value;
        && freeSlots == old(freeSlots) + [r.index] && pendingDrops == old(pendingDrops) + if obj.HandleObject? then [obj.handle] else []
    {
      hide StoredIn, Sound;
      var idx := r.index;
      if !Resolves(objects, r) {
        return Err(InvalidObjectReference);
      }
      SoundAfterFree(objects, roots, idx, HeapSlot(r.generation, 0, 0, Black, None), allocations);
      roots := roots - {idx};
      StoredAgreeRoots(header, objects, objects, old(TheBooks()), TheBooks());
      var _ := Vacate(idx);
      ghost var vacant := objects;
      objects := objects[idx := objects[idx].(anchors := 0, edges := 0, color := Black)];
      StoredAgree(header, vacant, objects, TheBooks());
      assert objects == old(objects)[idx := HeapSlot(r.generation, 0, 0, Black, None)];
      return Ok(());
    }

    /** Hands the queued handle drops to the caller. */
    method TakePendingDrops() returns (drops: seq<AdapterHandle>)
      requires Valid()
      modifies this`pendingDrops, this`delivered
      ensures Valid() && pendingDrops == [] && drops == old(pendingDrops)
      ensures delivered == old(delivered) + multiset(drops)
    {
      drops := pendingDrops;
      pendingDrops := [];
      delivered := delivered + multiset(drops);
    }

    // ----- the cycle collector -----

    method ScanRoots(ghost reached: set<nat>)
      requires WellFormed(objects) && forall i :: i in roots ==> i < |objects|
      modifies this`objects
      ensures ScanCall(old(objects), objects, reached, roots)
    {
      hide ScanCall, WellFormed;
      var pending := roots;
      ScanCallNothing(objects, reached, {});
      assert roots - pending == {};
      while pending != {}
        invariant pending <= roots
        invariant ScanCall(old(objects), objects, reached, roots - pending)
        decreases pending
      {
        var idx :| idx in pending;
        ghost var before := objects;
        ScanCallKeeps(old(objects), before, reached, roots - pending);
        Scan(idx, reached);
        ScanCallThen(old(objects), before, objects, reached, roots - pending, {idx});
        assert (roots - pending) + {idx} == roots - (pending - {idx});
        pending := pending - {idx};
      }
      assert roots - pending == roots;
    }

    /** A candidate that is still Purple and held by edges only is marked and kept; any other is
        blackened, and released when its counts read zero at that moment. */
    method MarkRoot(idx: nat, ghost start: seq<HeapSlot>, ghost pending: set<nat>)
      requires Stored() && Marking(start, objects, roots, pending, allocations) && idx in pending && idx < |objects|
      modifies this`objects, this`heapObjects, this`heapBytes, this`freeSlots, this`pendingDrops, this`roots
      ensures Stored() && heapObjects <= old(heapObjects) && heapBytes <= old(heapBytes)
      ensures Marking(start, objects, roots, pending - {idx}, allocations)
      ensures MarkedOne(old(objects), old(roots), idx, objects, roots)
      ensures var slot, black := old(objects[idx]), old(objects)[idx := old(objects[idx]).(color := Black)];
        if slot.color == Purple && slot.anchors == 0 && slot.edges > 0 then
          Swept(Mark, old(objects), objects, {idx}, multiset{}) && roots == old(roots) + {idx}
        else if slot.anchors == 0 && slot.edges == 0 then
          ReleaseCall(black, old(roots), objects, roots, multiset{}) && idx !in Live(objects)
        else objects == black && roots == old(roots)
    {
      hide StoredIn, Swept, ReleaseCall, WellFormed, Marking;
      MarkingFacts(start, objects, roots, pending, allocations, idx);
      var slot := objects[idx];
      if slot.color == Purple && slot.anchors == 0 && slot.edges > 0 {
        MarkGray(idx);
        roots := roots + {idx};
        MarkingMarked(start, old(objects), objects, old(roots), pending, allocations, idx);
        StoredAgreeRoots(header, old(objects), objects, old(TheBooks()), TheBooks());
        LiveAgree(old(objects), objects);
      } else {
        objects := objects[idx := slot.(color := Black)];
        ghost var black := objects;
        MarkingBlackened(start, old(objects), black, roots, pending, allocations, idx);
        StoredAgree(header, old(objects), black, TheBooks());
        LiveAgree(old(objects), black);
        if slot.anchors == 0 && slot.edges == 0 {
          MarkingFacts(start, black, roots, pending, allocations, idx);
          ReleaseInternal(idx);
          MarkingReleased(start, black, old(roots), objects, roots, pending - {idx}, allocations);
          ReleaseShrinks(black, old(roots), objects, roots);
        }
      }
    }

    /** Drains the candidates in the given order, which the source leaves to its hash set. If all are
        Purple and held by edges only, and no slot is Gray, this is a sweep from all of them exactly
        if none reaches one drained after it; otherwise the first one reached by an earlier one is
        not kept, and it is freed if its true references all come from what the earlier ones reach,
        whoever holds those. */
    method MarkRoots(order: seq<nat>)
      requires Valid() && OrderOf(order, roots)
      modifies this`objects, this`heapObjects, this`heapBytes, this`freeSlots, this`pendingDrops, this`roots
      ensures Shrunk(old(objects), objects)
      ensures Valid()
      ensures old(Candidates(objects, roots)) && Forward(old(objects), order) ==>
        Swept(Mark, old(objects), objects, old(roots), multiset{}) && roots == old(roots)
      ensures old(Candidates(objects, roots) && Colored(objects, Gray) == {}) ==>
        (Swept(Mark, old(objects), objects, old(roots), multiset{}) && roots == old(roots) <==> Forward(old(objects), order))
      ensures old(Candidates(objects, roots) && Colored(objects, Gray) == {} && ExactEdges(objects)) ==>
        forall j :: 0 <= j < |order| && FirstDependent(old(objects), order, j) && Starved(old(objects), order, j) ==> order[j] !in Live(objects)
    {
      hide StoredIn, Swept, WellFormed, Marking, Sound, Shrunk, Draining, MarkedOne, Forward, FirstDependent, Starved, ExactEdges, ReleaseCall;
      ghost var plain := Candidates(objects, roots);
      StoredRoots(header, objects, TheBooks());
      ghost var candidates := roots;
      roots := {};
      StoredAgreeRoots(header, objects, objects, old(TheBooks()), TheBooks());
      MarkingStarts(objects, candidates, allocations);
      DrainingStarts(objects, order);
      assert order[0..] == order;
      for k := 0 to |order|
        invariant Stored() && heapObjects <= old(heapObjects) && heapBytes <= old(heapBytes)
        invariant Marking(old(objects), objects, roots, Elems(order[k..]), allocations)
        invariant plain ==> Draining(old(objects), order, k, objects, roots)
      {
        ghost var before, done := objects, roots;
        DropElems(order, k);
        MarkingFacts(old(objects), before, roots, Elems(order[k..]), allocations, order[k]);
        MarkRoot(order[k], old(objects), Elems(order[k..]));
        if plain { DrainStep(old(objects), order, k, before, done, objects, roots); }
      }
      assert order[|order|..] == [] && Elems(order[|order|..]) == {};
      MarkingEnds(old(objects), objects, roots, allocations);
      if plain {
        DrainingEnds(old(objects), order, objects, roots);
        DrainingFrees(old(objects), order, objects, roots);
      }
    }

    method CollectWhite(idx: nat)
      requires WellFormed(objects) && Stored() && idx < |objects| && roots == {}
      modifies this`objects, this`heapObjects, this`heapBytes, this`freeSlots, this`pendingDrops
      ensures WhiteFreed(old(objects), objects) && WhiteGone(old(objects), objects)
      ensures old(idx in Live(objects) && objects[idx].color == White) ==> idx !in Live(objects)
      ensures Stored() && heapObjects <= old(heapObjects) && heapBytes <= old(heapBytes)
      ensures old(objects[idx].color) != White ==> objects == old(objects) && TheBooks() == old(TheBooks())
      decreases Live(objects)
    {
      hide StoredIn, WellFormed, WhiteGone, GoneFrom, Targets, GetChildren;
      WhiteGoneNothing(objects);
      if objects[idx].color == White && objects[idx].obj.Some? {
        objects := objects[idx := objects[idx].(color := Black)];
        StoredAgree(header, old(objects), objects, TheBooks());
        var obj := Vacate(idx);
        var children := GetChildren(obj);
        ghost var start := objects;
        WhiteFreedOne(old(objects), start, idx);
        WhiteGoneNothing(start);
        NoTargets(start, children);
        for k := 0 to |children|
          invariant Stored() && heapObjects <= old(heapObjects) && heapBytes <= old(heapBytes)
          invariant WhiteFreed(start, objects) && WhiteGone(start, objects) && GoneFrom(start, objects, Targets(start, children[..k]))
        {
          ghost var before := objects;
          WhiteFreedKeeps(start, before);
          TargetsStep(start, children, k);
          var child := children[k].index;
          if objects[child].generation == children[k].generation {
            CollectWhite(child);
            GoneThen(start, before, objects, Targets(start, children[..k]), child);
            WhiteGoneThen(start, before, objects);
            WhiteFreedThen(start, before, objects);
          }
        }
        assert children[..|children|] == children;
        WhiteGoneWith(old(objects), idx, start, objects);
        WhiteFreedThen(old(objects), start, objects);
      }
    }

    /** Every candidate is blackened before `CollectWhite` looks for White: nothing is freed. */
    method CollectRoots()
      requires WellFormed(objects) && Stored()
      modifies this`objects, this`heapObjects, this`heapBytes, this`freeSlots, this`pendingDrops, this`roots
      ensures Blackened(old(objects), objects, old(roots)) && roots == {}
      ensures TheBooks() == old(TheBooks()).(roots := {}) && Stored()
    {
      hide StoredIn, WellFormed;
      StoredRoots(header, objects, TheBooks());
      var pending := roots;
      roots := {};
      StoredAgreeRoots(header, objects, objects, old(TheBooks()), TheBooks());
      while pending != {}
        invariant pending <= old(roots) && roots == {} && WellFormed(objects)
        invariant TheBooks() == old(TheBooks()).(roots := {}) && Stored()
        invariant Blackened(old(objects), objects, old(roots) - pending)
        decreases pending
      {
        var idx :| idx in pending;
        ghost var before := objects;
        objects := objects[idx := objects[idx].(color := Black)];
        StoredAgree(header, before, objects, TheBooks());
        RecolorKeeps(before, objects, idx);
        CollectWhite(idx);
        pending := pending - {idx};
      }
    }

    /** One collection. It frees unanchored slots only and touches no anchor. When the counts are
        exact and no candidate reaches another, it frees nothing, and leaves each slot counted by
        the edges of those slots that something outside the candidates' reach still holds. */
    method CollectCycles()
      requires Valid()
      modifies this`objects, this`heapObjects, this`heapBytes, this`freeSlots, this`pendingDrops, this`roots
      ensures Valid() && Shrunk(old(objects), objects) && roots == {}
      ensures old(Collectable(objects, roots)) ==> CountsWithout(old(objects), objects, Garbage(old(objects), old(roots)))
    {
      hide StoredIn, Swept, Sound, Garbage, ExactEdges, ScanCall, Blackened, CountsWithout, Shrunk, Forward, Candidates, FirstDependent, Starved;
      ghost var exact := Collectable(objects, roots);
      if roots == {} {
        ShrunkSelf(objects);
        if exact { NoCandidates(objects); }
        return;
      }
      ghost var candidates := roots;
      ghost var reached := ReachedSet(ObjectGraph(objects), candidates);
      var order := AnyOrder(roots);
      if exact { IndependentIsForward(objects, roots, order); }
      MarkRoots(order);
      ghost var marked := objects;
      StoredRoots(header, marked, TheBooks());
      SoundIsWellFormed(marked, roots, allocations);
      ScanRoots(reached);
      ghost var scanned, left := objects, roots;
      ScanCallKeeps(marked, scanned, reached, roots);
      StoredAgree(header, marked, scanned, TheBooks());
      CollectRoots();
      BlackenedKeeps(scanned, objects, left);
      SoundAfterCollect(marked, scanned, objects, left, allocations);
      ShrunkThen(marked, scanned, objects);
      ShrunkThen(old(objects), marked, objects);
      if exact {
        CollectionExact(old(objects), marked, scanned, objects, candidates);
      }
    }

    // ----- allocation -----

    /** Reserves one object and its bytes, or leaves both counters as they were. */
    method TryReserveHeap(bytes: nat) returns (result: Result<(), HeapError>)
      requires Stored() && heapObjects <= maxObjects && heapBytes <= maxBytes
      modifies this`heapObjects, this`heapBytes, this`reservedObjects, this`reservedBytes
      ensures Stored() && heapObjects <= maxObjects && heapBytes <= maxBytes
      ensures result == if old(heapObjects) + 1 > maxObjects then Err(ObjectLimit)
                        else if old(heapBytes) + bytes > maxBytes then Err(ByteLimit) else Ok(())
      ensures TheBooks() == if result.Err? then old(TheBooks())
        else old(TheBooks()).(objects := old(heapObjects) + 1, bytes := old(heapBytes) + bytes,
                              reservedObjects := old(reservedObjects) + 1, reservedBytes := old(reservedBytes) + bytes)
    {
      hide LiveTally, FreeListExact;
      var objectCurrent := heapObjects;
      heapObjects := heapObjects + 1;
      if objectCurrent + 1 > maxObjects {
        heapObjects := heapObjects - 1;
        return Err(ObjectLimit);
      }
      var byteCurrent := heapBytes;
      heapBytes := heapBytes + bytes;
      if byteCurrent + bytes > maxBytes {
        heapBytes := heapBytes - bytes;
        heapObjects := heapObjects - 1;
        return Err(ByteLimit);
      }
      reservedObjects, reservedBytes := reservedObjects + 1, reservedBytes + bytes;
      return Ok(());
    }

    /** Places a reserved object in the last freed slot, in its next generation. */
    method ReuseSlot(obj: HeapObject) returns (r: ObjectRef)
      requires Valid() && RefsInRange(GetChildren(obj), |objects|) && freeSlots != []
      requires reservedObjects >= 1 && reservedBytes >= HeapBytes(header, obj)
      modifies this`objects, this`freeSlots, this`reservedObjects, this`reservedBytes, this`issued, this`allocations
      ensures Valid() && Placed(old(objects), r, obj, objects)
      ensures old(allocations) < U32_MAX ==> r.generation != 0
      ensures old(freeSlots) == freeSlots + [r.index]
      ensures reservedObjects == old(reservedObjects) - 1 && reservedBytes == old(reservedBytes) - HeapBytes(header, obj)
      ensures issued == old(issued) + HandlesOf(obj) && allocations == old(allocations) + 1
    {
      hide StoredIn, Sound, Placed, HandlesOf, HeapBytes, RefsInRange;
      ghost var books := TheBooks();
      StoredFree(header, objects, books);
      SoundLength(objects, roots, allocations);
      var idx := freeSlots[|freeSlots| - 1];
      var slot := HeapSlot(NextGeneration(objects[idx].generation), 1, 0, Black, Some(obj));
      PlacedInFree(objects, roots, idx, obj, slot, allocations);
      freeSlots := freeSlots[..|freeSlots| - 1];
      objects := objects[idx := slot];
      reservedObjects, reservedBytes := reservedObjects - 1, reservedBytes - HeapBytes(header, obj);
      issued, allocations := issued + HandlesOf(obj), allocations + 1;
      assert TheBooks() == books.(free := freeSlots, reservedObjects := reservedObjects, reservedBytes := reservedBytes, issued := issued);
      StoredReuse(header, old(objects), books, slot, TheBooks());
      r := ObjectRef(idx, slot.generation);
    }

    /** Places a reserved object in a new slot. */
    method GrowSlot(obj: HeapObject) returns (r: ObjectRef)
      requires Valid() && RefsInRange(GetChildren(obj), |objects|) && |objects| < U32_MAX
      requires reservedObjects >= 1 && reservedBytes >= HeapBytes(header, obj)
      modifies this`objects, this`reservedObjects, this`reservedBytes, this`issued, this`allocations
      ensures Valid() && Placed(old(objects), r, obj, objects) && r.generation != 0
      ensures reservedObjects == old(reservedObjects) - 1 && reservedBytes == old(reservedBytes) - HeapBytes(header, obj)
      ensures issued == old(issued) + HandlesOf(obj) && allocations == old(allocations) + 1
    {
      hide StoredIn, Sound, Placed, HandlesOf, HeapBytes, RefsInRange;
      ghost var books := TheBooks();
      r := ObjectRef(|objects|, 1);
      var slot := HeapSlot(1, 1, 0, Black, Some(obj));
      PlacedInNew(objects, roots, obj, slot, allocations);
      objects := objects + [slot];
      reservedObjects, reservedBytes := reservedObjects - 1, reservedBytes - HeapBytes(header, obj);
      issued, allocations := issued + HandlesOf(obj), allocations + 1;
      assert TheBooks() == books.(reservedObjects := reservedObjects, reservedBytes := reservedBytes, issued := issued);
      StoredGrow(header, old(objects), books, slot, TheBooks());
    }

    /** Places a reserved object in the slot freed last, or else in a new one, if an index is left. */
    method PlaceReserved(obj: HeapObject) returns (result: Result<ObjectRef, HeapError>)
      requires Valid() && RefsInRange(GetChildren(obj), |objects|)
      requires reservedObjects >= 1 && reservedBytes >= HeapBytes(header, obj)
      modifies this`objects, this`freeSlots, this`reservedObjects, this`reservedBytes, this`issued, this`allocations
      ensures Valid() && (result.Ok? || result == Err(IdCounterExhausted))
      ensures result.Ok? <==> !SlotsTaken(old(objects), {})
      ensures result.Ok? ==>
        && Placed(old(objects), result.value, obj, objects) && !SlotsTaken(objects, {result.value.index})
        && (old(allocations) < U32_MAX ==> result.value.generation != 0)
        && (if old(freeSlots) == [] then freeSlots == [] else old(freeSlots) == freeSlots + [result.value.index])
        && reservedObjects == old(reservedObjects) - 1 && reservedBytes == old(reservedBytes) - HeapBytes(header, obj)
        && issued == old(issued) + HandlesOf(obj) && allocations == old(allocations) + 1
      ensures result.Err? ==> objects == old(objects) && TheBooks() == old(TheBooks()) && allocations == old(allocations) && maxObjects > U32_MAX
    {
      hide StoredIn, Sound, Placed, HandlesOf, HeapBytes, SlotsTaken, RefsInRange;
      ghost var start := objects;
      var r;
      if freeSlots != [] {
        r := ReuseSlot(obj);
      } else if |objects| >= U32_MAX {
        NoFreeSlot(header, objects, TheBooks());
        AllTaken(objects);
        if maxObjects <= U32_MAX { LimitLeavesIndex(header, objects, TheBooks()); }
        return Err(IdCounterExhausted);
      } else {
        r := GrowSlot(obj);
      }
      SoundLength(objects, roots, allocations);
      PlacedIndex(start, r, obj, objects);
      PlacedWasFree(start, r, obj, objects);
      NotTakenBut(objects, r.index);
      return Ok(r);
    }

    /** Reserves quota for one object, then runs a collection if this is the 500th allocation. */
    method ReserveAndCollect(bytes: nat) returns (result: Result<(), HeapError>)
      requires Valid()
      modifies this`objects, this`heapObjects, this`heapBytes, this`freeSlots, this`pendingDrops, this`roots
      modifies this`reservedObjects, this`reservedBytes, this`allocationsSinceRelease
      ensures Valid() && Shrunk(old(objects), objects)
      ensures result.Err? ==> result.error.ObjectLimit? || result.error.ByteLimit?
      ensures result == Err(ObjectLimit) <==> old(heapObjects) + 1 > maxObjects
      ensures result == Err(ByteLimit) <==> old(heapObjects) + 1 <= maxObjects && old(heapBytes) + bytes > maxBytes
      ensures result.Err? ==>
        objects == old(objects) && TheBooks() == old(TheBooks()) && allocationsSinceRelease == old(allocationsSinceRelease)
      ensures var n := if result.Ok? then 1 else 0;
        reservedObjects == old(reservedObjects) + n && reservedBytes == old(reservedBytes) + n * bytes
      ensures result.Ok? ==> heapObjects <= old(heapObjects) + 1 && heapBytes <= old(heapBytes) + bytes
      ensures result.Ok? && old(allocationsSinceRelease) + 1 < COLLECT_EVERY ==>
        && objects == old(objects) && roots == old(roots) && freeSlots == old(freeSlots)
        && allocationsSinceRelease == old(allocationsSinceRelease) + 1
        && heapObjects == old(heapObjects) + 1 && heapBytes == old(heapBytes) + bytes
      ensures result.Ok? && old(allocationsSinceRelease) + 1 >= COLLECT_EVERY ==>
        && roots == {} && allocationsSinceRelease == 0
        && (old(Collectable(objects, roots)) ==> CountsWithout(old(objects), objects, Garbage(old(objects), old(roots))))
    {
      hide StoredIn, Sound, Shrunk, Independent, Garbage, ExactEdges, CountsWithout;
      ShrunkSelf(objects);
      result := TryReserveHeap(bytes);
      if result.Err? {
        return;
      }
      allocationsSinceRelease := allocationsSinceRelease + 1;
      if allocationsSinceRelease >= COLLECT_EVERY {
        ghost var before, books := objects, TheBooks();
        CollectCycles();
        ShrunkBooks(header, before, books, objects, TheBooks());
        allocationsSinceRelease := 0;
      }
    }

    /** Allocates with one anchor, collecting first at every 500th allocation. A refused quota
        changes nothing; running out of slot indices keeps the quota already reserved. */
    method Alloc(obj: HeapObject) returns (result: Result<ObjectRef, HeapError>)
      requires Valid() && RefsInRange(GetChildren(obj), |objects|)
      modifies this
      ensures Valid()
      ensures AnchoredKept(old(objects), objects)
      ensures ShrunkBut(old(objects), objects, if result.Ok? then {result.value.index} else {})
      ensures |old(objects)| <= |objects| <= |old(objects)| + 1
      ensures heapObjects <= old(heapObjects) + 1 && heapBytes <= old(heapBytes) + HeapBytes(header, obj)
      ensures old(allocations) <= allocations <= old(allocations) + 1
      ensures old(allocations) < U32_MAX ==> Evolves(old(objects), objects)
      ensures delivered == old(delivered)
      ensures result.Ok? ==>
        && Resolves(objects, result.value)
        && objects[result.value.index] == HeapSlot(result.value.generation, 1, 0, Black, Some(obj))
        && (old(allocations) < U32_MAX ==> !Issued(old(objects), result.value))
        && result.value.index !in Anchored(old(objects))
      ensures result.Ok? && old(allocationsSinceRelease) + 1 < COLLECT_EVERY ==>
        && Placed(old(objects), result.value, obj, objects) && roots == old(roots)
        && (if old(freeSlots) == [] then freeSlots == [] else old(freeSlots) == freeSlots + [result.value.index])
      ensures issued == if result.Ok? then old(issued) + HandlesOf(obj) else old(issued)
      ensures result.Ok? || result == Err(ObjectLimit) || result == Err(ByteLimit) || result == Err(IdCounterExhausted)
      ensures result == Err(ObjectLimit) <==> old(heapObjects) + 1 > maxObjects
      ensures result == Err(ByteLimit) <==> old(heapObjects) + 1 <= maxObjects && old(heapBytes) + HeapBytes(header, obj) > maxBytes
      ensures result == Err(IdCounterExhausted) <==>
        && old(heapObjects) + 1 <= maxObjects && old(heapBytes) + HeapBytes(header, obj) <= maxBytes
        && SlotsTaken(objects, if result.Ok? then {result.value.index} else {})
      ensures result == Err(IdCounterExhausted) ==> SlotsTaken(old(objects), {})
      ensures old(allocationsSinceRelease) + 1 < COLLECT_EVERY ==>
        (result == Err(IdCounterExhausted) <==>
          && old(heapObjects) + 1 <= maxObjects && old(heapBytes) + HeapBytes(header, obj) <= maxBytes
          && SlotsTaken(old(objects), {}))
      ensures maxObjects <= U32_MAX ==> result != Err(IdCounterExhausted)
      ensures result.Err? && old(allocationsSinceRelease) + 1 < COLLECT_EVERY ==> objects == old(objects)
      ensures (result.Ok? || result == Err(IdCounterExhausted)) && old(allocationsSinceRelease) + 1 >= COLLECT_EVERY ==>
        roots == {} && allocationsSinceRelease == 0
      ensures result.Ok? && old(allocationsSinceRelease) + 1 >= COLLECT_EVERY && old(Collectable(objects, roots)) ==>
        exists collected :: CountsWithout(old(objects), collected, Garbage(old(objects), old(roots))) && Placed(collected, result.value, obj, objects)
      ensures result.Ok? && old(allocationsSinceRelease) + 1 < COLLECT_EVERY ==>
        && allocationsSinceRelease == old(allocationsSinceRelease) + 1
        && heapObjects == old(heapObjects) + 1 && heapBytes == old(heapBytes) + HeapBytes(header, obj)
      ensures var leaked := result == Err(IdCounterExhausted);
        && reservedObjects == old(reservedObjects) + (if leaked then 1 else 0)
        && reservedBytes == old(reservedBytes) + (if leaked then HeapBytes(header, obj) else 0)
      ensures result == Err(ObjectLimit) || result == Err(ByteLimit) ==>
        objects == old(objects) && TheBooks() == old(TheBooks()) && allocationsSinceRelease == old(allocationsSinceRelease)
    {
      hide StoredIn, Sound, Shrunk, ShrunkBut, Placed, Evolves, AnchoredKept, HeapBytes, HandlesOf, SlotsTaken, Collectable, CountsWithout, Garbage;
      AnchoredKeptSelf(objects);
      var reserved := ReserveAndCollect(HeapBytes(header, obj));
      if reserved.Err? {
        return Err(reserved.error);
      }
      ghost var collected := objects;
      AnchoredSurvives(old(objects), collected);
      result := PlaceReserved(obj);
      if result.Err? {
        TakenBefore(old(objects), collected);
        return;
      }
      PlacedKeeps(old(objects), collected, result.value, obj, objects);
    }
  }
}
