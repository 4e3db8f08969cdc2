/** What holds over whole runs of heap operations, and what each operation does to exact counts. */
module HeapRuns {
  import opened Machine
  import opened EdgeGraph
  import opened HeapObjects
  import opened HeapSweep
  import opened TrialDeletion
  import opened ReleaseCascade
  import opened HeapStorage
  import opened Heap

  // ----- exact counts under release -----

  /** Giving up one reference that its holder has already dropped restores true edge counts. */
  lemma ReleaseEdgeExact(a: seq<HeapSlot>, ra: set<nat>, r: ObjectRef, b: seq<HeapSlot>, rb: set<nat>)
    requires Balanced(a, multiset(Targets(a, [r]))) && NoIdle(a, {})
    requires ReleasedRefs(a, ra, b, rb, [r])
    ensures Balanced(b, multiset{}) && NoIdle(b, {})
  {
    CascadeIsExact(a, b, multiset(Targets(a, [r])), {});
  }

  /** Mark from each candidate, then scan from each candidate: the collector's first two passes
      over any set of candidates. */
  method TrialDelete(heap: PrivateHeap, candidates: set<nat>)
    requires WellFormed(heap.objects) && forall i :: i in candidates ==> i < |heap.objects|
    modifies heap`objects
    ensures SameObjects(old(heap.objects), heap.objects)
    ensures old(ExactEdges(heap.objects) && Colored(heap.objects, Gray) == {}) ==>
      var g := ObjectGraph(old(heap.objects));
      && Colored(heap.objects, Gray) == {}
      && ReachedSet(g, candidates) * Colored(heap.objects, White) == Garbage(old(heap.objects), candidates)
      && CountsWithout(old(heap.objects), heap.objects, Garbage(old(heap.objects), candidates))
  {
    hide Swept, ScanCall, WellFormed, ExactEdges, Garbage;
    ghost var start, exact := heap.objects, ExactEdges(heap.objects) && Colored(heap.objects, Gray) == {};
    ghost var reached := ReachedSet(ObjectGraph(start), candidates);
    var pending := candidates;
    SweptNothing(Mark, start, {});
    assert candidates - pending == {};
    while pending != {}
      invariant pending <= candidates
      invariant Swept(Mark, start, heap.objects, candidates - pending, multiset{})
      decreases pending
    {
      var idx :| idx in pending;
      ghost var before := heap.objects;
      SweptFacts(start, before, candidates - pending);
      heap.MarkGray(idx);
      SweptTwice(Mark, start, before, heap.objects, candidates - pending, {idx});
      assert (candidates - pending) + {idx} == candidates - (pending - {idx});
      pending := pending - {idx};
    }
    assert candidates - pending == candidates;
    ghost var marked := heap.objects;
    SweptFacts(start, marked, candidates);
    ScanCallNothing(marked, reached, {});
    pending := candidates;
    assert candidates - pending == {};
    while pending != {}
      invariant pending <= candidates
      invariant ScanCall(marked, heap.objects, reached, candidates - pending)
      decreases pending
    {
      var idx :| idx in pending;
      ghost var before := heap.objects;
      ScanCallKeeps(marked, before, reached, candidates - pending);
      heap.Scan(idx, reached);
      ScanCallThen(marked, before, heap.objects, reached, candidates - pending, {idx});
      assert (candidates - pending) + {idx} == candidates - (pending - {idx});
      pending := pending - {idx};
    }
    assert candidates - pending == candidates;
    ScanCallKeeps(marked, heap.objects, reached, candidates);
    if exact {
      TrialIsExact(start, marked, heap.objects, candidates);
      GrayIsReached(start, marked, heap.objects, candidates);
    }
  }

  /** A scan paints nothing Gray, so what it leaves Gray the marking painted and hence reached. */
  lemma GrayIsReached(s: seq<HeapSlot>, marked: seq<HeapSlot>, scanned: seq<HeapSlot>, roots: set<nat>)
    requires Colored(s, Gray) == {} && Swept(Mark, s, marked, roots, multiset{})
    requires ScanCall(marked, scanned, ReachedSet(ObjectGraph(s), roots), roots)
    ensures Colored(scanned, Gray) <= ReachedSet(ObjectGraph(s), roots)
  {
    forall i | i in Colored(scanned, Gray) ensures i in ReachedSet(ObjectGraph(s), roots) {
      assert i in Colored(marked, Gray);
      assert i in Painted(Mark, s, marked);
      assert ReachedFrom(ObjectGraph(s), roots, i);
    }
  }

  lemma SweptFacts(a: seq<HeapSlot>, b: seq<HeapSlot>, from: set<nat>)
    requires Swept(Mark, a, b, from, multiset{})
    ensures SameObjects(a, b) && (WellFormed(a) ==> WellFormed(b))
  {}

  // ----- runs -----

  datatype HeapOp =
    | DoAlloc(obj: HeapObject)
    | DoRetainAnchor(r: ObjectRef)
    | DoReleaseAnchor(r: ObjectRef)
    | DoRetainEdge(r: ObjectRef)
    | DoReleaseEdge(r: ObjectRef)
    | DoFree(r: ObjectRef)
    | DoCollect
    | DoTakeDrops

  /** The operation takes an anchor off slot `i` or frees it outright. */
  ghost predicate Unanchors(op: HeapOp, a: seq<HeapSlot>, i: nat) {
    (op.DoReleaseAnchor? || op.DoFree?) && op.r.index == i && Resolves(a, op.r)
  }

  /** The slot holds the same object in the same generation. */
  ghost predicate SameObject(a: seq<HeapSlot>, b: seq<HeapSlot>, i: nat) {
    i < |a| && i < |b| && b[i].obj == a[i].obj && b[i].generation == a[i].generation
  }

  /** What every single step does: an anchored slot that stays anchored keeps its object, anchors
      fall only by releasing or freeing that very object, and stale references stay stale. */
  ghost predicate Step(op: HeapOp, a: seq<HeapSlot>, b: seq<HeapSlot>) {
    && Evolves(a, b)
    && (forall i :: i in Anchored(a) && b[i].anchors > 0 ==> SameObject(a, b, i))
    && (forall i :: i in Anchored(a) && b[i].anchors < a[i].anchors ==>
          Unanchors(op, a, i) && (op.DoReleaseAnchor? ==> b[i].anchors == a[i].anchors - 1))
  }

  method RunOp(heap: PrivateHeap, op: HeapOp) returns (leaked: bool)
    requires heap.Valid() && heap.allocations < U32_MAX
    modifies heap
    ensures heap.Valid() && heap.allocations <= old(heap.allocations) + 1
    ensures Step(op, old(heap.objects), heap.objects)
    ensures leaked ==> op.DoAlloc? && heap.maxObjects > U32_MAX
    ensures heap.reservedObjects == old(heap.reservedObjects) + if leaked then 1 else 0
    ensures heap.reservedBytes == old(heap.reservedBytes) + if leaked then HeapBytes(heap.header, op.obj) else 0
  {
    hide StoredIn, Sound, Evolves, ExactEdges, Garbage, CountsWithout, ReleasedRefs, AnchorReleased, Placed, Shrunk;
    leaked := false;
    StepSelf(op, heap.objects);
    match op {
      case DoAlloc(obj) =>
        if RefsInRange(GetChildren(obj), |heap.objects|) {
          var r := heap.Alloc(obj);
          leaked := r == Err(IdCounterExhausted);
          StepAlloc(op, old(heap.objects), heap.objects);
        }
      case DoRetainAnchor(r) =>
        var res := heap.RetainAnchor(r);
        if res.Ok? { StepRetain(op, old(heap.objects), heap.objects, r); }
      case DoReleaseAnchor(r) =>
        var res := heap.ReleaseAnchor(r);
        if res.Ok? { StepReleaseAnchor(op, old(heap.objects), old(heap.roots), heap.objects, heap.roots); }
      case DoRetainEdge(r) =>
        var res := heap.RetainEdge(r);
        if res.Ok? { StepRetain(op, old(heap.objects), heap.objects, r); }
      case DoReleaseEdge(r) =>
        heap.SoundFacts();
        var _ := heap.ReleaseEdge(r);
        StepReleaseEdge(op, old(heap.objects), old(heap.roots), heap.objects, heap.roots);
      case DoFree(r) =>
        var res := heap.FreeObject(r);
        if res.Ok? { StepFree(op, old(heap.objects), heap.objects); }
      case DoCollect =>
        heap.CollectCycles();
        StepShrunk(op, old(heap.objects), heap.objects);
      case DoTakeDrops =>
        var _ := heap.TakePendingDrops();
    }
  }

  lemma StepSelf(op: HeapOp, a: seq<HeapSlot>)
    ensures Step(op, a, a)
  {}

  lemma StepAlloc(op: HeapOp, a: seq<HeapSlot>, b: seq<HeapSlot>)
    requires AnchoredKept(a, b) && Evolves(a, b)
    ensures Step(op, a, b)
  {}

  lemma StepRetain(op: HeapOp, a: seq<HeapSlot>, b: seq<HeapSlot>, r: ObjectRef)
    requires Resolves(a, r) && |a| == |b|
    requires b == a[r.index := a[r.index].(anchors := b[r.index].anchors, edges := b[r.index].edges, color := b[r.index].color)]
    requires b[r.index].anchors >= a[r.index].anchors
    ensures Step(op, a, b)
  {}

  lemma StepShrunk(op: HeapOp, a: seq<HeapSlot>, b: seq<HeapSlot>)
    requires Shrunk(a, b)
    ensures Step(op, a, b)
  {}

  lemma StepReleaseAnchor(op: HeapOp, a: seq<HeapSlot>, ra: set<nat>, b: seq<HeapSlot>, rb: set<nat>)
    requires op.DoReleaseAnchor? && Resolves(a, op.r) && AnchorReleased(a, ra, op.r.index, b, rb)
    ensures Step(op, a, b)
  {}

  lemma StepReleaseEdge(op: HeapOp, a: seq<HeapSlot>, ra: set<nat>, b: seq<HeapSlot>, rb: set<nat>)
    requires op.DoReleaseEdge? && ReleasedRefs(a, ra, b, rb, [op.r])
    ensures Step(op, a, b)
  {}

  lemma StepFree(op: HeapOp, a: seq<HeapSlot>, b: seq<HeapSlot>)
    requires op.DoFree? && Resolves(a, op.r) && b == a[op.r.index := HeapSlot(op.r.generation, 0, 0, Black, None)]
    ensures Step(op, a, b)
  {}

  /** The states of a run, one before and one after each operation. */
  ghost predicate Run(ops: seq<HeapOp>, states: seq<seq<HeapSlot>>) {
    |states| == |ops| + 1 && forall k :: 0 <= k < |ops| ==> Step(ops[k], states[k], states[k + 1])
  }

  lemma RunExtends(ops: seq<HeapOp>, k: nat, states: seq<seq<HeapSlot>>, b: seq<HeapSlot>)
    requires k < |ops| && Run(ops[..k], states) && Step(ops[k], states[k], b)
    ensures Run(ops[..k + 1], states + [b])
  {
    hide Step;
    var longer := states + [b];
    forall j | 0 <= j < k + 1 ensures Step(ops[..k + 1][j], longer[j], longer[j + 1]) {
      if j < k { assert ops[..k][j] == ops[..k + 1][j]; }
    }
  }

  /** A slot anchored in every state of a run keeps its object and its generation throughout. */
  lemma {:induction false} AnchoredSurvive(ops: seq<HeapOp>, states: seq<seq<HeapSlot>>, i: nat, n: nat)
    requires Run(ops, states) && n < |states| && forall k :: 0 <= k <= n ==> i in Anchored(states[k])
    ensures SameObject(states[0], states[n], i)
  {
    if n > 0 {
      AnchoredSurvive(ops, states, i, n - 1);
      assert Step(ops[n - 1], states[n - 1], states[n]);
    }
  }

  /** An anchored slot that no operation of the run unanchors stays anchored, with its object. */
  lemma {:induction false} UnreleasedSurvive(ops: seq<HeapOp>, states: seq<seq<HeapSlot>>, i: nat, n: nat)
    requires Run(ops, states) && n < |states| && i in Anchored(states[0])
    requires forall k :: 0 <= k < n ==> !Unanchors(ops[k], states[k], i)
    ensures i in Anchored(states[n]) && SameObject(states[0], states[n], i) && states[n][i].anchors >= states[0][i].anchors
  {
    if n > 0 {
      UnreleasedSurvive(ops, states, i, n - 1);
      assert Step(ops[n - 1], states[n - 1], states[n]);
    }
  }

  /** A reference that is stale at any point of a run is stale from there on. */
  lemma {:induction false} StaleInRun(ops: seq<HeapOp>, states: seq<seq<HeapSlot>>, r: ObjectRef, m: nat, n: nat)
    requires Run(ops, states) && m <= n < |states| && Issued(states[m], r) && !Resolves(states[m], r)
    ensures Issued(states[n], r) && !Resolves(states[n], r)
  {
    if m < n {
      StaleInRun(ops, states, r, m, n - 1);
      assert Step(ops[n - 1], states[n - 1], states[n]);
      StaleForever(states[n - 1], states[n], r);
    }
  }

  /** Any run of fewer than 2^32 operations, collections and forced frees included: a slot anchored
      in every state keeps object and generation throughout, a stale reference stays stale, and the
      quota counters are the live totals plus what was reserved before and what allocations that ran
      out of slot indices left reserved, which a 32-bit object limit rules out. */
  method RunHeap(heap: PrivateHeap, ops: seq<HeapOp>) returns (leaks: nat, leakedBytes: nat, ghost states: seq<seq<HeapSlot>>)
    requires heap.Valid() && heap.allocations + |ops| <= U32_MAX
    modifies heap
    ensures heap.Valid()
    ensures Run(ops, states) && states[0] == old(heap.objects) && states[|ops|] == heap.objects
    ensures forall i, n :: 0 <= n < |states| && (forall k :: 0 <= k <= n ==> i in Anchored(states[k])) ==> SameObject(states[0], states[n], i)
    ensures forall r, m, n :: 0 <= m <= n < |states| && Issued(states[m], r) && !Resolves(states[m], r) ==> !Resolves(states[n], r)
    ensures heap.heapObjects == |Live(heap.objects)| + old(heap.reservedObjects) + leaks
    ensures heap.heapBytes == LiveTally(heap.header, heap.objects).bytes + old(heap.reservedBytes) + leakedBytes
    ensures leaks <= |ops| && (leaks == 0 ==> leakedBytes == 0)
    ensures heap.maxObjects <= U32_MAX ==> leaks == 0 && leakedBytes == 0
  {
    hide StoredIn, Sound, Run, Step, Anchored, SameObject, LiveTally, Live;
    leaks, leakedBytes := 0, 0;
    states := [heap.objects];
    assert Run(ops[..0], states) by { RunStarts(ops, heap.objects); }
    for k := 0 to |ops|
      invariant heap.Valid() && heap.allocations <= old(heap.allocations) + k
      invariant Run(ops[..k], states) && |states| == k + 1 && states[0] == old(heap.objects) && states[k] == heap.objects
      invariant heap.reservedObjects == old(heap.reservedObjects) + leaks && leaks <= k
      invariant heap.reservedBytes == old(heap.reservedBytes) + leakedBytes
      invariant leaks == 0 ==> leakedBytes == 0
      invariant heap.maxObjects <= U32_MAX ==> leaks == 0
    {
      var leaked := RunOp(heap, ops[k]);
      RunExtends(ops, k, states, heap.objects);
      states := states + [heap.objects];
      leaks := leaks + if leaked then 1 else 0;
      leakedBytes := leakedBytes + if leaked then HeapBytes(heap.header, ops[k].obj) else 0;
    }
    assert ops[..|ops|] == ops;
    forall i, n | 0 <= n < |states| && (forall k :: 0 <= k <= n ==> i in Anchored(states[k])) ensures SameObject(states[0], states[n], i) {
      assert i in Anchored(states[0]);
      AnchoredAreSlots(states[0], i);
      AnchoredSurvive(ops, states, i, n);
    }
    forall r, m, n | 0 <= m <= n < |states| && Issued(states[m], r) && !Resolves(states[m], r) ensures !Resolves(states[n], r) {
      StaleInRun(ops, states, r, m, n);
    }
    TallyCountsLive(heap.header, heap.objects);
    BooksAreTotals(heap.header, heap.objects, heap.TheBooks());
  }

  lemma RunStarts(ops: seq<HeapOp>, s: seq<HeapSlot>)
    ensures Run(ops[..0], [s])
  {}

  lemma AnchoredAreSlots(s: seq<HeapSlot>, i: int)
    requires i in Anchored(s)
    ensures 0 <= i < |s|
  {}

  lemma BooksAreTotals(header: nat, s: seq<HeapSlot>, b: Books)
    requires StoredIn(header, s, b)
    ensures b.objects == LiveTally(header, s).objects + b.reservedObjects && b.bytes == LiveTally(header, s).bytes + b.reservedBytes
  {}
}
