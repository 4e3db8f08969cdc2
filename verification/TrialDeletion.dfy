/** What the mark and scan passes establish: which reached slots end White, and what their
    edge counts then mean. */
module TrialDeletion {
  import opened Machine
  import opened EdgeGraph
  import opened HeapObjects
  import opened HeapSweep

  /** Every edge count is the true number of references, counted with multiplicity. */
  ghost predicate ExactEdges(s: seq<HeapSlot>) {
    var g := ObjectGraph(s);
    forall t :: 0 <= t < |s| ==> s[t].edges == InEdges(g, Nodes(g), t)
  }

  ghost function ReachedSet(g: Graph, roots: set<nat>): set<nat> {
    set i | i in Nodes(g) && ReachedFrom(g, roots, i)
  }

  /** Held by a register or by a slot outside the reached part of the heap. */
  ghost predicate External(g: Graph, s: seq<HeapSlot>, reached: set<nat>, i: nat) {
    i < |s| && (s[i].anchors > 0 || InEdges(g, Nodes(g) - reached, i) > 0)
  }

  ghost predicate Held(g: Graph, s: seq<HeapSlot>, reached: set<nat>, i: nat) {
    exists e :: e in reached && External(g, s, reached, e) && Reaches(g, e, i)
  }

  /** Reached slots that nothing outside the reached part keeps alive. */
  ghost function Garbage(s: seq<HeapSlot>, roots: set<nat>): set<nat> {
    var g := ObjectGraph(s);
    var reached := ReachedSet(g, roots);
    set i | i in reached && !Held(g, s, reached, i)
  }

  // ----- the state of a scan in progress -----

  /** Reached slots whose outgoing edges are still taken off their targets. */
  ghost function Tentative(s: seq<HeapSlot>, reached: set<nat>): set<nat> {
    set i | i in reached && 0 <= i < |s| && s[i].color != Black
  }

  ghost predicate ScanShape(g: Graph, s: seq<HeapSlot>, reached: set<nat>) {
    && ObjectGraph(s) == g
    && reached <= Nodes(g)
    && Closed(g, reached)
    && forall i :: i in reached ==> s[i].color != Purple
  }

  ghost predicate ScanCounts(g: Graph, s: seq<HeapSlot>, reached: set<nat>) {
    |s| == |g| &&
    forall t :: 0 <= t < |g| ==>
      && InEdges(g, Nodes(g), t) <= U32_MAX
      && s[t].edges == InEdges(g, Nodes(g) - Tentative(s, reached), t)
  }

  ghost predicate BlackHeld(g: Graph, s: seq<HeapSlot>, reached: set<nat>) {
    && Closed(g, reached * Colored(s, Black))
    && forall i :: i in reached * Colored(s, Black) ==> Held(g, s, reached, i)
  }

  ghost predicate WhiteFree(g: Graph, s: seq<HeapSlot>, reached: set<nat>) {
    forall i :: i in reached * Colored(s, White) ==> !External(g, s, reached, i)
  }

  ghost predicate Scanning(g: Graph, s: seq<HeapSlot>, reached: set<nat>) {
    && ScanShape(g, s, reached)
    && ScanCounts(g, s, reached)
    && BlackHeld(g, s, reached)
    && WhiteFree(g, s, reached)
  }

  /** Marking an exact heap without Gray slots paints exactly what the roots reach and leaves
      each slot the edges that come from elsewhere. */
  lemma MarkedIsScannable(a: seq<HeapSlot>, b: seq<HeapSlot>, roots: set<nat>)
    requires ExactEdges(a) && Colored(a, Gray) == {} && Swept(Mark, a, b, roots, multiset{})
    ensures Colored(b, Gray) == ReachedSet(ObjectGraph(a), roots)
    ensures Scanning(ObjectGraph(a), b, Colored(b, Gray))
  {
    var g := ObjectGraph(a);
    GraphAgree(a, b);
    var gray := Colored(b, Gray);
    assert Painted(Mark, a, b) == gray;
    assert Closed(g, gray);
    forall i | i in ReachedSet(g, roots) ensures i in gray {
      var r :| r in roots && Reaches(g, r, i);
      ReachStaysInside(g, gray, r, i);
    }
    forall t | 0 <= t < |g|
      ensures b[t].edges == InEdges(g, Nodes(g) - Tentative(b, gray), t)
    {
      assert Tentative(b, gray) == gray;
      InEdgesRemove(g, Nodes(g), gray, t);
      assert a[t].edges == InEdges(g, Nodes(g), t);
    }
    assert gray * Colored(b, Black) == {} && gray * Colored(b, White) == {};
  }

  /** A Gray slot with a remaining count is held from outside: its remaining edges cannot come
      from restored slots, whose targets are all Black. */
  lemma RemainingCountIsExternal(g: Graph, s: seq<HeapSlot>, reached: set<nat>, idx: nat)
    requires Scanning(g, s, reached) && idx in reached && s[idx].color == Gray
    ensures s[idx].anchors > 0 || s[idx].edges > 0 <==> External(g, s, reached, idx)
  {
    var rest := Nodes(g) - Tentative(s, reached);
    var outside := Nodes(g) - reached;
    InEdgesRemove(g, rest, outside, idx);
    var inner := rest - outside;
    var restored := reached * Colored(s, Black);
    forall i | 0 <= i < |g| && i in inner ensures idx !in g[i] {
      assert i in restored && idx !in restored;
    }
    InEdgesPositive(g, inner, idx);
  }

  lemma HeldAgree(g: Graph, a: seq<HeapSlot>, b: seq<HeapSlot>, reached: set<nat>)
    requires SameAnchors(a, b)
    ensures forall i :: External(g, a, reached, i) <==> External(g, b, reached, i)
    ensures forall i :: Held(g, a, reached, i) <==> Held(g, b, reached, i)
  {}

  lemma RestoredCounts(g: Graph, a: seq<HeapSlot>, b: seq<HeapSlot>, reached: set<nat>)
    requires ScanCounts(g, a, reached) && Painted(Restore, a, b) <= reached
    requires OnlyPaints(Restore, a, b) && Counts(Restore, g, a, b, Painted(Restore, a, b), multiset{})
    ensures ScanCounts(g, b, reached)
  {
    var p := Painted(Restore, a, b);
    assert Tentative(b, reached) == Tentative(a, reached) - p;
    var before, after := Nodes(g) - Tentative(a, reached), Nodes(g) - Tentative(b, reached);
    assert after - p == before && p <= after;
    forall t | 0 <= t < |g|
      ensures b[t].edges == InEdges(g, after, t)
    {
      InEdgesRemove(g, after, p, t);
      InEdgesRemove(g, Nodes(g), Tentative(b, reached), t);
    }
  }

  lemma RestoredBlack(g: Graph, a: seq<HeapSlot>, b: seq<HeapSlot>, reached: set<nat>, idx: nat)
    requires BlackHeld(g, a, reached) && idx in reached && External(g, a, reached, idx)
    requires Closed(g, reached) && Swept(Restore, a, b, {idx}, multiset{}) && g == ObjectGraph(a)
    ensures BlackHeld(g, b, reached) && Painted(Restore, a, b) <= reached
  {
    HeldAgree(g, a, b, reached);
    forall i | i in Painted(Restore, a, b) ensures i in reached && Held(g, b, reached, i) {
      assert ReachedFrom(g, {idx}, i);
      assert Reaches(g, idx, i);
      ReachStaysInside(g, reached, idx, i);
    }
    assert Colored(b, Black) == Colored(a, Black) + Painted(Restore, a, b);
    RestoredClosed(g, reached, Colored(a, Black), Painted(Restore, a, b), Colored(b, Black));
  }

  lemma RestoredClosed(g: Graph, reached: set<nat>, before: set<nat>, painted: set<nat>, after: set<nat>)
    requires Closed(g, reached) && Closed(g, reached * before) && after == before + painted
    requires TargetsPainted(g, painted, after)
    ensures Closed(g, reached * after)
  {
    var old', new' := reached * before, reached * after;
    forall i, t | i in new' && 0 <= i < |g| && t in g[i] ensures t in new' {
      if i !in painted { assert i in old'; assert t in old'; }
    }
  }

  /** Restoring from an externally held Gray slot keeps the scan's invariant. */
  lemma ScanRestores(g: Graph, a: seq<HeapSlot>, b: seq<HeapSlot>, reached: set<nat>, idx: nat)
    requires Scanning(g, a, reached) && idx in reached && External(g, a, reached, idx)
    requires Swept(Restore, a, b, {idx}, multiset{})
    ensures Scanning(g, b, reached)
  {
    GraphAgree(a, b);
    RestoredBlack(g, a, b, reached, idx);
    RestoredCounts(g, a, b, reached);
    HeldAgree(g, a, b, reached);
  }

  /** Whitening a Gray slot with no remaining count keeps the scan's invariant. */
  lemma ScanWhitens(g: Graph, a: seq<HeapSlot>, b: seq<HeapSlot>, reached: set<nat>, idx: nat)
    requires Scanning(g, a, reached) && idx in reached && a[idx].color == Gray
    requires a[idx].anchors == 0 && a[idx].edges == 0
    requires b == a[idx := a[idx].(color := White)]
    ensures Scanning(g, b, reached)
  {
    hide Closed, InEdges, ObjectGraph;
    GraphAgree(a, b);
    RemainingCountIsExternal(g, a, reached, idx);
    HeldAgree(g, a, b, reached);
    assert Colored(b, Black) == Colored(a, Black);
    assert Tentative(b, reached) == Tentative(a, reached);
    assert Colored(b, White) == Colored(a, White) + {idx};
  }

  /** Slots whitened since `a` have no Gray target. */
  ghost predicate WhitenedSettled(g: Graph, a: seq<HeapSlot>, s: seq<HeapSlot>) {
    forall i, t :: i in Colored(s, White) - Colored(a, White) && 0 <= i < |g| && t in g[i] ==> t !in Colored(s, Gray)
  }

  /** The finished scan: no reached slot is Gray, the White ones are exactly the garbage, and
      each count is the number of edges from slots other than those. */
  lemma ScanFinishes(s: seq<HeapSlot>, a: seq<HeapSlot>, b: seq<HeapSlot>, roots: set<nat>)
    requires SameObjects(s, a) && SameAnchors(s, a) && SameAnchors(a, b)
    requires var g := ObjectGraph(s); var reached := ReachedSet(g, roots);
      && roots <= reached
      && reached !! Colored(a, White)
      && Scanning(g, b, reached)
      && WhitenedSettled(g, a, b)
      && roots !! Colored(b, Gray)
    ensures ReachedSet(ObjectGraph(s), roots) !! Colored(b, Gray)
    ensures ReachedSet(ObjectGraph(s), roots) * Colored(b, White) == Garbage(s, roots)
    ensures var g := ObjectGraph(s);
      forall t :: 0 <= t < |s| ==> b[t].edges == InEdges(g, Nodes(g) - Garbage(s, roots), t)
  {
    var g := ObjectGraph(s);
    var reached := ReachedSet(g, roots);
    HeldAgree(g, s, a, reached);
    HeldAgree(g, a, b, reached);
    NothingLeftGray(g, a, b, roots);
    var white := reached * Colored(b, White);
    assert white == Tentative(b, reached);
    forall i | i in reached ensures i in white <==> i in Garbage(s, roots) {
      WhiteIsUnheld(g, b, reached, i);
      assert Held(g, s, reached, i) <==> Held(g, b, reached, i);
    }
    assert white == Garbage(s, roots);
  }

  lemma NothingLeftGray(g: Graph, a: seq<HeapSlot>, b: seq<HeapSlot>, roots: set<nat>)
    requires var reached := ReachedSet(g, roots);
      && roots <= reached
      && reached !! Colored(a, White)
      && Scanning(g, b, reached)
      && WhitenedSettled(g, a, b)
      && roots !! Colored(b, Gray)
    ensures ReachedSet(g, roots) !! Colored(b, Gray)
  {
    var reached := ReachedSet(g, roots);
    SettledIsClosed(g, a, b, reached);
    forall i | i in reached ensures i !in Colored(b, Gray) {
      var r :| r in roots && Reaches(g, r, i);
      ReachStaysInside(g, reached - Colored(b, Gray), r, i);
    }
  }

  lemma WhiteIsUnheld(g: Graph, s: seq<HeapSlot>, reached: set<nat>, i: nat)
    requires Scanning(g, s, reached) && reached !! Colored(s, Gray) && i in reached
    ensures i in Colored(s, White) <==> !Held(g, s, reached, i)
  {
    if Held(g, s, reached, i) {
      var e :| e in reached && External(g, s, reached, e) && Reaches(g, e, i);
      assert e !in reached * Colored(s, White);
      assert e in reached * Colored(s, Black);
      ReachStaysInside(g, reached * Colored(s, Black), e, i);
    } else {
      assert i !in reached * Colored(s, Black);
    }
  }

  lemma SettledIsClosed(g: Graph, a: seq<HeapSlot>, b: seq<HeapSlot>, reached: set<nat>)
    requires Scanning(g, b, reached) && reached !! Colored(a, White) && WhitenedSettled(g, a, b)
    ensures Closed(g, reached - Colored(b, Gray))
  {
    forall i, t | i in reached - Colored(b, Gray) && 0 <= i < |g| && t in g[i]
      ensures t in reached - Colored(b, Gray)
    {
      if i in Colored(b, White) {
        assert i in Colored(b, White) - Colored(a, White);
      } else {
        assert i in reached * Colored(b, Black);
        assert t in reached * Colored(b, Black);
      }
    }
  }

  // ----- one scan call -----

  /** Scanning moves no object and no anchor, and turns no slot Gray or Purple. */
  ghost predicate ScanFrame(a: seq<HeapSlot>, b: seq<HeapSlot>) {
    && SameObjects(a, b)
    && SameAnchors(a, b)
    && Colored(b, Gray) <= Colored(a, Gray)
    && Colored(b, Purple) <= Colored(a, Purple)
  }

  lemma ScanFrameThen(a: seq<HeapSlot>, b: seq<HeapSlot>, c: seq<HeapSlot>)
    requires ScanFrame(a, b) && ScanFrame(b, c)
    ensures ScanFrame(a, c)
  {}

  lemma RestoreIsScanFrame(a: seq<HeapSlot>, b: seq<HeapSlot>)
    requires OnlyPaints(Restore, a, b)
    ensures ScanFrame(a, b) && Colored(b, White) <= Colored(a, White)
  {}

  /** From a scan in progress, `b` continues it with every slot in `done` settled. */
  ghost predicate Scanned(g: Graph, a: seq<HeapSlot>, b: seq<HeapSlot>, reached: set<nat>, done: set<nat>) {
    && Scanning(g, b, reached)
    && WhitenedSettled(g, a, b)
    && done !! Colored(b, Gray)
  }

  /** A whitened slot whose targets are all settled is settled itself. */
  lemma ScannedSlot(g: Graph, a: seq<HeapSlot>, idx: nat, a': seq<HeapSlot>, b: seq<HeapSlot>, reached: set<nat>)
    requires idx < |a| == |g| && a' == a[idx := a[idx].(color := White)]
    requires Scanned(g, a', b, reached, Elems(g[idx])) && ScanFrame(a', b)
    ensures Scanned(g, a, b, reached, {idx})
  {}

  /** What a scan call from `a` to `b` did: nothing but recolour and recount, and if `a` was a
      scan in progress over `reached`, then `b` continues it with `done` settled. */
  ghost predicate ScanCall(a: seq<HeapSlot>, b: seq<HeapSlot>, reached: set<nat>, done: set<nat>) {
    && ScanFrame(a, b)
    && (Scanning(ObjectGraph(a), a, reached) && done <= reached ==> Scanned(ObjectGraph(a), a, b, reached, done))
  }

  lemma ScanCallNothing(a: seq<HeapSlot>, reached: set<nat>, done: set<nat>)
    requires done !! Colored(a, Gray)
    ensures ScanCall(a, a, reached, done)
  {}

  lemma ScanCallThen(a: seq<HeapSlot>, b: seq<HeapSlot>, c: seq<HeapSlot>, reached: set<nat>, done: set<nat>, done': set<nat>)
    requires ScanCall(a, b, reached, done) && ScanCall(b, c, reached, done')
    ensures ScanCall(a, c, reached, done + done')
  {}

  /** A Gray slot with a count left is restored together with what it reaches. */
  lemma ScanCallRestore(a: seq<HeapSlot>, b: seq<HeapSlot>, reached: set<nat>, idx: nat)
    requires idx < |a| && a[idx].color == Gray && (a[idx].anchors > 0 || a[idx].edges > 0)
    requires Swept(Restore, a, b, {idx}, multiset{})
    ensures ScanCall(a, b, reached, {idx})
  {
    var g := ObjectGraph(a);
    RestoreIsScanFrame(a, b);
    if Scanning(g, a, reached) && {idx} <= reached {
      RemainingCountIsExternal(g, a, reached, idx);
      ScanRestores(g, a, b, reached, idx);
      assert idx !in Colored(b, Gray);
      assert WhitenedSettled(g, a, b);
    }
  }

  /** A Gray slot with no count left is whitened and its references scanned. */
  lemma ScanCallWhiten(a: seq<HeapSlot>, idx: nat, a': seq<HeapSlot>, b: seq<HeapSlot>, reached: set<nat>)
    requires idx < |a| && a[idx].color == Gray && a[idx].anchors == 0 && a[idx].edges == 0
    requires a' == a[idx := a[idx].(color := White)]
    requires ScanCall(a', b, reached, Elems(Targets(a', SlotChildren(a[idx]))))
    ensures ScanCall(a, b, reached, {idx})
  {
    var g := ObjectGraph(a);
    GraphAgree(a, a');
    assert Elems(Targets(a', SlotChildren(a[idx]))) == Elems(g[idx]) by {
      TargetsAgree(a, a', SlotChildren(a[idx]));
    }
    assert ScanFrame(a, a');
    ScanFrameThen(a, a', b);
    if Scanning(g, a, reached) && {idx} <= reached {
      ScanWhitens(g, a, a', reached, idx);
      TargetsInReach(g, reached, idx);
      ScannedSlot(g, a, idx, a', b, reached);
    }
  }

  lemma TargetsInReach(g: Graph, reached: set<nat>, idx: nat)
    requires Closed(g, reached) && idx in reached && idx < |g|
    ensures Elems(g[idx]) <= reached
  {}

  /** Trial deletion is exact. Marking from `roots` and then scanning from the same roots, on a
      heap with true edge counts and no Gray slot, leaves no reached slot Gray, whitens exactly
      the reached slots that nothing outside the reached part keeps alive, and leaves each slot
      counted by the edges from slots other than those. */
  lemma TrialIsExact(s: seq<HeapSlot>, marked: seq<HeapSlot>, scanned: seq<HeapSlot>, roots: set<nat>)
    requires ExactEdges(s) && Colored(s, Gray) == {}
    requires Swept(Mark, s, marked, roots, multiset{})
    requires ScanCall(marked, scanned, ReachedSet(ObjectGraph(s), roots), roots)
    ensures SameObjects(s, scanned)
    ensures ReachedSet(ObjectGraph(s), roots) !! Colored(scanned, Gray)
    ensures ReachedSet(ObjectGraph(s), roots) * Colored(scanned, White) == Garbage(s, roots)
    ensures var g := ObjectGraph(s);
      forall t :: 0 <= t < |s| ==> scanned[t].edges == InEdges(g, Nodes(g) - Garbage(s, roots), t)
  {
    hide Garbage, Scanning;
    var g := ObjectGraph(s);
    MarkedIsScannable(s, marked, roots);
    GraphAgree(s, marked);
    assert roots <= ReachedSet(g, roots);
    assert Scanned(g, marked, scanned, ReachedSet(g, roots), roots);
    ScanFinishes(s, marked, scanned, roots);
  }
}
