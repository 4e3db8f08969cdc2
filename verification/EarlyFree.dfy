/** A heap built by ordinary operations on which draining the candidates frees a reachable object. */
module EarlyFree {
  import opened Machine
  import opened EdgeGraph
  import opened HeapObjects
  import opened HeapSweep
  import opened TrialDeletion
  import opened MarkOrder
  import opened ReleaseCascade
  import opened HeapStorage
  import opened Heap
  import opened HeapMutation

  function Cell(v: VmValue): HeapObject {
    StructObject(0, 0, [v], 0)
  }

  function Ref(i: u32): VmValue {
    Object(ObjectRef(i, 1))
  }

  function CellSlot(anchors: u32, edges: u32, color: Color, v: VmValue): HeapSlot {
    HeapSlot(1, anchors, edges, color, Some(Cell(v)))
  }

  /** The first cell is anchored and refers to the second, the second to the third; the second and the
      third have lost their anchors and are candidates. */
  function ChainOfThree(): seq<HeapSlot> {
    [CellSlot(1, 0, Black, Ref(1)), CellSlot(0, 1, Purple, Ref(2)), CellSlot(0, 1, Purple, Null)]
  }

  // ----- the chain -----

  lemma CellChildren(v: VmValue)
    ensures GetChildren(Cell(v)) == if v.Object? then [v.ref] else []
  {
    assert [v][..0] == [];
    assert RefsOf([v][..0]) == [];
  }

  lemma CellTargets(s: seq<HeapSlot>, i: nat, v: VmValue)
    requires i < |s| && s[i].obj == Some(Cell(v))
    ensures ObjectGraph(s)[i] == if v.Object? && Matches(s, v.ref) then [v.ref.index] else []
  {
    CellChildren(v);
    if v.Object? { RefTarget(s, v.ref); }
  }

  lemma ChainGraph()
    ensures ObjectGraph(ChainOfThree()) == [[1], [2], []]
  {
    hide ObjectGraph;
    var s := ChainOfThree();
    CellTargets(s, 0, Ref(1));
    CellTargets(s, 1, Ref(2));
    CellTargets(s, 2, Null);
    assert |ObjectGraph(s)| == 3;
  }

  lemma ChainEdges(from: set<nat>, t: nat)
    ensures InEdges([[1], [2], []], from, t) == (if 0 in from && t == 1 then 1 else 0) + (if 1 in from && t == 2 then 1 else 0)
  {
    var g: Graph := [[1], [2], []];
    assert InUpTo(g, from, t, 0) == 0;
    assert InUpTo(g, from, t, 1) == if 0 in from then multiset([1])[t] else 0;
    assert InUpTo(g, from, t, 2) == InUpTo(g, from, t, 1) + if 1 in from then multiset([2])[t] else 0;
    assert InUpTo(g, from, t, 3) == InUpTo(g, from, t, 2);
  }

  lemma ChainIsExact()
    ensures ExactEdges(ChainOfThree())
  {
    hide ObjectGraph, InEdges;
    var s := ChainOfThree();
    ChainGraph();
    var g := ObjectGraph(s);
    forall t | 0 <= t < 3 ensures s[t].edges == InEdges(g, Nodes(g), t) { ChainEdges(Nodes(g), t); }
  }

  lemma ChainReaches()
    ensures var g := ObjectGraph(ChainOfThree()); Reaches(g, 0, 2) && Reaches(g, 1, 2) && Reaches(g, 1, 1)
  {
    hide ObjectGraph;
    ChainGraph();
    var g: Graph := [[1], [2], []];
    assert PathBetween(g, [1, 2], 1, 2);
    assert PathBetween(g, [0, 1, 2], 0, 2);
    ReachesSelf(g, 1);
  }

  lemma ChainColors()
    ensures var s := ChainOfThree(); Candidates(s, {1, 2}) && Colored(s, Gray) == {} && 0 in Anchored(s) && 2 in Live(s)
  {}

  /** Draining the second cell first starves the third. */
  lemma ChainStarves()
    ensures FirstDependent(ChainOfThree(), [1, 2], 1) && Starved(ChainOfThree(), [1, 2], 1)
  {
    hide ObjectGraph, InEdges;
    var s := ChainOfThree();
    var g := ObjectGraph(s);
    ChainGraph();
    ChainReaches();
    var order: seq<nat> := [1, 2];
    assert order[..1] == [1];
    assert ReachedEarlier(s, order, 1) by { assert Reaches(g, order[0], order[1]); }
    assert 1 in Elems(order[..1]);
    assert 1 in ReachedSet(g, Elems(order[..1]));
    ChainEdges(Nodes(g) - ReachedSet(g, Elems(order[..1])), 2);
  }

  // ----- building it -----

  /** All slots are live cells and the quota has room. */
  ghost predicate Growing(heap: PrivateHeap, slots: seq<HeapSlot>)
    reads heap
  {
    && heap.Valid() && heap.objects == slots && heap.roots == {}
    && (forall i :: 0 <= i < |slots| ==> slots[i].obj.Some?)
    && heap.header == 1 && heap.maxObjects == 3 && heap.maxBytes == 3
    && heap.heapObjects == heap.heapBytes == heap.allocationsSinceRelease == |slots|
  }

  method AllocCell(heap: PrivateHeap) returns (r: ObjectRef)
    requires Growing(heap, heap.objects) && |heap.objects| < 3
    modifies heap
    ensures r == ObjectRef(|old(heap.objects)|, 1)
    ensures Growing(heap, old(heap.objects) + [CellSlot(1, 0, Black, Null)])
  {
    hide StoredIn, Sound, Evolves, ShrunkBut, AnchoredKept, Issued, Anchored;
    CellChildren(Null);
    var result := heap.Alloc(Cell(Null));
    r := result.value;
  }

  function Unlinked(): seq<HeapSlot> {
    [CellSlot(1, 0, Black, Null), CellSlot(1, 0, Black, Null), CellSlot(1, 0, Black, Null)]
  }

  function OneLink(): seq<HeapSlot> {
    [CellSlot(1, 0, Black, Ref(1)), CellSlot(1, 1, Black, Null), CellSlot(1, 0, Black, Null)]
  }

  function TwoLinks(): seq<HeapSlot> {
    [CellSlot(1, 0, Black, Ref(1)), CellSlot(1, 1, Black, Ref(2)), CellSlot(1, 1, Black, Null)]
  }

  lemma FirstStore()
    ensures Resolves(Unlinked(), ObjectRef(1, 1)) && StoresInto(Unlinked(), Ref(0), 0) && StoresInto(Retained(Unlinked(), Ref(1)), Ref(0), 0)
    ensures Replaced(Retained(Unlinked(), Ref(1)), Ref(0), 0, Ref(1)) == OneLink()
  {
    assert [Null][0 := Ref(1)] == [Ref(1)];
  }

  lemma SecondStore()
    ensures Resolves(OneLink(), ObjectRef(2, 1)) && StoresInto(OneLink(), Ref(1), 0) && StoresInto(Retained(OneLink(), Ref(2)), Ref(1), 0)
    ensures Replaced(Retained(OneLink(), Ref(2)), Ref(1), 0, Ref(2)) == TwoLinks()
  {
    assert [Null][0 := Ref(2)] == [Ref(2)];
  }

  method AllocThree() returns (heap: PrivateHeap)
    ensures heap.Valid() && heap.objects == Unlinked() && heap.roots == {} && fresh(heap)
  {
    hide StoredIn, Sound;
    heap := new PrivateHeap(1, 3, 3);
    var a := AllocCell(heap);
    var b := AllocCell(heap);
    var c := AllocCell(heap);
  }

  method LinkThree(heap: PrivateHeap)
    requires heap.Valid() && heap.objects == Unlinked() && heap.roots == {}
    modifies heap
    ensures heap.Valid() && heap.objects == TwoLinks() && heap.roots == {}
  {
    hide StoredIn, Sound, Balanced, NoIdle, Shrunk, ValueTargets, Anchored, StoreExact, Dangling, Retained, Replaced;
    FirstStore();
    SecondStore();
    assert Unlinked()[0].obj.value.fields[0] == Null && OneLink()[1].obj.value.fields[0] == Null;
    hide StoresInto, Resolves, Unlinked, OneLink, TwoLinks;
    var first := StoreField(heap, Ref(0), 0, Ref(1));
    assert heap.objects == OneLink();
    var second := StoreField(heap, Ref(1), 0, Ref(2));
  }

  method BuildChain() returns (heap: PrivateHeap)
    ensures heap.Valid() && heap.objects == ChainOfThree() && heap.roots == {1, 2} && fresh(heap)
  {
    hide StoredIn, Sound, Balanced, NoIdle, AnchorReleased;
    heap := AllocThree();
    LinkThree(heap);
    var _ := heap.ReleaseAnchor(ObjectRef(1, 1));
    var _ := heap.ReleaseAnchor(ObjectRef(2, 1));
  }

  /** Three allocations, two stores and two releases build the chain; marking its candidates in the
      order second, third then frees the third cell, which the anchored first cell still reaches. */
  method FreesReachable() returns (heap: PrivateHeap)
    ensures heap.Valid() && ExactEdges(ChainOfThree())
    ensures 0 in Anchored(ChainOfThree()) && Reaches(ObjectGraph(ChainOfThree()), 0, 2) && 2 in Live(ChainOfThree())
    ensures Shrunk(ChainOfThree(), heap.objects) && 2 !in Live(heap.objects)
  {
    hide StoredIn, Sound, ExactEdges, Shrunk, FirstDependent, Starved, Swept, Forward, Candidates, InEdges, ObjectGraph, Reaches;
    heap := BuildChain();
    ChainIsExact();
    ChainReaches();
    ChainColors();
    ChainStarves();
    var order: seq<nat> := [1, 2];
    assert OrderOf(order, {1, 2});
    heap.MarkRoots(order);
    assert order[1] == 2;
  }
}
