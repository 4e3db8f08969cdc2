/** The zero-count release cascade as a relation between heaps, and why it is exact. */
module ReleaseCascade {
  import opened Machine
  import opened EdgeGraph
  import opened HeapObjects
  import opened HeapSweep
  import opened TrialDeletion

  /** Slots lose their object only while unanchored; everything else about objects, generations
      and anchors stays. */
  ghost predicate Shrunk(a: seq<HeapSlot>, b: seq<HeapSlot>) {
    && |a| == |b|
    && forall i :: 0 <= i < |a| ==>
      && b[i].generation == a[i].generation
      && b[i].anchors == a[i].anchors
      && (b[i].obj == a[i].obj || (b[i].obj.None? && a[i].anchors == 0))
  }

  ghost function Freed(a: seq<HeapSlot>, b: seq<HeapSlot>): set<nat> {
    Live(a) - Live(b)
  }

  /** Edges taken off slot `t` when the slots in `freed` give up their references. */
  ghost function Lost(g: Graph, freed: set<nat>, extra: multiset<nat>, t: nat): nat {
    InEdges(g, freed, t) + extra[t]
  }

  /** A slot that survives keeps the edges not lost, and not as an idle slot if it lost any. */
  ghost predicate Survives(lost: nat, a: HeapSlot, b: HeapSlot) {
    b.edges == SatSub(a.edges, lost) && (lost > 0 ==> b.anchors > 0 || b.edges > 0)
  }

  /** A freed slot was unanchored and lost all its edges. */
  ghost predicate Dies(lost: nat, a: HeapSlot, b: HeapSlot) {
    a.anchors == 0 && b.edges == 0 && a.edges <= lost
  }

  /** `b` is `a` after a release cascade that also took off the edges in `extra`. */
  ghost predicate Released(a: seq<HeapSlot>, b: seq<HeapSlot>, extra: multiset<nat>) {
    Shrunk(a, b) && ReleasedCounts(ObjectGraph(a), a, b, Freed(a, b), extra)
  }

  ghost predicate ReleasedCounts(g: Graph, a: seq<HeapSlot>, b: seq<HeapSlot>, freed: set<nat>, extra: multiset<nat>) {
    && |a| == |b|
    && (forall t :: t in Live(b) ==> t < |a| && Survives(Lost(g, freed, extra, t), a[t], b[t]))
    && (forall t :: t in freed ==> t < |a| && Dies(Lost(g, freed, extra, t), a[t], b[t]))
    && (forall t :: 0 <= t < |a| && t !in Live(a) ==> b[t].edges == a[t].edges)
  }

  /** What an object was the last to hold goes with it. */
  ghost predicate HeldGoToo(a: seq<HeapSlot>, b: seq<HeapSlot>) {
    forall i, r :: i in Freed(a, b) && Holdings(a[i].obj.value, r) > 0 && OnlyHold(a, r) ==> !Resolves(b, r)
  }

  /** The object has one edge and no anchor. */
  ghost predicate OnlyHold(a: seq<HeapSlot>, r: ObjectRef) {
    Resolves(a, r) && a[r.index].edges == 1 && a[r.index].anchors == 0
  }

  lemma ReleasedHeldGoToo(a: seq<HeapSlot>, b: seq<HeapSlot>, extra: multiset<nat>)
    requires Released(a, b, extra)
    ensures HeldGoToo(a, b)
  {
    forall i, r | i in Freed(a, b) && Holdings(a[i].obj.value, r) > 0 && OnlyHold(a, r)
      ensures !Resolves(b, r)
    {
      EdgesAreHeld(a, i, r);
      assert r.index in ObjectGraph(a)[i];
      InEdgesPositive(ObjectGraph(a), Freed(a, b), r.index);
    }
  }

  lemma ReleasedNothing(a: seq<HeapSlot>, extra: multiset<nat>)
    requires forall t :: t in Live(a) ==> extra[t] == 0
    ensures Released(a, a, extra)
  {
    forall t | 0 <= t < |a| { InEdgesPositive(ObjectGraph(a), {}, t); }
    assert Freed(a, a) == {};
  }

  lemma GraphOfShrunk(a: seq<HeapSlot>, b: seq<HeapSlot>)
    requires Shrunk(a, b)
    ensures forall i :: 0 <= i < |a| && i !in Freed(a, b) ==> ObjectGraph(b)[i] == ObjectGraph(a)[i]
    ensures forall i :: i in Freed(a, b) ==> ObjectGraph(b)[i] == []
  {
    forall i | 0 <= i < |a| && i !in Freed(a, b) ensures ObjectGraph(b)[i] == ObjectGraph(a)[i] {
      TargetsAgree(a, b, SlotChildren(a[i]));
    }
  }

  /** Cascades compose, adding up what they freed and took off. */
  lemma ReleasedThen(a: seq<HeapSlot>, b: seq<HeapSlot>, c: seq<HeapSlot>, extra: multiset<nat>, extra': multiset<nat>)
    requires Released(a, b, extra) && Released(b, c, extra')
    ensures Released(a, c, extra + extra')
  {
    var f, f' := Freed(a, b), Freed(b, c);
    assert Freed(a, c) == f + f';
    GraphOfShrunk(a, b);
    forall t | 0 <= t < |a|
      ensures Lost(ObjectGraph(a), f + f', extra + extra', t) == Lost(ObjectGraph(a), f, extra, t) + Lost(ObjectGraph(b), f', extra', t)
    {
      InEdgesSplit(ObjectGraph(a), f, f', t);
      InEdgesAgree(ObjectGraph(a), ObjectGraph(b), f', t);
    }
    ReleasedCountsThen(ObjectGraph(a), ObjectGraph(b), a, b, c, f, f', extra, extra');
  }

  lemma ReleasedCountsThen(g: Graph, g': Graph, a: seq<HeapSlot>, b: seq<HeapSlot>, c: seq<HeapSlot>,
                           f: set<nat>, f': set<nat>, extra: multiset<nat>, extra': multiset<nat>)
    requires f == Freed(a, b) && f' == Freed(b, c) && Shrunk(a, b) && Shrunk(b, c)
    requires ReleasedCounts(g, a, b, f, extra) && ReleasedCounts(g', b, c, f', extra')
    requires forall t :: 0 <= t < |a| ==>
      Lost(g, f + f', extra + extra', t) == Lost(g, f, extra, t) + Lost(g', f', extra', t)
    ensures ReleasedCounts(g, a, c, f + f', extra + extra')
  {}

  lemma LostEnter(a: seq<HeapSlot>, idx: nat, a': seq<HeapSlot>, f: set<nat>, t: nat)
    requires idx < |a| && idx !in f && t < |a|
    requires a' == a[idx := a[idx].(color := Black, obj := None)]
    ensures Lost(ObjectGraph(a), f + {idx}, multiset{}, t)
         == Lost(ObjectGraph(a'), f, multiset(ObjectGraph(a)[idx]), t)
  {
    forall i | 0 <= i < |a| && i in f { TargetsAgree(a, a', SlotChildren(a[i])); }
    InEdgesAdd(ObjectGraph(a), f, idx, t);
    InEdgesAgree(ObjectGraph(a), ObjectGraph(a'), f, t);
  }

  lemma EnterShape(a: seq<HeapSlot>, idx: nat, a': seq<HeapSlot>, b: seq<HeapSlot>)
    requires idx < |a| && a[idx].obj.Some? && a[idx].anchors == 0
    requires a' == a[idx := a[idx].(color := Black, obj := None)] && Shrunk(a', b)
    ensures Shrunk(a, b) && Live(a) == Live(a') + {idx} && Freed(a, b) == Freed(a', b) + {idx}
    ensures idx !in Freed(a', b)
  {}

  /** Freeing one idle slot, then taking its edges off its targets. */
  lemma ReleasedEnter(a: seq<HeapSlot>, idx: nat, a': seq<HeapSlot>, b: seq<HeapSlot>)
    requires idx < |a| && a[idx].obj.Some? && a[idx].anchors == 0 && a[idx].edges == 0
    requires a' == a[idx := a[idx].(color := Black, obj := None)]
    requires Released(a', b, multiset(ObjectGraph(a)[idx]))
    ensures Released(a, b, multiset{}) && idx in Freed(a, b)
  {
    var f := Freed(a', b);
    EnterShape(a, idx, a', b);
    forall t | 0 <= t < |a|
      ensures Lost(ObjectGraph(a), f + {idx}, multiset{}, t) == Lost(ObjectGraph(a'), f, multiset(ObjectGraph(a)[idx]), t)
    {
      LostEnter(a, idx, a', f, t);
    }
    EnterCounts(ObjectGraph(a), ObjectGraph(a'), a, idx, a', b, multiset(ObjectGraph(a)[idx]));
  }

  lemma EnterCounts(g: Graph, g': Graph, a: seq<HeapSlot>, idx: nat, a': seq<HeapSlot>, b: seq<HeapSlot>, extra: multiset<nat>)
    requires idx < |a| && a[idx].obj.Some? && a[idx].anchors == 0 && a[idx].edges == 0
    requires a' == a[idx := a[idx].(color := Black, obj := None)] && Live(a) == Live(a') + {idx}
    requires ReleasedCounts(g', a', b, Freed(a', b), extra)
    requires forall t :: 0 <= t < |a| ==> Lost(g, Freed(a', b) + {idx}, multiset{}, t) == Lost(g', Freed(a', b), extra, t)
    requires Shrunk(a', b)
    ensures ReleasedCounts(g, a, b, Freed(a', b) + {idx}, multiset{})
  {}

  /** Taking one edge off a slot that stays. */
  lemma ReleasedOne(a: seq<HeapSlot>, idx: nat, b: seq<HeapSlot>, c: Color)
    requires idx in Live(a) && b == a[idx := a[idx].(edges := SatSub(a[idx].edges, 1), color := c)]
    requires b[idx].anchors > 0 || b[idx].edges > 0
    ensures Released(a, b, multiset{idx})
  {
    assert SameObjects(a, b);
    LiveAgree(a, b);
    assert Freed(a, b) == {} && Shrunk(a, b);
    hide Live, SameObjects;
    OneCounts(ObjectGraph(a), a, idx, b);
  }

  lemma OneCounts(g: Graph, a: seq<HeapSlot>, idx: nat, b: seq<HeapSlot>)
    requires idx < |a| && |a| == |b| && Live(a) == Live(b) && idx in Live(a) && (forall t :: t in Live(a) ==> t < |a|)
    requires b == a[idx := a[idx].(edges := SatSub(a[idx].edges, 1), color := b[idx].color)]
    requires b[idx].anchors > 0 || b[idx].edges > 0
    ensures ReleasedCounts(g, a, b, {}, multiset{idx})
  {
    hide Live, InEdges;
    forall t | 0 <= t < |a| ensures InEdges(g, {}, t) == 0 { InEdgesPositive(g, {}, t); }
  }

  /** Taking the last edge off a slot and releasing it. */
  lemma ReleasedLast(a: seq<HeapSlot>, idx: nat, a': seq<HeapSlot>, b: seq<HeapSlot>)
    requires idx in Live(a) && a' == a[idx := a[idx].(edges := SatSub(a[idx].edges, 1))]
    requires Released(a', b, multiset{}) && idx in Freed(a', b)
    ensures Released(a, b, multiset{idx})
  {
    assert idx < |a|;
    hide ObjectGraph, Live, InEdges;
    GraphAgree(a, a');
    LiveAgree(a, a');
    LastShrunk(a, idx, a', b);
    LastCounts(ObjectGraph(a), a, idx, a', b, Freed(a, b));
  }

  lemma LastShrunk(a: seq<HeapSlot>, idx: nat, a': seq<HeapSlot>, b: seq<HeapSlot>)
    requires idx < |a| && a' == a[idx := a[idx].(edges := SatSub(a[idx].edges, 1))] && Shrunk(a', b)
    ensures Shrunk(a, b)
  {}

  lemma LastCounts(g: Graph, a: seq<HeapSlot>, idx: nat, a': seq<HeapSlot>, b: seq<HeapSlot>, f: set<nat>)
    requires idx < |a| && a' == a[idx := a[idx].(edges := SatSub(a[idx].edges, 1))] && idx in f && idx in Live(a) && idx !in Live(b)
    requires Live(a) == Live(a') && ReleasedCounts(g, a', b, f, multiset{})
    ensures ReleasedCounts(g, a, b, f, multiset{idx})
  {
    hide InEdges, Live, Lost, Shrunk;
    forall t | t in Live(b) ensures t < |a| && Survives(Lost(g, f, multiset{idx}, t), a[t], b[t]) {
      OneMoreLost(g, f, idx, t);
      assert Survives(Lost(g, f, multiset{}, t), a'[t], b[t]);
    }
    forall t | t in f ensures t < |a| && Dies(Lost(g, f, multiset{idx}, t), a[t], b[t]) {
      OneMoreLost(g, f, idx, t);
      assert Dies(Lost(g, f, multiset{}, t), a'[t], b[t]);
    }
  }

  lemma OneMoreLost(g: Graph, f: set<nat>, idx: nat, t: nat)
    ensures Lost(g, f, multiset{idx}, t) == Lost(g, f, multiset{}, t) + if t == idx then 1 else 0
  {}

  // ----- exactness -----

  /** Edge counts are true in-edge counts plus `extra`, and empty slots have none. */
  ghost predicate Balanced(s: seq<HeapSlot>, extra: multiset<nat>) {
    && BalancedCounts(ObjectGraph(s), s, extra)
    && forall t :: 0 <= t < |s| && t !in Live(s) ==> s[t].edges == 0
  }

  ghost predicate BalancedCounts(g: Graph, s: seq<HeapSlot>, extra: multiset<nat>) {
    |g| == |s| && forall t :: 0 <= t < |s| ==> s[t].edges == InEdges(g, Nodes(g), t) + extra[t]
  }

  /** Every live slot except those in `but` has an anchor or an edge. */
  ghost predicate NoIdle(s: seq<HeapSlot>, but: set<nat>) {
    forall t :: t in Live(s) && t !in but ==> s[t].anchors > 0 || s[t].edges > 0
  }

  /** A cascade settles the outstanding edges: counts are true again and no slot is idle. */
  lemma CascadeIsExact(a: seq<HeapSlot>, b: seq<HeapSlot>, extra: multiset<nat>, idle: set<nat>)
    requires Balanced(a, extra) && NoIdle(a, idle) && Released(a, b, extra) && idle <= Freed(a, b)
    ensures Balanced(b, multiset{}) && NoIdle(b, {})
  {
    hide InEdges, ObjectGraph;
    forall t | 0 <= t < |b| ensures b[t].edges == InEdges(ObjectGraph(b), Nodes(ObjectGraph(b)), t) {
      SettledEdges(a, b, extra, t);
    }
    SettledIdle(a, b, extra, idle);
  }

  lemma SettledEdges(a: seq<HeapSlot>, b: seq<HeapSlot>, extra: multiset<nat>, t: nat)
    requires Balanced(a, extra) && Released(a, b, extra) && t < |a|
    ensures |b| == |a| && b[t].edges == InEdges(ObjectGraph(b), Nodes(ObjectGraph(b)), t)
  {
    hide InEdges, ObjectGraph;
    var g, h, f := ObjectGraph(a), ObjectGraph(b), Freed(a, b);
    GraphOfShrunk(a, b);
    InEdgesAfter(g, h, f, t);
    if t in Live(b) {
      assert Survives(Lost(g, f, extra, t), a[t], b[t]);
    } else if t in f {
      assert Dies(Lost(g, f, extra, t), a[t], b[t]);
    }
  }

  lemma SettledIdle(a: seq<HeapSlot>, b: seq<HeapSlot>, extra: multiset<nat>, idle: set<nat>)
    requires NoIdle(a, idle) && Released(a, b, extra) && idle <= Freed(a, b)
    ensures NoIdle(b, {})
  {
    hide InEdges, ObjectGraph;
    forall t | t in Live(b) ensures b[t].anchors > 0 || b[t].edges > 0 {
      assert t in Live(a);
      assert Survives(Lost(ObjectGraph(a), Freed(a, b), extra, t), a[t], b[t]);
    }
  }

  lemma InEdgesAfter(g: Graph, h: Graph, f: set<nat>, t: nat)
    requires |g| == |h| && f <= Nodes(g)
    requires forall i :: 0 <= i < |g| && i !in f ==> h[i] == g[i]
    requires forall i :: i in f && 0 <= i < |g| ==> h[i] == []
    ensures InEdges(g, Nodes(g), t) == InEdges(h, Nodes(h), t) + InEdges(g, f, t)
  {
    InEdgesRemove(g, Nodes(g), f, t);
    assert Nodes(h) == Nodes(g);
    InEdgesRemove(h, Nodes(h), f, t);
    InEdgesAgree(g, h, Nodes(g) - f, t);
    InEdgesPositive(h, f, t);
  }

  // ----- on acyclic graphs the live slots are the anchored ones and what they reach -----

  ghost function Anchored(s: seq<HeapSlot>): set<nat> {
    set i | 0 <= i < |s| && s[i].obj.Some? && s[i].anchors > 0
  }

  /** On an acyclic object graph with true counts and no idle slot, the live slots are exactly
      those reachable from anchored slots: releasing leaves no garbage and frees nothing in use. */
  lemma LiveIsReachable(s: seq<HeapSlot>)
    requires Balanced(s, multiset{}) && NoIdle(s, {}) && Acyclic(ObjectGraph(s))
    ensures forall i :: i in Live(s) <==> ReachedFrom(ObjectGraph(s), Anchored(s), i)
  {
    hide ObjectGraph, Live, Anchored, Balanced, NoIdle, Acyclic;
    forall i ensures i in Live(s) <==> ReachedFrom(ObjectGraph(s), Anchored(s), i) {
      if i in Live(s) { LiveIsHeld(s, i); }
      if ReachedFrom(ObjectGraph(s), Anchored(s), i) { ReachedIsLive(s, i); }
    }
  }

  /** A live slot without an anchor has a live holder. */
  lemma UnanchoredHasHolder(s: seq<HeapSlot>, i: nat)
    requires Balanced(s, multiset{}) && NoIdle(s, {}) && i in Live(s) && i !in Anchored(s)
    ensures |ObjectGraph(s)| == |s| && exists q :: q in Live(s) && 0 <= q < |s| && i in ObjectGraph(s)[q]
  {
    var g := ObjectGraph(s);
    assert s[i].edges > 0;
    assert InEdges(g, Nodes(g), i) > 0;
    InEdgesPositive(g, Nodes(g), i);
    var q :| 0 <= q < |g| && i in g[q];
    HolderIsLive(s, q, i);
  }

  lemma HolderIsLive(s: seq<HeapSlot>, q: nat, t: nat)
    requires q < |s| && t in ObjectGraph(s)[q]
    ensures q in Live(s)
  {}

  lemma LiveIsHeld(s: seq<HeapSlot>, i: nat)
    requires Balanced(s, multiset{}) && NoIdle(s, {}) && Acyclic(ObjectGraph(s)) && i in Live(s)
    ensures ReachedFrom(ObjectGraph(s), Anchored(s), i)
  {
    hide ObjectGraph, Balanced, NoIdle, Acyclic, Anchored;
    var g := ObjectGraph(s);
    GraphInRange(s);
    forall j | j in Live(s) - Anchored(s) ensures exists q :: q in Live(s) && 0 <= q < |g| && j in g[q] {
      UnanchoredHasHolder(s, j);
    }
    AnchoredAreLive(s);
    WalkBack(g, Live(s), Anchored(s), [i]);
  }

  lemma AnchoredAreLive(s: seq<HeapSlot>)
    ensures Anchored(s) <= Live(s)
  {}

  /** What a live slot refers to is live: an empty slot has no edges. */
  lemma LiveIsClosed(s: seq<HeapSlot>)
    requires Balanced(s, multiset{})
    ensures Closed(ObjectGraph(s), Live(s))
  {
    var g := ObjectGraph(s);
    forall i, t | i in Live(s) && 0 <= i < |g| && t in g[i] ensures t in Live(s) {
      TargetsInRange(s, SlotChildren(s[i]));
      assert i in Nodes(g);
      InEdgesPositive(g, Nodes(g), t);
    }
  }

  lemma ReachedIsLive(s: seq<HeapSlot>, i: nat)
    requires Balanced(s, multiset{}) && ReachedFrom(ObjectGraph(s), Anchored(s), i)
    ensures i in Live(s)
  {
    hide ObjectGraph, Balanced, Anchored, Live;
    var g := ObjectGraph(s);
    LiveIsClosed(s);
    AnchoredAreLive(s);
    var u :| u in Anchored(s) && Reaches(g, u, i);
    ReachStaysInside(g, Live(s), u, i);
  }
}
