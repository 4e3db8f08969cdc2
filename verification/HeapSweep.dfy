/** The two counting passes of the cycle collector, as one relation between heaps.

    Marking colours every slot it enters Gray and takes one edge off each target of a
    coloured slot; restoring colours Black and gives the edges back. Both walk the object
    graph depth first, and saturating arithmetic composes, so one relation covers every
    partial walk. */
module HeapSweep {
  import opened Machine
  import opened EdgeGraph
  import opened HeapObjects

  datatype Phase = Mark | Restore

  function PhaseColor(phase: Phase): Color {
    if phase.Mark? then Gray else Black
  }

  function Adjust(phase: Phase, edges: u32, n: nat): u32 {
    if phase.Mark? then SatSub(edges, n) else SatAdd32(edges, n)
  }

  lemma AdjustTwice(phase: Phase, edges: u32, n: nat, m: nat)
    ensures Adjust(phase, Adjust(phase, edges, n), m) == Adjust(phase, edges, n + m)
  {}

  ghost function Painted(phase: Phase, a: seq<HeapSlot>, b: seq<HeapSlot>): set<nat> {
    Colored(b, PhaseColor(phase)) - Colored(a, PhaseColor(phase))
  }

  ghost predicate SameAnchors(a: seq<HeapSlot>, b: seq<HeapSlot>) {
    |a| == |b| && forall i :: 0 <= i < |a| ==> a[i].anchors == b[i].anchors
  }

  /** Only colours and edge counts change, and colours only by painting. */
  ghost predicate OnlyPaints(phase: Phase, a: seq<HeapSlot>, b: seq<HeapSlot>) {
    && SameObjects(a, b)
    && SameAnchors(a, b)
    && Colored(a, PhaseColor(phase)) <= Colored(b, PhaseColor(phase))
    && forall i :: 0 <= i < |a| && b[i].color != a[i].color ==> b[i].color == PhaseColor(phase)
  }

  /** Each painted slot adjusts each of its targets once per edge; `extra` adjusts more. */
  ghost predicate Counts(phase: Phase, g: Graph, a: seq<HeapSlot>, b: seq<HeapSlot>, painted: set<nat>, extra: multiset<nat>) {
    |a| == |b| == |g| &&
    forall t :: 0 <= t < |a| ==> b[t].edges == Adjust(phase, a[t].edges, InEdges(g, painted, t) + extra[t])
  }

  ghost predicate TargetsPainted(g: Graph, painted: set<nat>, all: set<nat>) {
    forall i, t :: i in painted && 0 <= i < |g| && t in g[i] ==> t in all
  }

  ghost predicate AllReached(g: Graph, from: set<nat>, painted: set<nat>) {
    forall i :: i in painted ==> ReachedFrom(g, from, i)
  }

  /** `b` is `a` after painting the slots reached from `from`: each newly painted slot adjusts
      the count of each of its targets once per edge, `extra` adjusts further counts, the
      targets of painted slots are painted, and nothing else changes. */
  ghost predicate Swept(phase: Phase, a: seq<HeapSlot>, b: seq<HeapSlot>, from: set<nat>, extra: multiset<nat>) {
    && OnlyPaints(phase, a, b)
    && from <= Colored(b, PhaseColor(phase))
    && Counts(phase, ObjectGraph(a), a, b, Painted(phase, a, b), extra)
    && TargetsPainted(ObjectGraph(a), Painted(phase, a, b), Colored(b, PhaseColor(phase)))
    && AllReached(ObjectGraph(a), from, Painted(phase, a, b))
  }

  lemma SweptNothing(phase: Phase, a: seq<HeapSlot>, from: set<nat>)
    requires from <= Colored(a, PhaseColor(phase))
    ensures Swept(phase, a, a, from, multiset{})
  {
    assert Painted(phase, a, a) == {};
    forall t | 0 <= t < |a| { InEdgesPositive(ObjectGraph(a), {}, t); }
  }

  lemma CountsAdjust(phase: Phase, g: Graph, a: seq<HeapSlot>, b: seq<HeapSlot>, painted: set<nat>, extra: multiset<nat>, t: nat, b': seq<HeapSlot>)
    requires Counts(phase, g, a, b, painted, extra) && t < |b|
    requires b' == b[t := b[t].(edges := Adjust(phase, b[t].edges, 1))]
    ensures Counts(phase, g, a, b', painted, extra + multiset{t})
  {
    hide InEdges, Adjust;
    AdjustTwice(phase, a[t].edges, InEdges(g, painted, t) + extra[t], 1);
  }

  lemma SweptAdjust(phase: Phase, a: seq<HeapSlot>, b: seq<HeapSlot>, from: set<nat>, extra: multiset<nat>, t: nat, b': seq<HeapSlot>)
    requires Swept(phase, a, b, from, extra) && t < |b|
    requires b' == b[t := b[t].(edges := Adjust(phase, b[t].edges, 1))]
    ensures Swept(phase, a, b', from, extra + multiset{t})
  {
    hide TargetsPainted, AllReached, ObjectGraph, InEdges, Adjust, Counts;
    assert Colored(b', PhaseColor(phase)) == Colored(b, PhaseColor(phase));
    assert Painted(phase, a, b') == Painted(phase, a, b);
    CountsAdjust(phase, ObjectGraph(a), a, b, Painted(phase, a, b), extra, t, b');
  }

  lemma CountsThen(phase: Phase, g: Graph, a: seq<HeapSlot>, b: seq<HeapSlot>, c: seq<HeapSlot>,
                   p: set<nat>, extra: multiset<nat>, q: set<nat>, extra': multiset<nat>)
    requires p !! q
    requires Counts(phase, g, a, b, p, extra) && Counts(phase, g, b, c, q, extra')
    ensures Counts(phase, g, a, c, p + q, extra + extra')
  {
    forall t | 0 <= t < |a|
      ensures c[t].edges == Adjust(phase, a[t].edges, InEdges(g, p + q, t) + (extra + extra')[t])
    {
      InEdgesSplit(g, p, q, t);
      AdjustTwice(phase, a[t].edges, InEdges(g, p, t) + extra[t], InEdges(g, q, t) + extra'[t]);
    }
  }

  lemma ReachedThen(g: Graph, from: set<nat>, p: set<nat>, from': set<nat>, q: set<nat>)
    requires AllReached(g, from, p) && AllReached(g, from', q)
    ensures AllReached(g, from + from', p + q)
  {
    forall i | i in p + q ensures ReachedFrom(g, from + from', i) {
      if i in p {
        var u :| u in from && Reaches(g, u, i);
        assert u in from + from';
      } else {
        var u :| u in from' && Reaches(g, u, i);
        assert u in from + from';
      }
    }
  }

  lemma SweptThen(phase: Phase, a: seq<HeapSlot>, b: seq<HeapSlot>, c: seq<HeapSlot>,
                  from: set<nat>, extra: multiset<nat>, from': set<nat>, extra': multiset<nat>)
    requires Swept(phase, a, b, from, extra) && Swept(phase, b, c, from', extra')
    ensures Swept(phase, a, c, from + from', extra + extra')
  {
    GraphAgree(a, b);
    var p, q := Painted(phase, a, b), Painted(phase, b, c);
    assert Painted(phase, a, c) == p + q;
    CountsThen(phase, ObjectGraph(a), a, b, c, p, extra, q, extra');
    ReachedThen(ObjectGraph(a), from, p, from', q);
  }

  lemma CountsEnter(phase: Phase, g: Graph, a: seq<HeapSlot>, b: seq<HeapSlot>, p: set<nat>, idx: nat)
    requires idx < |g| && idx !in p && Counts(phase, g, a, b, p, multiset(g[idx]))
    ensures Counts(phase, g, a, b, p + {idx}, multiset{})
  {
    forall t | 0 <= t < |a| { InEdgesAdd(g, p, idx, t); }
  }

  lemma ReachedEnter(g: Graph, idx: nat, p: set<nat>)
    requires idx < |g| && AllReached(g, Elems(g[idx]), p)
    ensures AllReached(g, {idx}, p + {idx})
  {
    ReachesSelf(g, idx);
    forall i | i in p ensures Reaches(g, idx, i) {
      var u :| u in Elems(g[idx]) && Reaches(g, u, i);
      ReachesPrepend(g, idx, u, i);
    }
  }

  lemma TargetsEnter(g: Graph, p: set<nat>, idx: nat, all: set<nat>)
    requires idx < |g| && TargetsPainted(g, p, all) && Elems(g[idx]) <= all
    ensures TargetsPainted(g, p + {idx}, all)
  {
    forall t | t in g[idx] ensures t in all { assert t in Elems(g[idx]); }
  }

  lemma PaintedEnter(phase: Phase, a: seq<HeapSlot>, idx: nat, a': seq<HeapSlot>, b: seq<HeapSlot>)
    requires idx < |a| && a[idx].color != PhaseColor(phase)
    requires a' == a[idx := a[idx].(color := PhaseColor(phase))] && OnlyPaints(phase, a', b)
    ensures OnlyPaints(phase, a, b) && ObjectGraph(a') == ObjectGraph(a)
    ensures idx in Colored(b, PhaseColor(phase)) && idx !in Painted(phase, a', b)
    ensures Painted(phase, a, b) == Painted(phase, a', b) + {idx}
  {
    GraphAgree(a, a');
    assert Colored(a', PhaseColor(phase)) == Colored(a, PhaseColor(phase)) + {idx};
  }

  /** One entered slot: paint it, then sweep each of its edges. */
  lemma SweptEnter(phase: Phase, a: seq<HeapSlot>, idx: nat, a': seq<HeapSlot>, b: seq<HeapSlot>)
    requires idx < |a| && a[idx].color != PhaseColor(phase)
    requires a' == a[idx := a[idx].(color := PhaseColor(phase))]
    requires var ts := ObjectGraph(a)[idx]; Swept(phase, a', b, Elems(ts), multiset(ts))
    ensures Swept(phase, a, b, {idx}, multiset{})
  {
    PaintedEnter(phase, a, idx, a', b);
    var g, p := ObjectGraph(a), Painted(phase, a', b);
    assert Counts(phase, g, a, b, p + {idx}, multiset{}) by {
      CountsEnter(phase, g, a', b, p, idx);
    }
    assert AllReached(g, {idx}, p + {idx}) by { ReachedEnter(g, idx, p); }
    TargetsEnter(g, p, idx, Colored(b, PhaseColor(phase)));
  }

  // ----- the walk over one slot's references -----

  /** The references in `refs` have been swept, one after the other. */
  ghost predicate SweptRefs(phase: Phase, a: seq<HeapSlot>, b: seq<HeapSlot>, refs: seq<ObjectRef>) {
    Swept(phase, a, b, Elems(Targets(a, refs)), multiset(Targets(a, refs)))
  }

  lemma SweptNoRefs(phase: Phase, a: seq<HeapSlot>)
    ensures SweptRefs(phase, a, a, [])
  {
    SweptNothing(phase, a, {});
  }

  lemma TargetsStep(slots: seq<HeapSlot>, refs: seq<ObjectRef>, k: nat)
    requires k < |refs|
    ensures var ts := Targets(slots, refs[..k]);
      Targets(slots, refs[..k + 1]) == if Matches(slots, refs[k]) then ts + [refs[k].index] else ts
  {
    assert refs[..k + 1][..k] == refs[..k];
  }

  lemma ElemsStep(ts: seq<nat>, t: nat)
    ensures Elems(ts + [t]) == Elems(ts) + {t}
    ensures multiset(ts + [t]) == multiset(ts) + multiset{t} + multiset{}
  {}

  /** A reference whose generation differs is skipped. */
  lemma SweptSkip(phase: Phase, a: seq<HeapSlot>, b: seq<HeapSlot>, refs: seq<ObjectRef>, k: nat)
    requires k < |refs| && SweptRefs(phase, a, b, refs[..k]) && !Matches(a, refs[k])
    ensures SweptRefs(phase, a, b, refs[..k + 1])
  {
    TargetsStep(a, refs, k);
  }

  /** A matching reference: adjust its slot's count, then sweep from that slot. */
  lemma SweptStep(phase: Phase, a: seq<HeapSlot>, b: seq<HeapSlot>, b': seq<HeapSlot>, c: seq<HeapSlot>, refs: seq<ObjectRef>, k: nat)
    requires k < |refs| && SweptRefs(phase, a, b, refs[..k]) && Matches(a, refs[k]) && refs[k].index < |b|
    requires b' == b[refs[k].index := b[refs[k].index].(edges := Adjust(phase, b[refs[k].index].edges, 1))]
    requires Swept(phase, b', c, {refs[k].index}, multiset{})
    ensures SweptRefs(phase, a, c, refs[..k + 1])
  {
    var ts, t := Targets(a, refs[..k]), refs[k].index;
    TargetsStep(a, refs, k);
    SweptAdjust(phase, a, b, Elems(ts), multiset(ts), t, b');
    SweptThen(phase, a, b', c, Elems(ts), multiset(ts) + multiset{t}, {t}, multiset{});
    ElemsStep(ts, t);
  }

  /** All references of a painted slot have been swept: so has the slot. */
  lemma SweptSlot(phase: Phase, a: seq<HeapSlot>, idx: nat, a': seq<HeapSlot>, b: seq<HeapSlot>)
    requires idx < |a| && a[idx].color != PhaseColor(phase)
    requires a' == a[idx := a[idx].(color := PhaseColor(phase))]
    requires SweptRefs(phase, a', b, SlotChildren(a[idx]))
    ensures Swept(phase, a, b, {idx}, multiset{})
  {
    TargetsAgree(a, a', SlotChildren(a[idx]));
    SweptEnter(phase, a, idx, a', b);
  }

  ghost function NotColored(slots: seq<HeapSlot>, c: Color): set<nat> {
    set i | 0 <= i < |slots| && slots[i].color != c
  }

  /** What a caller may rely on between two references: the walk makes progress and the heap's
      shape is untouched. */
  lemma SweepProgress(phase: Phase, a: seq<HeapSlot>, idx: nat, a': seq<HeapSlot>, b: seq<HeapSlot>, refs: seq<ObjectRef>)
    requires idx < |a| && a[idx].color != PhaseColor(phase)
    requires a' == a[idx := a[idx].(color := PhaseColor(phase))]
    requires SweptRefs(phase, a', b, refs)
    ensures NotColored(b, PhaseColor(phase)) < NotColored(a, PhaseColor(phase))
    ensures |b| == |a| && WellFormed(a) ==> WellFormed(b)
    ensures forall i :: 0 <= i < |a| ==> b[i].generation == a'[i].generation
  {
    assert idx in NotColored(a, PhaseColor(phase)) && idx !in NotColored(b, PhaseColor(phase));
    if WellFormed(a) {
      forall i | 0 <= i < |b| ensures RefsInRange(SlotChildren(b[i]), |b|) {
        assert RefsInRange(SlotChildren(a[i]), |a|);
      }
    }
  }
}
