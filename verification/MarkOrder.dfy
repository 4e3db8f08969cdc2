/** The order in which the collector drains its candidates: when marking them one by one is marking
    from all of them, and which candidate a bad order frees. */
module MarkOrder {
  import opened Machine
  import opened EdgeGraph
  import opened HeapObjects
  import opened HeapSweep
  import opened TrialDeletion

  /** All candidates are Purple and held by edges only. */
  ghost predicate Candidates(s: seq<HeapSlot>, roots: set<nat>) {
    forall r :: r in roots ==> r in Live(s) && s[r].color == Purple && s[r].anchors == 0 && s[r].edges > 0
  }

  /** No candidate reaches another. */
  ghost predicate Independent(s: seq<HeapSlot>, roots: set<nat>) {
    Candidates(s, roots) && forall r, q :: r in roots && q in roots && r != q ==> !Reaches(ObjectGraph(s), r, q)
  }

  ghost predicate OrderOf(order: seq<nat>, roots: set<nat>) {
    Distinct(order) && Elems(order) == roots
  }

  ghost predicate ReachedEarlier(s: seq<HeapSlot>, order: seq<nat>, j: nat)
    requires j < |order|
  {
    exists i :: 0 <= i < j && Reaches(ObjectGraph(s), order[i], order[j])
  }

  /** No candidate reaches one drained after it. */
  ghost predicate Forward(s: seq<HeapSlot>, order: seq<nat>) {
    forall j :: 0 <= j < |order| ==> !ReachedEarlier(s, order, j)
  }

  // ----- every order -----

  lemma {:induction false} OrderExists(roots: set<nat>)
    ensures exists order :: OrderOf(order, roots)
    decreases roots
  {
    if roots == {} {
      assert OrderOf([], roots);
    } else {
      var r :| r in roots;
      OrderExists(roots - {r});
      var order :| OrderOf(order, roots - {r});
      OrderPrepend(r, order, roots - {r});
      assert {r} + (roots - {r}) == roots;
    }
  }

  lemma OrderPrepend(r: nat, order: seq<nat>, roots: set<nat>)
    requires OrderOf(order, roots) && r !in roots
    ensures OrderOf([r] + order, {r} + roots)
  {
    var longer := [r] + order;
    assert forall i :: 0 <= i < |order| ==> order[i] in Elems(order);
    assert forall x :: x in longer <==> x == r || x in order;
  }

  /** Marking is order-free exactly if the candidates are independent. */
  lemma EveryOrderIffIndependent(s: seq<HeapSlot>, roots: set<nat>)
    requires Candidates(s, roots)
    ensures Independent(s, roots) <==> forall order :: OrderOf(order, roots) ==> Forward(s, order)
  {
    hide Reaches, ObjectGraph, OrderOf, Forward, Candidates;
    if Independent(s, roots) {
      forall order | OrderOf(order, roots) ensures Forward(s, order) {
        IndependentIsForward(s, roots, order);
      }
    } else {
      var r, q :| r in roots && q in roots && r != q && Reaches(ObjectGraph(s), r, q);
      var bad := BadOrder(s, roots, r, q);
    }
  }

  lemma BadOrder(s: seq<HeapSlot>, roots: set<nat>, r: nat, q: nat) returns (bad: seq<nat>)
    requires r in roots && q in roots && r != q && Reaches(ObjectGraph(s), r, q)
    ensures OrderOf(bad, roots) && !Forward(s, bad)
  {
    hide Reaches, ObjectGraph, OrderOf;
    var rest := roots - {r} - {q};
    OrderExists(rest);
    var order :| OrderOf(order, rest);
    OrderPrepend(q, order, rest);
    OrderPrepend(r, [q] + order, {q} + rest);
    bad := [r] + ([q] + order);
    assert {r} + ({q} + rest) == roots;
    assert bad[0] == r && bad[1] == q;
    assert ReachedEarlier(s, bad, 1);
  }

  lemma IndependentIsForward(s: seq<HeapSlot>, roots: set<nat>, order: seq<nat>)
    requires Independent(s, roots) && OrderOf(order, roots)
    ensures Forward(s, order)
  {
    forall j | 0 <= j < |order| ensures !ReachedEarlier(s, order, j) {
      assert order[j] in Elems(order);
      forall i | 0 <= i < j ensures !Reaches(ObjectGraph(s), order[i], order[j]) {
        assert order[i] in Elems(order) && order[i] != order[j];
      }
    }
  }

  // ----- one candidate after another -----

  /** The first `k` candidates were marked and recorded again, and nothing else happened. */
  ghost predicate Kept(s: seq<HeapSlot>, order: seq<nat>, k: nat, now: seq<HeapSlot>, roots: set<nat>)
    requires k <= |order|
  {
    Swept(Mark, s, now, Elems(order[..k]), multiset{}) && roots == Elems(order[..k])
  }

  /** A slot was freed, or one of the first `k` candidates was not recorded again. */
  ghost predicate Broken(s: seq<HeapSlot>, order: seq<nat>, k: nat, now: seq<HeapSlot>, roots: set<nat>)
    requires k <= |order|
  {
    (exists z :: z in Live(s) && z !in Live(now)) || (exists i :: 0 <= i < k && order[i] !in roots)
  }

  lemma BrokenIsNotKept(s: seq<HeapSlot>, order: seq<nat>, now: seq<HeapSlot>, roots: set<nat>)
    requires Broken(s, order, |order|, now, roots)
    ensures !(Swept(Mark, s, now, Elems(order), multiset{}) && roots == Elems(order))
  {
    if Swept(Mark, s, now, Elems(order), multiset{}) && roots == Elems(order) {
      LiveAgree(s, now);
      forall i | 0 <= i < |order| ensures order[i] in roots { assert order[i] in Elems(order); }
    }
  }

  lemma DropElems(order: seq<nat>, k: nat)
    requires k < |order| && Distinct(order)
    ensures order[k] in Elems(order[k..]) && Elems(order[k + 1..]) == Elems(order[k..]) - {order[k]}
  {
    assert order[k..] == [order[k]] + order[k + 1..];
    assert order[k] !in order[k + 1..];
  }

  lemma TakeElems(order: seq<nat>, k: nat)
    requires k < |order|
    ensures Elems(order[..k + 1]) == Elems(order[..k]) + {order[k]}
    ensures Distinct(order) ==> order[k] !in Elems(order[..k])
  {
    assert order[..k + 1] == order[..k] + [order[k]];
  }

  /** A candidate that no earlier one reaches is met as it was. */
  lemma UnreachedIsMarked(s: seq<HeapSlot>, now: seq<HeapSlot>, roots: set<nat>, done: set<nat>, idx: nat)
    requires Candidates(s, roots) && Swept(Mark, s, now, done, multiset{})
    requires idx in roots && idx < |s| && (forall r :: r in done ==> !Reaches(ObjectGraph(s), r, idx))
    ensures idx < |now| && now[idx].color == Purple && now[idx].anchors == 0 && now[idx].edges > 0
  {
    var g, p := ObjectGraph(s), Painted(Mark, s, now);
    GraphInRange(s);
    forall i | i in p ensures i != idx && !(0 <= i < |g| && idx in g[i]) {
      var r :| r in done && Reaches(g, r, i);
      if 0 <= i < |g| && idx in g[i] { ReachesAppend(g, r, i, idx); }
    }
    InEdgesPositive(g, p, idx);
    assert idx !in p;
  }

  /** A candidate that an earlier one reaches is met Gray. */
  lemma ReachedIsGray(s: seq<HeapSlot>, now: seq<HeapSlot>, done: set<nat>, r: nat, idx: nat)
    requires Colored(s, Gray) == {} && Swept(Mark, s, now, done, multiset{})
    requires r in done && Reaches(ObjectGraph(s), r, idx)
    ensures idx in Colored(now, Gray)
  {
    var g := ObjectGraph(s);
    assert Painted(Mark, s, now) == Colored(now, Gray);
    assert Closed(g, Colored(now, Gray));
    ReachStaysInside(g, Colored(now, Gray), r, idx);
  }

  // ----- which candidate is freed -----

  /** The first candidate that an earlier one reaches. */
  ghost predicate FirstDependent(s: seq<HeapSlot>, order: seq<nat>, j: nat) {
    j < |order| && Forward(s, order[..j]) && ReachedEarlier(s, order, j)
  }

  /** Every reference to the candidate comes from what the earlier candidates reach. */
  ghost predicate Starved(s: seq<HeapSlot>, order: seq<nat>, j: nat)
    requires j < |order|
  {
    InEdges(ObjectGraph(s), Nodes(ObjectGraph(s)) - ReachedSet(ObjectGraph(s), Elems(order[..j])), order[j]) == 0
  }

  /** The trial decrements have used up the count of a starved candidate. */
  lemma StarvedReadsZero(s: seq<HeapSlot>, order: seq<nat>, j: nat, now: seq<HeapSlot>)
    requires ExactEdges(s) && Colored(s, Gray) == {} && j < |order| && order[j] < |s| && Starved(s, order, j)
    requires Swept(Mark, s, now, Elems(order[..j]), multiset{})
    ensures order[j] < |now| && now[order[j]].edges == 0
  {
    hide Scanning;
    var g, done, t := ObjectGraph(s), Elems(order[..j]), order[j];
    MarkedIsScannable(s, now, done);
    var gray := Colored(now, Gray);
    assert Painted(Mark, s, now) == gray;
    InEdgesRemove(g, Nodes(g), gray, t);
  }

  // ----- draining -----

  /** What happens to one candidate, as far as the order matters. */
  ghost predicate MarkedOne(a: seq<HeapSlot>, ra: set<nat>, idx: nat, b: seq<HeapSlot>, rb: set<nat>) {
    && idx < |a|
    && Live(b) <= Live(a)
    && if a[idx].color == Purple && a[idx].anchors == 0 && a[idx].edges > 0
       then Swept(Mark, a, b, {idx}, multiset{}) && rb == ra + {idx}
       else if a[idx].anchors == 0 && a[idx].edges == 0 then idx !in Live(b) else rb == ra
  }

  /** After `k` candidates: all kept if none of them reaches a later one, broken if one does, and a
      starved first dependent freed. */
  ghost predicate Draining(s: seq<HeapSlot>, order: seq<nat>, k: nat, now: seq<HeapSlot>, roots: set<nat>)
    requires k <= |order|
  {
    && Live(now) <= Live(s)
    && (Forward(s, order[..k]) ==> Kept(s, order, k, now, roots))
    && (Colored(s, Gray) == {} && !Forward(s, order[..k]) ==> Broken(s, order, k, now, roots))
    && (Colored(s, Gray) == {} && ExactEdges(s) ==>
          forall j :: 0 <= j < k && FirstDependent(s, order, j) && Starved(s, order, j) ==> order[j] !in Live(now))
  }

  lemma DrainingStarts(s: seq<HeapSlot>, order: seq<nat>)
    ensures Draining(s, order, 0, s, {})
  {
    assert Elems(order[..0]) == {};
    SweptNothing(Mark, s, {});
  }

  lemma ForwardExtends(s: seq<HeapSlot>, order: seq<nat>, k: nat)
    requires k < |order|
    ensures Forward(s, order[..k + 1]) <==> Forward(s, order[..k]) && !ReachedEarlier(s, order, k)
  {
    var shorter, longer := order[..k], order[..k + 1];
    forall j | 0 <= j < k ensures ReachedEarlier(s, shorter, j) <==> ReachedEarlier(s, longer, j) {
      forall i | 0 <= i < j ensures shorter[i] == longer[i] && shorter[j] == longer[j] {}
    }
    assert ReachedEarlier(s, longer, k) <==> ReachedEarlier(s, order, k) by {
      forall i | 0 <= i < k ensures longer[i] == order[i] {}
    }
  }

  lemma KeptStep(s: seq<HeapSlot>, order: seq<nat>, k: nat, a: seq<HeapSlot>, ra: set<nat>, b: seq<HeapSlot>, rb: set<nat>)
    requires Candidates(s, Elems(order)) && Distinct(order) && k < |order|
    requires Kept(s, order, k, a, ra) && !ReachedEarlier(s, order, k) && MarkedOne(a, ra, order[k], b, rb)
    ensures Kept(s, order, k + 1, b, rb)
  {
    hide Swept;
    TakeElems(order, k);
    assert order[k] in Elems(order);
    var done := Elems(order[..k]);
    forall r | r in done ensures !Reaches(ObjectGraph(s), r, order[k]) {
      var i :| 0 <= i < k && order[..k][i] == r;
      assert order[i] == r;
    }
    UnreachedIsMarked(s, a, Elems(order), done, order[k]);
    var none: multiset<nat> := multiset{};
    assert none + none == none;
    SweptThen(Mark, s, a, b, done, none, {order[k]}, none);
  }

  lemma BreakStep(s: seq<HeapSlot>, order: seq<nat>, k: nat, a: seq<HeapSlot>, ra: set<nat>, b: seq<HeapSlot>, rb: set<nat>)
    requires Candidates(s, Elems(order)) && Distinct(order) && k < |order| && Colored(s, Gray) == {}
    requires Kept(s, order, k, a, ra) && ReachedEarlier(s, order, k) && MarkedOne(a, ra, order[k], b, rb)
    ensures Broken(s, order, k + 1, b, rb)
    ensures ExactEdges(s) && Starved(s, order, k) ==> order[k] !in Live(b)
  {
    hide Swept, ExactEdges, Starved;
    TakeElems(order, k);
    assert order[k] in Elems(order);
    var done := Elems(order[..k]);
    var i :| 0 <= i < k && Reaches(ObjectGraph(s), order[i], order[k]);
    assert order[..k][i] == order[i];
    ReachedIsGray(s, a, done, order[i], order[k]);
    if ExactEdges(s) && Starved(s, order, k) {
      StarvedReadsZero(s, order, k, a);
      MarkedKeepsAnchors(s, a, done, order[k]);
    }
  }

  lemma MarkedKeepsAnchors(s: seq<HeapSlot>, a: seq<HeapSlot>, done: set<nat>, i: nat)
    requires Swept(Mark, s, a, done, multiset{}) && i < |s|
    ensures i < |a| && a[i].anchors == s[i].anchors
  {}

  lemma BrokenStays(s: seq<HeapSlot>, order: seq<nat>, k: nat, a: seq<HeapSlot>, ra: set<nat>, b: seq<HeapSlot>, rb: set<nat>)
    requires Candidates(s, Elems(order)) && Distinct(order) && k < |order|
    requires Broken(s, order, k, a, ra) && MarkedOne(a, ra, order[k], b, rb)
    ensures Broken(s, order, k + 1, b, rb)
  {
    hide Swept;
    assert order[k] in Elems(order);
    if z :| z in Live(s) && z !in Live(a) {
      assert z !in Live(b);
    } else {
      var i :| 0 <= i < k && order[i] !in ra;
      assert order[i] != order[k];
      assert order[i] !in rb || order[k] !in Live(b);
    }
  }

  lemma DrainStep(s: seq<HeapSlot>, order: seq<nat>, k: nat, a: seq<HeapSlot>, ra: set<nat>, b: seq<HeapSlot>, rb: set<nat>)
    requires Candidates(s, Elems(order)) && Distinct(order) && k < |order|
    requires Draining(s, order, k, a, ra) && MarkedOne(a, ra, order[k], b, rb)
    ensures Draining(s, order, k + 1, b, rb)
  {
    hide Kept, Broken, Forward, ReachedEarlier, Starved, ExactEdges, Candidates;
    ForwardExtends(s, order, k);
    if Forward(s, order[..k]) && !ReachedEarlier(s, order, k) {
      KeptStep(s, order, k, a, ra, b, rb);
    } else if Colored(s, Gray) == {} {
      if Forward(s, order[..k]) {
        BreakStep(s, order, k, a, ra, b, rb);
      } else {
        BrokenStays(s, order, k, a, ra, b, rb);
      }
    }
  }

  lemma DrainingFrees(s: seq<HeapSlot>, order: seq<nat>, now: seq<HeapSlot>, roots: set<nat>)
    requires Draining(s, order, |order|, now, roots)
    ensures Colored(s, Gray) == {} && ExactEdges(s) ==>
      forall j :: 0 <= j < |order| && FirstDependent(s, order, j) && Starved(s, order, j) ==> order[j] !in Live(now)
  {
    hide FirstDependent, Starved, ExactEdges, Kept, Broken, Forward;
  }

  /** Marking the candidates in turn is marking from all of them exactly if the order is forward. */
  lemma DrainingEnds(s: seq<HeapSlot>, order: seq<nat>, now: seq<HeapSlot>, roots: set<nat>)
    requires Draining(s, order, |order|, now, roots)
    ensures Forward(s, order) ==> Swept(Mark, s, now, Elems(order), multiset{}) && roots == Elems(order)
    ensures Colored(s, Gray) == {} && Swept(Mark, s, now, Elems(order), multiset{}) && roots == Elems(order) ==> Forward(s, order)
  {
    hide Swept, Forward;
    assert order[..|order|] == order;
    if Broken(s, order, |order|, now, roots) { BrokenIsNotKept(s, order, now, roots); }
  }
}
