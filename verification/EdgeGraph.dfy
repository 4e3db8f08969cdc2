/** Directed graphs with parallel edges: `g[i]` lists the targets of node `i`,
    one entry per edge. The heap's object graph is read this way. */
module EdgeGraph {
  import opened Machine

  type Graph = seq<seq<nat>>

  ghost predicate InRange(g: Graph) {
    forall i, t :: 0 <= i < |g| && t in g[i] ==> t < |g|
  }

  ghost function Elems(s: seq<nat>): set<nat> {
    set t | t in s
  }

  // ----- in-edges, counted with multiplicity -----

  /** Edges into `t` whose source is in `from` and below `n`. */
  ghost function InUpTo(g: Graph, from: set<nat>, t: nat, n: nat): nat
    requires n <= |g|
  {
    if n == 0 then 0
    else InUpTo(g, from, t, n - 1) + if n - 1 in from then multiset(g[n - 1])[t] else 0
  }

  /** Number of edges into `t` whose source is in `from`. */
  ghost function InEdges(g: Graph, from: set<nat>, t: nat): nat {
    InUpTo(g, from, t, |g|)
  }

  ghost function Nodes(g: Graph): set<nat> {
    set i {:trigger g[i]} | 0 <= i < |g|
  }

  lemma {:induction false} InUpToSplit(g: Graph, a: set<nat>, b: set<nat>, t: nat, n: nat)
    requires n <= |g| && a !! b
    ensures InUpTo(g, a + b, t, n) == InUpTo(g, a, t, n) + InUpTo(g, b, t, n)
  {
    if n > 0 { InUpToSplit(g, a, b, t, n - 1); }
  }

  /** In-edges from a disjoint union are the sum of the in-edges from its parts. */
  lemma InEdgesSplit(g: Graph, a: set<nat>, b: set<nat>, t: nat)
    requires a !! b
    ensures InEdges(g, a + b, t) == InEdges(g, a, t) + InEdges(g, b, t)
  {
    InUpToSplit(g, a, b, t, |g|);
  }

  lemma {:induction false} InUpToAgree(g: Graph, h: Graph, from: set<nat>, t: nat, n: nat)
    requires n <= |g| && n <= |h|
    requires forall i :: 0 <= i < n && i in from ==> g[i] == h[i]
    ensures InUpTo(g, from, t, n) == InUpTo(h, from, t, n)
  {
    if n > 0 { InUpToAgree(g, h, from, t, n - 1); }
  }

  lemma InEdgesAgree(g: Graph, h: Graph, from: set<nat>, t: nat)
    requires |g| == |h|
    requires forall i :: 0 <= i < |g| && i in from ==> g[i] == h[i]
    ensures InEdges(g, from, t) == InEdges(h, from, t)
  {
    InUpToAgree(g, h, from, t, |g|);
  }

  lemma {:induction false} InUpToOne(g: Graph, s: nat, t: nat, n: nat)
    requires n <= |g|
    ensures InUpTo(g, {s}, t, n) == if s < n then multiset(g[s])[t] else 0
  {
    if n > 0 { InUpToOne(g, s, t, n - 1); }
  }

  lemma InEdgesOne(g: Graph, s: nat, t: nat)
    requires s < |g|
    ensures InEdges(g, {s}, t) == multiset(g[s])[t]
  {
    InUpToOne(g, s, t, |g|);
  }

  lemma {:induction false} InUpToNone(g: Graph, from: set<nat>, t: nat, n: nat)
    requires n <= |g|
    requires forall i :: 0 <= i < n && i in from ==> t !in g[i]
    ensures InUpTo(g, from, t, n) == 0
  {
    if n > 0 { InUpToNone(g, from, t, n - 1); }
  }

  /** There is an edge from `from` into `t` exactly when the count is positive. */
  lemma InEdgesPositive(g: Graph, from: set<nat>, t: nat)
    ensures InEdges(g, from, t) > 0 <==> exists i :: 0 <= i < |g| && i in from && t in g[i]
  {
    if i :| 0 <= i < |g| && i in from && t in g[i] {
      InEdgesSplit(g, {i}, from - {i}, t);
      assert {i} + (from - {i}) == from;
      InEdgesOne(g, i, t);
    } else {
      InUpToNone(g, from, t, |g|);
    }
  }

  /** Adding one new source adds its edges. */
  lemma InEdgesAdd(g: Graph, from: set<nat>, s: nat, t: nat)
    requires s < |g| && s !in from
    ensures InEdges(g, from + {s}, t) == InEdges(g, from, t) + multiset(g[s])[t]
  {
    InEdgesSplit(g, from, {s}, t);
    InEdgesOne(g, s, t);
  }

  /** Removing sources removes their edges. */
  lemma InEdgesRemove(g: Graph, all: set<nat>, part: set<nat>, t: nat)
    requires part <= all
    ensures InEdges(g, all, t) == InEdges(g, all - part, t) + InEdges(g, part, t)
  {
    InEdgesSplit(g, all - part, part, t);
    assert (all - part) + part == all;
  }

  // ----- reachability -----

  ghost predicate IsPath(g: Graph, p: seq<nat>) {
    p != [] && p[0] < |g| && (|p| > 1 ==> p[1] in g[p[0]] && IsPath(g, p[1..]))
  }

  ghost predicate PathBetween(g: Graph, p: seq<nat>, u: nat, v: nat) {
    IsPath(g, p) && p[0] == u && p[|p| - 1] == v
  }

  /** `v` is reached from `u` along zero or more edges. */
  ghost predicate Reaches(g: Graph, u: nat, v: nat) {
    exists p :: PathBetween(g, p, u, v)
  }

  ghost predicate ReachedFrom(g: Graph, from: set<nat>, v: nat) {
    exists u :: u in from && Reaches(g, u, v)
  }

  /** No node lies on a cycle: every path with at least one edge ends elsewhere. */
  ghost predicate Acyclic(g: Graph) {
    forall p: seq<nat> :: IsPath(g, p) && |p| > 1 ==> p[0] != p[|p| - 1]
  }

  ghost predicate Closed(g: Graph, s: set<nat>) {
    forall i, t :: i in s && 0 <= i < |g| && t in g[i] ==> t in s
  }

  lemma ReachesSelf(g: Graph, u: nat)
    requires u < |g|
    ensures Reaches(g, u, u)
  {
    assert PathBetween(g, [u], u, u);
  }

  lemma ReachesPrepend(g: Graph, u: nat, c: nat, v: nat)
    requires u < |g| && c in g[u] && Reaches(g, c, v)
    ensures Reaches(g, u, v)
  {
    var p :| PathBetween(g, p, c, v);
    assert PathBetween(g, [u] + p, u, v);
  }

  lemma {:induction false} PathAppend(g: Graph, p: seq<nat>, w: nat)
    requires IsPath(g, p) && w < |g| && p[|p| - 1] < |g| && w in g[p[|p| - 1]]
    ensures IsPath(g, p + [w])
  {
    if |p| > 1 {
      PathAppend(g, p[1..], w);
      assert (p + [w])[1..] == p[1..] + [w];
    }
  }

  lemma ReachesAppend(g: Graph, u: nat, v: nat, w: nat)
    requires InRange(g) && Reaches(g, u, v) && v < |g| && w in g[v]
    ensures Reaches(g, u, w)
  {
    var p :| PathBetween(g, p, u, v);
    PathAppend(g, p, w);
    assert PathBetween(g, p + [w], u, w);
  }

  lemma {:induction false} PathStaysInside(g: Graph, s: set<nat>, p: seq<nat>)
    requires IsPath(g, p) && p[0] in s && Closed(g, s)
    ensures p[|p| - 1] in s
  {
    if |p| > 1 { PathStaysInside(g, s, p[1..]); }
  }

  /** What a closed set reaches stays in it. */
  lemma ReachStaysInside(g: Graph, s: set<nat>, u: nat, v: nat)
    requires u in s && Closed(g, s) && Reaches(g, u, v)
    ensures v in s
  {
    var p :| PathBetween(g, p, u, v);
    PathStaysInside(g, s, p);
  }

  // ----- paths in acyclic graphs -----

  lemma {:induction false} DistinctBound(p: seq<nat>, n: nat)
    requires Distinct(p) && forall k :: 0 <= k < |p| ==> p[k] < n
    ensures |p| <= n
  {
    if |p| > 0 {
      assert p[0] < n;
      if k :| 0 <= k < |p| && p[k] == n - 1 {
        DistinctBound(p[..k] + p[k + 1..], n - 1);
      } else {
        DistinctBound(p, n - 1);
      }
    }
  }

  lemma {:induction false} PathInRange(g: Graph, p: seq<nat>, k: nat)
    requires IsPath(g, p) && InRange(g) && k < |p|
    ensures p[k] < |g|
  {
    if k > 0 { PathInRange(g, p[1..], k - 1); }
  }

  lemma {:induction false} PathPrefix(g: Graph, p: seq<nat>, k: nat)
    requires IsPath(g, p) && 1 <= k <= |p|
    ensures IsPath(g, p[..k])
  {
    if k > 1 {
      PathPrefix(g, p[1..], k - 1);
      assert p[..k][1..] == p[1..][..k - 1];
    }
  }

  /** Without cycles, a path stays duplicate-free when extended backwards. */
  lemma ExtendBack(g: Graph, q: nat, p: seq<nat>)
    requires Acyclic(g) && InRange(g) && IsPath(g, p) && Distinct(p)
    requires q < |g| && p[0] in g[q]
    ensures IsPath(g, [q] + p) && Distinct([q] + p) && |p| < |g|
  {
    var p' := [q] + p;
    assert p'[1..] == p;
    forall k | 0 <= k < |p| ensures p[k] != q {
      PathPrefix(g, p', k + 2);
      assert p'[..k + 2][k + 1] == p[k];
    }
    forall k | 0 <= k < |p'| ensures p'[k] < |g| { PathInRange(g, p', k); }
    DistinctBound(p', |g|);
  }

  /** Walk backwards inside `live`, where every node outside `roots` has a predecessor: without
      cycles the walk meets a root. */
  lemma {:induction false} WalkBack(g: Graph, live: set<nat>, roots: set<nat>, p: seq<nat>)
    requires Acyclic(g) && InRange(g) && live <= Nodes(g)
    requires forall i :: i in live - roots ==> exists q :: q in live && i in g[q]
    requires IsPath(g, p) && Distinct(p) && p[0] in live
    ensures ReachedFrom(g, roots, p[|p| - 1])
    decreases |g| + 1 - |p|
  {
    if p[0] in roots {
      assert PathBetween(g, p, p[0], p[|p| - 1]);
    } else {
      assert p[0] in live - roots;
      var q :| q in live && p[0] in g[q];
      ExtendBack(g, q, p);
      WalkBack(g, live, roots, [q] + p);
    }
  }
}
