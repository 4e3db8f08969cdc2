/** The import edges of a bytecode graph: their order, the two adjacency indexes, and the transitive
    dependents read from them. */
module ImportEdges {
  import opened Machine

  type ModuleId = nat

  /** `from` imports a symbol from `to`. */
  datatype Edge = Edge(from: ModuleId, to: ModuleId)

  // ----- order -----

  predicate Before(a: Edge, b: Edge) {
    a.from < b.from || (a.from == b.from && a.to <= b.to)
  }

  ghost predicate Sorted(edges: seq<Edge>) {
    forall i, j :: 0 <= i < j < |edges| ==> Before(edges[i], edges[j])
  }

  ghost predicate SameEdges(a: seq<Edge>, b: seq<Edge>) {
    multiset(a) == multiset(b)
  }

  method InsertEdge(sorted: seq<Edge>, e: Edge) returns (longer: seq<Edge>)
    requires Sorted(sorted)
    ensures Sorted(longer) && SameEdges(longer, sorted + [e])
  {
    hide Inserted, SameEdges;
    var i := |sorted|;
    while i > 0 && !Before(sorted[i - 1], e)
      invariant 0 <= i <= |sorted|
      invariant forall j :: i <= j < |sorted| ==> Before(e, sorted[j])
    {
      i := i - 1;
    }
    longer := Inserted(sorted, i, e);
    forall j | 0 <= j < i ensures Before(sorted[j], e) {
      assert Before(sorted[i - 1], e);
    }
    InsertedSorted(sorted, i, e);
    InsertedSame(sorted, i, e);
  }

  function Inserted(sorted: seq<Edge>, i: nat, e: Edge): seq<Edge>
    requires i <= |sorted|
  {
    sorted[..i] + [e] + sorted[i..]
  }

  lemma InsertedSorted(sorted: seq<Edge>, i: nat, e: Edge)
    requires i <= |sorted| && Sorted(sorted)
    requires (forall j :: 0 <= j < i ==> Before(sorted[j], e)) && (forall j :: i <= j < |sorted| ==> Before(e, sorted[j]))
    ensures Sorted(Inserted(sorted, i, e))
  {}

  lemma InsertedSame(sorted: seq<Edge>, i: nat, e: Edge)
    requires i <= |sorted|
    ensures SameEdges(Inserted(sorted, i, e), sorted + [e])
  {
    assert sorted == sorted[..i] + sorted[i..];
  }

  method SortEdges(edges: seq<Edge>) returns (sorted: seq<Edge>)
    ensures Sorted(sorted) && SameEdges(sorted, edges)
  {
    sorted := [];
    for k := 0 to |edges|
      invariant Sorted(sorted) && SameEdges(sorted, edges[..k])
    {
      assert edges[..k + 1] == edges[..k] + [edges[k]];
      sorted := InsertEdge(sorted, edges[k]);
    }
    assert edges[..|edges|] == edges;
  }

  // ----- adjacency -----

  type Adjacency = map<ModuleId, seq<ModuleId>>

  /** The far ends of the edges at `id`, in edge order: what it imports, or what imports it. */
  function FarEnds(edges: seq<Edge>, forward: bool, id: ModuleId): seq<ModuleId> {
    if edges == [] then []
    else
      var e := edges[|edges| - 1];
      var (near, far) := if forward then (e.from, e.to) else (e.to, e.from);
      FarEnds(edges[..|edges| - 1], forward, id) + if near == id then [far] else []
  }

  function At(index: Adjacency, id: ModuleId): seq<ModuleId> {
    if id in index then index[id] else []
  }

  ghost predicate Adjacent(edges: seq<Edge>, forward: bool, index: Adjacency) {
    && (forall id :: At(index, id) == FarEnds(edges, forward, id))
    && (forall id :: id in index ==> index[id] != [])
  }

  method AdjacencyIndex(edges: seq<Edge>, forward: bool) returns (index: Adjacency)
    ensures Adjacent(edges, forward, index)
  {
    index := map[];
    for k := 0 to |edges|
      invariant Adjacent(edges[..k], forward, index)
    {
      assert edges[..k + 1][..k] == edges[..k];
      var (near, far) := if forward then (edges[k].from, edges[k].to) else (edges[k].to, edges[k].from);
      index := index[near := At(index, near) + [far]];
    }
    assert edges[..|edges|] == edges;
  }

  lemma {:induction false} FarEndsCount(edges: seq<Edge>, forward: bool, id: ModuleId, x: ModuleId)
    ensures multiset(FarEnds(edges, forward, id))[x] == multiset(edges)[if forward then Edge(id, x) else Edge(x, id)]
  {
    hide FarEnds;
    if edges == [] {
      NoFarEnds(forward, id);
    } else {
      var init, e := edges[..|edges| - 1], edges[|edges| - 1];
      FarEndsCount(init, forward, id, x);
      assert edges == init + [e];
      FarEndsLast(init, e, forward, id);
      CountAppend(init, e, if forward then Edge(id, x) else Edge(x, id));
      CountAppend(FarEnds(init, forward, id), if forward then e.to else e.from, x);
    }
  }

  lemma NoFarEnds(forward: bool, id: ModuleId)
    ensures FarEnds([], forward, id) == []
  {}

  lemma FarEndsLast(init: seq<Edge>, e: Edge, forward: bool, id: ModuleId)
    ensures var (near, far) := if forward then (e.from, e.to) else (e.to, e.from);
      FarEnds(init + [e], forward, id) == if near == id then FarEnds(init, forward, id) + [far] else FarEnds(init, forward, id)
  {
    assert (init + [e])[..|init|] == init;
  }

  lemma CountAppend<T>(s: seq<T>, e: T, x: T)
    ensures multiset(s + [e])[x] == multiset(s)[x] + if e == x then 1 else 0
  {}

  /** The indexes mirror each other: `a` lists `b` among its dependencies as often as `b` lists `a`
      among its dependents, and that is how often the edge occurs. */
  lemma IndexesMirror(edges: seq<Edge>, dependencies: Adjacency, dependents: Adjacency, a: ModuleId, b: ModuleId)
    requires Adjacent(edges, true, dependencies) && Adjacent(edges, false, dependents)
    ensures multiset(At(dependencies, a))[b] == multiset(At(dependents, b))[a] == multiset(edges)[Edge(a, b)]
  {
    FarEndsCount(edges, true, a, b);
    FarEndsCount(edges, false, b, a);
  }

  lemma Listed(edges: seq<Edge>, dependents: Adjacency, a: ModuleId, b: ModuleId)
    requires Adjacent(edges, false, dependents)
    ensures a in At(dependents, b) <==> Edge(a, b) in edges
  {
    FarEndsCount(edges, false, b, a);
    assert a in At(dependents, b) <==> a in multiset(At(dependents, b));
    assert Edge(a, b) in edges <==> Edge(a, b) in multiset(edges);
  }

  ghost predicate Ascending(ids: seq<ModuleId>) {
    forall i, j :: 0 <= i < j < |ids| ==> ids[i] <= ids[j]
  }

  lemma AscendingAppend(ids: seq<ModuleId>, last: ModuleId)
    requires Ascending(ids) && forall x :: x in ids ==> x <= last
    ensures Ascending(ids + [last])
  {
    assert forall i :: 0 <= i < |ids| ==> ids[i] in ids;
  }

  /** Over sorted edges both lists of a module are in id order. */
  lemma {:induction false} FarEndsAscend(edges: seq<Edge>, forward: bool, id: ModuleId)
    requires Sorted(edges)
    ensures Ascending(FarEnds(edges, forward, id))
  {
    if edges != [] {
      var init, e := edges[..|edges| - 1], edges[|edges| - 1];
      FarEndsAscend(init, forward, id);
      var (near, far) := if forward then (e.from, e.to) else (e.to, e.from);
      var ends := FarEnds(init, forward, id);
      if near == id {
        forall x | x in ends ensures x <= far {
          var i := FarEndsFrom(init, forward, id, x);
          assert Before(edges[i], e);
        }
        AscendingAppend(ends, far);
        assert FarEnds(edges, forward, id) == ends + [far];
      } else {
        assert FarEnds(edges, forward, id) == ends;
      }
    }
  }

  lemma {:induction false} FarEndsFrom(edges: seq<Edge>, forward: bool, id: ModuleId, x: ModuleId) returns (i: nat)
    requires x in FarEnds(edges, forward, id)
    ensures i < |edges| && edges[i] == if forward then Edge(id, x) else Edge(x, id)
  {
    var init, e := edges[..|edges| - 1], edges[|edges| - 1];
    if x in FarEnds(init, forward, id) {
      i := FarEndsFrom(init, forward, id, x);
    } else {
      i := |edges| - 1;
    }
  }

  // ----- transitive dependents -----

  ghost predicate Chain(edges: seq<Edge>, p: seq<ModuleId>) {
    forall i :: 0 <= i < |p| - 1 ==> Edge(p[i], p[i + 1]) in edges
  }

  /** `u` imports `v`, directly or through other modules. */
  ghost predicate TransitivelyImports(edges: seq<Edge>, u: ModuleId, v: ModuleId) {
    exists p :: |p| >= 2 && p[0] == u && p[|p| - 1] == v && Chain(edges, p)
  }

  lemma ImportsDirectly(edges: seq<Edge>, u: ModuleId, v: ModuleId)
    requires Edge(u, v) in edges
    ensures TransitivelyImports(edges, u, v)
  {
    assert Chain(edges, [u, v]);
  }

  lemma ImportsThrough(edges: seq<Edge>, u: ModuleId, v: ModuleId, w: ModuleId)
    requires TransitivelyImports(edges, u, v) && Edge(v, w) in edges
    ensures TransitivelyImports(edges, u, w)
  {
    var p :| |p| >= 2 && p[0] == u && p[|p| - 1] == v && Chain(edges, p);
    var q := p + [w];
    forall i | 0 <= i < |q| - 1 ensures Edge(q[i], q[i + 1]) in edges {
      assert i < |p| - 1 ==> Edge(p[i], p[i + 1]) in edges;
    }
    assert Chain(edges, q) && q[0] == u && q[|q| - 1] == w;
  }

  /** `out` lists `visited` without repeats. */
  ghost predicate Lists(out: seq<ModuleId>, visited: set<ModuleId>) {
    Distinct(out) && forall x :: x in out <==> x in visited
  }

  /** What a search from `id` adds: modules that import `id`, and with each everything that imports it. */
  ghost predicate Explored(edges: seq<Edge>, dependents: Adjacency, id: ModuleId, before: set<ModuleId>, after: set<ModuleId>) {
    && before <= after
    && (forall x :: x in after && x !in before ==> TransitivelyImports(edges, x, id))
    && (forall x, y :: x in after && x !in before && y in At(dependents, x) ==> y in after)
  }

  lemma ExploredThen(edges: seq<Edge>, dependents: Adjacency, id: ModuleId, d: ModuleId, s0: set<ModuleId>, s: set<ModuleId>, s': set<ModuleId>)
    requires Explored(edges, dependents, id, s0, s) && Edge(d, id) in edges
    requires Explored(edges, dependents, d, s + {d}, s') && forall y :: y in At(dependents, d) ==> y in s'
    ensures Explored(edges, dependents, id, s0, s')
  {
    hide TransitivelyImports;
    forall x | x in s' && x !in s0 ensures TransitivelyImports(edges, x, id) {
      if x == d {
        ImportsDirectly(edges, d, id);
      } else if x !in s {
        ImportsThrough(edges, x, d, id);
      }
    }
  }

  ghost predicate Universe(dependents: Adjacency, all: set<ModuleId>) {
    forall id, d :: d in At(dependents, id) ==> d in all
  }

  /** The recursive search: everything that imports `id` ends up visited and listed. */
  method CollectDependents(ghost edges: seq<Edge>, dependents: Adjacency, id: ModuleId, out: seq<ModuleId>, visited: set<ModuleId>, ghost all: set<ModuleId>)
    returns (out': seq<ModuleId>, visited': set<ModuleId>)
    requires Adjacent(edges, false, dependents) && Universe(dependents, all) && Lists(out, visited)
    ensures Lists(out', visited') && out <= out'
    ensures Explored(edges, dependents, id, visited, visited')
    ensures forall d :: d in At(dependents, id) ==> d in visited'
    decreases all - visited
  {
    hide Adjacent, Explored, TransitivelyImports, FarEnds;
    out', visited' := out, visited;
    var ds := At(dependents, id);
    ExploredSelf(edges, dependents, id, visited);
    for k := 0 to |ds|
      invariant Lists(out', visited') && out <= out' && visited <= visited'
      invariant Explored(edges, dependents, id, visited, visited')
      invariant forall j :: 0 <= j < k ==> ds[j] in visited'
    {
      var d := ds[k];
      if d !in visited' {
        Listed(edges, dependents, d, id);
        ghost var s := visited';
        assert d in all - visited;
        out', visited' := CollectDependents(edges, dependents, d, out' + [d], visited' + {d}, all);
        ExploredGrows(edges, dependents, d, s + {d}, visited');
        ExploredThen(edges, dependents, id, d, visited, s, visited');
      }
    }
  }

  lemma ExploredSelf(edges: seq<Edge>, dependents: Adjacency, id: ModuleId, s: set<ModuleId>)
    ensures Explored(edges, dependents, id, s, s)
  {}

  lemma ExploredGrows(edges: seq<Edge>, dependents: Adjacency, id: ModuleId, before: set<ModuleId>, after: set<ModuleId>)
    requires Explored(edges, dependents, id, before, after)
    ensures before <= after
  {}

  lemma {:induction false} ChainVisited(edges: seq<Edge>, dependents: Adjacency, id: ModuleId, visited: set<ModuleId>, p: seq<ModuleId>)
    requires Adjacent(edges, false, dependents) && Explored(edges, dependents, id, {}, visited)
    requires forall d :: d in At(dependents, id) ==> d in visited
    requires |p| >= 2 && p[|p| - 1] == id && Chain(edges, p)
    ensures p[0] in visited
  {
    hide Adjacent;
    assert Edge(p[0], p[1]) in edges;
    Listed(edges, dependents, p[0], p[1]);
    if |p| > 2 {
      var q := p[1..];
      forall i | 0 <= i < |q| - 1 ensures Edge(q[i], q[i + 1]) in edges {
        assert Edge(p[i + 1], p[i + 2]) in edges;
      }
      ChainVisited(edges, dependents, id, visited, q);
    }
  }

  lemma IndexUniverse(edges: seq<Edge>, dependents: Adjacency) returns (all: set<ModuleId>)
    requires Adjacent(edges, false, dependents)
    ensures Universe(dependents, all)
  {
    hide Adjacent;
    all := set k | 0 <= k < |edges| :: edges[k].from;
    forall id, d | d in At(dependents, id) ensures d in all {
      Listed(edges, dependents, d, id);
      var k :| 0 <= k < |edges| && edges[k] == Edge(d, id);
      assert edges[k].from in all;
    }
  }

  /** Exactly the modules that import `id`, directly or not, each once. */
  method DependentsOf(ghost edges: seq<Edge>, dependents: Adjacency, id: ModuleId) returns (result: seq<ModuleId>)
    requires Adjacent(edges, false, dependents)
    ensures Distinct(result)
    ensures forall x :: x in result <==> TransitivelyImports(edges, x, id)
  {
    hide Adjacent, Explored;
    ghost var all := IndexUniverse(edges, dependents);
    var visited;
    result, visited := CollectDependents(edges, dependents, id, [], {}, all);
    ExploredFound(edges, dependents, id, visited);
    forall x | TransitivelyImports(edges, x, id) ensures x in visited {
      var p :| |p| >= 2 && p[0] == x && p[|p| - 1] == id && Chain(edges, p);
      ChainVisited(edges, dependents, id, visited, p);
    }
  }

  lemma ExploredFound(edges: seq<Edge>, dependents: Adjacency, id: ModuleId, visited: set<ModuleId>)
    requires Explored(edges, dependents, id, {}, visited)
    ensures forall x :: x in visited ==> TransitivelyImports(edges, x, id)
  {}
}
