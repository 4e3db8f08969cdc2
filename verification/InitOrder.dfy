/** Import resolution and the dependency-first initialisation order. */
module InitOrder {
  import opened Machine
  import opened ModulePath
  import opened ImportEdges
  import opened BytecodeGraph

  datatype ResolvedImport = ResolvedImport(slot: nat, moduleId: ModuleId, kind: ExportKind)

  datatype ResolutionError =
    | ModuleNotLoaded(id: ModuleId)
    | ImportModuleNotLoaded(importer: ModuleId, moduleName: string)
    | ImportSymbolNotExported(importer: ModuleId, moduleName: string, symbol: string)
    | InitializationCycle(id: ModuleId)

  /** Indexed paths lead to loaded modules; resolving an import through one that does not is a crash. */
  ghost predicate PathsLoaded(g: Graph) {
    forall p :: p in g.idsByPath ==> g.idsByPath[p] in g.modules
  }

  // ----- import resolution -----

  ghost predicate PathResolves(g: Graph, imp: Import) {
    NormalizePath(imp.moduleName).Some? && NormalizePath(imp.moduleName).value in g.idsByPath
  }

  ghost function Target(g: Graph, imp: Import): ModuleId
    requires PathResolves(g, imp)
  {
    g.idsByPath[NormalizePath(imp.moduleName).value]
  }

  ghost predicate SlotResolves(g: Graph, imp: Import)
    requires PathsLoaded(g)
  {
    && PathResolves(g, imp)
    && var target := Target(g, imp);
    && target in g.exportIndexes
    && imp.symbol in g.exportIndexes[target]
    && g.exportIndexes[target][imp.symbol] < |g.modules[target].code.exports|
  }

  ghost function Resolved(g: Graph, slot: nat, imp: Import): ResolvedImport
    requires PathsLoaded(g) && SlotResolves(g, imp)
  {
    var target := Target(g, imp);
    ResolvedImport(slot, target, g.modules[target].code.exports[g.exportIndexes[target][imp.symbol]].kind)
  }

  ghost function Imports(g: Graph, id: ModuleId): seq<Import> {
    if id in g.modules then g.modules[id].code.imports else []
  }

  ghost predicate Resolvable(g: Graph, id: ModuleId)
    requires PathsLoaded(g)
  {
    id in g.modules && forall k :: 0 <= k < |Imports(g, id)| ==> SlotResolves(g, Imports(g, id)[k])
  }

  ghost predicate ResolvedAll(g: Graph, id: ModuleId, resolved: seq<ResolvedImport>)
    requires PathsLoaded(g)
  {
    && |resolved| <= |Imports(g, id)|
    && forall k :: 0 <= k < |resolved| ==> SlotResolves(g, Imports(g, id)[k]) && resolved[k] == Resolved(g, k, Imports(g, id)[k])
  }

  /** Slot `k` is the first that does not resolve, and the error says why. */
  ghost predicate FirstFailure(g: Graph, id: ModuleId, k: nat, error: ResolutionError)
    requires PathsLoaded(g)
  {
    && k < |Imports(g, id)|
    && (forall j :: 0 <= j < k ==> SlotResolves(g, Imports(g, id)[j]))
    && var imp := Imports(g, id)[k];
    && !SlotResolves(g, imp)
    && error == if PathResolves(g, imp) then ImportSymbolNotExported(id, imp.moduleName, imp.symbol) else ImportModuleNotLoaded(id, imp.moduleName)
  }

  method ResolveImports(g: Graph, id: ModuleId) returns (result: Result<seq<ResolvedImport>, ResolutionError>)
    requires PathsLoaded(g)
    ensures result.Ok? <==> Resolvable(g, id)
    ensures result.Ok? ==> ResolvedAll(g, id, result.value) && |result.value| == |Imports(g, id)|
    ensures result.Err? ==> if id in g.modules then exists k :: FirstFailure(g, id, k, result.error) else result.error == ModuleNotLoaded(id)
  {
    hide NormalizePath;
    if id !in g.modules {
      return Err(ModuleNotLoaded(id));
    }
    var imports := g.modules[id].code.imports;
    var resolved := [];
    for k := 0 to |imports|
      invariant |resolved| == k && ResolvedAll(g, id, resolved)
    {
      var imp := imports[k];
      var path := NormalizePath(imp.moduleName);
      if path.None? || path.value !in g.idsByPath {
        assert FirstFailure(g, id, k, ImportModuleNotLoaded(id, imp.moduleName));
        return Err(ImportModuleNotLoaded(id, imp.moduleName));
      }
      var target := g.idsByPath[path.value];
      var exports := g.modules[target].code.exports;
      if target !in g.exportIndexes || imp.symbol !in g.exportIndexes[target] || g.exportIndexes[target][imp.symbol] >= |exports| {
        assert FirstFailure(g, id, k, ImportSymbolNotExported(id, imp.moduleName, imp.symbol));
        return Err(ImportSymbolNotExported(id, imp.moduleName, imp.symbol));
      }
      resolved := resolved + [ResolvedImport(k, target, exports[g.exportIndexes[target][imp.symbol]].kind)];
    }
    return Ok(resolved);
  }

  /** The module exports this under the symbol, and has a function or a global at the index. */
  ghost predicate ExportedThere(code: Module, symbol: string, kind: ExportKind) {
    && Export(symbol, kind) in code.exports
    && (kind.Function? ==> kind.idx < code.functionCount) && (kind.Global? ==> kind.idx < code.globalCount)
  }

  /** In a published graph every import of every loaded module resolves, to the loaded module that
      has the imported path, at an index in range there. */
  lemma SnapshotResolves(g: Graph, id: ModuleId)
    requires Snapshot(g) && id in g.modules
    ensures PathsLoaded(g) && Resolvable(g, id)
    ensures forall k :: 0 <= k < |Imports(g, id)| ==>
      var resolved := Resolved(g, k, Imports(g, id)[k]);
      && resolved.moduleId in g.modules
      && Some(g.modules[resolved.moduleId].path) == NormalizePath(Imports(g, id)[k].moduleName)
      && ExportedThere(g.modules[resolved.moduleId].code, Imports(g, id)[k].symbol, resolved.kind)
  {
    hide NormalizePath, ExportedThere;
    assert PathsLoaded(g);
    assert ImportsValid(g.modules, g.modules[id]);
    forall d | d in g.modules ensures ModuleValid(g.modules[d].code) { assert NodeValid(g.modules, g.modules[d]); }
    forall k | 0 <= k < |Imports(g, id)|
      ensures SlotResolves(g, Imports(g, id)[k])
      ensures Some(g.modules[Target(g, Imports(g, id)[k])].path) == NormalizePath(Imports(g, id)[k].moduleName)
      ensures ExportedThere(g.modules[Target(g, Imports(g, id)[k])].code, Imports(g, id)[k].symbol, Resolved(g, k, Imports(g, id)[k]).kind)
    {
      SlotInSnapshot(g, k, Imports(g, id)[k]);
    }
  }

  lemma SlotInSnapshot(g: Graph, slot: nat, imp: Import)
    requires PathsLoaded(g) && ImportValid(g.modules, imp)
    requires IndexInverse(g.modules, g.idsByPath) && AllExportsIndexed(g.modules, g.exportIndexes)
    requires forall d :: d in g.modules ==> ModuleValid(g.modules[d].code)
    ensures SlotResolves(g, imp)
    ensures Some(g.modules[Target(g, imp)].path) == NormalizePath(imp.moduleName)
    ensures ExportedThere(g.modules[Target(g, imp)].code, imp.symbol, Resolved(g, slot, imp).kind)
  {}

  // ----- the import relation -----

  /** Module `u` imports something that resolves to module `v`. */
  ghost predicate DependsOn(g: Graph, u: ModuleId, v: ModuleId)
    requires PathsLoaded(g)
  {
    exists k :: 0 <= k < |Imports(g, u)| && SlotResolves(g, Imports(g, u)[k]) && Target(g, Imports(g, u)[k]) == v
  }

  ghost predicate Chain(g: Graph, p: seq<ModuleId>)
    requires PathsLoaded(g)
  {
    p != [] && forall i :: 0 <= i < |p| - 1 ==> DependsOn(g, p[i], p[i + 1])
  }

  ghost predicate ChainBetween(g: Graph, p: seq<ModuleId>, u: ModuleId, v: ModuleId)
    requires PathsLoaded(g)
  {
    Chain(g, p) && p[0] == u && p[|p| - 1] == v
  }

  /** `v` is `u` or is imported by it, directly or not. */
  ghost predicate Needs(g: Graph, u: ModuleId, v: ModuleId)
    requires PathsLoaded(g)
  {
    exists p :: ChainBetween(g, p, u, v)
  }

  ghost predicate OnCycle(g: Graph, c: ModuleId)
    requires PathsLoaded(g)
  {
    exists p :: ChainBetween(g, p, c, c) && |p| >= 2
  }

  lemma NeedsSelf(g: Graph, u: ModuleId)
    requires PathsLoaded(g)
    ensures Needs(g, u, u)
  {
    assert ChainBetween(g, [u], u, u);
  }

  lemma ChainJoin(g: Graph, p: seq<ModuleId>, q: seq<ModuleId>, u: ModuleId, v: ModuleId, w: ModuleId)
    requires PathsLoaded(g) && ChainBetween(g, p, u, v) && ChainBetween(g, q, v, w)
    ensures ChainBetween(g, p + q[1..], u, w)
  {}

  lemma NeedsTrans(g: Graph, u: ModuleId, v: ModuleId, w: ModuleId)
    requires PathsLoaded(g) && Needs(g, u, v) && Needs(g, v, w)
    ensures Needs(g, u, w)
  {
    var p :| ChainBetween(g, p, u, v);
    var q :| ChainBetween(g, q, v, w);
    ChainJoin(g, p, q, u, v, w);
  }

  lemma NeedsStep(g: Graph, u: ModuleId, v: ModuleId)
    requires PathsLoaded(g) && DependsOn(g, u, v)
    ensures Needs(g, u, v)
  {
    assert ChainBetween(g, [u, v], u, v);
  }

  lemma CycleFrom(g: Graph, u: ModuleId, v: ModuleId)
    requires PathsLoaded(g) && DependsOn(g, u, v) && Needs(g, v, u)
    ensures OnCycle(g, u)
  {
    var q :| ChainBetween(g, q, v, u);
    assert ChainBetween(g, [u, v], u, v);
    ChainJoin(g, [u, v], q, u, v, u);
    assert |[u, v] + q[1..]| >= 2;
  }

  /** A set closed under imports holds everything its members need. */
  lemma {:induction false} NeedsInside(g: Graph, s: set<ModuleId>, p: seq<ModuleId>)
    requires PathsLoaded(g) && Chain(g, p) && p[0] in s
    requires forall u, v :: u in s && DependsOn(g, u, v) ==> v in s
    ensures p[|p| - 1] in s
  {
    if |p| > 1 {
      assert DependsOn(g, p[0], p[1]);
      var q := p[1..];
      assert Chain(g, q) by {
        forall i | 0 <= i < |q| - 1 ensures DependsOn(g, q[i], q[i + 1]) { assert DependsOn(g, p[i + 1], p[i + 2]); }
      }
      NeedsInside(g, s, q);
    }
  }

  // ----- the depth-first search -----

  datatype Search = Search(order: seq<ModuleId>, visited: set<ModuleId>, visiting: set<ModuleId>)

  /** Each module comes after all it imports, and all its imports resolve. */
  ghost predicate DependenciesFirst(g: Graph, order: seq<ModuleId>)
    requires PathsLoaded(g)
  {
    forall i :: 0 <= i < |order| ==>
      Resolvable(g, order[i]) && forall v :: DependsOn(g, order[i], v) ==> v in order[..i]
  }

  ghost predicate Searching(g: Graph, s: Search)
    requires PathsLoaded(g)
  {
    && Distinct(s.order)
    && (forall v :: v in s.visited <==> v in s.order)
    && s.visited !! s.visiting
    && DependenciesFirst(g, s.order)
  }

  /** Every module being visited imports its way to `id`. */
  ghost predicate LeadTo(g: Graph, visiting: set<ModuleId>, id: ModuleId)
    requires PathsLoaded(g)
  {
    forall v :: v in visiting ==> LeadsTo(g, v, id)
  }

  ghost predicate LeadsTo(g: Graph, v: ModuleId, id: ModuleId)
    requires PathsLoaded(g)
  {
    exists w :: DependsOn(g, v, w) && Needs(g, w, id)
  }

  lemma LeadToImport(g: Graph, visiting: set<ModuleId>, id: ModuleId, target: ModuleId)
    requires PathsLoaded(g) && LeadTo(g, visiting, id) && DependsOn(g, id, target)
    ensures LeadTo(g, visiting + {id}, target)
  {
    hide DependsOn, Needs;
    NeedsSelf(g, target);
    NeedsStep(g, id, target);
    forall v | v in visiting + {id} ensures LeadsTo(g, v, target) {
      if v != id {
        assert LeadsTo(g, v, id);
        var w :| DependsOn(g, v, w) && Needs(g, w, id);
        NeedsTrans(g, w, id, target);
      }
    }
  }

  /** What the search has added since `s`, all of it needed by `id`. */
  ghost predicate Grown(g: Graph, id: ModuleId, s: Search, s': Search)
    requires PathsLoaded(g)
  {
    && s.order <= s'.order
    && s.visited <= s'.visited
    && forall v :: v in s'.visited && v !in s.visited ==> Needs(g, id, v)
  }

  lemma GrownThen(g: Graph, id: ModuleId, target: ModuleId, s: Search, s1: Search, s2: Search)
    requires PathsLoaded(g) && DependsOn(g, id, target) && Grown(g, id, s, s1) && Grown(g, target, s1, s2)
    ensures Grown(g, id, s, s2)
  {
    hide Needs, DependsOn;
    NeedsStep(g, id, target);
    forall v | v in s2.visited && v !in s.visited ensures Needs(g, id, v) {
      if v !in s1.visited { NeedsTrans(g, id, target, v); }
    }
  }

  ghost predicate Failure(g: Graph, id: ModuleId, error: ResolutionError)
    requires PathsLoaded(g)
  {
    if error.InitializationCycle? then Needs(g, id, error.id) && OnCycle(g, error.id)
    else exists u :: Needs(g, id, u) && !Resolvable(g, u)
  }

  lemma FailureBelow(g: Graph, id: ModuleId, target: ModuleId, error: ResolutionError)
    requires PathsLoaded(g) && DependsOn(g, id, target) && Failure(g, target, error)
    ensures Failure(g, id, error)
  {
    hide Needs, DependsOn, OnCycle, Resolvable;
    NeedsStep(g, id, target);
    if error.InitializationCycle? {
      NeedsTrans(g, id, target, error.id);
    } else {
      var u :| Needs(g, target, u) && !Resolvable(g, u);
      NeedsTrans(g, id, target, u);
    }
  }

  lemma CycleFound(g: Graph, id: ModuleId)
    requires PathsLoaded(g) && LeadsTo(g, id, id)
    ensures Failure(g, id, InitializationCycle(id))
  {
    hide DependsOn, Needs, OnCycle;
    NeedsSelf(g, id);
    var w :| DependsOn(g, id, w) && Needs(g, w, id);
    CycleFrom(g, id, w);
  }

  lemma SlotDepends(g: Graph, id: ModuleId, resolved: seq<ResolvedImport>, k: nat)
    requires PathsLoaded(g) && ResolvedAll(g, id, resolved) && k < |resolved|
    ensures DependsOn(g, id, resolved[k].moduleId)
  {}

  /** All imports of `id` are finished, so `id` can be. */
  lemma FinishModule(g: Graph, id: ModuleId, resolved: seq<ResolvedImport>, s: Search)
    requires PathsLoaded(g) && Searching(g, s) && id in s.visiting && Resolvable(g, id)
    requires ResolvedAll(g, id, resolved) && |resolved| == |Imports(g, id)|
    requires forall k :: 0 <= k < |resolved| ==> resolved[k].moduleId in s.visited
    ensures Searching(g, Search(s.order + [id], s.visited + {id}, s.visiting - {id}))
  {
    hide Resolvable, NormalizePath;
    var order := s.order + [id];
    forall i | 0 <= i < |order| ensures Resolvable(g, order[i]) && forall v :: DependsOn(g, order[i], v) ==> v in order[..i] {
      assert order[..i] == s.order[..i];
      if i == |s.order| {
        assert order[..i] == s.order;
        forall v | DependsOn(g, id, v) ensures v in s.order {
          var k :| 0 <= k < |Imports(g, id)| && SlotResolves(g, Imports(g, id)[k]) && Target(g, Imports(g, id)[k]) == v;
          assert resolved[k].moduleId == v;
        }
      }
    }
  }

  /** Visits `id` and everything it needs; fails on a module met again while still being visited. */
  method CollectInitializationOrder(g: Graph, id: ModuleId, s: Search) returns (result: Result<(), ResolutionError>, s': Search)
    requires PathsLoaded(g) && Searching(g, s) && LeadTo(g, s.visiting, id)
    ensures result.Ok? ==> Searching(g, s') && s'.visiting == s.visiting && Grown(g, id, s, s') && id in s'.visited
    ensures result.Ok? && id !in s.visited ==> s'.order != [] && s'.order[|s'.order| - 1] == id
    ensures result.Err? ==> Failure(g, id, result.error)
    decreases g.modules.Keys - s.visiting
  {
    hide Needs, DependsOn, Failure, LeadsTo, Resolvable, DependenciesFirst, ResolvedAll, OnCycle;
    s' := s;
    if id in s.visited {
      return Ok(()), s';
    }
    if id in s.visiting {
      CycleFound(g, id);
      return Err(InitializationCycle(id)), s';
    }
    s' := s'.(visiting := s'.visiting + {id});
    NeedsSelf(g, id);
    var resolved := ResolveImports(g, id);
    if resolved.Err? {
      ResolutionFailure(g, id, resolved.error);
      return Err(resolved.error), s';
    }
    ResolvableIsLoaded(g, id);
    var imports := resolved.value;
    for k := 0 to |imports|
      invariant Searching(g, s') && s'.visiting == s.visiting + {id} && Grown(g, id, s, s')
      invariant forall j :: 0 <= j < k ==> imports[j].moduleId in s'.visited
    {
      ghost var before := s';
      SlotDepends(g, id, imports, k);
      LeadToImport(g, s.visiting, id, imports[k].moduleId);
      var collected;
      collected, s' := CollectInitializationOrder(g, imports[k].moduleId, s');
      if collected.Err? {
        FailureBelow(g, id, imports[k].moduleId, collected.error);
        return Err(collected.error), s';
      }
      GrownThen(g, id, imports[k].moduleId, s, before, s');
    }
    FinishModule(g, id, imports, s');
    s' := Search(s'.order + [id], s'.visited + {id}, s'.visiting - {id});
    return Ok(()), s';
  }

  lemma ResolutionFailure(g: Graph, id: ModuleId, error: ResolutionError)
    requires PathsLoaded(g) && !Resolvable(g, id) && !error.InitializationCycle?
    ensures Failure(g, id, error)
  {
    hide Needs, Resolvable;
    NeedsSelf(g, id);
  }

  lemma ResolvableIsLoaded(g: Graph, id: ModuleId)
    requires PathsLoaded(g) && Resolvable(g, id)
    ensures id in g.modules
  {}

  // ----- what the order is -----

  lemma {:induction false} ChainGoesBack(g: Graph, order: seq<ModuleId>, i: nat, p: seq<ModuleId>) returns (j: nat)
    requires PathsLoaded(g) && DependenciesFirst(g, order) && Chain(g, p) && i < |order| && order[i] == p[0]
    ensures j <= i && order[j] == p[|p| - 1] && (|p| >= 2 ==> j < i)
    decreases |p|
  {
    if |p| == 1 { return i; }
    assert DependsOn(g, p[0], p[1]);
    var m :| 0 <= m < i && order[m] == p[1];
    var q := p[1..];
    assert Chain(g, q) by {
      forall n | 0 <= n < |q| - 1 ensures DependsOn(g, q[n], q[n + 1]) { assert DependsOn(g, p[n + 1], p[n + 2]); }
    }
    j := ChainGoesBack(g, order, m, q);
  }

  lemma OrderIsAcyclic(g: Graph, order: seq<ModuleId>, c: ModuleId)
    requires PathsLoaded(g) && DependenciesFirst(g, order) && Distinct(order) && c in order
    ensures !OnCycle(g, c)
  {
    var i :| 0 <= i < |order| && order[i] == c;
    if OnCycle(g, c) {
      var p :| ChainBetween(g, p, c, c) && |p| >= 2;
      var j := ChainGoesBack(g, order, i, p);
      assert false;
    }
  }

  /** Dependency-first order of exactly the modules that `id` needs. */
  ghost predicate IsInitializationOrder(g: Graph, id: ModuleId, order: seq<ModuleId>)
    requires PathsLoaded(g)
  {
    && Distinct(order)
    && order != [] && order[|order| - 1] == id
    && (forall v :: v in order <==> Needs(g, id, v))
    && DependenciesFirst(g, order)
  }

  lemma SearchIsComplete(g: Graph, id: ModuleId, s: Search)
    requires PathsLoaded(g) && Searching(g, s) && id in s.visited && Grown(g, id, Search([], {}, {}), s)
    requires s.order != [] && s.order[|s.order| - 1] == id
    ensures IsInitializationOrder(g, id, s.order)
  {
    hide DependsOn, Resolvable;
    forall v | Needs(g, id, v) ensures v in s.order {
      var p :| ChainBetween(g, p, id, v);
      forall u, w | u in s.visited && DependsOn(g, u, w) ensures w in s.visited {
        var i :| 0 <= i < |s.order| && s.order[i] == u;
        assert w in s.order[..i];
      }
      NeedsInside(g, s.visited, p);
    }
  }

  /** Gives the order of exactly the needed modules; in a published graph it fails exactly if some
      needed module is on an import cycle, and then names one that is. */
  method InitializationOrder(g: Graph, id: ModuleId) returns (result: Result<seq<ModuleId>, ResolutionError>)
    requires PathsLoaded(g)
    ensures result.Ok? ==> IsInitializationOrder(g, id, result.value) && forall c :: Needs(g, id, c) ==> !OnCycle(g, c)
    ensures result.Err? ==> Failure(g, id, result.error)
    ensures Snapshot(g) && id in g.modules ==>
      && (result.Err? <==> exists c :: Needs(g, id, c) && OnCycle(g, c))
      && (result.Err? ==> result.error.InitializationCycle? && Needs(g, id, result.error.id) && OnCycle(g, result.error.id))
  {
    hide Needs, OnCycle, DependsOn, Resolvable, Snapshot, DependenciesFirst, LeadsTo;
    var start := Search([], {}, {});
    SearchStarts(g);
    var collected, s := CollectInitializationOrder(g, id, start);
    if collected.Err? {
      if Snapshot(g) && id in g.modules && !collected.error.InitializationCycle? {
        var u :| Needs(g, id, u) && !Resolvable(g, u);
        NeededIsResolvable(g, id, u);
        assert false;
      }
      return Err(collected.error);
    }
    SearchIsComplete(g, id, s);
    forall c | Needs(g, id, c) ensures !OnCycle(g, c) {
      OrderIsAcyclic(g, s.order, c);
    }
    return Ok(s.order);
  }

  lemma SearchStarts(g: Graph)
    requires PathsLoaded(g)
    ensures Searching(g, Search([], {}, {}))
  {}

  lemma NeededIsResolvable(g: Graph, id: ModuleId, u: ModuleId)
    requires Snapshot(g) && PathsLoaded(g) && id in g.modules && Needs(g, id, u)
    ensures Resolvable(g, u)
  {
    hide Snapshot;
    var p :| ChainBetween(g, p, id, u);
    forall a, b | a in g.modules && DependsOn(g, a, b) ensures b in g.modules {}
    NeedsInside(g, g.modules.Keys, p);
    SnapshotResolves(g, u);
  }
}
