/** Bytecode graph snapshots: transactions, rebuilt indexes, validation and import resolution. */
module BytecodeGraph {
  import opened Machine
  import opened ModulePath
  import opened ImportEdges

  datatype ExportKind = Function(idx: nat) | Global(idx: nat)
  datatype Export = Export(symbol: string, kind: ExportKind)
  datatype Import = Import(moduleName: string, symbol: string)

  /** A global load or store in some function of a module. */
  datatype GlobalAccess = GlobalAccess(owner: ModuleId, idx: nat)

  /** `bodyValid` stands for the instruction-level checks of the module validator. */
  datatype Module = Module(
    functionCount: nat, globalCount: nat, imports: seq<Import>, exports: seq<Export>,
    accesses: seq<GlobalAccess>, initFunction: Option<nat>, bodyValid: bool)

  datatype Node = Node(id: ModuleId, path: string, code: Module)

  type Modules = map<ModuleId, Node>
  type PathIndex = map<string, ModuleId>
  type ExportIndex = map<string, nat>

  datatype Graph = Graph(
    version: nat, modules: Modules, idsByPath: PathIndex, edges: seq<Edge>,
    dependencies: Adjacency, dependents: Adjacency, exportIndexes: map<ModuleId, ExportIndex>)

  datatype Transaction = Transaction(baseVersion: nat, upserted: seq<Node>, removed: seq<ModuleId>, edges: seq<Edge>)

  datatype ValidationError =
    | InvalidModule(id: ModuleId)
    | DuplicateModulePath(path: string, first: ModuleId, second: ModuleId)
    | MissingDependencyModule(edge: Edge)
    | MissingGlobalModule(importer: ModuleId, owner: ModuleId)
    | GlobalIndexOutOfBounds(importer: ModuleId, owner: ModuleId, idx: nat)
    | InvalidImportPath(importer: ModuleId, moduleName: string)
    | MissingImportedModule(importer: ModuleId, moduleName: string)
    | MissingImportedExport(importer: ModuleId, moduleName: string, symbol: string)

  datatype TransactionError =
    | StaleBaseVersion(expected: nat, actual: nat)
    | DuplicateRemovedModule(id: ModuleId)
    | DuplicateUpsertedModule(id: ModuleId)
    | ConflictingModuleOperations(id: ModuleId)
    | DuplicateUpsertedModulePath(path: string, first: ModuleId, second: ModuleId)
    | RetainedModulePathConflict(path: string, existing: ModuleId, upserted: ModuleId)
    | InvalidGraph(errors: seq<ValidationError>)

  // ----- what a valid graph is -----

  ghost predicate Keyed(modules: Modules) {
    forall id :: id in modules ==> modules[id].id == id
  }

  ghost predicate UniquePaths(modules: Modules) {
    forall a, b :: a in modules && b in modules && modules[a].path == modules[b].path ==> a == b
  }

  predicate ExportInRange(code: Module, kind: ExportKind) {
    match kind
    case Function(idx) => idx < code.functionCount
    case Global(idx) => idx < code.globalCount
  }

  ghost predicate ModuleValid(code: Module) {
    && (code.initFunction.Some? ==> code.initFunction.value < code.functionCount)
    && (forall k :: 0 <= k < |code.exports| ==> ExportInRange(code, code.exports[k].kind))
    && code.bodyValid
  }

  ghost predicate ExportsGlobal(code: Module, idx: nat) {
    exists k :: 0 <= k < |code.exports| && code.exports[k].kind == Global(idx)
  }

  ghost predicate ExportsSymbol(code: Module, symbol: string) {
    exists k :: 0 <= k < |code.exports| && code.exports[k].symbol == symbol
  }

  /** The owner is loaded, has the slot, and exports it unless it is the accessing module. */
  ghost predicate AccessValid(modules: Modules, id: ModuleId, access: GlobalAccess) {
    && access.owner in modules
    && access.idx < modules[access.owner].code.globalCount
    && (access.owner != id ==> ExportsGlobal(modules[access.owner].code, access.idx))
  }

  /** The import names, up to normalisation, the path of a loaded module that exports the symbol. */
  ghost predicate ImportValid(modules: Modules, imp: Import) {
    NormalizePath(imp.moduleName).Some? &&
    exists d :: d in modules && modules[d].path == NormalizePath(imp.moduleName).value && ExportsSymbol(modules[d].code, imp.symbol)
  }

  ghost predicate EdgeValid(modules: Modules, edge: Edge) {
    edge.from in modules && edge.to in modules
  }

  ghost predicate NodeValid(modules: Modules, node: Node) {
    && ModuleValid(node.code)
    && forall k :: 0 <= k < |node.code.accesses| ==> AccessValid(modules, node.id, node.code.accesses[k])
  }

  ghost predicate ImportsValid(modules: Modules, node: Node) {
    forall k :: 0 <= k < |node.code.imports| ==> ImportValid(modules, node.code.imports[k])
  }

  ghost predicate GraphValid(modules: Modules, edges: seq<Edge>) {
    && UniquePaths(modules)
    && (forall id :: id in modules ==> NodeValid(modules, modules[id]))
    && (forall k :: 0 <= k < |edges| ==> EdgeValid(modules, edges[k]))
    && (forall id :: id in modules ==> ImportsValid(modules, modules[id]))
  }

  /** The path index and the modules' paths are inverse to each other. */
  ghost predicate IndexInverse(modules: Modules, index: PathIndex) {
    && (forall p :: p in index ==> index[p] in modules && modules[index[p]].path == p)
    && (forall id :: id in modules ==> modules[id].path in index && index[modules[id].path] == id)
  }

  /** Each exported symbol is indexed at its last position. */
  ghost predicate ExportsIndexed(code: Module, index: ExportIndex) {
    && (forall s :: s in index <==> ExportsSymbol(code, s))
    && (forall s :: s in index ==> index[s] < |code.exports| && code.exports[index[s]].symbol == s)
    && (forall s, k :: s in index && index[s] < k < |code.exports| ==> code.exports[k].symbol != s)
  }

  ghost predicate AllExportsIndexed(modules: Modules, indexes: map<ModuleId, ExportIndex>) {
    && indexes.Keys == modules.Keys
    && forall id :: id in modules ==> ExportsIndexed(modules[id].code, indexes[id])
  }

  /** What every published graph is. */
  ghost predicate Snapshot(g: Graph) {
    && Keyed(g.modules)
    && GraphValid(g.modules, g.edges)
    && IndexInverse(g.modules, g.idsByPath)
    && AllExportsIndexed(g.modules, g.exportIndexes)
    && Sorted(g.edges) && Adjacent(g.edges, true, g.dependencies) && Adjacent(g.edges, false, g.dependents)
  }

  // ----- module-id order -----

  method SortedIds(ids: set<ModuleId>) returns (order: seq<ModuleId>)
    ensures forall id :: id in ids <==> id in order
    ensures forall i, j :: 0 <= i < j < |order| ==> order[i] < order[j]
  {
    order := [];
    var rest := ids;
    while rest != {}
      invariant rest <= ids
      invariant forall id :: id in ids <==> id in rest || id in order
      invariant forall i, j :: 0 <= i < j < |order| ==> order[i] < order[j]
      invariant forall i, id :: 0 <= i < |order| && id in rest ==> order[i] < id
      decreases rest
    {
      var least := Least(rest);
      order := order + [least];
      rest := rest - {least};
    }
  }

  method Least(ids: set<ModuleId>) returns (least: ModuleId)
    requires ids != {}
    ensures least in ids && forall id :: id in ids ==> least <= id
  {
    least :| least in ids;
    var rest := ids - {least};
    while rest != {}
      invariant rest <= ids && least in ids
      invariant forall id :: id in ids ==> id in rest || least <= id
      decreases rest
    {
      var id :| id in rest;
      if id < least { least := id; }
      rest := rest - {id};
    }
  }

  // ----- validation -----

  method CheckModule(id: ModuleId, code: Module) returns (errors: seq<ValidationError>)
    ensures errors == [] <==> ModuleValid(code)
    ensures errors == [] || errors == [InvalidModule(id)]
    ensures forall e :: e in errors ==> !e.DuplicateModulePath?
  {
    var valid := code.bodyValid && (code.initFunction.None? || code.initFunction.value < code.functionCount);
    for k := 0 to |code.exports|
      invariant valid <==>
        && code.bodyValid && (code.initFunction.Some? ==> code.initFunction.value < code.functionCount)
        && forall j :: 0 <= j < k ==> ExportInRange(code, code.exports[j].kind)
    {
      valid := valid && ExportInRange(code, code.exports[k].kind);
    }
    errors := if valid then [] else [InvalidModule(id)];
  }

  method CheckAccess(modules: Modules, id: ModuleId, access: GlobalAccess) returns (errors: seq<ValidationError>)
    ensures errors == [] <==> AccessValid(modules, id, access)
    ensures |errors| <= 1
    ensures errors == [MissingGlobalModule(id, access.owner)] <==> access.owner !in modules
    ensures errors == [GlobalIndexOutOfBounds(id, access.owner, access.idx)] <==>
      access.owner in modules && access.idx >= modules[access.owner].code.globalCount
    ensures forall e :: e in errors ==> !e.DuplicateModulePath?
  {
    if access.owner !in modules {
      return [MissingGlobalModule(id, access.owner)];
    }
    var owner := modules[access.owner];
    if access.idx >= owner.code.globalCount {
      return [GlobalIndexOutOfBounds(id, access.owner, access.idx)];
    }
    if access.owner != id && !exists k :: 0 <= k < |owner.code.exports| && owner.code.exports[k].kind == Global(access.idx) {
      return [MissingImportedExport(id, owner.path, "global")];
    }
    return [];
  }

  method CheckNode(modules: Modules, node: Node) returns (errors: seq<ValidationError>)
    ensures errors == [] <==> NodeValid(modules, node)
    ensures forall e :: e in errors ==> !e.DuplicateModulePath?
  {
    hide ModuleValid, AccessValid;
    errors := CheckModule(node.id, node.code);
    for k := 0 to |node.code.accesses|
      invariant errors == [] <==> ModuleValid(node.code) && forall j :: 0 <= j < k ==> AccessValid(modules, node.id, node.code.accesses[j])
      invariant forall e :: e in errors ==> !e.DuplicateModulePath?
    {
      var more := CheckAccess(modules, node.id, node.code.accesses[k]);
      errors := errors + more;
    }
  }

  /** The import as the validator looks it up, through the path index. */
  ghost predicate ImportIndexed(modules: Modules, index: PathIndex, imp: Import) {
    && NormalizePath(imp.moduleName).Some?
    && NormalizePath(imp.moduleName).value in index
    && index[NormalizePath(imp.moduleName).value] in modules
    && ExportsSymbol(modules[index[NormalizePath(imp.moduleName).value]].code, imp.symbol)
  }

  method CheckImport(modules: Modules, index: PathIndex, id: ModuleId, imp: Import) returns (errors: seq<ValidationError>)
    requires index.Values <= modules.Keys
    ensures errors == [] <==> ImportIndexed(modules, index, imp)
    ensures |errors| <= 1
    ensures errors == [InvalidImportPath(id, imp.moduleName)] <==> NormalizePath(imp.moduleName).None?
    ensures errors == [MissingImportedModule(id, imp.moduleName)] <==>
      NormalizePath(imp.moduleName).Some? && NormalizePath(imp.moduleName).value !in index
    ensures forall e :: e in errors ==> !e.DuplicateModulePath?
  {
    hide NormalizePath;
    var path := NormalizePath(imp.moduleName);
    if path.None? {
      return [InvalidImportPath(id, imp.moduleName)];
    }
    if path.value !in index {
      return [MissingImportedModule(id, imp.moduleName)];
    }
    assert index[path.value] in index.Values;
    var exports := modules[index[path.value]].code.exports;
    if !exists k :: 0 <= k < |exports| && exports[k].symbol == imp.symbol {
      return [MissingImportedExport(id, imp.moduleName, imp.symbol)];
    }
    return [];
  }

  method CheckImports(modules: Modules, index: PathIndex, node: Node) returns (errors: seq<ValidationError>)
    requires index.Values <= modules.Keys
    ensures errors == [] <==> forall k :: 0 <= k < |node.code.imports| ==> ImportIndexed(modules, index, node.code.imports[k])
    ensures forall e :: e in errors ==> !e.DuplicateModulePath?
  {
    hide ImportIndexed;
    errors := [];
    for k := 0 to |node.code.imports|
      invariant errors == [] <==> forall j :: 0 <= j < k ==> ImportIndexed(modules, index, node.code.imports[j])
      invariant forall e :: e in errors ==> !e.DuplicateModulePath?
    {
      var more := CheckImport(modules, index, node.id, node.code.imports[k]);
      errors := errors + more;
    }
  }

  method CheckEdges(modules: Modules, edges: seq<Edge>) returns (errors: seq<ValidationError>)
    ensures errors == [] <==> forall k :: 0 <= k < |edges| ==> EdgeValid(modules, edges[k])
    ensures forall e :: e in errors ==> !e.DuplicateModulePath?
  {
    errors := [];
    for k := 0 to |edges|
      invariant errors == [] <==> forall j :: 0 <= j < k ==> EdgeValid(modules, edges[j])
      invariant forall e :: e in errors ==> !e.DuplicateModulePath?
    {
      if edges[k].from !in modules || edges[k].to !in modules {
        errors := errors + [MissingDependencyModule(edges[k])];
      }
    }
  }

  /** `index` is what inserting the paths of `done` in order leaves. */
  ghost predicate Indexing(modules: Modules, done: seq<ModuleId>, index: PathIndex) {
    && (forall id :: id in done ==> id in modules)
    && (forall p :: p in index ==> index[p] in done && modules[index[p]].path == p)
    && (forall id :: id in done ==> modules[id].path in index)
  }

  ghost predicate PathsDistinct(modules: Modules, done: seq<ModuleId>)
    requires forall id :: id in done ==> id in modules
  {
    forall a, b :: a in done && b in done && modules[a].path == modules[b].path ==> a == b
  }

  lemma IndexingStep(modules: Modules, done: seq<ModuleId>, index: PathIndex, id: ModuleId)
    requires Indexing(modules, done, index) && id in modules && id !in done
    ensures Indexing(modules, done + [id], index[modules[id].path := id])
    ensures PathsDistinct(modules, done + [id]) <==> PathsDistinct(modules, done) && modules[id].path !in index
  {}

  lemma IndexingFinished(modules: Modules, order: seq<ModuleId>, index: PathIndex)
    requires Indexing(modules, order, index) && forall id :: id in modules <==> id in order
    ensures PathsDistinct(modules, order) <==> UniquePaths(modules)
    ensures index.Values <= modules.Keys
    ensures UniquePaths(modules) ==> IndexInverse(modules, index)
  {}

  lemma ImportLookup(modules: Modules, index: PathIndex, imp: Import)
    requires IndexInverse(modules, index)
    ensures ImportIndexed(modules, index, imp) <==> ImportValid(modules, imp)
  {}

  ghost predicate HasPathClash(errors: seq<ValidationError>) {
    exists e :: e in errors && e.DuplicateModulePath?
  }

  /** Nodes in id order: the path index, and the node errors. */
  method CheckNodes(modules: Modules, order: seq<ModuleId>) returns (index: PathIndex, errors: seq<ValidationError>)
    requires Keyed(modules)
    requires forall id :: id in modules <==> id in order
    requires forall i, j :: 0 <= i < j < |order| ==> order[i] < order[j]
    ensures Indexing(modules, order, index)
    ensures errors == [] <==> PathsDistinct(modules, order) && forall id :: id in modules ==> NodeValid(modules, modules[id])
    ensures HasPathClash(errors) <==> !PathsDistinct(modules, order)
  {
    hide NodeValid, Indexing, PathsDistinct;
    index, errors := map[], [];
    assert Indexing(modules, order[..0], index) by { IndexingStart(modules, order[..0]); }
    assert PathsDistinct(modules, order[..0]) by { IndexingStart(modules, order[..0]); }
    for k := 0 to |order|
      invariant Indexing(modules, order[..k], index)
      invariant errors == [] <==> PathsDistinct(modules, order[..k]) && forall j :: 0 <= j < k ==> NodeValid(modules, modules[order[j]])
      invariant HasPathClash(errors) <==> !PathsDistinct(modules, order[..k])
    {
      var id := order[k];
      assert id in order;
      var node := modules[id];
      assert order[..k + 1] == order[..k] + [id];
      IndexingStep(modules, order[..k], index, id);
      var more := CheckNode(modules, node);
      if node.path in index {
        IndexedEarlier(modules, order, k, index);
      }
      if node.path in index && index[node.path] != node.id {
        more := [DuplicateModulePath(node.path, index[node.path], node.id)] + more;
        assert more[0].DuplicateModulePath?;
        assert (errors + more)[|errors|] == more[0];
        assert more[0] in errors + more;
      }
      assert node.path !in index ==> (HasPathClash(errors + more) <==> HasPathClash(errors));
      errors := errors + more;
      index := index[node.path := id];
    }
    assert order[..|order|] == order;
  }

  lemma IndexingStart(modules: Modules, done: seq<ModuleId>)
    requires done == []
    ensures Indexing(modules, done, map[]) && PathsDistinct(modules, done)
  {}

  lemma IndexedEarlier(modules: Modules, order: seq<ModuleId>, k: nat, index: PathIndex)
    requires k < |order| && order[k] in modules && Indexing(modules, order[..k], index) && modules[order[k]].path in index
    requires forall i, j :: 0 <= i < j < |order| ==> order[i] < order[j]
    ensures index[modules[order[k]].path] != order[k]
  {}

  /** Finds no error exactly in valid graphs, and reports a path clash exactly if there is one. */
  method Validate(modules: Modules, edges: seq<Edge>) returns (errors: seq<ValidationError>)
    requires Keyed(modules)
    ensures errors == [] <==> GraphValid(modules, edges)
    ensures HasPathClash(errors) <==> !UniquePaths(modules)
  {
    hide NodeValid, EdgeValid, UniquePaths, PathsDistinct, Indexing, ImportIndexed, ImportsValid, IndexInverse;
    var order := SortedIds(modules.Keys);
    var index, nodeErrors := CheckNodes(modules, order);
    IndexingFinished(modules, order, index);
    var edgeErrors := CheckEdges(modules, edges);
    var importErrors := CheckAllImports(modules, index, order);
    errors := nodeErrors + edgeErrors + importErrors;
    ClashSplit(nodeErrors, edgeErrors, importErrors);
  }

  lemma ClashSplit(a: seq<ValidationError>, b: seq<ValidationError>, c: seq<ValidationError>)
    requires !HasPathClash(b) && !HasPathClash(c)
    ensures HasPathClash(a + b + c) <==> HasPathClash(a)
  {}

  method CheckAllImports(modules: Modules, index: PathIndex, order: seq<ModuleId>) returns (errors: seq<ValidationError>)
    requires index.Values <= modules.Keys
    requires forall id :: id in modules <==> id in order
    ensures IndexInverse(modules, index) ==> (errors == [] <==> forall id :: id in modules ==> ImportsValid(modules, modules[id]))
    ensures !HasPathClash(errors)
  {
    hide ImportIndexed, IndexInverse, ImportValid;
    errors := [];
    for k := 0 to |order|
      invariant IndexInverse(modules, index) ==> (errors == [] <==> forall j :: 0 <= j < k ==> ImportsValid(modules, modules[order[j]]))
      invariant !HasPathClash(errors)
    {
      assert order[k] in order;
      var node := modules[order[k]];
      var more := CheckImports(modules, index, node);
      if IndexInverse(modules, index) {
        forall i | 0 <= i < |node.code.imports|
          ensures ImportIndexed(modules, index, node.code.imports[i]) <==> ImportValid(modules, node.code.imports[i])
        {
          ImportLookup(modules, index, node.code.imports[i]);
        }
      }
      errors := errors + more;
    }
  }

  // ----- rebuilt indexes -----

  method IndexPaths(modules: Modules, order: seq<ModuleId>) returns (index: PathIndex)
    requires forall id :: id in modules <==> id in order
    requires forall i, j :: 0 <= i < j < |order| ==> order[i] < order[j]
    ensures Indexing(modules, order, index)
  {
    hide Indexing;
    index := map[];
    IndexingStart(modules, order[..0]);
    for k := 0 to |order|
      invariant Indexing(modules, order[..k], index)
    {
      assert order[k] in order;
      assert order[..k + 1] == order[..k] + [order[k]];
      IndexingStep(modules, order[..k], index, order[k]);
      index := index[modules[order[k]].path := order[k]];
    }
    assert order[..|order|] == order;
  }

  method IndexExports(code: Module) returns (index: ExportIndex)
    ensures ExportsIndexed(code, index)
  {
    index := map[];
    for k := 0 to |code.exports|
      invariant forall s :: s in index <==> exists j :: 0 <= j < k && code.exports[j].symbol == s
      invariant forall s :: s in index ==> index[s] < k && code.exports[index[s]].symbol == s
      invariant forall s, j :: s in index && index[s] < j < k ==> code.exports[j].symbol != s
    {
      index := index[code.exports[k].symbol := k];
    }
  }

  method IndexAllExports(modules: Modules, order: seq<ModuleId>) returns (indexes: map<ModuleId, ExportIndex>)
    requires forall id :: id in modules <==> id in order
    ensures AllExportsIndexed(modules, indexes)
  {
    hide ExportsIndexed;
    indexes := map[];
    for k := 0 to |order|
      invariant forall id :: id in indexes <==> id in order[..k]
      invariant forall id :: id in indexes ==> id in modules && ExportsIndexed(modules[id].code, indexes[id])
    {
      assert order[k] in order;
      var index := IndexExports(modules[order[k]].code);
      indexes := indexes[order[k] := index];
    }
    assert order[..|order|] == order;
  }

  /** The graph with its indexes rebuilt, if it is valid. */
  method RebuildTransientIndexes(version: nat, modules: Modules, edges: seq<Edge>) returns (result: Result<Graph, seq<ValidationError>>)
    requires Keyed(modules)
    ensures result.Ok? <==> GraphValid(modules, edges)
    ensures result.Ok? ==> result.value.modules == modules && SameEdges(result.value.edges, edges) && result.value.version == version
    ensures result.Ok? ==> Snapshot(result.value)
    ensures result.Err? ==> (HasPathClash(result.error) <==> !UniquePaths(modules))
  {
    hide GraphValid, UniquePaths, PathsDistinct, Indexing, IndexInverse, AllExportsIndexed, HasPathClash, Sorted, Adjacent, SameEdges;
    var order := SortedIds(modules.Keys);
    var index := IndexPaths(modules, order);
    IndexingFinished(modules, order, index);
    var sorted := SortEdges(edges);
    SortedStaysValid(modules, edges, sorted);
    var dependencies := AdjacencyIndex(sorted, true);
    var dependents := AdjacencyIndex(sorted, false);
    var exportIndexes := IndexAllExports(modules, order);
    var errors := Validate(modules, sorted);
    if errors != [] {
      return Err(errors);
    }
    ValidPathsUnique(modules, sorted);
    return Ok(Graph(version, modules, index, sorted, dependencies, dependents, exportIndexes));
  }

  lemma ValidPathsUnique(modules: Modules, edges: seq<Edge>)
    requires GraphValid(modules, edges)
    ensures UniquePaths(modules)
  {}

  lemma SortedStaysValid(modules: Modules, edges: seq<Edge>, sorted: seq<Edge>)
    requires SameEdges(sorted, edges)
    ensures GraphValid(modules, edges) <==> GraphValid(modules, sorted)
  {
    hide NodeValid, ImportsValid, UniquePaths, EdgeValid;
    forall e ensures e in edges <==> e in sorted {
      assert e in edges <==> e in multiset(edges);
      assert e in sorted <==> e in multiset(sorted);
    }
    assert forall k :: 0 <= k < |edges| ==> edges[k] in sorted;
    assert forall k :: 0 <= k < |sorted| ==> sorted[k] in edges;
  }

  // ----- transactions -----

  function UpsertedIds(nodes: seq<Node>): seq<ModuleId> {
    seq(|nodes|, k requires 0 <= k < |nodes| => nodes[k].id)
  }

  function UpsertedPaths(nodes: seq<Node>): seq<string> {
    seq(|nodes|, k requires 0 <= k < |nodes| => nodes[k].path)
  }

  /** The first module, in id order, that has the path. */
  ghost predicate OwnsPath(modules: Modules, e: ModuleId, path: string) {
    && e in modules
    && modules[e].path == path
    && forall e' :: e' in modules && modules[e'].path == path ==> e <= e'
  }

  ghost predicate PathFree(modules: Modules, removed: seq<ModuleId>, node: Node) {
    forall e :: OwnsPath(modules, e, node.path) ==> e == node.id || e in removed
  }

  ghost predicate Admissible(modules: Modules, t: Transaction) {
    && Distinct(t.removed)
    && Distinct(UpsertedIds(t.upserted))
    && (forall k :: 0 <= k < |t.upserted| ==> t.upserted[k].id !in t.removed)
    && Distinct(UpsertedPaths(t.upserted))
    && (forall k :: 0 <= k < |t.upserted| ==> PathFree(modules, t.removed, t.upserted[k]))
  }

  ghost predicate Repeats<T>(s: seq<T>, x: T) {
    exists i, j :: 0 <= i < j < |s| && s[i] == s[j] == x
  }

  /** The elements that occur twice. */
  function Repeated<T(==,!new)>(s: seq<T>): (r: set<T>)
    ensures forall x :: x in r <==> Repeats(s, x)
    ensures r == {} <==> Distinct(s)
  {
    var r := set j, i | 0 <= i < j < |s| && s[i] == s[j] :: s[j];
    assert forall i, j :: 0 <= i < j < |s| && s[i] == s[j] ==> s[j] in r;
    r
  }

  // ----- path order -----

  /** Code-point order, which is the byte order of the encoded paths. */
  predicate PathLeq(a: string, b: string) {
    a == [] || (b != [] && (a[0] < b[0] || (a[0] == b[0] && PathLeq(a[1..], b[1..]))))
  }

  /** The first character in which they differ is smaller, or there is none and it is no longer. */
  lemma {:induction false} PathLeqMeans(common: string, a: string, b: string)
    requires a != [] && b != [] ==> a[0] != b[0]
    ensures PathLeq(common + a, common + b) <==> a == [] || (b != [] && a[0] < b[0])
  {
    if common == [] {
      assert common + a == a && common + b == b;
    } else {
      assert (common + a)[1..] == common[1..] + a && (common + b)[1..] == common[1..] + b;
      PathLeqMeans(common[1..], a, b);
    }
  }

  lemma {:induction false} PathLeqTotal(a: string, b: string)
    ensures PathLeq(a, b) || PathLeq(b, a)
    ensures PathLeq(a, b) && PathLeq(b, a) ==> a == b
  {
    if a != [] && b != [] {
      PathLeqTotal(a[1..], b[1..]);
      assert a == [a[0]] + a[1..] && b == [b[0]] + b[1..];
    }
  }

  lemma {:induction false} PathLeqTrans(a: string, b: string, c: string)
    requires PathLeq(a, b) && PathLeq(b, c)
    ensures PathLeq(a, c)
  {
    if a != [] && a[0] == b[0] == c[0] { PathLeqTrans(a[1..], b[1..], c[1..]); }
  }

  method LeastPath(paths: set<string>) returns (least: string)
    requires paths != {}
    ensures least in paths && forall p :: p in paths ==> PathLeq(least, p)
  {
    hide PathLeq;
    least :| least in paths;
    var rest := paths - {least};
    PathLeqTotal(least, least);
    while rest != {}
      invariant rest <= paths && least in paths
      invariant forall p :: p in paths ==> p in rest || PathLeq(least, p)
      decreases rest
    {
      var p :| p in rest;
      PathLeqTotal(least, p);
      if !PathLeq(least, p) {
        forall q | q in paths && q !in rest ensures PathLeq(p, q) { PathLeqTrans(p, least, q); }
        PathLeqTotal(p, p);
        least := p;
      }
      rest := rest - {p};
    }
  }

  // ----- the checks of a transaction -----

  method FindOwner(modules: Modules, path: string) returns (owner: Option<ModuleId>)
    ensures owner.Some? ==> OwnsPath(modules, owner.value, path)
    ensures owner.None? ==> forall e :: e in modules ==> modules[e].path != path
  {
    var order := SortedIds(modules.Keys);
    for k := 0 to |order|
      invariant forall j :: 0 <= j < k ==> order[j] in modules && modules[order[j]].path != path
    {
      assert order[k] in order;
      if modules[order[k]].path == path {
        return Some(order[k]);
      }
    }
    return None;
  }

  ghost predicate Has(nodes: seq<Node>, id: ModuleId, path: string) {
    exists k :: 0 <= k < |nodes| && nodes[k].id == id && nodes[k].path == path
  }

  /** The two smallest ids that come with the path. */
  ghost predicate TwoLeast(nodes: seq<Node>, path: string, first: ModuleId, second: ModuleId) {
    && first < second && Has(nodes, first, path) && Has(nodes, second, path)
    && forall id :: Has(nodes, id, path) ==> id == first || second <= id
  }

  method FirstTwo(nodes: seq<Node>, path: string) returns (first: ModuleId, second: ModuleId)
    requires Distinct(UpsertedIds(nodes)) && Repeats(UpsertedPaths(nodes), path)
    ensures TwoLeast(nodes, path, first, second)
  {
    hide Has;
    var ids := IdsWith(nodes, path);
    ghost var i, j := TwoWith(nodes, path);
    assert i in ids && j in ids;
    first := Least(ids);
    assert (if i == first then j else i) in ids - {first};
    second := Least(ids - {first});
    forall id | Has(nodes, id, path) ensures id == first || second <= id {
      assert id in ids;
      if id != first { assert id in ids - {first}; }
    }
  }

  function IdsWith(nodes: seq<Node>, path: string): (r: set<ModuleId>)
    ensures forall id :: id in r <==> Has(nodes, id, path)
  {
    set k | 0 <= k < |nodes| && nodes[k].path == path :: nodes[k].id
  }

  lemma TwoWith(nodes: seq<Node>, path: string) returns (a: ModuleId, b: ModuleId)
    requires Distinct(UpsertedIds(nodes)) && Repeats(UpsertedPaths(nodes), path)
    ensures a != b && Has(nodes, a, path) && Has(nodes, b, path)
  {
    var paths := UpsertedPaths(nodes);
    var i, j :| 0 <= i < j < |paths| && paths[i] == paths[j] == path;
    a, b := nodes[i].id, nodes[j].id;
    assert UpsertedIds(nodes)[i] != UpsertedIds(nodes)[j];
    assert nodes[i].path == path && nodes[j].path == path;
  }

  /** A path that an upserted module takes from a module that stays. */
  ghost predicate Takes(modules: Modules, t: Transaction, path: string, existing: ModuleId, upserted: ModuleId) {
    OwnsPath(modules, existing, path) && existing != upserted && existing !in t.removed && Has(t.upserted, upserted, path)
  }

  /** No upserted module takes an earlier path. */
  ghost predicate TakesFirst(modules: Modules, t: Transaction, k: nat, path: string)
    requires k <= |t.upserted|
  {
    forall j :: 0 <= j < k && !PathFree(modules, t.removed, t.upserted[j]) ==> PathLeq(path, t.upserted[j].path)
  }

  method FindRetainedConflict(modules: Modules, t: Transaction) returns (conflict: Option<TransactionError>)
    ensures conflict.None? <==> forall k :: 0 <= k < |t.upserted| ==> PathFree(modules, t.removed, t.upserted[k])
    ensures conflict.Some? ==> conflict.value.RetainedModulePathConflict? && var c := conflict.value;
      Takes(modules, t, c.path, c.existing, c.upserted) && TakesFirst(modules, t, |t.upserted|, c.path)
  {
    hide PathLeq;
    conflict := None;
    for k := 0 to |t.upserted|
      invariant conflict.None? <==> forall j :: 0 <= j < k ==> PathFree(modules, t.removed, t.upserted[j])
      invariant conflict.Some? ==> conflict.value.RetainedModulePathConflict? && var c := conflict.value;
        Takes(modules, t, c.path, c.existing, c.upserted) && TakesFirst(modules, t, k, c.path)
    {
      var node := t.upserted[k];
      var existing := FindOwner(modules, node.path);
      if existing.Some? && existing.value != node.id && existing.value !in t.removed {
        PathLeqTotal(node.path, node.path);
        if conflict.Some? {
          PathLeqTotal(conflict.value.path, node.path);
        }
        if conflict.None? || !PathLeq(conflict.value.path, node.path) {
          if conflict.Some? {
            TakesEarlier(modules, t, k, conflict.value.path, node.path);
          }
          assert Has(t.upserted, node.id, node.path);
          conflict := Some(RetainedModulePathConflict(node.path, existing.value, node.id));
        }
      }
    }
  }

  lemma TakesEarlier(modules: Modules, t: Transaction, k: nat, path: string, earlier: string)
    requires k <= |t.upserted| && TakesFirst(modules, t, k, path) && PathLeq(earlier, path)
    ensures TakesFirst(modules, t, k, earlier)
  {
    hide PathFree, PathLeq;
    forall j | 0 <= j < k && !PathFree(modules, t.removed, t.upserted[j]) ensures PathLeq(earlier, t.upserted[j].path) {
      PathLeqTrans(earlier, path, t.upserted[j].path);
    }
  }

  /** What each error means: the checks before it passed, and it names the first offender in id
      order, or in path order. */
  ghost predicate Explained(modules: Modules, t: Transaction, error: TransactionError) {
    var ids, paths := UpsertedIds(t.upserted), UpsertedPaths(t.upserted);
    match error
    case DuplicateRemovedModule(id) => Repeats(t.removed, id) && forall x :: Repeats(t.removed, x) ==> id <= x
    case DuplicateUpsertedModule(id) => Distinct(t.removed) && Repeats(ids, id) && forall x :: Repeats(ids, x) ==> id <= x
    case ConflictingModuleOperations(id) =>
      && Distinct(t.removed) && Distinct(ids)
      && id in t.removed && id in ids && forall x :: x in t.removed && x in ids ==> id <= x
    case DuplicateUpsertedModulePath(path, first, second) =>
      && IdsAdmissible(t)
      && Repeats(paths, path) && (forall p :: Repeats(paths, p) ==> PathLeq(path, p))
      && TwoLeast(t.upserted, path, first, second)
    case RetainedModulePathConflict(path, existing, upserted) =>
      && IdsAdmissible(t) && Distinct(paths)
      && Takes(modules, t, path, existing, upserted) && TakesFirst(modules, t, |t.upserted|, path)
    case _ => false
  }

  ghost predicate IdsAdmissible(t: Transaction) {
    && Distinct(t.removed)
    && Distinct(UpsertedIds(t.upserted))
    && forall k :: 0 <= k < |t.upserted| ==> t.upserted[k].id !in t.removed
  }

  lemma NotDistinct<T>(s: seq<T>, x: T)
    requires Repeats(s, x)
    ensures !Distinct(s)
  {}

  lemma TakenIsNotFree(modules: Modules, t: Transaction, path: string, existing: ModuleId, upserted: ModuleId) returns (k: nat)
    requires Takes(modules, t, path, existing, upserted)
    ensures k < |t.upserted| && t.upserted[k].id == upserted && t.upserted[k].path == path
    ensures !PathFree(modules, t.removed, t.upserted[k])
  {
    k :| 0 <= k < |t.upserted| && t.upserted[k].id == upserted && t.upserted[k].path == path;
  }

  lemma ConflictIsUnique(modules: Modules, t: Transaction, e: TransactionError, e': TransactionError)
    requires Explained(modules, t, e) && Explained(modules, t, e') && e.RetainedModulePathConflict? && e'.RetainedModulePathConflict?
    ensures e == e'
  {
    hide PathLeq, PathFree;
    var k := TakenIsNotFree(modules, t, e.path, e.existing, e.upserted);
    var k' := TakenIsNotFree(modules, t, e'.path, e'.existing, e'.upserted);
    PathLeqTotal(e.path, e'.path);
    assert UpsertedPaths(t.upserted)[k] == UpsertedPaths(t.upserted)[k'];
  }

  /** A transaction has at most one explanation, so the error is determined by it. */
  lemma ExplainedIsUnique(modules: Modules, t: Transaction, e: TransactionError, e': TransactionError)
    requires Explained(modules, t, e) && Explained(modules, t, e')
    ensures e == e'
  {
    hide PathLeq, PathFree, Repeats, Distinct, Takes, TakesFirst;
    if e.RetainedModulePathConflict? && e'.RetainedModulePathConflict? {
      ConflictIsUnique(modules, t, e, e');
    } else {
      OneKind(modules, t, e);
      OneKind(modules, t, e');
      if e.DuplicateUpsertedModulePath? && e'.DuplicateUpsertedModulePath? {
        PathLeqTotal(e.path, e'.path);
      }
    }
  }

  /** Which check an explained error comes from. */
  lemma OneKind(modules: Modules, t: Transaction, e: TransactionError)
    requires Explained(modules, t, e)
    ensures e.DuplicateRemovedModule? <==> !Distinct(t.removed)
    ensures e.DuplicateUpsertedModule? <==> Distinct(t.removed) && !Distinct(UpsertedIds(t.upserted))
    ensures e.ConflictingModuleOperations? ==> !IdsAdmissible(t)
    ensures e.DuplicateUpsertedModulePath? <==> IdsAdmissible(t) && !Distinct(UpsertedPaths(t.upserted))
    ensures e.RetainedModulePathConflict? ==> IdsAdmissible(t) && Distinct(UpsertedPaths(t.upserted))
  {
    hide PathLeq, PathFree, Repeats, Distinct, Takes, TakesFirst, TwoLeast;
    match e
    case DuplicateRemovedModule(id) => NotDistinct(t.removed, id);
    case DuplicateUpsertedModule(id) => NotDistinct(UpsertedIds(t.upserted), id);
    case ConflictingModuleOperations(id) =>
      var k :| 0 <= k < |UpsertedIds(t.upserted)| && UpsertedIds(t.upserted)[k] == id;
      assert t.upserted[k].id in t.removed;
    case DuplicateUpsertedModulePath(path, _, _) => NotDistinct(UpsertedPaths(t.upserted), path);
    case _ =>
  }

  method ValidateTransaction(modules: Modules, t: Transaction) returns (result: Result<(), TransactionError>)
    ensures result.Ok? <==> Admissible(modules, t)
    ensures result.Err? ==> Explained(modules, t, result.error) && !result.error.InvalidGraph?
  {
    hide Distinct, PathFree, Repeats, Takes, TakesFirst, TwoLeast, PathLeq;
    var removedTwice := Repeated(t.removed);
    if removedTwice != {} {
      var id := Least(removedTwice);
      return Err(DuplicateRemovedModule(id));
    }
    var ids := UpsertedIds(t.upserted);
    var upsertedTwice := Repeated(ids);
    if upsertedTwice != {} {
      var id := Least(upsertedTwice);
      return Err(DuplicateUpsertedModule(id));
    }
    var both := set id | id in t.removed && id in ids;
    assert forall id :: id in t.removed && id in ids ==> id in both;
    if both != {} {
      var id := Least(both);
      return Err(ConflictingModuleOperations(id));
    }
    forall k | 0 <= k < |t.upserted| ensures t.upserted[k].id !in t.removed {
      assert ids[k] in ids;
    }
    var pathsTwice := Repeated(UpsertedPaths(t.upserted));
    if pathsTwice != {} {
      var path := LeastPath(pathsTwice);
      var first, second := FirstTwo(t.upserted, path);
      return Err(DuplicateUpsertedModulePath(path, first, second));
    }
    var conflict := FindRetainedConflict(modules, t);
    if conflict.Some? {
      return Err(conflict.value);
    }
    return Ok(());
  }

  /** The modules once a transaction is applied: retained ones, and the upserted ones over them. */
  ghost predicate Updated(modules: Modules, t: Transaction, modules': Modules) {
    && (forall id :: id in modules' <==> id in UpsertedIds(t.upserted) || (id in modules && id !in t.removed))
    && (forall k :: 0 <= k < |t.upserted| && t.upserted[k].id in modules' ==> modules'[t.upserted[k].id] == t.upserted[k])
    && (forall id :: id in modules' && id !in UpsertedIds(t.upserted) ==> modules'[id] == modules[id])
  }

  /** An admissible update keeps paths unique, so the graph validation never reports a clash. */
  lemma UpdateKeepsPathsUnique(modules: Modules, t: Transaction, modules': Modules)
    requires Keyed(modules) && UniquePaths(modules) && Admissible(modules, t) && Updated(modules, t, modules')
    ensures UniquePaths(modules')
  {
    var ids := UpsertedIds(t.upserted);
    forall a, b | a in modules' && b in modules' && modules'[a].path == modules'[b].path ensures a == b {
      if a in ids && b in ids {
        var i :| 0 <= i < |ids| && ids[i] == a;
        var j :| 0 <= j < |ids| && ids[j] == b;
        assert UpsertedPaths(t.upserted)[i] == UpsertedPaths(t.upserted)[j];
      } else if a in ids {
        UpsertedMissesRetained(modules, t, modules', a, b);
      } else if b in ids {
        UpsertedMissesRetained(modules, t, modules', b, a);
      }
    }
  }

  lemma UpsertedMissesRetained(modules: Modules, t: Transaction, modules': Modules, a: ModuleId, b: ModuleId)
    requires Keyed(modules) && UniquePaths(modules) && Admissible(modules, t) && Updated(modules, t, modules')
    requires a in UpsertedIds(t.upserted) && b in modules' && b !in UpsertedIds(t.upserted) && a in modules'
    ensures modules'[a].path != modules'[b].path
  {}

  method RemoveModules(modules: Modules, removed: seq<ModuleId>) returns (modules': Modules)
    ensures forall id :: id in modules' <==> id in modules && id !in removed
    ensures forall id :: id in modules' ==> modules'[id] == modules[id]
  {
    modules' := modules;
    for k := 0 to |removed|
      invariant forall id :: id in modules' <==> id in modules && id !in removed[..k]
      invariant forall id :: id in modules' ==> modules'[id] == modules[id]
    {
      modules' := modules' - {removed[k]};
    }
    assert removed[..|removed|] == removed;
  }

  /** Upserted nodes over retained modules, in the order given. */
  ghost predicate Upserting(retained: Modules, nodes: seq<Node>, k: nat, modules: Modules)
    requires k <= |nodes|
  {
    var ids := UpsertedIds(nodes);
    && (forall id :: id in modules <==> id in ids[..k] || id in retained)
    && (forall j :: 0 <= j < k && ids[j] in modules ==> modules[ids[j]] == nodes[j])
    && (forall id :: id in modules && id !in ids[..k] ==> modules[id] == retained[id])
  }

  lemma UpsertStep(retained: Modules, nodes: seq<Node>, k: nat, modules: Modules)
    requires k < |nodes| && Distinct(UpsertedIds(nodes)) && Upserting(retained, nodes, k, modules)
    ensures Upserting(retained, nodes, k + 1, modules[nodes[k].id := nodes[k]])
  {
    var ids := UpsertedIds(nodes);
    assert ids[..k + 1] == ids[..k] + [ids[k]];
    forall j | 0 <= j < k ensures ids[j] != ids[k] {}
  }

  /** Removes, then upserts, in the order of the transaction. */
  method UpdateModules(modules: Modules, t: Transaction) returns (modules': Modules)
    requires Keyed(modules) && Admissible(modules, t)
    ensures Keyed(modules') && Updated(modules, t, modules')
  {
    hide PathFree, Upserting;
    var retained := RemoveModules(modules, t.removed);
    modules' := retained;
    assert Upserting(retained, t.upserted, 0, modules') by { UpsertStart(retained, t.upserted); }
    for k := 0 to |t.upserted|
      invariant Keyed(modules')
      invariant Upserting(retained, t.upserted, k, modules')
    {
      UpsertStep(retained, t.upserted, k, modules');
      modules' := modules'[t.upserted[k].id := t.upserted[k]];
    }
    UpsertFinished(modules, t, retained, modules');
  }

  lemma UpsertStart(retained: Modules, nodes: seq<Node>)
    ensures Upserting(retained, nodes, 0, retained)
  {}

  lemma UpsertFinished(modules: Modules, t: Transaction, retained: Modules, modules': Modules)
    requires forall id :: id in retained <==> id in modules && id !in t.removed
    requires forall id :: id in retained ==> retained[id] == modules[id]
    requires Upserting(retained, t.upserted, |t.upserted|, modules')
    ensures Updated(modules, t, modules')
  {}

  /** Applies a transaction to a snapshot. */
  method Apply(g: Graph, t: Transaction) returns (result: Result<Graph, TransactionError>)
    requires Keyed(g.modules) && g.version < U64_MAX
    ensures result.Ok? ==>
      && t.baseVersion == g.version && Admissible(g.modules, t)
      && result.value.version == g.version + 1
      && SameEdges(result.value.edges, t.edges)
      && Updated(g.modules, t, result.value.modules)
      && Snapshot(result.value)
    ensures result.Err? ==>
      if t.baseVersion != g.version then result.error == StaleBaseVersion(t.baseVersion, g.version)
      else if !Admissible(g.modules, t) then Explained(g.modules, t, result.error)
      else result.error.InvalidGraph? && forall modules :: Updated(g.modules, t, modules) ==> !GraphValid(modules, t.edges)
    ensures UniquePaths(g.modules) && result.Err? && result.error.InvalidGraph? ==> !HasPathClash(result.error.errors)
  {
    hide GraphValid, Admissible, HasPathClash, UniquePaths, Keyed, IndexInverse, AllExportsIndexed, Updated, Explained, Sorted, Adjacent, SameEdges;
    if t.baseVersion != g.version {
      return Err(StaleBaseVersion(t.baseVersion, g.version));
    }
    var admitted := ValidateTransaction(g.modules, t);
    if admitted.Err? {
      return Err(admitted.error);
    }
    var modules := UpdateModules(g.modules, t);
    var rebuilt := RebuildTransientIndexes(g.version + 1, modules, t.edges);
    if rebuilt.Err? {
      if UniquePaths(g.modules) {
        UpdateKeepsPathsUnique(g.modules, t, modules);
      }
      forall other | Updated(g.modules, t, other) ensures !GraphValid(other, t.edges) {
        UpdatedIsUnique(g.modules, t, modules, other);
      }
      return Err(InvalidGraph(rebuilt.error));
    }
    return Ok(rebuilt.value);
  }

  lemma UpdatedIsUnique(modules: Modules, t: Transaction, a: Modules, b: Modules)
    requires Updated(modules, t, a) && Updated(modules, t, b)
    ensures a == b
  {}

  // ----- runs -----

  function EmptyGraph(): Graph {
    Graph(0, map[], map[], [], map[], map[], map[])
  }

  function Accepted(outcomes: seq<Option<TransactionError>>): nat {
    if outcomes == [] then 0
    else Accepted(outcomes[..|outcomes| - 1]) + if outcomes[|outcomes| - 1].None? then 1 else 0
  }

  /** Whatever transactions are applied from the empty graph on, every published graph is a
      snapshot, its version counts the accepted transactions, and no rejection is a path clash. */
  method RunTransactions(transactions: seq<Transaction>) returns (g: Graph, outcomes: seq<Option<TransactionError>>)
    requires |transactions| < U64_MAX
    ensures Snapshot(g)
    ensures |outcomes| == |transactions| && g.version == Accepted(outcomes)
    ensures forall k :: 0 <= k < |outcomes| && outcomes[k].Some? && outcomes[k].value.InvalidGraph? ==> !HasPathClash(outcomes[k].value.errors)
  {
    hide HasPathClash, Admissible, Updated, NodeValid, ImportsValid, SameEdges;
    g, outcomes := EmptyGraph(), [];
    for k := 0 to |transactions|
      invariant Snapshot(g)
      invariant |outcomes| == k && g.version == Accepted(outcomes) <= k
      invariant forall j :: 0 <= j < k && outcomes[j].Some? && outcomes[j].value.InvalidGraph? ==> !HasPathClash(outcomes[j].value.errors)
    {
      var applied := Apply(g, transactions[k]);
      var outcome := if applied.Ok? then None else Some(applied.error);
      assert (outcomes + [outcome])[..k] == outcomes;
      outcomes := outcomes + [outcome];
      if applied.Ok? {
        g := applied.value;
      }
    }
  }
}
