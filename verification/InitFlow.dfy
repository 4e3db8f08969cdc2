/** The initialisation dataflow: a worklist over block-entry sets, and what it computes. */
module InitFlow {
  import opened Machine
  import opened Mir

  // ----- effects -----

  function LocalOf(op: Operand): set<LocalId> {
    if op.Local? then {op.id} else {}
  }

  function LocalsOf(ops: seq<Operand>): set<LocalId> {
    set k | 0 <= k < |ops| && ops[k].Local? :: ops[k].id
  }

  /** Locals an instruction moves out of or drops. */
  function Killed(inst: Instruction): set<LocalId> {
    match inst
    case Assign(_, rvalue) => if rvalue.Use? then LocalOf(rvalue.operand) else {}
    case StoreGlobal(_, val) => LocalOf(val)
    case StoreIndex(_, _, val) => LocalOf(val)
    case StoreField(_, _, val) => LocalOf(val)
    case Drop(dropped) => {dropped}
    case Await(future, _) => LocalOf(future)
    case AwaitAll(futures, _) => LocalsOf(futures)
    case AwaitRace(futures, _) => LocalsOf(futures)
    case _ => {}
  }

  function Assigned(inst: Instruction): set<LocalId> {
    if Destination(inst).Some? then {Destination(inst).value} else {}
  }

  function AfterInstructions(insts: seq<Instruction>, s: set<LocalId>): set<LocalId> {
    if insts == [] then s
    else
      var last := insts[|insts| - 1];
      AfterInstructions(insts[..|insts| - 1], s) - Killed(last) + Assigned(last)
  }

  function ParameterSet(block: BasicBlock): set<LocalId> {
    set k | 0 <= k < |block.parameters| :: block.parameters[k]
  }

  function Returned(t: Terminator): set<LocalId> {
    if t.Return? && t.value.Some? then LocalOf(t.value.value) else {}
  }

  /** Locals initialised when a block is left, given those initialised when it is entered. */
  function AfterBlock(block: BasicBlock, s: set<LocalId>): set<LocalId> {
    AfterInstructions(block.instructions, s + ParameterSet(block)) - Returned(block.terminator)
  }

  method ApplyInitializationEffects(block: BasicBlock, entry: set<LocalId>) returns (initialized: set<LocalId>)
    ensures initialized == AfterBlock(block, entry)
    ensures forall x :: block.terminator == Return(Some(Local(x))) ==> x !in initialized
  {
    initialized := entry;
    for k := 0 to |block.parameters|
      invariant initialized == entry + set j | 0 <= j < k :: block.parameters[j]
    {
      initialized := initialized + {block.parameters[k]};
    }
    for k := 0 to |block.instructions|
      invariant initialized == AfterInstructions(block.instructions[..k], entry + ParameterSet(block))
    {
      var inst := block.instructions[k];
      assert block.instructions[..k + 1][..k] == block.instructions[..k];
      initialized := initialized - Killed(inst);
      if Destination(inst).Some? {
        initialized := initialized + {Destination(inst).value};
      }
    }
    assert block.instructions[..|block.instructions|] == block.instructions;
    if block.terminator.Return? && block.terminator.value.Some? && block.terminator.value.value.Local? {
      initialized := initialized - {block.terminator.value.value.id};
    }
  }

  lemma {:induction false} InstructionsPointwise(insts: seq<Instruction>, s: set<LocalId>, s': set<LocalId>, x: LocalId)
    requires x in s ==> x in s'
    ensures x in AfterInstructions(insts, s) ==> x in AfterInstructions(insts, s')
  {
    if insts != [] { InstructionsPointwise(insts[..|insts| - 1], s, s', x); }
  }

  /** Whether a local survives a block depends on that local alone. */
  lemma BlockPointwise(block: BasicBlock, s: set<LocalId>, s': set<LocalId>, x: LocalId)
    requires x in s ==> x in s'
    ensures x in AfterBlock(block, s) ==> x in AfterBlock(block, s')
  {
    InstructionsPointwise(block.instructions, s + ParameterSet(block), s' + ParameterSet(block), x);
  }

  // ----- control-flow paths -----

  type Blocks = map<BlockId, BasicBlock>

  ghost predicate Edge(blocks: Blocks, u: BlockId, v: BlockId) {
    u in blocks && v in blocks && IsSuccessor(blocks[u].terminator, v)
  }

  /** A path from the entry block along control-flow edges. */
  ghost predicate IsPath(blocks: Blocks, p: seq<BlockId>) {
    p != [] && if |p| == 1 then p[0] == ENTRY_BLOCK
    else IsPath(blocks, p[..|p| - 1]) && Edge(blocks, p[|p| - 2], p[|p| - 1])
  }

  ghost predicate PathTo(blocks: Blocks, p: seq<BlockId>, b: BlockId) {
    IsPath(blocks, p) && p[|p| - 1] == b
  }

  ghost predicate Reachable(blocks: Blocks, b: BlockId) {
    exists p :: PathTo(blocks, p, b)
  }

  /** Locals initialised on arrival at the end of a path. */
  ghost function Along(blocks: Blocks, entry: set<LocalId>, p: seq<BlockId>): set<LocalId>
    requires IsPath(blocks, p)
  {
    if |p| == 1 then entry
    else AfterBlock(blocks[p[|p| - 2]], Along(blocks, entry, p[..|p| - 1]))
  }

  ghost predicate InitializedOn(blocks: Blocks, entry: set<LocalId>, p: seq<BlockId>, x: LocalId) {
    IsPath(blocks, p) && x in Along(blocks, entry, p)
  }

  /** Some path to `b` arrives without `x` initialised. */
  ghost predicate Avoidable(blocks: Blocks, entry: set<LocalId>, b: BlockId, x: LocalId) {
    exists p :: PathTo(blocks, p, b) && !InitializedOn(blocks, entry, p, x)
  }

  /** `x` is initialised on arrival at `b` along every path. */
  ghost predicate Always(blocks: Blocks, entry: set<LocalId>, b: BlockId, x: LocalId) {
    forall p :: PathTo(blocks, p, b) ==> InitializedOn(blocks, entry, p, x)
  }

  lemma PathExtend(blocks: Blocks, p: seq<BlockId>, v: BlockId)
    requires IsPath(blocks, p) && Edge(blocks, p[|p| - 1], v)
    ensures PathTo(blocks, p + [v], v)
    ensures forall entry :: Along(blocks, entry, p + [v]) == AfterBlock(blocks[p[|p| - 1]], Along(blocks, entry, p))
  {}

  // ----- the state of the worklist -----

  type Entries = map<BlockId, set<LocalId>>

  /** Every entry set is justified by paths: its block is reachable, and each local it lacks is
      missing on some path. */
  ghost predicate Justified(blocks: Blocks, entry: set<LocalId>, m: Entries) {
    && (forall b :: b in m ==> Reachable(blocks, b))
    && (forall b, x :: b in m && x !in m[b] ==> Avoidable(blocks, entry, b, x))
  }

  /** The entry set of `v` accounts for the edge from `u`. */
  ghost predicate Accounts(blocks: Blocks, m: Entries, u: BlockId, v: BlockId)
    requires u in m && u in blocks
  {
    v in m && m[v] <= AfterBlock(blocks[u], m[u])
  }

  ghost predicate Stable(blocks: Blocks, m: Entries, u: BlockId)
    requires u in m
  {
    u in blocks ==> forall v :: Edge(blocks, u, v) ==> Accounts(blocks, m, u, v)
  }

  ghost predicate WorklistInv(blocks: Blocks, entry: set<LocalId>, m: Entries, pending: seq<BlockId>) {
    && ENTRY_BLOCK in m && m[ENTRY_BLOCK] <= entry
    && m.Keys <= blocks.Keys + {ENTRY_BLOCK}
    && (forall b :: b in pending ==> b in m)
    && Justified(blocks, entry, m)
    && (forall u :: u in m && u !in pending ==> Stable(blocks, m, u))
  }

  lemma WorklistStarts(blocks: Blocks, entry: set<LocalId>)
    ensures WorklistInv(blocks, entry, map[ENTRY_BLOCK := entry], [ENTRY_BLOCK])
  {
    assert PathTo(blocks, [ENTRY_BLOCK], ENTRY_BLOCK);
    forall x | x !in entry ensures Avoidable(blocks, entry, ENTRY_BLOCK, x) {
      assert !InitializedOn(blocks, entry, [ENTRY_BLOCK], x);
    }
  }

  /** What leaves `u` lacks only what some path through `u` lacks. */
  lemma EdgeJustified(blocks: Blocks, entry: set<LocalId>, m: Entries, u: BlockId, v: BlockId, x: LocalId)
    requires Justified(blocks, entry, m) && u in m && Edge(blocks, u, v)
    ensures Reachable(blocks, v)
    ensures x !in AfterBlock(blocks[u], m[u]) ==> Avoidable(blocks, entry, v, x)
  {
    var p :| PathTo(blocks, p, u) && (x !in m[u] ==> !InitializedOn(blocks, entry, p, x));
    PathExtend(blocks, p, v);
    BlockPointwise(blocks[u], Along(blocks, entry, p), m[u], x);
  }

  /** One successor of `u`, given what leaves `u`. */
  function Merge(m: Entries, v: BlockId, outgoing: set<LocalId>): Entries {
    if v in m then m[v := m[v] * outgoing] else m[v := outgoing]
  }

  /** The entry sets only grew keys or shrank, and every changed block is pending. */
  ghost predicate Refined(m: Entries, pending: seq<BlockId>, m': Entries, pending': seq<BlockId>) {
    && m.Keys <= m'.Keys
    && (forall b :: b in m ==> m'[b] <= m[b])
    && (forall b :: b in pending ==> b in pending')
    && (forall b :: b in pending' ==> b in pending || b in m')
    && (forall b :: b in m' ==> (b in m && m'[b] == m[b]) || b in pending')
  }

  lemma MergeRefines(m0: Entries, pending0: seq<BlockId>, m: Entries, pending: seq<BlockId>, v: BlockId, outgoing: set<LocalId>)
    requires Refined(m0, pending0, m, pending)
    ensures var m' := Merge(m, v, outgoing);
      Refined(m0, pending0, m', if v in m && m'[v] == m[v] then pending else pending + [v])
  {}

  lemma MergeJustified(blocks: Blocks, entry: set<LocalId>, m0: Entries, m: Entries, u: BlockId, v: BlockId)
    requires Justified(blocks, entry, m0) && Justified(blocks, entry, m) && u in m0 && Edge(blocks, u, v)
    ensures Justified(blocks, entry, Merge(m, v, AfterBlock(blocks[u], m0[u])))
  {
    var m' := Merge(m, v, AfterBlock(blocks[u], m0[u]));
    EdgeJustified(blocks, entry, m0, u, v, 0);
    forall b, x | b in m' && x !in m'[b] ensures Avoidable(blocks, entry, b, x) {
      if b == v { EdgeJustified(blocks, entry, m0, u, v, x); }
    }
  }

  /** Having merged every successor of `u`, the worklist without `u` is in order again. */
  lemma WorklistStep(blocks: Blocks, entry: set<LocalId>, m: Entries, u: BlockId, rest: seq<BlockId>, m': Entries, pending': seq<BlockId>)
    requires WorklistInv(blocks, entry, m, [u] + rest) && Refined(m, rest, m', pending') && Justified(blocks, entry, m')
    requires m'.Keys <= blocks.Keys + {ENTRY_BLOCK}
    requires u in blocks ==> forall v :: Edge(blocks, u, v) ==> v in m' && m'[v] <= AfterBlock(blocks[u], m[u])
    ensures WorklistInv(blocks, entry, m', pending')
  {}

  // ----- termination -----

  ghost function Missing(blocks: Blocks, m: Entries): set<BlockId> {
    blocks.Keys - m.Keys
  }

  ghost function Pairs(m: Entries): set<(BlockId, LocalId)> {
    set b, x | b in m.Keys && x in m[b] :: (b, x)
  }

  /** The measure went down, or nothing changed at all. */
  ghost predicate Progress(blocks: Blocks, m: Entries, pending: seq<BlockId>, m': Entries, pending': seq<BlockId>) {
    || Missing(blocks, m') < Missing(blocks, m)
    || (Missing(blocks, m') == Missing(blocks, m) && Pairs(m') < Pairs(m))
    || (m' == m && pending' == pending)
  }

  lemma MergeProgress(blocks: Blocks, m0: Entries, pending0: seq<BlockId>, m: Entries, pending: seq<BlockId>, v: BlockId, outgoing: set<LocalId>)
    requires Progress(blocks, m0, pending0, m, pending) && v in blocks
    ensures var m' := Merge(m, v, outgoing);
      Progress(blocks, m0, pending0, m', if v in m && m'[v] == m[v] then pending else pending + [v])
  {
    var m' := Merge(m, v, outgoing);
    if v !in m {
      assert v in Missing(blocks, m) && Missing(blocks, m') == Missing(blocks, m) - {v};
    } else if m'[v] == m[v] {
      assert m' == m;
    } else {
      assert Missing(blocks, m') == Missing(blocks, m);
      var x :| x in m[v] && x !in m'[v];
      assert (v, x) in Pairs(m) && (v, x) !in Pairs(m');
      assert Pairs(m') < Pairs(m);
    }
  }

  // ----- the analysis -----

  /** A block has an entry set exactly if it is reachable, and the set holds exactly the locals
      initialised along every path to the block. */
  ghost predicate MeetOverAllPaths(blocks: Blocks, entry: set<LocalId>, m: Entries) {
    && (forall b :: b in m <==> Reachable(blocks, b))
    && (forall b, x :: b in m ==> (x in m[b] <==> Always(blocks, entry, b, x)))
  }

  lemma {:induction false} StableBounds(blocks: Blocks, entry: set<LocalId>, m: Entries, p: seq<BlockId>)
    requires WorklistInv(blocks, entry, m, []) && IsPath(blocks, p)
    ensures p[|p| - 1] in m && m[p[|p| - 1]] <= Along(blocks, entry, p)
  {
    if |p| > 1 {
      var u, v, q := p[|p| - 2], p[|p| - 1], p[..|p| - 1];
      StableBounds(blocks, entry, m, q);
      assert Stable(blocks, m, u) && Accounts(blocks, m, u, v);
      forall x | x in m[v] ensures x in AfterBlock(blocks[u], Along(blocks, entry, q)) {
        BlockPointwise(blocks[u], m[u], Along(blocks, entry, q), x);
      }
    }
  }

  lemma FixpointIsMeet(blocks: Blocks, entry: set<LocalId>, m: Entries)
    requires WorklistInv(blocks, entry, m, [])
    ensures MeetOverAllPaths(blocks, entry, m)
  {
    forall b | Reachable(blocks, b) ensures b in m {
      var p :| PathTo(blocks, p, b);
      StableBounds(blocks, entry, m, p);
    }
    forall b, x | b in m ensures x in m[b] <==> Always(blocks, entry, b, x) {
      if x in m[b] {
        forall p | PathTo(blocks, p, b) ensures InitializedOn(blocks, entry, p, x) {
          StableBounds(blocks, entry, m, p);
        }
      } else {
        assert Avoidable(blocks, entry, b, x);
      }
    }
  }

  /** The worklist terminates and computes the meet over all paths. */
  method InitializedAtBlockEntries(blocks: Blocks, entry: set<LocalId>) returns (initialized: Entries)
    ensures MeetOverAllPaths(blocks, entry, initialized)
  {
    hide WorklistInv, Refined, Progress, Justified, AfterBlock, Merge, Missing, Pairs, Edge, IsSuccessor;
    initialized := map[ENTRY_BLOCK := entry];
    var pending := [ENTRY_BLOCK];
    WorklistStarts(blocks, entry);
    while pending != []
      invariant WorklistInv(blocks, entry, initialized, pending)
      decreases Missing(blocks, initialized), Pairs(initialized), |pending|
    {
      var u, rest := pending[0], pending[1..];
      ghost var m := initialized;
      assert pending == [u] + rest;
      PendingKnown(blocks, entry, m, u, rest);
      pending := rest;
      if u in blocks {
        var outgoing := ApplyInitializationEffects(blocks[u], initialized[u]);
        initialized, pending := MergeSuccessors(blocks, entry, u, initialized, pending, outgoing);
      } else {
        NothingMerged(blocks, entry, m, u, rest);
      }
      WorklistStep(blocks, entry, m, u, rest, initialized, pending);
      ProgressDecreases(blocks, m, rest, initialized, pending);
    }
    FixpointIsMeet(blocks, entry, initialized);
  }

  method MergeSuccessors(blocks: Blocks, ghost entry: set<LocalId>, u: BlockId, m: Entries, rest: seq<BlockId>, outgoing: set<LocalId>)
    returns (initialized: Entries, pending: seq<BlockId>)
    requires u in blocks && u in m && outgoing == AfterBlock(blocks[u], m[u])
    requires Justified(blocks, entry, m) && m.Keys <= blocks.Keys + {ENTRY_BLOCK}
    ensures Refined(m, rest, initialized, pending) && Progress(blocks, m, rest, initialized, pending)
    ensures Justified(blocks, entry, initialized) && initialized.Keys <= blocks.Keys + {ENTRY_BLOCK}
    ensures forall v :: Edge(blocks, u, v) ==> v in initialized && initialized[v] <= outgoing
  {
    hide Refined, Progress, Justified, AfterBlock;
    initialized, pending := m, rest;
    RefinedSelf(m, rest);
    ProgressSelf(blocks, m, rest);
    var successors := SuccessorBlocks(blocks[u].terminator);
    for j := 0 to |successors|
      invariant Refined(m, rest, initialized, pending) && Progress(blocks, m, rest, initialized, pending)
      invariant Justified(blocks, entry, initialized) && initialized.Keys <= blocks.Keys + {ENTRY_BLOCK}
      invariant forall i :: 0 <= i < j && successors[i].0 in blocks ==>
        successors[i].0 in initialized && initialized[successors[i].0] <= outgoing
    {
      var v := successors[j].0;
      if v in blocks {
        ghost var before, queue := initialized, pending;
        MergeRefines(m, rest, before, queue, v, outgoing);
        MergeProgress(blocks, m, rest, before, queue, v, outgoing);
        MergeJustified(blocks, entry, m, before, u, v);
        var changed;
        if v in initialized {
          var merged := initialized[v] * outgoing;
          changed := merged != initialized[v];
          if changed {
            initialized := initialized[v := merged];
          }
        } else {
          initialized := initialized[v := outgoing];
          changed := true;
        }
        assert initialized == Merge(before, v, outgoing);
        if changed {
          pending := pending + [v];
        }
      }
    }
    forall v | Edge(blocks, u, v) ensures v in initialized && initialized[v] <= outgoing {
      var i := SuccessorIndex(blocks[u].terminator, v);
      assert successors[i].0 == v;
    }
  }

  lemma SuccessorIndex(t: Terminator, v: BlockId) returns (i: nat)
    requires IsSuccessor(t, v)
    ensures i < |SuccessorBlocks(t)| && SuccessorBlocks(t)[i].0 == v
  {
    i := if t.Branch? && v != t.trueBlock then 1 else 0;
  }

  lemma RefinedSelf(m: Entries, pending: seq<BlockId>)
    ensures Refined(m, pending, m, pending)
  {}

  lemma ProgressSelf(blocks: Blocks, m: Entries, pending: seq<BlockId>)
    ensures Progress(blocks, m, pending, m, pending)
  {}

  lemma PendingKnown(blocks: Blocks, entry: set<LocalId>, m: Entries, u: BlockId, rest: seq<BlockId>)
    requires WorklistInv(blocks, entry, m, [u] + rest)
    ensures u in m && Justified(blocks, entry, m) && m.Keys <= blocks.Keys + {ENTRY_BLOCK}
  {}

  lemma NothingMerged(blocks: Blocks, entry: set<LocalId>, m: Entries, u: BlockId, rest: seq<BlockId>)
    ensures Refined(m, rest, m, rest) && Progress(blocks, m, rest, m, rest)
  {}

  lemma ProgressDecreases(blocks: Blocks, m: Entries, rest: seq<BlockId>, m': Entries, pending': seq<BlockId>)
    requires Progress(blocks, m, rest, m', pending')
    ensures || Missing(blocks, m') < Missing(blocks, m)
            || (Missing(blocks, m') == Missing(blocks, m) && Pairs(m') < Pairs(m))
            || (Missing(blocks, m') == Missing(blocks, m) && Pairs(m') == Pairs(m) && |pending'| == |rest|)
  {}
}
