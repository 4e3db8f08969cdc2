/** The MIR validator: when it accepts a function, and what acceptance means on every path. */
module MirValidator {
  import opened Machine
  import opened Mir
  import opened InitFlow

  datatype ValidationError =
    | DuplicateBlock(id: BlockId)
    | MissingEntry
    | UndeclaredTarget(from: BlockId, target: BlockId)
    | SsaViolation(redefined: LocalId)
    | ArgumentMismatch(from: BlockId)
    | UndeclaredDestination(destination: LocalId)
    | UndeclaredDrop(dropped: LocalId)
    | UndeclaredUse(used: LocalId)
    | UninitializedUse(used: LocalId)

  // ----- what the validator accepts, stated declaratively -----

  ghost predicate UniqueIds(blocks: seq<BasicBlock>) {
    forall i, j :: 0 <= i < j < |blocks| ==> blocks[i].id != blocks[j].id
  }

  /** Blocks by id; a later block replaces an earlier one with the same id. */
  function BlockMap(blocks: seq<BasicBlock>): Blocks {
    if blocks == [] then map[]
    else BlockMap(blocks[..|blocks| - 1])[blocks[|blocks| - 1].id := blocks[|blocks| - 1]]
  }

  ghost predicate TargetsDeclared(block: BasicBlock, ids: set<BlockId>) {
    forall i :: 0 <= i < |SuccessorBlocks(block.terminator)| ==> SuccessorBlocks(block.terminator)[i].0 in ids
  }

  /** Every argument list has the length of its target's parameter list. */
  ghost predicate ArgumentsMatch(block: BasicBlock, blocks: Blocks) {
    forall i :: 0 <= i < |SuccessorBlocks(block.terminator)| ==>
      var (target, args) := SuccessorBlocks(block.terminator)[i];
      target in blocks ==> |args| == |blocks[target].parameters|
  }

  function Destinations(insts: seq<Instruction>): seq<LocalId> {
    if insts == [] then []
    else
      var last := Destination(insts[|insts| - 1]);
      Destinations(insts[..|insts| - 1]) + if last.Some? then [last.value] else []
  }

  /** Locals a block defines: its parameters, then its destinations. */
  function BlockDefinitions(block: BasicBlock): seq<LocalId> {
    block.parameters + Destinations(block.instructions)
  }

  function Definitions(blocks: seq<BasicBlock>): seq<LocalId> {
    if blocks == [] then [] else Definitions(blocks[..|blocks| - 1]) + BlockDefinitions(blocks[|blocks| - 1])
  }

  function ParameterIds(n: nat): seq<LocalId> {
    seq(n, k => k)
  }

  function EntrySet(f: MirFunction): set<LocalId> {
    set l | l in ParameterIds(f.parameterCount)
  }

  function AfterCheck(inst: Instruction, s: set<LocalId>): set<LocalId> {
    s - (if inst.Drop? then {inst.dropped} else {}) + Assigned(inst)
  }

  /** The set the in-block check holds before instruction `k`: drops leave it, moves do not. */
  function InBlock(insts: seq<Instruction>, s: set<LocalId>): set<LocalId> {
    if insts == [] then s
    else
      AfterCheck(insts[|insts| - 1], InBlock(insts[..|insts| - 1], s))
  }

  ghost predicate OperandOk(op: Operand, locals: seq<LocalId>, s: set<LocalId>) {
    op.Local? ==> op.id in locals && op.id in s
  }

  ghost predicate OperandsOk(ops: seq<Operand>, locals: seq<LocalId>, s: set<LocalId>) {
    forall k :: 0 <= k < |ops| ==> OperandOk(ops[k], locals, s)
  }

  ghost predicate InstructionOk(inst: Instruction, locals: seq<LocalId>, s: set<LocalId>) {
    && OperandsOk(InstructionOperands(inst), locals, s)
    && (Destination(inst).Some? ==> Destination(inst).value in locals)
    && (inst.Drop? ==> inst.dropped in locals)
  }

  ghost predicate BlockOk(block: BasicBlock, locals: seq<LocalId>, s: set<LocalId>) {
    && (forall k :: 0 <= k < |block.instructions| ==>
          InstructionOk(block.instructions[k], locals, InBlock(block.instructions[..k], s)))
    && OperandsOk(TerminatorOperands(block.terminator), locals, InBlock(block.instructions, s))
  }

  /** Blocks no path reaches are checked with every declared local taken as initialised. */
  function CheckedEntry(f: MirFunction, initialized: Entries, block: BasicBlock): set<LocalId> {
    (if block.id in initialized then initialized[block.id] else set l | l in f.locals) + ParameterSet(block)
  }

  ghost predicate Structured(f: MirFunction) {
    && UniqueIds(f.blocks)
    && ENTRY_BLOCK in BlockMap(f.blocks)
    && (forall i :: 0 <= i < |f.blocks| ==> TargetsDeclared(f.blocks[i], BlockMap(f.blocks).Keys))
    && Distinct(ParameterIds(f.parameterCount) + Definitions(f.blocks))
    && (forall i :: 0 <= i < |f.blocks| ==> ArgumentsMatch(f.blocks[i], BlockMap(f.blocks)))
  }

  ghost predicate Accepted(f: MirFunction, initialized: Entries) {
    && Structured(f)
    && MeetOverAllPaths(BlockMap(f.blocks), EntrySet(f), initialized)
    && forall i :: 0 <= i < |f.blocks| ==> BlockOk(f.blocks[i], f.locals, CheckedEntry(f, initialized, f.blocks[i]))
  }

  // ----- the checks -----

  method ValidateOperand(op: Operand, locals: seq<LocalId>, s: set<LocalId>) returns (errors: seq<ValidationError>)
    ensures errors == [] <==> OperandOk(op, locals, s)
    ensures forall e :: e in errors <==> op.Local? && ((e == UndeclaredUse(op.id) && op.id !in locals) || (e == UninitializedUse(op.id) && op.id !in s))
  {
    errors := [];
    if op.Local? {
      if op.id !in locals {
        errors := errors + [UndeclaredUse(op.id)];
      }
      if op.id !in s {
        errors := errors + [UninitializedUse(op.id)];
      }
    }
  }

  method ValidateOperands(ops: seq<Operand>, locals: seq<LocalId>, s: set<LocalId>) returns (errors: seq<ValidationError>)
    ensures errors == [] <==> OperandsOk(ops, locals, s)
  {
    errors := [];
    for k := 0 to |ops|
      invariant errors == [] <==> forall j :: 0 <= j < k ==> OperandOk(ops[j], locals, s)
    {
      var more := ValidateOperand(ops[k], locals, s);
      errors := errors + more;
    }
  }

  /** One instruction: the operands are read before the destination is defined. */
  method ValidateInstruction(inst: Instruction, locals: seq<LocalId>, s: set<LocalId>)
    returns (errors: seq<ValidationError>, s': set<LocalId>)
    ensures errors == [] <==> InstructionOk(inst, locals, s)
    ensures s' == AfterCheck(inst, s)
  {
    hide OperandsOk, InstructionOperands;
    s' := s;
    errors := ValidateOperands(InstructionOperands(inst), locals, s);
    if inst.Drop? {
      if inst.dropped !in locals {
        errors := errors + [UndeclaredDrop(inst.dropped)];
      }
      s' := s' - {inst.dropped};
    }
    var dest := Destination(inst);
    if dest.Some? {
      if dest.value !in locals {
        errors := errors + [UndeclaredDestination(dest.value)];
      }
      s' := s' + {dest.value};
    }
  }

  method ValidateBasicBlock(block: BasicBlock, locals: seq<LocalId>, entry: set<LocalId>) returns (errors: seq<ValidationError>)
    ensures errors == [] <==> BlockOk(block, locals, entry)
  {
    hide OperandsOk, InstructionOperands, TerminatorOperands, InstructionOk, AfterCheck, InBlock;
    errors := [];
    var s := entry;
    assert InBlock(block.instructions[..0], entry) == entry by { InBlockNothing(block.instructions, entry); }
    for k := 0 to |block.instructions|
      invariant s == InBlock(block.instructions[..k], entry)
      invariant errors == [] <==> forall j :: 0 <= j < k ==> InstructionOk(block.instructions[j], locals, InBlock(block.instructions[..j], entry))
    {
      InBlockStep(block.instructions, k, entry);
      var more;
      more, s := ValidateInstruction(block.instructions[k], locals, s);
      errors := errors + more;
    }
    assert block.instructions[..|block.instructions|] == block.instructions;
    var last := ValidateOperands(TerminatorOperands(block.terminator), locals, s);
    errors := errors + last;
  }

  lemma InBlockNothing(insts: seq<Instruction>, s: set<LocalId>)
    ensures InBlock(insts[..0], s) == s
  {}

  lemma InBlockStep(insts: seq<Instruction>, k: nat, s: set<LocalId>)
    requires k < |insts|
    ensures InBlock(insts[..k + 1], s) == AfterCheck(insts[k], InBlock(insts[..k], s))
  {
    assert insts[..k + 1][..k] == insts[..k];
  }

  method CollectBlocks(blocks: seq<BasicBlock>) returns (byId: Blocks, errors: seq<ValidationError>)
    ensures byId == BlockMap(blocks)
    ensures errors == [] <==> UniqueIds(blocks)
  {
    byId, errors := map[], [];
    for k := 0 to |blocks|
      invariant byId == BlockMap(blocks[..k])
      invariant errors == [] <==> UniqueIds(blocks[..k])
    {
      BlockMapKeys(blocks[..k]);
      assert blocks[..k + 1][..k] == blocks[..k];
      if blocks[k].id in byId {
        errors := errors + [DuplicateBlock(blocks[k].id)];
        var j :| 0 <= j < k && blocks[..k][j].id == blocks[k].id;
        assert blocks[..k + 1][j].id == blocks[..k + 1][k].id;
      } else {
        UniqueExtend(blocks, k);
      }
      byId := byId[blocks[k].id := blocks[k]];
    }
    assert blocks[..|blocks|] == blocks;
  }

  lemma UniqueExtend(blocks: seq<BasicBlock>, k: nat)
    requires k < |blocks| && forall j :: 0 <= j < k ==> blocks[j].id != blocks[k].id
    ensures UniqueIds(blocks[..k + 1]) <==> UniqueIds(blocks[..k])
  {}

  lemma {:induction false} BlockMapKeys(blocks: seq<BasicBlock>)
    ensures forall b :: b in BlockMap(blocks) <==> exists i :: 0 <= i < |blocks| && blocks[i].id == b
  {
    if blocks != [] {
      var n := |blocks| - 1;
      var init := blocks[..n];
      BlockMapKeys(init);
      forall b ensures b in BlockMap(blocks) <==> exists i :: 0 <= i < |blocks| && blocks[i].id == b {
        if i :| 0 <= i < |blocks| && blocks[i].id == b {
          if i < n { assert init[i].id == b; }
        } else {
          assert blocks[n].id != b;
          forall i | 0 <= i < n ensures init[i].id != b { assert blocks[i].id != b; }
        }
      }
    }
  }

  /** With unique ids, looking a block up by its id finds that block. */
  lemma {:induction false} BlockMapFinds(blocks: seq<BasicBlock>, i: nat)
    requires UniqueIds(blocks) && i < |blocks|
    ensures blocks[i].id in BlockMap(blocks) && BlockMap(blocks)[blocks[i].id] == blocks[i]
  {
    var n := |blocks| - 1;
    if i < n {
      BlockMapFinds(blocks[..n], i);
    }
  }

  method CheckTargets(blocks: seq<BasicBlock>, byId: Blocks) returns (errors: seq<ValidationError>)
    ensures errors == [] <==> forall i :: 0 <= i < |blocks| ==> TargetsDeclared(blocks[i], byId.Keys)
  {
    errors := [];
    for k := 0 to |blocks|
      invariant errors == [] <==> forall i :: 0 <= i < k ==> TargetsDeclared(blocks[i], byId.Keys)
    {
      var successors := SuccessorBlocks(blocks[k].terminator);
      var more := [];
      for j := 0 to |successors|
        invariant more == [] <==> forall i :: 0 <= i < j ==> successors[i].0 in byId.Keys
      {
        if successors[j].0 !in byId {
          more := more + [UndeclaredTarget(blocks[k].id, successors[j].0)];
        }
      }
      errors := errors + more;
    }
  }

  /** Adds one definition to those seen. */
  lemma DistinctExtend(seen: seq<LocalId>, l: LocalId)
    ensures Distinct(seen + [l]) <==> Distinct(seen) && l !in seen
  {
    var s := seen + [l];
    if l in seen {
      var i :| 0 <= i < |seen| && seen[i] == l;
      assert s[i] == s[|seen|];
    }
    if Distinct(s) {
      forall i, j | 0 <= i < j < |seen| ensures seen[i] != seen[j] { assert s[i] != s[j]; }
    }
  }

  /** Records the definitions in `defs`, reporting each that was seen before. */
  method AddDefinitions(seen: set<LocalId>, ghost prior: seq<LocalId>, defs: seq<LocalId>) returns (defined: set<LocalId>, errors: seq<ValidationError>)
    requires forall l :: l in seen <==> l in prior
    ensures forall l :: l in defined <==> l in prior + defs
    ensures errors == [] && Distinct(prior) <==> Distinct(prior + defs)
  {
    defined, errors := seen, [];
    assert prior + defs[..0] == prior;
    for k := 0 to |defs|
      invariant forall l :: l in defined <==> l in prior + defs[..k]
      invariant errors == [] && Distinct(prior) <==> Distinct(prior + defs[..k])
    {
      assert prior + defs[..k + 1] == (prior + defs[..k]) + [defs[k]];
      DistinctExtend(prior + defs[..k], defs[k]);
      if defs[k] in defined {
        errors := errors + [SsaViolation(defs[k])];
      }
      defined := defined + {defs[k]};
    }
    assert defs[..|defs|] == defs;
  }

  lemma ParameterIdsDistinct(n: nat)
    ensures Distinct(ParameterIds(n))
  {}

  // ----- single assignment -----

  /** How often a block assigns a local: as a parameter, or as the destination of an instruction. */
  ghost function BlockAssigns(block: BasicBlock, x: LocalId): nat {
    |set k | 0 <= k < |block.parameters| && block.parameters[k] == x| + InstructionsAssign(block.instructions, x)
  }

  ghost function InstructionsAssign(insts: seq<Instruction>, x: LocalId): nat {
    if insts == [] then 0 else InstructionsAssign(insts[..|insts| - 1], x) + if Destination(insts[|insts| - 1]) == Some(x) then 1 else 0
  }

  ghost function Assigns(blocks: seq<BasicBlock>, x: LocalId): nat {
    if blocks == [] then 0 else Assigns(blocks[..|blocks| - 1], x) + BlockAssigns(blocks[|blocks| - 1], x)
  }

  lemma {:induction false} CountedByPositions(s: seq<LocalId>, x: LocalId)
    ensures multiset(s)[x] == |set k | 0 <= k < |s| && s[k] == x|
  {
    if s != [] {
      var n := |s| - 1;
      var front := s[..n];
      CountedByPositions(front, x);
      assert s == front + [s[n]];
      var all, before := set k | 0 <= k < |s| && s[k] == x, set k | 0 <= k < n && front[k] == x;
      assert forall k :: k in all <==> k in before || (k == n && s[n] == x);
      if s[n] == x { assert all == before + {n}; } else { assert all == before; }
    }
  }

  lemma {:induction false} DestinationsCounted(insts: seq<Instruction>, x: LocalId)
    ensures multiset(Destinations(insts))[x] == InstructionsAssign(insts, x)
  {
    if insts != [] { DestinationsCounted(insts[..|insts| - 1], x); }
  }

  lemma {:induction false} DefinitionsCounted(blocks: seq<BasicBlock>, x: LocalId)
    ensures multiset(Definitions(blocks))[x] == Assigns(blocks, x)
  {
    if blocks != [] {
      var block := blocks[|blocks| - 1];
      DefinitionsCounted(blocks[..|blocks| - 1], x);
      CountedByPositions(block.parameters, x);
      DestinationsCounted(block.instructions, x);
    }
  }

  ghost function Times(s: seq<LocalId>, x: LocalId): nat {
    multiset(s)[x]
  }

  lemma DistinctIffCounted(s: seq<LocalId>)
    ensures Distinct(s) <==> forall x: LocalId :: Times(s, x) <= 1
  {
    if Distinct(s) {
      forall x: LocalId ensures Times(s, x) <= 1 { OnceCounted(s, x); }
    } else {
      var i, j :| 0 <= i < j < |s| && s[i] == s[j];
      assert s == s[..i] + [s[i]] + s[i + 1..j] + [s[j]] + s[j + 1..];
      assert Times(s, s[i]) >= 2;
    }
  }

  lemma {:induction false} OnceCounted(s: seq<LocalId>, x: LocalId)
    requires Distinct(s)
    ensures multiset(s)[x] <= 1
  {
    if s != [] {
      var n := |s| - 1;
      assert s == s[..n] + [s[n]];
      OnceCounted(s[..n], x);
      if s[n] == x { assert x !in s[..n]; }
    }
  }

  /** How often the function assigns a local, its own parameters included. */
  ghost function TimesAssigned(f: MirFunction, x: LocalId): nat {
    (if x < f.parameterCount then 1 else 0) + Assigns(f.blocks, x)
  }

  lemma TimesCounted(f: MirFunction, x: LocalId)
    ensures Times(ParameterIds(f.parameterCount) + Definitions(f.blocks), x) == TimesAssigned(f, x)
  {
    var parameters := ParameterIds(f.parameterCount);
    DefinitionsCounted(f.blocks, x);
    ParameterIdsDistinct(f.parameterCount);
    OnceCounted(parameters, x);
    if x < f.parameterCount { assert parameters[x] == x; }
  }

  /** The definitions are all different exactly if no local is assigned twice. */
  lemma SingleAssignmentIff(f: MirFunction)
    ensures Distinct(ParameterIds(f.parameterCount) + Definitions(f.blocks)) <==> forall x: LocalId :: TimesAssigned(f, x) <= 1
  {
    hide TimesAssigned, Distinct;
    DistinctIffCounted(ParameterIds(f.parameterCount) + Definitions(f.blocks));
    forall x: LocalId ensures Times(ParameterIds(f.parameterCount) + Definitions(f.blocks), x) == TimesAssigned(f, x) { TimesCounted(f, x); }
  }

  method CheckArguments(block: BasicBlock, byId: Blocks) returns (errors: seq<ValidationError>)
    ensures errors == [] <==> ArgumentsMatch(block, byId)
  {
    errors := [];
    var successors := SuccessorBlocks(block.terminator);
    for j := 0 to |successors|
      invariant errors == [] <==> forall i :: 0 <= i < j ==>
        var (target, args) := successors[i]; target in byId ==> |args| == |byId[target].parameters|
    {
      var (target, args) := successors[j];
      if target in byId && |args| != |byId[target].parameters| {
        errors := errors + [ArgumentMismatch(block.id)];
      }
    }
  }

  /** Single assignment across the whole function, and argument counts. */
  method CheckAssignments(f: MirFunction, byId: Blocks) returns (errors: seq<ValidationError>)
    ensures errors == [] <==>
      && Distinct(ParameterIds(f.parameterCount) + Definitions(f.blocks))
      && forall i :: 0 <= i < |f.blocks| ==> ArgumentsMatch(f.blocks[i], byId)
  {
    hide Distinct, ArgumentsMatch, BlockDefinitions;
    errors := [];
    var parameters := ParameterIds(f.parameterCount);
    var defined := set k | 0 <= k < |parameters| :: parameters[k];
    ParameterIdsDistinct(f.parameterCount);
    assert parameters + Definitions(f.blocks[..0]) == parameters;
    for k := 0 to |f.blocks|
      invariant forall l :: l in defined <==> l in parameters + Definitions(f.blocks[..k])
      invariant errors == [] <==>
        && Distinct(parameters + Definitions(f.blocks[..k]))
        && forall i :: 0 <= i < k ==> ArgumentsMatch(f.blocks[i], byId)
    {
      assert f.blocks[..k + 1][..k] == f.blocks[..k];
      ghost var prior := parameters + Definitions(f.blocks[..k]);
      assert parameters + Definitions(f.blocks[..k + 1]) == prior + BlockDefinitions(f.blocks[k]);
      var duplicates;
      defined, duplicates := AddDefinitions(defined, prior, BlockDefinitions(f.blocks[k]));
      var mismatches := CheckArguments(f.blocks[k], byId);
      errors := errors + duplicates + mismatches;
    }
    assert f.blocks[..|f.blocks|] == f.blocks;
  }

  method CheckBlocks(f: MirFunction, initialized: Entries) returns (errors: seq<ValidationError>)
    ensures errors == [] <==> forall i :: 0 <= i < |f.blocks| ==> BlockOk(f.blocks[i], f.locals, CheckedEntry(f, initialized, f.blocks[i]))
  {
    hide BlockOk;
    errors := [];
    for k := 0 to |f.blocks|
      invariant errors == [] <==> forall i :: 0 <= i < k ==> BlockOk(f.blocks[i], f.locals, CheckedEntry(f, initialized, f.blocks[i]))
    {
      var more := ValidateBasicBlock(f.blocks[k], f.locals, CheckedEntry(f, initialized, f.blocks[k]));
      errors := errors + more;
    }
  }

  /** Accepts exactly the functions that are well formed and sound: each local is assigned once,
      argument counts match, and every checked operand is ready on every path to it. */
  method ValidateFunction(f: MirFunction) returns (result: Result<(), seq<ValidationError>>)
    ensures result.Ok? <==> Structured(f) && Sound(f)
    ensures result.Ok? <==> exists initialized :: Accepted(f, initialized)
    ensures result.Err? ==> result.error != []
  {
    hide BlockOk, MeetOverAllPaths, Distinct, ArgumentsMatch, TargetsDeclared, UniqueIds, CheckedEntry, BlockMap, Sound;
    var byId, errors := CollectBlocks(f.blocks);
    if ENTRY_BLOCK !in byId {
      errors := errors + [MissingEntry];
      return Err(errors);
    }
    var targets := CheckTargets(f.blocks, byId);
    var assignments := CheckAssignments(f, byId);
    var initialized := InitializedAtBlockEntries(byId, EntrySet(f));
    var blocks := CheckBlocks(f, initialized);
    errors := errors + targets + assignments + blocks;
    assert errors == [] <==> Accepted(f, initialized);
    if Structured(f) {
      AcceptedIffSound(f, initialized);
    }
    if errors == [] {
      return Ok(());
    }
    forall m | Accepted(f, m) ensures false {
      MeetIsUnique(byId, EntrySet(f), initialized, m);
    }
    return Err(errors);
  }

  lemma MeetIsUnique(blocks: Blocks, entry: set<LocalId>, m: Entries, m': Entries)
    requires MeetOverAllPaths(blocks, entry, m) && MeetOverAllPaths(blocks, entry, m')
    ensures m == m'
  {
    assert m.Keys == m'.Keys by {
      forall b ensures b in m <==> b in m' { assert b in m <==> Reachable(blocks, b); }
    }
    forall b | b in m ensures m[b] == m'[b] {
      forall x ensures x in m[b] <==> x in m'[b] {
        assert x in m[b] <==> Always(blocks, entry, b, x);
      }
    }
  }

  // ----- what acceptance means along every path -----

  /** What happens on a run: the function starts, enters blocks, executes instructions. */
  datatype Event = Started(count: nat) | Entered(parameters: seq<LocalId>) | Executed(inst: Instruction)

  ghost predicate Defines(e: Event, x: LocalId) {
    match e
    case Started(count) => x in ParameterIds(count)
    case Entered(parameters) => x in parameters
    case Executed(inst) => Destination(inst) == Some(x)
  }

  ghost predicate Drops(e: Event, x: LocalId) {
    e == Executed(Drop(x))
  }

  /** Moved out of, or dropped. */
  ghost predicate Kills(e: Event, x: LocalId) {
    e.Executed? && x in Killed(e.inst)
  }

  ghost function InstructionTrace(insts: seq<Instruction>): seq<Event> {
    if insts == [] then []
    else InstructionTrace(insts[..|insts| - 1]) + [Executed(insts[|insts| - 1])]
  }

  ghost function BlockTrace(block: BasicBlock, k: nat): seq<Event>
    requires k <= |block.instructions|
  {
    [Entered(block.parameters)] + InstructionTrace(block.instructions[..k])
  }

  /** Everything that happens on a path before its last block is entered. */
  ghost function TraceTo(f: MirFunction, blocks: Blocks, p: seq<BlockId>): seq<Event>
    requires IsPath(blocks, p)
  {
    if |p| == 1 then [Started(f.parameterCount)]
    else
      var block := blocks[p[|p| - 2]];
      TraceTo(f, blocks, p[..|p| - 1]) + BlockTrace(block, |block.instructions|)
  }

  /** `x` was defined and never dropped since, nor moved out of before position `start`. */
  ghost predicate Ready(trace: seq<Event>, start: nat, x: LocalId) {
    exists i :: 0 <= i < |trace| && Defines(trace[i], x) &&
      forall j :: i < j < |trace| ==> !Drops(trace[j], x) && (j < start ==> !Kills(trace[j], x))
  }

  /** Operands read at position `k` of a block; the terminator's come after the last instruction. */
  function OperandsAt(block: BasicBlock, k: nat): seq<Operand>
    requires k <= |block.instructions|
  {
    if k < |block.instructions| then InstructionOperands(block.instructions[k]) else TerminatorOperands(block.terminator)
  }

  /** A run along `p` comes to position `k` of the last block of `p`. */
  ghost predicate Reaches(blocks: Blocks, p: seq<BlockId>, k: nat) {
    IsPath(blocks, p) && p[|p| - 1] in blocks && k <= |blocks[p[|p| - 1]].instructions|
  }

  /** A run along `p` reads `op` at position `k` of the last block of `p`. */
  ghost predicate ReadsAt(blocks: Blocks, p: seq<BlockId>, k: nat, op: Operand) {
    Reaches(blocks, p, k) && op in OperandsAt(blocks[p[|p| - 1]], k)
  }

  /** At position `k` of the last block, `op` is declared, was defined on the path, and has not been
      dropped since or moved out of by an earlier block. */
  ghost predicate ReadyAt(f: MirFunction, blocks: Blocks, p: seq<BlockId>, k: nat, op: Operand)
    requires Reaches(blocks, p, k)
  {
    var before := TraceTo(f, blocks, p);
    op.Local? ==>
      op.id in f.locals && Ready(before + BlockTrace(blocks[p[|p| - 1]], k), |before|, op.id)
  }

  /** On every path from the entry block, every checked operand is ready. */
  ghost predicate SafeOnEveryPath(f: MirFunction) {
    var blocks := BlockMap(f.blocks);
    forall p, k: nat, op :: ReadsAt(blocks, p, k, op) ==> ReadyAt(f, blocks, p, k, op)
  }

  lemma ReadyAppend(trace: seq<Event>, start: nat, start': nat, e: Event, x: LocalId)
    requires start <= |trace| && (start' == start || (start == |trace| && start' == start + 1))
    ensures Ready(trace + [e], start', x) <==>
      Defines(e, x) || (Ready(trace, start, x) && !Drops(e, x) && (start' > |trace| ==> !Kills(e, x)))
  {
    hide Defines, Drops, Kills;
    var t := trace + [e];
    assert t[|trace|] == e;
    if Ready(trace, start, x) && !Drops(e, x) && (start' > |trace| ==> !Kills(e, x)) {
      var i :| 0 <= i < |trace| && Defines(trace[i], x) &&
        forall j :: i < j < |trace| ==> !Drops(trace[j], x) && (j < start ==> !Kills(trace[j], x));
      assert t[i] == trace[i];
      forall j | i < j < |t| ensures !Drops(t[j], x) && (j < start' ==> !Kills(t[j], x)) {
        if j < |trace| { assert t[j] == trace[j]; }
      }
    }
    if Ready(t, start', x) && !Defines(e, x) {
      var i :| 0 <= i < |t| && Defines(t[i], x) && forall j :: i < j < |t| ==> !Drops(t[j], x) && (j < start' ==> !Kills(t[j], x));
      assert t[i] == trace[i];
      forall j | i < j < |trace| ensures !Drops(trace[j], x) && (j < start ==> !Kills(trace[j], x)) {
        assert t[j] == trace[j];
      }
    }
  }

  lemma TraceStep(block: BasicBlock, k: nat)
    requires k < |block.instructions|
    ensures BlockTrace(block, k + 1) == BlockTrace(block, k) + [Executed(block.instructions[k])]
  {
    assert block.instructions[..k + 1][..k] == block.instructions[..k];
  }

  /** The dataflow set after `k` instructions holds exactly the locals the run has defined and kept. */
  lemma {:induction false} FlowIsReady(before: seq<Event>, block: BasicBlock, k: nat, s: set<LocalId>, x: LocalId)
    requires k <= |block.instructions|
    requires x in s <==> Ready(before, |before|, x)
    ensures var t := before + BlockTrace(block, k);
      x in AfterInstructions(block.instructions[..k], s + ParameterSet(block)) <==> Ready(t, |t|, x)
  {
    hide Ready;
    if k == 0 {
      assert BlockTrace(block, 0) == [Entered(block.parameters)];
      ReadyAppend(before, |before|, |before| + 1, Entered(block.parameters), x);
    } else {
      var inst := block.instructions[k - 1];
      assert block.instructions[..k][..k - 1] == block.instructions[..k - 1];
      TraceStep(block, k - 1);
      var t := before + BlockTrace(block, k - 1);
      assert before + BlockTrace(block, k) == t + [Executed(inst)];
      FlowIsReady(before, block, k - 1, s, x);
      ReadyAppend(t, |t|, |t| + 1, Executed(inst), x);
    }
  }

  /** The set the in-block check holds, likewise, except that moves inside the block pass. */
  lemma {:induction false} CheckIsReady(before: seq<Event>, block: BasicBlock, k: nat, s: set<LocalId>, x: LocalId)
    requires k <= |block.instructions|
    requires x in s <==> Ready(before, |before|, x)
    ensures x in InBlock(block.instructions[..k], s + ParameterSet(block)) <==> Ready(before + BlockTrace(block, k), |before|, x)
  {
    hide Ready;
    if k == 0 {
      assert BlockTrace(block, 0) == [Entered(block.parameters)];
      ReadyAppend(before, |before|, |before|, Entered(block.parameters), x);
    } else {
      var inst := block.instructions[k - 1];
      InBlockStep(block.instructions, k - 1, s + ParameterSet(block));
      TraceStep(block, k - 1);
      var t := before + BlockTrace(block, k - 1);
      assert before + BlockTrace(block, k) == t + [Executed(inst)];
      CheckIsReady(before, block, k - 1, s, x);
      ReadyAppend(t, |before|, |before|, Executed(inst), x);
    }
  }

  /** The locals initialised along a path are exactly those its run has defined and kept. */
  lemma {:induction false} AlongIsReady(f: MirFunction, blocks: Blocks, p: seq<BlockId>, x: LocalId)
    requires IsPath(blocks, p)
    ensures var t := TraceTo(f, blocks, p); x in Along(blocks, EntrySet(f), p) <==> Ready(t, |t|, x)
  {
    if |p| == 1 {
      assert Defines(TraceTo(f, blocks, p)[0], x) <==> x in EntrySet(f);
    } else {
      hide Ready, AfterInstructions;
      var init := p[..|p| - 1];
      var block := blocks[p[|p| - 2]];
      AlongIsReady(f, blocks, init, x);
      assert block.instructions[..|block.instructions|] == block.instructions;
      assert Returned(block.terminator) == {};
      FlowIsReady(TraceTo(f, blocks, init), block, |block.instructions|, Along(blocks, EntrySet(f), init), x);
    }
  }

  lemma {:induction false} InBlockPointwise(insts: seq<Instruction>, s: set<LocalId>, s': set<LocalId>, x: LocalId)
    requires x in s ==> x in s'
    ensures x in InBlock(insts, s) ==> x in InBlock(insts, s')
  {
    if insts != [] { InBlockPointwise(insts[..|insts| - 1], s, s', x); }
  }

  ghost predicate ReadyOnPaths(f: MirFunction, blocks: Blocks, b: BlockId, k: nat, op: Operand) {
    forall p :: PathTo(blocks, p, b) && Reaches(blocks, p, k) ==> ReadyAt(f, blocks, p, k, op)
  }

  /** On one path, readiness is membership in the set the in-block check would hold for that path. */
  lemma ReadyOnPath(f: MirFunction, blocks: Blocks, p: seq<BlockId>, k: nat, x: LocalId)
    requires Reaches(blocks, p, k)
    ensures var block := blocks[p[|p| - 1]];
      ReadyAt(f, blocks, p, k, Local(x)) <==>
        x in f.locals && x in InBlock(block.instructions[..k], Along(blocks, EntrySet(f), p) + ParameterSet(block))
  {
    hide Ready, InBlock, Along, TraceTo;
    AlongIsReady(f, blocks, p, x);
    CheckIsReady(TraceTo(f, blocks, p), blocks[p[|p| - 1]], k, Along(blocks, EntrySet(f), p), x);
  }

  /** An operand passes the check at a position of a reachable block exactly if it is ready there on
      every path. */
  lemma CheckedIffReady(f: MirFunction, initialized: Entries, b: BlockId, k: nat, op: Operand)
    requires var blocks := BlockMap(f.blocks);
      MeetOverAllPaths(blocks, EntrySet(f), initialized) && b in initialized && b in blocks && k <= |blocks[b].instructions|
    ensures var blocks := BlockMap(f.blocks);
      OperandOk(op, f.locals, InBlock(blocks[b].instructions[..k], initialized[b] + ParameterSet(blocks[b]))) <==>
        ReadyOnPaths(f, blocks, b, k, op)
  {
    hide BlockMap, InBlock, Along, TraceTo, IsPath, ReadyAt, ParameterSet, EntrySet;
    var blocks := BlockMap(f.blocks);
    if op.Local? {
      var x, insts, parameters := op.id, blocks[b].instructions[..k], ParameterSet(blocks[b]);
      assert op == Local(x);
      assert Reachable(blocks, b);
      assert x in initialized[b] <==> Always(blocks, EntrySet(f), b, x);
      if OperandOk(op, f.locals, InBlock(insts, initialized[b] + parameters)) {
        forall p | PathTo(blocks, p, b) && Reaches(blocks, p, k) ensures ReadyAt(f, blocks, p, k, op) {
          assert x in initialized[b] ==> InitializedOn(blocks, EntrySet(f), p, x);
          InBlockPointwise(insts, initialized[b] + parameters, Along(blocks, EntrySet(f), p) + parameters, x);
          ReadyOnPath(f, blocks, p, k, x);
        }
      }
      if ReadyOnPaths(f, blocks, b, k, op) {
        var p :| PathTo(blocks, p, b) && (x !in initialized[b] ==> !InitializedOn(blocks, EntrySet(f), p, x));
        assert Reaches(blocks, p, k);
        ReadyOnPath(f, blocks, p, k, x);
        InBlockPointwise(insts, Along(blocks, EntrySet(f), p) + parameters, initialized[b] + parameters, x);
      }
    } else {
      ConstantsAreReady(f, blocks, b, k, op);
    }
  }

  lemma ConstantsAreReady(f: MirFunction, blocks: Blocks, b: BlockId, k: nat, op: Operand)
    requires !op.Local?
    ensures ReadyOnPaths(f, blocks, b, k, op)
  {}

  // ----- acceptance without the analysis -----

  /** Every destination and every dropped local is declared. */
  ghost predicate WritesDeclared(block: BasicBlock, locals: seq<LocalId>) {
    forall k :: 0 <= k < |block.instructions| ==>
      && (Destination(block.instructions[k]).Some? ==> Destination(block.instructions[k]).value in locals)
      && (block.instructions[k].Drop? ==> block.instructions[k].dropped in locals)
  }

  lemma BlockOkIff(block: BasicBlock, locals: seq<LocalId>, s: set<LocalId>)
    ensures BlockOk(block, locals, s) <==>
      && WritesDeclared(block, locals)
      && forall k: nat, op :: k <= |block.instructions| && op in OperandsAt(block, k) ==> OperandOk(op, locals, InBlock(block.instructions[..k], s))
  {
    hide InBlock, OperandOk, InstructionOperands, TerminatorOperands;
    assert block.instructions[..|block.instructions|] == block.instructions;
    if forall k: nat, op :: k <= |block.instructions| && op in OperandsAt(block, k) ==> OperandOk(op, locals, InBlock(block.instructions[..k], s)) {
      forall k | 0 <= k < |block.instructions|
        ensures OperandsOk(InstructionOperands(block.instructions[k]), locals, InBlock(block.instructions[..k], s))
      {
        assert OperandsAt(block, k) == InstructionOperands(block.instructions[k]);
      }
      assert OperandsAt(block, |block.instructions|) == TerminatorOperands(block.terminator);
    }
    if BlockOk(block, locals, s) {
      forall k: nat, op | k <= |block.instructions| && op in OperandsAt(block, k) ensures OperandOk(op, locals, InBlock(block.instructions[..k], s)) {
        if k < |block.instructions| {
          assert InstructionOk(block.instructions[k], locals, InBlock(block.instructions[..k], s));
        }
      }
    }
  }

  /** Every read of the block is ready on every path to it. */
  ghost predicate BlockReadsReady(f: MirFunction, blocks: Blocks, b: BlockId)
    requires b in blocks
  {
    forall k: nat, op :: k <= |blocks[b].instructions| && op in OperandsAt(blocks[b], k) ==> ReadyOnPaths(f, blocks, b, k, op)
  }

  lemma ReachedBlockOkIff(f: MirFunction, initialized: Entries, b: BlockId)
    requires var blocks := BlockMap(f.blocks);
      MeetOverAllPaths(blocks, EntrySet(f), initialized) && b in initialized && b in blocks
    ensures var blocks := BlockMap(f.blocks);
      BlockOk(blocks[b], f.locals, initialized[b] + ParameterSet(blocks[b])) <==>
        WritesDeclared(blocks[b], f.locals) && BlockReadsReady(f, blocks, b)
  {
    hide BlockMap, BlockOk, InBlock, OperandsAt, OperandOk, ReadyOnPaths, WritesDeclared, MeetOverAllPaths, ParameterSet, EntrySet;
    var blocks := BlockMap(f.blocks);
    BlockOkIff(blocks[b], f.locals, initialized[b] + ParameterSet(blocks[b]));
    forall k: nat, op | k <= |blocks[b].instructions|
      ensures OperandOk(op, f.locals, InBlock(blocks[b].instructions[..k], initialized[b] + ParameterSet(blocks[b]))) <==> ReadyOnPaths(f, blocks, b, k, op)
    {
      CheckedIffReady(f, initialized, b, k, op);
    }
  }

  lemma SafeBlocksReady(f: MirFunction, b: BlockId)
    requires SafeOnEveryPath(f) && b in BlockMap(f.blocks)
    ensures BlockReadsReady(f, BlockMap(f.blocks), b)
  {
    hide BlockMap, OperandsAt, ReadyAt;
    var blocks := BlockMap(f.blocks);
    forall k: nat, op, p | k <= |blocks[b].instructions| && op in OperandsAt(blocks[b], k) && PathTo(blocks, p, b)
      ensures Reaches(blocks, p, k) && ReadyAt(f, blocks, p, k, op)
    {
      assert ReadsAt(blocks, p, k, op);
    }
  }

  lemma BlocksReadySafe(f: MirFunction)
    requires forall b :: b in BlockMap(f.blocks) ==> BlockReadsReady(f, BlockMap(f.blocks), b)
    ensures SafeOnEveryPath(f)
  {
    hide BlockMap, OperandsAt, ReadyAt;
    var blocks := BlockMap(f.blocks);
    forall p, k: nat, op | ReadsAt(blocks, p, k, op) ensures ReadyAt(f, blocks, p, k, op) {
      var b := p[|p| - 1];
      assert PathTo(blocks, p, b);
      assert ReadyOnPaths(f, blocks, b, k, op);
    }
  }

  /** Blocks no path reaches are checked as if every declared local were initialised. */
  ghost predicate UnreachedOk(f: MirFunction, block: BasicBlock) {
    BlockOk(block, f.locals, (set l | l in f.locals) + ParameterSet(block))
  }

  /** What acceptance comes to, said without the dataflow sets: every read is ready on every path to
      it, every written local is declared, and the blocks no path reaches pass their own check. */
  ghost predicate Sound(f: MirFunction) {
    && SafeOnEveryPath(f)
    && (forall i :: 0 <= i < |f.blocks| ==> WritesDeclared(f.blocks[i], f.locals))
    && (forall i :: 0 <= i < |f.blocks| && !Reachable(BlockMap(f.blocks), f.blocks[i].id) ==> UnreachedOk(f, f.blocks[i]))
  }

  ghost predicate BlockSound(f: MirFunction, blocks: Blocks, block: BasicBlock)
    requires block.id in blocks
  {
    && WritesDeclared(block, f.locals)
    && BlockReadsReady(f, blocks, block.id)
    && (!Reachable(blocks, block.id) ==> UnreachedOk(f, block))
  }

  lemma UnreachedReads(f: MirFunction, blocks: Blocks, b: BlockId)
    requires b in blocks && !Reachable(blocks, b)
    ensures BlockReadsReady(f, blocks, b)
  {
    hide OperandsAt, ReadyAt, IsPath;
    forall p ensures !PathTo(blocks, p, b) {}
  }

  lemma SoundBlock(f: MirFunction, initialized: Entries, i: nat)
    requires Structured(f) && i < |f.blocks| && MeetOverAllPaths(BlockMap(f.blocks), EntrySet(f), initialized)
    ensures f.blocks[i].id in BlockMap(f.blocks)
    ensures BlockOk(f.blocks[i], f.locals, CheckedEntry(f, initialized, f.blocks[i])) <==> BlockSound(f, BlockMap(f.blocks), f.blocks[i])
  {
    hide BlockMap, BlockOk, Distinct, ArgumentsMatch, TargetsDeclared, BlockReadsReady, WritesDeclared, ParameterSet, EntrySet, Always, Reachable;
    var block := f.blocks[i];
    BlockMapFinds(f.blocks, i);
    assert block.id in initialized <==> Reachable(BlockMap(f.blocks), block.id);
    if block.id in initialized {
      ReachedBlockOkIff(f, initialized, block.id);
    } else {
      UnreachedReads(f, BlockMap(f.blocks), block.id);
      BlockOkIff(block, f.locals, CheckedEntry(f, initialized, block));
    }
  }

  lemma SoundIff(f: MirFunction)
    requires forall i :: 0 <= i < |f.blocks| ==> f.blocks[i].id in BlockMap(f.blocks)
    ensures Sound(f) <==> forall i :: 0 <= i < |f.blocks| ==> BlockSound(f, BlockMap(f.blocks), f.blocks[i])
  {
    hide BlockMap, UnreachedOk, BlockReadsReady, WritesDeclared, SafeOnEveryPath, Reachable;
    BlockMapKeys(f.blocks);
    if Sound(f) {
      forall i | 0 <= i < |f.blocks| ensures BlockReadsReady(f, BlockMap(f.blocks), f.blocks[i].id) {
        SafeBlocksReady(f, f.blocks[i].id);
      }
    }
    if forall i :: 0 <= i < |f.blocks| ==> BlockSound(f, BlockMap(f.blocks), f.blocks[i]) {
      forall b | b in BlockMap(f.blocks) ensures BlockReadsReady(f, BlockMap(f.blocks), b) {
        var i :| 0 <= i < |f.blocks| && f.blocks[i].id == b;
        assert BlockSound(f, BlockMap(f.blocks), f.blocks[i]);
      }
      BlocksReadySafe(f);
    }
  }

  lemma AcceptedIffSound(f: MirFunction, initialized: Entries)
    requires Structured(f) && MeetOverAllPaths(BlockMap(f.blocks), EntrySet(f), initialized)
    ensures Accepted(f, initialized) <==> Sound(f)
  {
    hide BlockMap, BlockOk, Structured, BlockSound, MeetOverAllPaths, EntrySet, CheckedEntry, Sound;
    forall i | 0 <= i < |f.blocks|
      ensures f.blocks[i].id in BlockMap(f.blocks)
      ensures BlockOk(f.blocks[i], f.locals, CheckedEntry(f, initialized, f.blocks[i])) <==> BlockSound(f, BlockMap(f.blocks), f.blocks[i])
    {
      SoundBlock(f, initialized, i);
    }
    SoundIff(f);
  }

  /** Every function the validator accepts is safe on every path. */
  lemma AcceptedIsSafe(f: MirFunction, initialized: Entries)
    requires Accepted(f, initialized)
    ensures SafeOnEveryPath(f)
  {
    hide BlockMap, BlockOk, MeetOverAllPaths, Structured, SafeOnEveryPath;
    AcceptedIffSound(f, initialized);
  }
}
