/** Runs of a function: what its blocks evaluate, one after another, and what the validator's
    acceptance says of that. */
module MirRuns {
  import opened Machine
  import opened Mir
  import opened InitFlow
  import opened MirValidator
  import opened MoveSafety
  import opened MirEval

  /** How a function is run: whether moving out of a local clears it, and whether a block argument
      that is not set stops the run or is passed on as junk. */
  datatype Mode = Mode(clears: bool, strict: bool)

  datatype Outcome = Going(block: BlockId, env: Env) | Unset | Over

  function ExecAll(insts: seq<Instruction>, env: Env, clears: bool): Option<Env> {
    if insts == [] then Some(env)
    else
      var before := ExecAll(insts[..|insts| - 1], env, clears);
      if before.None? then None else Exec(insts[|insts| - 1], before.value, clears)
  }

  function Bind(env: Env, parameters: seq<LocalId>, vs: seq<Option<Value>>): Env
    requires |parameters| == |vs|
  {
    if parameters == [] then env
    else
      var n := |parameters| - 1;
      Bind(env, parameters[..n], vs[..n])[parameters[n] := if vs[n].Some? then vs[n].value else Junk]
  }

  /** Jumps to a block with arguments. */
  function Arrive(blocks: Blocks, target: BlockId, vs: seq<Option<Value>>, env: Env, strict: bool): Outcome {
    if strict && !AllSet(vs) then Unset
    else if target !in blocks || |blocks[target].parameters| != |vs| then Over
    else Going(target, Bind(env, blocks[target].parameters, vs))
  }

  /** Leaves a block by its terminator; `turn` is the truth of a branch's condition. */
  function Leave(blocks: Blocks, t: Terminator, turn: bool, env: Env, strict: bool): Outcome {
    match t
    case Return(value) => if value.Some? && EvalOperand(value.value, env).None? then Unset else Over
    case Jump(target, args) => Arrive(blocks, target, EvalEach(args, env), env, strict)
    case Branch(cond, trueBlock, trueArgs, falseBlock, falseArgs) =>
      if EvalOperand(cond, env).None? then Unset
      else if turn then Arrive(blocks, trueBlock, EvalEach(trueArgs, env), env, strict)
      else Arrive(blocks, falseBlock, EvalEach(falseArgs, env), env, strict)
    case TailCall(args) => if AllSet(EvalEach(args, env)) then Over else Unset
    case Panic(_) => Over
  }

  function RunBlock(blocks: Blocks, block: BasicBlock, turn: bool, env: Env, m: Mode): Outcome {
    var after := ExecAll(block.instructions, env, m.clears);
    if after.None? then Unset else Leave(blocks, block.terminator, turn, after.value, m.strict)
  }

  function Parameters(n: nat): Env {
    map x: nat | x < n :: Given(x)
  }

  /** Nothing is passed to the entry block. */
  function Nothing(n: nat): seq<Option<Value>> {
    seq(n, _ => None)
  }

  /** Where the run is after the branches taken as in `turns`: about to run a block, stopped at a local
      that is not set, or over. */
  function RunTo(f: MirFunction, turns: seq<bool>, m: Mode): Outcome {
    var blocks := BlockMap(f.blocks);
    if turns == [] then
      if ENTRY_BLOCK in blocks
      then Arrive(blocks, ENTRY_BLOCK, Nothing(|blocks[ENTRY_BLOCK].parameters|), Parameters(f.parameterCount), m.strict)
      else Over
    else
      var before := RunTo(f, turns[..|turns| - 1], m);
      if before.Going? && before.block in blocks then RunBlock(blocks, blocks[before.block], turns[|turns| - 1], before.env, m)
      else before
  }

  /** However the branches go, no local is evaluated that is not set. */
  ghost predicate NeverUnset(f: MirFunction, m: Mode) {
    forall turns :: !RunTo(f, turns, m).Unset?
  }

  // ----- one block -----

  /** The locals that are set after the instructions. */
  function SetAfter(insts: seq<Instruction>, s: set<LocalId>, clears: bool): set<LocalId> {
    if clears then AfterInstructions(insts, s) else InBlock(insts, s)
  }

  lemma SetAfterStep(insts: seq<Instruction>, k: nat, s: set<LocalId>, clears: bool)
    requires k < |insts|
    ensures SetAfter(insts[..k + 1], s, clears) ==
      SetAfter(insts[..k], s, clears) - (if clears then Killed(insts[k]) else Dropped(insts[k])) + Assigned(insts[k])
  {
    assert insts[..k + 1][..k] == insts[..k];
  }

  lemma {:induction false} ExecAllMeans(insts: seq<Instruction>, n: nat, env: Env, clears: bool)
    requires n <= |insts|
    ensures ExecAll(insts[..n], env, clears).Some? <==>
      forall k :: 0 <= k < n ==> LocalsOf(InstructionOperands(insts[k])) <= SetAfter(insts[..k], env.Keys, clears)
    ensures ExecAll(insts[..n], env, clears).Some? ==> ExecAll(insts[..n], env, clears).value.Keys == SetAfter(insts[..n], env.Keys, clears)
  {
    hide LocalsOf, InstructionOperands, SetAfter, Killed, Dropped, Assigned, Exec;
    if n == 0 {
      assert insts[..0] == [];
      assert SetAfter([], env.Keys, clears) == env.Keys by { NothingSet(env.Keys, clears); }
    } else {
      ExecAllMeans(insts, n - 1, env, clears);
      assert insts[..n][..n - 1] == insts[..n - 1];
      SetAfterStep(insts, n - 1, env.Keys, clears);
      var before := ExecAll(insts[..n - 1], env, clears);
      if before.Some? {
        ExecMeans(insts[n - 1], before.value, clears);
      }
    }
  }

  lemma NothingSet(s: set<LocalId>, clears: bool)
    ensures SetAfter([], s, clears) == s
  {}

  lemma {:induction false} BindKeys(env: Env, parameters: seq<LocalId>, vs: seq<Option<Value>>)
    requires |parameters| == |vs|
    ensures Bind(env, parameters, vs).Keys == env.Keys + set k | 0 <= k < |parameters| :: parameters[k]
  {
    if parameters != [] {
      var n := |parameters| - 1;
      BindKeys(env, parameters[..n], vs[..n]);
      assert parameters == parameters[..n] + [parameters[n]];
    }
  }

  /** What the terminator evaluates: its checked operands, and the arguments for where it goes. */
  lemma LeaveMeans(blocks: Blocks, t: Terminator, turn: bool, env: Env, strict: bool)
    ensures var o := Leave(blocks, t, turn, env, strict);
      && (!Set(TerminatorOperands(t), env) ==> o.Unset?)
      && (o.Unset? && Set(TerminatorOperands(t), env) ==> strict && exists args :: Passes(t, turn, args) && !Set(args, env))
      && (strict && Set(TerminatorOperands(t), env) && (exists args :: Passes(t, turn, args) && !Set(args, env)) ==> o.Unset?)
      && (o.Going? ==> o.block in blocks && IsSuccessor(t, o.block) && o.env.Keys == env.Keys + ParameterSet(blocks[o.block]))
  {
    hide EvalOperand, AllSet, Set, Bind, EvalEach, ParameterSet;
    forall vs, b | b in blocks && |blocks[b].parameters| == |vs|
      ensures Bind(env, blocks[b].parameters, vs).Keys == env.Keys + ParameterSet(blocks[b])
    {
      BindParameters(env, blocks[b], vs);
    }
    match t
    case Return(value) => if value.Some? { OneSet(value.value, env); } else { NoneSet(env); }
    case Jump(_, args) =>
      NoneSet(env);
      SetIff(args, env);
      assert Passes(t, turn, args);
    case Branch(cond, _, trueArgs, _, falseArgs) =>
      OneSet(cond, env);
      SetIff(trueArgs, env);
      SetIff(falseArgs, env);
      assert Passes(t, turn, if turn then trueArgs else falseArgs);
    case TailCall(args) => SetIff(args, env);
    case Panic(_) => NoneSet(env);
  }

  /** The arguments a terminator passes on. */
  predicate Passes(t: Terminator, turn: bool, args: seq<Operand>) {
    (t.Jump? && args == t.args) || (t.Branch? && args == if turn then t.trueArgs else t.falseArgs)
  }

  lemma BindParameters(env: Env, block: BasicBlock, vs: seq<Option<Value>>)
    requires |block.parameters| == |vs|
    ensures Bind(env, block.parameters, vs).Keys == env.Keys + ParameterSet(block)
  {
    BindKeys(env, block.parameters, vs);
  }

  lemma OneSet(op: Operand, env: Env)
    ensures Set([op], env) <==> EvalOperand(op, env).Some?
  {
    SetIff([op], env);
    OneUnset(op, env);
  }

  lemma NoneSet(env: Env)
    ensures Set([], env)
  {}

  /** A terminator that goes on finds its block, if targets and argument counts are right; and every
      successor is gone to by some turn. */
  lemma LeaveGoesOn(blocks: Blocks, block: BasicBlock, turn: bool, env: Env, strict: bool)
    requires TargetsDeclared(block, blocks.Keys) && ArgumentsMatch(block, blocks)
    ensures Leave(blocks, block.terminator, turn, env, strict).Over? ==> !block.terminator.Jump? && !block.terminator.Branch?
    ensures var o := Leave(blocks, block.terminator, turn, env, strict);
      o.Going? ==> o.block == if block.terminator.Jump? then block.terminator.target else if turn then block.terminator.trueBlock else block.terminator.falseBlock
  {
    hide EvalOperand, AllSet, Bind;
    var ss := SuccessorBlocks(block.terminator);
    match block.terminator
    case Jump(target, args) => assert ss[0] == (target, args);
    case Branch(_, trueBlock, trueArgs, falseBlock, falseArgs) =>
      assert ss[0] == (trueBlock, trueArgs) && ss[1] == (falseBlock, falseArgs);
    case _ =>
  }

  // ----- along a path -----

  /** The locals the path has set when its last block starts. */
  ghost function SetOn(f: MirFunction, blocks: Blocks, p: seq<BlockId>): set<LocalId>
    requires IsPath(blocks, p) && p[|p| - 1] in blocks
  {
    Along(blocks, EntrySet(f), p) + ParameterSet(blocks[p[|p| - 1]])
  }

  /** The run is at the end of the path, with what the path has set, and no more if moves clear. */
  ghost predicate Follows(f: MirFunction, blocks: Blocks, p: seq<BlockId>, o: Outcome, clears: bool) {
    && o.Going? && o.block in blocks && PathTo(blocks, p, o.block)
    && SetOn(f, blocks, p) <= o.env.Keys
    && (clears ==> o.env.Keys == SetOn(f, blocks, p))
  }

  lemma {:induction false} SetAfterGrows(insts: seq<Instruction>, s: set<LocalId>, s': set<LocalId>, clears: bool)
    requires s <= s'
    ensures AfterInstructions(insts, s) <= SetAfter(insts, s', clears)
    ensures SetAfter(insts, s, clears) <= SetAfter(insts, s', clears)
  {
    if insts != [] {
      var n := |insts| - 1;
      SetAfterGrows(insts[..n], s, s', clears);
      DroppedIsKilled(insts[n]);
    }
  }

  lemma DroppedIsKilled(inst: Instruction)
    ensures Dropped(inst) <= Killed(inst)
  {}

  lemma FollowsStart(f: MirFunction, m: Mode)
    requires ENTRY_BLOCK in BlockMap(f.blocks) && !RunTo(f, [], m).Unset?
    ensures Follows(f, BlockMap(f.blocks), [ENTRY_BLOCK], RunTo(f, [], m), m.clears)
  {
    hide BlockMap;
    var blocks := BlockMap(f.blocks);
    var entry := blocks[ENTRY_BLOCK];
    BindParameters(Parameters(f.parameterCount), entry, Nothing(|entry.parameters|));
    forall x ensures x in Parameters(f.parameterCount) <==> x in EntrySet(f) {
      if x in EntrySet(f) { assert x in ParameterIds(f.parameterCount); }
      if x in Parameters(f.parameterCount) { assert ParameterIds(f.parameterCount)[x] == x; }
    }
  }

  lemma FollowsStep(f: MirFunction, blocks: Blocks, p: seq<BlockId>, o: Outcome, turn: bool, m: Mode)
    requires Follows(f, blocks, p, o, m.clears)
    requires RunBlock(blocks, blocks[o.block], turn, o.env, m).Going?
    ensures var o' := RunBlock(blocks, blocks[o.block], turn, o.env, m); Follows(f, blocks, p + [o'.block], o', m.clears)
  {
    hide InstructionOperands, TerminatorOperands, LocalsOf, AfterInstructions, InBlock, ParameterSet, EntrySet, ExecAll, Leave, Set;
    var block, o' := blocks[o.block], RunBlock(blocks, blocks[o.block], turn, o.env, m);
    var insts := block.instructions;
    var after := ExecAll(insts, o.env, m.clears).value;
    assert insts[..|insts|] == insts;
    ExecAllMeans(insts, |insts|, o.env, m.clears);
    LeaveMeans(blocks, block.terminator, turn, after, m.strict);
    PathExtend(blocks, p, o'.block);
    SetAfterGrows(insts, SetOn(f, blocks, p), o.env.Keys, m.clears);
    var p' := p + [o'.block];
    assert p'[..|p'| - 1] == p && p'[|p'| - 2] == o.block;
    assert Returned(block.terminator) == {};
    assert Along(blocks, EntrySet(f), p') == AfterInstructions(insts, SetOn(f, blocks, p));
    if m.clears { assert SetAfter(insts, o.env.Keys, true) == AfterInstructions(insts, SetOn(f, blocks, p)); }
  }

  /** A run that is going on has followed some path. */
  lemma {:induction false} RunFollows(f: MirFunction, turns: seq<bool>, m: Mode) returns (p: seq<BlockId>)
    requires RunTo(f, turns, m).Going?
    ensures Follows(f, BlockMap(f.blocks), p, RunTo(f, turns, m), m.clears)
  {
    hide Follows, RunBlock, BlockMap, Arrive;
    if turns == [] {
      FollowsStart(f, m);
      p := [ENTRY_BLOCK];
    } else {
      var n := |turns| - 1;
      var before := RunTo(f, turns[..n], m);
      var q := RunFollows(f, turns[..n], m);
      GoingOn(f, q, before, m);
      FollowsStep(f, BlockMap(f.blocks), q, before, turns[n], m);
      p := q + [RunTo(f, turns, m).block];
    }
  }

  lemma GoingOn(f: MirFunction, p: seq<BlockId>, o: Outcome, m: Mode)
    requires Follows(f, BlockMap(f.blocks), p, o, m.clears)
    ensures o.Going? && o.block in BlockMap(f.blocks)
  {}

  // ----- what acceptance says of runs -----

  /** A local consumed at position `k` of the last block is set, if that is ready on the path. */
  lemma ReadyIsSet(f: MirFunction, blocks: Blocks, p: seq<BlockId>, o: Outcome, k: nat, x: LocalId, clears: bool)
    requires Follows(f, blocks, p, o, clears) && Reaches(blocks, p, k)
    ensures !clears && ReadyAt(f, blocks, p, k, Local(x)) ==> x in SetAfter(blocks[o.block].instructions[..k], o.env.Keys, false)
    ensures clears ==> (UnmovedAt(f, blocks, p, k, Local(x)) <==>
      x in f.locals && x in SetAfter(blocks[o.block].instructions[..k], o.env.Keys, true))
  {
    hide Ready, InBlock, Along, TraceTo, AfterInstructions, EntrySet, ParameterSet;
    var block := blocks[o.block];
    var insts := block.instructions[..k];
    if clears {
      AlongIsReady(f, blocks, p, x);
      FlowIsReady(TraceTo(f, blocks, p), block, k, Along(blocks, EntrySet(f), p), x);
    } else {
      ReadyOnPath(f, blocks, p, k, x);
      SetAfterGrows(insts, SetOn(f, blocks, p), o.env.Keys, false);
    }
  }

  lemma NamedLocals(ops: seq<Operand>, x: LocalId)
    ensures x in LocalsOf(ops) <==> Local(x) in ops
  {
    if Local(x) in ops {
      var k :| 0 <= k < |ops| && ops[k] == Local(x);
      assert ops[k].Local? && ops[k].id == x;
    }
    if x in LocalsOf(ops) {
      var k :| 0 <= k < |ops| && ops[k].Local? && ops[k].id == x;
      assert ops[k] == Local(x);
    }
  }

  lemma NotSet(ops: seq<Operand>, s: set<LocalId>) returns (x: LocalId)
    requires !(LocalsOf(ops) <= s)
    ensures Local(x) in ops && x !in s
  {
    x :| x in LocalsOf(ops) && x !in s;
    NamedLocals(ops, x);
  }

  /** What a run through the block evaluates at position `k`. */
  ghost predicate Evaluates(block: BasicBlock, turn: bool, strict: bool, k: nat, x: LocalId) {
    || (k < |block.instructions| && Local(x) in InstructionOperands(block.instructions[k]))
    || (k == |block.instructions| && Local(x) in TerminatorOperands(block.terminator))
    || (k == |block.instructions| && strict && exists args :: Passes(block.terminator, turn, args) && Local(x) in args)
  }

  ghost predicate EvaluatesUnset(block: BasicBlock, turn: bool, env: Env, m: Mode, k: nat, x: LocalId) {
    Evaluates(block, turn, m.strict, k, x) && x !in SetAfter(block.instructions[..k], env.Keys, m.clears)
  }

  /** Running the block stops exactly if it evaluates a local that is not set by then. */
  lemma BlockUnsetIff(blocks: Blocks, block: BasicBlock, turn: bool, env: Env, m: Mode)
    ensures RunBlock(blocks, block, turn, env, m).Unset? <==> exists k: nat, x :: EvaluatesUnset(block, turn, env, m, k, x)
  {
    hide InstructionOperands, TerminatorOperands, LocalsOf, SetAfter, ExecAll, Leave, Passes;
    var insts, n := block.instructions, |block.instructions|;
    assert insts[..n] == insts;
    ExecAllMeans(insts, n, env, m.clears);
    var after := ExecAll(insts, env, m.clears);
    if after.None? {
      var k :| 0 <= k < n && !(LocalsOf(InstructionOperands(insts[k])) <= SetAfter(insts[..k], env.Keys, m.clears));
      var x := NotSet(InstructionOperands(insts[k]), SetAfter(insts[..k], env.Keys, m.clears));
      assert EvaluatesUnset(block, turn, env, m, k, x);
    } else {
      LeaveMeans(blocks, block.terminator, turn, after.value, m.strict);
      if RunBlock(blocks, block, turn, env, m).Unset? {
        LeaveUnset(block, turn, env, after.value, m);
      } else {
        forall k: nat, x ensures !EvaluatesUnset(block, turn, env, m, k, x) {
          if Evaluates(block, turn, m.strict, k, x) { EvaluatedIsSet(block, turn, env, after.value, m, k, x); }
        }
      }
    }
  }

  lemma LeaveUnset(block: BasicBlock, turn: bool, env: Env, after: Env, m: Mode)
    requires after.Keys == SetAfter(block.instructions, env.Keys, m.clears)
    requires !Set(TerminatorOperands(block.terminator), after) || (m.strict && exists args :: Passes(block.terminator, turn, args) && !Set(args, after))
    ensures exists k: nat, x :: EvaluatesUnset(block, turn, env, m, k, x)
  {
    hide TerminatorOperands, LocalsOf, SetAfter, Passes;
    var n := |block.instructions|;
    assert block.instructions[..n] == block.instructions;
    if !Set(TerminatorOperands(block.terminator), after) {
      var x := NotSet(TerminatorOperands(block.terminator), after.Keys);
      assert EvaluatesUnset(block, turn, env, m, n, x);
    } else {
      var args :| Passes(block.terminator, turn, args) && !Set(args, after);
      var x := NotSet(args, after.Keys);
      assert EvaluatesUnset(block, turn, env, m, n, x);
    }
  }

  lemma EvaluatedIsSet(block: BasicBlock, turn: bool, env: Env, after: Env, m: Mode, k: nat, x: LocalId)
    requires Evaluates(block, turn, m.strict, k, x) && after.Keys == SetAfter(block.instructions, env.Keys, m.clears)
    requires forall j :: 0 <= j < |block.instructions| ==>
      LocalsOf(InstructionOperands(block.instructions[j])) <= SetAfter(block.instructions[..j], env.Keys, m.clears)
    requires Set(TerminatorOperands(block.terminator), after)
    requires m.strict ==> forall args :: Passes(block.terminator, turn, args) ==> Set(args, after)
    ensures x in SetAfter(block.instructions[..k], env.Keys, m.clears)
  {
    hide InstructionOperands, TerminatorOperands, LocalsOf, SetAfter, Passes;
    var n := |block.instructions|;
    assert block.instructions[..n] == block.instructions;
    if k < n {
      NamedLocals(InstructionOperands(block.instructions[k]), x);
    } else if Local(x) in TerminatorOperands(block.terminator) {
      NamedLocals(TerminatorOperands(block.terminator), x);
    } else {
      var args :| Passes(block.terminator, turn, args) && Local(x) in args;
      NamedLocals(args, x);
    }
  }

  lemma EvaluatesConsumes(blocks: Blocks, p: seq<BlockId>, turn: bool, strict: bool, k: nat, x: LocalId)
    requires IsPath(blocks, p) && p[|p| - 1] in blocks && Evaluates(blocks[p[|p| - 1]], turn, strict, k, x)
    ensures Reaches(blocks, p, k)
    ensures !strict ==> ReadsAt(blocks, p, k, Local(x))
    ensures ConsumesAt(blocks, p, k, Local(x))
  {
    hide InstructionOperands, TerminatorOperands;
    var block := blocks[p[|p| - 1]];
    if k == |block.instructions| && Local(x) !in TerminatorOperands(block.terminator) {
      var args :| Passes(block.terminator, turn, args) && Local(x) in args;
      assert Local(x) in ArgumentOperands(block.terminator);
    }
  }

  /** Where moving leaves a local set, and an argument that is not set is passed as junk, an accepted
      function never evaluates a local that is not set, however its branches go. */
  lemma {:induction false} AcceptedNeverUnset(f: MirFunction, turns: seq<bool>)
    requires Sound(f)
    ensures !RunTo(f, turns, Mode(false, false)).Unset?
  {
    hide WritesDeclared, UnreachedOk, BlockMap, SafeOnEveryPath, RunBlock, Follows, Evaluates, SetAfter, ReadyAt;
    var m := Mode(false, false);
    if turns != [] {
      var n := |turns| - 1;
      AcceptedNeverUnset(f, turns[..n]);
      var before := RunTo(f, turns[..n], m);
      if before.Going? {
        var p := RunFollows(f, turns[..n], m);
        GoingOn(f, p, before, m);
        SafeBlock(f, p, before, turns[n]);
      }
    }
  }

  lemma SafeBlock(f: MirFunction, p: seq<BlockId>, o: Outcome, turn: bool)
    requires SafeOnEveryPath(f) && Follows(f, BlockMap(f.blocks), p, o, false)
    ensures !RunBlock(BlockMap(f.blocks), BlockMap(f.blocks)[o.block], turn, o.env, Mode(false, false)).Unset?
  {
    hide BlockMap, RunBlock, Evaluates, SetAfter, ReadyAt, SetOn, IsPath, ReadsAt;
    var blocks, m := BlockMap(f.blocks), Mode(false, false);
    var block := blocks[o.block];
    BlockUnsetIff(blocks, block, turn, o.env, m);
    forall k: nat, x ensures !EvaluatesUnset(block, turn, o.env, m, k, x) {
      if Evaluates(block, turn, false, k, x) {
        EvaluatesConsumes(blocks, p, turn, false, k, x);
        ReadyIsSet(f, blocks, p, o, k, x, false);
      }
    }
  }

  // ----- where moving clears, and arguments must be set -----

  const STRICT: Mode := Mode(true, true)

  /** Every local passed to a successor of a block that is reached is declared. */
  ghost predicate ArgumentsDeclared(f: MirFunction) {
    var blocks := BlockMap(f.blocks);
    forall b, x :: b in blocks && Reachable(blocks, b) && Local(x) in ArgumentOperands(blocks[b].terminator) ==> x in f.locals
  }

  ghost predicate EntryTakesNothing(f: MirFunction) {
    ENTRY_BLOCK in BlockMap(f.blocks) ==> BlockMap(f.blocks)[ENTRY_BLOCK].parameters == []
  }

  lemma {:induction false} UnmovedNeverUnset(f: MirFunction, turns: seq<bool>)
    requires NeverConsumesMoved(f) && EntryTakesNothing(f)
    ensures !RunTo(f, turns, STRICT).Unset?
  {
    hide BlockMap, NeverConsumesMoved, RunBlock, Follows;
    if turns != [] {
      var n := |turns| - 1;
      UnmovedNeverUnset(f, turns[..n]);
      var before := RunTo(f, turns[..n], STRICT);
      if before.Going? {
        var p := RunFollows(f, turns[..n], STRICT);
        GoingOn(f, p, before, STRICT);
        UnmovedBlock(f, p, before, turns[n]);
      }
    }
  }

  lemma UnmovedBlock(f: MirFunction, p: seq<BlockId>, o: Outcome, turn: bool)
    requires NeverConsumesMoved(f) && Follows(f, BlockMap(f.blocks), p, o, true)
    ensures !RunBlock(BlockMap(f.blocks), BlockMap(f.blocks)[o.block], turn, o.env, STRICT).Unset?
  {
    hide BlockMap, RunBlock, Evaluates, SetAfter, UnmovedAt, SetOn, IsPath, ConsumesAt;
    var blocks := BlockMap(f.blocks);
    var block := blocks[o.block];
    BlockUnsetIff(blocks, block, turn, o.env, STRICT);
    forall k: nat, x ensures !EvaluatesUnset(block, turn, o.env, STRICT, k, x) {
      if Evaluates(block, turn, true, k, x) {
        EvaluatesConsumes(blocks, p, turn, true, k, x);
        ReadyIsSet(f, blocks, p, o, k, x, true);
      }
    }
  }

  /** Every path is followed by some run, unless a run stops. */
  lemma {:induction false} PathIsRun(f: MirFunction, p: seq<BlockId>) returns (turns: seq<bool>)
    requires Structured(f) && NeverUnset(f, STRICT) && IsPath(BlockMap(f.blocks), p)
    ensures Follows(f, BlockMap(f.blocks), p, RunTo(f, turns, STRICT), true)
  {
    hide BlockMap, Follows, RunBlock, TargetsDeclared, ArgumentsMatch, Distinct, UniqueIds, Definitions, ParameterIds, Arrive;
    var blocks := BlockMap(f.blocks);
    if |p| == 1 {
      turns := [];
      FollowsStart(f, STRICT);
      assert p == [ENTRY_BLOCK];
    } else {
      var q := p[..|p| - 1];
      var before := PathIsRun(f, q);
      var o := RunTo(f, before, STRICT);
      GoingOn(f, q, o, STRICT);
      assert o.block == q[|q| - 1] by { EndOf(f, blocks, q, o); }
      forall t ensures !RunBlock(blocks, blocks[o.block], t, o.env, STRICT).Unset? {
        RunMore(f, before, t, STRICT);
      }
      var turn := TurnTo(f, o.block, p[|p| - 1], o.env);
      turns := before + [turn];
      RunMore(f, before, turn, STRICT);
      FollowsStep(f, blocks, q, o, turn, STRICT);
      assert p == q + [p[|p| - 1]];
    }
  }

  lemma RunMore(f: MirFunction, turns: seq<bool>, turn: bool, m: Mode)
    requires RunTo(f, turns, m).Going? && RunTo(f, turns, m).block in BlockMap(f.blocks)
    ensures var o := RunTo(f, turns, m);
      RunTo(f, turns + [turn], m) == RunBlock(BlockMap(f.blocks), BlockMap(f.blocks)[o.block], turn, o.env, m)
  {
    assert (turns + [turn])[..|turns|] == turns;
  }

  lemma EndOf(f: MirFunction, blocks: Blocks, p: seq<BlockId>, o: Outcome)
    requires Follows(f, blocks, p, o, true)
    ensures o.block == p[|p| - 1]
  {}

  lemma StructuredBlock(f: MirFunction, b: BlockId)
    requires Structured(f) && b in BlockMap(f.blocks)
    ensures TargetsDeclared(BlockMap(f.blocks)[b], BlockMap(f.blocks).Keys) && ArgumentsMatch(BlockMap(f.blocks)[b], BlockMap(f.blocks))
  {
    hide BlockMap, TargetsDeclared, ArgumentsMatch, Distinct, UniqueIds;
    BlockMapKeys(f.blocks);
    var i :| 0 <= i < |f.blocks| && f.blocks[i].id == b;
    BlockMapFinds(f.blocks, i);
  }

  /** The turn that leads to a given successor. */
  lemma TurnTo(f: MirFunction, b: BlockId, target: BlockId, env: Env) returns (turn: bool)
    requires Structured(f) && Edge(BlockMap(f.blocks), b, target)
    requires forall t :: !RunBlock(BlockMap(f.blocks), BlockMap(f.blocks)[b], t, env, STRICT).Unset?
    ensures var o := RunBlock(BlockMap(f.blocks), BlockMap(f.blocks)[b], turn, env, STRICT); o.Going? && o.block == target
  {
    hide BlockMap, Structured, TargetsDeclared, ArgumentsMatch, ExecAll, Leave;
    var blocks := BlockMap(f.blocks);
    var block := blocks[b];
    StructuredBlock(f, b);
    var after := ExecAll(block.instructions, env, true);
    turn := block.terminator.Branch? && block.terminator.trueBlock == target;
    assert !RunBlock(blocks, block, turn, env, STRICT).Unset?;
    LeaveGoesOn(blocks, block, turn, after.value, true);
  }

  /** On a path that a run follows without ever stopping, everything consumed is set. */
  lemma ConsumedIsSet(f: MirFunction, p: seq<BlockId>, k: nat, x: LocalId)
    requires Structured(f) && NeverUnset(f, STRICT) && ConsumesAt(BlockMap(f.blocks), p, k, Local(x)) && x in f.locals
    ensures UnmovedAt(f, BlockMap(f.blocks), p, k, Local(x))
  {
    hide BlockMap, Structured, RunBlock, RunTo, SetAfter, UnmovedAt, Evaluates, SetOn, IsPath;
    var blocks := BlockMap(f.blocks);
    var turns := PathIsRun(f, p);
    var o := RunTo(f, turns, STRICT);
    var turn := ConsumedIsEvaluated(blocks[o.block], k, x);
    RunMore(f, turns, turn, STRICT);
    BlockUnsetIff(blocks, blocks[o.block], turn, o.env, STRICT);
    assert !EvaluatesUnset(blocks[o.block], turn, o.env, STRICT, k, x);
    ReadyIsSet(f, blocks, p, o, k, x, true);
  }

  lemma ConsumedIsEvaluated(block: BasicBlock, k: nat, x: LocalId) returns (turn: bool)
    requires k <= |block.instructions| && Local(x) in ConsumedAt(block, k)
    ensures Evaluates(block, turn, true, k, x)
  {
    hide InstructionOperands, TerminatorOperands;
    var t := block.terminator;
    turn := t.Branch? && Local(x) in t.trueArgs;
    if k == |block.instructions| && Local(x) !in TerminatorOperands(t) {
      assert Passes(t, turn, if t.Jump? then t.args else if turn then t.trueArgs else t.falseArgs);
    }
  }

  /** Where moving clears a local and arguments must be set, an accepted function that declares its
      arguments never evaluates a local that is not set, exactly if its block arguments pass the
      operand check, no local is consumed after a move, and the entry block takes no parameter. */
  lemma NeverUnsetIff(f: MirFunction, initialized: Entries)
    requires Accepted(f, initialized)
    ensures NeverUnset(f, STRICT) && ArgumentsDeclared(f) <==>
      ArgumentsOkWhereReached(f, initialized) && MovesAreFinalWhereReached(f) && EntryTakesNothing(f)
  {
    hide Accepted, BlockMap, ArgumentsOkWhereReached, MovesAreFinalWhereReached, NeverConsumesMoved, ArgumentsDeclared, EntryTakesNothing, RunTo;
    MoveSafeIff(f, initialized);
    if NeverConsumesMoved(f) && EntryTakesNothing(f) {
      forall turns ensures !RunTo(f, turns, STRICT).Unset? { UnmovedNeverUnset(f, turns); }
      assert NeverUnset(f, STRICT);
      UnmovedDeclared(f);
    }
    if NeverUnset(f, STRICT) && ArgumentsDeclared(f) {
      SetIsUnmoved(f, initialized);
      assert !RunTo(f, [], STRICT).Unset?;
      EntryUnset(f);
    }
  }

  lemma UnmovedDeclared(f: MirFunction)
    requires NeverConsumesMoved(f)
    ensures ArgumentsDeclared(f)
  {
    hide BlockMap, IsPath, Ready, ArgumentOperands, OperandsAt;
    var blocks := BlockMap(f.blocks);
    forall b, x | b in blocks && Reachable(blocks, b) && Local(x) in ArgumentOperands(blocks[b].terminator) ensures x in f.locals {
      var p :| PathTo(blocks, p, b);
      assert ConsumesAt(blocks, p, |blocks[b].instructions|, Local(x));
      assert UnmovedAt(f, blocks, p, |blocks[b].instructions|, Local(x));
    }
  }

  lemma EntryUnset(f: MirFunction)
    requires !RunTo(f, [], STRICT).Unset?
    ensures EntryTakesNothing(f)
  {
    hide BlockMap;
  }

  lemma SetIsUnmoved(f: MirFunction, initialized: Entries)
    requires Accepted(f, initialized) && NeverUnset(f, STRICT) && ArgumentsDeclared(f)
    ensures NeverConsumesMoved(f)
  {
    hide BlockMap, BlockOk, MeetOverAllPaths, CheckedEntry, UnmovedAt, RunTo, ReadyAt, ConsumedAt, Structured, ArgumentsDeclared;
    var blocks := BlockMap(f.blocks);
    forall p, k: nat, op | ConsumesAt(blocks, p, k, op) ensures UnmovedAt(f, blocks, p, k, op) {
      if op.Local? {
        assert op == Local(op.id);
        ConsumedDeclared(f, initialized, p, k, op.id);
        ConsumedIsSet(f, p, k, op.id);
      } else {
        ConstantUnmoved(f, blocks, p, k, op);
      }
    }
  }

  lemma ConstantUnmoved(f: MirFunction, blocks: Blocks, p: seq<BlockId>, k: nat, op: Operand)
    requires Reaches(blocks, p, k) && !op.Local?
    ensures UnmovedAt(f, blocks, p, k, op)
  {}

  lemma ConsumedDeclared(f: MirFunction, initialized: Entries, p: seq<BlockId>, k: nat, x: LocalId)
    requires Accepted(f, initialized) && ArgumentsDeclared(f) && ConsumesAt(BlockMap(f.blocks), p, k, Local(x))
    ensures x in f.locals
  {
    hide BlockMap, Accepted, OperandsAt, ArgumentOperands, Ready, SafeOnEveryPath;
    var blocks := BlockMap(f.blocks);
    var b := p[|p| - 1];
    if Local(x) in OperandsAt(blocks[b], k) {
      AcceptedIsSafe(f, initialized);
      CheckedIsReady(f, p, k, Local(x));
    } else {
      assert PathTo(blocks, p, b);
    }
  }
}
